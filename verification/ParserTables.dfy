/**
 * The tables of the IPFIX parser (parser.c): one record for each Transport Session and Observation
 * Domain ID, one entry for each stream within, and the operations on whole sessions.
 */
module ParserTables {
  import opened Bytes
  import opened SortedTable

  /** Expected sequence number of one stream. */
  datatype Info = Info(id: u16, seen: bool, seqNum: u32)

  /** A Transport Session is known by its address, which is not zero. */
  datatype Rec = Rec(session: nat, odid: u32, blocked: bool, infos: seq<Info>)

  /** Sorted primarily by session. */
  function RecKey(r: Rec): int {
    r.session * U32_SIZE + r.odid
  }

  function InfoKey(i: Info): int {
    i.id
  }

  predicate RecLess(a: Rec, b: Rec) {
    a.session < b.session || (a.session == b.session && a.odid < b.odid)
  }

  /** One number for both parts of the key: the order is that of parser_rec_cmp. */
  lemma KeyOrder(a: Rec, b: Rec)
    ensures RecKey(a) < RecKey(b) <==> RecLess(a, b)
    ensures RecKey(a) == RecKey(b) <==> a.session == b.session && a.odid == b.odid
  {
  }

  /** Records of a session, and all the others, in order. */
  function Only(s: seq<Rec>, session: nat): seq<Rec> {
    if s == [] then [] else (if s[0].session == session then [s[0]] else []) + Only(s[1..], session)
  }

  function Without(s: seq<Rec>, session: nat): seq<Rec> {
    if s == [] then [] else (if s[0].session == session then [] else [s[0]]) + Without(s[1..], session)
  }

  function Blocked(s: seq<Rec>, session: nat): seq<Rec> {
    seq(|s|, i requires 0 <= i < |s| => if s[i].session == session then s[i].(blocked := true) else s[i])
  }

  /** No record of the session. */
  predicate Free(s: seq<Rec>, session: nat) {
    forall i | 0 <= i < |s| :: s[i].session != session
  }

  predicate All(s: seq<Rec>, session: nat) {
    forall i | 0 <= i < |s| :: s[i].session == session
  }

  lemma OnlyFront(r: Rec, s: seq<Rec>, session: nat)
    ensures Only([r] + s, session) == (if r.session == session then [r] else []) + Only(s, session)
    ensures Without([r] + s, session) == (if r.session == session then [] else [r]) + Without(s, session)
  {
    assert ([r] + s)[1..] == s;
  }

  lemma OnlyMore(r: Rec, a: seq<Rec>, b: seq<Rec>, session: nat)
    requires Only(a + b, session) == Only(a, session) + Only(b, session)
    requires Without(a + b, session) == Without(a, session) + Without(b, session)
    ensures Only([r] + a + b, session) == Only([r] + a, session) + Only(b, session)
    ensures Without([r] + a + b, session) == Without([r] + a, session) + Without(b, session)
  {
    hide Only, Without;
    OnlyFront(r, a, session);
    OnlyFront(r, a + b, session);
    assert [r] + a + b == [r] + (a + b);
  }

  lemma {:induction false} OnlyAppend(a: seq<Rec>, b: seq<Rec>, session: nat)
    ensures Only(a + b, session) == Only(a, session) + Only(b, session)
    ensures Without(a + b, session) == Without(a, session) + Without(b, session)
  {
    if a == [] {
      assert a + b == b;
    } else {
      OnlyAppend(a[1..], b, session);
      OnlyMore(a[0], a[1..], b, session);
      assert a == [a[0]] + a[1..];
    }
  }

  lemma {:induction false} OnlyFree(s: seq<Rec>, session: nat)
    requires Free(s, session)
    ensures Only(s, session) == [] && Without(s, session) == s
  {
    if s != [] {
      OnlyFree(s[1..], session);
    }
  }

  lemma {:induction false} OnlyAll(s: seq<Rec>, session: nat)
    requires All(s, session)
    ensures Only(s, session) == s && Without(s, session) == []
  {
    if s != [] {
      OnlyAll(s[1..], session);
    }
  }

  /** A table that is split around the block of a session. */
  lemma SplitOnly(a: seq<Rec>, b: seq<Rec>, c: seq<Rec>, session: nat)
    requires Free(a, session) && All(b, session) && Free(c, session)
    ensures Only(a + b + c, session) == b && Without(a + b + c, session) == a + c
    ensures Blocked(a + b + c, session) == a + Blocked(b, session) + c
  {
    hide Only, Without;
    OnlyAppend(a + b, c, session);
    OnlyAppend(a, b, session);
    OnlyFree(a, session);
    OnlyFree(c, session);
    OnlyAll(b, session);
    assert [] + b + [] == b && a + [] + c == a + c;
    hide Free, All;
    BlockedSplit(a, b, c, session);
  }

  lemma BlockedSplit(a: seq<Rec>, b: seq<Rec>, c: seq<Rec>, session: nat)
    requires Free(a, session) && Free(c, session)
    ensures Blocked(a + b + c, session) == a + Blocked(b, session) + c
  {
    var s := a + b + c;
    forall i | 0 <= i < |s| ensures Blocked(s, session)[i] == (a + Blocked(b, session) + c)[i] {
      assert s[i] == if i < |a| then a[i] else if i < |a| + |b| then b[i - |a|] else c[i - |a| - |b|];
    }
  }

  /** Removal loses the records of the session and no other one. */
  lemma {:induction false} RemovalExact(s: seq<Rec>, session: nat)
    ensures All(Only(s, session), session) && Free(Without(s, session), session)
    ensures multiset(s) == multiset(Only(s, session)) + multiset(Without(s, session))
  {
    if s != [] {
      RemovalExact(s[1..], session);
      RemovalMore(s[0], s[1..], session);
      assert s == [s[0]] + s[1..];
    }
  }

  lemma RemovalMore(r: Rec, s: seq<Rec>, session: nat)
    requires All(Only(s, session), session) && Free(Without(s, session), session)
    requires multiset(s) == multiset(Only(s, session)) + multiset(Without(s, session))
    ensures All(Only([r] + s, session), session) && Free(Without([r] + s, session), session)
    ensures multiset([r] + s) == multiset(Only([r] + s, session)) + multiset(Without([r] + s, session))
  {
    hide Only, Without;
    OnlyFront(r, s, session);
  }

  /** In a sorted table the records of a session are contiguous. */
  lemma Contiguous(s: seq<Rec>, i: nat, k: nat, j: nat)
    requires Sorted(s, RecKey) && i <= k <= j < |s| && s[i].session == s[j].session
    ensures s[k].session == s[i].session
  {
    if i < k { KeyOrder(s[i], s[k]); }
    if k < j { KeyOrder(s[k], s[j]); }
  }

  // ---------------------------------------------------------------- what a loop over sessions does

  datatype CbAction = KeepIt | BlockIt | RemoveIt

  /** The effect of calling back for every session, when each callback leaves its session alone, blocks or removes it. */
  function Effect(s: seq<Rec>, cb: nat -> CbAction): seq<Rec> {
    if s == [] then []
    else
      var r := s[|s| - 1];
      Effect(s[..|s| - 1], cb) + match cb(r.session)
                                 case KeepIt => [r]
                                 case BlockIt => [r.(blocked := true)]
                                 case RemoveIt => []
  }

  /** Session by session: kept as it was, blocked, or gone. */
  lemma {:induction false} EffectPerSession(s: seq<Rec>, cb: nat -> CbAction, session: nat)
    ensures Only(Effect(s, cb), session) == if cb(session).KeepIt? then Only(s, session)
                                            else if cb(session).BlockIt? then Blocked(Only(s, session), session)
                                            else []
  {
    hide Effect, Only, Blocked;
    if s == [] {
      StartEmpty(cb);
      OnlyOne(Rec(0, 0, false, []), session);
      NothingToBlock(session);
    } else {
      var n := |s| - 1;
      EffectPerSession(s[..n], cb, session);
      EffectSnoc(s, n, cb);
      EffectMore(s[..n], Effect(s[..n], cb), s[n], cb, session);
      assert s == s[..n] + [s[n]] && s[..n + 1] == s;
    }
  }

  lemma EffectMore(p: seq<Rec>, e: seq<Rec>, r: Rec, cb: nat -> CbAction, session: nat)
    requires Only(e, session) == if cb(session).KeepIt? then Only(p, session)
                                 else if cb(session).BlockIt? then Blocked(Only(p, session), session)
                                 else []
    ensures Only(e + match cb(r.session) case KeepIt => [r] case BlockIt => [r.(blocked := true)] case RemoveIt => [], session)
            == if cb(session).KeepIt? then Only(p + [r], session)
               else if cb(session).BlockIt? then Blocked(Only(p + [r], session), session)
               else []
  {
    hide Only, Blocked;
    var kept := match cb(r.session) case KeepIt => [r] case BlockIt => [r.(blocked := true)] case RemoveIt => [];
    OnlyAppend(e, kept, session);
    OnlyAppend(p, [r], session);
    OnlyOne(r, session);
    OnlyOne(r.(blocked := true), session);
    if r.session == session {
      BlockedSnoc(Only(p, session), r, session);
    } else {
      assert Only(p, session) + [] == Only(p, session) && Only(e, session) + [] == Only(e, session);
    }
  }

  lemma OnlyOne(r: Rec, session: nat)
    ensures Only([r], session) == (if r.session == session then [r] else []) && Only([], session) == []
  {
    OnlyFront(r, [], session);
    assert [r] + [] == [r];
  }

  /** The sessions of a table in order. */
  function Sessions(s: seq<Rec>): seq<nat> {
    if s == [] then []
    else
      var n := |s| - 1;
      if n > 0 && s[n - 1].session == s[n].session then Sessions(s[..n]) else Sessions(s[..n]) + [s[n].session]
  }

  /** Every session of the table occurs exactly once, in increasing order. */
  lemma {:induction false} SessionsDistinct(s: seq<Rec>)
    requires Sorted(s, RecKey)
    ensures forall i | 0 <= i < |s| :: s[i].session in Sessions(s)
    ensures s != [] ==> forall i | 0 <= i < |Sessions(s)| :: Sessions(s)[i] <= s[|s| - 1].session
    ensures forall i, j | 0 <= i < j < |Sessions(s)| :: Sessions(s)[i] < Sessions(s)[j]
  {
    if s != [] {
      var n := |s| - 1;
      SessionsDistinct(s[..n]);
      if n > 0 {
        KeyOrder(s[n - 1], s[n]);
        assert s[..n][n - 1] == s[n - 1];
        assert s[n - 1].session <= s[n].session;
      }
      var before := Sessions(s[..n]);
      forall i | 0 <= i < |Sessions(s)| ensures Sessions(s)[i] <= s[n].session {
        if i < |before| {
          assert n > 0;
          assert Sessions(s)[i] == before[i] <= s[..n][n - 1].session;
        }
      }
      forall i | 0 <= i < |s| ensures s[i].session in Sessions(s) {
        if i < n {
          assert s[..n][i] == s[i];
        }
      }
    }
  }

  // ---------------------------------------------------------------- the parser

  predicate Present(s: seq<Rec>, session: nat, odid: u32) {
    exists i :: 0 <= i < |s| && s[i].session == session && s[i].odid == odid
  }

  predicate NonNull(s: seq<Rec>) {
    forall i | 0 <= i < |s| :: s[i].session > 0
  }

  class Parser {
    var recs: array<Rec>
    var recsValid: nat

    ghost predicate Valid()
      reads this, recs
    {
      && 0 < recs.Length && recsValid <= recs.Length
      && Sorted(recs[..recsValid], RecKey) && NonNull(recs[..recsValid])
    }

    function View(): seq<Rec>
      requires recsValid <= recs.Length
      reads this, recs
    {
      recs[..recsValid]
    }

    constructor (defaultSize: nat)
      requires defaultSize > 0
      ensures Valid() && fresh(recs) && View() == []
    {
      recs := new Rec[defaultSize](_ => Rec(0, 0, false, []));
      recsValid := 0;
    }

    method FindRec(session: nat, odid: u32) returns (found: bool, at: nat)
      requires Valid()
      ensures found <==> Present(View(), session, odid)
      ensures found ==> at < recsValid && recs[at].session == session && recs[at].odid == odid
    {
      var probe := Rec(session, odid, false, []);
      found, at := Search(recs[..recsValid], RecKey, RecKey(probe));
      forall i | 0 <= i < recsValid
        ensures RecKey(recs[i]) == RecKey(probe) <==> recs[i].session == session && recs[i].odid == odid
      {
        KeyOrder(recs[i], probe);
      }
      if found {
        assert View()[at].session == session;
      }
    }

    /** Finds the record of a session and domain, or adds one: exactly one, in its place. */
    method GetRec(session: nat, odid: u32) returns (at: nat)
      requires Valid() && session > 0
      modifies this, recs
      ensures Valid() && (recs == old(recs) || fresh(recs))
      ensures at < recsValid && recs[at].session == session && recs[at].odid == odid
      ensures var s, r := old(View()), Rec(session, odid, false, []);
              View() == if HasKey(s, RecKey, RecKey(r)) then s else Insert(r, s, RecKey)
    {
      hide Sorted, HasKey, Insert, RecKey, NonNull, Present;
      ghost var s := View();
      var rec := Rec(session, odid, false, []);
      var found;
      found, at := FindRec(session, odid);
      KnownKey(s, rec);
      if found {
        return;
      }
      AddRec(rec);
      InsertKeeps(rec, s, RecKey);
      assert HasKey(View(), RecKey, RecKey(rec));
      KnownKey(View(), rec);
      found, at := FindRec(session, odid);
    }

    /** At the end, then sorted into place. */
    method AddRec(rec: Rec)
      requires Valid() && rec.session > 0 && !HasKey(View(), RecKey, RecKey(rec))
      modifies this, recs
      ensures Valid() && (recs == old(recs) || fresh(recs)) && View() == Insert(rec, old(View()), RecKey)
    {
      hide Sorted, HasKey, Insert, RecKey, NonNull;
      ghost var s := View();
      if recsValid == recs.Length {
        Grow();
      }
      recs[recsValid] := rec;
      recsValid := recsValid + 1;
      assert recs[..recsValid - 1] == s;
      Sort();
      InsertKeeps(rec, s, RecKey);
      InsertNonNull(rec, s);
    }

    method Grow()
      requires Valid()
      modifies this`recs
      ensures Valid() && fresh(recs) && recs.Length > recsValid && View() == old(View())
    {
      var n, old_ := recsValid, recs;
      var grown := new Rec[2 * recs.Length](k requires 0 <= k < 2 * old_.Length reads old_ =>
                                              if k < old_.Length then old_[k] else Rec(0, 0, false, []));
      recs := grown;
      assert forall k | 0 <= k < n :: grown[k] == old_[k];
    }

    /** Stands for qsort on a table of which only the last record is out of place: by SortedUnique no other arrangement is sorted. */
    method Sort()
      requires 0 < recsValid <= recs.Length
      modifies recs
      ensures recs[..recsValid] == Insert(old(recs[recsValid - 1]), old(recs[..recsValid - 1]), RecKey)
    {
      hide Insert;
      var r := Insert(recs[recsValid - 1], recs[..recsValid - 1], RecKey);
      for i := 0 to |r|
        invariant recs[..i] == r[..i]
      {
        recs[i] := r[i];
      }
      assert r[..recsValid] == r;
    }

    /** First record of a session, and the one behind its last. */
    method FindBlock(session: nat) returns (start: nat, end: nat)
      requires Valid()
      ensures start <= end <= recsValid && (start < end || (start == end == recsValid && Free(View(), session)))
      ensures Free(View()[..start], session) && All(View()[start..end], session) && Free(View()[end..], session)
    {
      start := 0;
      while start < recsValid
        invariant start <= recsValid && Free(recs[..start], session)
      {
        if recs[start].session == session {
          break;
        }
        start := start + 1;
      }
      if start == recsValid {
        return start, start;
      }
      end := start + 1;
      while end < recsValid
        invariant start < end <= recsValid && All(recs[start..end], session)
      {
        if recs[end].session != session {
          break;
        }
        end := end + 1;
      }
      forall k | end <= k < recsValid ensures recs[k].session != session {
        if recs[k].session == session {
          Contiguous(View(), start, end, k);
        }
      }
      assert View()[..start] == recs[..start] && View()[start..end] == recs[start..end];
    }

    /** Removes exactly the records of a session, which become garbage. */
    method SessionRemove(session: nat) returns (found: bool, garbage: seq<Rec>)
      requires Valid()
      modifies this`recsValid, recs
      ensures Valid()
      ensures View() == Without(old(View()), session) && garbage == Only(old(View()), session)
      ensures found <==> garbage != []
    {
      hide Sorted, RecKey, NonNull, Free, All, Only, Without;
      ghost var s := View();
      var start, end := FindBlock(session);
      assert s == s[..start] + s[start..end] + s[end..];
      SplitOnly(s[..start], s[start..end], s[end..], session);
      WithoutSorted(s, start, end);
      if start == recsValid {
        assert s[..start] == s && s[end..] == [] && s + [] == s;
        return false, [];
      }
      garbage := recs[start..end];
      assert garbage == s[start..end];
      Compact(start, end);
      found := true;
    }

    /** Moves what follows the block to where it began; the order stays. */
    method Compact(start: nat, end: nat)
      requires start <= end <= recsValid <= recs.Length
      modifies this`recsValid, recs
      ensures recsValid <= recs.Length && View() == old(View())[..start] + old(View())[end..]
    {
      ghost var s := View();
      var i, j := start, end;
      while j < recsValid
        invariant start <= i <= j <= recsValid == |s| && j - i == end - start
        invariant forall k | 0 <= k < i :: recs[k] == s[if k < start then k else k + (end - start)]
        invariant forall k | j <= k < recsValid :: recs[k] == s[k]
      {
        recs[i] := recs[j];
        i, j := i + 1, j + 1;
      }
      recsValid := i;
    }

    method SessionBlock(session: nat) returns (found: bool)
      requires Valid()
      modifies recs
      ensures Valid() && View() == Blocked(old(View()), session)
      ensures found <==> !Free(old(View()), session)
    {
      hide Sorted, RecKey, NonNull, Blocked;
      ghost var s := View();
      var start, end := FindBlock(session);
      assert s == s[..start] + s[start..end] + s[end..];
      SplitOnly(s[..start], s[start..end], s[end..], session);
      BlockedSorted(s, session);
      if start == recsValid {
        assert s[start..end] == [] && s[..start] + [] + s[end..] == s;
        NothingToBlock(session);
        return false;
      }
      assert s[start].session == session by { assert s[start..end][0] == s[start]; }
      BlockRange(start, session);
      return true;
    }

    /** The loop over the block; it stops at another session. */
    method BlockRange(start: nat, session: nat)
      requires start < recsValid <= recs.Length && Sorted(View(), RecKey) && recs[start].session == session
      requires Free(View()[..start], session)
      modifies recs
      ensures View() == Blocked(old(View()), session)
    {
      ghost var s := View();
      assert forall k | 0 <= k < start :: s[k] == s[..start][k];
      var idx := start;
      while idx < recsValid
        invariant start <= idx <= recsValid
        invariant forall k | 0 <= k < recsValid :: recs[k] == if k < idx then Blocked(s, session)[k] else s[k]
      {
        if recs[idx].session != session {
          NoneBehind(s, start, idx, session);
          break;
        }
        recs[idx] := recs[idx].(blocked := true);
        idx := idx + 1;
      }
    }

    /**
     * Calls back once for every session, although the callback may block or remove the session it is
     * called for while the loop runs.
     */
    method SessionFor(cb: nat -> CbAction) returns (called: seq<nat>)
      requires Valid()
      modifies this`recsValid, recs
      ensures Valid()
      ensures called == Sessions(old(View())) && View() == Effect(old(View()), cb)
    {
      hide Sorted, RecKey, NonNull, Effect, Sessions, Only, Without, Blocked;
      ghost var s := View();
      ghost var k, e := 0, [];
      StartEmpty(cb);
      var now, idx := 0, 0;
      called := [];
      assert s[..0] == [] && [] + s[0..] == s;
      while idx < recsValid
        invariant Valid() && k <= |s| && e == Effect(s[..k], cb) && idx <= |e|
        invariant View() == e + s[k..]
        invariant called == Sessions(s[..k])
        invariant now == if k == 0 then 0 else s[k - 1].session
        invariant k == 0 || k == |s| || s[k].session != s[k - 1].session
        invariant forall j | idx <= j < |e| :: e[j].session == now
        decreases |s| - k, recsValid - idx
      {
        var session := View()[idx].session;
        if session == now {
          NullFree(s, k);
          assert idx < |e|;
          idx := idx + 1;
          continue;
        }
        NextAt(View(), e, s, k, idx, now);
        ghost var m := BlockEnd(s, k);
        Callback(session, cb, s, k, m);
        now := session;
        called := called + [now];
        k, e := m, Effect(s[..m], cb);
      }
      assert k == |s|;
      assert s[..k] == s && e + s[k..] == e;
    }

    /** The callback for the session that begins at `k`, which may change the table while the loop runs. */
    method Callback(session: nat, cb: nat -> CbAction, ghost s: seq<Rec>, ghost k: nat, ghost m: nat)
      requires k < |s| && session == s[k].session
      requires Valid() && Sorted(s, RecKey) && k < m <= |s| && View() == Effect(s[..k], cb) + s[k..]
      requires k == 0 || s[k].session != s[k - 1].session
      requires (forall i | k <= i < m :: s[i].session == s[k].session) && (m < |s| ==> s[m].session != s[k].session)
      modifies this`recsValid, recs
      ensures Valid() && View() == Effect(s[..m], cb) + s[m..]
      ensures Sessions(s[..m]) == Sessions(s[..k]) + [s[k].session] && |Effect(s[..m], cb)| >= |Effect(s[..k], cb)|
      ensures forall j | |Effect(s[..k], cb)| <= j < |Effect(s[..m], cb)| :: Effect(s[..m], cb)[j].session == s[k].session
    {
      hide Effect, Sessions, Only, Without, Blocked, Sorted, RecKey, NonNull;
      CallbackEffect(s, k, m, cb);
      match cb(session) {
        case KeepIt =>
        case BlockIt => var _ := SessionBlock(session);
        case RemoveIt => var _, _ := SessionRemove(session);
      }
    }
  }

  /** Where the loop finds another session, the next block begins. */
  lemma NextAt(view: seq<Rec>, e: seq<Rec>, s: seq<Rec>, k: nat, idx: nat, now: nat)
    requires k <= |s| && view == e + s[k..] && idx < |view| && idx <= |e| && view[idx].session != now
    requires forall j | idx <= j < |e| :: e[j].session == now
    ensures idx == |e| && k < |s| && view[idx] == s[k]
  {
    assert forall j | 0 <= j < |e| :: view[j] == e[j];
  }

  lemma InsertNonNull(rec: Rec, s: seq<Rec>)
    requires Sorted(s, RecKey) && !HasKey(s, RecKey, RecKey(rec)) && NonNull(s) && rec.session > 0
    ensures NonNull(Insert(rec, s, RecKey))
  {
    var p := InsertSplits(rec, s, RecKey);
    hide Insert, Sorted, HasKey;
  }

  /** What one callback makes of the table, and which records it leaves to be skipped. */
  lemma CallbackEffect(s: seq<Rec>, k: nat, m: nat, cb: nat -> CbAction)
    requires Sorted(s, RecKey) && k < m <= |s|
    requires k == 0 || s[k].session != s[k - 1].session
    requires (forall i | k <= i < m :: s[i].session == s[k].session) && (m < |s| ==> s[m].session != s[k].session)
    ensures var e, e', session := Effect(s[..k], cb), Effect(s[..m], cb), s[k].session;
            && e' + s[m..] == (if cb(session).KeepIt? then e + s[k..]
                               else if cb(session).BlockIt? then Blocked(e + s[k..], session)
                               else Without(e + s[k..], session))
            && |e| <= |e'| && (forall j | |e| <= j < |e'| :: e'[j].session == session)
    ensures Sessions(s[..m]) == Sessions(s[..k]) + [s[k].session]
  {
    hide Effect, Sessions, Only, Without, Blocked, Sorted, RecKey;
    NextSession(s, k, m, cb);
    var e, session := Effect(s[..k], cb), s[k].session;
    SplitOnly(e, s[k..m], s[m..], session);
    BlockedAll(s[k..m], session);
    hide Free;
    assert e + s[k..m] + s[m..] == e + s[k..];
    assert e + [] == e;
  }

  lemma NullFree(s: seq<Rec>, k: nat)
    requires NonNull(s) && k <= |s|
    ensures k < |s| ==> s[k].session > 0
  {
  }

  lemma StartEmpty(cb: nat -> CbAction)
    ensures Effect([], cb) == [] && Sessions([]) == []
  {
  }

  lemma NothingToBlock(session: nat)
    ensures Blocked([], session) == []
  {
  }

  lemma BlockedAll(s: seq<Rec>, session: nat)
    requires All(s, session)
    ensures All(Blocked(s, session), session)
  {
  }

  /** What follows the records of a session. */
  lemma WithoutSorted(s: seq<Rec>, start: nat, end: nat)
    requires start <= end <= |s| && Sorted(s, RecKey) && NonNull(s)
    ensures Sorted(s[..start] + s[end..], RecKey) && NonNull(s[..start] + s[end..])
  {
    var r := s[..start] + s[end..];
    assert forall i | 0 <= i < |r| :: r[i] == s[if i < start then i else i + end - start];
    forall i, j | 0 <= i < j < |r| ensures RecKey(r[i]) < RecKey(r[j]) {
      assert r[i] == s[if i < start then i else i + end - start];
      assert r[j] == s[if j < start then j else j + end - start];
    }
  }

  lemma NoneBehind(s: seq<Rec>, start: nat, idx: nat, session: nat)
    requires Sorted(s, RecKey) && start <= idx < |s| && s[start].session == session && s[idx].session != session
    ensures forall k | idx <= k < |s| :: s[k].session != session
  {
    forall k | idx <= k < |s| ensures s[k].session != session {
      if s[k].session == session {
        Contiguous(s, start, idx, k);
      }
    }
  }

  lemma BlockedSorted(s: seq<Rec>, session: nat)
    requires Sorted(s, RecKey) && NonNull(s)
    ensures Sorted(Blocked(s, session), RecKey) && NonNull(Blocked(s, session))
  {
    forall i, j | 0 <= i < j < |s| ensures RecKey(Blocked(s, session)[i]) < RecKey(Blocked(s, session)[j]) {
      assert RecKey(s[i]) < RecKey(s[j]);
    }
  }

  lemma KnownKey(s: seq<Rec>, r: Rec)
    ensures HasKey(s, RecKey, RecKey(r)) <==> Present(s, r.session, r.odid)
  {
    forall i | 0 <= i < |s| ensures RecKey(s[i]) == RecKey(r) <==> s[i].session == r.session && s[i].odid == r.odid {
      KeyOrder(s[i], r);
    }
  }

  /** End of the block that begins at `k`. */
  ghost function BlockEnd(s: seq<Rec>, k: nat): (m: nat)
    requires k < |s|
    ensures k < m <= |s| && (forall i | k <= i < m :: s[i].session == s[k].session)
    ensures m < |s| ==> s[m].session != s[k].session
    decreases |s| - k
  {
    if k + 1 == |s| || s[k + 1].session != s[k].session then k + 1 else BlockEnd(s, k + 1)
  }

  /** Handling the next session: its block is split off, and its effect and its number are added. */
  lemma NextSession(s: seq<Rec>, k: nat, m: nat, cb: nat -> CbAction)
    requires Sorted(s, RecKey) && k < m <= |s|
    requires k == 0 || s[k].session != s[k - 1].session
    requires (forall i | k <= i < m :: s[i].session == s[k].session) && (m < |s| ==> s[m].session != s[k].session)
    ensures Sessions(s[..m]) == Sessions(s[..k]) + [s[k].session]
    ensures Free(Effect(s[..k], cb), s[k].session) && All(s[k..m], s[k].session) && Free(s[m..], s[k].session)
    ensures Effect(s[..m], cb) == Effect(s[..k], cb) + match cb(s[k].session)
                                                     case KeepIt => s[k..m]
                                                     case BlockIt => Blocked(s[k..m], s[k].session)
                                                     case RemoveIt => []
    ensures s[k..] == s[k..m] + s[m..]
  {
    hide Effect, Sessions, Blocked;
    BlockSessions(s, k, m);
    BlockEffect(s, k, m, cb);
    SessionsApart(s, k, m);
    EffectSessions(s, k, s[k].session, cb);
  }

  /** Other sessions come before and after. */
  lemma SessionsApart(s: seq<Rec>, k: nat, m: nat)
    requires Sorted(s, RecKey) && k < m <= |s| && (k == 0 || s[k].session != s[k - 1].session)
    requires (forall i | k <= i < m :: s[i].session == s[k].session) && (m < |s| ==> s[m].session != s[k].session)
    ensures (forall i | 0 <= i < k :: s[i].session != s[k].session) && (forall i | m <= i < |s| :: s[i].session != s[k].session)
  {
    forall i | m <= i < |s| ensures s[i].session != s[k].session {
      KeyOrder(s[k], s[m]);
      KeyOrder(s[m], s[i]);
    }
    forall i | 0 <= i < k ensures s[i].session != s[k].session {
      KeyOrder(s[i], s[k - 1]);
      KeyOrder(s[k - 1], s[k]);
    }
    hide RecKey;
  }

  lemma {:induction false} BlockSessions(s: seq<Rec>, k: nat, m: nat)
    requires k < m <= |s| && (k == 0 || s[k].session != s[k - 1].session)
    requires forall i | k <= i < m :: s[i].session == s[k].session
    ensures Sessions(s[..m]) == Sessions(s[..k]) + [s[k].session]
  {
    assert s[..m][..m - 1] == s[..m - 1];
    if m > k + 1 {
      BlockSessions(s, k, m - 1);
    }
  }

  lemma {:induction false} BlockEffect(s: seq<Rec>, k: nat, m: nat, cb: nat -> CbAction)
    requires k <= m <= |s| && k < |s| && forall i | k <= i < m :: s[i].session == s[k].session
    ensures Effect(s[..m], cb) == Effect(s[..k], cb) + match cb(s[k].session)
                                                     case KeepIt => s[k..m]
                                                     case BlockIt => Blocked(s[k..m], s[k].session)
                                                     case RemoveIt => []
  {
    if k < m {
      BlockEffect(s, k, m - 1, cb);
      EffectSnoc(s, m - 1, cb);
      hide Effect, Blocked;
      assert s[k..m] == s[k..m - 1] + [s[m - 1]];
      BlockedSnoc(s[k..m - 1], s[m - 1], s[k].session);
    } else {
      assert s[k..m] == [];
    }
  }

  lemma EffectSnoc(s: seq<Rec>, n: nat, cb: nat -> CbAction)
    requires n < |s|
    ensures Effect(s[..n + 1], cb) == Effect(s[..n], cb) + match cb(s[n].session)
                                                            case KeepIt => [s[n]]
                                                            case BlockIt => [s[n].(blocked := true)]
                                                            case RemoveIt => []
  {
    assert s[..n + 1][..n] == s[..n];
  }

  lemma BlockedSnoc(s: seq<Rec>, r: Rec, session: nat)
    requires r.session == session
    ensures Blocked(s + [r], session) == Blocked(s, session) + [r.(blocked := true)]
  {
  }

  lemma {:induction false} EffectSessions(s: seq<Rec>, k: nat, session: nat, cb: nat -> CbAction)
    requires k <= |s| && forall i | 0 <= i < k :: s[i].session != session
    ensures Free(Effect(s[..k], cb), session)
  {
    if k > 0 {
      EffectSessions(s, k - 1, session, cb);
      assert s[..k][..k - 1] == s[..k - 1];
    }
  }

  // ---------------------------------------------------------------- streams

  /** The streams of one record; most transports only use stream 0, which is looked at first. */
  class StreamCtx {
    var infos: array<Info>
    var infosValid: nat

    ghost predicate Valid()
      reads this, infos
    {
      0 < infos.Length && infosValid <= infos.Length && Sorted(infos[..infosValid], InfoKey)
    }

    function View(): seq<Info>
      requires infosValid <= infos.Length
      reads this, infos
    {
      infos[..infosValid]
    }

    constructor ()
      ensures Valid() && fresh(infos) && View() == []
    {
      infos := new Info[1](_ => Info(0, false, 0));
      infosValid := 0;
    }

    method FindInfo(id: u16) returns (found: bool, at: nat)
      requires Valid()
      ensures found <==> HasKey(View(), InfoKey, id)
      ensures found ==> at < infosValid && infos[at].id == id
    {
      if infosValid == 0 {
        return false, 0;
      }
      if infos[0].id == id {
        assert InfoKey(View()[0]) == id;
        return true, 0;
      }
      found, at := Search(infos[..infosValid], InfoKey, id);
    }

    /** Finds the entry of a stream, or adds one with nothing seen yet. */
    method GetInfo(id: u16) returns (at: nat)
      requires Valid()
      modifies this, infos
      ensures Valid() && (infos == old(infos) || fresh(infos))
      ensures at < infosValid && infos[at].id == id
      ensures var s, x := old(View()), Info(id, false, 0);
              View() == if HasKey(s, InfoKey, id) then s else Insert(x, s, InfoKey)
    {
      hide Sorted, HasKey, Insert;
      var found;
      found, at := FindInfo(id);
      if found {
        return;
      }
      ghost var s := View();
      if infosValid == infos.Length {
        Grow();
      }
      var x := Info(id, false, 0);
      InsertKeeps(x, s, InfoKey);
      infos[infosValid] := x;
      infosValid := infosValid + 1;
      assert infos[..infosValid - 1] == s;
      Sort();
      assert HasKey(View(), InfoKey, id);
      found, at := FindInfo(id);
    }

    method Grow()
      requires Valid()
      modifies this`infos
      ensures Valid() && fresh(infos) && infos.Length > infosValid && View() == old(View())
    {
      var old_ := infos;
      var grown := new Info[2 * infos.Length](k requires 0 <= k < 2 * old_.Length reads old_ =>
                                                if k < old_.Length then old_[k] else Info(0, false, 0));
      infos := grown;
      assert View() == old(View());
    }

    method Sort()
      requires 0 < infosValid <= infos.Length
      modifies infos
      ensures infos[..infosValid] == Insert(old(infos[infosValid - 1]), old(infos[..infosValid - 1]), InfoKey)
    {
      hide Insert;
      var r := Insert(infos[infosValid - 1], infos[..infosValid - 1], InfoKey);
      for i := 0 to |r|
        invariant infos[..i] == r[..i]
      {
        infos[i] := r[i];
      }
      assert r[..infosValid] == r;
    }
  }
}
