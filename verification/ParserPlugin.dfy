/**
 * The parser plugin (plugin_parser.c): what it passes on for a message, in which order, and what
 * becomes of the records of the parser when a session is closed or broken.
 */
module ParserPlugin {
  import opened Bytes
  import opened SortedTable
  import opened Pipeline
  import opened ParserTables

  /** What reading a message that is not denied comes to; garbage are templates that it replaced. */
  datatype Parsed = Parsed(garbage: bool) | Malformed | Failed

  /** The table with a record for a session and domain, as parser_rec_get leaves it. */
  function Added(v: seq<Rec>, session: nat, odid: u32): seq<Rec> {
    if Present(v, session, odid) then v else SortedTable.Insert(Rec(session, odid, false, []), v, RecKey)
  }

  /** The record of a session and domain is blocked. */
  predicate Denied(v: seq<Rec>, session: nat, odid: u32) {
    exists i :: 0 <= i < |v| && v[i].session == session && v[i].odid == odid && v[i].blocked
  }

  class Plugin {
    const parser: Parser
    /** The input plugin can close sessions on request. */
    const feedback: bool

    constructor (parser: Parser, feedback: bool)
      ensures this.parser == parser && this.feedback == feedback
    {
      this.parser, this.feedback := parser, feedback;
    }

    /**
     * Asks the input plugin to close a session and blocks it until then; if it cannot be asked, the
     * records of the session are removed and become garbage.
     */
    method RemoveSession(session: nat) returns (passed: seq<Kind>, closeRequest: bool)
      requires parser.Valid()
      modifies parser`recsValid, parser.recs
      ensures parser.Valid() && closeRequest == feedback
      ensures passed == if !feedback && !Free(old(parser.View()), session) then [Garbage] else []
      ensures parser.View() == if feedback then ParserTables.Blocked(old(parser.View()), session) else Without(old(parser.View()), session)
    {
      if !feedback {
        ghost var before := parser.View();
        var found, garbage := parser.SessionRemove(session);
        OnlySome(before, session);
        return if found then [Garbage] else [], false;
      }
      var _ := parser.SessionBlock(session);
      return [], true;
    }

    /**
     * One IPFIX Message; `rc` is what reading it comes to if its record is not blocked. The message is
     * passed exactly if it was read, and its garbage behind it. Malformed messages over UDP are dropped;
     * after any other error the session is given up.
     */
    method ProcessIpfix(rc: Parsed, session: nat, odid: u32, udp: bool) returns (passed: seq<Kind>, closeRequest: bool, destroyed: bool)
      requires parser.Valid() && session > 0
      modifies parser, parser.recs
      ensures parser.Valid() && (parser.recs == old(parser.recs) || fresh(parser.recs)) && Emission(passed)
      ensures Denied(old(parser.View()), session, odid) ==>
                passed == [] && !closeRequest && destroyed && parser.View() == old(parser.View())
      ensures !Denied(old(parser.View()), session, odid) && rc.Parsed? ==>
                && passed == (if rc.garbage then [Ipfix(odid), Garbage] else [Ipfix(odid)]) && !closeRequest && !destroyed
                && parser.View() == Added(old(parser.View()), session, odid)
      ensures !Denied(old(parser.View()), session, odid) && rc.Malformed? && udp ==>
                passed == [] && !closeRequest && destroyed && parser.View() == Added(old(parser.View()), session, odid)
      ensures !Denied(old(parser.View()), session, odid) && (rc.Failed? || (rc.Malformed? && !udp)) ==>
                && destroyed && closeRequest == feedback
                && (feedback ==> passed == [] && parser.View() == ParserTables.Blocked(Added(old(parser.View()), session, odid), session))
                && (!feedback ==> passed == [Garbage] && parser.View() == Without(old(parser.View()), session))
      ensures parser.View() == After(old(parser.View()), feedback, Message(session, odid, udp, rc))
    {
      hide Sorted, RecKey, NonNull, SortedTable.Insert, HasKey, Free, Without, ParserTables.Blocked;
      ghost var before := parser.View();
      passed, closeRequest, destroyed := [], false, false;
      KnownKey(before, Rec(session, odid, false, []));
      var at := parser.GetRec(session, odid);
      ghost var v := parser.View();
      FoundRecord(before, v, at, session, odid);
      if parser.recs[at].blocked {
        return [], false, true;
      }
      if rc.Parsed? {
        passed := passed + [Ipfix(odid)];
        if rc.garbage {
          passed := passed + [Garbage];
        }
        return;
      }
      destroyed := true;
      if rc.Malformed? && udp {
        return;
      }
      passed, closeRequest := RemoveSession(session);
    }

    /**
     * A Transport Session message is always passed. When it closes a known session, all records of the
     * session are removed, and the garbage they become is passed behind the message.
     */
    method ProcessSession(session: nat, close: bool) returns (passed: seq<Kind>)
      requires parser.Valid()
      modifies parser`recsValid, parser.recs
      ensures parser.Valid() && Emission(passed)
      ensures passed == if close && !Free(old(parser.View()), session) then [Session, Garbage] else [Session]
      ensures parser.View() == if close then Without(old(parser.View()), session) else old(parser.View())
    {
      if !close {
        return [Session];
      }
      ghost var before := parser.View();
      var found, garbage := parser.SessionRemove(session);
      OnlySome(before, session);
      passed := [Session];
      if found {
        passed := passed + [Garbage];
      }
    }
  }

  /** The record that was found or added tells whether the session is blocked. */
  lemma FoundRecord(before: seq<Rec>, v: seq<Rec>, at: nat, session: nat, odid: u32)
    requires Sorted(before, RecKey) && Sorted(v, RecKey) && v == Added(before, session, odid)
    requires at < |v| && v[at].session == session && v[at].odid == odid
    ensures v[at].blocked <==> Denied(before, session, odid)
    ensures v[at].blocked ==> v == before
    ensures !Free(v, session) && Without(v, session) == Without(before, session)
  {
    AddedWithout(before, session, odid);
    AddedKnown(before, session, odid);
    hide Without;
    BlockedRecord(before, v, at);
  }

  lemma BlockedRecord(before: seq<Rec>, v: seq<Rec>, at: nat)
    requires Sorted(before, RecKey) && Sorted(v, RecKey) && at < |v| && v == Added(before, v[at].session, v[at].odid)
    ensures v[at].blocked <==> Denied(before, v[at].session, v[at].odid)
  {
    AddedMembers(before, v[at].session, v[at].odid);
    hide Added, RecKey;
    if v[at].blocked {
      assert v[at] in before;
    }
    if Denied(before, v[at].session, v[at].odid) {
      var i :| 0 <= i < |before| && before[i].session == v[at].session && before[i].odid == v[at].odid && before[i].blocked;
      assert before[i] in v;
      var j :| 0 <= j < |v| && v[j] == before[i];
      SameRecord(v, at, j);
    }
  }

  lemma SameRecord(v: seq<Rec>, i: nat, j: nat)
    requires Sorted(v, RecKey) && i < |v| && j < |v| && v[i].session == v[j].session && v[i].odid == v[j].odid
    ensures i == j
  {
    KeyOrder(v[i], v[j]);
  }

  lemma AddedMembers(v: seq<Rec>, session: nat, odid: u32)
    requires Sorted(v, RecKey)
    ensures var r := Rec(session, odid, false, []);
            && Sorted(Added(v, session, odid), RecKey)
            && forall x :: x in Added(v, session, odid) <==> x in v || (x == r && !Present(v, session, odid))
  {
    var r := Rec(session, odid, false, []);
    KnownKey(v, r);
    if !Present(v, session, odid) {
      InsertKeeps(r, v, RecKey);
      hide SortedTable.Insert;
      var w := Added(v, session, odid);
      forall x ensures x in w <==> x in v || x == r {
        assert x in w <==> x in multiset(w);
        assert x in v <==> x in multiset(v);
      }
    }
  }

  lemma AddedWithout(v: seq<Rec>, session: nat, odid: u32)
    requires Sorted(v, RecKey)
    ensures Without(Added(v, session, odid), session) == Without(v, session)
  {
    var r := Rec(session, odid, false, []);
    KnownKey(v, r);
    if !Present(v, session, odid) {
      var p := InsertSplits(r, v, RecKey);
      hide SortedTable.Insert;
      var a, b := v[..p], v[p..];
      assert v == a + b;
      OnlyAppend(a + [r], b, session);
      OnlyAppend(a, [r], session);
      OnlyAppend(a, b, session);
      OnlyFront(r, [], session);
      assert [r] + [] == [r] && Without(a, session) + [] == Without(a, session);
    }
  }

  lemma {:induction false} OnlySome(s: seq<Rec>, session: nat)
    ensures ParserTables.Only(s, session) == [] <==> Free(s, session)
  {
    if s != [] {
      OnlySome(s[1..], session);
      assert s == [s[0]] + s[1..];
      hide Free;
      FreeFront(s, session);
    }
  }

  lemma FreeFront(s: seq<Rec>, session: nat)
    requires s != []
    ensures Free(s, session) <==> s[0].session != session && Free(s[1..], session)
  {
    assert forall i | 1 <= i < |s| :: s[i] == s[1..][i - 1];
  }

  // ---------------------------------------------------------------- sessions over runs

  datatype Event = Message(session: nat, odid: u32, udp: bool, rc: Parsed) | Closing(session: nat)

  function After(v: seq<Rec>, feedback: bool, e: Event): seq<Rec> {
    match e
    case Message(session, odid, udp, rc) =>
      var w := Added(v, session, odid);
      if Denied(v, session, odid) || rc.Parsed? || (rc.Malformed? && udp) then w
      else if feedback then ParserTables.Blocked(w, session)
      else Without(w, session)
    case Closing(session) => Without(v, session)
  }

  function AfterAll(v: seq<Rec>, feedback: bool, es: seq<Event>): seq<Rec>
    decreases |es|
  {
    if es == [] then v else AfterAll(After(v, feedback, es[0]), feedback, es[1..])
  }

  /** What the table says of a session and domain. */
  datatype Status = Absent | Open | Shut

  function StatusOf(v: seq<Rec>, session: nat, odid: u32): Status {
    if Denied(v, session, odid) then Shut else if Present(v, session, odid) then Open else Absent
  }

  /** What becomes of one session and domain, known nothing but its own status and that of the message. */
  function NextStatus(st: Status, session: nat, odid: u32, feedback: bool, e: Event, denied: bool): Status {
    match e
    case Message(s, o, udp, rc) =>
      if denied then st
      else
        var seen := if session == s && odid == o && st == Absent then Open else st;
        if rc.Parsed? || (rc.Malformed? && udp) || session != s then seen
        else if !feedback || seen == Absent then Absent
        else Shut
    case Closing(s) => if session == s then Absent else st
  }

  lemma WithoutMembers(v: seq<Rec>, session: nat)
    ensures forall x :: x in Without(v, session) <==> x in v && x.session != session
  {
    RemovalExact(v, session);
    hide Without, ParserTables.Only;
    var w, o := Without(v, session), ParserTables.Only(v, session);
    forall x ensures x in w <==> x in v && x.session != session {
      assert x in v <==> x in multiset(v);
      assert x in w <==> x in multiset(w);
      assert x in o <==> x in multiset(o);
    }
  }

  lemma BlockedMembers(v: seq<Rec>, session: nat)
    ensures forall x :: x in ParserTables.Blocked(v, session) <==>
                        (x in v && x.session != session) || (x.session == session && x.blocked && (x in v || x.(blocked := false) in v))
  {
    var w := ParserTables.Blocked(v, session);
    forall x ensures x in w <==> (x in v && x.session != session) || (x.session == session && x.blocked && (x in v || x.(blocked := false) in v)) {
      if x in w {
        var i :| 0 <= i < |w| && w[i] == x;
        assert v[i] in v;
      }
      var y := if x in v then x else x.(blocked := false);
      if y in v && (x == y || x == y.(blocked := true)) {
        var i :| 0 <= i < |v| && v[i] == y;
        assert w[i] in w;
      }
    }
  }

  lemma StatusByMembers(v: seq<Rec>, session: nat, odid: u32)
    ensures Denied(v, session, odid) <==> exists x :: x in v && x.session == session && x.odid == odid && x.blocked
    ensures Present(v, session, odid) <==> exists x :: x in v && x.session == session && x.odid == odid
  {
    if x :| x in v && x.session == session && x.odid == odid && x.blocked {
      var i :| 0 <= i < |v| && v[i] == x;
    }
    if x :| x in v && x.session == session && x.odid == odid {
      var i :| 0 <= i < |v| && v[i] == x;
    }
  }

  lemma {:induction false} WithoutStaysSorted(v: seq<Rec>, session: nat)
    requires Sorted(v, RecKey)
    ensures Sorted(Without(v, session), RecKey)
  {
    if v != [] {
      WithoutStaysSorted(v[1..], session);
      WithoutMembers(v[1..], session);
      hide RecKey;
      var w := Without(v[1..], session);
      forall i | 0 <= i < |w| ensures RecKey(v[0]) < RecKey(w[i]) {
        assert w[i] in v[1..];
      }
    }
  }

  lemma BlockedStaysSorted(v: seq<Rec>, session: nat)
    requires Sorted(v, RecKey)
    ensures Sorted(ParserTables.Blocked(v, session), RecKey)
  {
    forall i, j | 0 <= i < j < |v| ensures RecKey(ParserTables.Blocked(v, session)[i]) < RecKey(ParserTables.Blocked(v, session)[j]) {
      assert RecKey(v[i]) < RecKey(v[j]);
    }
  }

  lemma AddedStatus(v: seq<Rec>, s: nat, o: u32, session: nat, odid: u32)
    requires Sorted(v, RecKey)
    ensures var st := StatusOf(v, session, odid);
            StatusOf(Added(v, s, o), session, odid) == if session == s && odid == o && st == Absent then Open else st
  {
    AddedMembers(v, s, o);
    var w := Added(v, s, o);
    hide Added, Denied, Present;
    StatusByMembers(v, session, odid);
    StatusByMembers(v, s, o);
    StatusByMembers(w, session, odid);
    var r := Rec(s, o, false, []);
    assert !Present(v, s, o) ==> r in w;
  }

  lemma WithoutStatus(v: seq<Rec>, s: nat, session: nat, odid: u32)
    ensures StatusOf(Without(v, s), session, odid) == if session == s then Absent else StatusOf(v, session, odid)
  {
    WithoutMembers(v, s);
    hide Without, Denied, Present;
    StatusByMembers(v, session, odid);
    StatusByMembers(Without(v, s), session, odid);
  }

  lemma BlockedStatus(v: seq<Rec>, s: nat, session: nat, odid: u32)
    ensures var st := StatusOf(v, session, odid);
            StatusOf(ParserTables.Blocked(v, s), session, odid) == if session == s && st != Absent then Shut else st
  {
    var w := ParserTables.Blocked(v, s);
    if i :| 0 <= i < |v| && v[i].session == session && v[i].odid == odid && (v[i].blocked || session == s) {
      assert w[i].session == session && w[i].odid == odid && w[i].blocked;
    }
    if i :| 0 <= i < |v| && v[i].session == session && v[i].odid == odid {
      assert w[i].session == session && w[i].odid == odid;
    }
    if i :| 0 <= i < |w| && w[i].session == session && w[i].odid == odid {
      assert v[i].session == session && v[i].odid == odid;
    }
  }

  /** Every event changes each session and domain as its own status says. */
  lemma StatusStep(v: seq<Rec>, feedback: bool, e: Event, session: nat, odid: u32)
    requires Sorted(v, RecKey)
    ensures Sorted(After(v, feedback, e), RecKey)
    ensures StatusOf(After(v, feedback, e), session, odid)
            == NextStatus(StatusOf(v, session, odid), session, odid, feedback, e,
                          e.Message? && StatusOf(v, e.session, e.odid) == Shut)
  {
    hide Without, ParserTables.Blocked, Denied, Present, RecKey, Sorted;
    match e {
      case Message(s, o, udp, rc) =>
        var w := Added(v, s, o);
        AddedMembers(v, s, o);
        AddedStatus(v, s, o, session, odid);
        AddedKnown(v, s, o);
        hide Added;
        BlockedStaysSorted(w, s);
        WithoutStaysSorted(w, s);
        BlockedStatus(w, s, session, odid);
        WithoutStatus(w, s, session, odid);
      case Closing(s) =>
        WithoutStaysSorted(v, s);
        WithoutStatus(v, s, session, odid);
    }
  }

  lemma AddedKnown(v: seq<Rec>, session: nat, odid: u32)
    ensures Denied(v, session, odid) ==> Added(v, session, odid) == v
  {
  }

  /** Over UDP no sequence of messages, parsed, denied or malformed, removes or blocks a record. */
  lemma {:induction false} UdpKeepsAll(v: seq<Rec>, feedback: bool, es: seq<Event>)
    requires Sorted(v, RecKey) && forall e | e in es :: e.Message? && e.udp && !e.rc.Failed?
    ensures forall x | x in v :: x in AfterAll(v, feedback, es)
    ensures forall x | x in AfterAll(v, feedback, es) :: x in v || !x.blocked
    decreases |es|
  {
    if es != [] {
      var e := es[0];
      assert e in es;
      hide RecKey, Sorted, Denied, Present;
      AddedMembers(v, e.session, e.odid);
      UdpKeepsAll(After(v, feedback, e), feedback, es[1..]);
    }
  }

  /**
   * A malformed message over another transport, or any failure, leaves no open record of its session: all
   * are blocked, or removed if the input plugin cannot close the session. Other sessions keep theirs.
   */
  lemma BrokenGivenUp(v: seq<Rec>, feedback: bool, session: nat, odid: u32, udp: bool, rc: Parsed)
    requires Sorted(v, RecKey) && !Denied(v, session, odid) && (rc.Failed? || (rc.Malformed? && !udp))
    ensures var w := After(v, feedback, Message(session, odid, udp, rc));
            && (forall x | x in w && x.session == session :: feedback && x.blocked)
            && (forall x: Rec | x.session != session :: x in w <==> x in v)
  {
    var w := Added(v, session, odid);
    AddedMembers(v, session, odid);
    BlockedMembers(w, session);
    WithoutMembers(w, session);
    hide Added, Without, ParserTables.Blocked, Denied, RecKey;
  }

  /** Which domains of a session are blocked by that: those known so far, and no others. */
  lemma DeniedExactly(v: seq<Rec>, session: nat, odid: u32, udp: bool, rc: Parsed, other: u32)
    requires Sorted(v, RecKey) && !Denied(v, session, odid) && (rc.Failed? || (rc.Malformed? && !udp))
    ensures Denied(After(v, true, Message(session, odid, udp, rc)), session, other) <==> other == odid || Present(v, session, other)
  {
    StatusStep(v, true, Message(session, odid, udp, rc), session, other);
    hide After;
    StatusByMembers(v, session, other);
    hide Present, Denied;
  }

  /** A blocked record stays blocked, and its messages denied, until its session is closed. */
  lemma {:induction false} StaysDenied(v: seq<Rec>, es: seq<Event>, session: nat, odid: u32)
    requires Sorted(v, RecKey) && Denied(v, session, odid) && forall e | e in es :: e != Closing(session)
    ensures Denied(AfterAll(v, true, es), session, odid)
    decreases |es|
  {
    if es != [] {
      assert es[0] in es;
      StatusStep(v, true, es[0], session, odid);
      hide After, Denied, Present, RecKey, Sorted;
      forall e | e in es[1..] ensures e != Closing(session) {
        assert e in es;
      }
      StaysDenied(After(v, true, es[0]), es[1..], session, odid);
    }
  }

  /** So a session that was blocked is heard again under a domain it had not used. */
  lemma NewDomainHeard()
    ensures var v := After([], true, Message(1, 0, false, Malformed));
            Denied(v, 1, 0) && !Denied(v, 1, 7) && !Denied(After(v, true, Message(1, 7, false, Parsed(false))), 1, 7)
  {
    DeniedExactly([], 1, 0, false, Malformed, 0);
    DeniedExactly([], 1, 0, false, Malformed, 7);
    var v := After([], true, Message(1, 0, false, Malformed));
    StatusStep([], true, Message(1, 0, false, Malformed), 1, 7);
    StatusStep(v, true, Message(1, 7, false, Parsed(false)), 1, 7);
    hide After, Denied, Present;
  }
}
