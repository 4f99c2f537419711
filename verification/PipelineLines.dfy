/**
 * Order, garbage and reference counters: everything on the way from a parser to one output is seen as
 * one line of messages, which the steps of the pipeline only shorten or extend at its far end.
 */
module PipelineLines {
  import opened Bytes
  import opened Pipeline

  // ---------------------------------------------------------------- lines

  /** Messages between the parsers and the output manager, the oldest first. */
  function MidFrom(st: seq<Stage>, j: nat): seq<Msg>
    requires j <= |st|
    decreases |st| - j
  {
    if j == |st| then [] else MidFrom(st, j + 1) + st[j].hand + st[j].inbox
  }

  function Pending(pend: seq<To>, l: nat): seq<Msg> {
    if pend == [] then [] else (if pend[0].out == l then [pend[0].msg] else []) + Pending(pend[1..], l)
  }

  function InHand(h: Hand): seq<Msg> {
    if h.Empty? then [] else [h.msg]
  }

  /** Messages that the output manager passed to output `l` and the output did not release. */
  function OutLine(s: Sys, l: nat): seq<Msg>
    requires l < |s.out|
  {
    InHand(s.out[l].hand) + s.out[l].inbox + Pending(s.pend, l)
  }

  /** The line from the parser of input `i` to output `l`. */
  function Line(s: Sys, l: nat, i: nat): seq<Msg>
    requires l < |s.out| && i < |s.src|
  {
    OutLine(s, l) + MidFrom(s.st, 0) + s.src[i].emit
  }

  predicate Sorted(q: seq<Msg>) {
    forall a, b | 0 <= a < b < |q| && q[a].src == q[b].src :: q[a].uid < q[b].uid
  }

  /** Messages on a line were issued by the parser they name, and are alive. */
  predicate Issued(m: Msg, src: seq<Source>, freed: set<Msg>) {
    && m.src < |src| && m.uid < src[m.src].uid && m !in freed
    && (m.kind.Garbage? ==> m.uid in src[m.src].garbage)
  }

  /** As long as a data message is on the line, so is all garbage that its parser issued after it. */
  ghost predicate Keeps(q: seq<Msg>, i: nat, src: seq<Source>)
    requires i < |src|
  {
    forall a, u | 0 <= a < |q| && q[a].src == i && q[a].IsData() && u in src[i].garbage && q[a].uid < u ::
      Msg(i, u, Garbage) in q
  }

  ghost predicate LineOk(q: seq<Msg>, i: nat, src: seq<Source>, freed: set<Msg>)
    requires i < |src|
  {
    && Sorted(q) && Keeps(q, i, src)
    && (forall a | 0 <= a < |q| :: Issued(q[a], src, freed))
  }

  ghost predicate LinesOk(s: Sys) {
    forall l, i | 0 <= l < |s.out| && 0 <= i < |s.src| :: LineOk(Line(s, l, i), i, s.src, s.freed)
  }

  ghost predicate SourcesOk(s: Sys) {
    forall i | 0 <= i < |s.src| ::
      && (forall a | 0 <= a < |s.src[i].emit| :: s.src[i].emit[a].src == i)
      && (forall u | u in s.src[i].garbage :: u < s.src[i].uid)
  }

  // ---------------------------------------------------------------- how a line may change

  /** Position in the line before one element at `p` was removed. */
  function Skip(p: nat, x: nat): nat {
    if x < p then x else x + 1
  }

  /** Taking out anything but garbage, or the oldest message, which may then be freed. */
  lemma Shrink(a: seq<Msg>, m: Msg, b: seq<Msg>, i: nat, src: seq<Source>, freed: set<Msg>, freed': set<Msg>)
    requires i < |src| && LineOk(a + [m] + b, i, src, freed) && (m.kind.Garbage? ==> a == [])
    requires freed' == freed || freed' == freed + {m}
    ensures LineOk(a + b, i, src, freed') && m !in a + b
  {
    var q, q' := a + [m] + b, a + b;
    var p := |a|;
    assert q[p] == m;
    forall x | 0 <= x < |q'| ensures q'[x] == q[Skip(p, x)] && q'[x] != m && Issued(q'[x], src, freed') {
      assert q'[x] == q[Skip(p, x)];
      if x < p { assert q[x] != m; } else { assert q[x + 1] != m; }
    }
    forall x, u | 0 <= x < |q'| && q'[x].src == i && q'[x].IsData() && u in src[i].garbage && q'[x].uid < u
      ensures Msg(i, u, Garbage) in q'
    {
      assert q[Skip(p, x)] == q'[x];
      var y :| 0 <= y < |q| && q[y] == Msg(i, u, Garbage);
      assert y == p ==> m.kind.Garbage? && p == 0;
      assert y != p;
      assert q'[if y < p then y else y - 1] == Msg(i, u, Garbage);
    }
    forall x, y | 0 <= x < y < |q'| && q'[x].src == q'[y].src ensures q'[x].uid < q'[y].uid {
      assert q'[x] == q[Skip(p, x)] && q'[y] == q[Skip(p, y)];
    }
  }

  /** A message of another source may join in any place where the order of its own source allows it. */
  lemma Join(a: seq<Msg>, y: Msg, b: seq<Msg>, c: seq<Msg>, i: nat, src: seq<Source>, freed: set<Msg>)
    requires i < |src| && LineOk(a + b, i, src, freed) && y.src != i
    requires forall x | 0 <= x < |b| :: b[x].src == i
    requires y.src < |src| && LineOk(a + c, y.src, src, freed) && c != [] && c[0] == y
    ensures LineOk(a + [y] + b, i, src, freed)
  {
    var q, q0, q1 := a + [y] + b, a + b, a + c;
    var p := |a|;
    assert q1[p] == y;
    forall x | 0 <= x < |q| ensures Issued(q[x], src, freed) && (x != p ==> q[x] == q0[if x < p then x else x - 1]) {
      if x < p { assert q[x] == q0[x]; } else if x > p { assert q[x] == q0[x - 1]; }
    }
    forall x, z | 0 <= x < z < |q| && q[x].src == q[z].src ensures q[x].uid < q[z].uid {
      if z == p {
        assert q1[x] == q[x];
      } else if z > p {
        assert q[z] == b[z - p - 1];
      }
    }
    forall x, u | 0 <= x < |q| && q[x].src == i && q[x].IsData() && u in src[i].garbage && q[x].uid < u
      ensures Msg(i, u, Garbage) in q
    {
      assert q0[if x < p then x else x - 1] == q[x];
      var z :| 0 <= z < |q0| && q0[z] == Msg(i, u, Garbage);
      assert q[Skip(p, z)] == q0[z];
    }
  }

  /** A parser passes on new messages, garbage last. */
  lemma Extend(q: seq<Msg>, i: nat, src: seq<Source>, freed: set<Msg>, kinds: seq<Kind>, c: Source)
    requires i < |src| && LineOk(q, i, src, freed) && (Emission(kinds) || kinds == [Garbage, Term] || (|kinds| == 1 && kinds[0].Periodic?))
    requires forall u | u in src[i].garbage :: u < src[i].uid
    requires forall m | m in freed && m.src == i :: m.uid < src[i].uid
    requires c.uid == src[i].uid + |kinds|
    requires c.garbage == src[i].garbage + set k | 0 <= k < |kinds| && kinds[k].Garbage? :: src[i].uid + k
    ensures LineOk(q + Numbered(i, src[i].uid, kinds), i, src[i := c], freed)
  {
    var added := Numbered(i, src[i].uid, kinds);
    var q' := q + added;
    forall x | 0 <= x < |q'| ensures Issued(q'[x], src[i := c], freed) {
      if x < |q| {
        assert q'[x] == q[x];
      } else {
        assert q'[x] == added[x - |q|];
      }
    }
    forall x, u | 0 <= x < |q'| && q'[x].src == i && q'[x].IsData() && u in c.garbage && q'[x].uid < u
      ensures Msg(i, u, Garbage) in q'
    {
      if u in src[i].garbage {
        assert q'[x] == q[x];
      } else {
        var k :| 0 <= k < |kinds| && kinds[k].Garbage? && u == src[i].uid + k;
        assert q'[|q| + k] == added[k] == Msg(i, u, Garbage);
      }
    }
    assert Sorted(q') by {
      forall x, y | 0 <= x < y < |q'| && q'[x].src == q'[y].src ensures q'[x].uid < q'[y].uid {
        assert y >= |q| ==> q'[y] == added[y - |q|];
        if x < |q| { assert q'[x] == q[x] && Issued(q[x], src, freed); } else { assert q'[x] == added[x - |q|]; }
      }
    }
  }

  // ---------------------------------------------------------------- the queues of the stages as one sequence

  function Below(st: seq<Stage>, lo: nat, j: nat): seq<Msg>
    requires lo <= j <= |st|
    decreases j - lo
  {
    if lo == j then [] else Below(st, lo + 1, j) + st[lo].hand + st[lo].inbox
  }

  lemma {:induction false} MidBelow(st: seq<Stage>, lo: nat, j: nat)
    requires lo <= j <= |st|
    ensures MidFrom(st, lo) == MidFrom(st, j) + Below(st, lo, j)
    decreases j - lo
  {
    if lo < j {
      MidBelow(st, lo + 1, j);
      var a, b, c, d := MidFrom(st, j), Below(st, lo + 1, j), st[lo].hand, st[lo].inbox;
      assert a + b + c + d == a + (b + c + d);
    } else {
      assert MidFrom(st, j) + [] == MidFrom(st, j);
    }
  }

  lemma {:induction false} BelowSame(st: seq<Stage>, st': seq<Stage>, lo: nat, j: nat)
    requires lo <= j <= |st| == |st'| && forall k | lo <= k < j :: st'[k] == st[k]
    ensures Below(st', lo, j) == Below(st, lo, j)
    decreases j - lo
  {
    if lo < j { BelowSame(st, st', lo + 1, j); }
  }

  lemma {:induction false} MidSame(st: seq<Stage>, st': seq<Stage>, j: nat)
    requires j <= |st| == |st'| && forall k | j <= k < |st| :: st'[k] == st[k]
    ensures MidFrom(st', j) == MidFrom(st, j)
    decreases |st| - j
  {
    if j < |st| { MidSame(st, st', j + 1); }
  }

  /** What one stage holds, within all that is under way. */
  lemma MidSplit(st: seq<Stage>, j: nat, x: Stage) returns (a: seq<Msg>, b: seq<Msg>)
    requires j < |st|
    ensures MidFrom(st, 0) == a + (st[j].hand + st[j].inbox) + b
    ensures MidFrom(st[j := x], 0) == a + (x.hand + x.inbox) + b
    ensures (j == |st| - 1 ==> a == []) && (j == 0 ==> b == [])
  {
    a, b := MidFrom(st, j + 1), Below(st, 0, j);
    MidAt(st, j);
    MidAt(st[j := x], j);
    BelowSame(st, st[j := x], 0, j);
    MidSame(st, st[j := x], j + 1);
  }

  lemma MidAt(st: seq<Stage>, j: nat)
    requires j < |st|
    ensures MidFrom(st, 0) == MidFrom(st, j + 1) + (st[j].hand + st[j].inbox) + Below(st, 0, j)
  {
    MidBelow(st, 0, j);
    var a, b, c := MidFrom(st, j + 1), st[j].hand, st[j].inbox;
    assert a + b + c == a + (b + c);
  }

  /** Moving a message from one stage into the ring of the next changes nothing. */
  lemma MidPush(st: seq<Stage>, j: nat, x: Stage, y: Stage)
    requires j + 1 < |st|
    requires y.hand + y.inbox + (x.hand + x.inbox) == st[j + 1].hand + st[j + 1].inbox + (st[j].hand + st[j].inbox)
    ensures MidFrom(st[j := x][j + 1 := y], 0) == MidFrom(st, 0)
  {
    var st' := st[j := x][j + 1 := y];
    MidBelow(st, 0, j);
    MidBelow(st', 0, j);
    BelowSame(st, st', 0, j);
    MidSame(st, st', j + 2);
    var a := MidFrom(st, j + 2);
    Assoc4(a, y.hand, y.inbox, x.hand, x.inbox);
    Assoc4(a, st[j + 1].hand, st[j + 1].inbox, st[j].hand, st[j].inbox);
  }

  lemma Assoc4(a: seq<Msg>, b: seq<Msg>, c: seq<Msg>, d: seq<Msg>, e: seq<Msg>)
    ensures a + b + c + d + e == a + (b + c + (d + e))
  {
  }

  // ---------------------------------------------------------------- reference counters

  /** Messages for which output `l` still counts. */
  function Active(out: seq<Out>, pend: seq<To>, l: nat): seq<Msg>
    requires l < |out|
  {
    (if out[l].hand.Held? then [out[l].hand.msg] else []) + out[l].inbox + Pending(pend, l)
  }

  function Holders(out: seq<Out>, pend: seq<To>, m: Msg): set<nat> {
    set l: nat | l < |out| && m in Active(out, pend, l)
  }

  /** The counter of a message is the number of outputs that still count. */
  ghost predicate Counts(out: seq<Out>, pend: seq<To>, refs: map<Msg, nat>) {
    && (forall m | m in refs :: refs[m] == |Holders(out, pend, m)|)
    && (forall m: Msg, l | l in Holders(out, pend, m) :: m in refs)
  }

  /** At zero exactly one output is destroying the message. */
  ghost predicate Dyings(out: seq<Out>, refs: map<Msg, nat>) {
    && (forall m | m in refs && refs[m] == 0 :: exists l :: 0 <= l < |out| && out[l].hand == Dying(m))
    && (forall l | 0 <= l < |out| && out[l].hand.Dying? :: out[l].hand.msg in refs && refs[out[l].hand.msg] == 0)
    && (forall l, l' | 0 <= l < l' < |out| && out[l].hand.Dying? :: out[l'].hand != out[l].hand)
  }

  ghost predicate RefsOk(out: seq<Out>, pend: seq<To>, refs: map<Msg, nat>) {
    Counts(out, pend, refs) && Dyings(out, refs)
  }

  ghost predicate FreedOk(s: Sys) {
    forall m | m in s.freed :: m.src < |s.src| && m.uid < s.src[m.src].uid
  }

  ghost predicate Inv(s: Sys) {
    && Shape(s) && SourcesOk(s) && FreedOk(s) && LinesOk(s)
    && RefsOk(s.out, s.pend, s.refs)
    && s.st[|s.st| - 1].hand == []
    && (forall t | t in s.pend :: t.out < |s.out|)
  }

  // ---------------------------------------------------------------- steps that leave the lines alone

  predicate SameIssue(src: seq<Source>, src': seq<Source>) {
    && |src'| == |src|
    && forall i | 0 <= i < |src| :: src'[i].emit == src[i].emit && src'[i].uid == src[i].uid && src'[i].garbage == src[i].garbage
  }

  lemma SameLines(s: Sys, s': Sys)
    requires Inv(s) && SameIssue(s.src, s'.src) && |s'.out| == |s.out| && s'.freed == s.freed && |s'.st| == |s.st|
    requires MidFrom(s'.st, 0) == MidFrom(s.st, 0)
    requires forall l | 0 <= l < |s.out| :: OutLine(s', l) == OutLine(s, l)
    ensures SourcesOk(s') && FreedOk(s') && LinesOk(s')
  {
    hide MidFrom, OutLine;
    forall l, i | 0 <= l < |s'.out| && 0 <= i < |s'.src| ensures LineOk(Line(s', l, i), i, s'.src, s'.freed) {
      assert Line(s', l, i) == Line(s, l, i);
      assert LineOk(Line(s, l, i), i, s.src, s.freed);
    }
  }

  lemma StagePushKeeps(s: Sys, j: nat)
    requires Inv(s) && Enabled(s, StPush(j))
    ensures Inv(Step(s, StPush(j)))
  {
    var s' := Step(s, StPush(j));
    var m := s.st[j].hand[0];
    MidPush(s.st, j, s'.st[j], s'.st[j + 1]);
    hide LinesOk, RefsOk;
    SameLines(s, s');
  }

  // ---------------------------------------------------------------- parsers

  lemma ParserTakeKeeps(s: Sys, i: nat, kinds: seq<Kind>)
    requires Inv(s) && Enabled(s, PaTake(i, kinds))
    ensures Inv(Step(s, PaTake(i, kinds)))
  {
    var s' := Step(s, PaTake(i, kinds));
    var out := ParserKinds(s.src[i], kinds);
    forall l, k | 0 <= l < |s'.out| && 0 <= k < |s'.src| ensures LineOk(Line(s', l, k), k, s'.src, s'.freed) {
      assert LineOk(Line(s, l, k), k, s.src, s.freed);
      if k == i {
        Extend(Line(s, l, i), i, s.src, s.freed, out, s'.src[i]);
        assert Line(s', l, i) == Line(s, l, i) + Numbered(i, s.src[i].uid, out);
      } else {
        assert Line(s', l, k) == Line(s, l, k);
      }
    }
  }

  lemma ParserPushKeeps(s: Sys, i: nat)
    requires Inv(s) && Enabled(s, PaPush(i))
    ensures Inv(Step(s, PaPush(i)))
  {
    hide RefsOk, LineOk;
    var s' := Step(s, PaPush(i));
    var y := s.src[i].emit[0];
    var a, b := MidSplit(s.st, 0, s'.st[0]);
    var mid, mid' := MidFrom(s.st, 0), MidFrom(s'.st, 0);
    assert mid' == mid + [y];
    forall l, k | 0 <= l < |s'.out| && 0 <= k < |s'.src| ensures LineOk(Line(s', l, k), k, s'.src, s'.freed) {
      assert LineOk(Line(s, l, k), k, s.src, s.freed) && LineOk(Line(s, l, i), i, s.src, s.freed);
      var front := OutLine(s, l) + mid;
      if k == i {
        assert Line(s', l, i) == Line(s, l, i);
      } else {
        Join(front, y, s.src[k].emit, s.src[i].emit, k, s.src, s.freed);
        assert Line(s', l, k) == front + [y] + s.src[k].emit;
      }
      SameSources(Line(s', l, k), k, s.src, s'.src, s.freed);
    }
  }

  lemma SameSources(q: seq<Msg>, i: nat, src: seq<Source>, src': seq<Source>, freed: set<Msg>)
    requires i < |src| == |src'| && LineOk(q, i, src, freed)
    requires forall k | 0 <= k < |src| :: src'[k].uid == src[k].uid && src'[k].garbage == src[k].garbage
    ensures LineOk(q, i, src', freed)
  {
  }

  // ---------------------------------------------------------------- messages dropped on the way

  lemma MidDropKeeps(s: Sys, s': Sys, a: seq<Msg>, m: Msg, b: seq<Msg>)
    requires Inv(s) && s'.src == s.src && s'.out == s.out && s'.pend == s.pend && s'.freed == s.freed + {m} && |s'.st| == |s.st|
    requires MidFrom(s.st, 0) == a + [m] + b && MidFrom(s'.st, 0) == a + b && !m.kind.Garbage?
    ensures SourcesOk(s') && FreedOk(s') && LinesOk(s')
  {
    hide LineOk, MidFrom, Active, OutLine;
    assert LineOk(Line(s, 0, 0), 0, s.src, s.freed);
    MidIssued(s, |a|, a + [m] + b);
    forall l, i | 0 <= l < |s'.out| && 0 <= i < |s'.src| ensures LineOk(Line(s', l, i), i, s'.src, s'.freed) {
      assert LineOk(Line(s, l, i), i, s.src, s.freed);
      assert OutLine(s', l) == OutLine(s, l) by { hide *; OutLineSame(s, s', l); }
      var front, back := OutLine(s, l) + a, b + s.src[i].emit;
      assert Line(s, l, i) == front + [m] + back;
      Shrink(front, m, back, i, s.src, s.freed, s'.freed);
      assert Line(s', l, i) == front + back;
    }
  }

  lemma OutLineSame(s: Sys, s': Sys, l: nat)
    requires l < |s.out| && s'.out == s.out && s'.pend == s.pend
    ensures OutLine(s', l) == OutLine(s, l)
  {
  }

  lemma MidIssued(s: Sys, p: nat, mid: seq<Msg>)
    requires Inv(s) && p < |mid| && mid == MidFrom(s.st, 0)
    ensures Issued(mid[p], s.src, s.freed)
  {
    hide MidFrom, OutLine, Keeps;
    var q := Line(s, 0, 0);
    assert LineOk(q, 0, s.src, s.freed);
    assert q[|OutLine(s, 0)| + p] == mid[p];
  }

  lemma StageDropKeeps(s: Sys, j: nat)
    requires Inv(s) && Enabled(s, StDrop(j))
    ensures Inv(Step(s, StDrop(j)))
  {
    hide LinesOk, RefsOk, SourcesOk, FreedOk;
    var s' := Step(s, StDrop(j));
    var m := s.st[j].hand[0];
    var a, b := MidSplit(s.st, j, s'.st[j]);
    assert s.st[j].hand == [m] + s'.st[j].hand;
    var rest := s'.st[j].hand + s'.st[j].inbox + b;
    assert a + (s.st[j].hand + s.st[j].inbox) + b == a + [m] + rest;
    assert a + (s'.st[j].hand + s'.st[j].inbox) + b == a + rest;
    MidDropKeeps(s, s', a, m, rest);
  }

  /** Removing the head of the ring of a stage that has nothing in hand. */
  lemma TakeSplit(s: Sys, j: nat, x: Stage) returns (a: seq<Msg>, b: seq<Msg>)
    requires j < |s.st| && s.st[j].hand == [] && s.st[j].inbox != [] && x.inbox == s.st[j].inbox[1..]
    ensures MidFrom(s.st, 0) == a + [s.st[j].inbox[0]] + b
    ensures x.hand == [] ==> MidFrom(s.st[j := x], 0) == a + b
    ensures x.hand == [s.st[j].inbox[0]] ==> MidFrom(s.st[j := x], 0) == MidFrom(s.st, 0)
    ensures j == |s.st| - 1 ==> a == []
  {
    var m := s.st[j].inbox[0];
    var c, d := MidSplit(s.st, j, x);
    assert s.st[j].inbox == [m] + x.inbox;
    a, b := c, x.inbox + d;
    assert c + ([] + ([m] + x.inbox)) + d == a + [m] + b;
    assert c + ([] + x.inbox) + d == a + b;
  }

  lemma StageTakeKeeps(s: Sys, j: nat)
    requires Inv(s) && Enabled(s, StTake(j))
    ensures Inv(Step(s, StTake(j)))
  {
    hide LinesOk, RefsOk, SourcesOk, FreedOk;
    var s' := Step(s, StTake(j));
    var m := s.st[j].inbox[0];
    var a, b := TakeSplit(s, j, s'.st[j]);
    if s'.freed == s.freed && s'.st[j].hand == [m] {
      forall l | 0 <= l < |s.out| ensures OutLine(s', l) == OutLine(s, l) { OutLineSame(s, s', l); }
      SameLines(s, s');
    } else {
      MidDropKeeps(s, s', a, m, b);
    }
  }

  lemma ManagerDropKeeps(s: Sys)
    requires Inv(s) && Enabled(s, MgDrop)
    ensures Inv(Step(s, MgDrop))
  {
    hide LinesOk, RefsOk, SourcesOk, FreedOk;
    var j, s' := |s.st| - 1, Step(s, MgDrop);
    var a, b := TakeSplit(s, j, s'.st[j]);
    MidDropKeeps(s, s', a, s.st[j].inbox[0], b);
  }

  // ---------------------------------------------------------------- fan-out

  lemma {:induction false} DestsPending(outs: seq<Out>, m: Msg, k: nat, l: nat)
    requires k <= |outs|
    ensures Pending(Dests(outs, m, k), l) == if k <= l < |outs| && Wants(outs[l], m) then [m] else []
    decreases |outs| - k
  {
    if k < |outs| {
      DestsPending(outs, m, k + 1, l);
      if Wants(outs[k], m) {
        assert ([To(k, m)] + Dests(outs, m, k + 1))[1..] == Dests(outs, m, k + 1);
      }
    }
  }

  lemma {:induction false} DestsBounds(outs: seq<Out>, m: Msg, k: nat)
    requires k <= |outs|
    ensures forall t | t in Dests(outs, m, k) :: t.out < |outs| && t.msg == m
    decreases |outs| - k
  {
    if k < |outs| { DestsBounds(outs, m, k + 1); }
  }

  /** Exactly the outputs whose filter admits the message get it, each once. */
  lemma {:induction false} DestsCount(outs: seq<Out>, m: Msg, k: nat)
    requires k <= |outs|
    ensures |Dests(outs, m, k)| == |set l: nat | k <= l < |outs| && Wants(outs[l], m)|
    decreases |outs| - k
  {
    var w := set l: nat | k <= l < |outs| && Wants(outs[l], m);
    hide Wants;
    if k < |outs| {
      DestsCount(outs, m, k + 1);
      var v := set l: nat | k + 1 <= l < |outs| && Wants(outs[l], m);
      assert w == if Wants(outs[k], m) then {k} + v else v;
    } else {
      assert w == {};
    }
  }

  /** A message that has not passed the output manager is nowhere beyond it. */
  lemma NotBeyond(s: Sys, m: Msg)
    requires Inv(s) && m in MidFrom(s.st, 0)
    ensures m !in s.refs && forall l | 0 <= l < |s.out| :: m !in OutLine(s, l)
  {
    hide MidFrom;
    var mid := MidFrom(s.st, 0);
    var p :| 0 <= p < |mid| && mid[p] == m;
    forall l | 0 <= l < |s.out| ensures m !in OutLine(s, l) {
      var q := Line(s, l, 0);
      assert LineOk(q, 0, s.src, s.freed);
      assert q[|OutLine(s, l)| + p] == m;
      forall x | 0 <= x < |OutLine(s, l)| ensures OutLine(s, l)[x] != m {
        assert q[x] == OutLine(s, l)[x];
      }
    }
    if m in s.refs {
      RefsHeld(s, m);
    }
  }

  /** Every counted message is with some output. */
  lemma RefsHeld(s: Sys, m: Msg)
    requires RefsOk(s.out, s.pend, s.refs) && m in s.refs
    ensures exists l :: 0 <= l < |s.out| && m in OutLine(s, l)
  {
    if s.refs[m] == 0 {
      var l :| 0 <= l < |s.out| && s.out[l].hand == Dying(m);
      assert m in OutLine(s, l);
    } else {
      var hs := Holders(s.out, s.pend, m);
      assert hs != {};
      var l :| l in hs;
      assert m in OutLine(s, l);
    }
  }

  lemma ManagerTakeKeeps(s: Sys)
    requires Inv(s) && Enabled(s, MgTake)
    ensures Inv(Step(s, MgTake))
  {
    hide LinesOk, RefsOk, SourcesOk, FreedOk, Dests;
    var j, s' := |s.st| - 1, Step(s, MgTake);
    var m := s.st[j].inbox[0];
    var a, b := TakeSplit(s, j, s'.st[j]);
    var to := Dests(s.out, m, 0);
    if s'.pend == [] {
      DestsPending(s.out, m, 0, 0);
      assert s'.freed == s.freed + {m};
      assert to == [] ==> m.kind.Ipfix?;
      MidDropKeeps(s, s', a, m, b);
    } else {
      assert [] + [m] + b == [m] + b && [] + b == b;
      FanOut(s, s', m, b);
      DestsBounds(s.out, m, 0);
    }
  }

  /** Passing a message on: the lines of the outputs that want it stay, the others lose it. */
  lemma FanOut(s: Sys, s': Sys, m: Msg, b: seq<Msg>)
    requires Inv(s) && s.pend == [] && MidFrom(s.st, 0) == [m] + b && MidFrom(s'.st, 0) == b && |s'.st| == |s.st|
    requires s'.src == s.src && s'.out == s.out && s'.freed == s.freed
    requires s'.pend == Dests(s.out, m, 0) && s'.refs == s.refs[m := |s'.pend|] && s'.pend != []
    ensures SourcesOk(s') && FreedOk(s') && LinesOk(s') && RefsOk(s'.out, s'.pend, s'.refs)
  {
    hide LineOk, MidFrom, RefsOk, Dests, Active, Wants, SourcesOk, FreedOk;
    forall l, i | 0 <= l < |s'.out| && 0 <= i < |s'.src| ensures LineOk(Line(s', l, i), i, s'.src, s'.freed) {
      LineOf(s, l, i);
      FanLine(s, s', m, b, l, i);
    }
    SameIssued(s, s');
    NotBeyond(s, m);
    FanOutRefs(s.out, m, s.refs);
  }

  lemma SameIssued(s: Sys, s': Sys)
    requires SourcesOk(s) && FreedOk(s) && s'.src == s.src && s'.freed == s.freed
    ensures SourcesOk(s') && FreedOk(s')
  {
  }

  lemma FanLine(s: Sys, s': Sys, m: Msg, b: seq<Msg>, l: nat, i: nat)
    requires s.pend == [] && MidFrom(s.st, 0) == [m] + b && MidFrom(s'.st, 0) == b && s'.pend == Dests(s.out, m, 0)
    requires s'.src == s.src && s'.out == s.out && s'.freed == s.freed && l < |s.out| && i < |s.src|
    requires LineOk(Line(s, l, i), i, s.src, s.freed)
    ensures LineOk(Line(s', l, i), i, s'.src, s'.freed)
  {
    hide LineOk, MidFrom, OutLine;
    FannedLine(s, s', m, l);
    var front, back := OutLine(s, l), b + s.src[i].emit;
    Regroup(front, [m], b, s.src[i].emit);
    if !Wants(s.out[l], m) {
      assert front + [] == front;
      Shrink(front, m, back, i, s.src, s.freed, s.freed);
      assert front + b + s.src[i].emit == front + back;
    }
  }

  lemma Regroup(a: seq<Msg>, m: seq<Msg>, b: seq<Msg>, c: seq<Msg>)
    ensures a + (m + b) + c == a + m + (b + c)
    ensures a + m + b + c == a + m + (b + c)
  {
  }

  lemma FannedLine(s: Sys, s': Sys, m: Msg, l: nat)
    requires s.pend == [] && s'.pend == Dests(s.out, m, 0) && s'.out == s.out && l < |s.out|
    ensures OutLine(s', l) == OutLine(s, l) + if Wants(s.out[l], m) then [m] else []
  {
    DestsPending(s.out, m, 0, l);
    hide Dests, Wants;
    assert Pending([], l) == [];
  }

  lemma FanOutRefs(out: seq<Out>, m: Msg, refs: map<Msg, nat>)
    requires RefsOk(out, [], refs) && m !in refs && Dests(out, m, 0) != []
    ensures RefsOk(out, Dests(out, m, 0), refs[m := |Dests(out, m, 0)|])
  {
    hide Active, Dests, Pending, Wants;
    var pend := Dests(out, m, 0);
    forall l | 0 <= l < |out| ensures forall x :: x in Active(out, pend, l) <==> x in Active(out, [], l) || (x == m && Wants(out[l], m)) {
      FanActive(out, m, l);
    }
    DestsCount(out, m, 0);
    assert Holders(out, pend, m) == set l: nat | 0 <= l < |out| && Wants(out[l], m) by {
      forall l: nat | l < |out| ensures m !in Active(out, [], l) {
        assert l !in Holders(out, [], m);
      }
    }
    forall x | x != m ensures Holders(out, pend, x) == Holders(out, [], x) {
    }
    hide Holders;
  }

  lemma FanActive(out: seq<Out>, m: Msg, l: nat)
    requires l < |out|
    ensures Active(out, Dests(out, m, 0), l) == Active(out, [], l) + if Wants(out[l], m) then [m] else []
  {
    DestsPending(out, m, 0, l);
  }

  lemma ManagerPushKeeps(s: Sys)
    requires Inv(s) && Enabled(s, MgPush)
    ensures Inv(Step(s, MgPush))
  {
    hide LinesOk, RefsOk, SourcesOk, FreedOk;
    var s' := Step(s, MgPush);
    forall l | 0 <= l < |s.out| ensures OutLine(s', l) == OutLine(s, l) && Active(s'.out, s'.pend, l) == Active(s.out, s.pend, l) {
    }
    SameLines(s, s');
    SameRefs(s, s');
  }

  lemma SameRefs(s: Sys, s': Sys)
    requires RefsOk(s.out, s.pend, s.refs) && s'.refs == s.refs && |s'.out| == |s.out|
    requires forall l | 0 <= l < |s.out| :: Active(s'.out, s'.pend, l) == Active(s.out, s.pend, l)
    requires forall l | 0 <= l < |s.out| :: (s.out[l].hand.Dying? || s'.out[l].hand.Dying?) ==> s'.out[l].hand == s.out[l].hand
    ensures RefsOk(s'.out, s'.pend, s'.refs)
  {
    hide Active;
    forall m ensures Holders(s'.out, s'.pend, m) == Holders(s.out, s.pend, m) {
    }
  }

  // ---------------------------------------------------------------- outputs

  lemma OutTakeKeeps(s: Sys, l: nat)
    requires Inv(s) && Enabled(s, OuTake(l))
    ensures Inv(Step(s, OuTake(l)))
  {
    hide LinesOk, RefsOk, SourcesOk, FreedOk;
    var s' := Step(s, OuTake(l));
    forall k | 0 <= k < |s.out| ensures OutLine(s', k) == OutLine(s, k) && Active(s'.out, s'.pend, k) == Active(s.out, s.pend, k) {
      if k == l {
        assert s.out[l].inbox == [s.out[l].inbox[0]] + s'.out[l].inbox;
      }
    }
    SameLines(s, s');
    SameRefs(s, s');
  }

  /** The message in the hand of an output is nowhere else on its way to it. */
  lemma HandIsFirst(s: Sys, l: nat, i: nat)
    requires l < |s.out| && i < |s.src| && Inv(s) && !s.out[l].hand.Empty?
    ensures var m, rest := s.out[l].hand.msg, s.out[l].inbox + Pending(s.pend, l) + MidFrom(s.st, 0) + s.src[i].emit;
            && Line(s, l, i) == [m] + rest && m !in rest && Issued(m, s.src, s.freed)
            && LineOk([] + rest, i, s.src, s.freed) && LineOk([] + rest, i, s.src, s.freed + {m})
  {
    hide MidFrom, LineOk;
    var m, rest := s.out[l].hand.msg, s.out[l].inbox + Pending(s.pend, l) + MidFrom(s.st, 0) + s.src[i].emit;
    assert LineOk(Line(s, l, i), i, s.src, s.freed);
    assert Line(s, l, i) == [m] + rest == [] + [m] + rest;
    Shrink([], m, rest, i, s.src, s.freed, s.freed);
    Shrink([], m, rest, i, s.src, s.freed, s.freed + {m});
    assert [] + rest == rest;
    FirstIssued(m, rest, i, s.src, s.freed);
  }

  lemma FirstIssued(m: Msg, rest: seq<Msg>, i: nat, src: seq<Source>, freed: set<Msg>)
    requires i < |src| && LineOk([m] + rest, i, src, freed)
    ensures Issued(m, src, freed)
  {
    assert ([m] + rest)[0] == m;
  }

  /** Releasing: with the last count gone, this output alone destroys the message. */
  lemma OutReleaseKeeps(s: Sys, l: nat)
    requires Inv(s) && Enabled(s, OuRelease(l))
    ensures Inv(Step(s, OuRelease(l)))
    ensures s.out[l].hand.msg in s.refs && s.refs[s.out[l].hand.msg] > 0
  {
    hide LinesOk, SourcesOk, FreedOk, RefsOk, Line, LineOk, Issued, Pending;
    var s' := OutRelease(s, l);
    HandIsFirst(s, l, 0);
    ReleaseRefs(s, l);
    forall k, i | 0 <= k < |s'.out| && 0 <= i < |s'.src| ensures LineOk(Line(s', k, i), i, s'.src, s'.freed) {
      ReleaseLine(s, l, k, i);
    }
    assert LinesOk(s') by { hide *; Collect(s'); }
    SameIssued(s, s');
  }

  lemma ReleaseLine(s: Sys, l: nat, k: nat, i: nat)
    requires Inv(s) && l < |s.out| && s.out[l].hand.Held? && k < |s.out| && i < |s.src|
    ensures var s' := OutRelease(s, l); LineOk(Line(s', k, i), i, s'.src, s'.freed)
  {
    hide MidFrom, Pending, LineOk, RefsOk, LinesOk, Issued;
    LineOf(s, k, i);
    HandIsFirst(s, l, i);
    var s' := OutRelease(s, l);
    if k == l && s'.out[l].hand == Empty {
      assert Line(s', l, i) == [] + (s.out[l].inbox + Pending(s.pend, l) + MidFrom(s.st, 0) + s.src[i].emit);
    } else {
      assert Line(s', k, i) == Line(s, k, i);
    }
  }

  lemma Collect(s: Sys)
    requires forall k, i | 0 <= k < |s.out| && 0 <= i < |s.src| :: LineOk(Line(s, k, i), i, s.src, s.freed)
    ensures LinesOk(s)
  {
  }

  lemma LineOf(s: Sys, l: nat, i: nat)
    requires LinesOk(s) && l < |s.out| && i < |s.src|
    ensures LineOk(Line(s, l, i), i, s.src, s.freed)
  {
  }

  lemma ReleaseRefs(s: Sys, l: nat)
    requires l < |s.out| && s.out[l].hand.Held? && RefsOk(s.out, s.pend, s.refs)
    requires s.out[l].hand.msg !in s.out[l].inbox + Pending(s.pend, l)
    ensures s.out[l].hand.msg in s.refs && s.refs[s.out[l].hand.msg] > 0
    ensures RefsOk(OutRelease(s, l).out, s.pend, OutRelease(s, l).refs)
  {
    var s', m := OutRelease(s, l), s.out[l].hand.msg;
    var tail := s.out[l].inbox + Pending(s.pend, l);
    assert Active(s.out, s.pend, l) == [m] + tail && Active(s'.out, s.pend, l) == tail;
    assert forall k | 0 <= k < |s.out| && k != l :: Active(s'.out, s.pend, k) == Active(s.out, s.pend, k);
    ReleaseCounts(s, l, m, tail);
    ReleaseDyings(s, l);
  }

  lemma ReleaseCounts(s: Sys, l: nat, m: Msg, tail: seq<Msg>)
    requires l < |s.out| && s.out[l].hand == Held(m) && Counts(s.out, s.pend, s.refs) && m !in tail
    requires Active(s.out, s.pend, l) == [m] + tail && Active(OutRelease(s, l).out, s.pend, l) == tail
    requires forall k | 0 <= k < |s.out| && k != l :: Active(OutRelease(s, l).out, s.pend, k) == Active(s.out, s.pend, k)
    ensures m in s.refs && s.refs[m] > 0 && Counts(OutRelease(s, l).out, s.pend, OutRelease(s, l).refs)
  {
    hide Active;
    var s' := OutRelease(s, l);
    assert ([m] + tail)[0] == m && l in Holders(s.out, s.pend, m);
    assert forall x | x != m :: x in [m] + tail <==> x in tail;
    var hs, hs' := Holders(s.out, s.pend, m), Holders(s'.out, s.pend, m);
    assert hs' == hs - {l};
    forall x | x != m ensures Holders(s'.out, s.pend, x) == Holders(s.out, s.pend, x) {
    }
    hide Holders;
    assert |hs'| == |hs| - 1;
  }

  lemma ReleaseDyings(s: Sys, l: nat)
    requires l < |s.out| && s.out[l].hand.Held? && Dyings(s.out, s.refs)
    requires s.out[l].hand.msg in s.refs && s.refs[s.out[l].hand.msg] > 0
    ensures Dyings(OutRelease(s, l).out, OutRelease(s, l).refs)
  {
    var s', m := OutRelease(s, l), s.out[l].hand.msg;
    forall x | x in s'.refs && s'.refs[x] == 0 ensures exists k :: 0 <= k < |s'.out| && s'.out[k].hand == Dying(x) {
      if x == m {
        assert s'.out[l].hand == Dying(m);
      } else {
        var k :| 0 <= k < |s.out| && s.out[k].hand == Dying(x);
        assert s'.out[k].hand == Dying(x);
      }
    }
  }

  /** A message that is being destroyed is nowhere else. */
  lemma DyingIsLast(s: Sys, l: nat, k: nat, i: nat)
    requires Inv(s) && l < |s.out| && k < |s.out| && k != l && i < |s.src| && s.out[l].hand.Dying?
    ensures s.out[l].hand.msg !in Line(s, k, i)
  {
    hide LinesOk, MidFrom, LineOk, Issued;
    var m := s.out[l].hand.msg;
    HandIsFirst(s, l, i);
    assert m !in Active(s.out, s.pend, k) by {
      assert s.refs[m] == |Holders(s.out, s.pend, m)| == 0;
      assert k !in Holders(s.out, s.pend, m);
    }
    assert s.out[k].hand != Dying(m);
  }

  lemma OutFreeKeeps(s: Sys, l: nat)
    requires Inv(s) && Enabled(s, OuFree(l))
    ensures Inv(Step(s, OuFree(l)))
  {
    hide LinesOk, MidFrom, LineOk, Issued, RefsOk;
    var s', m := Step(s, OuFree(l)), s.out[l].hand.msg;
    forall k, i | 0 <= k < |s'.out| && 0 <= i < |s'.src| ensures LineOk(Line(s', k, i), i, s'.src, s'.freed) {
      LineOf(s, k, i);
      HandIsFirst(s, l, i);
      if k == l {
        assert Line(s', l, i) == [] + (s.out[l].inbox + Pending(s.pend, l) + MidFrom(s.st, 0) + s.src[i].emit);
      } else {
        DyingIsLast(s, l, k, i);
        assert Line(s', k, i) == Line(s, k, i);
        FreeOther(Line(s, k, i), m, i, s.src, s.freed);
      }
    }
    HandIsFirst(s, l, 0);
    assert LinesOk(s') by { hide *; Collect(s'); }
    assert FreedOk(s') by { hide Line; MoreFreed(s, s', m); }
    FreeRefs(s, l);
  }

  lemma MoreFreed(s: Sys, s': Sys, m: Msg)
    requires FreedOk(s) && Issued(m, s.src, s.freed) && s'.src == s.src && s'.freed == s.freed + {m}
    ensures FreedOk(s')
  {
  }

  lemma FreeOther(q: seq<Msg>, m: Msg, i: nat, src: seq<Source>, freed: set<Msg>)
    requires i < |src| && LineOk(q, i, src, freed) && m !in q
    ensures LineOk(q, i, src, freed + {m})
  {
    assert forall a | 0 <= a < |q| :: q[a] != m;
  }

  lemma FreeRefs(s: Sys, l: nat)
    requires l < |s.out| && s.out[l].hand.Dying? && RefsOk(s.out, s.pend, s.refs)
    ensures RefsOk(OutFree(s, l).out, s.pend, OutFree(s, l).refs)
  {
    var s', m := OutFree(s, l), s.out[l].hand.msg;
    assert forall k | 0 <= k < |s.out| :: Active(s'.out, s.pend, k) == Active(s.out, s.pend, k);
    FreeDyings(s, l);
    hide Active, Pending, Dyings;
    forall x ensures Holders(s'.out, s.pend, x) == Holders(s.out, s.pend, x) {
    }
    hide Holders;
    assert Holders(s.out, s.pend, m) == {};
  }

  lemma FreeDyings(s: Sys, l: nat)
    requires l < |s.out| && s.out[l].hand.Dying? && Dyings(s.out, s.refs)
    ensures Dyings(OutFree(s, l).out, OutFree(s, l).refs)
    ensures s.out[l].hand.msg in s.refs && s.refs[s.out[l].hand.msg] == 0
  {
    var s', m := OutFree(s, l), s.out[l].hand.msg;
    forall x | x in s'.refs && s'.refs[x] == 0 ensures exists k :: 0 <= k < |s'.out| && s'.out[k].hand == Dying(x) {
      var k :| 0 <= k < |s.out| && s.out[k].hand == Dying(x);
      assert s'.out[k].hand == Dying(x);
    }
  }

  // ---------------------------------------------------------------- all steps, all runs

  predicate QuietAction(a: Action) {
    a.Request? || a.CfgTake? || a.CfgSend? || a.CloseReq? || a.InGet? || a.InTake? || a.InPush?
  }

  lemma QuietKeeps(s: Sys, a: Action)
    requires Inv(s) && Enabled(s, a) && QuietAction(a)
    ensures Inv(Step(s, a))
  {
    hide LinesOk, RefsOk, SourcesOk, FreedOk;
    var s' := Step(s, a);
    assert s'.st == s.st && s'.out == s.out && s'.pend == s.pend && s'.refs == s.refs && s'.freed == s.freed;
    forall l | 0 <= l < |s.out| ensures OutLine(s', l) == OutLine(s, l) { OutLineSame(s, s', l); }
    SameLines(s, s');
  }

  lemma StepKeeps(s: Sys, a: Action)
    requires Inv(s) && Enabled(s, a)
    ensures Inv(Step(s, a))
  {
    hide Inv, Step, Enabled;
    match a
    case PaTake(i, kinds) => ParserTakeKeeps(s, i, kinds);
    case PaPush(i) => ParserPushKeeps(s, i);
    case StTake(j) => StageTakeKeeps(s, j);
    case StDrop(j) => StageDropKeeps(s, j);
    case StPush(j) => StagePushKeeps(s, j);
    case MgTake => ManagerTakeKeeps(s);
    case MgDrop => ManagerDropKeeps(s);
    case MgPush => ManagerPushKeeps(s);
    case OuTake(l) => OutTakeKeeps(s, l);
    case OuRelease(l) => OutReleaseKeeps(s, l);
    case OuFree(l) => OutFreeKeeps(s, l);
    case _ => QuietKeeps(s, a);
  }

  lemma InitOk(s: Sys)
    requires IsInit(s)
    ensures Inv(s)
  {
    EmptyMid(s.st, 0);
    hide MidFrom;
    forall l, i | 0 <= l < |s.out| && 0 <= i < |s.src| ensures LineOk(Line(s, l, i), i, s.src, s.freed) {
      assert Line(s, l, i) == [];
    }
    assert forall m :: Holders(s.out, s.pend, m) == {};
  }

  lemma {:induction false} EmptyMid(st: seq<Stage>, j: nat)
    requires j <= |st| && forall k | 0 <= k < |st| :: st[k].hand == [] && st[k].inbox == []
    ensures MidFrom(st, j) == []
    decreases |st| - j
  {
    if j < |st| { EmptyMid(st, j + 1); }
  }

  lemma {:induction false} RunInv(run: seq<Sys>, acts: seq<Action>, k: nat)
    requires IsRun(run, acts) && k < |run|
    ensures Inv(run[k])
  {
    if k == 0 {
      InitOk(run[0]);
    } else {
      RunInv(run, acts, k - 1);
      StepKeeps(run[k - 1], acts[k - 1]);
    }
  }

  // ---------------------------------------------------------------- what the invariant is for

  /** The message was passed by its parser and has not been destroyed. */
  ghost predicate Live(s: Sys, x: Msg) {
    x in s.refs || x in MidFrom(s.st, 0) || exists i :: 0 <= i < |s.src| && x in s.src[i].emit
  }

  /**
   * Garbage safety: when the callback of a garbage message runs, no IPFIX or Session message that its
   * parser passed earlier is alive anywhere, in any reachable state.
   */
  lemma GarbageSafe(run: seq<Sys>, acts: seq<Action>, k: nat, l: nat, x: Msg)
    requires IsRun(run, acts) && k < |run|
    requires l < |run[k].out| && run[k].out[l].hand.Dying? && run[k].out[l].hand.msg.kind.Garbage?
    requires x.IsData() && x.src == run[k].out[l].hand.msg.src && x.uid < run[k].out[l].hand.msg.uid
    ensures !Live(run[k], x)
  {
    RunInv(run, acts, k);
    var s := run[k];
    var g := s.out[l].hand.msg;
    hide MidFrom, IsRun, Enabled, Step, RefsOk;
    HandIsFirst(s, l, 0);
    if x in s.refs {
      RefsHeld(s, x);
      var o :| 0 <= o < |s.out| && x in OutLine(s, o);
      OnLine(s, o, g.src, x);
      GarbageAhead(s, l, o, g, x);
    } else if x in MidFrom(s.st, 0) {
      OnLine(s, l, g.src, x);
      GarbageAhead(s, l, l, g, x);
    } else if i :| 0 <= i < |s.src| && x in s.src[i].emit {
      assert i == x.src by { OwnEmit(s, i, x); }
      OnLine(s, l, g.src, x);
      GarbageAhead(s, l, l, g, x);
    }
  }

  lemma OwnEmit(s: Sys, i: nat, x: Msg)
    requires SourcesOk(s) && i < |s.src| && x in s.src[i].emit
    ensures x.src == i
  {
  }

  lemma OnLine(s: Sys, l: nat, i: nat, x: Msg)
    requires l < |s.out| && i < |s.src|
    requires x in OutLine(s, l) || x in MidFrom(s.st, 0) || x in s.src[i].emit
    ensures x in Line(s, l, i)
  {
  }

  /** No line holds an older data message of the parser while garbage `g` is being destroyed. */
  lemma GarbageAhead(s: Sys, l: nat, o: nat, g: Msg, x: Msg)
    requires Inv(s) && l < |s.out| && o < |s.out| && s.out[l].hand == Dying(g) && g.kind.Garbage?
    requires x.IsData() && x.src == g.src && x.uid < g.uid && g.src < |s.src| && Issued(g, s.src, s.freed)
    ensures x !in Line(s, o, g.src)
  {
    hide MidFrom, OutLine, RefsOk;
    LineOf(s, o, g.src);
    if o == l {
      HandIsFirst(s, l, g.src);
      OlderNotBehind(Line(s, l, g.src), g, x);
    } else {
      DyingIsLast(s, l, o, g.src);
      NoDataWithoutGarbage(Line(s, o, g.src), s.src, g, x);
    }
  }

  lemma OlderNotBehind(q: seq<Msg>, g: Msg, x: Msg)
    requires Sorted(q) && q != [] && q[0] == g && x.src == g.src && x.uid < g.uid
    ensures x !in q
  {
  }

  lemma NoDataWithoutGarbage(q: seq<Msg>, src: seq<Source>, g: Msg, x: Msg)
    requires g.src < |src| && Keeps(q, g.src, src) && g.uid in src[g.src].garbage && g == Msg(g.src, g.uid, Garbage)
    requires g !in q && x.IsData() && x.src == g.src && x.uid < g.uid
    ensures x !in q
  {
    forall a | 0 <= a < |q| ensures q[a] != x {
    }
  }

  /** The message that a step destroys, if any. */
  function Frees(s: Sys, a: Action): Option<Msg>
    requires Enabled(s, a)
  {
    match a
    case StTake(j) => if Receive(Popped(s.st[j]), Head(s.st[j]).kind).1 == Discard then Some(Head(s.st[j])) else None
    case StDrop(j) => Some(s.st[j].hand[0])
    case MgTake =>
      var m := Head(s.st[|s.st| - 1]);
      if Receive(Popped(s.st[|s.st| - 1]), m.kind).1 == Discard || Dests(s.out, m, 0) == [] then Some(m) else None
    case MgDrop => Some(Head(s.st[|s.st| - 1]))
    case OuFree(l) => Some(s.out[l].hand.msg)
    case _ => None
  }

  /**
   * Exactly once: what a step destroys was not destroyed before, and afterwards it is in no ring, hand,
   * or pending push of any thread: not before the last push and the last release.
   */
  lemma DestroyedOnce(run: seq<Sys>, acts: seq<Action>, k: nat, i: nat, l: nat)
    requires IsRun(run, acts) && k < |acts| && i < |run[k].src| && l < |run[k].out|
    ensures Inv(run[k]) && Enabled(run[k], acts[k]) && |run[k + 1].src| == |run[k].src| && |run[k + 1].out| == |run[k].out|
    ensures match Frees(run[k], acts[k])
            case None => run[k + 1].freed == run[k].freed
            case Some(m) => m !in run[k].freed && run[k + 1].freed == run[k].freed + {m}
                            && m !in run[k + 1].refs && m !in Line(run[k + 1], l, i)
  {
    RunInv(run, acts, k);
    RunInv(run, acts, k + 1);
    var s, a, s' := run[k], acts[k], run[k + 1];
    hide IsRun, Inv;
    assert Enabled(s, a) && s' == Step(s, a) by { StepOf(run, acts, k); }
    SameSizes(s, a);
    if Frees(s, a).Some? {
      FreedWasAlive(s, a);
      FreedIsGone(s', Frees(s, a).value, l, i);
    }
  }

  lemma StepOf(run: seq<Sys>, acts: seq<Action>, k: nat)
    requires IsRun(run, acts) && k < |acts|
    ensures Enabled(run[k], acts[k]) && run[k + 1] == Step(run[k], acts[k])
  {
  }

  lemma SameSizes(s: Sys, a: Action)
    requires Enabled(s, a)
    ensures var s' := Step(s, a); |s'.src| == |s.src| && |s'.out| == |s.out| && |s'.st| == |s.st|
    ensures Step(s, a).freed == s.freed + match Frees(s, a) case None => {} case Some(m) => {m}
  {
    hide Dests, Receive, CfgHandle, ParserTake, InputTake;
    if a.StTake? || a.MgTake? {
      TakeFrees(s, a);
      hide StageTake, ManagerTake, Frees;
    }
  }

  lemma TakeFrees(s: Sys, a: Action)
    requires Enabled(s, a) && (a.StTake? || a.MgTake?)
    ensures var s' := Step(s, a); |s'.src| == |s.src| && |s'.out| == |s.out| && |s'.st| == |s.st|
    ensures Step(s, a).freed == s.freed + match Frees(s, a) case None => {} case Some(m) => {m}
  {
    hide Dests, Receive;
  }

  lemma FreedIsGone(s: Sys, m: Msg, l: nat, i: nat)
    requires Inv(s) && m in s.freed && l < |s.out| && i < |s.src|
    ensures m !in s.refs && m !in Line(s, l, i)
  {
    hide MidFrom, OutLine;
    LineOf(s, l, i);
    if m in s.refs {
      RefsHeld(s, m);
      var o :| 0 <= o < |s.out| && m in OutLine(s, o);
      LineOf(s, o, i);
      OnLine(s, o, i, m);
    }
  }

  lemma FreedWasAlive(s: Sys, a: Action)
    requires Inv(s) && Enabled(s, a) && Frees(s, a).Some?
    ensures Frees(s, a).value !in s.freed
  {
    hide LinesOk, RefsOk, SourcesOk, FreedOk;
    var m := Frees(s, a).value;
    if a.OuFree? {
      HandIsFirst(s, a.l, 0);
    } else {
      var j := if a.StTake? || a.StDrop? then a.j else |s.st| - 1;
      var c, d := MidSplit(s.st, j, s.st[j]);
      hide MidFrom;
      var mid := MidFrom(s.st, 0);
      assert mid[|c|] == (s.st[j].hand + s.st[j].inbox)[0] == m;
      MidIssued(s, |c|, mid);
    }
  }
}
