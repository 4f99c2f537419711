/**
 * The termination protocol: terminate messages are neither lost nor duplicated on their way from the
 * configurator through all threads and back as notifications.
 */
module PipelineTerm {
  import opened Pipeline
  import Lines = PipelineLines

  // ---------------------------------------------------------------- counting

  function Ends(q: seq<Up>): nat {
    if q == [] then 0 else Ends(q[1..]) + if q[0].End? then 1 else 0
  }

  function Terms(q: seq<Msg>): nat {
    if q == [] then 0 else Terms(q[1..]) + if q[0].kind.Term? then 1 else 0
  }

  function TermsOf(q: seq<Msg>, i: nat): nat {
    if q == [] then 0 else TermsOf(q[1..], i) + if q[0].kind.Term? && q[0].src == i then 1 else 0
  }

  function Dones(q: seq<Req>): nat {
    if q == [] then 0 else Dones(q[1..]) + if q[0].ReqDone? then 1 else 0
  }

  lemma {:induction false} EndsAppend(q: seq<Up>, u: Up)
    ensures Ends(q + [u]) == Ends(q) + if u.End? then 1 else 0
  {
    if q != [] {
      EndsAppend(q[1..], u);
      assert (q + [u])[1..] == q[1..] + [u];
    }
  }

  lemma {:induction false} TermsAppend(q: seq<Msg>, m: Msg, i: nat)
    ensures Terms(q + [m]) == Terms(q) + if m.kind.Term? then 1 else 0
    ensures TermsOf(q + [m], i) == TermsOf(q, i) + if m.kind.Term? && m.src == i then 1 else 0
  {
    if q != [] {
      TermsAppend(q[1..], m, i);
      assert (q + [m])[1..] == q[1..] + [m];
    }
  }

  lemma {:induction false} DonesAppend(q: seq<Req>, r: Req)
    ensures Dones(q + [r]) == Dones(q) + if r.ReqDone? then 1 else 0
  {
    if q != [] {
      DonesAppend(q[1..], r);
      assert (q + [r])[1..] == q[1..] + [r];
    }
  }

  function UpTo(n: nat): (r: set<nat>)
    ensures forall i: nat :: i in r <==> i < n
    ensures |r| == n
  {
    if n == 0 then {} else UpTo(n - 1) + {n - 1}
  }

  lemma {:induction false} Subset(a: set<nat>, b: set<nat>)
    requires a <= b
    ensures |a| <= |b|
    decreases a
  {
    if a != {} {
      var x :| x in a;
      Subset(a - {x}, b - {x});
    }
  }

  // ---------------------------------------------------------------- the invariant

  /** Inputs whose terminate message was written so far. */
  function Sent(c: Config, n: nat): nat {
    if c.phase.SendEnd? then c.phase.i else if c.status == Running then 0 else n
  }

  /** Terminate messages of one input that its parser has not passed. */
  function UpEnds(c: Source): nat {
    Ends(c.feed) + Ends(c.hand) + Ends(c.ring)
  }

  /** Terminate messages of input `i` that the first shared thread has not counted. */
  function Before(s: Sys, i: nat): nat
    requires i < |s.src| && Shape(s)
  {
    UpEnds(s.src[i]) + Terms(s.src[i].emit) + TermsOf(s.st[0].inbox, i)
  }

  /** Inputs that the first shared thread still waits for. */
  function Awaited(s: Sys): set<nat>
    requires Shape(s)
  {
    set i: nat | i < |s.src| && (i >= Sent(s.cfg, |s.src|) || Before(s, i) == 1)
  }

  ghost predicate SourceInv(s: Sys, i: nat)
    requires i < |s.src| && Shape(s)
  {
    var c, sent := s.src[i], i < Sent(s.cfg, |s.src|);
    && Before(s, i) <= (if sent then 1 else 0)
    && (c.inAlive <==> !sent || Ends(c.feed) == 1)
    && (c.alive <==> !sent || UpEnds(c) == 1)
    && (forall a | 0 <= a < |c.emit| :: c.emit[a].src == i)
  }

  /** Terminate messages between two neighbouring threads. */
  function Between(s: Sys, j: nat): nat
    requires 1 <= j < |s.st|
  {
    Terms(s.st[j - 1].hand) + Terms(s.st[j].inbox)
  }

  ghost predicate StageInv(s: Sys, j: nat)
    requires 1 <= j < |s.st|
  {
    && s.st[j].termCnt == (if s.st[j].alive then 1 else 0)
    && Between(s, j) == (if !s.st[j - 1].alive && s.st[j].alive then 1 else 0)
    && (!s.st[j].alive ==> !s.st[j - 1].alive)
  }

  function MgrAlive(s: Sys): bool
    requires Shape(s)
  {
    s.st[|s.st| - 1].alive
  }

  function OutTerms(s: Sys, l: nat): nat
    requires l < |s.out|
  {
    Terms(s.out[l].inbox) + Terms(Lines.Pending(s.pend, l))
  }

  ghost predicate OutInv(s: Sys, l: nat)
    requires l < |s.out| && Shape(s)
  {
    && OutTerms(s, l) == (if !MgrAlive(s) && s.out[l].alive then 1 else 0)
    && (!s.out[l].alive ==> !MgrAlive(s))
  }

  /** The terminate messages beyond the output manager. */
  function Final(refs: map<Msg, nat>): set<Msg> {
    set x | x in refs && x.kind.Term?
  }

  ghost predicate FirstInv(s: Sys)
    requires Shape(s)
  {
    && s.st[0].termCnt == |Awaited(s)| && (s.st[0].alive <==> s.st[0].termCnt > 0)
    && |Final(s.refs)| <= 1 && (MgrAlive(s) ==> Final(s.refs) == {})
  }

  /** Terminate messages that were destroyed. */
  function Destroyed(s: Sys): int
    requires Shape(s)
  {
    if s.st[0].alive then |s.src| - s.st[0].termCnt
    else |s.src| - if !MgrAlive(s) && Final(s.refs) == {} then 0 else 1
  }

  /** Notifications that the configurator has counted. */
  function Handled(c: Config, n: nat): int {
    if c.status == Running then 0 else n - c.termSent
  }

  ghost predicate ConfigInv(s: Sys)
    requires Shape(s)
  {
    var c := s.cfg;
    && Dones(c.pipe) + Handled(c, |s.src|) == Destroyed(s)
    && (c.phase.SendEnd? ==> c.status == Running && c.phase.next != Running && c.phase.i <= |s.src|)
    && !c.aborted && (c.done <==> c.status != Running && c.termSent == 0)
  }

  ghost predicate TermInv(s: Sys) {
    && Shape(s)
    && (forall i | 0 <= i < |s.src| :: SourceInv(s, i))
    && (forall j | 1 <= j < |s.st| :: StageInv(s, j))
    && (forall l | 0 <= l < |s.out| :: OutInv(s, l))
    && FirstInv(s) && ConfigInv(s)
  }

  /** Threads end in the order of the pipeline. */
  lemma {:induction false} DeadBefore(s: Sys, j: nat, k: nat)
    requires Shape(s) && j <= k < |s.st| && !s.st[k].alive && forall x | 1 <= x < |s.st| :: StageInv(s, x)
    ensures !s.st[j].alive
    decreases k - j
  {
    if j < k {
      assert StageInv(s, k);
      DeadBefore(s, j, k - 1);
    }
  }

  // ---------------------------------------------------------------- inputs and parsers

  /** A step of input `i` that moves its terminate message on, or none. */
  lemma SourceStep(s: Sys, s': Sys, i: nat)
    requires TermInv(s) && i < |s.src| == |s'.src| && s'.src == s.src[i := s'.src[i]]
    requires s'.cfg == s.cfg && s'.out == s.out && s'.pend == s.pend && s'.refs == s.refs
    requires |s'.st| == |s.st| && s'.st[0] == s.st[0].(inbox := s'.st[0].inbox) && s'.st[1..] == s.st[1..]
    requires Before(s', i) == Before(s, i) && SourceInv(s', i)
    requires forall k | 0 <= k < |s.src| && k != i :: TermsOf(s'.st[0].inbox, k) == TermsOf(s.st[0].inbox, k)
    ensures TermInv(s')
  {
    forall k | 0 <= k < |s.src| ensures SourceInv(s', k) && Before(s', k) == Before(s, k) {
      assert SourceInv(s, k);
    }
    assert Awaited(s') == Awaited(s);
    hide Awaited, Before, SourceInv, Terms, TermsOf, Dones;
    forall j | 1 <= j < |s.st| ensures StageInv(s', j) {
      assert StageInv(s, j) && s'.st[j] == s'.st[1..][j - 1] == s.st[1..][j - 1];
      assert j > 1 ==> s'.st[j - 1] == s'.st[1..][j - 2] == s.st[1..][j - 2];
    }
    forall l | 0 <= l < |s.out| ensures OutInv(s', l) {
      assert OutInv(s, l);
      assert |s.st| > 1 ==> s'.st[|s.st| - 1] == s'.st[1..][|s.st| - 2];
    }
    assert |s.st| > 1 ==> s'.st[|s.st| - 1] == s'.st[1..][|s.st| - 2] == s.st[|s.st| - 1];
  }

  lemma {:induction false} RawsHaveNoEnd(k: nat)
    ensures Ends(Raws(k)) == 0 && Ends(Raws(k) + [End]) == 1
  {
    if k > 0 {
      assert Raws(k) == [Raw] + Raws(k - 1);
      assert Raws(k)[1..] == Raws(k - 1);
      RawsHaveNoEnd(k - 1);
    } else {
      assert Raws(0) == [];
    }
    EndsAppend(Raws(k), End);
  }

  lemma InputKeeps(s: Sys, a: Action)
    requires TermInv(s) && Enabled(s, a) && (a.InGet? || a.InTake? || a.InPush?)
    ensures TermInv(Step(s, a))
  {
    var s', i := Step(s, a), a.i;
    var c, c' := s.src[i], s'.src[i];
    hide Terms, TermsOf, Dones, StageInv, OutInv, FirstInv, ConfigInv;
    assert SourceInv(s, i);
    match a {
      case InGet(_) => assert Ends([Raw]) == 0 by { assert Ends([Raw][1..]) == 0; }
      case InTake(_, raws) =>
        RawsHaveNoEnd(raws);
        assert Ends([c.feed[0]]) == (if c.feed[0].End? then 1 else 0) by { assert Ends([c.feed[0]][1..]) == 0; }
      case InPush(_) => EndsAppend(c.ring, c.hand[0]);
    }
    hide Ends;
    SourceStep(s, s', i);
  }

  lemma {:induction false} NoTerms(q: seq<Msg>)
    requires forall a | 0 <= a < |q| :: !q[a].kind.Term?
    ensures Terms(q) == 0
  {
    if q != [] { NoTerms(q[1..]); }
  }

  lemma ParserTerms(c: Source, i: nat, kinds: seq<Kind>)
    requires c.ring != [] && Emission(kinds)
    ensures Terms(ParserTake(c, i, kinds).emit) == if c.ring[0].End? then 1 else 0
  {
    var e := ParserTake(c, i, kinds).emit;
    if c.ring[0].End? {
      assert e == [Msg(i, c.uid, Garbage)] + [Msg(i, c.uid + 1, Term)];
      TermsAppend([Msg(i, c.uid, Garbage)], Msg(i, c.uid + 1, Term), i);
      NoTerms([Msg(i, c.uid, Garbage)]);
    } else {
      NoTerms(e);
    }
  }

  lemma ParserTakeKeeps(s: Sys, i: nat, kinds: seq<Kind>)
    requires TermInv(s) && Enabled(s, PaTake(i, kinds))
    ensures TermInv(Step(s, PaTake(i, kinds)))
  {
    var s' := Step(s, PaTake(i, kinds));
    assert SourceInv(s, i);
    ParserTerms(s.src[i], i, kinds);
    hide TermsOf, Dones, StageInv, OutInv, FirstInv, ConfigInv;
    SourceStep(s, s', i);
  }

  lemma ParserPushKeeps(s: Sys, i: nat)
    requires TermInv(s) && Enabled(s, PaPush(i))
    ensures TermInv(Step(s, PaPush(i)))
  {
    var s' := Step(s, PaPush(i));
    var y := s.src[i].emit[0];
    assert SourceInv(s, i);
    forall k | 0 <= k < |s.src| ensures TermsOf(s'.st[0].inbox, k) == TermsOf(s.st[0].inbox, k) + if y.kind.Term? && y.src == k then 1 else 0 {
      TermsAppend(s.st[0].inbox, y, k);
    }
    hide TermsOf, Dones, StageInv, OutInv, FirstInv, ConfigInv;
    SourceStep(s, s', i);
  }

  // ---------------------------------------------------------------- steps without a terminate message

  lemma CalmStep(s: Sys, s': Sys)
    requires TermInv(s) && Shape(s') && s'.cfg == s.cfg && s'.src == s.src && |s'.st| == |s.st| && |s'.out| == |s.out|
    requires forall j | 0 <= j < |s.st| :: s'.st[j].alive == s.st[j].alive && s'.st[j].termCnt == s.st[j].termCnt
    requires forall i | 0 <= i < |s.src| :: TermsOf(s'.st[0].inbox, i) == TermsOf(s.st[0].inbox, i)
    requires forall j | 1 <= j < |s.st| :: Between(s', j) == Between(s, j)
    requires forall l | 0 <= l < |s.out| :: OutTerms(s', l) == OutTerms(s, l) && s'.out[l].alive == s.out[l].alive
    requires Final(s'.refs) == Final(s.refs)
    ensures TermInv(s')
  {
    hide Terms, TermsOf, Ends, Dones;
    forall i | 0 <= i < |s.src| ensures SourceInv(s', i) && Before(s', i) == Before(s, i) {
      assert SourceInv(s, i);
    }
    assert Awaited(s') == Awaited(s);
    hide Awaited, Before, SourceInv;
    forall j | 1 <= j < |s.st| ensures StageInv(s', j) { assert StageInv(s, j); }
    forall l | 0 <= l < |s.out| ensures OutInv(s', l) { assert OutInv(s, l); }
  }

  lemma SourcesSame(s: Sys, s': Sys)
    requires TermInv(s) && Shape(s') && s'.src == s.src && Sent(s'.cfg, |s.src|) == Sent(s.cfg, |s.src|)
    requires s'.st[0].inbox == s.st[0].inbox
    ensures (forall i | 0 <= i < |s.src| :: SourceInv(s', i)) && Awaited(s') == Awaited(s)
  {
    hide Terms, TermsOf, Ends, Dones, StageInv, OutInv, FirstInv, ConfigInv;
    forall i | 0 <= i < |s.src| ensures SourceInv(s', i) && Before(s', i) == Before(s, i) {
      assert SourceInv(s, i);
    }
  }

  lemma PopTerms(q: seq<Msg>, i: nat)
    requires q != []
    ensures Terms(q[1..]) == Terms(q) - if q[0].kind.Term? then 1 else 0
    ensures TermsOf(q[1..], i) == TermsOf(q, i) - if q[0].kind.Term? && q[0].src == i then 1 else 0
  {
  }

  lemma OneTerm(m: Msg)
    ensures Terms([m]) == (if m.kind.Term? then 1 else 0) && Terms([]) == 0
  {
    TermsAppend([], m, 0);
    assert [] + [m] == [m];
  }

  lemma StageCalm(s: Sys, j: nat, x: Stage, s': Sys)
    requires TermInv(s) && j < |s.st| && s'.st == s.st[j := x] && s'.cfg == s.cfg && s'.src == s.src
    requires x.alive == s.st[j].alive && x.termCnt == s.st[j].termCnt
    requires Terms(x.inbox) == Terms(s.st[j].inbox) && Terms(x.hand) == Terms(s.st[j].hand)
    requires forall i | 0 <= i < |s.src| :: TermsOf(x.inbox, i) == TermsOf(s.st[j].inbox, i)
    requires |s'.out| == |s.out| && forall l | 0 <= l < |s.out| :: OutTerms(s', l) == OutTerms(s, l) && s'.out[l].alive == s.out[l].alive
    requires Final(s'.refs) == Final(s.refs)
    ensures TermInv(s')
  {
    hide Terms, TermsOf, Ends, Dones, SourceInv, StageInv, OutInv, ConfigInv, FirstInv;
    CalmStep(s, s');
  }

  lemma StageTakeCalm(s: Sys, j: nat)
    requires TermInv(s) && Enabled(s, StTake(j)) && !s.st[j].inbox[0].kind.Term?
    ensures TermInv(Step(s, StTake(j)))
  {
    var s' := Step(s, StTake(j));
    forall i | 0 <= i < |s.src| ensures TermsOf(s'.st[j].inbox, i) == TermsOf(s.st[j].inbox, i) {
      PopTerms(s.st[j].inbox, i);
    }
    PopTerms(s.st[j].inbox, 0);
    OneTerm(s.st[j].inbox[0]);
    hide Terms, TermsOf, TermInv;
    assert forall l | 0 <= l < |s.out| :: OutTerms(s', l) == OutTerms(s, l);
    StageCalm(s, j, s'.st[j], s');
  }

  lemma StageDropCalm(s: Sys, j: nat)
    requires TermInv(s) && Enabled(s, StDrop(j))
    ensures TermInv(Step(s, StDrop(j)))
  {
    var s' := Step(s, StDrop(j));
    PopTerms(s.st[j].hand, 0);
    hide Terms, TermsOf, TermInv;
    assert forall l | 0 <= l < |s.out| :: OutTerms(s', l) == OutTerms(s, l);
    StageCalm(s, j, s'.st[j], s');
  }

  lemma StagePushCalm(s: Sys, j: nat)
    requires TermInv(s) && Enabled(s, StPush(j))
    ensures TermInv(Step(s, StPush(j)))
  {
    var s' := Step(s, StPush(j));
    var m := s.st[j].hand[0];
    PopTerms(s.st[j].hand, 0);
    TermsAppend(s.st[j + 1].inbox, m, 0);
    hide Terms, TermsOf, TermInv;
    assert forall l | 0 <= l < |s.out| :: OutTerms(s', l) == OutTerms(s, l);
    CalmStep(s, s');
  }

  lemma ManagerDropCalm(s: Sys)
    requires TermInv(s) && Enabled(s, MgDrop)
    ensures TermInv(Step(s, MgDrop))
  {
    var j, s' := |s.st| - 1, Step(s, MgDrop);
    forall i | 0 <= i < |s.src| ensures TermsOf(s'.st[j].inbox, i) == TermsOf(s.st[j].inbox, i) {
      PopTerms(s.st[j].inbox, i);
    }
    PopTerms(s.st[j].inbox, 0);
    hide Terms, TermsOf, TermInv;
    assert forall l | 0 <= l < |s.out| :: OutTerms(s', l) == OutTerms(s, l);
    StageCalm(s, j, s'.st[j], s');
  }

  lemma PendingTerms(s: Sys, m: Msg, l: nat)
    requires l < |s.out|
    ensures Terms(Lines.Pending(Dests(s.out, m, 0), l)) == if m.kind.Term? then 1 else 0
  {
    Lines.DestsPending(s.out, m, 0, l);
    OneTerm(m);
  }

  lemma CalmPending(s: Sys, s': Sys, m: Msg, l: nat)
    requires l < |s.out| && s'.out == s.out && s.pend == [] && !m.kind.Term?
    requires s'.pend == [] || s'.pend == Dests(s.out, m, 0)
    ensures OutTerms(s', l) == OutTerms(s, l)
  {
    PendingTerms(s, m, l);
    OneTerm(m);
    hide Dests, Terms;
    assert Lines.Pending([], l) == [];
  }

  lemma ManagerTakeCalm(s: Sys)
    requires TermInv(s) && Enabled(s, MgTake) && !s.st[|s.st| - 1].inbox[0].kind.Term?
    ensures TermInv(Step(s, MgTake))
  {
    var j, s' := |s.st| - 1, Step(s, MgTake);
    forall i | 0 <= i < |s.src| ensures TermsOf(s'.st[j].inbox, i) == TermsOf(s.st[j].inbox, i) {
      PopTerms(s.st[j].inbox, i);
    }
    PopTerms(s.st[j].inbox, 0);
    OneTerm(s.st[j].inbox[0]);
    assert s'.out == s.out && (s'.pend == [] || s'.pend == Dests(s.out, s.st[j].inbox[0], 0));
    forall l | 0 <= l < |s.out| ensures OutTerms(s', l) == OutTerms(s, l) {
      CalmPending(s, s', s.st[j].inbox[0], l);
    }
    hide Terms, TermsOf, TermInv, OutTerms, Dests;
    StageCalm(s, j, s'.st[j], s');
  }

  lemma PushedTerms(s: Sys, l: nat)
    requires Enabled(s, MgPush) && l < |s.out|
    ensures OutTerms(ManagerPush(s), l) == OutTerms(s, l)
  {
    var t, rest := s.pend[0], Lines.Pending(s.pend[1..], l);
    TermsAppend(s.out[l].inbox, t.msg, 0);
    if l == t.out {
      assert Lines.Pending(s.pend, l) == [t.msg] + rest;
      assert ([t.msg] + rest)[1..] == rest;
    } else {
      assert Lines.Pending(s.pend, l) == [] + rest == rest;
    }
  }

  lemma ManagerPushCalm(s: Sys)
    requires TermInv(s) && Enabled(s, MgPush)
    ensures TermInv(Step(s, MgPush))
  {
    var s' := Step(s, MgPush);
    forall l | 0 <= l < |s.out| ensures OutTerms(s', l) == OutTerms(s, l) {
      PushedTerms(s, l);
    }
    hide Terms, TermsOf, TermInv, OutTerms;
    assert forall j | 1 <= j < |s.st| :: Between(s', j) == Between(s, j);
    CalmStep(s, s');
  }

  lemma OutCalm(s: Sys, a: Action)
    requires TermInv(s) && Lines.Inv(s) && Enabled(s, a) && (a.OuTake? || a.OuRelease? || a.OuFree?)
    requires a.OuTake? ==> !s.out[a.l].inbox[0].kind.Term?
    requires a.OuFree? ==> !s.out[a.l].hand.msg.kind.Term?
    ensures TermInv(Step(s, a))
  {
    hide TermInv, Lines.Inv, Terms, TermsOf, OutTerms, Final;
    var s' := Step(s, a);
    if a.OuRelease? {
      Lines.OutReleaseKeeps(s, a.l);
    }
    OutTermsCalm(s, a);
    OutAliveCalm(s, a);
    FinalCalm(s, a);
    OutFieldsCalm(s, a);
    assert forall j | 1 <= j < |s.st| :: Between(s', j) == Between(s, j);
    hide Step, Enabled;
    CalmStep(s, s');
  }

  lemma FinalCalm(s: Sys, a: Action)
    requires Enabled(s, a) && (a.OuTake? || a.OuRelease? || a.OuFree?)
    requires a.OuRelease? ==> s.out[a.l].hand.msg in s.refs
    requires a.OuFree? ==> !s.out[a.l].hand.msg.kind.Term?
    ensures Final(Step(s, a).refs) == Final(s.refs)
  {
  }

  lemma OutFieldsCalm(s: Sys, a: Action)
    requires Enabled(s, a) && (a.OuTake? || a.OuRelease? || a.OuFree?)
    requires a.OuTake? ==> !s.out[a.l].inbox[0].kind.Term?
    requires a.OuFree? ==> !s.out[a.l].hand.msg.kind.Term?
    ensures var s' := Step(s, a);
            && s'.src == s.src && s'.st == s.st && s'.cfg == s.cfg && s'.pend == s.pend && |s'.out| == |s.out|
            && forall l | 0 <= l < |s.out| :: s'.out[l].alive == s.out[l].alive
  {
  }

  lemma OutTermsCalm(s: Sys, a: Action)
    requires Enabled(s, a) && (a.OuTake? || a.OuRelease? || a.OuFree?)
    requires a.OuTake? ==> !s.out[a.l].inbox[0].kind.Term?
    ensures forall l | 0 <= l < |s.out| :: OutTerms(Step(s, a), l) == OutTerms(s, l)
  {
    if a.OuTake? {
      PopTerms(s.out[a.l].inbox, 0);
    }
    hide Terms, TermsOf;
  }

  lemma OutAliveCalm(s: Sys, a: Action)
    requires Enabled(s, a) && (a.OuTake? || a.OuRelease? || a.OuFree?)
    requires a.OuTake? ==> !s.out[a.l].inbox[0].kind.Term?
    ensures Step(s, a).out[a.l].alive == s.out[a.l].alive
  {
  }

  // ---------------------------------------------------------------- steps with a terminate message

  /** The source of a message in the ring of a stage is a known input. */
  lemma SourceKnown(s: Sys, j: nat)
    requires Lines.Inv(s) && j < |s.st| && s.st[j].inbox != [] && s.st[j].hand == []
    ensures s.st[j].inbox[0].src < |s.src|
  {
    hide Lines.LinesOk, Lines.RefsOk;
    var a, b := Lines.MidSplit(s.st, j, s.st[j]);
    var mid := Lines.MidFrom(s.st, 0);
    assert mid[|a|] == s.st[j].inbox[0];
    Lines.MidIssued(s, |a|, mid);
  }

  /** The first shared thread counts the terminate message of one more input. */
  lemma FirstCounts(s: Sys, x: Stage, s': Sys)
    requires TermInv(s) && Shape(s') && s.st[0].inbox != [] && s.st[0].inbox[0].kind.Term? && s.st[0].inbox[0].src < |s.src|
    requires |s'.st| == |s.st| && s'.st[0] == x && x.inbox == s.st[0].inbox[1..]
    requires s'.src == s.src && Sent(s'.cfg, |s.src|) == Sent(s.cfg, |s.src|)
    ensures forall i | 0 <= i < |s.src| :: SourceInv(s', i)
    ensures |Awaited(s')| == |Awaited(s)| - 1 && s.st[0].termCnt > 0
  {
    var m := s.st[0].inbox[0];
    assert SourceInv(s, m.src);
    PopTerms(s.st[0].inbox, m.src);
    forall i | 0 <= i < |s.src| ensures SourceInv(s', i) && Before(s', i) == Before(s, i) - if i == m.src then 1 else 0 {
      PopTerms(s.st[0].inbox, i);
      assert SourceInv(s, i);
    }
    hide TermsOf, Terms, Ends, SourceInv, StageInv, OutInv, ConfigInv;
    assert Before(s, m.src) == 1;
    assert m.src in Awaited(s);
    assert Awaited(s') == Awaited(s) - {m.src};
  }

  lemma ManagerLast(s: Sys)
    requires TermInv(s) && s.st[0].alive
    ensures MgrAlive(s)
  {
    if !MgrAlive(s) {
      DeadBefore(s, 0, |s.st| - 1);
    }
  }

  lemma StageTakeTerm(s: Sys, j: nat)
    requires TermInv(s) && Lines.Inv(s) && Enabled(s, StTake(j)) && s.st[j].inbox[0].kind.Term?
    ensures TermInv(Step(s, StTake(j)))
  {
    var s' := Step(s, StTake(j));
    var m := s.st[j].inbox[0];
    PopTerms(s.st[j].inbox, 0);
    OneTerm(m);
    DonesAppend(s.cfg.pipe, ReqDone);
    SourceKnown(s, j);
    StageTermInvs(s, j);
    hide Lines.Inv, Dones, Ends, Terms, TermsOf, StageInv;
    forall l | 0 <= l < |s.out| ensures OutInv(s', l) { assert OutInv(s, l); }
    if j == 0 {
      FirstCounts(s, s'.st[0], s');
      ManagerLast(s);
    } else {
      SourcesSame(s, s');
    }
  }

  lemma StageTermInvs(s: Sys, j: nat)
    requires TermInv(s) && Enabled(s, StTake(j)) && s.st[j].inbox[0].kind.Term?
    requires Terms(s.st[j].inbox[1..]) == Terms(s.st[j].inbox) - 1 && Terms([s.st[j].inbox[0]]) == 1 && Terms([]) == 0
    ensures forall k | 1 <= k < |s.st| :: StageInv(Step(s, StTake(j)), k)
    ensures j > 0 ==> s.st[j].termCnt == 1 && !s.st[0].alive
  {
    var s' := Step(s, StTake(j));
    hide Terms, FirstInv, ConfigInv, SourceInv, OutInv;
    if j > 0 {
      assert StageInv(s, j);
      DeadBefore(s, 0, j - 1);
    }
    forall k | 1 <= k < |s.st| ensures StageInv(s', k) {
      assert StageInv(s, k);
    }
  }

  lemma ManagerTakeTerm(s: Sys)
    requires TermInv(s) && Lines.Inv(s) && Enabled(s, MgTake) && s.st[|s.st| - 1].inbox[0].kind.Term?
    ensures TermInv(Step(s, MgTake))
  {
    var j, s' := |s.st| - 1, Step(s, MgTake);
    var m := s.st[j].inbox[0];
    PopTerms(s.st[j].inbox, 0);
    OneTerm(m);
    DonesAppend(s.cfg.pipe, ReqDone);
    SourceKnown(s, j);
    hide Lines.Inv, Dones, Ends, Dests, Terms, TermsOf;
    ManagerTermOuts(s);
    if j == 0 {
      FirstCounts(s, s'.st[0], s');
    } else {
      assert StageInv(s, j);
      SourcesSame(s, s');
      DeadBefore(s, 0, j - 1);
    }
    hide Awaited, SourceInv, Before, OutInv;
    ManagerTermStages(s);
    FinalOne(s.refs, m, |Dests(s.out, m, 0)|);
  }

  lemma ManagerTermStages(s: Sys)
    requires TermInv(s) && Enabled(s, MgTake) && s.st[|s.st| - 1].inbox[0].kind.Term?
    ensures forall k | 1 <= k < |s.st| :: StageInv(Step(s, MgTake), k)
  {
    var s' := Step(s, MgTake);
    PopTerms(s.st[|s.st| - 1].inbox, 0);
    hide Terms, Dests, Awaited, SourceInv, OutInv, FirstInv, ConfigInv;
    forall k | 1 <= k < |s.st| ensures StageInv(s', k) { assert StageInv(s, k); }
  }

  lemma FinalOne(refs: map<Msg, nat>, m: Msg, n: nat)
    requires Final(refs) == {} && m.kind.Term?
    ensures Final(refs[m := n]) == {m}
  {
    assert Final(refs[m := n]) == Final(refs) + {m};
  }

  lemma ManagerTermOuts(s: Sys)
    requires TermInv(s) && Enabled(s, MgTake) && s.st[|s.st| - 1].inbox[0].kind.Term?
    ensures forall l | 0 <= l < |s.out| :: OutInv(Step(s, MgTake), l)
    ensures s.st[|s.st| - 1].termCnt == 1 ==> Dests(s.out, s.st[|s.st| - 1].inbox[0], 0) != []
  {
    var s', m := Step(s, MgTake), s.st[|s.st| - 1].inbox[0];
    hide Terms, TermsOf, Awaited, SourceInv, StageInv, ConfigInv, FirstInv, Dests;
    Lines.DestsPending(s.out, m, 0, 0);
    forall l | 0 <= l < |s.out| ensures OutInv(s', l) {
      assert OutInv(s, l);
      PendingTerms(s, m, l);
      OneTerm(m);
      assert Lines.Pending([], l) == [];
    }
  }

  lemma OutTakeTerm(s: Sys, l: nat)
    requires TermInv(s) && Enabled(s, OuTake(l)) && s.out[l].inbox[0].kind.Term?
    ensures TermInv(Step(s, OuTake(l)))
  {
    var s' := Step(s, OuTake(l));
    PopTerms(s.out[l].inbox, 0);
    forall k | 0 <= k < |s.out| ensures OutInv(s', k) {
      assert OutInv(s, k);
    }
    hide Terms, TermsOf, Ends, Dones;
    SourcesSame(s, s');
    hide Awaited, SourceInv, Before;
    forall k | 1 <= k < |s.st| ensures StageInv(s', k) { assert StageInv(s, k); }
  }

  /** The last terminate message is destroyed: all threads before have ended. */
  lemma OutFreeTerm(s: Sys, l: nat)
    requires TermInv(s) && Lines.Inv(s) && Enabled(s, OuFree(l)) && s.out[l].hand.msg.kind.Term?
    ensures TermInv(Step(s, OuFree(l)))
  {
    hide Lines.Inv;
    var s', m := Step(s, OuFree(l)), s.out[l].hand.msg;
    DyingCounted(s, l);
    DonesAppend(s.cfg.pipe, ReqDone);
    FinalNone(s.refs, m);
    DeadBefore(s, 0, |s.st| - 1);
    hide Terms, TermsOf, Ends, Dones, Final;
    SourcesSame(s, s');
    hide SourceInv, Before, Awaited;
    FreeTermInvs(s, s', l);
  }

  lemma DyingCounted(s: Sys, l: nat)
    requires Lines.Inv(s) && l < |s.out| && s.out[l].hand.Dying?
    ensures s.out[l].hand.msg in s.refs
  {
  }

  lemma FreeTermInvs(s: Sys, s': Sys, l: nat)
    requires TermInv(s) && Enabled(s, OuFree(l)) && s' == Step(s, OuFree(l))
    ensures (forall k | 0 <= k < |s.out| :: OutInv(s', k)) && (forall k | 1 <= k < |s.st| :: StageInv(s', k))
  {
    hide Terms, SourceInv, FirstInv, ConfigInv;
    forall k | 0 <= k < |s.out| ensures OutInv(s', k) { assert OutInv(s, k); }
    forall k | 1 <= k < |s.st| ensures StageInv(s', k) { assert StageInv(s, k); }
  }

  lemma FinalNone(refs: map<Msg, nat>, m: Msg)
    requires m in refs && m.kind.Term? && |Final(refs)| <= 1
    ensures Final(refs - {m}) == {} && Final(refs) != {}
  {
    assert m in Final(refs);
    assert |Final(refs) - {m}| == 0;
    assert Final(refs - {m}) == Final(refs) - {m};
  }

  // ---------------------------------------------------------------- the configurator

  lemma ConfigStep(s: Sys, s': Sys)
    requires TermInv(s) && s' == s.(cfg := s'.cfg) && Sent(s'.cfg, |s.src|) == Sent(s.cfg, |s.src|) && ConfigInv(s')
    ensures TermInv(s')
  {
    hide Terms, TermsOf, Ends, Dones;
    SourcesSame(s, s');
    hide Awaited, SourceInv, Before;
    forall j | 1 <= j < |s.st| ensures StageInv(s', j) { assert StageInv(s, j); }
    forall l | 0 <= l < |s.out| ensures OutInv(s', l) { assert OutInv(s, l); }
  }

  /** Nothing is destroyed before anything is sent. */
  lemma NothingDestroyed(s: Sys)
    requires TermInv(s) && Sent(s.cfg, |s.src|) == 0
    ensures Destroyed(s) == 0
  {
    assert Awaited(s) == UpTo(|s.src|);
  }

  lemma DestroyedBound(s: Sys)
    requires TermInv(s)
    ensures 0 <= Destroyed(s) <= |s.src|
  {
    Subset(Awaited(s), UpTo(|s.src|));
  }

  lemma ConfigTakeKeeps(s: Sys)
    requires TermInv(s) && Enabled(s, CfgTake)
    ensures TermInv(Step(s, CfgTake))
  {
    var s' := Step(s, CfgTake);
    if s.cfg.status == Running {
      NothingDestroyed(s);
    }
    DestroyedBound(s);
    assert Dones(s.cfg.pipe) == Dones(s'.cfg.pipe) + if s.cfg.pipe[0].ReqDone? then 1 else 0;
    hide Dones;
    assert Destroyed(s') == Destroyed(s) by { hide *; DestroyedSame(s, s'); }
    assert ConfigInv(s');
    hide ConfigInv, TermInv;
    ConfigStep(s, s');
  }

  lemma DestroyedSame(s: Sys, s': Sys)
    requires Shape(s) && s' == s.(cfg := s'.cfg)
    ensures Destroyed(s') == Destroyed(s)
  {
  }

  lemma RequestKeeps(s: Sys, r: Req)
    requires TermInv(s) && Enabled(s, Request(r))
    ensures TermInv(Step(s, Request(r)))
  {
    DonesAppend(s.cfg.pipe, r);
    ConfigStep(s, Step(s, Request(r)));
  }

  /** Another message in a feedback pipe; a terminate message only for the input whose turn it is. */
  lemma FeedKeeps(s: Sys, i: nat, u: Up, c: Config)
    requires TermInv(s) && i < |s.src| && c.pipe == s.cfg.pipe && c.termSent == s.cfg.termSent && c.status == s.cfg.status
    requires c.done == s.cfg.done && c.aborted == s.cfg.aborted
    requires u.End? ==> s.cfg.phase.SendEnd? && s.cfg.phase.i == i && c.phase == SendEnd(i + 1, s.cfg.phase.next)
    requires !u.End? ==> Sent(c, |s.src|) == Sent(s.cfg, |s.src|) && (c.phase.SendEnd? ==> c.phase == s.cfg.phase)
    ensures TermInv(Feed(s, i, u).(cfg := c))
  {
    var s' := Feed(s, i, u).(cfg := c);
    EndsAppend(s.src[i].feed, u);
    hide Terms, TermsOf, Ends, Dones;
    forall k | 0 <= k < |s.src| ensures SourceInv(s', k) && Before(s', k) == Before(s, k) + if k == i && u.End? then 1 else 0 {
      assert SourceInv(s, k);
    }
    assert Awaited(s') == Awaited(s) by {
      forall k: nat | k < |s.src| ensures k in Awaited(s') <==> k in Awaited(s) { assert SourceInv(s, k); }
    }
    hide Awaited, SourceInv, Before;
    forall j | 1 <= j < |s.st| ensures StageInv(s', j) { assert StageInv(s, j); }
    forall l | 0 <= l < |s.out| ensures OutInv(s', l) { assert OutInv(s, l); }
  }

  lemma ConfigSendKeeps(s: Sys)
    requires TermInv(s) && Enabled(s, CfgSend)
    ensures TermInv(Step(s, CfgSend))
  {
    var s' := Step(s, CfgSend);
    hide Terms, TermsOf, Ends, Dones, SourceInv, Awaited, OutInv, StageInv;
    if s.cfg.phase.i < |s.src| {
      hide FirstInv;
      FeedKeeps(s, s.cfg.phase.i, if s.cfg.phase.SendEnd? then End else Tick(s.cfg.rounds), s'.cfg);
    } else {
      DestroyedSame(s, s');
      ConfigStep(s, s');
    }
  }

  // ---------------------------------------------------------------- all steps, all runs

  lemma TermStep(s: Sys, a: Action)
    requires TermInv(s) && Lines.Inv(s) && Enabled(s, a)
    ensures TermInv(Step(s, a))
  {
    hide TermInv, Lines.Inv, Step;
    match a
    case Request(r) => RequestKeeps(s, r);
    case CfgTake => ConfigTakeKeeps(s);
    case CfgSend => ConfigSendKeeps(s);
    case CloseReq(i) => CloseKeeps(s, i);
    case PaTake(i, kinds) => ParserTakeKeeps(s, i, kinds);
    case PaPush(i) => ParserPushKeeps(s, i);
    case StTake(j) => if s.st[j].inbox[0].kind.Term? { StageTakeTerm(s, j); } else { StageTakeCalm(s, j); }
    case StDrop(j) => StageDropCalm(s, j);
    case StPush(j) => StagePushCalm(s, j);
    case MgTake => if s.st[|s.st| - 1].inbox[0].kind.Term? { ManagerTakeTerm(s); } else { ManagerTakeCalm(s); }
    case MgDrop => ManagerDropCalm(s);
    case MgPush => ManagerPushCalm(s);
    case OuTake(l) => if s.out[l].inbox[0].kind.Term? { OutTakeTerm(s, l); } else { OutCalm(s, a); }
    case OuRelease(l) => OutCalm(s, a);
    case OuFree(l) => if s.out[l].hand.msg.kind.Term? { OutFreeTerm(s, l); } else { OutCalm(s, a); }
    case _ => InputKeeps(s, a);
  }

  lemma CloseKeeps(s: Sys, i: nat)
    requires TermInv(s) && Enabled(s, CloseReq(i))
    ensures TermInv(Step(s, CloseReq(i)))
  {
    hide TermInv;
    FeedKeeps(s, i, Close, s.cfg);
    assert Step(s, CloseReq(i)) == Feed(s, i, Close).(cfg := s.cfg);
  }

  lemma InitTerm(s: Sys)
    requires IsInit(s)
    ensures TermInv(s)
  {
    forall i | 0 <= i < |s.src| ensures SourceInv(s, i) {
    }
    assert Awaited(s) == UpTo(|s.src|);
    forall j | 1 <= j < |s.st| ensures StageInv(s, j) {
    }
    forall l | 0 <= l < |s.out| ensures OutInv(s, l) {
    }
  }

  lemma {:induction false} RunTerm(run: seq<Sys>, acts: seq<Action>, k: nat)
    requires IsRun(run, acts) && k < |run|
    ensures TermInv(run[k]) && Lines.Inv(run[k])
  {
    Lines.RunInv(run, acts, k);
    if k == 0 {
      InitTerm(run[0]);
    } else {
      RunTerm(run, acts, k - 1);
      TermStep(run[k - 1], acts[k - 1]);
    }
  }

  // ---------------------------------------------------------------- the protocol

  /** The configurator never aborts, and reports completion only after every thread has taken its final terminate message. */
  lemma Completion(run: seq<Sys>, acts: seq<Action>, k: nat)
    requires IsRun(run, acts) && k < |run|
    ensures !run[k].cfg.aborted
    ensures var s := run[k];
            s.cfg.done ==>
              && (forall i | 0 <= i < |s.src| :: !s.src[i].inAlive && !s.src[i].alive)
              && (forall j | 0 <= j < |s.st| :: !s.st[j].alive)
              && (forall l | 0 <= l < |s.out| :: !s.out[l].alive)
  {
    RunTerm(run, acts, k);
    hide IsRun;
    var s := run[k];
    if s.cfg.done {
      DestroyedBound(s);
      assert Destroyed(s) == |s.src| && !s.st[0].alive && !MgrAlive(s) && Final(s.refs) == {};
      assert Awaited(s) == {};
      forall i: nat | i < |s.src| ensures !s.src[i].inAlive && !s.src[i].alive {
        assert SourceInv(s, i) && i !in Awaited(s);
      }
      hide SourceInv, Awaited, Terms, TermsOf, Ends, Dones;
      forall j | 0 <= j < |s.st| ensures !s.st[j].alive {
        DeadBefore(s, j, |s.st| - 1);
      }
      forall l | 0 <= l < |s.out| ensures !s.out[l].alive {
        assert OutInv(s, l);
        if s.out[l].alive {
          TermIsCounted(s, l);
        }
      }
    }
  }

  lemma {:induction false} SomeTerm(q: seq<Msg>) returns (a: nat)
    requires Terms(q) > 0
    ensures a < |q| && q[a].kind.Term?
  {
    if q[0].kind.Term? {
      a := 0;
    } else {
      a := SomeTerm(q[1..]);
      a := a + 1;
    }
  }

  /** A terminate message on its way to an output has a reference counter. */
  lemma TermIsCounted(s: Sys, l: nat)
    requires Lines.Inv(s) && l < |s.out| && OutTerms(s, l) > 0
    ensures Final(s.refs) != {}
  {
    hide Lines.LinesOk;
    var q := Lines.Active(s.out, s.pend, l);
    var x: Msg;
    if Terms(s.out[l].inbox) > 0 {
      var a := SomeTerm(s.out[l].inbox);
      x := s.out[l].inbox[a];
      assert x in q;
    } else {
      var a := SomeTerm(Lines.Pending(s.pend, l));
      x := Lines.Pending(s.pend, l)[a];
      assert x in q;
    }
    assert l in Lines.Holders(s.out, s.pend, x);
    assert x in Final(s.refs);
  }

  /** Terminate messages that exist: not yet counted by the first shared thread, between stages, or beyond the manager. */
  function LiveTerms(s: Sys): nat
    requires Shape(s)
  {
    |set i: nat | i < |s.src| && Before(s, i) == 1|
    + |set j: nat | 1 <= j < |s.st| && Between(s, j) == 1|
    + |Final(s.refs)|
  }

  /** Messages alive, notifications under way and notifications counted: always as many as were sent, in the end one per input. */
  lemma TokensConserved(run: seq<Sys>, acts: seq<Action>, k: nat)
    requires IsRun(run, acts) && k < |run|
    ensures Shape(run[k])
    ensures var s := run[k];
            LiveTerms(s) + Dones(s.cfg.pipe) + Handled(s.cfg, |s.src|) == Sent(s.cfg, |s.src|) <= |s.src|
    ensures forall i | 0 <= i < |run[k].src| :: Before(run[k], i) <= 1
    ensures forall j | 1 <= j < |run[k].st| :: Between(run[k], j) <= 1
  {
    RunTerm(run, acts, k);
    hide IsRun, Lines.Inv;
    var s := run[k];
    forall i | 0 <= i < |s.src| ensures Before(s, i) <= 1 { assert SourceInv(s, i); }
    forall j | 1 <= j < |s.st| ensures Between(s, j) <= 1 { assert StageInv(s, j); }
    UpCount(s);
    MidCount(s);
  }

  lemma UpCount(s: Sys)
    requires TermInv(s)
    ensures Sent(s.cfg, |s.src|) <= |s.src|
    ensures |set i: nat | i < |s.src| && Before(s, i) == 1| == |Awaited(s)| - (|s.src| - Sent(s.cfg, |s.src|))
  {
    var n, sent := |s.src|, Sent(s.cfg, |s.src|);
    forall i: nat | i < n ensures Before(s, i) == 1 ==> i < sent { assert SourceInv(s, i); }
    hide SourceInv, Before, StageInv, OutInv, FirstInv, ConfigInv;
    UpSet(s, sent);
  }

  lemma UpSet(s: Sys, sent: nat)
    requires Shape(s) && sent == Sent(s.cfg, |s.src|) <= |s.src|
    requires forall i: nat | i < |s.src| :: Before(s, i) == 1 ==> i < sent
    ensures |set i: nat | i < |s.src| && Before(s, i) == 1| == |Awaited(s)| - (|s.src| - sent)
  {
    hide Before, Sent;
    var up := set i: nat | i < |s.src| && Before(s, i) == 1;
    assert Awaited(s) == up + (UpTo(|s.src|) - UpTo(sent));
    hide Awaited;
    DisjointCount(up, sent, |s.src|);
  }

  lemma DisjointCount(up: set<nat>, sent: nat, n: nat)
    requires sent <= n && up <= UpTo(sent)
    ensures |up + (UpTo(n) - UpTo(sent))| == |up| + (n - sent)
  {
    var unsent := UpTo(n) - UpTo(sent);
    assert UpTo(n) == UpTo(sent) + unsent && UpTo(sent) !! unsent;
    assert up !! unsent;
  }

  /** Once the first shared thread has ended, one terminate message is left, until it is destroyed. */
  lemma MidCount(s: Sys)
    requires TermInv(s)
    ensures |set j: nat | 1 <= j < |s.st| && Between(s, j) == 1| + |Final(s.refs)| == |s.src| - |Awaited(s)| - Destroyed(s)
  {
    hide SourceInv, Before, OutInv, Awaited, Terms, Dones;
    var mid := set j: nat | 1 <= j < |s.st| && Between(s, j) == 1;
    forall j: nat ensures j in mid <==> 1 <= j < |s.st| && !s.st[j - 1].alive && s.st[j].alive {
      if 1 <= j < |s.st| { assert StageInv(s, j); }
    }
    if s.st[0].alive || !MgrAlive(s) {
      forall j | j in mid ensures false {
        if s.st[0].alive { DeadBefore(s, 0, j - 1); } else { DeadBefore(s, j, |s.st| - 1); }
      }
      if s.st[0].alive && !MgrAlive(s) { DeadBefore(s, 0, |s.st| - 1); }
    } else {
      var j := Border(s, |s.st| - 1);
      forall k | k in mid ensures k == j {
        if k < j { DeadBefore(s, k, j - 1); } else if k > j { DeadBefore(s, j, k - 1); }
      }
      assert mid == {j};
    }
  }

  lemma {:induction false} Border(s: Sys, k: nat) returns (j: nat)
    requires Shape(s) && k < |s.st| && s.st[k].alive && !s.st[0].alive
    ensures 1 <= j <= k && !s.st[j - 1].alive && s.st[j].alive
  {
    if s.st[k - 1].alive {
      j := Border(s, k - 1);
    } else {
      j := k;
    }
  }
}
