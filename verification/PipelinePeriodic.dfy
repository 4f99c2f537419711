/**
 * Periodic messages: every input is sent one a round; the first shared thread merges them, and every
 * later thread and output sees each number once, in order and without gaps.
 */
module PipelinePeriodic {
  import opened Bytes
  import opened Pipeline
  import Lines = PipelineLines

  function Ticks(q: seq<Msg>): seq<nat> {
    if q == [] then [] else (if q[0].kind.Periodic? then [q[0].kind.num] else []) + Ticks(q[1..])
  }

  function TicksOf(q: seq<Msg>, i: nat): seq<nat> {
    if q == [] then [] else (if q[0].kind.Periodic? && q[0].src == i then [q[0].kind.num] else []) + TicksOf(q[1..], i)
  }

  function UpTicks(q: seq<Up>): seq<nat> {
    if q == [] then [] else (if q[0].Tick? then [q[0].round] else []) + UpTicks(q[1..])
  }

  function Range(a: nat, b: nat): seq<nat> {
    if a < b then seq(b - a, k => a + k) else []
  }

  /** A run of consecutive numbers that ends before `b`. */
  predicate UpTo(q: seq<nat>, b: nat) {
    |q| <= b && q == Range(b - |q|, b)
  }

  lemma UpToSnoc(q: seq<nat>, b: nat)
    requires UpTo(q, b)
    ensures UpTo(q + [b], b + 1)
  {
  }

  lemma UpToPop(q: seq<nat>, b: nat)
    requires UpTo(q, b) && q != []
    ensures UpTo(q[1..], b) && q[0] == b - |q|
  {
  }

  lemma {:induction false} TicksAppend(q: seq<Msg>, m: Msg, i: nat)
    ensures Ticks(q + [m]) == Ticks(q) + if m.kind.Periodic? then [m.kind.num] else []
    ensures TicksOf(q + [m], i) == TicksOf(q, i) + if m.kind.Periodic? && m.src == i then [m.kind.num] else []
  {
    if q != [] {
      TicksAppend(q[1..], m, i);
      assert (q + [m])[1..] == q[1..] + [m];
      TicksPop(q, i);
      TicksPop(q + [m], i);
      hide Ticks, TicksOf;
    }
  }

  lemma {:induction false} UpTicksAppend(q: seq<Up>, u: Up)
    ensures UpTicks(q + [u]) == UpTicks(q) + if u.Tick? then [u.round] else []
  {
    if q != [] {
      UpTicksAppend(q[1..], u);
      assert (q + [u])[1..] == q[1..] + [u];
    }
  }

  lemma TicksPop(q: seq<Msg>, i: nat)
    requires q != []
    ensures Ticks(q) == (if q[0].kind.Periodic? then [q[0].kind.num] else []) + Ticks(q[1..])
    ensures TicksOf(q, i) == (if q[0].kind.Periodic? && q[0].src == i then [q[0].kind.num] else []) + TicksOf(q[1..], i)
  {
  }

  lemma TicksOne(m: Msg)
    ensures Ticks([m]) == (if m.kind.Periodic? then [m.kind.num] else []) && Ticks([]) == []
  {
    TicksAppend([], m, 0);
    assert [] + [m] == [m];
  }

  // ---------------------------------------------------------------- the invariant

  /** Rounds written to the feedback pipe of input `i`. */
  function Fed(c: Config, i: nat): nat {
    c.rounds + if c.phase.SendTick? && i < c.phase.i then 1 else 0
  }

  /** Rounds that are under way to a parser. */
  function Coming(c: Source): seq<nat> {
    UpTicks(c.ring) + UpTicks(c.hand) + UpTicks(c.feed)
  }

  /** The next round that a parser takes. */
  function NextRound(s: Sys, i: nat): int
    requires i < |s.src|
  {
    Fed(s.cfg, i) - |Coming(s.src[i])|
  }

  /** Periodic messages of input `i` before the first shared thread. */
  function ToFirst(s: Sys, i: nat): seq<nat>
    requires i < |s.src| && Shape(s)
  {
    TicksOf(s.st[0].inbox, i) + Ticks(s.src[i].emit)
  }

  /** How many periodic messages of input `i` the first shared thread has received. */
  function Received(s: Sys, i: nat): int
    requires i < |s.src| && Shape(s)
  {
    s.src[i].waiting - |ToFirst(s, i)|
  }

  function ToStage(s: Sys, j: nat): seq<nat>
    requires 1 <= j < |s.st|
  {
    Ticks(s.st[j].inbox) + Ticks(s.st[j - 1].hand)
  }

  function ToOut(s: Sys, l: nat): seq<nat>
    requires l < |s.out|
  {
    Ticks(s.out[l].inbox) + Ticks(Lines.Pending(s.pend, l))
  }

  ghost predicate SourcePer(s: Sys, i: nat)
    requires i < |s.src| && Shape(s)
  {
    && UpTo(Coming(s.src[i]), Fed(s.cfg, i))
    && s.src[i].waiting == (if NextRound(s, i) <= U32_SIZE then NextRound(s, i) else U32_SIZE)
    && UpTo(ToFirst(s, i), s.src[i].waiting)
    && Received(s, i) <= s.st[0].waiting
    && (forall a | 0 <= a < |s.src[i].emit| :: s.src[i].emit[a].src == i)
  }

  /** The counter of the first shared thread is the largest number received from any input. */
  ghost predicate MaxPer(s: Sys)
    requires Shape(s)
  {
    exists i: nat :: i < |s.src| && Received(s, i) == s.st[0].waiting
  }

  ghost predicate StagePer(s: Sys, j: nat)
    requires 1 <= j < |s.st|
  {
    UpTo(ToStage(s, j), s.st[j - 1].waiting) && s.st[j].waiting == s.st[j - 1].waiting - |ToStage(s, j)|
  }

  ghost predicate OutPer(s: Sys, l: nat)
    requires l < |s.out| && Shape(s)
  {
    UpTo(ToOut(s, l), s.st[|s.st| - 1].waiting)
  }

  ghost predicate PerInv(s: Sys) {
    && Shape(s)
    && (s.cfg.phase.SendTick? ==> s.cfg.phase.i <= |s.src|)
    && (forall i | 0 <= i < |s.src| :: SourcePer(s, i))
    && MaxPer(s)
    && (forall j | 1 <= j < |s.st| :: StagePer(s, j))
    && (forall l | 0 <= l < |s.out| :: OutPer(s, l))
  }

  // ---------------------------------------------------------------- frames

  /** A step that only concerns one input and what its parser has passed. */
  lemma SourceStep(s: Sys, s': Sys, i: nat)
    requires PerInv(s) && i < |s.src| == |s'.src| && s'.src == s.src[i := s'.src[i]] && s'.cfg == s.cfg
    requires s'.out == s.out && s'.pend == s.pend && |s'.st| == |s.st|
    requires s'.st[0] == s.st[0].(inbox := s'.st[0].inbox) && s'.st[1..] == s.st[1..]
    requires SourcePer(s', i) && Received(s', i) == Received(s, i)
    requires forall k | 0 <= k < |s.src| && k != i :: TicksOf(s'.st[0].inbox, k) == TicksOf(s.st[0].inbox, k)
    ensures PerInv(s')
  {
    hide Ticks, TicksOf, UpTicks, UpTo;
    forall k | 0 <= k < |s.src| ensures SourcePer(s', k) && Received(s', k) == Received(s, k) {
      assert SourcePer(s, k);
    }
    assert MaxPer(s') by {
      var k: nat :| k < |s.src| && Received(s, k) == s.st[0].waiting;
      assert Received(s', k) == s'.st[0].waiting;
    }
    hide SourcePer, MaxPer;
    forall j | 1 <= j < |s.st| ensures StagePer(s', j) {
      assert StagePer(s, j) && s'.st[j] == s'.st[1..][j - 1] == s.st[1..][j - 1];
      assert j > 1 ==> s'.st[j - 1] == s'.st[1..][j - 2] == s.st[1..][j - 2];
    }
    assert |s.st| > 1 ==> s'.st[|s.st| - 1] == s'.st[1..][|s.st| - 2] == s.st[|s.st| - 1];
    forall l | 0 <= l < |s.out| ensures OutPer(s', l) { assert OutPer(s, l); }
  }

  /** A step that moves no periodic message. */
  lemma CalmStep(s: Sys, s': Sys)
    requires PerInv(s) && Shape(s') && s'.src == s.src && |s'.st| == |s.st| && |s'.out| == |s.out|
    requires forall i | 0 <= i < |s.src| :: Fed(s'.cfg, i) == Fed(s.cfg, i)
    requires s'.cfg.phase.SendTick? ==> s'.cfg.phase.i <= |s.src|
    requires forall j | 0 <= j < |s.st| :: s'.st[j].waiting == s.st[j].waiting
    requires forall i | 0 <= i < |s.src| :: TicksOf(s'.st[0].inbox, i) == TicksOf(s.st[0].inbox, i)
    requires forall j | 1 <= j < |s.st| :: ToStage(s', j) == ToStage(s, j)
    requires forall l | 0 <= l < |s.out| :: ToOut(s', l) == ToOut(s, l)
    ensures PerInv(s')
  {
    hide Ticks, TicksOf, UpTicks, UpTo, Fed, ToStage, ToOut;
    forall k | 0 <= k < |s.src| ensures SourcePer(s', k) && Received(s', k) == Received(s, k) {
      assert SourcePer(s, k);
    }
    assert MaxPer(s') by {
      var k: nat :| k < |s.src| && Received(s, k) == s.st[0].waiting;
      assert Received(s', k) == s'.st[0].waiting;
    }
    hide SourcePer, MaxPer;
    forall j | 1 <= j < |s.st| ensures StagePer(s', j) { assert StagePer(s, j); }
    forall l | 0 <= l < |s.out| ensures OutPer(s', l) { assert OutPer(s, l); }
  }

  // ---------------------------------------------------------------- inputs and parsers

  lemma {:induction false} RawsHaveNoTick(k: nat)
    ensures UpTicks(Raws(k)) == [] && UpTicks(Raws(k) + [End]) == []
  {
    if k > 0 {
      assert Raws(k) == [Raw] + Raws(k - 1);
      assert Raws(k)[1..] == Raws(k - 1);
      RawsHaveNoTick(k - 1);
    } else {
      assert Raws(0) == [];
    }
    UpTicksAppend(Raws(k), End);
  }

  lemma UpOne(u: Up)
    ensures UpTicks([u]) == (if u.Tick? then [u.round] else []) && UpTicks([]) == []
  {
    UpTicksAppend([], u);
    assert [] + [u] == [u];
  }

  lemma UpPop(q: seq<Up>)
    requires q != []
    ensures UpTicks(q) == (if q[0].Tick? then [q[0].round] else []) + UpTicks(q[1..])
  {
  }

  lemma InputComing(s: Sys, a: Action)
    requires Enabled(s, a) && (a.InGet? || a.InTake? || a.InPush?)
    ensures Coming(Step(s, a).src[a.i]) == Coming(s.src[a.i])
  {
    var c, c' := s.src[a.i], Step(s, a).src[a.i];
    if a.InTake? {
      TakeComing(c, a.raws);
    } else if a.InPush? {
      UpTicksAppend(c.ring, c.hand[0]);
      UpPop(c.hand);
      hide UpTicks;
      assert UpTicks(c'.ring) + UpTicks(c'.hand) == UpTicks(c.ring) + UpTicks(c.hand);
    } else {
      UpOne(Raw);
    }
  }

  lemma TakeComing(c: Source, raws: nat)
    requires c.hand == [] && c.feed != []
    ensures Coming(InputTake(c, raws)) == Coming(c)
  {
    hide UpTicks;
    RawsHaveNoTick(raws);
    UpOne(c.feed[0]);
    UpPop(c.feed);
  }

  lemma InputKeeps(s: Sys, a: Action)
    requires PerInv(s) && Enabled(s, a) && (a.InGet? || a.InTake? || a.InPush?)
    ensures PerInv(Step(s, a))
  {
    hide Ticks, TicksOf, Coming, UpTo, StagePer, OutPer, MaxPer;
    InputComing(s, a);
    assert SourcePer(s, a.i);
    InputFields(s, a);
    hide Step, Enabled, PerInv;
    SourceStep(s, Step(s, a), a.i);
  }

  lemma InputFields(s: Sys, a: Action)
    requires Enabled(s, a) && (a.InGet? || a.InTake? || a.InPush?)
    ensures var s' := Step(s, a);
            && s'.src == s.src[a.i := s'.src[a.i]] && s'.cfg == s.cfg && s'.out == s.out && s'.pend == s.pend && s'.st == s.st
            && s'.src[a.i].emit == s.src[a.i].emit && s'.src[a.i].waiting == s.src[a.i].waiting
  {
    hide Raws;
  }

  lemma {:induction false} NoTicks(q: seq<Msg>)
    requires forall a | 0 <= a < |q| :: !q[a].kind.Periodic?
    ensures Ticks(q) == []
  {
    if q != [] { NoTicks(q[1..]); }
  }

  lemma ParserTicks(c: Source, i: nat, kinds: seq<Kind>)
    requires c.ring != [] && Emission(kinds)
    ensures var c' := ParserTake(c, i, kinds);
            if c'.waiting == c.waiting then Ticks(c'.emit) == [] else Ticks(c'.emit) == [c.waiting] && c'.waiting == c.waiting + 1
    ensures forall a | 0 <= a < |ParserTake(c, i, kinds).emit| :: ParserTake(c, i, kinds).emit[a].src == i
    ensures ParserTake(c, i, kinds).waiting != c.waiting <==> c.ring[0].Tick? && c.ring[0].round % U32_SIZE == c.waiting
  {
    var e := ParserTake(c, i, kinds).emit;
    if c.ring[0].Tick? && ParserKinds(c, kinds) != [] {
      assert e == [Msg(i, c.uid, Periodic(c.waiting))];
      TicksOne(e[0]);
    } else {
      NoTicks(e);
    }
  }

  /**
   * A parser passes round `r` exactly if r < 2^32: the configurator counts rounds in 32 bits, the
   * parser in 64, so that from then on every periodic message is dropped here.
   */
  lemma ParserPasses(s: Sys, i: nat, kinds: seq<Kind>)
    requires PerInv(s) && Enabled(s, PaTake(i, kinds)) && s.src[i].ring[0].Tick?
    ensures s.src[i].ring[0].round == NextRound(s, i)
    ensures s.src[i].ring[0].round < U32_SIZE <==> ParserKinds(s.src[i], kinds) == [Periodic(s.src[i].ring[0].round)]
    ensures s.src[i].ring[0].round >= U32_SIZE <==> ParserKinds(s.src[i], kinds) == []
  {
    var c := s.src[i];
    assert SourcePer(s, i);
    UpPop(c.ring);
    hide UpTicks, TicksOf, Ticks;
    assert Coming(c)[0] == c.ring[0].round;
    UpToPop(Coming(c), Fed(s.cfg, i));
  }

  /** What is under way to the parser afterwards, and the counter of the parser. */
  lemma ParserComing(s: Sys, i: nat, kinds: seq<Kind>)
    requires PerInv(s) && Enabled(s, PaTake(i, kinds))
    ensures var s' := Step(s, PaTake(i, kinds));
            && UpTo(Coming(s'.src[i]), Fed(s'.cfg, i))
            && s'.src[i].waiting == (if NextRound(s', i) <= U32_SIZE then NextRound(s', i) else U32_SIZE)
  {
    hide UpTicks, UpTo, Ticks, TicksOf, StagePer, OutPer, MaxPer;
    var c, c' := s.src[i], Step(s, PaTake(i, kinds)).src[i];
    assert SourcePer(s, i);
    hide PerInv;
    UpPop(c.ring);
    assert Coming(c) == (if c.ring[0].Tick? then [c.ring[0].round] else []) + Coming(c');
    if c.ring[0].Tick? {
      ParserPasses(s, i, kinds);
      UpToPop(Coming(c), Fed(s.cfg, i));
      assert Coming(c)[1..] == Coming(c');
    } else {
      assert [] + Coming(c') == Coming(c');
    }
  }

  lemma ParserTakeKeeps(s: Sys, i: nat, kinds: seq<Kind>)
    requires PerInv(s) && Enabled(s, PaTake(i, kinds))
    ensures PerInv(Step(s, PaTake(i, kinds)))
  {
    var s' := Step(s, PaTake(i, kinds));
    hide SourcePer, StagePer, OutPer, MaxPer, TicksOf, Ticks, UpTicks, UpTo;
    ParserComing(s, i, kinds);
    SourceOf(s, i);
    ParserPassed(s, i, kinds);
    SourceStep(s, s', i);
  }

  lemma SourceOf(s: Sys, i: nat)
    requires PerInv(s) && i < |s.src|
    ensures SourcePer(s, i)
  {
  }

  lemma ParserPassed(s: Sys, i: nat, kinds: seq<Kind>)
    requires Enabled(s, PaTake(i, kinds)) && SourcePer(s, i)
    requires var s' := Step(s, PaTake(i, kinds));
             && UpTo(Coming(s'.src[i]), Fed(s'.cfg, i))
             && s'.src[i].waiting == (if NextRound(s', i) <= U32_SIZE then NextRound(s', i) else U32_SIZE)
    ensures SourcePer(Step(s, PaTake(i, kinds)), i) && Received(Step(s, PaTake(i, kinds)), i) == Received(s, i)
  {
    var c, s' := s.src[i], Step(s, PaTake(i, kinds));
    hide UpTicks, Ticks, TicksOf, Coming, ParserTake;
    ParserTicks(c, i, kinds);
    TicksOne(Msg(0, 0, Term));
    assert ToFirst(s, i) == TicksOf(s.st[0].inbox, i);
    if s'.src[i].waiting != c.waiting {
      UpToSnoc(ToFirst(s, i), c.waiting);
      assert ToFirst(s', i) == ToFirst(s, i) + [c.waiting];
    } else {
      assert ToFirst(s', i) == ToFirst(s, i);
    }
    hide UpTo;
  }

  lemma ParserPushKeeps(s: Sys, i: nat)
    requires PerInv(s) && Enabled(s, PaPush(i))
    ensures PerInv(Step(s, PaPush(i)))
  {
    var s' := Step(s, PaPush(i));
    var y := s.src[i].emit[0];
    assert SourcePer(s, i);
    TicksPop(s.src[i].emit, i);
    forall k | 0 <= k < |s.src|
      ensures TicksOf(s'.st[0].inbox, k) == TicksOf(s.st[0].inbox, k) + if y.kind.Periodic? && y.src == k then [y.kind.num] else []
    {
      TicksAppend(s.st[0].inbox, y, k);
    }
    hide Ticks, TicksOf, UpTicks, UpTo, StagePer, OutPer, MaxPer;
    assert ToFirst(s', i) == ToFirst(s, i);
    SourceStep(s, s', i);
  }

  // ---------------------------------------------------------------- stages

  /** The first shared thread has received one message more, from the source of that message. */
  lemma FirstReceived(s: Sys, s': Sys, i: nat)
    requires PerInv(s) && s.st[0].inbox != [] && i < |s.src|
    requires Shape(s') && s'.src == s.src && s'.st[0].inbox == s.st[0].inbox[1..] && Fed(s'.cfg, i) == Fed(s.cfg, i)
    ensures var m := s.st[0].inbox[0];
            && UpTo(ToFirst(s', i), s'.src[i].waiting)
            && Received(s', i) == Received(s, i) + (if m.kind.Periodic? && m.src == i then 1 else 0)
            && (m.kind.Periodic? && m.src == i ==> m.kind.num == Received(s, i))
  {
    var m := s.st[0].inbox[0];
    TicksPop(s.st[0].inbox, i);
    assert SourcePer(s, i);
    hide UpTicks, Ticks, TicksOf;
    assert ToFirst(s, i) == (if m.kind.Periodic? && m.src == i then [m.kind.num] else []) + ToFirst(s', i);
    if m.kind.Periodic? && m.src == i {
      UpToPop(ToFirst(s, i), s.src[i].waiting);
      assert ToFirst(s, i)[1..] == ToFirst(s', i);
    } else {
      assert ToFirst(s, i) == ToFirst(s', i);
    }
  }

  /** The first shared thread takes a message: only a number not seen before is passed on, and it is the next one. */
  lemma FirstTake(s: Sys, s': Sys)
    requires PerInv(s) && Lines.Inv(s) && s.st[0].inbox != [] && s.st[0].hand == []
    requires Shape(s') && s'.src == s.src && |s'.st| == |s.st| && forall i | 0 <= i < |s.src| :: Fed(s'.cfg, i) == Fed(s.cfg, i)
    requires s'.st[0].inbox == s.st[0].inbox[1..]
    requires s'.st[0].waiting == Receive(Popped(s.st[0]), s.st[0].inbox[0].kind).0.waiting
    ensures (forall i | 0 <= i < |s.src| :: SourcePer(s', i)) && MaxPer(s')
    ensures s.st[0].inbox[0].kind.Periodic? ==> s.st[0].inbox[0].kind.num <= s.st[0].waiting
  {
    var m := s.st[0].inbox[0];
    HeadSource(s);
    hide Lines.Inv, UpTicks, Ticks, TicksOf, UpTo, ToFirst, Coming, Fed;
    forall i | 0 <= i < |s.src|
      ensures SourcePer(s', i) && Received(s', i) == Received(s, i) + if m.kind.Periodic? && m.src == i then 1 else 0
      ensures m.kind.Periodic? && m.src == i ==> m.kind.num == Received(s, i) <= s.st[0].waiting
    {
      FirstReceived(s, s', i);
      assert SourcePer(s, i);
    }
    hide SourcePer, Received;
    var k: nat :| k < |s.src| && Received(s, k) == s.st[0].waiting;
    assert Received(s', if s'.st[0].waiting > s.st[0].waiting then m.src else k) == s'.st[0].waiting;
  }

  lemma HeadSource(s: Sys)
    requires Lines.Inv(s) && s.st[0].inbox != [] && s.st[0].hand == []
    ensures s.st[0].inbox[0].src < |s.src|
  {
    hide Lines.LinesOk, Lines.RefsOk;
    var a, b := Lines.MidSplit(s.st, 0, s.st[0]);
    var mid := Lines.MidFrom(s.st, 0);
    assert mid[|a|] == s.st[0].inbox[0];
    Lines.MidIssued(s, |a|, mid);
  }

  /** Every later thread takes exactly the number it waits for: it discards no periodic message. */
  lemma LaterStagesForward(s: Sys, j: nat)
    requires PerInv(s) && 1 <= j < |s.st| && s.st[j].inbox != [] && s.st[j].inbox[0].kind.Periodic?
    ensures s.st[j].inbox[0].kind.num == s.st[j].waiting
    ensures Receive(Popped(s.st[j]), s.st[j].inbox[0].kind).1 == Pass
  {
    assert StagePer(s, j);
    TicksPop(s.st[j].inbox, 0);
    UpToPop(ToStage(s, j), s.st[j - 1].waiting);
    assert ToStage(s, j)[0] == s.st[j].inbox[0].kind.num;
  }

  /** The ring before a stage loses its first message. */
  lemma StagePopped(s: Sys, j: nat, s': Sys)
    requires PerInv(s) && 1 <= j < |s.st| == |s'.st| && s.st[j].inbox != [] && s'.st[j].inbox == s.st[j].inbox[1..]
    requires s'.st[j].waiting == Receive(Popped(s.st[j]), s.st[j].inbox[0].kind).0.waiting
    requires s'.st[j - 1].waiting == s.st[j - 1].waiting && s'.st[j - 1].hand == s.st[j - 1].hand
    ensures StagePer(s', j)
    ensures s.st[j].inbox[0].kind.Periodic? ==> s.st[j].inbox[0].kind.num == s.st[j].waiting
  {
    assert StagePer(s, j);
    TicksPop(s.st[j].inbox, 0);
    var m := s.st[j].inbox[0];
    assert ToStage(s, j) == (if m.kind.Periodic? then [m.kind.num] else []) + ToStage(s', j);
    if m.kind.Periodic? {
      UpToPop(ToStage(s, j), s.st[j - 1].waiting);
      assert ToStage(s, j)[1..] == ToStage(s', j);
    } else {
      assert ToStage(s, j) == ToStage(s', j);
    }
  }

  /** A stage that passes a message on: what the next one receives stays consecutive. */
  lemma StageForwards(s: Sys, j: nat, s': Sys)
    requires PerInv(s) && j + 1 < |s.st| == |s'.st| && s.st[j].inbox != [] && s.st[j].hand == []
    requires s'.st[j + 1] == s.st[j + 1]
    requires var r := Receive(Popped(s.st[j]), s.st[j].inbox[0].kind);
             s'.st[j] == if r.1 == Pass then r.0.(hand := [s.st[j].inbox[0]]) else r.0
    ensures StagePer(s', j + 1)
  {
    hide Ticks, SourcePer, OutPer, MaxPer;
    assert StagePer(s, j + 1);
    var m := s.st[j].inbox[0];
    TicksOne(m);
    if m.kind.Periodic? && m.kind.num == s.st[j].waiting {
      UpToSnoc(ToStage(s, j + 1), s.st[j].waiting);
      assert ToStage(s', j + 1) == ToStage(s, j + 1) + [m.kind.num];
    } else {
      assert ToStage(s', j + 1) == ToStage(s, j + 1);
    }
  }

  lemma StageTakeKeeps(s: Sys, j: nat)
    requires PerInv(s) && Lines.Inv(s) && Enabled(s, StTake(j))
    ensures PerInv(Step(s, StTake(j)))
  {
    var s' := Step(s, StTake(j));
    if j == 0 {
      FirstTake(s, s');
    } else {
      StagePopped(s, j, s');
      SourcesSame(s, s');
    }
    StageForwards(s, j, s');
    hide SourcePer, MaxPer, OutPer, Lines.Inv;
    forall k | 1 <= k < |s.st| ensures StagePer(s', k) {
      if k != j && k != j + 1 {
        StageSame(s, s', k);
      }
    }
    OutsSame(s, s');
  }

  lemma SourcesSame(s: Sys, s': Sys)
    requires PerInv(s) && Shape(s') && s'.src == s.src && (forall i | 0 <= i < |s.src| :: Fed(s'.cfg, i) == Fed(s.cfg, i))
    requires s'.st[0].inbox == s.st[0].inbox && s'.st[0].waiting == s.st[0].waiting
    ensures (forall i | 0 <= i < |s.src| :: SourcePer(s', i)) && MaxPer(s')
  {
    hide Ticks, TicksOf, UpTicks, UpTo, StagePer, OutPer;
    forall k | 0 <= k < |s.src| ensures SourcePer(s', k) && Received(s', k) == Received(s, k) {
      assert SourcePer(s, k);
    }
    var k: nat :| k < |s.src| && Received(s, k) == s.st[0].waiting;
    assert Received(s', k) == s'.st[0].waiting;
  }

  lemma StageMovesKeep(s: Sys, a: Action)
    requires PerInv(s) && Enabled(s, a) && (a.StDrop? || a.StPush?)
    ensures PerInv(Step(s, a))
  {
    hide Ticks, TicksOf, ToStage, SourcePer, StagePer, OutPer, MaxPer;
    StageMoves(s, a);
    CalmStep(s, Step(s, a));
  }

  lemma StageMoves(s: Sys, a: Action)
    requires PerInv(s) && Enabled(s, a) && (a.StDrop? || a.StPush?)
    ensures forall k | 1 <= k < |s.st| :: ToStage(Step(s, a), k) == ToStage(s, k)
  {
    TicksPop(s.st[a.j].hand, 0);
    if a.StPush? {
      TicksAppend(s.st[a.j + 1].inbox, s.st[a.j].hand[0], 0);
    }
    hide Ticks, TicksOf, PerInv;
  }

  // ---------------------------------------------------------------- output manager and outputs

  lemma FannedTicks(s: Sys, m: Msg, l: nat)
    requires l < |s.out| && m.kind.Periodic?
    ensures Ticks(Lines.Pending(Dests(s.out, m, 0), l)) == [m.kind.num]
  {
    Lines.DestsPending(s.out, m, 0, l);
    TicksOne(m);
  }

  lemma OtherTicks(s: Sys, m: Msg, l: nat)
    requires l < |s.out| && !m.kind.Periodic?
    ensures Ticks(Lines.Pending(Dests(s.out, m, 0), l)) == []
  {
    Lines.DestsPending(s.out, m, 0, l);
    TicksOne(m);
  }

  /** Every output is sent what the manager passes. */
  lemma ManagerOuts(s: Sys)
    requires PerInv(s) && Enabled(s, MgTake)
    ensures forall l | 0 <= l < |s.out| :: OutPer(Step(s, MgTake), l)
  {
    hide SourcePer, StagePer, OutPer, MaxPer, Dests;
    forall l | 0 <= l < |s.out| ensures OutPer(Step(s, MgTake), l) {
      assert OutPer(s, l);
      ManagerOut(s, l);
    }
  }

  lemma ManagerOut(s: Sys, l: nat)
    requires Enabled(s, MgTake) && l < |s.out| && OutPer(s, l)
    ensures OutPer(Step(s, MgTake), l)
  {
    hide Ticks, UpTo, Dests;
    var j, s' := |s.st| - 1, Step(s, MgTake);
    var m := s.st[j].inbox[0];
    TicksOne(m);
    assert Lines.Pending([], l) == [];
    if m.kind.Periodic? {
      FannedTicks(s, m, l);
      Lines.DestsPending(s.out, m, 0, l);
      UpToSnoc(ToOut(s, l), s.st[j].waiting);
      assert ToOut(s', l) == ToOut(s, l) + if s'.st[j].waiting != s.st[j].waiting then [m.kind.num] else [];
    } else {
      OtherTicks(s, m, l);
      assert ToOut(s', l) == ToOut(s, l);
    }
  }

  lemma ManagerTakeKeeps(s: Sys)
    requires PerInv(s) && Lines.Inv(s) && Enabled(s, MgTake)
    ensures PerInv(Step(s, MgTake))
  {
    var j, s' := |s.st| - 1, Step(s, MgTake);
    ManagerOuts(s);
    hide OutPer, Dests, Lines.LinesOk, Lines.RefsOk;
    if j == 0 {
      FirstTake(s, s');
    } else {
      StagePopped(s, j, s');
      SourcesSame(s, s');
    }
    hide SourcePer, MaxPer, Lines.Inv;
    forall k | 1 <= k < |s.st| ensures StagePer(s', k) {
      if k != j {
        StageSame(s, s', k);
      }
    }
  }

  lemma ManagerDropKeeps(s: Sys)
    requires PerInv(s) && Enabled(s, MgDrop)
    ensures PerInv(Step(s, MgDrop))
  {
    var j, s' := |s.st| - 1, Step(s, MgDrop);
    TicksPop(s.st[j].inbox, 0);
    forall i | 0 <= i < |s.src| ensures TicksOf(s'.st[0].inbox, i) == TicksOf(s.st[0].inbox, i) {
      TicksPop(s.st[j].inbox, i);
    }
    hide Ticks, TicksOf, PerInv;
    forall k | 1 <= k < |s.st| ensures ToStage(s', k) == ToStage(s, k) {
    }
    assert forall l | 0 <= l < |s.out| :: ToOut(s', l) == ToOut(s, l);
    CalmStep(s, s');
  }

  lemma ManagerPushKeeps(s: Sys)
    requires PerInv(s) && Enabled(s, MgPush)
    ensures PerInv(Step(s, MgPush))
  {
    var s' := Step(s, MgPush);
    forall l | 0 <= l < |s.out| ensures ToOut(s', l) == ToOut(s, l) {
      PushedTicks(s, l);
    }
    hide Ticks, TicksOf, PerInv, ToOut;
    assert forall k | 1 <= k < |s.st| :: ToStage(s', k) == ToStage(s, k);
    CalmStep(s, s');
  }

  lemma PushedTicks(s: Sys, l: nat)
    requires Enabled(s, MgPush) && l < |s.out|
    ensures ToOut(ManagerPush(s), l) == ToOut(s, l)
  {
    var t, rest := s.pend[0], Lines.Pending(s.pend[1..], l);
    TicksAppend(s.out[l].inbox, t.msg, 0);
    if l == t.out {
      assert Lines.Pending(s.pend, l) == [t.msg] + rest;
      TicksPop(Lines.Pending(s.pend, l), 0);
      assert ([t.msg] + rest)[1..] == rest;
    } else {
      assert Lines.Pending(s.pend, l) == [] + rest == rest;
    }
  }

  /** An output that takes a periodic message takes the next number: it sees 0, 1, 2, ... without gaps. */
  lemma OutputsInOrder(s: Sys, l: nat)
    requires PerInv(s) && Enabled(s, OuTake(l))
    ensures var m := s.out[l].inbox[0];
            && (m.kind.Periodic? ==> m.kind.num == s.st[|s.st| - 1].waiting - |ToOut(s, l)|
                                     && |ToOut(Step(s, OuTake(l)), l)| == |ToOut(s, l)| - 1)
            && PerInv(Step(s, OuTake(l)))
  {
    var s', m := Step(s, OuTake(l)), s.out[l].inbox[0];
    TicksPop(s.out[l].inbox, 0);
    assert OutPer(s, l);
    assert ToOut(s, l) == (if m.kind.Periodic? then [m.kind.num] else []) + ToOut(s', l);
    if m.kind.Periodic? {
      UpToPop(ToOut(s, l), s.st[|s.st| - 1].waiting);
      assert ToOut(s, l)[1..] == ToOut(s', l);
    } else {
      assert ToOut(s, l) == ToOut(s', l);
    }
    SourcesSame(s, s');
    hide Ticks, TicksOf, UpTo, SourcePer, MaxPer;
    forall k | 1 <= k < |s.st| ensures StagePer(s', k) { assert StagePer(s, k); }
    forall k | 0 <= k < |s.out| ensures OutPer(s', k) { assert OutPer(s, k); }
  }

  lemma OutRestKeeps(s: Sys, a: Action)
    requires PerInv(s) && Enabled(s, a) && (a.OuRelease? || a.OuFree?)
    ensures PerInv(Step(s, a))
  {
    var s' := Step(s, a);
    hide Ticks, TicksOf, PerInv;
    assert forall k | 1 <= k < |s.st| :: ToStage(s', k) == ToStage(s, k);
    assert forall l | 0 <= l < |s.out| :: ToOut(s', l) == ToOut(s, l);
    CalmStep(s, s');
  }

  // ---------------------------------------------------------------- the configurator

  lemma FeedKeeps(s: Sys, i: nat, u: Up, c: Config)
    requires PerInv(s) && i < |s.src| && (c.phase.SendTick? ==> c.phase.i <= |s.src|)
    requires forall k | 0 <= k < |s.src| :: Fed(c, k) == Fed(s.cfg, k) + if k == i && u.Tick? then 1 else 0
    requires u.Tick? ==> u.round == Fed(s.cfg, i)
    ensures PerInv(Feed(s, i, u).(cfg := c))
  {
    var s' := Feed(s, i, u).(cfg := c);
    hide SourcePer, StagePer, OutPer, Fed, Received;
    forall k | 0 <= k < |s.src| ensures SourcePer(s', k) && Received(s', k) == Received(s, k) {
      SourceOf(s, k);
      FedSource(s, s', i, u, c, k);
    }
    MaxSame(s, s');
    forall j | 1 <= j < |s.st| ensures StagePer(s', j) { StageSame(s, s', j); }
    OutsSame(s, s');
  }

  lemma MaxSame(s: Sys, s': Sys)
    requires Shape(s) && Shape(s') && MaxPer(s) && |s'.src| == |s.src| && s'.st[0].waiting == s.st[0].waiting
    requires forall k | 0 <= k < |s.src| :: Received(s', k) == Received(s, k)
    ensures MaxPer(s')
  {
    hide Received;
    var k: nat :| k < |s.src| && Received(s, k) == s.st[0].waiting;
    assert Received(s', k) == s'.st[0].waiting;
  }

  lemma StageSame(s: Sys, s': Sys, j: nat)
    requires 1 <= j < |s.st| == |s'.st| && StagePer(s, j)
    requires s'.st[j].inbox == s.st[j].inbox && s'.st[j - 1].hand == s.st[j - 1].hand
    requires s'.st[j].waiting == s.st[j].waiting && s'.st[j - 1].waiting == s.st[j - 1].waiting
    ensures StagePer(s', j)
  {
  }

  lemma OutsSame(s: Sys, s': Sys)
    requires Shape(s) && Shape(s') && s'.out == s.out && s'.pend == s.pend && s'.st[|s'.st| - 1].waiting == s.st[|s.st| - 1].waiting
    requires forall l | 0 <= l < |s.out| :: OutPer(s, l)
    ensures forall l | 0 <= l < |s'.out| :: OutPer(s', l)
  {
    forall l | 0 <= l < |s.out| ensures OutPer(s', l) { assert OutPer(s, l); }
  }

  lemma FedSource(s: Sys, s': Sys, i: nat, u: Up, c: Config, k: nat)
    requires Shape(s) && i < |s.src| && k < |s.src| && SourcePer(s, k) && s' == Feed(s, i, u).(cfg := c)
    requires Fed(c, k) == Fed(s.cfg, k) + if k == i && u.Tick? then 1 else 0
    requires u.Tick? ==> u.round == Fed(s.cfg, i)
    ensures SourcePer(s', k) && Received(s', k) == Received(s, k)
  {
    hide Ticks, TicksOf, UpTicks, Fed;
    UpTicksAppend(s.src[i].feed, u);
    assert Coming(s'.src[k]) == Coming(s.src[k]) + if k == i && u.Tick? then [u.round] else [];
    if k == i && u.Tick? {
      UpToSnoc(Coming(s.src[i]), Fed(s.cfg, i));
    }
    hide UpTo, Coming;
  }

  lemma ConfigKeeps(s: Sys, a: Action)
    requires PerInv(s) && Enabled(s, a) && (a.Request? || a.CfgTake? || a.CfgSend? || a.CloseReq?)
    ensures PerInv(Step(s, a))
  {
    var s' := Step(s, a);
    hide SourcePer, StagePer, OutPer, MaxPer;
    if a.CloseReq? {
      FeedKeeps(s, a.i, Close, s.cfg);
      assert s' == Feed(s, a.i, Close).(cfg := s.cfg);
    } else if a.CfgSend? && s.cfg.phase.i < |s.src| {
      FeedKeeps(s, s.cfg.phase.i, if s.cfg.phase.SendEnd? then End else Tick(s.cfg.rounds), s'.cfg);
    } else {
      assert forall k | 1 <= k < |s.st| :: ToStage(s', k) == ToStage(s, k);
      assert forall l | 0 <= l < |s.out| :: ToOut(s', l) == ToOut(s, l);
      CalmStep(s, s');
    }
  }

  // ---------------------------------------------------------------- all steps, all runs

  lemma PerStep(s: Sys, a: Action)
    requires PerInv(s) && Lines.Inv(s) && Enabled(s, a)
    ensures PerInv(Step(s, a))
  {
    hide PerInv, Lines.Inv, Step;
    match a
    case Request(_) => ConfigKeeps(s, a);
    case CfgTake => ConfigKeeps(s, a);
    case CfgSend => ConfigKeeps(s, a);
    case CloseReq(_) => ConfigKeeps(s, a);
    case PaTake(i, kinds) => ParserTakeKeeps(s, i, kinds);
    case PaPush(i) => ParserPushKeeps(s, i);
    case StTake(j) => StageTakeKeeps(s, j);
    case StDrop(_) => StageMovesKeep(s, a);
    case StPush(_) => StageMovesKeep(s, a);
    case MgTake => ManagerTakeKeeps(s);
    case MgDrop => ManagerDropKeeps(s);
    case MgPush => ManagerPushKeeps(s);
    case OuTake(l) => OutputsInOrder(s, l);
    case OuRelease(_) => OutRestKeeps(s, a);
    case OuFree(_) => OutRestKeeps(s, a);
    case _ => InputKeeps(s, a);
  }

  lemma InitPer(s: Sys)
    requires IsInit(s)
    ensures PerInv(s)
  {
    forall i | 0 <= i < |s.src| ensures SourcePer(s, i) { }
    assert Received(s, 0) == 0;
    forall j | 1 <= j < |s.st| ensures StagePer(s, j) { }
    forall l | 0 <= l < |s.out| ensures OutPer(s, l) { }
  }

  /** In every reachable state of every interleaving. */
  lemma {:induction false} RunPer(run: seq<Sys>, acts: seq<Action>, k: nat)
    requires IsRun(run, acts) && k < |run|
    ensures PerInv(run[k])
  {
    if k == 0 {
      InitPer(run[0]);
    } else {
      RunPer(run, acts, k - 1);
      Lines.RunInv(run, acts, k - 1);
      PerStep(run[k - 1], acts[k - 1]);
    }
  }

  /** The number that thread `j` passes on in a step, if any. */
  function PassedIn(s: Sys, a: Action, j: nat): seq<nat>
    requires Enabled(s, a) && j < |s.st|
  {
    if (a == StTake(j) || (a == MgTake && j == |s.st| - 1)) && s.st[j].inbox[0].kind.Periodic?
       && Receive(Popped(s.st[j]), s.st[j].inbox[0].kind).1 == Pass
    then [s.st[j].inbox[0].kind.num] else []
  }

  ghost function Passed(run: seq<Sys>, acts: seq<Action>, j: nat, k: nat): seq<nat>
    requires IsRun(run, acts) && k <= |acts| && j < |run[0].st|
    ensures forall x | 0 <= x <= k :: |run[x].st| == |run[0].st|
  {
    if k == 0 then []
    else
      var before := Passed(run, acts, j, k - 1);
      StageCount(run[k - 1], acts[k - 1]);
      before + PassedIn(run[k - 1], acts[k - 1], j)
  }

  lemma StageCount(s: Sys, a: Action)
    requires Enabled(s, a)
    ensures |Step(s, a).st| == |s.st|
  {
  }

  /** Over every run, every shared thread passes on 0, 1, 2, ... exactly once each and in order. */
  lemma {:induction false} PassedInOrder(run: seq<Sys>, acts: seq<Action>, j: nat, k: nat)
    requires IsRun(run, acts) && k <= |acts| && j < |run[0].st|
    ensures |run[k].st| == |run[0].st| && Passed(run, acts, j, k) == Range(0, run[k].st[j].waiting)
  {
    assert |run[k].st| == |run[0].st| by { var p := Passed(run, acts, j, k); }
    if k > 0 {
      PassedInOrder(run, acts, j, k - 1);
      PassedStep(run[k - 1], acts[k - 1], j);
      hide Step, Enabled;
    }
  }

  lemma PassedStep(s: Sys, a: Action, j: nat)
    requires Enabled(s, a) && j < |s.st|
    ensures |Step(s, a).st| == |s.st|
    ensures Range(0, Step(s, a).st[j].waiting) == Range(0, s.st[j].waiting) + PassedIn(s, a, j)
  {
    StageCount(s, a);
    WaitingStep(s, a, j);
    hide Step, Enabled, PassedIn;
  }

  lemma WaitingStep(s: Sys, a: Action, j: nat)
    requires Enabled(s, a) && j < |s.st| == |Step(s, a).st|
    ensures PassedIn(s, a, j) == if Step(s, a).st[j].waiting == s.st[j].waiting then [] else [s.st[j].waiting]
    ensures s.st[j].waiting <= Step(s, a).st[j].waiting <= s.st[j].waiting + 1
  {
    if a == StTake(j) || (a == MgTake && j == |s.st| - 1) {
      hide Dests, ParserTake, InputTake, CfgHandle, OutTake, OutRelease, OutFree;
    } else {
      OtherWaiting(s, a, j);
      hide Step, Enabled;
    }
  }

  lemma OtherWaiting(s: Sys, a: Action, j: nat)
    requires Enabled(s, a) && j < |s.st| == |Step(s, a).st| && a != StTake(j) && !(a == MgTake && j == |s.st| - 1)
    ensures Step(s, a).st[j].waiting == s.st[j].waiting
  {
    hide Dests, ParserTake, InputTake, CfgHandle, Receive;
  }
}
