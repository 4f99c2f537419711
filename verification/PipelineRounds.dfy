/**
 * Periodic rounds beyond 2^32: the configurator counts them in 32 bits, threads in 64. A run that gets
 * there, and what every run comes to then.
 */
module PipelineRounds {
  import opened Bytes
  import opened Pipeline
  import Lines = PipelineLines
  import opened PipelinePeriodic

  // ---------------------------------------------------------------- a run to round 2^32

  /** Periodic messages that nobody has taken from the first shared ring. */
  function Backlog(n: nat): seq<Msg> {
    seq(n, k requires 0 <= k < n => Msg(0, k, Periodic(k)))
  }

  /** One input, no intermediate plugin and one output, after `n` rounds that its parser passed. */
  function AfterRounds(n: nat): Sys {
    Sys(
      [Source([], [], true, [], [], true, n, n, {})],
      [Stage(Backlog(n), [], true, 1, 0)],
      [Out([], Empty, true, All)],
      [], map[], {},
      Config([], Idle, Running, 0, n, false, false))
  }

  /** The next round has come to the ring of the parser. */
  function AtParser(n: nat): Sys {
    var s := AfterRounds(n);
    s.(src := [s.src[0].(ring := [Tick(n)])], cfg := s.cfg.(rounds := n + 1))
  }

  lemma Grow(run: seq<Sys>, acts: seq<Action>, a: Action)
    requires IsRun(run, acts) && Enabled(run[|acts|], a)
    ensures IsRun(run + [Step(run[|acts|], a)], acts + [a])
  {
    hide Step, Enabled, IsInit;
    var run', acts' := run + [Step(run[|acts|], a)], acts + [a];
    forall k | 0 <= k < |acts'| ensures Enabled(run'[k], acts'[k]) && run'[k + 1] == Step(run'[k], acts'[k]) {
      if k < |acts| {
        assert run'[k] == run[k] && run'[k + 1] == run[k + 1] && acts'[k] == acts[k];
      }
    }
  }

  /** Timer, configurator and input thread, one step after the other. */
  lemma ToParser(run: seq<Sys>, acts: seq<Action>, n: nat) returns (run': seq<Sys>, acts': seq<Action>)
    requires IsRun(run, acts) && run[|acts|] == AfterRounds(n)
    ensures IsRun(run', acts') && run'[|acts'|] == AtParser(n)
  {
    hide IsRun, Backlog;
    RunLength(run, acts);
    run', acts' := run, acts;
    ghost var s := AfterRounds(n);
    for i := 0 to 6
      invariant IsRun(run', acts') && |run'| == |acts'| + 1 && run'[|acts'|] == s && s == OnTheWay(n, i)
    {
      hide Step, Enabled, OnTheWay;
      RoundStep(n, i);
      Grow(run', acts', RoundAction(i));
      s := OnTheWay(n, i + 1);
      run', acts' := run' + [s], acts' + [RoundAction(i)];
      RunLength(run', acts');
    }
  }

  lemma RunLength(run: seq<Sys>, acts: seq<Action>)
    requires IsRun(run, acts)
    ensures |run| == |acts| + 1
  {
  }

  /** The states of a round before the parser takes it. */
  function OnTheWay(n: nat, i: nat): Sys {
    var s := AfterRounds(n);
    match i
    case 0 => s
    case 1 => s.(cfg := s.cfg.(pipe := [ReqTick]))
    case 2 => s.(cfg := s.cfg.(phase := SendTick(0)))
    case 3 => s.(cfg := s.cfg.(phase := SendTick(1)), src := [s.src[0].(feed := [Tick(n)])])
    case 4 => s.(cfg := s.cfg.(rounds := n + 1), src := [s.src[0].(feed := [Tick(n)])])
    case 5 => s.(cfg := s.cfg.(rounds := n + 1), src := [s.src[0].(hand := [Tick(n)])])
    case _ => AtParser(n)
  }

  function RoundAction(i: nat): Action {
    match i
    case 0 => Request(ReqTick)
    case 1 => CfgTake
    case 2 => CfgSend
    case 3 => CfgSend
    case 4 => InTake(0, 0)
    case _ => InPush(0)
  }

  lemma RoundStep(n: nat, i: nat)
    requires i < 6
    ensures Enabled(OnTheWay(n, i), RoundAction(i)) && Step(OnTheWay(n, i), RoundAction(i)) == OnTheWay(n, i + 1)
  {
    hide Backlog;
    var c := AfterRounds(n).src[0];
    assert [] + [Tick(n)] == [Tick(n)] && [Tick(n)][1..] == [];
    match i
    case 0 => assert [] + [ReqTick] == [ReqTick];
    case 1 => assert [ReqTick][1..] == [];
    case 2 => assert [c][0 := c.(feed := [Tick(n)])] == [c.(feed := [Tick(n)])];
    case 3 =>
    case 4 => assert [c.(feed := [Tick(n)])][0 := c.(hand := [Tick(n)])] == [c.(hand := [Tick(n)])];
    case _ => assert [c.(hand := [Tick(n)])][0 := c.(ring := [Tick(n)])] == [c.(ring := [Tick(n)])];
  }

  /** Every round below 2^32 is passed on. */
  lemma RoundPassed(n: nat)
    requires n < U32_SIZE
    ensures Enabled(AtParser(n), PaTake(0, []))
    ensures var s := Step(AtParser(n), PaTake(0, []));
            Enabled(s, PaPush(0)) && Step(s, PaPush(0)) == AfterRounds(n + 1)
  {
    var m := Msg(0, n, Periodic(n));
    var c, d := AtParser(n).src[0], AfterRounds(n + 1).src[0];
    var s := Step(AtParser(n), PaTake(0, []));
    ParsedRound(n);
    assert s.src == [d.(emit := [m])];
    assert Backlog(n) + [m] == Backlog(n + 1) && [m][1..] == [];
    hide Backlog;
    assert [d.(emit := [m])][0 := d] == [d];
    var st, st' := AfterRounds(n).st[0], AfterRounds(n + 1).st[0];
    assert [st][0 := st'] == [st'];
  }

  lemma ParsedRound(n: nat)
    requires n < U32_SIZE
    ensures ParserTake(AtParser(n).src[0], 0, []) == AfterRounds(n + 1).src[0].(emit := [Msg(0, n, Periodic(n))])
  {
    hide Backlog;
    var c := AtParser(n).src[0];
    assert ParserKinds(c, []) == [Periodic(n)];
    assert Numbered(0, n, [Periodic(n)]) == [Msg(0, n, Periodic(n))];
    assert (set k | 0 <= k < 1 && [Periodic(n)][k].Garbage? :: n + k) == {};
    assert [Tick(n)][1..] == [];
  }

  /** After any number of rounds up to 2^32, by induction on it. */
  lemma {:induction false} RoundsReached(n: nat) returns (run: seq<Sys>, acts: seq<Action>)
    requires n <= U32_SIZE
    ensures IsRun(run, acts) && run[|acts|] == AfterRounds(n)
  {
    if n == 0 {
      run, acts := [AfterRounds(0)], [];
    } else {
      run, acts := RoundsReached(n - 1);
      run, acts := ToParser(run, acts, n - 1);
      hide Step, Enabled, AtParser, AfterRounds;
      RoundPassed(n - 1);
      var s := Step(AtParser(n - 1), PaTake(0, []));
      Grow(run, acts, PaTake(0, []));
      run, acts := run + [s], acts + [PaTake(0, [])];
      Grow(run, acts, PaPush(0));
      run, acts := run + [AfterRounds(n)], acts + [PaPush(0)];
    }
  }

  /**
   * The input at which the merge fails: a run from the initial state in which round 2^32 is at the head
   * of the ring of a parser; the parser drops it.
   */
  lemma RoundDropped() returns (run: seq<Sys>, acts: seq<Action>)
    ensures IsRun(run, acts)
    ensures var s := run[|acts|];
            && Enabled(s, PaTake(0, [])) && s.src[0].ring[0] == Tick(U32_SIZE)
            && Step(s, PaTake(0, [])).src[0].emit == []
  {
    run, acts := RoundsReached(U32_SIZE);
    run, acts := ToParser(run, acts, U32_SIZE);
    hide Backlog, IsRun;
  }

  // ---------------------------------------------------------------- every run

  /** No parser counts beyond 2^32, and no shared thread beyond its parsers. */
  lemma CountersBounded(s: Sys, j: nat)
    requires PerInv(s) && j < |s.st|
    ensures s.st[j].waiting <= U32_SIZE
  {
    if j == 0 {
      hide UpTo, Coming, ToFirst, StagePer, OutPer;
      var i: nat :| i < |s.src| && Received(s, i) == s.st[0].waiting;
      assert SourcePer(s, i);
    } else {
      CountersBounded(s, j - 1);
      assert StagePer(s, j);
    }
  }

  /**
   * Over every run, what a shared thread passes on is 0, 1, 2, ..., and ends with round 2^32 - 1 at the
   * latest: no later round is passed by any of them, nor by a parser.
   */
  lemma NothingBeyond(run: seq<Sys>, acts: seq<Action>, j: nat, k: nat)
    requires IsRun(run, acts) && k <= |acts| && j < |run[0].st|
    ensures |run[k].st| == |run[0].st| && run[k].st[j].waiting <= U32_SIZE
    ensures Passed(run, acts, j, k) == Range(0, run[k].st[j].waiting)
    ensures forall r | r in Passed(run, acts, j, k) :: r < U32_SIZE
    ensures forall i | 0 <= i < |run[k].src| :: run[k].src[i].waiting <= U32_SIZE
  {
    PassedInOrder(run, acts, j, k);
    RunPer(run, acts, k);
    CountersBounded(run[k], j);
    forall i | 0 <= i < |run[k].src| ensures run[k].src[i].waiting <= U32_SIZE {
      assert SourcePer(run[k], i);
    }
    hide IsRun, Passed;
  }

  // ---------------------------------------------------------------- outputs

  /** The number that output `l` takes in a step, if any. */
  function TakenIn(s: Sys, a: Action, l: nat): seq<nat>
    requires Enabled(s, a) && l < |s.out|
  {
    if a == OuTake(l) && s.out[l].inbox[0].kind.Periodic? then [s.out[l].inbox[0].kind.num] else []
  }

  ghost function Taken(run: seq<Sys>, acts: seq<Action>, l: nat, k: nat): seq<nat>
    requires IsRun(run, acts) && k <= |acts| && l < |run[0].out|
    ensures forall x | 0 <= x <= k :: |run[x].out| == |run[0].out|
  {
    if k == 0 then []
    else
      var before := Taken(run, acts, l, k - 1);
      OutCount(run[k - 1], acts[k - 1]);
      before + TakenIn(run[k - 1], acts[k - 1], l)
  }

  lemma OutCount(s: Sys, a: Action)
    requires Enabled(s, a)
    ensures |Step(s, a).out| == |s.out|
  {
    hide Dests, Receive, CfgHandle, ParserTake, InputTake;
  }

  /** How many numbers an output has taken: all that the manager passed but those on the way. */
  function TakenCount(s: Sys, l: nat): int
    requires Shape(s) && l < |s.out|
  {
    s.st[|s.st| - 1].waiting - |ToOut(s, l)|
  }

  /** One step: an output takes the number it comes to, and no other step counts for it. */
  lemma TakenStep(s: Sys, a: Action, l: nat)
    requires PerInv(s) && Enabled(s, a) && l < |s.out|
    ensures var s' := Step(s, a);
            && Shape(s') && |s'.out| == |s.out|
            && TakenIn(s, a, l) == (if TakenCount(s', l) == TakenCount(s, l) then [] else [TakenCount(s, l)])
            && TakenCount(s, l) <= TakenCount(s', l) <= TakenCount(s, l) + 1
  {
    OutCount(s, a);
    if a == OuTake(l) {
      OutputsInOrder(s, l);
      if !s.out[l].inbox[0].kind.Periodic? {
        TakenByThis(s, l);
      }
    } else if a.MgTake? {
      assert OutPer(s, l);
      ManagerPasses(s, l);
    } else if a.MgPush? {
      PushedTicks(s, l);
    } else {
      OthersTakeNothing(s, a, l);
    }
  }

  lemma TakenByThis(s: Sys, l: nat)
    requires Enabled(s, OuTake(l)) && !s.out[l].inbox[0].kind.Periodic?
    ensures ToOut(Step(s, OuTake(l)), l) == ToOut(s, l)
  {
    TicksPop(s.out[l].inbox, 0);
    hide Ticks;
  }

  /** The manager counts a number when it pushes it to every output. */
  lemma ManagerPasses(s: Sys, l: nat)
    requires Enabled(s, MgTake) && l < |s.out|
    ensures Shape(Step(s, MgTake)) && |Step(s, MgTake).out| == |s.out| && TakenCount(Step(s, MgTake), l) == TakenCount(s, l)
  {
    hide Ticks, Dests;
    var m := s.st[|s.st| - 1].inbox[0];
    TicksOne(m);
    assert Lines.Pending([], l) == [];
    if m.kind.Periodic? {
      FannedTicks(s, m, l);
      Lines.DestsPending(s.out, m, 0, l);
    } else {
      OtherTicks(s, m, l);
    }
  }

  lemma OthersTakeNothing(s: Sys, a: Action, l: nat)
    requires Enabled(s, a) && l < |s.out| && a != OuTake(l) && !a.MgTake? && !a.MgPush?
    ensures Shape(Step(s, a)) && |Step(s, a).out| == |s.out| && TakenCount(Step(s, a), l) == TakenCount(s, l)
  {
    hide Ticks, Receive, CfgHandle, ParserTake, InputTake, Lines.Pending;
    if a.StTake? {
      var s' := StageTake(s, a.j);
      assert s'.st[|s.st| - 1] == s.st[|s.st| - 1] && s'.out == s.out && s'.pend == s.pend;
    }
  }

  /** Over every run, every output takes 0, 1, 2, ... exactly once each and in order. */
  lemma {:induction false} TakenInOrder(run: seq<Sys>, acts: seq<Action>, l: nat, k: nat)
    requires IsRun(run, acts) && k <= |acts| && l < |run[0].out|
    ensures Shape(run[k]) && |run[k].out| == |run[0].out| && TakenCount(run[k], l) >= 0
    ensures Taken(run, acts, l, k) == Range(0, TakenCount(run[k], l))
  {
    if k > 0 {
      TakenInOrder(run, acts, l, k - 1);
      RunPer(run, acts, k - 1);
      assert Enabled(run[k - 1], acts[k - 1]) && run[k] == Step(run[k - 1], acts[k - 1]);
      TakenStep(run[k - 1], acts[k - 1], l);
      hide Step, Enabled, TakenIn, PerInv, TakenCount;
      NextInRange(TakenCount(run[k - 1], l));
    }
  }

  lemma NextInRange(n: nat)
    ensures Range(0, n) + [n] == Range(0, n + 1) && Range(0, n) + [] == Range(0, n)
  {
  }
}
