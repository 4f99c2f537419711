/**
 * From the configurator through an input and its parser to the shared rings: nothing is lost, added or
 * overtaken, and a parser has ended only when it has handled everything.
 */
module PipelineInput {
  import opened Pipeline

  // ---------------------------------------------------------------- one step

  /** What is sent to the input thread in a step, by the configurator or as a request of the parser. */
  function FedIn(s: Sys, a: Action, i: nat): seq<Up>
    requires Enabled(s, a) && i < |s.src|
  {
    match a
    case CfgSend => (
      match s.cfg.phase
      case SendEnd(x, _) => if x == i then [End] else []
      case SendTick(x) => if x == i then [Tick(s.cfg.rounds)] else []
      case Idle => [])
    case CloseReq(x) => if x == i then [Close] else []
    case _ => []
  }

  function ReadIn(s: Sys, a: Action, i: nat): seq<Up>
    requires Enabled(s, a) && i < |s.src|
  {
    if a.InTake? && a.i == i then [s.src[i].feed[0]] else []
  }

  /** Messages the input thread has for its parser: data, and what it forwards behind them. */
  function ProducedIn(s: Sys, a: Action, i: nat): seq<Up>
    requires Enabled(s, a) && i < |s.src|
  {
    match a
    case InGet(x) => if x == i then [Raw] else []
    case InTake(x, raws) =>
      if x != i then [] else (
        match s.src[i].feed[0]
        case Tick(round) => [Tick(round)]
        case End => Raws(raws) + [End]
        case _ => Raws(raws))
    case _ => []
  }

  function ConsumedIn(s: Sys, a: Action, i: nat): seq<Up>
    requires Enabled(s, a) && i < |s.src|
  {
    if a.PaTake? && a.i == i then [s.src[i].ring[0]] else []
  }

  /** What the parser makes of a message: garbage and the terminate message at its end. */
  function MadeIn(s: Sys, a: Action, i: nat): seq<Kind>
    requires Enabled(s, a) && i < |s.src|
  {
    if !a.PaTake? || a.i != i then [] else (
      match s.src[i].ring[0]
      case Raw => a.kinds
      case Close => []
      case Tick(round) => if round % 0x1_0000_0000 == s.src[i].waiting then [Periodic(s.src[i].waiting)] else []
      case End => [Garbage, Term])
  }

  function PassedIn(s: Sys, a: Action, i: nat): seq<Msg>
    requires Enabled(s, a) && i < |s.src|
  {
    if a == PaPush(i) then [s.src[i].emit[0]] else []
  }

  /** Three queues of a source, and its two threads that may end, in one step. */
  predicate Moves(s: Sys, a: Action, i: nat)
    requires Enabled(s, a) && i < |s.src|
  {
    |Step(s, a).src| == |s.src| &&
    var c, d := s.src[i], Step(s, a).src[i];
    && ReadIn(s, a, i) + d.feed == c.feed + FedIn(s, a, i)
    && ConsumedIn(s, a, i) + (d.ring + d.hand) == c.ring + c.hand + ProducedIn(s, a, i)
    && PassedIn(s, a, i) + d.emit == c.emit + Numbered(i, c.uid, MadeIn(s, a, i))
    && d.uid == c.uid + |MadeIn(s, a, i)|
    && d.inAlive == (c.inAlive && End !in ProducedIn(s, a, i))
    && d.alive == (c.alive && End !in ConsumedIn(s, a, i))
    && (ProducedIn(s, a, i) != [] ==> c.inAlive) && (ConsumedIn(s, a, i) != [] ==> c.alive && |ConsumedIn(s, a, i)| == 1)
  }

  lemma SourceStep(s: Sys, a: Action, i: nat)
    requires Enabled(s, a) && i < |s.src|
    ensures Moves(s, a, i)
  {
    match a {
      case InGet(x) => InputStep(s, a, i);
      case InTake(x, raws) => InputStep(s, a, i);
      case InPush(x) =>
        var c := s.src[i];
        if x == i {
          assert c.hand == [c.hand[0]] + c.hand[1..];
          assert c.ring + [c.hand[0]] + c.hand[1..] == c.ring + c.hand;
        }
        Quiet(s, a, i);
      case PaTake(x, kinds) => ParserStep(s, x, kinds, i);
      case PaPush(x) =>
        var c := s.src[i];
        if x == i {
          assert c.emit == [c.emit[0]] + c.emit[1..];
        }
        Quiet(s, a, i);
      case _ => FeedStep(s, a, i);
    }
  }

  lemma Quiet(s: Sys, a: Action, i: nat)
    requires Enabled(s, a) && i < |s.src|
    ensures Numbered(i, s.src[i].uid, []) == []
    ensures forall q: seq<Up> :: q + [] == q && [] + q == q
    ensures forall q: seq<Msg> :: q + [] == q && [] + q == q
  {
  }

  lemma InputStep(s: Sys, a: Action, i: nat)
    requires Enabled(s, a) && i < |s.src| && (a.InGet? || a.InTake?)
    ensures Moves(s, a, i)
  {
    Quiet(s, a, i);
    var c := s.src[i];
    if a.i == i {
      assert c.hand == [];
      if a.InTake? {
        assert c.feed == [c.feed[0]] + c.feed[1..];
        assert (Raws(a.raws) + [End])[a.raws] == End;
      }
    }
  }

  lemma ParserStep(s: Sys, x: nat, kinds: seq<Kind>, i: nat)
    requires Enabled(s, PaTake(x, kinds)) && i < |s.src|
    ensures Moves(s, PaTake(x, kinds), i)
  {
    Quiet(s, PaTake(x, kinds), i);
    var c := s.src[i];
    if x == i {
      assert c.ring == [c.ring[0]] + c.ring[1..];
      assert [c.ring[0]] + (c.ring[1..] + c.hand) == c.ring + c.hand;
    }
  }

  lemma FeedStep(s: Sys, a: Action, i: nat)
    requires Enabled(s, a) && i < |s.src| && !a.InGet? && !a.InTake? && !a.InPush? && !a.PaTake? && !a.PaPush?
    ensures Moves(s, a, i)
  {
    if a.CfgSend? {
      SendStep(s, i);
    } else if a.CloseReq? {
      CloseStep(s, a.i, i);
    } else {
      Quiet(s, a, i);
      Elsewhere(s, a);
      hide Enabled, Step, Numbered;
    }
  }

  lemma SendStep(s: Sys, i: nat)
    requires Enabled(s, CfgSend) && i < |s.src|
    ensures Moves(s, CfgSend, i)
  {
    Quiet(s, CfgSend, i);
    hide Numbered;
  }

  lemma CloseStep(s: Sys, x: nat, i: nat)
    requires Enabled(s, CloseReq(x)) && i < |s.src|
    ensures Moves(s, CloseReq(x), i)
  {
    Quiet(s, CloseReq(x), i);
    hide Numbered;
  }

  lemma Elsewhere(s: Sys, a: Action)
    requires Enabled(s, a) && !a.InGet? && !a.InTake? && !a.InPush? && !a.PaTake? && !a.PaPush? && !a.CfgSend? && !a.CloseReq?
    ensures Step(s, a).src == s.src
  {
    hide Dests, Receive, CfgHandle, ParserTake, InputTake;
  }

  // ---------------------------------------------------------------- over runs

  /** All that went through the queues of a source. */
  datatype History = History(fed: seq<Up>, read: seq<Up>, produced: seq<Up>, consumed: seq<Up>, made: seq<Kind>, passed: seq<Msg>)

  ghost function Past(run: seq<Sys>, acts: seq<Action>, i: nat, k: nat): History
    requires IsRun(run, acts) && k <= |acts| && i < |run[0].src|
    ensures forall x | 0 <= x <= k :: |run[x].src| == |run[0].src|
  {
    if k == 0 then History([], [], [], [], [], [])
    else
      var h, s, a := Past(run, acts, i, k - 1), run[k - 1], acts[k - 1];
      SourceStep(s, a, i);
      History(h.fed + FedIn(s, a, i), h.read + ReadIn(s, a, i), h.produced + ProducedIn(s, a, i),
              h.consumed + ConsumedIn(s, a, i), h.made + MadeIn(s, a, i), h.passed + PassedIn(s, a, i))
  }

  ghost predicate Conserved(c: Source, i: nat, h: History) {
    && h.read + c.feed == h.fed
    && h.consumed + (c.ring + c.hand) == h.produced
    && h.passed + c.emit == Numbered(i, 0, h.made) && c.uid == |h.made|
  }

  /** A thread ends with the terminate message, and everything is in front of that. */
  predicate Ended(c: Source, h: History) {
    && (c.inAlive <==> End !in h.produced) && (c.alive <==> End !in h.consumed)
    && (End in h.produced ==> h.produced[|h.produced| - 1] == End && End !in h.produced[..|h.produced| - 1])
    && (End in h.consumed ==> |h.made| >= 2 && h.made[|h.made| - 2..] == [Garbage, Term])
  }

  lemma NumberedAppend(i: nat, a: seq<Kind>, b: seq<Kind>)
    ensures Numbered(i, 0, a + b) == Numbered(i, 0, a) + Numbered(i, |a|, b)
  {
  }

  lemma ConservedStep(s: Sys, a: Action, i: nat, h: History)
    requires Enabled(s, a) && i < |s.src| && Moves(s, a, i) && Conserved(s.src[i], i, h)
    ensures Conserved(Step(s, a).src[i], i,
                      History(h.fed + FedIn(s, a, i), h.read + ReadIn(s, a, i), h.produced + ProducedIn(s, a, i),
                              h.consumed + ConsumedIn(s, a, i), h.made + MadeIn(s, a, i), h.passed + PassedIn(s, a, i)))
  {
    var c, d := s.src[i], Step(s, a).src[i];
    NumberedAppend(i, h.made, MadeIn(s, a, i));
    hide Enabled, Step, FedIn, ReadIn, ProducedIn, ConsumedIn, MadeIn, PassedIn, Numbered;
    Shift(h.read, ReadIn(s, a, i), d.feed, c.feed, FedIn(s, a, i));
    Shift(h.consumed, ConsumedIn(s, a, i), d.ring + d.hand, c.ring + c.hand, ProducedIn(s, a, i));
    Shift(h.passed, PassedIn(s, a, i), d.emit, c.emit, Numbered(i, c.uid, MadeIn(s, a, i)));
  }

  lemma Shift<T>(h: seq<T>, x: seq<T>, q': seq<T>, q: seq<T>, y: seq<T>)
    requires x + q' == q + y
    ensures h + x + q' == h + q + y
  {
    assert h + x + q' == h + (x + q');
  }

  lemma EndedStep(s: Sys, a: Action, i: nat, h: History)
    requires Enabled(s, a) && i < |s.src| && Moves(s, a, i) && Ended(s.src[i], h)
    ensures Ended(Step(s, a).src[i],
                  History(h.fed + FedIn(s, a, i), h.read + ReadIn(s, a, i), h.produced + ProducedIn(s, a, i),
                          h.consumed + ConsumedIn(s, a, i), h.made + MadeIn(s, a, i), h.passed + PassedIn(s, a, i)))
  {
    var p, x, m := ProducedIn(s, a, i), ConsumedIn(s, a, i), MadeIn(s, a, i);
    LastMade(s, a, i);
    LastProduced(s, a, i);
    hide Enabled, Step, FedIn, ReadIn, ProducedIn, ConsumedIn, MadeIn, PassedIn, Numbered;
    if End in p {
      var n := |h.produced| + |p| - 1;
      assert (h.produced + p)[..n] == h.produced + p[..|p| - 1];
    } else {
      assert p == [] ==> h.produced + p == h.produced;
    }
    if End in x {
      assert (h.made + m)[|h.made|..] == m;
    } else {
      assert x == [] ==> h.made + m == h.made;
    }
  }

  lemma LastMade(s: Sys, a: Action, i: nat)
    requires Enabled(s, a) && i < |s.src|
    ensures ConsumedIn(s, a, i) == [] ==> MadeIn(s, a, i) == []
    ensures End in ConsumedIn(s, a, i) ==> MadeIn(s, a, i) == [Garbage, Term]
  {
  }

  lemma LastProduced(s: Sys, a: Action, i: nat)
    requires Enabled(s, a) && i < |s.src|
    ensures var p := ProducedIn(s, a, i); End in p ==> p[|p| - 1] == End && End !in p[..|p| - 1]
  {
  }

  /**
   * Over every run: what an input has read of what it was sent, what its parser has taken of what the input
   * produced, and what it has passed of what it made, are the first ones in order; the rest waits in the queues.
   */
  lemma {:induction false} InOrder(run: seq<Sys>, acts: seq<Action>, i: nat, k: nat)
    requires IsRun(run, acts) && k <= |acts| && i < |run[0].src|
    ensures |run[k].src| == |run[0].src|
    ensures var c, h := run[k].src[i], Past(run, acts, i, k);
            && h.read + c.feed == h.fed && h.consumed + (c.ring + c.hand) == h.produced
            && h.passed + c.emit == Numbered(i, 0, h.made) && c.uid == |h.made|
            && Ended(c, h)
  {
    if k == 0 {
      assert IsInit(run[0]);
    } else {
      InOrder(run, acts, i, k - 1);
      var s, a, h := run[k - 1], acts[k - 1], Past(run, acts, i, k - 1);
      assert Enabled(s, a) && run[k] == Step(s, a);
      SourceStep(s, a, i);
      hide Enabled, Step, IsRun, FedIn, ReadIn, ProducedIn, ConsumedIn, MadeIn, PassedIn, Numbered, Moves, Ended;
      ConservedStep(s, a, i, h);
      EndedStep(s, a, i, h);
    }
  }

  /**
   * So a parser that has ended has handled all that its input ever produced, nothing is left between the two,
   * and the last messages it made are garbage and the terminate message.
   */
  lemma EndedHandledAll(run: seq<Sys>, acts: seq<Action>, i: nat, k: nat)
    requires IsRun(run, acts) && k <= |acts| && i < |run[0].src|
    ensures |run[k].src| == |run[0].src|
    ensures var c, h := run[k].src[i], Past(run, acts, i, k);
            !c.alive ==>
              && !c.inAlive && c.ring == [] && c.hand == [] && h.consumed == h.produced
              && |h.made| >= 2 && h.made[|h.made| - 2..] == [Garbage, Term]
  {
    InOrder(run, acts, i, k);
    hide IsRun;
    var c, h := run[k].src[i], Past(run, acts, i, k);
    if !c.alive {
      var x :| 0 <= x < |h.consumed| && h.consumed[x] == End;
      assert h.produced[x] == End;
      assert End in h.produced;
      assert x == |h.produced| - 1;
      assert |c.ring + c.hand| == 0;
    }
  }
}
