/**
 * The threads of the collector as one state machine, for any number of inputs, intermediate plugins and
 * outputs: the loops of context.c, the parser plugin (plugin_parser.c), the output manager
 * (plugin_output_mgr.c), the reference counter of messages (message_base.h) and the configurator
 * (configurator.cpp). Every ring buffer and pipe is a FIFO queue; every step is one atomic action of
 * one thread.
 */
module Pipeline {
  import opened Bytes

  datatype Kind = Ipfix(odid: u32) | Session | Garbage | Periodic(num: nat) | Term

  /** A message passed by the parser of input `src`, the `uid`-th one. */
  datatype Msg = Msg(src: nat, uid: nat, kind: Kind) {
    /** IPFIX and Transport Session messages, which may refer to what a garbage message destroys. */
    predicate IsData() {
      kind.Ipfix? || kind.Session?
    }
  }

  /** What travels from the configurator and the getter to a parser; `round` counts periodic rounds without overflow. */
  datatype Up = Raw | Close | Tick(round: nat) | End

  /** Input thread (feedback pipe, messages being passed) and its parser thread (ring, messages being passed). */
  datatype Source = Source(
    feed: seq<Up>, hand: seq<Up>, inAlive: bool,
    ring: seq<Up>, emit: seq<Msg>, alive: bool, waiting: nat,
    uid: nat, garbage: set<nat>)

  /** A thread of an intermediate plugin; the last one is the output manager. */
  datatype Stage = Stage(inbox: seq<Msg>, hand: seq<Msg>, alive: bool, termCnt: nat, waiting: nat)

  datatype Hand = Empty | Held(msg: Msg) | Dying(msg: Msg)
  datatype Filter = All | Only(odids: set<u32>) | Except(odids: set<u32>)
  datatype Out = Out(inbox: seq<Msg>, hand: Hand, alive: bool, filter: Filter)

  /** A push that the output manager still has to make. */
  datatype To = To(out: nat, msg: Msg)

  datatype Status = Running | StopSlow | StopFast
  datatype Req = ReqSlow | ReqFast | ReqTick | ReqDone
  datatype Phase = Idle | SendEnd(i: nat, next: Status) | SendTick(i: nat)
  datatype Config = Config(pipe: seq<Req>, phase: Phase, status: Status, termSent: nat, rounds: nat, done: bool, aborted: bool)

  /** `refs` are the reference counters of messages beyond the output manager; `freed` is history. */
  datatype Sys = Sys(
    src: seq<Source>, st: seq<Stage>, out: seq<Out>, pend: seq<To>,
    refs: map<Msg, nat>, freed: set<Msg>, cfg: Config)

  predicate IsInit(s: Sys) {
    && |s.src| >= 1 && |s.st| >= 1 && |s.out| >= 1
    && (forall i | 0 <= i < |s.src| :: s.src[i] == Source([], [], true, [], [], true, 0, 0, {}))
    && (forall j | 0 <= j < |s.st| :: s.st[j] == Stage([], [], true, if j == 0 then |s.src| else 1, 0))
    && (forall l | 0 <= l < |s.out| :: s.out[l] == Out([], Empty, true, s.out[l].filter))
    && s.pend == [] && s.refs == map[] && s.freed == {}
    && s.cfg == Config([], Idle, Running, 0, 0, false, false)
  }

  predicate Shape(s: Sys) {
    |s.src| >= 1 && |s.st| >= 1 && |s.out| >= 1
  }

  datatype Action =
    | Request(req: Req) | CfgTake | CfgSend
    | CloseReq(i: nat) | InGet(i: nat) | InTake(i: nat, raws: nat) | InPush(i: nat)
    | PaTake(i: nat, kinds: seq<Kind>) | PaPush(i: nat)
    | StTake(j: nat) | StDrop(j: nat) | StPush(j: nat)
    | MgTake | MgDrop | MgPush
    | OuTake(l: nat) | OuRelease(l: nat) | OuFree(l: nat)

  // ---------------------------------------------------------------- the common part of all intermediate threads

  datatype Verdict = Pass | Discard

  /** The head of the loop in thread_intermediate: terminate messages are counted, periodic ones merged. */
  function Receive(st: Stage, kind: Kind): (Stage, Verdict) {
    match kind
    case Term =>
      if st.termCnt == 1 then (st.(termCnt := 0, alive := false), Pass)
      else (st.(termCnt := if st.termCnt == 0 then 0xFFFF_FFFF else st.termCnt - 1), Discard)
    case Periodic(num) =>
      if num != st.waiting then (st, Discard) else (st.(waiting := st.waiting + 1), Pass)
    case _ => (st, Pass)
  }

  // ---------------------------------------------------------------- the configurator

  function CfgHandle(c: Config): Config
    requires c.pipe != []
  {
    var d := c.(pipe := c.pipe[1..]);
    match c.pipe[0]
    case ReqDone =>
      if c.status == Running then d
      else if c.termSent == 0 then d.(aborted := true)
      else d.(termSent := c.termSent - 1, done := c.termSent == 1)
    case ReqTick => d.(phase := SendTick(0))
    case ReqSlow => if c.status == Running then d.(phase := SendEnd(0, StopSlow)) else d
    case ReqFast => if c.status == Running then d.(phase := SendEnd(0, StopFast)) else d.(status := StopFast)
  }

  /** One round of a loop over the inputs, or its end. */
  function CfgLoop(s: Sys): Sys
    requires !s.cfg.phase.Idle?
  {
    match s.cfg.phase
    case SendEnd(i, next) =>
      if i < |s.src| then Feed(s, i, End).(cfg := s.cfg.(phase := SendEnd(i + 1, next)))
      else s.(cfg := s.cfg.(phase := Idle, termSent := |s.src|, status := next))
    case SendTick(i) =>
      if i < |s.src| then Feed(s, i, Tick(s.cfg.rounds)).(cfg := s.cfg.(phase := SendTick(i + 1)))
      else s.(cfg := s.cfg.(phase := Idle, rounds := s.cfg.rounds + 1))
    case Idle => s
  }

  function Feed(s: Sys, i: nat, u: Up): Sys
    requires i < |s.src|
  {
    s.(src := s.src[i := s.src[i].(feed := s.src[i].feed + [u])])
  }

  function Notify(s: Sys): Sys {
    s.(cfg := s.cfg.(pipe := s.cfg.pipe + [ReqDone]))
  }

  // ---------------------------------------------------------------- inputs and parsers

  function Raws(k: nat): seq<Up> {
    seq(k, _ => Raw)
  }

  /** The input thread reads its feedback pipe; callbacks of the plugin may pass messages of their own. */
  function InputTake(c: Source, raws: nat): Source
    requires c.feed != []
  {
    var d := c.(feed := c.feed[1..]);
    match c.feed[0]
    case Tick(_) => d.(hand := [c.feed[0]])
    case End => d.(hand := Raws(raws) + [End], inAlive := false)
    case _ => d.(hand := Raws(raws))
  }

  /** Messages that a parser may pass for one message of its input: the garbage comes last. */
  predicate Emission(kinds: seq<Kind>) {
    || kinds == []
    || (|kinds| == 1 && (kinds[0].Ipfix? || kinds[0].Session? || kinds[0].Garbage?))
    || (|kinds| == 2 && (kinds[0].Ipfix? || kinds[0].Session?) && kinds[1].Garbage?)
  }

  /** The parser thread is an intermediate thread that waits for one terminate message. */
  function ParserKinds(c: Source, kinds: seq<Kind>): seq<Kind>
    requires c.ring != []
  {
    match c.ring[0]
    case Raw => kinds
    case Close => []
    case Tick(round) => if round % U32_SIZE == c.waiting then [Periodic(c.waiting)] else []
    case End => [Garbage, Term]
  }

  function Numbered(i: nat, uid: nat, kinds: seq<Kind>): seq<Msg> {
    seq(|kinds|, k requires 0 <= k < |kinds| => Msg(i, uid + k, kinds[k]))
  }

  function ParserTake(c: Source, i: nat, kinds: seq<Kind>): Source
    requires c.ring != []
  {
    var out := ParserKinds(c, kinds);
    c.(ring := c.ring[1..], emit := Numbered(i, c.uid, out), uid := c.uid + |out|,
       alive := c.alive && c.ring[0] != End,
       waiting := if c.ring[0].Tick? && out != [] then c.waiting + 1 else c.waiting,
       garbage := c.garbage + set k | 0 <= k < |out| && out[k].Garbage? :: c.uid + k)
  }

  // ---------------------------------------------------------------- intermediate plugins, output manager, outputs

  predicate Admits(f: Filter, odid: u32) {
    match f
    case All => true
    case Only(odids) => odid in odids
    case Except(odids) => odid !in odids
  }

  predicate Wants(o: Out, m: Msg) {
    m.kind.Ipfix? ==> Admits(o.filter, m.kind.odid)
  }

  /** Pushes to the wanting outputs from the `k`-th on, in their order. */
  function Dests(outs: seq<Out>, m: Msg, k: nat): seq<To>
    requires k <= |outs|
    decreases |outs| - k
  {
    if k == |outs| then []
    else if Wants(outs[k], m) then [To(k, m)] + Dests(outs, m, k + 1)
    else Dests(outs, m, k + 1)
  }

  function Head(st: Stage): Msg
    requires st.inbox != []
  {
    st.inbox[0]
  }

  function Popped(st: Stage): Stage
    requires st.inbox != []
  {
    st.(inbox := st.inbox[1..])
  }

  /** A message is removed from a ring and dropped or kept in hand. */
  function StageTake(s: Sys, j: nat): Sys
    requires j < |s.st| && s.st[j].inbox != []
  {
    var m := Head(s.st[j]);
    var r := Receive(Popped(s.st[j]), m.kind);
    match r.1
    case Pass => s.(st := s.st[j := r.0.(hand := [m])])
    case Discard => Dropped(s.(st := s.st[j := r.0]), m)
  }

  function Dropped(s: Sys, m: Msg): Sys {
    var t := s.(freed := s.freed + {m});
    if m.kind.Term? then Notify(t) else t
  }

  /** The output manager sets the counter before the first push. */
  function ManagerTake(s: Sys): Sys
    requires Shape(s) && s.st[|s.st| - 1].inbox != []
  {
    var j := |s.st| - 1;
    var m := Head(s.st[j]);
    var r := Receive(Popped(s.st[j]), m.kind);
    var t := s.(st := s.st[j := r.0]);
    match r.1
    case Discard => Dropped(t, m)
    case Pass =>
      var to := Dests(s.out, m, 0);
      if to == [] then t.(freed := t.freed + {m})
      else t.(pend := to, refs := t.refs[m := |to|])
  }

  function ManagerPush(s: Sys): Sys
    requires s.pend != [] && s.pend[0].out < |s.out|
  {
    var l := s.pend[0].out;
    s.(pend := s.pend[1..], out := s.out[l := s.out[l].(inbox := s.out[l].inbox + [s.pend[0].msg])])
  }

  function OutTake(s: Sys, l: nat): Sys
    requires l < |s.out| && s.out[l].inbox != []
  {
    var o := s.out[l];
    s.(out := s.out[l := o.(inbox := o.inbox[1..], hand := Held(o.inbox[0]), alive := !o.inbox[0].kind.Term?)])
  }

  /** The counter is decremented atomically; who makes it zero destroys the message. */
  function OutRelease(s: Sys, l: nat): Sys
    requires l < |s.out| && s.out[l].hand.Held?
  {
    var m := s.out[l].hand.msg;
    var cnt := if m in s.refs && s.refs[m] > 0 then s.refs[m] - 1 else 0xFFFF_FFFF;
    s.(refs := s.refs[m := cnt], out := s.out[l := s.out[l].(hand := if cnt == 0 then Dying(m) else Empty)])
  }

  function OutFree(s: Sys, l: nat): Sys
    requires l < |s.out| && s.out[l].hand.Dying?
  {
    var m := s.out[l].hand.msg;
    Dropped(s.(refs := s.refs - {m}, out := s.out[l := s.out[l].(hand := Empty)]), m)
  }

  // ---------------------------------------------------------------- steps

  predicate Enabled(s: Sys, a: Action) {
    && Shape(s)
    && match a
       case Request(req) => req != ReqDone
       case CfgTake => s.cfg.pipe != [] && s.cfg.phase.Idle? && !s.cfg.done && !s.cfg.aborted
       case CfgSend => !s.cfg.phase.Idle?
       case CloseReq(i) => i < |s.src|
       case InGet(i) => i < |s.src| && s.src[i].inAlive && s.src[i].hand == []
       case InTake(i, _) => i < |s.src| && s.src[i].inAlive && s.src[i].hand == [] && s.src[i].feed != []
       case InPush(i) => i < |s.src| && s.src[i].hand != []
       case PaTake(i, kinds) => i < |s.src| && s.src[i].alive && s.src[i].emit == [] && s.src[i].ring != [] && Emission(kinds)
       case PaPush(i) => i < |s.src| && s.src[i].emit != []
       case StTake(j) => j < |s.st| - 1 && s.st[j].alive && s.st[j].hand == [] && s.st[j].inbox != []
       case StDrop(j) => j < |s.st| - 1 && s.st[j].hand != [] && s.st[j].hand[0].IsData()
       case StPush(j) => j < |s.st| - 1 && s.st[j].hand != []
       case MgTake => s.st[|s.st| - 1].alive && s.pend == [] && s.st[|s.st| - 1].inbox != []
       case MgDrop =>
         var mgr := s.st[|s.st| - 1];
         mgr.alive && s.pend == [] && mgr.inbox != [] && mgr.inbox[0].IsData()
       case MgPush => s.pend != [] && s.pend[0].out < |s.out|
       case OuTake(l) => l < |s.out| && s.out[l].alive && s.out[l].hand.Empty? && s.out[l].inbox != []
       case OuRelease(l) => l < |s.out| && s.out[l].hand.Held?
       case OuFree(l) => l < |s.out| && s.out[l].hand.Dying?
  }

  function Step(s: Sys, a: Action): Sys
    requires Enabled(s, a)
  {
    match a
    case Request(req) => s.(cfg := s.cfg.(pipe := s.cfg.pipe + [req]))
    case CfgTake => s.(cfg := CfgHandle(s.cfg))
    case CfgSend => CfgLoop(s)
    case CloseReq(i) => Feed(s, i, Close)
    case InGet(i) => s.(src := s.src[i := s.src[i].(hand := [Raw])])
    case InTake(i, raws) => s.(src := s.src[i := InputTake(s.src[i], raws)])
    case InPush(i) => var c := s.src[i]; s.(src := s.src[i := c.(hand := c.hand[1..], ring := c.ring + [c.hand[0]])])
    case PaTake(i, kinds) => s.(src := s.src[i := ParserTake(s.src[i], i, kinds)])
    case PaPush(i) =>
      var c := s.src[i];
      s.(src := s.src[i := c.(emit := c.emit[1..])], st := s.st[0 := s.st[0].(inbox := s.st[0].inbox + [c.emit[0]])])
    case StTake(j) => StageTake(s, j)
    case StDrop(j) =>
      s.(st := s.st[j := s.st[j].(hand := s.st[j].hand[1..])], freed := s.freed + {s.st[j].hand[0]})
    case StPush(j) =>
      var m := s.st[j].hand[0];
      s.(st := s.st[j := s.st[j].(hand := s.st[j].hand[1..])][j + 1 := s.st[j + 1].(inbox := s.st[j + 1].inbox + [m])])
    case MgTake => ManagerTake(s)
    case MgDrop =>
      var j := |s.st| - 1;
      s.(st := s.st[j := Popped(s.st[j])], freed := s.freed + {Head(s.st[j])})
    case MgPush => ManagerPush(s)
    case OuTake(l) => OutTake(s, l)
    case OuRelease(l) => OutRelease(s, l)
    case OuFree(l) => OutFree(s, l)
  }

  /** All states of all runs. */
  ghost predicate IsRun(run: seq<Sys>, acts: seq<Action>) {
    && |run| == |acts| + 1 && IsInit(run[0])
    && forall k | 0 <= k < |acts| :: Enabled(run[k], acts[k]) && run[k + 1] == Step(run[k], acts[k])
  }
}
