/**
 * The imperative code behind steps of the pipeline: the head of the loop of an intermediate thread
 * (context.c), the output manager with its 64-bit destination mask (plugin_output_mgr.c) and the
 * request handler of the configurator (configurator.cpp).
 */
module PipelineCode {
  import opened Arith
  import opened Bytes
  import opened Pipeline

  // ---------------------------------------------------------------- an intermediate thread

  /** The part of a thread context that the loop changes; the counter of terminate messages is unsigned. */
  class StageCtx {
    var termMsgCnt: u32
    var waitingForSeq: u64
    var terminate: bool

    constructor (termCnt: u32)
      ensures termMsgCnt == termCnt && waitingForSeq == 0 && !terminate
    {
      termMsgCnt, waitingForSeq, terminate := termCnt, 0, false;
    }

    /** Whether a received message is dropped before it gets to the plugin. */
    method Take(kind: Kind, ghost st: Stage) returns (discard: bool)
      requires st.termCnt == termMsgCnt && st.waiting == waitingForSeq && st.alive && !terminate
      requires waitingForSeq + 1 < U64_SIZE
      modifies this
      ensures var r := Receive(st, kind);
              && discard == r.1.Discard?
              && termMsgCnt == r.0.termCnt && waitingForSeq == r.0.waiting && terminate == !r.0.alive
    {
      match kind {
        case Term =>
          termMsgCnt := (termMsgCnt - 1) % U32_SIZE;
          if termMsgCnt != 0 {
            return true;
          }
          terminate := true;
        case Periodic(num) =>
          if num != waitingForSeq {
            return true;
          }
          waitingForSeq := waitingForSeq + 1;
        case _ =>
      }
      return false;
    }
  }

  // ---------------------------------------------------------------- the reference counter

  /** The counter in the header of a message. */
  class MsgHeader {
    var refCnt: u32

    constructor (cnt: u32)
      ensures refCnt == cnt
    {
      refCnt := cnt;
    }

    /** True for the last reference: the release that the state machine answers with the message dying. */
    method CntDec(ghost s: Sys, ghost l: nat) returns (last: bool)
      requires l < |s.out| && s.out[l].hand.Held? && s.out[l].hand.msg in s.refs && s.refs[s.out[l].hand.msg] == refCnt > 0
      modifies this
      ensures OutRelease(s, l).refs[s.out[l].hand.msg] == refCnt
      ensures last <==> OutRelease(s, l).out[l].hand.Dying?
      ensures refCnt == old(refCnt) - 1 && (last <==> old(refCnt) == 1)
    {
      refCnt := (refCnt - 1) % U32_SIZE;
      last := refCnt == 0;
    }
  }

  // ---------------------------------------------------------------- the output manager

  /** The bits of the destination mask from position `k` on. */
  function MaskFrom(outs: seq<Out>, m: Msg, k: nat): nat
    requires k <= |outs|
    decreases |outs| - k
  {
    if k == |outs| then 0 else (if Wants(outs[k], m) then 1 else 0) + 2 * MaskFrom(outs, m, k + 1)
  }

  lemma {:induction false} MaskBound(outs: seq<Out>, m: Msg, k: nat)
    requires k <= |outs|
    ensures MaskFrom(outs, m, k) < Pow2(|outs| - k)
    decreases |outs| - k
  {
    if k < |outs| { MaskBound(outs, m, k + 1); }
  }

  lemma {:induction false} MaskEmpty(outs: seq<Out>, m: Msg, k: nat)
    requires k <= |outs|
    ensures MaskFrom(outs, m, k) == 0 <==> Dests(outs, m, k) == []
    decreases |outs| - k
  {
    if k < |outs| { MaskEmpty(outs, m, k + 1); }
  }

  lemma SumBit(i: nat, bit: nat, rest: nat)
    ensures Pow2(i) * bit + Pow2(i + 1) * rest == Pow2(i) * (bit + 2 * rest)
  {
  }

  /**
   * Collects the mask and the number of destinations, then walks the mask: every wanting output is
   * pushed to exactly once, and the reference counter was set to their number. Without a
   * destination the message is destroyed.
   */
  method OutputMgrProcess(outs: seq<Out>, m: Msg) returns (refCnt: nat, pushes: seq<To>, destroyed: bool)
    requires |outs| <= 64
    ensures pushes == Dests(outs, m, 0)
    ensures (destroyed <==> pushes == []) && (!destroyed ==> refCnt == |pushes|)
    ensures forall a, b | 0 <= a < b < |pushes| :: pushes[a].out < pushes[b].out
    ensures forall p | p in pushes :: p.out < |outs| && p.msg == m
    ensures forall l | 0 <= l < |outs| ::
              To(l, m) in pushes <==>
              match outs[l].filter
              case All => true
              case Only(odids) => m.kind.Ipfix? ==> m.kind.odid in odids
              case Except(odids) => m.kind.Ipfix? ==> m.kind.odid !in odids
  {
    DestsExactly(outs, m, 0);
    EmptyDests(outs, m);
    WantsLiteral(outs, m);
    hide Dests, Wants, MaskFrom;
    pushes, destroyed := [], false;
    if !m.kind.Ipfix? {
      refCnt := |outs|;
      for i := 0 to |outs|
        invariant pushes + Dests(outs, m, i) == Dests(outs, m, 0) && |pushes| == i
      {
        DestsNext(outs, m, i);
        Shift(pushes, To(i, m), Dests(outs, m, i + 1));
        pushes := pushes + [To(i, m)];
      }
      assert pushes + [] == pushes;
      destroyed := |outs| == 0;
      return;
    }
    var destMask, destCnt := FindDests(outs, m);
    MaskEmpty(outs, m, 0);
    if destCnt == 0 {
      return 0, [], true;
    }
    refCnt := destCnt;
    var destIdx := 0;
    while destMask != 0
      invariant destIdx <= |outs| && destMask == MaskFrom(outs, m, destIdx)
      invariant pushes + Dests(outs, m, destIdx) == Dests(outs, m, 0)
      decreases |outs| - destIdx
    {
      DestsNext(outs, m, destIdx);
      if destMask % 2 == 1 {
        Shift(pushes, To(destIdx, m), Dests(outs, m, destIdx + 1));
        pushes := pushes + [To(destIdx, m)];
      }
      destMask, destIdx := destMask / 2, destIdx + 1;
    }
    MaskEmpty(outs, m, destIdx);
    assert pushes + [] == pushes;
  }

  lemma Shift(q: seq<To>, x: To, rest: seq<To>)
    ensures q + ([x] + rest) == q + [x] + rest
  {
  }

  lemma EmptyDests(outs: seq<Out>, m: Msg)
    ensures Dests(outs, m, |outs|) == [] && MaskFrom(outs, m, |outs|) == 0
  {
  }

  lemma WantsLiteral(outs: seq<Out>, m: Msg)
    ensures forall l | 0 <= l < |outs| ::
              Wants(outs[l], m) <==>
              match outs[l].filter
              case All => true
              case Only(odids) => m.kind.Ipfix? ==> m.kind.odid in odids
              case Except(odids) => m.kind.Ipfix? ==> m.kind.odid !in odids
  {
  }

  /** The next output, and its bit. */
  lemma DestsNext(outs: seq<Out>, m: Msg, k: nat)
    requires k < |outs| || (k == |outs| && MaskFrom(outs, m, k) != 0)
    ensures k < |outs| && Dests(outs, m, k) == (if Wants(outs[k], m) then [To(k, m)] else []) + Dests(outs, m, k + 1)
    ensures (MaskFrom(outs, m, k) % 2 == 1 <==> Wants(outs[k], m)) && MaskFrom(outs, m, k) / 2 == MaskFrom(outs, m, k + 1)
    ensures !m.kind.Ipfix? ==> Wants(outs[k], m)
  {
  }

  /** Once for each output that wants the message, in their order. */
  lemma {:induction false} DestsExactly(outs: seq<Out>, m: Msg, k: nat)
    requires k <= |outs|
    ensures forall p | p in Dests(outs, m, k) :: k <= p.out < |outs| && p.msg == m
    ensures forall a, b | 0 <= a < b < |Dests(outs, m, k)| :: Dests(outs, m, k)[a].out < Dests(outs, m, k)[b].out
    ensures forall l | k <= l < |outs| :: To(l, m) in Dests(outs, m, k) <==> Wants(outs[l], m)
    decreases |outs| - k
  {
    if k < |outs| {
      hide Wants;
      DestsExactly(outs, m, k + 1);
      var rest := Dests(outs, m, k + 1);
      if Wants(outs[k], m) {
        var q := [To(k, m)] + rest;
        forall a, b | 0 <= a < b < |q| ensures q[a].out < q[b].out {
          assert q[b] in rest;
          assert a > 0 ==> q[a] == rest[a - 1] && q[b] == rest[b - 1];
        }
      }
      forall l | k < l < |outs| ensures To(l, m) in Dests(outs, m, k) <==> To(l, m) in rest {
      }
      assert To(k, m) !in rest;
    }
  }

  /** The first loop: filters decide, each output has its bit. The mask fits 64 bits. */
  method FindDests(outs: seq<Out>, m: Msg) returns (destMask: nat, destCnt: nat)
    requires |outs| <= 64 && m.kind.Ipfix?
    ensures destMask == MaskFrom(outs, m, 0) < U64_SIZE && destCnt == |Dests(outs, m, 0)|
    ensures forall l | 0 <= l < |outs| ::
              Bit(destMask, l) <==>
              match outs[l].filter
              case All => true
              case Only(odids) => m.kind.odid in odids
              case Except(odids) => m.kind.odid !in odids
  {
    destMask, destCnt := 0, 0;
    for i := 0 to |outs|
      invariant destMask + Pow2(i) * MaskFrom(outs, m, i) == MaskFrom(outs, m, 0)
      invariant destCnt + |Dests(outs, m, i)| == |Dests(outs, m, 0)|
    {
      SumBit(i, if Wants(outs[i], m) then 1 else 0, MaskFrom(outs, m, i + 1));
      match outs[i].filter {
        case All =>
        case Only(odids) => if m.kind.odid !in odids { continue; }
        case Except(odids) => if m.kind.odid in odids { continue; }
      }
      destMask, destCnt := destMask + Pow2(i), destCnt + 1;
    }
    MaskBound(outs, m, 0);
    Pow2Monotone(|outs|, 64);
    Pow64();
    forall l | 0 <= l < |outs| ensures Bit(MaskFrom(outs, m, 0), l) <==> Wants(outs[l], m) {
      MaskBit(outs, m, 0, l);
    }
  }

  /** The bit of a number at a position. */
  predicate Bit(x: nat, i: nat) {
    if i == 0 then x % 2 == 1 else Bit(x / 2, i - 1)
  }

  lemma {:induction false} MaskBit(outs: seq<Out>, m: Msg, k: nat, l: nat)
    requires k <= l < |outs|
    ensures Bit(MaskFrom(outs, m, k), l - k) <==> Wants(outs[l], m)
    decreases l - k
  {
    hide Wants;
    MaskNext(outs, m, k);
    hide MaskFrom;
    if k < l {
      MaskBit(outs, m, k + 1, l);
    }
  }

  lemma MaskNext(outs: seq<Out>, m: Msg, k: nat)
    requires k < |outs|
    ensures (MaskFrom(outs, m, k) % 2 == 1 <==> Wants(outs[k], m)) && MaskFrom(outs, m, k) / 2 == MaskFrom(outs, m, k + 1)
  {
    hide Wants;
  }

  // ---------------------------------------------------------------- the configurator

  /** The rest of a loop over the inputs, without other threads in between. */
  function Settle(s: Sys): Sys
    decreases if s.cfg.phase.Idle? then 0 else if s.cfg.phase.i < |s.src| then 1 + |s.src| - s.cfg.phase.i else 1
  {
    if s.cfg.phase.Idle? then s else Settle(CfgLoop(s))
  }

  /** Messages in a feedback pipe as they are sent: the number of a round has 32 bits. */
  datatype Wire = WRaw | WClose | WTick(seqNum: u32) | WEnd

  function ToWire(u: Up): Wire {
    match u
    case Raw => WRaw
    case Close => WClose
    case Tick(round) => WTick(round % U32_SIZE)
    case End => WEnd
  }

  function Sending(q: seq<Up>): seq<Wire> {
    seq(|q|, k requires 0 <= k < |q| => ToWire(q[k]))
  }

  function Feeds(s: Sys): seq<seq<Wire>> {
    seq(|s.src|, i requires 0 <= i < |s.src| => Sending(s.src[i].feed))
  }

  lemma SentMore(s: Sys, i: nat, u: Up)
    requires i < |s.src|
    ensures Feeds(Feed(s, i, u)) == Feeds(s)[i := Feeds(s)[i] + [ToWire(u)]]
  {
    assert Sending(s.src[i].feed + [u]) == Sending(s.src[i].feed) + [ToWire(u)];
  }

  /** Who asked to stop: an external source or a thread. */
  datatype Thread = InputOf(i: nat) | ParserOf(i: nat) | StageAt(j: nat) | OutputOf(l: nat)

  /** Whether threads may process data. */
  datatype Flags = Flags(inputs: seq<bool>, parsers: seq<bool>, stages: seq<bool>, outputs: seq<bool>) {
    predicate Has(t: Thread) {
      match t
      case InputOf(i) => i < |inputs|
      case ParserOf(i) => i < |parsers|
      case StageAt(j) => j < |stages|
      case OutputOf(l) => l < |outputs|
    }

    predicate On(t: Thread)
      requires Has(t)
    {
      match t
      case InputOf(i) => inputs[i]
      case ParserOf(i) => parsers[i]
      case StageAt(j) => stages[j]
      case OutputOf(l) => outputs[l]
    }

    /** Place in the pipeline: all inputs, all parsers, the stages one by one, all outputs. */
    function Rank(t: Thread): nat {
      match t
      case InputOf(_) => 0
      case ParserOf(_) => 1
      case StageAt(j) => 2 + j
      case OutputOf(_) => 2 + |stages|
    }

    predicate SameThreads(f: Flags) {
      |inputs| == |f.inputs| && |parsers| == |f.parsers| && |stages| == |f.stages| && |outputs| == |f.outputs|
    }

    /** Exactly the threads up to a rank are switched off. */
    ghost predicate OffUpTo(f: Flags, rank: int) {
      && SameThreads(f)
      && forall t | Has(t) :: On(t) <==> f.On(t) && Rank(t) > rank
    }
  }

  function Off(n: nat): seq<bool> {
    seq(n, _ => false)
  }

  lemma OffStages(f: Flags, g: Flags, j: nat)
    requires j < |f.stages| && g.SameThreads(f) && g.outputs == f.outputs && g.inputs == Off(|f.inputs|) && g.parsers == Off(|f.parsers|)
    requires forall k | 0 <= k < |f.stages| :: g.stages[k] == (f.stages[k] && k > j)
    ensures g.OffUpTo(f, 2 + j)
  {
    forall t | g.Has(t)
      ensures g.On(t) <==> f.On(t) && g.Rank(t) > 2 + j
    {
      match t {
        case StageAt(k) => assert g.stages[k] == (f.stages[k] && k > j);
        case _ =>
      }
    }
  }

  class Configurator {
    var status: Status
    var termSent: nat
    var rounds: u32
    var feeds: seq<seq<Wire>>
    var en: Flags
    ghost var sys: Sys

    /** The fields are those of the state machine, between two requests. */
    ghost predicate Valid()
      reads this
    {
      && sys.cfg.phase.Idle? && status == sys.cfg.status && termSent == sys.cfg.termSent
      && rounds == sys.cfg.rounds % U32_SIZE && feeds == Feeds(sys)
    }

    /** All threads stop processing data. */
    method StopAll()
      modifies this`en
      ensures en.SameThreads(old(en)) && forall t | en.Has(t) :: !en.On(t)
    {
      en := Flags(Off(|en.inputs|), Off(|en.parsers|), Off(|en.stages|), Off(|en.outputs|));
    }

    /** Threads up to the one that asked stop processing data, those behind it go on; an external request stops none. */
    method StopPartly(origin: Option<Thread>)
      requires origin.Some? ==> en.Has(origin.value)
      modifies this`en
      ensures en.OffUpTo(old(en), if origin == None then -1 else old(en).Rank(origin.value))
      ensures origin == None ==> en == old(en)
      ensures origin.Some? ==>
                && en.SameThreads(old(en)) && (forall i | 0 <= i < |en.inputs| :: !en.inputs[i])
                && (forall i | 0 <= i < |en.parsers| :: en.parsers[i] == (old(en).parsers[i] && origin.value.InputOf?))
                && (forall j | 0 <= j < |en.stages| ::
                      en.stages[j] == (old(en).stages[j] && (origin.value.InputOf? || origin.value.ParserOf?
                                                               || (origin.value.StageAt? && j > origin.value.j))))
                && (forall l | 0 <= l < |en.outputs| :: en.outputs[l] == (old(en).outputs[l] && !origin.value.OutputOf?))
    {
      if origin == None {
        return;
      }
      en := en.(inputs := Off(|en.inputs|));
      if origin.value.InputOf? {
        return;
      }
      en := en.(parsers := Off(|en.parsers|));
      if origin.value.ParserOf? {
        return;
      }
      ghost var stages := en.stages;
      for j := 0 to |en.stages|
        invariant en == old(en).(inputs := Off(|old(en).inputs|), parsers := Off(|old(en).parsers|), stages := en.stages)
        invariant |en.stages| == |stages| && (origin.value.StageAt? ==> j <= origin.value.j)
        invariant forall k | 0 <= k < |stages| :: en.stages[k] == (stages[k] && k >= j)
      {
        en := en.(stages := en.stages[j := false]);
        if origin.value == StageAt(j) {
          assert forall k | 0 <= k < |stages| :: en.stages[k] == (stages[k] && k > j);
          OffStages(old(en), en, j);
          return;
        }
      }
      en := en.(outputs := Off(|en.outputs|));
    }

    /**
     * One request from the configuration pipe. `abort` stands for the call of abort(). A request for a
     * fast stop switches all threads off, one for a slow stop those up to the origin; after a fast stop
     * nothing changes any more.
     */
    method TerminationHandle(req: Req, origin: Option<Thread>) returns (complete: bool, abort: bool)
      requires Valid() && !req.ReqTick? && sys.cfg.pipe != [] && sys.cfg.pipe[0] == req && !sys.cfg.done && !sys.cfg.aborted
      requires origin.Some? ==> en.Has(origin.value)
      modifies this
      ensures Valid() && sys == Settle(old(sys).(cfg := CfgHandle(old(sys).cfg)))
      ensures complete == sys.cfg.done && abort == sys.cfg.aborted
      ensures if req.ReqDone? || old(status) == StopFast then en == old(en)
              else en.OffUpTo(old(en), if req.ReqFast? then 2 + |old(en).stages|
                                       else if origin == None then -1 else old(en).Rank(origin.value))
    {
      complete, abort := false, false;
      ghost var s := sys.(cfg := CfgHandle(sys.cfg));
      sys := Settle(s);
      assert Feeds(s) == feeds;
      if req.ReqDone? {
        if status != StopSlow && status != StopFast {
          return;
        }
        if termSent == 0 {
          abort := true;
          return;
        }
        termSent := termSent - 1;
        if termSent != 0 {
          return;
        }
        complete := true;
        return;
      }
      var next := if req.ReqFast? then StopFast else StopSlow;
      if status == StopFast {
        return;
      }
      if status == Running {
        TerminationSendMsg(next, s);
      }
      if next == StopFast {
        StopAll();
      } else {
        StopPartly(origin);
      }
      status := next;
    }

    /** One terminate message to every input. */
    method TerminationSendMsg(next: Status, ghost s: Sys)
      requires s.cfg.phase == SendEnd(0, next) && Feeds(s) == feeds
      modifies this`feeds, this`termSent
      ensures feeds == Feeds(Settle(s)) && termSent == |s.src|
      ensures Settle(s).cfg == s.cfg.(phase := Idle, termSent := |s.src|, status := next)
    {
      hide Feeds;
      ghost var t := s;
      FeedsCount(s);
      for i := 0 to |feeds|
        invariant |feeds| == |s.src| == |t.src| && t.cfg == s.cfg.(phase := SendEnd(i, next))
        invariant feeds == Feeds(t) && Settle(s) == Settle(t)
      {
        SentMore(t, i, End);
        feeds := feeds[i := feeds[i] + [WEnd]];
        SameFeeds(Feed(t, i, End), CfgLoop(t));
        t := CfgLoop(t);
      }
      SameFeeds(t, CfgLoop(t));
      termSent := |feeds|;
    }

    /** One periodic message to every input; the counter of rounds overflows. */
    method PeriodicSendMsg()
      requires Valid() && !sys.cfg.done && !sys.cfg.aborted
      modifies this`feeds, this`rounds, this`sys
      ensures Valid() && sys == Settle(old(sys).(cfg := old(sys).cfg.(phase := SendTick(0))))
      ensures sys.cfg.rounds == old(sys.cfg.rounds) + 1
    {
      hide Feeds;
      ghost var s := sys.(cfg := sys.cfg.(phase := SendTick(0)));
      ghost var t := s;
      SameFeeds(sys, s);
      FeedsCount(s);
      for i := 0 to |feeds|
        invariant |feeds| == |s.src| == |t.src| && t.cfg == s.cfg.(phase := SendTick(i))
        invariant feeds == Feeds(t) && Settle(s) == Settle(t) && rounds == s.cfg.rounds % U32_SIZE
        invariant status == old(status) && termSent == old(termSent)
      {
        SentMore(t, i, Tick(t.cfg.rounds));
        feeds := feeds[i := feeds[i] + [WTick(rounds)]];
        SameFeeds(Feed(t, i, Tick(t.cfg.rounds)), CfgLoop(t));
        t := CfgLoop(t);
      }
      SameFeeds(t, CfgLoop(t));
      Add32(s.cfg.rounds, 1);
      sys := Settle(s);
      rounds := (rounds + 1) % U32_SIZE;
    }
  }

  lemma SameFeeds(s: Sys, t: Sys)
    requires t.src == s.src
    ensures Feeds(t) == Feeds(s)
  {
  }

  lemma FeedsCount(s: Sys)
    ensures |Feeds(s)| == |s.src|
  {
  }
}
