/**
 * What requests to stop lead to: one terminate message for every input, however many requests there are, the
 * status of the configurator, and a pipeline that can always go on until it has ended.
 */
module PipelineStop {
  import opened Pipeline
  import opened PipelineTerm
  import Lines = PipelineLines

  // ---------------------------------------------------------------- history

  /** The request that the configurator handles in a step. */
  function RequestIn(s: Sys, a: Action): seq<Req>
    requires Enabled(s, a)
  {
    if a.CfgTake? then [s.cfg.pipe[0]] else []
  }

  ghost function Requests(run: seq<Sys>, acts: seq<Action>, k: nat): seq<Req>
    requires IsRun(run, acts) && k <= |acts|
  {
    if k == 0 then [] else Requests(run, acts, k - 1) + RequestIn(run[k - 1], acts[k - 1])
  }

  /** Whether a step puts a terminate message into the feedback pipe of an input. */
  function EndIn(s: Sys, s': Sys, i: nat): nat
    requires i < |s.src| == |s'.src|
  {
    if s'.src[i].feed == s.src[i].feed + [End] then 1 else 0
  }

  ghost function EndsSent(run: seq<Sys>, acts: seq<Action>, i: nat, k: nat): nat
    requires IsRun(run, acts) && k <= |acts| && i < |run[0].src|
    ensures forall x | 0 <= x <= k :: |run[x].src| == |run[0].src|
  {
    if k == 0 then 0
    else
      var before := EndsSent(run, acts, i, k - 1);
      SourceCount(run[k - 1], acts[k - 1]);
      before + EndIn(run[k - 1], run[k], i)
  }

  lemma SourceCount(s: Sys, a: Action)
    requires Enabled(s, a)
    ensures |Step(s, a).src| == |s.src|
  {
    hide Dests, Receive, CfgHandle, ParserTake, InputTake;
  }

  predicate Stopped(h: seq<Req>) {
    ReqSlow in h || ReqFast in h
  }

  // ---------------------------------------------------------------- the configurator after these requests

  /** State of the configurator after some requests, of which the last stop may still be under way. */
  ghost predicate After(h: seq<Req>, c: Config, n: nat) {
    && (Stopped(h) <==> c.status != Running || c.phase.SendEnd?)
    && (c.phase.SendEnd? ==> c.status == Running && c.phase.i <= n && c.phase.next == if ReqFast in h then StopFast else StopSlow)
    && (c.status != Running ==> c.status == (if ReqFast in h then StopFast else StopSlow) && c.termSent == n - Dones(h))
    && (c.status == Running ==> Dones(h) == 0 && c.termSent == 0)
    && !c.aborted && (c.done <==> c.status != Running && c.termSent == 0)
  }

  lemma HistorySnoc(h: seq<Req>, r: Req)
    ensures Dones(h + [r]) == Dones(h) + if r.ReqDone? then 1 else 0
    ensures forall x :: x in h + [r] <==> x in h || x == r
  {
    DonesAppend(h, r);
  }

  lemma TakeAfter(s: Sys, h: seq<Req>)
    requires TermInv(s) && Enabled(s, CfgTake) && After(h, s.cfg, |s.src|)
    ensures After(h + [s.cfg.pipe[0]], Step(s, CfgTake).cfg, |s.src|)
  {
    HistorySnoc(h, s.cfg.pipe[0]);
    if s.cfg.status == Running {
      NothingDestroyed(s);
    }
    assert Dones(s.cfg.pipe) == Dones(s.cfg.pipe[1..]) + if s.cfg.pipe[0].ReqDone? then 1 else 0;
    ConfigTakeKeeps(s);
    hide Dones, Destroyed, SourceInv, StageInv, OutInv, FirstInv;
  }

  lemma ConfigStepAfter(s: Sys, a: Action, h: seq<Req>)
    requires TermInv(s) && Enabled(s, a) && After(h, s.cfg, |s.src|)
    ensures After(h + RequestIn(s, a), Step(s, a).cfg, |s.src|)
  {
    if a.CfgTake? {
      TakeAfter(s, h);
    } else {
      assert h + [] == h;
      hide Dests, Receive, CfgHandle, ParserTake, InputTake, TermInv, Dones;
    }
  }

  /** How many terminate messages an input has been sent: one, once its turn has come. */
  function Sending(c: Config, i: nat): nat {
    if c.phase.SendEnd? then (if i < c.phase.i then 1 else 0) else if c.status == Running then 0 else 1
  }

  lemma EndStep(s: Sys, a: Action, h: seq<Req>, i: nat)
    requires Enabled(s, a) && After(h, s.cfg, |s.src|) && i < |s.src|
    ensures |Step(s, a).src| == |s.src|
    ensures Sending(Step(s, a).cfg, i) == Sending(s.cfg, i) + EndIn(s, Step(s, a), i)
  {
    SourceCount(s, a);
    var f := s.src[i].feed;
    assert |f + [End]| == |f| + 1 && (f + [End])[|f|] == End;
    match a {
      case CfgTake => TakeFeeds(s);
      case CfgSend => SendFeeds(s, i);
      case CloseReq(k) => assert (f + [Close])[|f|] == Close;
      case _ => OtherFeeds(s, a, i);
    }
  }

  lemma TakeFeeds(s: Sys)
    requires Enabled(s, CfgTake)
    ensures Step(s, CfgTake).src == s.src
    ensures forall i :: Sending(Step(s, CfgTake).cfg, i) == Sending(s.cfg, i)
  {
  }

  lemma SendFeeds(s: Sys, i: nat)
    requires Enabled(s, CfgSend) && i < |s.src|
    requires s.cfg.phase.SendEnd? ==> s.cfg.phase.i <= |s.src| && s.cfg.status == Running && s.cfg.phase.next != Running
    ensures |Step(s, CfgSend).src| == |s.src| && Sending(Step(s, CfgSend).cfg, i) == Sending(s.cfg, i) + EndIn(s, Step(s, CfgSend), i)
  {
    var f := s.src[i].feed;
    assert (f + [End])[|f|] == End && (f + [Tick(s.cfg.rounds)])[|f|] == Tick(s.cfg.rounds);
  }

  lemma OtherFeeds(s: Sys, a: Action, i: nat)
    requires Enabled(s, a) && i < |s.src| && !a.CfgTake? && !a.CfgSend? && !a.CloseReq?
    ensures |Step(s, a).src| == |s.src| && |Step(s, a).src[i].feed| <= |s.src[i].feed|
    ensures Step(s, a).cfg.phase == s.cfg.phase && Step(s, a).cfg.status == s.cfg.status
  {
    hide Dests, Receive, ParserKinds;
  }

  // ---------------------------------------------------------------- over runs

  /** Over every run: the state of the configurator, and the terminate messages that each input was sent. */
  lemma {:induction false} RunAfter(run: seq<Sys>, acts: seq<Action>, i: nat, k: nat)
    requires IsRun(run, acts) && k <= |acts| && i < |run[0].src|
    ensures |run[k].src| == |run[0].src| && After(Requests(run, acts, k), run[k].cfg, |run[0].src|)
    ensures EndsSent(run, acts, i, k) == Sending(run[k].cfg, i)
  {
    if k > 0 {
      RunAfter(run, acts, i, k - 1);
      RunTerm(run, acts, k - 1);
      var s, a := run[k - 1], acts[k - 1];
      assert Enabled(s, a) && run[k] == Step(s, a);
      hide IsRun, Enabled, Step, After, TermInv, Lines.Inv, Sending, EndIn, RequestIn;
      ConfigStepAfter(s, a, Requests(run, acts, k - 1));
      EndStep(s, a, Requests(run, acts, k - 1), i);
    }
  }

  /**
   * Over every run, between the loops of the configurator: it is running exactly until the first request to
   * stop, slow or fast; then every input has been sent exactly one terminate message, and none before. It
   * stops fast exactly if some request asked for it, and is done exactly when all inputs are accounted for.
   */
  lemma StopFollows(run: seq<Sys>, acts: seq<Action>, i: nat, k: nat)
    requires IsRun(run, acts) && k <= |acts| && i < |run[0].src| && run[k].cfg.phase.Idle?
    ensures var h, c := Requests(run, acts, k), run[k].cfg;
            && c.status == (if ReqFast in h then StopFast else if ReqSlow in h then StopSlow else Running)
            && EndsSent(run, acts, i, k) == (if ReqFast in h || ReqSlow in h then 1 else 0)
            && (c.done <==> c.status != Running && Dones(h) == |run[0].src|)
  {
    RunAfter(run, acts, i, k);
    hide IsRun, Dones;
  }

  /** The request that gets into the pipe of the configurator in a step; a notification is one. */
  function SentIn(s: Sys, a: Action): seq<Req>
    requires Enabled(s, a)
  {
    if a.Request? then [a.req] else if |Step(s, a).cfg.pipe| > |s.cfg.pipe| then [ReqDone] else []
  }

  ghost function Sent(run: seq<Sys>, acts: seq<Action>, k: nat): seq<Req>
    requires IsRun(run, acts) && k <= |acts|
  {
    if k == 0 then [] else Sent(run, acts, k - 1) + SentIn(run[k - 1], acts[k - 1])
  }

  lemma PipeStep(s: Sys, a: Action)
    requires Enabled(s, a)
    ensures RequestIn(s, a) + Step(s, a).cfg.pipe == s.cfg.pipe + SentIn(s, a)
  {
    var x, y, p, p' := RequestIn(s, a), SentIn(s, a), s.cfg.pipe, Step(s, a).cfg.pipe;
    InOutPipe(s, a);
    hide *;
    assert x + p' == p + y;
  }

  lemma InOutPipe(s: Sys, a: Action)
    requires Enabled(s, a)
    ensures var x, y, p, p' := RequestIn(s, a), SentIn(s, a), s.cfg.pipe, Step(s, a).cfg.pipe;
            || (y == [] && p == x + p')
            || (x == [] && p' == p + y)
  {
    if a.CfgTake? {
      var p := s.cfg.pipe;
      assert p == [p[0]] + p[1..];
    } else if a.Request? {
      assert RequestIn(s, a) == [] && SentIn(s, a) == [a.req];
      assert Step(s, a).cfg.pipe == s.cfg.pipe + [a.req];
    } else {
      PipeGrows(s, a);
      var p, p' := s.cfg.pipe, Step(s, a).cfg.pipe;
      assert RequestIn(s, a) == [] && SentIn(s, a) == if |p'| > |p| then [ReqDone] else [];
      hide *;
      assert |p + [ReqDone]| == |p| + 1 && p + [] == p;
    }
  }

  lemma PipeGrows(s: Sys, a: Action)
    requires Enabled(s, a) && !a.CfgTake? && !a.Request?
    ensures var p, p' := s.cfg.pipe, Step(s, a).cfg.pipe; p' == p || p' == p + [ReqDone]
  {
    hide Dests, Receive, CfgHandle, ParserTake, InputTake;
  }

  /** Over every run: requests are handled in the order in which they were sent, and none is lost. */
  lemma {:induction false} RequestsInOrder(run: seq<Sys>, acts: seq<Action>, k: nat)
    requires IsRun(run, acts) && k <= |acts|
    ensures Requests(run, acts, k) + run[k].cfg.pipe == Sent(run, acts, k)
  {
    if k == 0 {
      assert IsInit(run[0]);
    } else {
      RequestsInOrder(run, acts, k - 1);
      var s, a, h := run[k - 1], acts[k - 1], Requests(run, acts, k - 1);
      assert Enabled(s, a) && run[k] == Step(s, a);
      PipeStep(s, a);
      hide Enabled, Step, IsRun, RequestIn, SentIn;
      Behind(h, RequestIn(s, a), run[k].cfg.pipe, s.cfg.pipe, SentIn(s, a));
    }
  }

  lemma Behind(h: seq<Req>, x: seq<Req>, q': seq<Req>, q: seq<Req>, y: seq<Req>)
    requires x + q' == q + y
    ensures h + x + q' == h + q + y
  {
    assert h + x + q' == h + (x + q');
  }

  // ---------------------------------------------------------------- the pipeline never gets stuck

  /** Steps that threads take on their own: no new request, no new data from outside. */
  predicate Own(a: Action) {
    !a.Request? && !a.CloseReq? && !a.InGet?
  }

  /** An input or a parser can go on while it has not ended. */
  lemma SourceGoesOn(s: Sys, i: nat) returns (a: Action)
    requires TermInv(s) && i < |s.src| && s.cfg.status != Running && s.cfg.phase.Idle?
    requires s.src[i].inAlive || s.src[i].alive || s.src[i].hand != [] || s.src[i].emit != []
    ensures Own(a) && Enabled(s, a)
  {
    var c := s.src[i];
    assert SourceInv(s, i);
    if c.hand != [] {
      a := InPush(i);
    } else if c.inAlive {
      assert c.feed != [];
      a := InTake(i, 0);
    } else if c.emit != [] {
      a := PaPush(i);
    } else {
      assert Ends(c.hand) == 0 && Ends(c.feed) == 0;
      assert c.ring != [];
      a := PaTake(i, []);
    }
  }

  /** The output manager, if something is waiting for it. */
  lemma ManagerGoesOn(s: Sys) returns (a: Action)
    requires Lines.Inv(s) && (s.pend != [] || (MgrAlive(s) && s.st[|s.st| - 1].inbox != []))
    ensures Own(a) && Enabled(s, a)
  {
    hide Lines.LinesOk, Lines.RefsOk, Lines.SourcesOk, Lines.FreedOk;
    if s.pend != [] {
      assert s.pend[0] in s.pend;
      a := MgPush;
    } else {
      a := MgTake;
    }
  }

  /** With inputs and parsers gone, the first shared thread finds the terminate messages that it waits for. */
  lemma FirstWaiting(s: Sys)
    requires TermInv(s) && s.cfg.status != Running && s.cfg.phase.Idle? && s.st[0].alive
    requires forall i | 0 <= i < |s.src| :: !s.src[i].inAlive && !s.src[i].alive && s.src[i].hand == [] && s.src[i].emit == []
    ensures s.st[0].inbox != []
  {
    assert Awaited(s) != {};
    var i :| i in Awaited(s);
    assert SourceInv(s, i) && Before(s, i) == 1;
    assert TermsOf(s.st[0].inbox, i) == 1;
  }

  /** One of the shared threads can go on while the output manager has not ended. */
  lemma StageGoesOn(s: Sys) returns (a: Action)
    requires TermInv(s) && Lines.Inv(s) && s.cfg.status != Running && s.cfg.phase.Idle? && MgrAlive(s)
    requires forall i | 0 <= i < |s.src| :: !s.src[i].inAlive && !s.src[i].alive && s.src[i].hand == [] && s.src[i].emit == []
    ensures Own(a) && Enabled(s, a)
  {
    hide Lines.LinesOk, Lines.RefsOk, Lines.SourcesOk, Lines.FreedOk, SourceInv, OutInv;
    var n, j := |s.st| - 1, 0;
    if s.st[0].alive {
      FirstWaiting(s);
    } else {
      j := Border(s, n);
      assert StageInv(s, j);
      if s.st[j - 1].hand != [] {
        return StPush(j - 1);
      }
      assert Terms(s.st[j - 1].hand) == 0;
      assert s.st[j].inbox != [];
    }
    if j == n {
      a := ManagerGoesOn(s);
    } else if s.st[j].hand != [] {
      a := StPush(j);
    } else {
      a := StTake(j);
    }
  }

  /** With the output manager gone, the outputs have not all ended until the last terminate message is destroyed. */
  lemma OutputGoesOn(s: Sys) returns (a: Action)
    requires TermInv(s) && Lines.Inv(s) && !MgrAlive(s) && Final(s.refs) != {}
    ensures Own(a) && Enabled(s, a)
  {
    if s.pend != [] {
      a := ManagerGoesOn(s);
    } else {
      var x :| x in Final(s.refs);
      assert Lines.RefsOk(s.out, s.pend, s.refs);
      hide Lines.Inv, TermInv, Lines.RefsOk, OutInv;
      var l := Holder(s, x);
      if s.out[l].hand == Dying(x) {
        a := OuFree(l);
      } else {
        assert OutInv(s, l) by { OutputInv(s, l); }
        a := HolderGoesOn(s, l, x);
      }
    }
  }

  lemma OutputInv(s: Sys, l: nat)
    requires TermInv(s) && l < |s.out|
    ensures OutInv(s, l)
  {
  }

  /** A message that is counted is with some output, if only to be destroyed there. */
  lemma Holder(s: Sys, x: Msg) returns (l: nat)
    requires Lines.RefsOk(s.out, s.pend, s.refs) && x in s.refs
    ensures l < |s.out| && (s.out[l].hand == Dying(x) || x in Lines.Active(s.out, s.pend, l))
  {
    if s.refs[x] == 0 {
      assert Lines.Dyings(s.out, s.refs);
      l :| l < |s.out| && s.out[l].hand == Dying(x);
    } else {
      assert Lines.Counts(s.out, s.pend, s.refs);
      var hs := Lines.Holders(s.out, s.pend, x);
      assert hs != {};
      l :| l in hs;
    }
  }

  lemma HolderGoesOn(s: Sys, l: nat, x: Msg) returns (a: Action)
    requires Shape(s) && l < |s.out| && OutInv(s, l) && s.pend == [] && x.kind.Term? && x in Lines.Active(s.out, s.pend, l)
    ensures Own(a) && Enabled(s, a)
  {
    if s.out[l].hand.Held? {
      a := OuRelease(l);
    } else if s.out[l].hand.Dying? {
      a := OuFree(l);
    } else {
      assert x in s.out[l].inbox;
      TermsIn(s.out[l].inbox, x);
      a := OuTake(l);
    }
  }

  lemma {:induction false} TermsIn(q: seq<Msg>, x: Msg)
    requires x in q && x.kind.Term?
    ensures Terms(q) > 0
  {
    if q[0] != x {
      TermsIn(q[1..], x);
    }
  }

  /** While a stop is under way and not done, some thread can take a step. */
  lemma GoesOn(s: Sys) returns (a: Action)
    requires TermInv(s) && Lines.Inv(s) && (s.cfg.status != Running || s.cfg.phase.SendEnd?) && !s.cfg.done
    ensures Own(a) && Enabled(s, a)
  {
    if !s.cfg.phase.Idle? {
      return CfgSend;
    }
    if s.cfg.pipe != [] {
      return CfgTake;
    }
    assert Destroyed(s) < |s.src|;
    hide SourceInv, StageInv, OutInv, Lines.Inv, Awaited;
    if i :| 0 <= i < |s.src| && (s.src[i].inAlive || s.src[i].alive || s.src[i].hand != [] || s.src[i].emit != []) {
      a := SourceGoesOn(s, i);
    } else if MgrAlive(s) {
      a := StageGoesOn(s);
    } else {
      DeadBefore(s, 0, |s.st| - 1);
      a := OutputGoesOn(s);
    }
  }

  /** Over every run: from the first request to stop on, the pipeline is never stuck before it is done. */
  lemma NeverStuck(run: seq<Sys>, acts: seq<Action>, k: nat) returns (a: Action)
    requires IsRun(run, acts) && k <= |acts| && !run[k].cfg.done
    requires ReqSlow in Requests(run, acts, k) || ReqFast in Requests(run, acts, k)
    ensures Own(a) && Enabled(run[k], a)
  {
    assert |run[0].src| > 0 by { assert IsInit(run[0]); }
    RunAfter(run, acts, 0, k);
    RunTerm(run, acts, k);
    hide IsRun, TermInv, Lines.Inv, Dones;
    a := GoesOn(run[k]);
  }
}
