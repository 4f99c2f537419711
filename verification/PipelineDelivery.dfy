/**
 * What gets to an output: exactly the messages that the output manager handled and the filter of the
 * output admits, in order and once each; everything that parsers pass if nothing is dropped on the way, and
 * all garbage even then.
 */
module PipelineDelivery {
  import opened Pipeline
  import Lines = PipelineLines

  // ---------------------------------------------------------------- filters

  /** IPFIX Messages are filtered by their Observation Domain, all other messages are for everyone. */
  predicate Chosen(f: Filter, kind: Kind) {
    kind.Ipfix? ==> (f.Only? ==> kind.odid in f.odids) && (f.Except? ==> kind.odid !in f.odids)
  }

  function Select(q: seq<Msg>, f: Filter): seq<Msg> {
    if q == [] then []
    else Select(q[..|q| - 1], f) + if Chosen(f, q[|q| - 1].kind) then [q[|q| - 1]] else []
  }

  lemma WantsChosen(o: Out, m: Msg)
    ensures Wants(o, m) <==> Chosen(o.filter, m.kind)
  {
  }

  lemma SelectSnoc(q: seq<Msg>, m: Msg, f: Filter)
    ensures Select(q + [m], f) == Select(q, f) + if Chosen(f, m.kind) then [m] else []
  {
    assert (q + [m])[..|q|] == q;
  }

  // ---------------------------------------------------------------- one step

  /** On the way to an output, behind the output manager. */
  function Ahead(s: Sys, l: nat): seq<Msg>
    requires l < |s.out|
  {
    s.out[l].inbox + Lines.Pending(s.pend, l)
  }

  /** The message that the output takes in a step. */
  function TakenIn(s: Sys, a: Action, l: nat): seq<Msg>
    requires Enabled(s, a) && l < |s.out|
  {
    if a == OuTake(l) then [s.out[l].inbox[0]] else []
  }

  /** The message that the output manager handles in a step: data and garbage always, others if they are not merged away. */
  function HandledIn(s: Sys, a: Action): seq<Msg>
    requires Enabled(s, a)
  {
    if !a.MgTake? then []
    else
      var mgr := s.st[|s.st| - 1];
      var m := mgr.inbox[0];
      match m.kind
      case Term => if mgr.termCnt == 1 then [m] else []
      case Periodic(num) => if num == mgr.waiting then [m] else []
      case _ => [m]
  }

  lemma DeliveryStep(s: Sys, a: Action, l: nat)
    requires Enabled(s, a) && l < |s.out|
    ensures var s' := Step(s, a);
            && |s'.out| == |s.out| && s'.out[l].filter == s.out[l].filter
            && TakenIn(s, a, l) + Ahead(s', l) == Ahead(s, l) + Select(HandledIn(s, a), s.out[l].filter)
  {
    var f := s.out[l].filter;
    assert Select([], f) == [] && Ahead(s, l) + [] == Ahead(s, l);
    match a {
      case MgTake => ManagerStep(s, l);
      case MgPush => PushStep(s, l);
      case OuTake(k) =>
        if k == l {
          var o, p := s.out[l].inbox, Lines.Pending(s.pend, l);
          assert o == [o[0]] + o[1..];
          assert [o[0]] + (o[1..] + p) == o + p;
        }
      case _ => OtherStep(s, a, l);
    }
  }

  lemma ManagerStep(s: Sys, l: nat)
    requires Enabled(s, MgTake) && l < |s.out|
    ensures var s' := Step(s, MgTake);
            && |s'.out| == |s.out| && s'.out[l] == s.out[l]
            && Ahead(s', l) == Ahead(s, l) + Select(HandledIn(s, MgTake), s.out[l].filter)
  {
    var m, f := s.st[|s.st| - 1].inbox[0], s.out[l].filter;
    ManagerHandles(s);
    WantsChosen(s.out[l], m);
    SelectSnoc([], m, f);
    Lines.DestsPending(s.out, m, 0, l);
    hide Enabled, Step, HandledIn, Dests, Wants, Chosen;
    assert [] + [m] == [m] && Select([], f) == [] && Lines.Pending([], l) == [];
    hide Select, Lines.Pending;
    var o := s.out[l].inbox;
    assert o + [] == o && o + [] + [m] == o + [m];
  }

  lemma ManagerHandles(s: Sys)
    requires Enabled(s, MgTake)
    ensures var s', m, h := Step(s, MgTake), s.st[|s.st| - 1].inbox[0], HandledIn(s, MgTake);
            && s.pend == [] && s'.out == s.out && (h == [] || h == [m])
            && s'.pend == if h == [] then [] else Dests(s.out, m, 0)
  {
    hide Dests;
  }

  lemma PushStep(s: Sys, l: nat)
    requires Enabled(s, MgPush) && l < |s.out|
    ensures var s' := Step(s, MgPush); |s'.out| == |s.out| && s'.out[l].filter == s.out[l].filter && Ahead(s', l) == Ahead(s, l)
  {
    var o, p, rest := s.out[l].inbox, s.pend[0], Lines.Pending(s.pend[1..], l);
    assert o + [p.msg] + rest == o + ([p.msg] + rest);
  }

  lemma OtherStep(s: Sys, a: Action, l: nat)
    requires Enabled(s, a) && l < |s.out| && !a.MgTake? && !a.MgPush? && a != OuTake(l)
    ensures var s' := Step(s, a);
            |s'.out| == |s.out| && s'.pend == s.pend && s'.out[l].inbox == s.out[l].inbox && s'.out[l].filter == s.out[l].filter
  {
    hide Dests, Receive, CfgHandle, ParserTake, InputTake;
  }

  // ---------------------------------------------------------------- over runs

  /** What an output has taken, and what the output manager has handled. */
  ghost function Taken(run: seq<Sys>, acts: seq<Action>, l: nat, k: nat): seq<Msg>
    requires IsRun(run, acts) && k <= |acts| && l < |run[0].out|
    ensures forall x | 0 <= x <= k :: |run[x].out| == |run[0].out|
  {
    if k == 0 then []
    else
      var before := Taken(run, acts, l, k - 1);
      DeliveryStep(run[k - 1], acts[k - 1], l);
      before + TakenIn(run[k - 1], acts[k - 1], l)
  }

  ghost function Handled(run: seq<Sys>, acts: seq<Action>, k: nat): seq<Msg>
    requires IsRun(run, acts) && k <= |acts|
  {
    if k == 0 then [] else Handled(run, acts, k - 1) + HandledIn(run[k - 1], acts[k - 1])
  }

  lemma {:induction false} SelectAppend(a: seq<Msg>, b: seq<Msg>, f: Filter)
    ensures Select(a + b, f) == Select(a, f) + Select(b, f)
  {
    if b == [] {
      assert a + b == a;
    } else {
      var n := |b| - 1;
      SelectAppend(a, b[..n], f);
      SelectSnoc(a + b[..n], b[n], f);
      assert a + b == a + b[..n] + [b[n]];
      hide Chosen;
    }
  }

  /**
   * Over every run: what an output has taken and what is on its way to it are exactly the messages that the
   * output manager has handled and the filter admits, each once and in that order.
   */
  lemma {:induction false} Delivered(run: seq<Sys>, acts: seq<Action>, l: nat, k: nat)
    requires IsRun(run, acts) && k <= |acts| && l < |run[0].out|
    ensures |run[k].out| == |run[0].out| && run[k].out[l].filter == run[0].out[l].filter
    ensures Taken(run, acts, l, k) + Ahead(run[k], l) == Select(Handled(run, acts, k), run[0].out[l].filter)
  {
    if k == 0 {
      NothingYet(run, acts, l);
    } else {
      Delivered(run, acts, l, k - 1);
      var s, a, f := run[k - 1], acts[k - 1], run[0].out[l].filter;
      assert Enabled(s, a) && run[k] == Step(s, a);
      DeliveryStep(s, a, l);
      SelectAppend(Handled(run, acts, k - 1), HandledIn(s, a), f);
      Regroup(Taken(run, acts, l, k - 1), TakenIn(s, a, l), Ahead(run[k], l), Ahead(s, l), Select(HandledIn(s, a), f));
      hide Enabled, Step, IsRun, HandledIn, TakenIn, Select, Ahead;
    }
  }

  lemma Regroup(t: seq<Msg>, x: seq<Msg>, ahead': seq<Msg>, ahead: seq<Msg>, h: seq<Msg>)
    requires x + ahead' == ahead + h
    ensures t + x + ahead' == t + ahead + h
  {
    assert t + x + ahead' == t + (x + ahead');
  }

  lemma NothingYet(run: seq<Sys>, acts: seq<Action>, l: nat)
    requires IsRun(run, acts) && l < |run[0].out|
    ensures Taken(run, acts, l, 0) + Ahead(run[0], l) == [] && Handled(run, acts, 0) == []
  {
    assert IsInit(run[0]);
  }

  lemma {:induction false} SelectOnly(q: seq<Msg>, f: Filter)
    ensures forall m | m in Select(q, f) :: m in q && Chosen(f, m.kind)
    ensures forall m | m in q && Chosen(f, m.kind) :: m in Select(q, f)
  {
    if q != [] {
      var n := |q| - 1;
      SelectOnly(q[..n], f);
      assert q == q[..n] + [q[n]];
    }
  }

  /**
   * So an output never holds an IPFIX Message of a domain that its filter excludes: one outside the list of
   * a filter that admits only some, or in the list of a filter that admits all but some.
   */
  lemma {:induction false} FilteredOut(run: seq<Sys>, acts: seq<Action>, l: nat, k: nat)
    requires IsRun(run, acts) && k <= |acts| && l < |run[0].out|
    ensures |run[k].out| == |run[0].out|
    ensures forall m | m in run[k].out[l].inbox + Lines.InHand(run[k].out[l].hand) && m.kind.Ipfix? ::
              match run[0].out[l].filter
              case All => true
              case Only(odids) => m.kind.odid in odids
              case Except(odids) => m.kind.odid !in odids
  {
    Delivered(run, acts, l, k);
    HandTaken(run, acts, l, k);
    var f := run[0].out[l].filter;
    SelectOnly(Handled(run, acts, k), f);
    hide IsRun, Select, Lines.Pending;
    var all := Taken(run, acts, l, k) + Ahead(run[k], l);
    forall m | m in run[k].out[l].inbox + Lines.InHand(run[k].out[l].hand) ensures Chosen(f, m.kind) {
      assert m in all;
    }
  }

  /** What an output holds it has taken. */
  lemma {:induction false} HandTaken(run: seq<Sys>, acts: seq<Action>, l: nat, k: nat)
    requires IsRun(run, acts) && k <= |acts| && l < |run[0].out|
    ensures |run[k].out| == |run[0].out| && forall m | m in Lines.InHand(run[k].out[l].hand) :: m in Taken(run, acts, l, k)
  {
    if k > 0 {
      HandTaken(run, acts, l, k - 1);
      assert Enabled(run[k - 1], acts[k - 1]) && run[k] == Step(run[k - 1], acts[k - 1]);
      HandStep(run[k - 1], acts[k - 1], l);
      hide Enabled, Step, IsRun, TakenIn, Lines.InHand;
    }
  }

  lemma HandStep(s: Sys, a: Action, l: nat)
    requires Enabled(s, a) && l < |s.out|
    ensures |Step(s, a).out| == |s.out|
    ensures forall m | m in Lines.InHand(Step(s, a).out[l].hand) :: m in Lines.InHand(s.out[l].hand) || m in TakenIn(s, a, l)
  {
    hide Dests, Receive, CfgHandle, ParserTake, InputTake;
  }

  // ---------------------------------------------------------------- nothing else is lost

  /** What must not get lost: garbage never, data not if nothing is dropped. */
  predicate Keeps(kind: Kind, calm: bool) {
    kind.Garbage? || (calm && (kind.Ipfix? || kind.Session?))
  }

  /** An intermediate plugin destroys a message, or the output manager does because processing has ended. */
  predicate Drops(a: Action) {
    a.StDrop? || a.MgDrop?
  }

  function Kept(q: seq<Msg>, calm: bool): seq<Msg> {
    if q == [] then [] else Kept(q[..|q| - 1], calm) + if Keeps(q[|q| - 1].kind, calm) then [q[|q| - 1]] else []
  }

  lemma KeptSnoc(q: seq<Msg>, m: Msg, calm: bool)
    ensures Kept(q + [m], calm) == Kept(q, calm) + if Keeps(m.kind, calm) then [m] else []
  {
    assert (q + [m])[..|q|] == q;
  }

  lemma KeptOne(m: Msg, calm: bool)
    ensures Kept([], calm) == [] && Kept([m], calm) == if Keeps(m.kind, calm) then [m] else []
  {
    KeptSnoc([], m, calm);
    assert [] + [m] == [m];
  }

  lemma {:induction false} KeptAppend(a: seq<Msg>, b: seq<Msg>, calm: bool)
    ensures Kept(a + b, calm) == Kept(a, calm) + Kept(b, calm)
  {
    if b == [] {
      assert a + b == a;
    } else {
      var n := |b| - 1;
      KeptAppend(a, b[..n], calm);
      assert (a + b)[..|a| + n] == a + b[..n];
    }
  }

  /** Leaving out anything else does not matter. */
  lemma KeptWithout(a: seq<Msg>, m: Msg, b: seq<Msg>, calm: bool)
    requires !Keeps(m.kind, calm)
    ensures Kept(a + [m] + b, calm) == Kept(a + b, calm)
  {
    KeptOne(m, calm);
    KeptAppend(a + [m], b, calm);
    KeptAppend(a, [m], calm);
    KeptAppend(a, b, calm);
    hide Kept;
    assert Kept(a, calm) + [] == Kept(a, calm);
  }

  lemma {:induction false} KeptSelect(q: seq<Msg>, f: Filter, calm: bool)
    ensures Kept(Select(q, f), calm) == Select(Kept(q, calm), f)
  {
    if q != [] {
      var n := |q| - 1;
      KeptSelect(q[..n], f, calm);
      KeptSnoc(Select(q[..n], f), q[n], calm);
      SelectSnoc(Kept(q[..n], calm), q[n], f);
      assert Select(q[..n], f) + [] == Select(q[..n], f) && Kept(q[..n], calm) + [] == Kept(q[..n], calm);
      hide Kept, Select;
    }
  }

  /** Filters let all garbage through. */
  lemma {:induction false} GarbageSelect(q: seq<Msg>, f: Filter)
    ensures Kept(Select(q, f), false) == Kept(q, false)
  {
    if q != [] {
      var n := |q| - 1;
      GarbageSelect(q[..n], f);
      KeptSnoc(Select(q[..n], f), q[n], false);
      assert Select(q[..n], f) + [] == Select(q[..n], f);
    }
  }

  /** The message that a parser passes into the shared ring in a step. */
  function ArrivedIn(s: Sys, a: Action): seq<Msg>
    requires Enabled(s, a)
  {
    if a.PaPush? then [s.src[a.i].emit[0]] else []
  }

  /** Between the parsers and the output manager. */
  lemma MidStep(s: Sys, a: Action, calm: bool)
    requires Enabled(s, a) && s.st[|s.st| - 1].hand == [] && (calm ==> !Drops(a))
    ensures Kept(HandledIn(s, a) + Lines.MidFrom(Step(s, a).st, 0), calm) == Kept(Lines.MidFrom(s.st, 0) + ArrivedIn(s, a), calm)
  {
    MovedIn(s, a);
    hide *;
    var mid, mid' := Lines.MidFrom(s.st, 0), Lines.MidFrom(Step(s, a).st, 0);
    assert mid + [] == mid && [] + mid' == mid';
    match a {
      case PaPush(i) => Arrives(s, i);
      case StTake(j) => StageTakes(s, j, calm);
      case StDrop(j) => StageDrops(s, j);
      case StPush(j) => StagePushes(s, j);
      case MgTake => ManagerTakes(s, calm);
      case MgDrop => ManagerDrops(s);
      case _ => StagesSame(s, a);
    }
  }

  lemma MovedIn(s: Sys, a: Action)
    requires Enabled(s, a)
    ensures (!a.MgTake? ==> HandledIn(s, a) == []) && ArrivedIn(s, a) == if a.PaPush? then [s.src[a.i].emit[0]] else []
  {
  }

  lemma Arrives(s: Sys, i: nat)
    requires Enabled(s, PaPush(i))
    ensures Lines.MidFrom(Step(s, PaPush(i)).st, 0) == Lines.MidFrom(s.st, 0) + [s.src[i].emit[0]]
  {
    var s', y := Step(s, PaPush(i)), s.src[i].emit[0];
    var a, b := Lines.MidSplit(s.st, 0, s'.st[0]);
    hide Lines.MidFrom;
    var h, q := s.st[0].hand, s.st[0].inbox;
    assert a + (h + (q + [y])) + [] == a + (h + q) + [] + [y];
  }

  lemma StageTakes(s: Sys, j: nat, calm: bool)
    requires Enabled(s, StTake(j))
    ensures Kept(Lines.MidFrom(Step(s, StTake(j)).st, 0), calm) == Kept(Lines.MidFrom(s.st, 0), calm)
  {
    var s', m := Step(s, StTake(j)), s.st[j].inbox[0];
    assert s'.st == s.st[j := s'.st[j]];
    var a, b := Lines.TakeSplit(s, j, s'.st[j]);
    hide Lines.MidFrom;
    if s'.st[j].hand == [] {
      KeptWithout(a, m, b, calm);
    }
  }

  lemma StageDrops(s: Sys, j: nat)
    requires Enabled(s, StDrop(j))
    ensures Kept(Lines.MidFrom(Step(s, StDrop(j)).st, 0), false) == Kept(Lines.MidFrom(s.st, 0), false)
  {
    var s', m := Step(s, StDrop(j)), s.st[j].hand[0];
    var a, b := Lines.MidSplit(s.st, j, s'.st[j]);
    hide Lines.MidFrom;
    var h, q := s'.st[j].hand, s.st[j].inbox;
    assert s.st[j].hand == [m] + h;
    assert a + ([m] + h + q) + b == a + [m] + (h + q + b) && a + (h + q) + b == a + (h + q + b);
    KeptWithout(a, m, h + q + b, false);
  }

  lemma StagePushes(s: Sys, j: nat)
    requires Enabled(s, StPush(j))
    ensures Lines.MidFrom(Step(s, StPush(j)).st, 0) == Lines.MidFrom(s.st, 0)
  {
    var s', m := Step(s, StPush(j)), s.st[j].hand[0];
    var x, y := s.st[j], s.st[j + 1];
    assert x.hand == [m] + x.hand[1..];
    assert y.hand + (y.inbox + [m]) + (x.hand[1..] + x.inbox) == y.hand + y.inbox + ([m] + x.hand[1..] + x.inbox);
    Lines.MidPush(s.st, j, s'.st[j], s'.st[j + 1]);
  }

  lemma ManagerTakes(s: Sys, calm: bool)
    requires Enabled(s, MgTake) && s.st[|s.st| - 1].hand == []
    ensures Kept(HandledIn(s, MgTake) + Lines.MidFrom(Step(s, MgTake).st, 0), calm) == Kept(Lines.MidFrom(s.st, 0), calm)
  {
    var j, m := |s.st| - 1, s.st[|s.st| - 1].inbox[0];
    var s', h := Step(s, MgTake), HandledIn(s, MgTake);
    TakenByManager(s);
    var a, b := Lines.TakeSplit(s, j, s'.st[j]);
    hide Lines.MidFrom, Step;
    assert [] + [m] + b == [m] + b && [] + b == b;
    if h == [] {
      KeptWithout([], m, b, calm);
    }
  }

  lemma TakenByManager(s: Sys)
    requires Enabled(s, MgTake)
    ensures var j, s', h, m := |s.st| - 1, Step(s, MgTake), HandledIn(s, MgTake), s.st[|s.st| - 1].inbox[0];
            && |s'.st| == |s.st| && s'.st == s.st[j := s'.st[j]] && s'.st[j].inbox == s.st[j].inbox[1..] && s'.st[j].hand == s.st[j].hand
            && (h == [m] || (h == [] && (m.kind.Term? || m.kind.Periodic?)))
  {
    hide Dests;
  }

  lemma ManagerDrops(s: Sys)
    requires Enabled(s, MgDrop) && s.st[|s.st| - 1].hand == []
    ensures Kept(Lines.MidFrom(Step(s, MgDrop).st, 0), false) == Kept(Lines.MidFrom(s.st, 0), false)
  {
    var j, s' := |s.st| - 1, Step(s, MgDrop);
    var a, b := Lines.TakeSplit(s, j, s'.st[j]);
    hide Lines.MidFrom;
    KeptWithout(a, s.st[j].inbox[0], b, false);
  }

  lemma StagesSame(s: Sys, a: Action)
    requires Enabled(s, a) && !a.PaPush? && !a.StTake? && !a.StDrop? && !a.StPush? && !a.MgTake? && !a.MgDrop?
    ensures Step(s, a).st == s.st
  {
    hide Dests, Receive, CfgHandle, ParserTake, InputTake;
  }

  ghost function Arrived(run: seq<Sys>, acts: seq<Action>, k: nat): seq<Msg>
    requires IsRun(run, acts) && k <= |acts|
  {
    if k == 0 then [] else Arrived(run, acts, k - 1) + ArrivedIn(run[k - 1], acts[k - 1])
  }

  lemma {:induction false} KeptHandled(run: seq<Sys>, acts: seq<Action>, k: nat, calm: bool)
    requires IsRun(run, acts) && k <= |acts| && (calm ==> forall x | 0 <= x < k :: !Drops(acts[x]))
    ensures Kept(Handled(run, acts, k) + Lines.MidFrom(run[k].st, 0), calm) == Kept(Arrived(run, acts, k), calm)
  {
    hide *;
    if k == 0 {
      NothingOnTheWay(run, acts);
    } else {
      KeptHandled(run, acts, k - 1, calm);
      KeptStep(run, acts, k, calm);
      Histories(run, acts, k);
      var s, a := run[k - 1], acts[k - 1];
      Telescope(Handled(run, acts, k - 1), HandledIn(s, a), Lines.MidFrom(s.st, 0), Lines.MidFrom(run[k].st, 0),
                Arrived(run, acts, k - 1), ArrivedIn(s, a), calm);
    }
  }

  lemma Histories(run: seq<Sys>, acts: seq<Action>, k: nat)
    requires IsRun(run, acts) && 0 < k <= |acts|
    ensures Enabled(run[k - 1], acts[k - 1])
    ensures Handled(run, acts, k) == Handled(run, acts, k - 1) + HandledIn(run[k - 1], acts[k - 1])
    ensures Arrived(run, acts, k) == Arrived(run, acts, k - 1) + ArrivedIn(run[k - 1], acts[k - 1])
  {
    hide Enabled, Step;
  }

  lemma KeptStep(run: seq<Sys>, acts: seq<Action>, k: nat, calm: bool)
    requires IsRun(run, acts) && 0 < k <= |acts| && (calm ==> !Drops(acts[k - 1]))
    ensures |run| == |acts| + 1 && Enabled(run[k - 1], acts[k - 1]) && run[k] == Step(run[k - 1], acts[k - 1])
    ensures var s, a := run[k - 1], acts[k - 1];
            Kept(HandledIn(s, a) + Lines.MidFrom(run[k].st, 0), calm) == Kept(Lines.MidFrom(s.st, 0) + ArrivedIn(s, a), calm)
  {
    hide Enabled, Step, Lines.Inv, Shape, IsInit;
    assert Enabled(run[k - 1], acts[k - 1]) && run[k] == Step(run[k - 1], acts[k - 1]);
    hide *;
    Lines.RunInv(run, acts, k - 1);
    NothingInHand(run[k - 1]);
    MidStep(run[k - 1], acts[k - 1], calm);
  }

  lemma NothingInHand(s: Sys)
    requires Lines.Inv(s)
    ensures |s.st| > 0 && s.st[|s.st| - 1].hand == []
  {
  }

  lemma Telescope(h: seq<Msg>, x: seq<Msg>, mid: seq<Msg>, mid': seq<Msg>, arrived: seq<Msg>, y: seq<Msg>, calm: bool)
    requires Kept(x + mid', calm) == Kept(mid + y, calm) && Kept(h + mid, calm) == Kept(arrived, calm)
    ensures Kept(h + x + mid', calm) == Kept(arrived + y, calm)
  {
    hide Kept;
    KeptAppend(h, x + mid', calm);
    KeptAppend(h, mid, calm);
    KeptAppend(mid, y, calm);
    KeptAppend(arrived, y, calm);
    Assoc(h, x, mid');
    Assoc(Kept(h, calm), Kept(mid, calm), Kept(y, calm));
  }

  lemma Assoc(a: seq<Msg>, b: seq<Msg>, c: seq<Msg>)
    ensures a + b + c == a + (b + c)
  {
  }

  lemma NothingOnTheWay(run: seq<Sys>, acts: seq<Action>)
    requires IsRun(run, acts)
    ensures Handled(run, acts, 0) + Lines.MidFrom(run[0].st, 0) == [] && Arrived(run, acts, 0) == []
  {
    assert IsInit(run[0]);
    EmptyStages(run[0].st, 0);
  }

  lemma {:induction false} EmptyStages(st: seq<Stage>, j: nat)
    requires j <= |st| && forall k | 0 <= k < |st| :: st[k].hand == [] && st[k].inbox == []
    ensures Lines.MidFrom(st, j) == []
    decreases |st| - j
  {
    if j < |st| {
      EmptyStages(st, j + 1);
    }
  }

  /**
   * Over every run in which nothing is dropped: the data and garbage that parsers passed and the filter admits
   * come to an output, each once and in order, unless they are still on their way.
   */
  lemma AllDelivered(run: seq<Sys>, acts: seq<Action>, l: nat, k: nat)
    requires IsRun(run, acts) && k <= |acts| && l < |run[0].out| && forall x | 0 <= x < k :: !Drops(acts[x])
    ensures |run[k].out| == |run[0].out|
    ensures var f := run[0].out[l].filter;
            Kept(Taken(run, acts, l, k) + Ahead(run[k], l) + Select(Lines.MidFrom(run[k].st, 0), f), true)
            == Kept(Select(Arrived(run, acts, k), f), true)
  {
    assert |run| == |acts| + 1;
    hide IsRun, Kept, Lines.MidFrom, Ahead, Select;
    Delivered(run, acts, l, k);
    KeptHandled(run, acts, k, true);
    var mid, h, f := Lines.MidFrom(run[k].st, 0), Handled(run, acts, k), run[0].out[l].filter;
    SelectAppend(h, mid, f);
    KeptSelect(h + mid, f, true);
    KeptSelect(Arrived(run, acts, k), f, true);
  }

  /** Over every run, whatever filters, plugins and the end of processing do, this holds for the garbage. */
  lemma GarbageDelivered(run: seq<Sys>, acts: seq<Action>, l: nat, k: nat)
    requires IsRun(run, acts) && k <= |acts| && l < |run[0].out|
    ensures |run[k].out| == |run[0].out|
    ensures Kept(Taken(run, acts, l, k) + Ahead(run[k], l) + Lines.MidFrom(run[k].st, 0), false) == Kept(Arrived(run, acts, k), false)
  {
    assert |run| == |acts| + 1;
    hide IsRun, Kept, Lines.MidFrom, Ahead, Select;
    Delivered(run, acts, l, k);
    KeptHandled(run, acts, k, false);
    var mid, h, f := Lines.MidFrom(run[k].st, 0), Handled(run, acts, k), run[0].out[l].filter;
    GarbageSelect(h, f);
    KeptAppend(Select(h, f), mid, false);
    KeptAppend(h, mid, false);
  }
}
