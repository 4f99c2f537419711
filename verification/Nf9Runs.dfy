/**
 * Whole runs of the NetFlow v9 converter, with any number of rejected messages among them: the
 * numbers and records of the emitted messages, and exactly when a collector can read them all.
 */
module Nf9Runs {
  import opened Bytes
  import opened Nf9Parsers
  import opened Nf9Templates
  import opened Nf9Trec
  import opened Nf9Spec
  import opened Nf9Theorems
  import SeqTrack

  // ---------------------------------------------------------------- definitions, also of rejected messages

  /** How many FlowSets are read, counting the one at which the conversion fails. */
  function ReadSets(tbl: Table, c: Clock, sets: seq<seq<byte>>): (n: nat)
    requires Coherent(tbl) && forall s | s in sets :: IsSet(s)
    ensures n <= |sets|
    decreases |sets|
  {
    hide IsTrec, ConvSet;
    if sets == [] then 0
    else
      SetCoherent(tbl, c, sets[0]);
      match ConvSet(tbl, c, sets[0])
      case SetFail(_) => 1
      case SetOk(tbl', _, _, _) => 1 + ReadSets(tbl', c, sets[1..])
  }

  lemma {:induction false} SetsDefine(tbl: Table, c: Clock, sets: seq<seq<byte>>)
    requires Coherent(tbl) && forall s | s in sets :: IsSet(s)
    ensures var n := ReadSets(tbl, c, sets);
            && DefsOf(ConvSets(tbl, c, sets).tbl) == DefineSets(DefsOf(tbl), sets[..n])
            && (ConvSets(tbl, c, sets).ok ==> n == |sets|)
    decreases |sets|
  {
    hide IsTrec, ConvSet, DefineSet, DefsOf, Coherent;
    if sets != [] {
      assert IsSet(sets[0]);
      SetCoherent(tbl, c, sets[0]);
      SetDefines(tbl, c, sets[0]);
      var n := ReadSets(tbl, c, sets);
      assert sets[..n][0] == sets[0] && sets[..n][1..] == sets[1..n] == sets[1..][..n - 1];
      if ConvSet(tbl, c, sets[0]).SetOk? {
        SetsDefine(ConvSet(tbl, c, sets[0]).tbl, c, sets[1..]);
      } else {
        assert sets[1..][..0] == [];
      }
    }
  }

  /** What becomes of a message: how many of its FlowSets were read, and whether it was converted. */
  datatype Outcome = Outcome(read: nat, converted: bool)

  function OutcomeOf(st: State, msg: seq<byte>): Outcome
    requires st.Valid()
  {
    if !Understood(msg) then Outcome(0, false)
    else
      FlowSetsAreSets(msg);
      Outcome(ReadSets(st.tbl, ClockOf(msg), FlowSets(msg)), ConvMsg(st, msg).1.Done?)
  }

  predicate Possible(msg: seq<byte>, o: Outcome) {
    o.read <= |FlowSets(msg)| && (o.converted ==> |msg| >= MSG_HDR_LEN && o.read == |FlowSets(msg)|)
  }

  /**
   * After any message, rejected or not, the table holds the definitions of before, changed in order by
   * the templates of the FlowSets that were read, of the failing one those in front of the failure.
   */
  lemma MessageDefines(st: State, msg: seq<byte>)
    requires st.Valid()
    ensures Possible(msg, OutcomeOf(st, msg)) && forall s | s in FlowSets(msg) :: IsSet(s)
    ensures DefsOf(ConvMsg(st, msg).0.tbl) == DefineSets(DefsOf(st.tbl), FlowSets(msg)[..OutcomeOf(st, msg).read])
  {
    hide IsTrec, Coherent, ConvSets, ReadSets, SetsOf, DefsOf, EncSets, IpxHdr;
    FlowSetsAreSets(msg);
    if Understood(msg) {
      SetsDefine(st.tbl, ClockOf(msg), FlowSets(msg));
    } else {
      assert FlowSets(msg)[..0] == [];
    }
  }

  // ---------------------------------------------------------------- numbers and records over all runs

  /** The messages that a converter emits. */
  function Run(st: State, msgs: seq<seq<byte>>): seq<seq<byte>>
    requires st.Valid()
    decreases |msgs|
  {
    if msgs == [] then []
    else
      var r := ConvMsg(st, msgs[0]);
      (if r.1.Done? then [r.1.msg] else []) + Run(r.0, msgs[1..])
  }

  // ---------------------------------------------------------------- the numbers of NetFlow messages

  function StateAfter(st: State, msgs: seq<seq<byte>>): State
    requires st.Valid()
    decreases |msgs|
  {
    if msgs == [] then st else StateAfter(ConvMsg(st, msgs[0]).0, msgs[1..])
  }

  /** The true numbers of the messages of NetFlow v9; each carries the lower 32 bits of its own. */
  predicate TrueNumbers(msgs: seq<seq<byte>>, ns: seq<nat>)
    decreases |msgs|
  {
    if msgs == [] then ns == []
    else if |msgs[0]| >= 20 && Get16(msgs[0], 0) == 9 then
      ns != [] && Get32(msgs[0], 12) == ns[0] % 0x1_0000_0000 && TrueNumbers(msgs[1..], ns[1..])
    else TrueNumbers(msgs[1..], ns)
  }

  /** Over every run, whatever is rejected: the number expected next is that of the unbounded tracker. */
  lemma {:induction false} MessagesTracked(st: State, msgs: seq<seq<byte>>, ns: seq<nat>, next: Option<nat>)
    requires st.Valid() && TrueNumbers(msgs, ns) && SeqTrack.AllInWindow(next, ns)
    requires st.nf9SeqValid == next.Some? && st.nf9SeqNext == SeqTrack.Low(next)
    ensures var st', next' := StateAfter(st, msgs), SeqTrack.TrueAll(next, ns);
            st'.nf9SeqValid == next'.Some? && st'.nf9SeqNext == SeqTrack.Low(next')
    decreases |msgs|
  {
    if msgs != [] {
      var m, st1 := msgs[0], ConvMsg(st, msgs[0]).0;
      TrackedBy(st, m);
      hide ConvMsg, TrackSeq, SeqTrack.InWindow, SeqTrack.TrueNext, SeqTrack.Low, Get16, Get32;
      if |m| >= 20 && Get16(m, 0) == 9 {
        SeqTrack.TrackStep(next, ns[0]);
        MessagesTracked(st1, msgs[1..], ns[1..], Some(SeqTrack.TrueNext(next, ns[0])));
      } else {
        MessagesTracked(st1, msgs[1..], ns, next);
      }
    }
  }

  lemma TrackedBy(st: State, m: seq<byte>)
    requires st.Valid()
    ensures var st1 := ConvMsg(st, m).0;
            if |m| >= 20 && Get16(m, 0) == 9 then
              st1.nf9SeqValid && st1.nf9SeqNext == TrackSeq(st.nf9SeqNext, st.nf9SeqValid, Get32(m, 12))
            else st1 == st
  {
    hide Coherent, ConvBody, EncSets, IpxHdr, TrackSeq;
  }

  function Outcomes(st: State, msgs: seq<seq<byte>>): (os: seq<Outcome>)
    requires st.Valid()
    ensures |os| == |msgs|
    decreases |msgs|
  {
    if msgs == [] then [] else [OutcomeOf(st, msgs[0])] + Outcomes(ConvMsg(st, msgs[0]).0, msgs[1..])
  }

  predicate AllPossible(msgs: seq<seq<byte>>, os: seq<Outcome>) {
    |os| == |msgs| && forall k | 0 <= k < |msgs| :: Possible(msgs[k], os[k])
  }

  /**
   * The Data Records of every converted message, each translated field by field under the latest
   * definition of its template ID in any earlier message, converted or rejected, or earlier in its own.
   */
  function Expected(defs: Defs, msgs: seq<seq<byte>>, os: seq<Outcome>): seq<seq<RecvData>>
    requires ValidDefs(defs) && AllPossible(msgs, os)
    decreases |msgs|
  {
    hide IsSet, ValidDefs, SetsOf;
    if msgs == [] then []
    else
      var sets := FlowSets(msgs[0]);
      assert Possible(msgs[0], os[0]);
      FlowSetsAreSets(msgs[0]);
      DefineSetsValid(defs, sets[..os[0].read]);
      assert AllPossible(msgs[1..], os[1..]) by { TailPossible(msgs, os); }
      (if os[0].converted then [Direct(defs, ClockOf(msgs[0]), sets)] else [])
      + Expected(DefineSets(defs, sets[..os[0].read]), msgs[1..], os[1..])
  }

  lemma TailPossible(msgs: seq<seq<byte>>, os: seq<Outcome>)
    requires AllPossible(msgs, os) && msgs != []
    ensures AllPossible(msgs[1..], os[1..])
  {
    hide Possible;
  }

  function Total(ds: seq<seq<RecvData>>): nat {
    if ds == [] then 0 else CountData(ds[0]) + Total(ds[1..])
  }

  /** The sets of the message tile it, and its Data Sets hold exactly these records. */
  ghost predicate Carries(m: seq<byte>, data: seq<RecvData>) {
    && IPX_HDR_LEN <= |m| == Get16(m, 2)
    && exists outs :: SmallSets(outs) && SetsOf(m[IPX_HDR_LEN..]) == Walk(Encs(outs), None) && DataOf(outs) == Sent(data)
  }

  /** It also carries its number: that of the Data Records sent before, modulo 2^32. */
  ghost predicate Numbered(m: seq<byte>, data: seq<RecvData>, sent: nat) {
    Carries(m, data) && Get32(m, 8) == sent % U32_SIZE
  }

  /** One converted message, with no assumption about its templates. */
  lemma OneNumbered(st: State, msg: seq<byte>, sent: nat)
    requires st.Valid() && st.ipxSeqNext == sent % U32_SIZE && ConvMsg(st, msg).1.Done?
    ensures |msg| >= MSG_HDR_LEN && (forall s | s in FlowSets(msg) :: IsSet(s)) && ValidDefs(DefsOf(st.tbl))
    ensures var r, data := ConvMsg(st, msg), Direct(DefsOf(st.tbl), ClockOf(msg), FlowSets(msg));
            && Numbered(r.1.msg, data, sent)
            && r.0.ipxSeqNext == (sent + CountData(data)) % U32_SIZE
  {
    hide IsTrec, IsSet, Coherent, ConvSets, SmallSets, Direct, DataOf, Encs, EncSets, SetsOf, IpxHdr, ValidDefs, CountData, DefsOf;
    MessageWellFormed(st, msg);
    FlowSetsAreSets(msg);
    BodyDirect(st.tbl, ClockOf(msg), FlowSets(msg));
    FailureKeepsSequence(st, msg);
    var outs := ConvBody(st.tbl, msg).outs;
    Add32(sent, CountData(Direct(DefsOf(st.tbl), ClockOf(msg), FlowSets(msg))));
  }

  /**
   * Over every run, whatever is rejected in between: the k-th emitted message carries the number of
   * Data Records in all earlier emitted messages modulo 2^32, and exactly the records expected of it.
   */
  lemma {:induction false} RunNumbered(st: State, msgs: seq<seq<byte>>, sent: nat)
    requires st.Valid() && st.ipxSeqNext == sent % U32_SIZE
    ensures ValidDefs(DefsOf(st.tbl)) && AllPossible(msgs, Outcomes(st, msgs))
    ensures var outs, e := Run(st, msgs), Expected(DefsOf(st.tbl), msgs, Outcomes(st, msgs));
            && |outs| == |e|
            && forall k | 0 <= k < |outs| :: Numbered(outs[k], e[k], sent + Total(e[..k]))
    decreases |msgs|
  {
    hide Coherent, ValidDefs, DefsOf, ConvMsg, FlowSets, DefineSets, OutcomeOf, Possible, Numbered, Total, Direct, Expected;
    CoherentDefs(st.tbl);
    if msgs == [] {
      ExpectNothing(DefsOf(st.tbl));
    } else {
      var r, os := ConvMsg(st, msgs[0]), Outcomes(st, msgs);
      MessageDefines(st, msgs[0]);
      var data := RunStep(st, msgs[0], sent);
      TotalNone();
      RunNumbered(r.0, msgs[1..], sent + Total(data));
      FrontPossible(msgs, os);
      var rest := Expected(DefsOf(r.0.tbl), msgs[1..], os[1..]);
      ExpectFront(DefsOf(st.tbl), msgs, os, data, rest);
      NumbersFront(data, rest, Run(r.0, msgs[1..]), if data == [] then [] else [r.1.msg], sent);
    }
  }

  lemma ExpectNothing(defs: Defs)
    requires ValidDefs(defs)
    ensures Expected(defs, [], []) == []
  {
  }

  lemma FrontPossible(msgs: seq<seq<byte>>, os: seq<Outcome>)
    requires msgs != [] && |os| == |msgs| && Possible(msgs[0], os[0]) && AllPossible(msgs[1..], os[1..])
    ensures AllPossible(msgs, os)
  {
    hide Possible;
    forall k | 0 <= k < |msgs| ensures Possible(msgs[k], os[k]) {
      if k > 0 {
        assert Possible(msgs[1..][k - 1], os[1..][k - 1]);
      }
    }
  }

  /** The first message of a run: its records if it is converted, and the number that comes next. */
  lemma RunStep(st: State, msg: seq<byte>, sent: nat) returns (data: seq<seq<RecvData>>)
    requires st.Valid() && st.ipxSeqNext == sent % U32_SIZE
    ensures ValidDefs(DefsOf(st.tbl)) && forall s | s in FlowSets(msg) :: IsSet(s)
    ensures OutcomeOf(st, msg).converted == ConvMsg(st, msg).1.Done?
    ensures OutcomeOf(st, msg).converted ==>
              && |msg| >= MSG_HDR_LEN && data == [Direct(DefsOf(st.tbl), ClockOf(msg), FlowSets(msg))]
              && Numbered(ConvMsg(st, msg).1.msg, data[0], sent)
    ensures !OutcomeOf(st, msg).converted ==> data == []
    ensures ConvMsg(st, msg).0.ipxSeqNext == (sent + Total(data)) % U32_SIZE
  {
    hide IsSet, ValidDefs, DefsOf, FlowSets, Direct, CountData, ReadSets, Numbered, ConvBody;
    CoherentDefs(st.tbl);
    FlowSetsAreSets(msg);
    FailureKeepsSequence(st, msg);
    if ConvMsg(st, msg).1.Done? {
      OneNumbered(st, msg, sent);
      data := [Direct(DefsOf(st.tbl), ClockOf(msg), FlowSets(msg))];
      assert data[1..] == [];
    } else {
      data := [];
    }
  }

  lemma ExpectFront(defs: Defs, msgs: seq<seq<byte>>, os: seq<Outcome>, data: seq<seq<RecvData>>, rest: seq<seq<RecvData>>)
    requires ValidDefs(defs) && AllPossible(msgs, os) && msgs != [] && AllPossible(msgs[1..], os[1..])
    requires (forall s | s in FlowSets(msgs[0]) :: IsSet(s)) && Possible(msgs[0], os[0])
    requires data == if os[0].converted then [Direct(defs, ClockOf(msgs[0]), FlowSets(msgs[0]))] else []
    requires var d := DefineSets(defs, FlowSets(msgs[0])[..os[0].read]);
             ValidDefs(d) && rest == Expected(d, msgs[1..], os[1..])
    ensures Expected(defs, msgs, os) == data + rest
  {
    hide IsSet, ValidDefs, SetsOf, Direct, DefineSets;
  }

  /** Numbers count on from what the first message carried. */
  lemma NumbersFront(data: seq<seq<RecvData>>, rest: seq<seq<RecvData>>, outs: seq<seq<byte>>, first: seq<seq<byte>>, sent: nat)
    requires |first| == |data| <= 1 && |outs| == |rest|
    requires data != [] ==> Numbered(first[0], data[0], sent)
    requires forall k | 0 <= k < |outs| :: Numbered(outs[k], rest[k], sent + Total(data) + Total(rest[..k]))
    ensures forall k | 0 <= k < |first + outs| :: Numbered((first + outs)[k], (data + rest)[k], sent + Total((data + rest)[..k]))
  {
    hide Numbered, Total;
    TotalNone();
    if data == [] {
      assert first + outs == outs && data + rest == rest;
      assert forall k | 0 <= k < |outs| :: sent + Total(data) + Total(rest[..k]) == sent + Total(rest[..k]);
    } else {
      var all, ds := first + outs, data + rest;
      forall k | 0 <= k < |all| ensures Numbered(all[k], ds[k], sent + Total(ds[..k])) {
        if k == 0 {
          assert all[0] == first[0] && ds[0] == data[0] && ds[..0] == [];
        } else {
          assert all[k] == outs[k - 1] && ds[k] == rest[k - 1] && ds[..k] == data + rest[..k - 1];
          assert Numbered(outs[k - 1], rest[k - 1], sent + Total(data) + Total(rest[..k - 1]));
          TotalFront(data, rest[..k - 1]);
        }
      }
    }
  }

  lemma TotalNone()
    ensures Total([]) == 0
  {
  }

  lemma TotalFront(a: seq<seq<RecvData>>, b: seq<seq<RecvData>>)
    requires |a| <= 1
    ensures Total(a + b) == Total(a) + Total(b)
  {
    if a == [] {
      assert a + b == b;
    } else {
      assert (a + b)[1..] == b && a[1..] == [];
    }
  }

  // ---------------------------------------------------------------- the tracker of the parser

  /** The emitted messages as the parser counts them, all of them parsed. */
  function Arriving(ds: seq<seq<RecvData>>, sent: nat): (ms: seq<SeqTrack.Msg>)
    ensures |ms| == |ds|
  {
    if ds == [] then []
    else [SeqTrack.Msg(sent, CountData(ds[0]), true)] + Arriving(ds[1..], sent + CountData(ds[0]))
  }

  lemma {:induction false} ExpectsTotal(ds: seq<seq<RecvData>>, sent: nat, k: nat)
    requires k <= |ds|
    ensures SeqTrack.ExpectAll(sent % U32_SIZE, true, Arriving(ds, sent)[..k]) == (sent + Total(ds[..k])) % U32_SIZE
    decreases k
  {
    hide CountData;
    if k == 0 {
      assert ds[..0] == [] && Arriving(ds, sent)[..0] == [];
    } else {
      var n := CountData(ds[0]);
      ExpectsTotal(ds[1..], sent + n, k - 1);
      assert ds[..k][0] == ds[0] && ds[..k][1..] == ds[1..][..k - 1];
      var ms := Arriving(ds, sent);
      assert ms[..k][0] == ms[0] && ms[..k][1..] == Arriving(ds[1..], sent + n)[..k - 1];
      Add32(sent, n);
    }
  }

  /** Over every run the number of each emitted message is the one that the parser expects after those before. */
  lemma ParserExpects(st: State, msgs: seq<seq<byte>>, sent: nat, k: nat)
    requires st.Valid() && st.ipxSeqNext == sent % U32_SIZE && k < |Run(st, msgs)|
    ensures ValidDefs(DefsOf(st.tbl)) && AllPossible(msgs, Outcomes(st, msgs))
    ensures var outs, e := Run(st, msgs), Expected(DefsOf(st.tbl), msgs, Outcomes(st, msgs));
            && |e| == |outs| && |outs[k]| >= IPX_HDR_LEN
            && Get32(outs[k], 8) == SeqTrack.ExpectAll(sent % U32_SIZE, true, Arriving(e, sent)[..k])
  {
    hide Coherent, ValidDefs, DefsOf, AllPossible, Run, Outcomes, Expected, Total;
    RunNumbered(st, msgs, sent);
    var e := Expected(DefsOf(st.tbl), msgs, Outcomes(st, msgs));
    assert Numbered(Run(st, msgs)[k], e[k], sent + Total(e[..k]));
    ExpectsTotal(e, sent, k);
  }

  // ---------------------------------------------------------------- exactly when a collector can read a run

  function Joined(ds: seq<seq<RecvData>>): seq<RecvData> {
    if ds == [] then [] else ds[0] + Joined(ds[1..])
  }

  /** A receiver that hears the converted messages alone can read them, though rejected ones define templates too. */
  predicate ReadableRun(rt: RecvTable, defs: Defs, msgs: seq<seq<byte>>, os: seq<Outcome>)
    requires ValidDefs(defs) && AllPossible(msgs, os)
    decreases |msgs|
  {
    hide IsSet, ValidDefs, SetsOf;
    msgs != [] ==>
      var sets := FlowSets(msgs[0]);
      assert Possible(msgs[0], os[0]);
      FlowSetsAreSets(msgs[0]);
      DefineSetsValid(defs, sets[..os[0].read]);
      assert AllPossible(msgs[1..], os[1..]) by { TailPossible(msgs, os); }
      && (os[0].converted ==> Readable(rt, defs, sets))
      && ReadableRun(if os[0].converted then HearSets(rt, sets) else rt, DefineSets(defs, sets[..os[0].read]), msgs[1..], os[1..])
  }

  /**
   * Whole runs: the strict collector, which checks every number against the records it has read, accepts
   * all messages and recovers exactly the expected records, each with its template, if and only if it has
   * heard every definition that was in force.
   */
  lemma {:induction false} RunFaithful(st: State, rt: RecvTable, msgs: seq<seq<byte>>, sent: nat)
    requires st.Valid() && st.ipxSeqNext == sent % U32_SIZE && forall m | m in msgs :: EmittableMsg(m)
    ensures ValidDefs(DefsOf(st.tbl)) && AllPossible(msgs, Outcomes(st, msgs))
    ensures Collect(rt, sent, Run(st, msgs)) == Some(Joined(Expected(DefsOf(st.tbl), msgs, Outcomes(st, msgs))))
            <==> ReadableRun(rt, DefsOf(st.tbl), msgs, Outcomes(st, msgs))
    decreases |msgs|
  {
    hide Coherent, ValidDefs, DefsOf, ConvMsg, FlowSets, DefineSets, OutcomeOf;
    hide Possible, Direct, Expected, ReadableRun, Collect, EmittableMsg, Joined;
    CoherentDefs(st.tbl);
    if msgs == [] {
      NothingCollected(rt, DefsOf(st.tbl), sent);
    } else {
      var m, r, os := msgs[0], ConvMsg(st, msgs[0]), Outcomes(st, msgs);
      MessageDefines(st, m);
      assert EmittableMsg(m);
      var data := RunStep(st, m, sent);
      var rt' := if os[0].converted then HearSets(rt, FlowSets(m)) else rt;
      RunFaithful(r.0, rt', msgs[1..], sent + Total(data));
      FrontPossible(msgs, os);
      var rest, outs := Expected(DefsOf(r.0.tbl), msgs[1..], os[1..]), Run(r.0, msgs[1..]);
      ExpectFront(DefsOf(st.tbl), msgs, os, data, rest);
      ReadableFront(rt, DefsOf(st.tbl), msgs, os);
      assert Run(st, msgs) == (if r.1.Done? then [r.1.msg] else []) + outs;
      hide Run, Outcomes, AllPossible, Readable, HearSets, FlowSets;
      if r.1.Done? {
        OneCollected(st, rt, m, sent);
        CollectFront(rt, sent, r.1.msg, outs, data[0], rt', rest);
        assert data == [data[0]];
      } else {
        assert [] + rest == rest && [] + outs == outs;
        TotalNone();
      }
    }
  }

  lemma NothingCollected(rt: RecvTable, defs: Defs, sent: nat)
    requires ValidDefs(defs)
    ensures Collect(rt, sent, []) == Some(Joined(Expected(defs, [], []))) && ReadableRun(rt, defs, [], [])
  {
  }

  lemma ReadableFront(rt: RecvTable, defs: Defs, msgs: seq<seq<byte>>, os: seq<Outcome>)
    requires ValidDefs(defs) && AllPossible(msgs, os) && msgs != [] && AllPossible(msgs[1..], os[1..])
    requires (forall s | s in FlowSets(msgs[0]) :: IsSet(s)) && Possible(msgs[0], os[0])
    requires ValidDefs(DefineSets(defs, FlowSets(msgs[0])[..os[0].read]))
    ensures var sets := FlowSets(msgs[0]);
            ReadableRun(rt, defs, msgs, os) <==>
              && (os[0].converted ==> Readable(rt, defs, sets))
              && ReadableRun(if os[0].converted then HearSets(rt, sets) else rt, DefineSets(defs, sets[..os[0].read]), msgs[1..], os[1..])
  {
    hide IsSet, ValidDefs, SetsOf, DefineSets, Readable, HearSets;
  }

  /** One converted message passes the checks of the collector, with any templates. */
  lemma OneCollected(st: State, rt: RecvTable, msg: seq<byte>, sent: nat)
    requires st.Valid() && EmittableMsg(msg) && ConvMsg(st, msg).1.Done? && st.ipxSeqNext == sent % U32_SIZE
    ensures |msg| >= MSG_HDR_LEN && (forall s | s in FlowSets(msg) :: IsSet(s)) && ValidDefs(DefsOf(st.tbl))
    ensures ReadAs(CollectOne(rt, sent, ConvMsg(st, msg).1.msg), rt, DefsOf(st.tbl), ClockOf(msg), FlowSets(msg))
  {
    hide IsTrec, IsSet, EmittableMsg, ConvMsg, Direct, Encs, SetsOf, Receive, ReadAs, ValidDefs, CountData, DefsOf, ConvBody, FlowSets, Coherent;
    MessageWellFormed(st, msg);
    MessageFaithful(st, rt, msg);
  }

  /** The collector goes on with what it has learned; it gets what it should only if it got that here. */
  lemma CollectFront(rt: RecvTable, sent: nat, m: seq<byte>, ms: seq<seq<byte>>, d: seq<RecvData>, rt': RecvTable, rest: seq<seq<RecvData>>)
    requires var got := CollectOne(rt, sent, m); got.Some? ==> got.value.0 == rt' && |got.value.1| == |d|
    ensures var got := CollectOne(rt, sent, m);
            Collect(rt, sent, [m] + ms) == Some(Joined([d] + rest))
            <==> got.Some? && got.value.1 == d && Collect(rt', sent + Total([d]), ms) == Some(Joined(rest))
  {
    hide CollectOne, CountData;
    assert ([m] + ms)[1..] == ms && ([d] + rest)[1..] == rest && [d][1..] == [];
    assert Total([d]) == CountData(d) + Total([]);
    var got := CollectOne(rt, sent, m);
    if got.Some? {
      var after := Collect(got.value.0, sent + CountData(got.value.1), ms);
      if after.Some? {
        SameParts(got.value.1, after.value, d, Joined(rest));
      }
    }
  }

  lemma SameParts<T>(a: seq<T>, s: seq<T>, b: seq<T>, t: seq<T>)
    requires |a| == |b|
    ensures a + s == b + t <==> a == b && s == t
  {
    assert (a + s)[..|a|] == a && (a + s)[|a|..] == s && (b + t)[..|b|] == b && (b + t)[|b|..] == t;
  }

  // ---------------------------------------------------------------- when that is so

  /** The receiver holds the translation of every definition that is not refused. */
  predicate Agree(rt: RecvTable, defs: Defs)
    requires ValidDefs(defs)
  {
    forall id | id in defs && !defs[id].Refused() :: id in rt && rt[id] == defs[id].Translation()
  }

  /** Template records keep the two sides agreeing. */
  lemma {:induction false} DefineAgrees(rt: RecvTable, defs: Defs, ty: u16, raws: seq<seq<byte>>)
    requires (ty == SET_TMPLT || ty == SET_OPTS_TMPLT) && forall r | r in raws :: IsTmplt(ty, r)
    requires ValidDefs(defs) && Agree(rt, defs)
    ensures ValidDefs(Define(defs, ty, raws)) && Agree(Learn(rt, Translations(ty, raws)), Define(defs, ty, raws))
    decreases |raws|
  {
    hide RecError, Def.Refused, Def.Translation;
    if raws != [] {
      assert IsTmplt(ty, raws[0]);
      var d, id := Def(ty, raws[0]), Get16(raws[0], 0);
      var ts := Translations(ty, raws[1..]);
      assert ValidDefs(defs[id := d]);
      if d.Refused() {
        DefineAgrees(rt, defs[id := d], ty, raws[1..]);
        assert [] + ts == ts;
      } else {
        TidKept(d);
        DefineAgrees(rt[id := d.Translation()], defs[id := d], ty, raws[1..]);
        assert ([d.Translation()] + ts)[1..] == ts;
      }
    }
  }

  lemma TidKept(d: Def)
    requires d.Valid() && !d.Refused()
    ensures d.Translation().tid == Get16(d.raw, 0)
  {
  }

  /** Who agrees can read the message, and agrees afterwards. */
  lemma {:induction false} AgreeReads(rt: RecvTable, defs: Defs, sets: seq<seq<byte>>)
    requires ValidDefs(defs) && Agree(rt, defs) && forall s | s in sets :: IsSet(s)
    ensures Readable(rt, defs, sets)
    ensures ValidDefs(DefineSets(defs, sets)) && Agree(HearSets(rt, sets), DefineSets(defs, sets))
    decreases |sets|
  {
    hide IsTmplt, ValidDefs, Def.Refused, Def.Translation, Define, Translations, TsetOf, Learn;
    if sets != [] {
      assert IsSet(sets[0]);
      var s, id := sets[0], Get16(sets[0], 0);
      TsetTmplts(s);
      DefineSetValid(defs, s);
      if id <= SET_OPTS_TMPLT {
        DefineAgrees(rt, defs, id, TsetOf(id, s).items);
      }
      Agreed(rt, defs, id);
      hide Agree;
      AgreeReads(Hear(rt, s), DefineSet(defs, s), sets[1..]);
    }
  }

  lemma Agreed(rt: RecvTable, defs: Defs, id: u16)
    requires ValidDefs(defs) && Agree(rt, defs)
    ensures id in defs && !defs[id].Refused() ==> id in rt && rt[id] == defs[id].Translation()
  {
  }

  /** No rejected message changes a definition. */
  predicate RejectsClean(defs: Defs, msgs: seq<seq<byte>>, os: seq<Outcome>)
    requires ValidDefs(defs) && AllPossible(msgs, os)
    decreases |msgs|
  {
    hide IsSet, ValidDefs, SetsOf;
    msgs != [] ==>
      var sets := FlowSets(msgs[0]);
      assert Possible(msgs[0], os[0]);
      FlowSetsAreSets(msgs[0]);
      DefineSetsValid(defs, sets[..os[0].read]);
      assert AllPossible(msgs[1..], os[1..]) by { TailPossible(msgs, os); }
      var after := DefineSets(defs, sets[..os[0].read]);
      && (!os[0].converted ==> after == defs)
      && RejectsClean(after, msgs[1..], os[1..])
  }

  /** A receiver that agrees at the start can read every run in which rejected messages change no definition. */
  lemma {:induction false} CleanReadable(rt: RecvTable, defs: Defs, msgs: seq<seq<byte>>, os: seq<Outcome>)
    requires ValidDefs(defs) && AllPossible(msgs, os) && Agree(rt, defs) && RejectsClean(defs, msgs, os)
    ensures ReadableRun(rt, defs, msgs, os)
    decreases |msgs|
  {
    hide IsSet, ValidDefs, SetsOf, Agree, DefineSets, HearSets, Readable;
    if msgs != [] {
      var sets := FlowSets(msgs[0]);
      assert Possible(msgs[0], os[0]);
      FlowSetsAreSets(msgs[0]);
      DefineSetsValid(defs, sets[..os[0].read]);
      TailPossible(msgs, os);
      var after := DefineSets(defs, sets[..os[0].read]);
      if os[0].converted {
        assert sets[..os[0].read] == sets;
        AgreeReads(rt, defs, sets);
        CleanReadable(HearSets(rt, sets), after, msgs[1..], os[1..]);
      } else {
        CleanReadable(rt, after, msgs[1..], os[1..]);
      }
    }
  }

  predicate NoTemplates(sets: seq<seq<byte>>) {
    forall s | s in sets :: IsSet(s) && Get16(s, 0) > SET_OPTS_TMPLT
  }

  lemma {:induction false} NothingDefined(defs: Defs, sets: seq<seq<byte>>)
    requires NoTemplates(sets) && forall s | s in sets :: IsSet(s)
    ensures DefineSets(defs, sets) == defs
    decreases |sets|
  {
    if sets != [] {
      assert sets[0] in sets;
      NothingDefined(defs, sets[1..]);
    }
  }

  /** So it is when rejected messages have no Template FlowSet in front of what is wrong with them. */
  lemma {:induction false} CleanWithoutTemplates(defs: Defs, msgs: seq<seq<byte>>, os: seq<Outcome>)
    requires ValidDefs(defs) && AllPossible(msgs, os)
    requires forall k | 0 <= k < |msgs| :: os[k].converted || NoTemplates(FlowSets(msgs[k])[..os[k].read])
    ensures RejectsClean(defs, msgs, os)
    decreases |msgs|
  {
    hide IsSet, ValidDefs, SetsOf, DefineSets, NoTemplates;
    if msgs != [] {
      var read := FlowSets(msgs[0])[..os[0].read];
      FlowSetsAreSets(msgs[0]);
      DefineSetsValid(defs, read);
      TailPossible(msgs, os);
      CleanWithoutTemplates(DefineSets(defs, read), msgs[1..], os[1..]);
      if !os[0].converted {
        NothingDefined(defs, read);
      }
    }
  }
}
