/** Runs of the NetFlow v5 converter: what the strict collector reads, and when the template is sent. */
module Nf5Theorems {
  import opened Bytes
  import opened Nf9Parsers
  import opened Nf9Templates
  import opened Nf9Trec
  import opened Nf9Spec
  import opened Nf9Theorems
  import opened Nf5Spec

  /** State in which the message itself is converted: counters started and sequence number checked. */
  function Before5(st: State5, msg: seq<byte>): State5
    requires |msg| >= NF5_HDR_LEN
  {
    Tracked(Started(st, Get32(msg, 16)), Get32(msg, 16), Count5(msg))
  }

  function Data5(msg: seq<byte>): seq<RecvData>
    requires Whole5(msg)
  {
    if Count5(msg) == 0 then [] else [RecvData(Tmplt5(), ConvRecs5(msg))]
  }

  function Tmplt5(): IpxTmplt {
    IpxTmplt(TMPLT_ID, 0, Specs5())
  }

  predicate Knows(rt: RecvTable) {
    TMPLT_ID in rt && rt[TMPLT_ID] == Tmplt5()
  }

  /** The sets of a message and their total length, which is what conv_new_size announces. */
  lemma SetsOfMessage(st: State5, refresh: u32, msg: seq<byte>)
    requires Whole5(msg) && NewSize(Count5(msg), AddsTset(st, refresh, msg)) <= 65535
    ensures var sets := Sets5(st, refresh, msg);
            && (forall s | s in sets :: IsSet(s))
            && IPX_HDR_LEN + |Flat(sets)| == NewSize(Count5(msg), AddsTset(st, refresh, msg))
    ensures |Dset5(msg)| == (if Count5(msg) == 0 then 0 else 1)
    ensures Count5(msg) > 0 ==> IsSet(Dset5(msg)[0]) && Get16(Dset5(msg)[0], 0) == TMPLT_ID
                                && Dset5(msg)[0][SET_HDR_LEN..] == Flat(ConvRecs5(msg))
  {
    hide TmpltSet5, Rec5, Specs5, EncSpecs;
    TsetDecodes();
    FlatSize(ConvRecs5(msg), DREC_SIZE);
    if Count5(msg) > 0 {
      SetOf(TMPLT_ID, Flat(ConvRecs5(msg)));
    }
    hide ConvRecs5;
    var t := if AddsTset(st, refresh, msg) then [TmpltSet5()] else [];
    FlatAppend(t, Dset5(msg));
    FlatOne(TmpltSet5());
    if Count5(msg) > 0 {
      FlatOne(Dset5(msg)[0]);
      assert Dset5(msg) == [Dset5(msg)[0]];
    }
    assert Flat([]) == [];
  }

  lemma FlatOne(s: seq<byte>)
    ensures Flat([s]) == s
  {
    assert [s][1..] == [] && s + [] == s;
  }

  /** What the receiver makes of the sets of a message. */
  lemma SetsReceived(st: State5, refresh: u32, msg: seq<byte>, rt: RecvTable)
    requires Whole5(msg) && NewSize(Count5(msg), AddsTset(st, refresh, msg)) <= 65535
    requires !AddsTset(st, refresh, msg) ==> Knows(rt)
    ensures forall s | s in Sets5(st, refresh, msg) :: IsSet(s)
    ensures var r := Receive(rt, Sets5(st, refresh, msg)); r.Some? && Knows(r.value.0) && r.value.1 == Data5(msg)
  {
    hide TmpltSet5, Rec5, Specs5, ConvRecs5, Flat, RecsOf, DecTset, SumSpec;
    SetsOfMessage(st, refresh, msg);
    TsetDecodes();
    var sets := Sets5(st, refresh, msg);
    var rt' := if AddsTset(st, refresh, msg) then rt[TMPLT_ID := Tmplt5()] else rt;
    DsetReceived5(msg, rt');
    if AddsTset(st, refresh, msg) {
      assert sets[0] == TmpltSet5() && sets[1..] == Dset5(msg);
      LearnOne(rt, Tmplt5());
      assert Receive(rt, sets) == Receive(rt', Dset5(msg));
    } else {
      assert sets == Dset5(msg);
    }
  }

  lemma LearnOne(rt: RecvTable, t: IpxTmplt)
    ensures Learn(rt, [t]) == rt[t.tid := t]
  {
    assert [t][1..] == [];
  }

  lemma DsetReceived5(msg: seq<byte>, rt: RecvTable)
    requires Whole5(msg) && SET_HDR_LEN + Count5(msg) * DREC_SIZE < U16_SIZE && Knows(rt)
    requires forall s | s in Dset5(msg) :: IsSet(s)
    requires Count5(msg) > 0 ==> Get16(Dset5(msg)[0], 0) == TMPLT_ID && Dset5(msg)[0][SET_HDR_LEN..] == Flat(ConvRecs5(msg))
    ensures Receive(rt, Dset5(msg)) == Some((rt, Data5(msg)))
  {
    hide Rec5, Specs5, ConvRecs5, Flat, RecsOf, DecTset, SumSpec;
    TsetDecodes();
    assert Receive(rt, []) == Some((rt, []));
    if Count5(msg) > 0 {
      RecsOfFlat(ConvRecs5(msg), DREC_SIZE);
      var sets := Dset5(msg);
      assert sets[1..] == [];
      assert [RecvData(Tmplt5(), ConvRecs5(msg))] + [] == Data5(msg);
    }
  }

  /** A converted message is accepted by the strict collector, which reads its records. */
  lemma OneCollected5(st: State5, refresh: u32, odid: u32, msg: seq<byte>, rt: RecvTable, sent: nat)
    requires Conv5(st, refresh, odid, msg).1.Done? && (st.added ==> Knows(rt))
    requires |msg| >= NF5_HDR_LEN && Before5(st, msg).nextIpx == sent % U32_SIZE
    ensures Whole5(msg)
    ensures var r := Conv5(st, refresh, odid, msg);
            var got := CollectOne(rt, sent, r.1.msg);
            && got.Some? && got.value.1 == Data5(msg) && Knows(got.value.0)
            && r.0.added && r.0.nextIpx == (sent + CountData(Data5(msg))) % U32_SIZE
    ensures var r, st1 := Conv5(st, refresh, odid, msg), Before5(st, msg);
            && |r.1.msg| == Get16(r.1.msg, 2) == NewSize(Count5(msg), AddsTset(st1, refresh, msg))
            && SetsOf(r.1.msg[IPX_HDR_LEN..]) == Walk(Sets5(st1, refresh, msg), None)
  {
    hide TmpltSet5, Rec5, ConvRecs5, Flat, Receive, Knows, Data5, CountData, SetsOf, IsSet, Conv5, Header5, Sets5, AddsTset;
    DoneShape(st, refresh, odid, msg);
    var st1 := Before5(st, msg);
    SetsOfMessage(st1, refresh, msg);
    if !AddsTset(st1, refresh, msg) {
      NothingYet(st, refresh, msg);
    }
    SetsReceived(st1, refresh, msg, rt);
    CountOf5(msg);
    Add32(sent, Count5(msg));
    hide Before5;
    var sets := Sets5(st1, refresh, msg);
    SetsComplete(sets);
    HeaderRead(msg, IPX_HDR_LEN + |Flat(sets)|, odid, st1.nextIpx, Flat(sets));
  }

  lemma NothingYet(st: State5, refresh: u32, msg: seq<byte>)
    requires |msg| >= NF5_HDR_LEN && !AddsTset(Before5(st, msg), refresh, msg)
    ensures st.added
  {
  }

  /** The parts of a successful conversion. */
  lemma DoneShape(st: State5, refresh: u32, odid: u32, msg: seq<byte>)
    requires Conv5(st, refresh, odid, msg).1.Done?
    ensures |msg| >= NF5_HDR_LEN && Whole5(msg)
    ensures var r, st1 := Conv5(st, refresh, odid, msg), Before5(st, msg);
            var tset := AddsTset(st1, refresh, msg);
            && NewSize(Count5(msg), tset) <= 65535
            && r.1.msg == Header5(msg, NewSize(Count5(msg), tset), odid, st1.nextIpx) + Flat(Sets5(st1, refresh, msg))
            && r.0 == Sent5(st1, refresh, msg) && r.0.added && r.0.nextIpx == (st1.nextIpx + Count5(msg)) % U32_SIZE
            && r.0.nextRefresh == (if tset then (Get32(msg, 8) + refresh) % U32_SIZE else st.nextRefresh)
            && st1.added == st.added && st1.nextRefresh == st.nextRefresh
  {
    hide Header5, Flat, Sets5, TimeReached, SeqNewer;
  }

  lemma CountOf5(msg: seq<byte>)
    requires Whole5(msg)
    ensures CountData(Data5(msg)) == Count5(msg)
  {
    hide Rec5;
    assert Count5(msg) > 0 ==> Data5(msg)[1..] == [];
  }

  lemma HeaderRead(msg: seq<byte>, size: u16, odid: u32, seqNum: u32, rest: seq<byte>)
    requires |msg| >= NF5_HDR_LEN && size == IPX_HDR_LEN + |rest|
    ensures var m := Header5(msg, size, odid, seqNum) + rest;
            && |m| == size && Get16(m, 0) == IPX_VERSION && Get16(m, 2) == size && Get32(m, 8) == seqNum && m[IPX_HDR_LEN..] == rest
            && m[4..8] == msg[8..12]
  {
    var m := Header5(msg, size, odid, seqNum) + rest;
    assert m[8..12] == Put32(seqNum);
    assert Put32(seqNum) + [] == Put32(seqNum);
    GetPut32(seqNum, []);
    assert Get32(m, 8) == Get32(m[8..12], 0);
  }

  // ---------------------------------------------------------------- runs

  /** Emitted messages, and the NetFlow messages they were made from. */
  function Run5(st: State5, refresh: u32, odid: u32, msgs: seq<seq<byte>>): (r: (seq<seq<byte>>, seq<seq<byte>>))
    ensures |r.0| == |r.1| && forall m | m in r.1 :: Whole5(m)
    decreases |msgs|
  {
    if msgs == [] then ([], [])
    else
      var r := Conv5(st, refresh, odid, msgs[0]);
      var rest := Run5(r.0, refresh, odid, msgs[1..]);
      match r.1
      case Failed => rest
      case Done(m) => ([m] + rest.0, [msgs[0]] + rest.1)
  }

  function AllData5(msgs: seq<seq<byte>>): seq<RecvData>
    requires forall m | m in msgs :: Whole5(m)
  {
    if msgs == [] then [] else
      assert Whole5(msgs[0]);
      Data5(msgs[0]) + AllData5(msgs[1..])
  }

  /** Number from which the stream counts: kept, or that of the first accepted message. */
  function StartOf(st: State5, accepted: seq<seq<byte>>, sent: nat): nat
    requires forall m | m in accepted :: Whole5(m)
  {
    if st.added || accepted == [] then sent
    else
      assert Whole5(accepted[0]);
      Get32(accepted[0], 16)
  }

  /**
   * Over every run the collector reads all converted records: the first message brings the template,
   * and sequence numbers are the first accepted one plus the records sent since, modulo 2^32.
   */
  lemma {:induction false} RunFaithful5(st: State5, refresh: u32, odid: u32, msgs: seq<seq<byte>>, rt: RecvTable, sent: nat)
    requires st.added ==> Knows(rt) && st.nextIpx == sent % U32_SIZE
    ensures var r := Run5(st, refresh, odid, msgs);
            Collect(rt, StartOf(st, r.1, sent), r.0) == Some(AllData5(r.1))
    decreases |msgs|
  {
    hide Knows, Whole5, Data5, CollectOne, CountData, Conv5;
    if msgs != [] {
      var m, r := msgs[0], Conv5(st, refresh, odid, msgs[0]);
      var rest := Run5(r.0, refresh, odid, msgs[1..]);
      if r.1.Done? {
        StartedFrom(st, refresh, odid, m, sent);
        var start := if st.added then sent else Get32(m, 16);
        OneCollected5(st, refresh, odid, m, rt, start);
        var got := CollectOne(rt, start, r.1.msg).value;
        RunFaithful5(r.0, refresh, odid, msgs[1..], got.0, start + CountData(got.1));
        RunFront5(rt, start, r.1.msg, rest.0, m, rest.1);
      } else {
        FailedKeeps(st, refresh, odid, m);
        RunFaithful5(r.0, refresh, odid, msgs[1..], rt, sent);
      }
    }
  }

  lemma RunFront5(rt: RecvTable, sent: nat, o: seq<byte>, os: seq<seq<byte>>, m: seq<byte>, ms: seq<seq<byte>>)
    requires Whole5(m) && (forall x | x in ms :: Whole5(x)) && CollectOne(rt, sent, o).Some?
    requires var got := CollectOne(rt, sent, o).value;
             got.1 == Data5(m) && Collect(got.0, sent + CountData(got.1), os) == Some(AllData5(ms))
    ensures Collect(rt, sent, [o] + os) == Some(AllData5([m] + ms))
  {
    hide Whole5, Data5, CollectOne, CountData;
    assert ([o] + os)[1..] == os && ([m] + ms)[1..] == ms;
  }

  lemma StartedFrom(st: State5, refresh: u32, odid: u32, msg: seq<byte>, sent: nat)
    requires Conv5(st, refresh, odid, msg).1.Done? && (st.added ==> st.nextIpx == sent % U32_SIZE)
    ensures |msg| >= NF5_HDR_LEN && Whole5(msg) && Before5(st, msg).nextIpx == (if st.added then sent else Get32(msg, 16)) % U32_SIZE
  {
    hide Conv5, Whole5, Tracked, Get32, Get16;
    DoneShape(st, refresh, odid, msg);
    TrackedKeeps(Started(st, Get32(msg, 16)), Get32(msg, 16), Count5(msg));
    SmallMod(Get32(msg, 16));
  }

  lemma TrackedKeeps(st: State5, msgSeq: u32, cnt: u16)
    ensures Tracked(st, msgSeq, cnt).nextIpx == st.nextIpx
  {
  }

  lemma SmallMod(v: u32)
    ensures v % U32_SIZE == v
  {
  }

  /** A rejected message neither starts the stream nor moves its counter once it is started. */
  lemma FailedKeeps(st: State5, refresh: u32, odid: u32, msg: seq<byte>)
    requires Conv5(st, refresh, odid, msg).1.Failed?
    ensures var st' := Conv5(st, refresh, odid, msg).0;
            st'.added == st.added && st'.nextRefresh == st.nextRefresh && (st.added ==> st'.nextIpx == st.nextIpx)
  {
  }

  // ---------------------------------------------------------------- the refresh timer

  /** The message begins with a Template Set. */
  predicate HasTmplt(m: seq<byte>) {
    |m| >= IPX_HDR_LEN && SetsOf(m[IPX_HDR_LEN..]).items != []
    && |SetsOf(m[IPX_HDR_LEN..]).items[0]| >= SET_HDR_LEN && Get16(SetsOf(m[IPX_HDR_LEN..]).items[0], 0) == 2
  }

  /** When a template is due: at the start, and with refresh enabled once the serial time reaches the last one plus the interval. */
  predicate Due(refresh: u32, last: Option<u32>, time: u32) {
    last == None || (refresh != 0 && TimeReached(time, (last.value + refresh) % U32_SIZE))
  }

  predicate Refreshes(refresh: u32, last: Option<u32>, outs: seq<seq<byte>>, ins: seq<seq<byte>>)
    requires |outs| == |ins| && forall m | m in ins :: Whole5(m)
    decreases |ins|
  {
    ins != [] ==>
      assert Whole5(ins[0]);
      var time := Get32(ins[0], 8);
      && (HasTmplt(outs[0]) <==> Due(refresh, last, time))
      && Refreshes(refresh, if Due(refresh, last, time) then Some(time) else last, outs[1..], ins[1..])
  }

  /** Over every run the template is in exactly the messages in which it is due. */
  lemma {:induction false} RunRefreshes(st: State5, refresh: u32, odid: u32, msgs: seq<seq<byte>>, last: Option<u32>)
    requires st.added == last.Some? && (last.Some? ==> st.nextRefresh == (last.value + refresh) % U32_SIZE)
    ensures var r := Run5(st, refresh, odid, msgs); Refreshes(refresh, last, r.0, r.1)
    decreases |msgs|
  {
    hide Whole5, HasTmplt, Conv5;
    if msgs != [] {
      var m, r := msgs[0], Conv5(st, refresh, odid, msgs[0]);
      var rest := Run5(r.0, refresh, odid, msgs[1..]);
      if r.1.Done? {
        TmpltWhenDue(st, refresh, odid, m, last);
        var time := Get32(m, 8);
        RunRefreshes(r.0, refresh, odid, msgs[1..], if Due(refresh, last, time) then Some(time) else last);
        assert ([r.1.msg] + rest.0)[1..] == rest.0 && ([m] + rest.1)[1..] == rest.1;
      } else {
        FailedKeeps(st, refresh, odid, m);
        RunRefreshes(r.0, refresh, odid, msgs[1..], last);
      }
    }
  }

  lemma TmpltWhenDue(st: State5, refresh: u32, odid: u32, msg: seq<byte>, last: Option<u32>)
    requires st.added == last.Some? && (last.Some? ==> st.nextRefresh == (last.value + refresh) % U32_SIZE)
    requires Conv5(st, refresh, odid, msg).1.Done?
    ensures |msg| >= NF5_HDR_LEN && Whole5(msg)
    ensures var r, due := Conv5(st, refresh, odid, msg), Due(refresh, last, Get32(msg, 8));
            && (HasTmplt(r.1.msg) <==> due)
            && r.0.added && r.0.nextRefresh == ((if due then Get32(msg, 8) else last.value) + refresh) % U32_SIZE
  {
    hide HasTmplt, Conv5, TimeReached;
    DoneShape(st, refresh, odid, msg);
    TmpltSeen(st, refresh, odid, msg);
    hide Tracked;
  }

  lemma TmpltSeen(st: State5, refresh: u32, odid: u32, msg: seq<byte>)
    requires Conv5(st, refresh, odid, msg).1.Done?
    ensures |msg| >= NF5_HDR_LEN
    ensures HasTmplt(Conv5(st, refresh, odid, msg).1.msg) <==> AddsTset(Before5(st, msg), refresh, msg)
  {
    hide Conv5, AddsTset, Before5, Sets5, CollectOne, CountData, Data5, SetsOf, Whole5;
    DoneShape(st, refresh, odid, msg);
    var st1 := Before5(st, msg);
    OneCollected5(st, refresh, odid, msg, map[TMPLT_ID := Tmplt5()], st1.nextIpx);
    FirstIsTmplt(st1, refresh, msg);
  }

  lemma FirstIsTmplt(st: State5, refresh: u32, msg: seq<byte>)
    requires Whole5(msg) && NewSize(Count5(msg), AddsTset(st, refresh, msg)) <= 65535
    ensures var sets := Sets5(st, refresh, msg);
            (sets != [] && |sets[0]| >= SET_HDR_LEN && Get16(sets[0], 0) == 2) <==> AddsTset(st, refresh, msg)
  {
    hide TmpltSet5, Rec5, ConvRecs5, Flat;
    SetsOfMessage(st, refresh, msg);
    TsetDecodes();
  }
}
