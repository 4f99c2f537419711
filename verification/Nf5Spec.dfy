/**
 * What converting a NetFlow v5 stream means (netflow5.c): a fixed template with a refresh timer, and
 * records of 48 bytes extended to 60.
 */
module Nf5Spec {
  import opened Bytes
  import opened Nf9Parsers
  import opened Nf9Templates
  import opened Nf9Trec
  import opened Nf9Spec
  import opened Nf9Theorems

  const NF5_VERSION := 5
  const NF5_HDR_LEN := 24
  const NF5_REC_LEN := 48
  const DREC_SIZE := 60
  const TSET_SIZE := 96
  const TMPLT_ID := 256

  const FIELD_CNT := 22

  /** The fields of the predefined template. */
  function SpecAt(k: nat): Spec
    requires k < FIELD_CNT
  {
    match k
    case 0 => Spec(8, None, 4)
    case 1 => Spec(12, None, 4)
    case 2 => Spec(15, None, 4)
    case 3 => Spec(10, None, 2)
    case 4 => Spec(14, None, 2)
    case 5 => Spec(2, None, 4)
    case 6 => Spec(1, None, 4)
    case 7 => Spec(152, None, 8)
    case 8 => Spec(153, None, 8)
    case 9 => Spec(7, None, 2)
    case 10 => Spec(11, None, 2)
    case 11 => Spec(210, None, 1)
    case 12 => Spec(6, None, 1)
    case 13 => Spec(4, None, 1)
    case 14 => Spec(5, None, 1)
    case 15 => Spec(16, None, 2)
    case 16 => Spec(17, None, 2)
    case 17 => Spec(9, None, 1)
    case 18 => Spec(13, None, 1)
    case 19 => Spec(35, None, 1)
    case 20 => Spec(210, None, 1)
    case _ => Spec(34, None, 4)
  }

  function Specs5(): (ss: seq<Spec>)
    ensures |ss| == FIELD_CNT
  {
    seq(FIELD_CNT, k requires 0 <= k < FIELD_CNT => SpecAt(k))
  }

  /** Where field `k` of the new record begins. */
  function Offset(k: nat): nat
    requires k <= FIELD_CNT
  {
    match k
    case 0 => 0
    case 1 => 4
    case 2 => 8
    case 3 => 12
    case 4 => 14
    case 5 => 16
    case 6 => 20
    case 7 => 24
    case 8 => 32
    case 9 => 40
    case 10 => 42
    case 11 => 44
    case 12 => 45
    case 13 => 46
    case 14 => 47
    case 15 => 48
    case 16 => 50
    case 17 => 52
    case 18 => 53
    case 19 => 54
    case 20 => 55
    case 21 => 56
    case _ => 60
  }

  lemma {:induction false} OffsetIs(k: nat)
    requires k <= FIELD_CNT
    ensures SumSpec(Specs5()[..k]) == Offset(k)
    ensures k < FIELD_CNT ==> Offset(k + 1) == Offset(k) + SpecAt(k).len
  {
    if k > 0 {
      OffsetIs(k - 1);
      assert Specs5()[..k][..k - 1] == Specs5()[..k - 1];
      assert Specs5()[..k][k - 1] == SpecAt(k - 1);
    }
  }

  /** The Template Set in network byte order. */
  function TmpltSet5(): seq<byte> {
    Put16(2) + Put16(TSET_SIZE) + (Put16(TMPLT_ID) + Put16(FIELD_CNT) + EncSpecs(Specs5()))
  }

  /** The emitted set holds one template: ID 256, 22 fields, 60 bytes a record. */
  lemma TsetDecodes()
    ensures IsSet(TmpltSet5()) && |TmpltSet5()| == TSET_SIZE && Get16(TmpltSet5(), 0) == 2
    ensures DecTset(SET_TMPLT, TmpltSet5()[SET_HDR_LEN..]) == Some([IpxTmplt(TMPLT_ID, 0, Specs5())])
    ensures SumSpec(Specs5()) == DREC_SIZE
  {
    hide EncSpecs, DecTset, SumSpec;
    var tHdr, enc := Put16(TMPLT_ID) + Put16(FIELD_CNT), EncSpecs(Specs5());
    assert Specs5()[..FIELD_CNT] == Specs5();
    OffsetIs(FIELD_CNT);
    PlainSpecsSize(Specs5());
    DecodeOne(tHdr, enc);
    hide Specs5, SpecAt;
    SetOf(2, tHdr + enc);
  }

  /** A set header in front of its content. */
  lemma SetOf(id: u16, content: seq<byte>)
    requires SET_HDR_LEN + |content| < U16_SIZE
    ensures var s := Put16(id) + Put16(SET_HDR_LEN + |content|) + content;
            IsSet(s) && Get16(s, 0) == id && s[SET_HDR_LEN..] == content
  {
  }

  lemma {:induction false} PlainSpecsSize(ss: seq<Spec>)
    requires forall i | 0 <= i < |ss| :: ss[i].en == None
    ensures |EncSpecs(ss)| == 4 * |ss|
  {
    if ss != [] { PlainSpecsSize(ss[..|ss| - 1]); }
  }

  lemma DecodeOne(hdr: seq<byte>, enc: seq<byte>)
    requires hdr == Put16(TMPLT_ID) + Put16(FIELD_CNT) && enc == EncSpecs(Specs5())
    ensures DecTset(SET_TMPLT, hdr + enc) == Some([IpxTmplt(TMPLT_ID, 0, Specs5())])
  {
    hide EncSpecs, DecTmplt;
    DecHdrSpecs(SET_TMPLT, hdr, Specs5(), [], 0);
    assert hdr + enc + [] == hdr + enc;
    assert DecTset(SET_TMPLT, []) == Some([]);
    assert [IpxTmplt(TMPLT_ID, 0, Specs5())] + [] == [IpxTmplt(TMPLT_ID, 0, Specs5())];
  }

  // ---------------------------------------------------------------- records

  /** Absolute time in milliseconds, in 64-bit unsigned arithmetic; the nanoseconds may be out of range. */
  function ExportTime(msg: seq<byte>): u64
    requires |msg| >= NF5_HDR_LEN
  {
    Get32(msg, 8) * 1000 + Get32(msg, 12) / 1_000_000
  }

  function Ts5(msg: seq<byte>, ts: u32): u64
    requires |msg| >= NF5_HDR_LEN
  {
    (ExportTime(msg) - (Get32(msg, 4) - ts) % U64_SIZE) % U64_SIZE
  }

  /** The conversion keeps durations, whatever the header says. */
  lemma DurationKept(msg: seq<byte>, first: u32, last: u32)
    requires |msg| >= NF5_HDR_LEN
    ensures (Ts5(msg, last) - Ts5(msg, first)) % U64_SIZE == (last - first) % U64_SIZE
    ensures Ts5(msg, first) == (ExportTime(msg) - Get32(msg, 4) + first) % U64_SIZE
  {
    var e, u := ExportTime(msg), Get32(msg, 4);
    hide ExportTime;
    SubMod64(e, u - first);
    SubMod64(e, u - last);
    assert Ts5(msg, first) == (e - u + first) % U64_SIZE && Ts5(msg, last) == (e - u + last) % U64_SIZE;
    DiffMod64(e - u + last, e - u + first);
  }

  lemma SubMod64(a: int, b: int)
    ensures (a - b % U64_SIZE) % U64_SIZE == (a - b) % U64_SIZE
  {
    var q := b / U64_SIZE;
    assert a - b % U64_SIZE == a - b + q * U64_SIZE;
  }

  lemma DiffMod64(a: int, b: int)
    ensures (a % U64_SIZE - b % U64_SIZE) % U64_SIZE == (a - b) % U64_SIZE
  {
    var q := a / U64_SIZE - b / U64_SIZE;
    assert a - b == q * U64_SIZE + (a % U64_SIZE - b % U64_SIZE);
  }

  /** Mode (2 bits) and interval (14 bits) become the last three fields. */
  function Sampling(msg: seq<byte>): (r: seq<byte>)
    requires |msg| >= NF5_HDR_LEN
    ensures |r| == 6
  {
    var s := Get16(msg, 22);
    [s / 0x4000, 0] + Put32(s % 0x4000)
  }

  function Rec5(msg: seq<byte>, rec: seq<byte>): (r: seq<byte>)
    requires |msg| >= NF5_HDR_LEN && |rec| == NF5_REC_LEN
    ensures |r| == DREC_SIZE
  {
    rec[..24] + Put64(Ts5(msg, Get32(rec, 24))) + Put64(Ts5(msg, Get32(rec, 28))) + rec[32..46] + Sampling(msg)
  }

  /** Field `k` of a record under the emitted template; by OffsetIs it begins where the lengths before it add up to. */
  function FieldOf(r: seq<byte>, k: nat): seq<byte>
    requires |r| == DREC_SIZE && k < FIELD_CNT
  {
    r[Offset(k)..Offset(k) + SpecAt(k).len]
  }

  /** Read under the emitted template, a converted record gives the original fields. */
  lemma RecordDecodes(msg: seq<byte>, rec: seq<byte>, k: nat)
    requires |msg| >= NF5_HDR_LEN && |rec| == NF5_REC_LEN && k < FIELD_CNT
    ensures var f, o, len := FieldOf(Rec5(msg, rec), k), Offset(k), SpecAt(k).len as int;
            && (k < 7 ==> o + len <= 24 && f == rec[o..o + len])
            && (k == 7 ==> f == Put64(Ts5(msg, Get32(rec, 24))))
            && (k == 8 ==> f == Put64(Ts5(msg, Get32(rec, 28))))
            && (9 <= k < 19 ==> 40 <= o && o + len <= 54 && f == rec[o - 8..o - 8 + len])
            && (k == 19 ==> f == [Get16(msg, 22) / 0x4000])
            && (k == 20 ==> f == [0])
            && (k == 21 ==> f == Put32(Get16(msg, 22) % 0x4000))
  {
    hide Ts5, Put32, Put64;
    var r, o, len := Rec5(msg, rec), Offset(k), SpecAt(k).len;
    assert r[0..24] == rec[0..24] && r[40..54] == rec[32..46] && r[54..60] == Sampling(msg);
    if k < 7 {
      Within(r, 0, 24, o, o + len);
      Within(rec, 0, 24, o, o + len);
    } else if 9 <= k < 19 {
      Within(r, 40, 54, o, o + len);
      Within(rec, 32, 46, o - 8, o - 8 + len);
    } else if k >= 19 {
      Within(r, 54, 60, o, o + len);
    }
  }

  lemma Within(s: seq<byte>, a: nat, b: nat, x: nat, y: nat)
    requires a <= x <= y <= b <= |s|
    ensures s[x..y] == s[a..b][x - a..y - a]
  {
    var t := s[a..b][x - a..y - a];
    assert |t| == y - x;
    forall i | 0 <= i < y - x ensures t[i] == s[x..y][i] {
      assert t[i] == s[a..b][x - a + i] == s[x + i];
    }
  }

  // ---------------------------------------------------------------- messages

  datatype State5 = State5(nextNf: u32, nextIpx: u32, added: bool, nextRefresh: u32)

  predicate Understood5(msg: seq<byte>) {
    |msg| >= NF5_HDR_LEN && Get16(msg, 0) == NF5_VERSION
  }

  function Count5(msg: seq<byte>): u16
    requires |msg| >= NF5_HDR_LEN
  {
    Get16(msg, 2)
  }

  /** The message has the size that its header announces. */
  predicate Whole5(msg: seq<byte>) {
    |msg| >= NF5_HDR_LEN && |msg| == NF5_HDR_LEN + NF5_REC_LEN * Count5(msg)
  }

  /** The records of a message of the announced size. */
  function Recs5(msg: seq<byte>): (rs: seq<seq<byte>>)
    requires Whole5(msg)
    ensures |rs| == Count5(msg) && forall i | 0 <= i < |rs| :: |rs[i]| == NF5_REC_LEN
  {
    seq(Count5(msg), i requires 0 <= i < Count5(msg) => msg[NF5_HDR_LEN + NF5_REC_LEN * i..NF5_HDR_LEN + NF5_REC_LEN * (i + 1)])
  }

  function ConvRecs5(msg: seq<byte>): (rs: seq<seq<byte>>)
    requires Whole5(msg)
    ensures |rs| == Count5(msg) && forall i | 0 <= i < |rs| :: |rs[i]| == DREC_SIZE
  {
    seq(Count5(msg), i requires 0 <= i < Count5(msg) => Rec5(msg, Recs5(msg)[i]))
  }

  function NewSize(cnt: u16, tmplt: bool): nat {
    IPX_HDR_LEN + (if tmplt then TSET_SIZE else 0) + (if cnt > 0 then SET_HDR_LEN + cnt * DREC_SIZE else 0)
  }

  /** Serial time: not before. */
  predicate TimeReached(t: u32, limit: u32) {
    t == limit || SeqNewer(t, limit)
  }

  predicate AddsTset(st: State5, refresh: u32, msg: seq<byte>)
    requires |msg| >= NF5_HDR_LEN
  {
    !st.added || (refresh != 0 && TimeReached(Get32(msg, 8), st.nextRefresh))
  }

  function Dset5(msg: seq<byte>): seq<seq<byte>>
    requires Whole5(msg) && SET_HDR_LEN + Count5(msg) * DREC_SIZE < U16_SIZE
  {
    if Count5(msg) == 0 then []
    else [Put16(TMPLT_ID) + Put16(SET_HDR_LEN + Count5(msg) * DREC_SIZE) + Flat(ConvRecs5(msg))]
  }

  /** The sequence number of the first message of a stream, of which the template is not sent yet, starts both counters. */
  function Started(st: State5, msgSeq: u32): State5 {
    if st.added then st else st.(nextNf := msgSeq, nextIpx := msgSeq)
  }

  function Tracked(st: State5, msgSeq: u32, cnt: u16): State5 {
    if st.nextNf == msgSeq then st.(nextNf := (msgSeq + cnt) % U32_SIZE)
    else if SeqNewer(msgSeq, st.nextNf) then st.(nextNf := (msgSeq + cnt) % U32_SIZE)
    else st
  }

  function Sent5(st: State5, refresh: u32, msg: seq<byte>): State5
    requires |msg| >= NF5_HDR_LEN
  {
    var t := if AddsTset(st, refresh, msg) then st.(added := true, nextRefresh := (Get32(msg, 8) + refresh) % U32_SIZE) else st;
    t.(nextIpx := (st.nextIpx + Count5(msg)) % U32_SIZE)
  }

  function Header5(msg: seq<byte>, size: u16, odid: u32, seqNum: u32): seq<byte>
    requires |msg| >= NF5_HDR_LEN
  {
    Put16(IPX_VERSION) + Put16(size) + msg[8..12] + Put32(seqNum) + Put32(odid)
  }

  function Conv5(st: State5, refresh: u32, odid: u32, msg: seq<byte>): (State5, Result) {
    if !Understood5(msg) then (st, Failed)
    else
      var st1 := Tracked(Started(st, Get32(msg, 16)), Get32(msg, 16), Count5(msg));
      if !Whole5(msg) then (st1, Failed)
      else
        var tset := AddsTset(st1, refresh, msg);
        var size := NewSize(Count5(msg), tset);
        if size > 65535 then (st1, Failed)
        else
          (Sent5(st1, refresh, msg),
           Done(Header5(msg, size, odid, st1.nextIpx) + Flat(Sets5(st1, refresh, msg))))
  }

  function Sets5(st: State5, refresh: u32, msg: seq<byte>): seq<seq<byte>>
    requires Whole5(msg) && SET_HDR_LEN + Count5(msg) * DREC_SIZE < U16_SIZE
  {
    (if AddsTset(st, refresh, msg) then [TmpltSet5()] else []) + Dset5(msg)
  }
}
