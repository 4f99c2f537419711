/** What is in the bytes of a converted NetFlow v5 message, field by field at their places. */
module Nf5Bytes {
  import opened Bytes
  import opened Nf9Parsers
  import opened Nf9Templates
  import opened Nf9Spec
  import opened Nf5Spec
  import opened Nf5Theorems

  /**
   * A converted record. `t` is the time of export in milliseconds; the two timestamps, which count from the
   * start of the exporter, are moved by what it is ahead of the uptime in the header.
   */
  predicate RecordBytes(msg: seq<byte>, rec: seq<byte>, out: seq<byte>, t: nat)
    requires |msg| >= 24
  {
    && |rec| == 48 && |out| == 60
    && out[0..24] == rec[0..24] && out[40..54] == rec[32..46]
    && Get64(out, 24) == (t + Get32(rec, 24) - Get32(msg, 4)) % 0x1_0000_0000_0000_0000
    && Get64(out, 32) == (t + Get32(rec, 28) - Get32(msg, 4)) % 0x1_0000_0000_0000_0000
    && out[54] == Get16(msg, 22) / 16384 && out[55] == 0 && Get32(out, 56) == Get16(msg, 22) % 16384
  }

  /** The `i`-th of the records behind the header. */
  function RecordIn(msg: seq<byte>, i: nat): seq<byte>
    requires |msg| >= 24 + 48 * (i + 1)
  {
    msg[24 + 48 * i..24 + 48 * (i + 1)]
  }

  /** The `i`-th of `n` records at the end of a message. */
  function RecordOut(m: seq<byte>, n: nat, i: nat): seq<byte>
    requires i < n && |m| >= 60 * n
  {
    m[|m| - 60 * (n - i)..|m| - 60 * (n - i - 1)]
  }

  /** The time of export in milliseconds: seconds and nanoseconds of the header, the rest of a millisecond cut off. */
  predicate ExportedAt(msg: seq<byte>, t: nat)
    requires |msg| >= 24
  {
    1_000_000 * t <= Get32(msg, 8) * 1_000_000_000 + Get32(msg, 12) < 1_000_000 * (t + 1)
  }

  lemma ExportTimeIs(msg: seq<byte>)
    requires |msg| >= NF5_HDR_LEN
    ensures ExportedAt(msg, ExportTime(msg))
    ensures Get32(msg, 12) < 1_000_000_000 ==> ExportTime(msg) / 1000 == Get32(msg, 8)
  {
    assert ExportTime(msg) == Get32(msg, 8) * 1000 + Get32(msg, 12) / 1_000_000;
    hide ExportTime, Get32;
  }

  lemma TimestampIs(msg: seq<byte>, ts: u32)
    requires |msg| >= NF5_HDR_LEN
    ensures Ts5(msg, ts) == (ExportTime(msg) + ts - Get32(msg, 4)) % U64_SIZE
  {
    hide ExportTime;
    DurationKept(msg, ts, ts);
  }

  lemma Rec5Bytes(msg: seq<byte>, rec: seq<byte>)
    requires |msg| >= NF5_HDR_LEN && |rec| == NF5_REC_LEN
    ensures RecordBytes(msg, rec, Rec5(msg, rec), ExportTime(msg))
  {
    TimestampIs(msg, Get32(rec, 24));
    TimestampIs(msg, Get32(rec, 28));
    var a, b := Ts5(msg, Get32(rec, 24)), Ts5(msg, Get32(rec, 28));
    SamplingBytes(msg);
    assert Rec5(msg, rec) == rec[..24] + Put64(a) + Put64(b) + rec[32..46] + Sampling(msg);
    hide ExportTime, Ts5, Get16, Get32, Get64, Sampling, Rec5;
    Parts(rec[..24], a, b, rec[32..46], Sampling(msg));
  }

  lemma Parts(x: seq<byte>, a: u64, b: u64, y: seq<byte>, z: seq<byte>)
    requires |x| == 24 && |y| == 14 && |z| == 6
    ensures var out := x + Put64(a) + Put64(b) + y + z;
            && out[0..24] == x && out[40..54] == y && Get64(out, 24) == a && Get64(out, 32) == b
            && out[54] == z[0] && out[55] == z[1] && Get32(out, 56) == Get32(z, 2)
  {
    GetPut64(a);
    GetPut64(b);
    hide Put64;
    var out := x + Put64(a) + Put64(b) + y + z;
    assert out[24..32] == Put64(a) && out[32..40] == Put64(b) && out[54..60] == z;
    At64(out, 24);
    At64(out, 32);
    At32(out, 54, 60, 2);
  }

  lemma At64(s: seq<byte>, at: nat)
    requires at + 8 <= |s|
    ensures Get64(s, at) == Get64(s[at..at + 8], 0)
  {
  }

  lemma At32(s: seq<byte>, lo: nat, hi: nat, at: nat)
    requires lo <= hi <= |s| && lo + at + 4 <= hi
    ensures Get32(s[lo..hi], at) == Get32(s, lo + at)
    ensures s[lo..hi][0] == s[lo] && s[lo..hi][1] == s[lo + 1]
  {
  }

  lemma SamplingBytes(msg: seq<byte>)
    requires |msg| >= NF5_HDR_LEN
    ensures var r := Sampling(msg); r[0] == Get16(msg, 22) / 16384 && r[1] == 0 && Get32(r, 2) == Get16(msg, 22) % 16384
  {
    var v := Get16(msg, 22) % 0x4000;
    GetPut32(v, []);
    assert Put32(v) + [] == Put32(v);
    hide Put32;
    assert Sampling(msg)[2..6] == Put32(v);
    At32(Sampling(msg), 2, 6, 0);
  }

  lemma {:induction false} FlatAt(parts: seq<seq<byte>>, len: nat, i: nat)
    requires (forall k | 0 <= k < |parts| :: |parts[k]| == len) && i < |parts|
    ensures |Flat(parts)| == |parts| * len && i * len + len <= |parts| * len
    ensures Flat(parts)[i * len..i * len + len] == parts[i]
  {
    FlatSize(parts, len);
    FlatSize(parts[1..], len);
    ItemFits(|parts|, len, i);
    if i > 0 {
      FlatAt(parts[1..], len, i - 1);
      var f := Flat(parts[1..]);
      assert Flat(parts) == parts[0] + f;
      ItemFits(|parts| - 1, len, i - 1);
      assert i * len == len + (i - 1) * len;
      assert Flat(parts)[i * len..i * len + len] == f[(i - 1) * len..(i - 1) * len + len];
    }
  }

  lemma ItemFits(n: nat, len: nat, i: nat)
    requires i < n
    ensures i * len + len <= n * len
  {
    assert n * len == i * len + (n - i) * len;
    assert (n - i) * len == len + (n - i - 1) * len;
  }

  /** Exactly which messages are converted; with 1091 records there is no room for a template. */
  lemma Accepted5(st: State5, refresh: u32, odid: u32, msg: seq<byte>)
    ensures Conv5(st, refresh, odid, msg).1.Done? <==>
              && |msg| >= 24 && Get16(msg, 0) == 5 && |msg| == 24 + 48 * Get16(msg, 2)
              && (Get16(msg, 2) <= 1090 || (Get16(msg, 2) == 1091 && !AddsTset(Before5(st, msg), refresh, msg)))
  {
    hide Header5, Sets5, Flat, AddsTset;
  }

  lemma HeaderBytes5(msg: seq<byte>, size: u16, odid: u32, seqNum: u32, rest: seq<byte>)
    requires |msg| >= NF5_HDR_LEN
    ensures var m := Header5(msg, size, odid, seqNum) + rest;
            && |m| == 16 + |rest| && m[16..] == rest && Get16(m, 0) == 10 && Get16(m, 2) == size
            && Get32(m, 4) == Get32(msg, 8) && Get32(m, 8) == seqNum && Get32(m, 12) == odid
  {
    var m := Header5(msg, size, odid, seqNum) + rest;
    assert m[4..8] == msg[8..12] && m[8..12] == Put32(seqNum) && m[12..16] == Put32(odid);
    GetPut32(seqNum, []);
    GetPut32(odid, []);
    hide Put32;
    assert Put32(seqNum) + [] == Put32(seqNum) && Put32(odid) + [] == Put32(odid);
    At32(m, 4, 8, 0);
    At32(m, 8, 12, 0);
    At32(m, 12, 16, 0);
    At32(msg, 8, 12, 0);
  }

  /** The records are the last bytes of the sets. */
  lemma RecordsLast(st: State5, refresh: u32, msg: seq<byte>)
    requires Whole5(msg) && NewSize(Count5(msg), AddsTset(st, refresh, msg)) <= 65535
    ensures var b, size := Flat(Sets5(st, refresh, msg)), 60 * Count5(msg);
            && |b| >= size && b[|b| - size..] == Flat(ConvRecs5(msg))
            && 16 + |b| == NewSize(Count5(msg), AddsTset(st, refresh, msg))
  {
    hide TmpltSet5, ConvRecs5, AddsTset;
    SetsOfMessage(st, refresh, msg);
    FlatSize(ConvRecs5(msg), 60);
    var t := if AddsTset(st, refresh, msg) then [TmpltSet5()] else [];
    FlatAppend(t, Dset5(msg));
    if Count5(msg) > 0 {
      FlatOne(Dset5(msg)[0]);
      assert Dset5(msg) == [Dset5(msg)[0]];
      var d, recs := Dset5(msg)[0], Flat(ConvRecs5(msg));
      assert d[SET_HDR_LEN..] == recs && |d| == 4 + |recs|;
      Suffix(Flat(t), d, 4);
    }
  }

  lemma Suffix(a: seq<byte>, d: seq<byte>, k: nat)
    requires k <= |d|
    ensures (a + d)[|a| + k..] == d[k..]
  {
  }

  /** One record at its place from the end. */
  lemma RecordAt(msg: seq<byte>, m: seq<byte>, i: nat)
    requires Whole5(msg) && i < Count5(msg) && |m| >= 60 * Count5(msg) && m[|m| - 60 * Count5(msg)..] == Flat(ConvRecs5(msg))
    ensures RecordBytes(msg, RecordIn(msg, i), RecordOut(m, Count5(msg), i), ExportTime(msg))
  {
    InSlice(msg, i);
    FlatAt(ConvRecs5(msg), 60, i);
    Rec5Bytes(msg, RecordIn(msg, i));
    hide *;
    OutSlice(m, Count5(msg), i);
  }

  lemma InSlice(msg: seq<byte>, i: nat)
    requires Whole5(msg) && i < Count5(msg)
    ensures |msg| >= 24 + 48 * (i + 1) && |RecordIn(msg, i)| == 48 && ConvRecs5(msg)[i] == Rec5(msg, RecordIn(msg, i))
  {
    hide Rec5;
    assert Recs5(msg)[i] == RecordIn(msg, i);
  }

  lemma OutSlice(m: seq<byte>, n: nat, i: nat)
    requires i < n && |m| >= 60 * n
    ensures RecordOut(m, n, i) == m[|m| - 60 * n..][i * 60..i * 60 + 60]
  {
  }

  /**
   * All bytes of a converted message: the header with the time, domain and number, and at its end one
   * record of 60 bytes for each of 48.
   */
  lemma MessageBytes5(st: State5, refresh: u32, odid: u32, msg: seq<byte>) returns (t: nat)
    requires Conv5(st, refresh, odid, msg).1.Done?
    ensures |msg| >= 24 && |msg| == 24 + 48 * Get16(msg, 2) && ExportedAt(msg, t)
    ensures var m, n := Conv5(st, refresh, odid, msg).1.msg, Get16(msg, 2);
            && |m| >= 16 + 60 * n && Get16(m, 0) == 10 && Get16(m, 2) == |m|
            && Get32(m, 4) == Get32(msg, 8) && Get32(m, 12) == odid && (!st.added ==> Get32(m, 8) == Get32(msg, 16))
            && (Get32(msg, 12) < 1_000_000_000 ==> t / 1000 == Get32(m, 4))
            && forall i | 0 <= i < n :: RecordBytes(msg, RecordIn(msg, i), RecordOut(m, n, i), t)
  {
    t := ExportTime(msg);
    ExportTimeIs(msg);
    MessageParts5(st, refresh, odid, msg);
    hide *;
    forall i | 0 <= i < Get16(msg, 2)
      ensures RecordBytes(msg, RecordIn(msg, i), RecordOut(Conv5(st, refresh, odid, msg).1.msg, Get16(msg, 2), i), t)
    {
      RecordAt(msg, Conv5(st, refresh, odid, msg).1.msg, i);
    }
  }

  lemma MessageParts5(st: State5, refresh: u32, odid: u32, msg: seq<byte>)
    requires Conv5(st, refresh, odid, msg).1.Done?
    ensures |msg| >= 24 && |msg| == 24 + 48 * Get16(msg, 2) && Whole5(msg) && Count5(msg) == Get16(msg, 2)
    ensures var m, n := Conv5(st, refresh, odid, msg).1.msg, Get16(msg, 2);
            && |m| >= 16 + 60 * n && Get16(m, 0) == 10 && Get16(m, 2) == |m|
            && Get32(m, 4) == Get32(msg, 8) && Get32(m, 12) == odid && (!st.added ==> Get32(m, 8) == Get32(msg, 16))
            && m[|m| - 60 * n..] == Flat(ConvRecs5(msg))
  {
    DoneShape(st, refresh, odid, msg);
    FirstNumber(st, msg);
    var st1 := Before5(st, msg);
    hide Conv5, Header5, Flat, AddsTset, Before5, Sets5, ConvRecs5;
    RecordsLast(st1, refresh, msg);
    var b, n := Flat(Sets5(st1, refresh, msg)), Get16(msg, 2);
    hide Get16, Get32;
    HeaderBytes5(msg, 16 + |b|, odid, st1.nextIpx, b);
    var m := Conv5(st, refresh, odid, msg).1.msg;
    assert m[|m| - 60 * n..] == m[16..][|b| - 60 * n..];
  }

  lemma FirstNumber(st: State5, msg: seq<byte>)
    requires |msg| >= NF5_HDR_LEN
    ensures !st.added ==> Before5(st, msg).nextIpx == Get32(msg, 16)
  {
  }

  /** A flow that began or ended when the message was exported has the time of export, and others keep their distance. */
  lemma SwitchTimes5(msg: seq<byte>, rec: seq<byte>, out: seq<byte>, t: nat)
    requires |msg| >= 24 && RecordBytes(msg, rec, out, t) && ExportedAt(msg, t)
    ensures Get32(rec, 24) == Get32(msg, 4) ==> Get64(out, 24) == t
    ensures Get32(rec, 28) == Get32(msg, 4) ==> Get64(out, 32) == t
    ensures (Get64(out, 24) + Get32(rec, 28) - Get32(rec, 24)) % 0x1_0000_0000_0000_0000 == Get64(out, 32)
  {
    hide Get16, Get32;
    SwitchArith(t, Get32(rec, 24), Get32(rec, 28), Get32(msg, 4));
  }

  lemma SwitchArith(t: u64, a: int, b: int, u: int)
    ensures a == u ==> (t + a - u) % U64_SIZE == t
    ensures b == u ==> (t + b - u) % U64_SIZE == t
    ensures ((t + a - u) % U64_SIZE + b - a) % U64_SIZE == (t + b - u) % U64_SIZE
  {
    AddMod(t + a - u, b - a);
  }

  lemma AddMod(a: int, b: int)
    ensures (a % U64_SIZE + b) % U64_SIZE == (a + b) % U64_SIZE
  {
    assert a + b == a / U64_SIZE * U64_SIZE + (a % U64_SIZE + b);
  }

  /** The refresh timer compares serial times: of two times less than 2^31 seconds apart, which one is not before the other. */
  lemma TimeReachedExact(time: nat, limit: nat)
    requires -0x8000_0000 < time - limit < 0x8000_0000
    ensures TimeReached(time % U32_SIZE, limit % U32_SIZE) <==> time >= limit
  {
    Diff32(time, limit);
  }

  /** The information elements of the template: addresses, next hop, interfaces, packets, bytes, first, last, ports and so on. */
  lemma Template5()
    ensures Specs5() == [
              Spec(8, None, 4), Spec(12, None, 4), Spec(15, None, 4), Spec(10, None, 2), Spec(14, None, 2), Spec(2, None, 4),
              Spec(1, None, 4), Spec(152, None, 8), Spec(153, None, 8), Spec(7, None, 2), Spec(11, None, 2), Spec(210, None, 1),
              Spec(6, None, 1), Spec(4, None, 1), Spec(5, None, 1), Spec(16, None, 2), Spec(17, None, 2), Spec(9, None, 1),
              Spec(13, None, 1), Spec(35, None, 1), Spec(210, None, 1), Spec(34, None, 4)]
  {
  }
}
