/** The NetFlow v5 converter as it runs: prepared Template Set, buffer of the announced size, filled front to back. */
module Nf5Converter {
  import opened Bytes
  import opened Nf9Parsers
  import opened Nf9Templates
  import opened Nf9Spec
  import opened Nf5Spec
  import opened Nf5Theorems
  import Nf9Converter

  /** Copies bytes behind the first `at` ones. */
  method Put(dst: array<byte>, at: nat, src: seq<byte>) returns (end: nat)
    requires at + |src| <= dst.Length
    modifies dst
    ensures end == at + |src| && dst[..end] == old(dst[..at]) + src
  {
    for i := 0 to |src|
      invariant dst[..at + i] == old(dst[..at]) + src[..i]
    {
      dst[at + i] := src[i];
    }
    assert src[..|src|] == src;
    end := at + |src|;
  }

  class Converter5 {
    const refresh: u32
    const odid: u32
    const tsetData: seq<byte>
    const drecSize: nat
    var nextNf: u32
    var nextIpx: u32
    var added: bool
    var nextRefresh: u32

    ghost predicate Valid() {
      tsetData == TmpltSet5() && drecSize == DREC_SIZE
    }

    ghost function Abstract(): State5
      reads this
    {
      State5(nextNf, nextIpx, added, nextRefresh)
    }

    /** Prepares the Template Set and the size of a record from the table of fields. */
    constructor (refresh: u32, odid: u32)
      ensures Valid() && this.refresh == refresh && this.odid == odid && !added
    {
      var fields, size, cnt := Prepare();
      this.refresh, this.odid := refresh, odid;
      drecSize := size;
      tsetData := Put16(2) + Put16(8 + |fields|) + (Put16(TMPLT_ID) + Put16(cnt) + fields);
      nextNf, nextIpx, added, nextRefresh := 0, 0, false, 0;
    }

    /** The loop over the table of fields. */
    static method Prepare() returns (fields: seq<byte>, size: nat, cnt: u16)
      ensures fields == EncSpecs(Specs5()) && |fields| == 4 * FIELD_CNT && size == DREC_SIZE && cnt == FIELD_CNT
    {
      hide EncSpec, EncSpecs, SumSpec;
      fields, size, cnt := [], 0, 0;
      NoSpecs();
      ghost var ss := Specs5();
      assert ss[..0] == [];
      for i := 0 to FIELD_CNT
        invariant fields == EncSpecs(ss[..i]) && cnt == i && size == Offset(i)
      {
        var s := SpecAt(i);
        FieldBytes(i);
        OffsetIs(i);
        fields := fields + (Put16(s.id) + Put16(s.len));
        cnt, size := cnt + 1, size + s.len;
      }
      assert ss[..FIELD_CNT] == ss;
      PlainSpecsSize(ss);
    }

    /** The Data Set, unless there are no records. */
    method AddDset(msg: seq<byte>, ipx: array<byte>, at: nat) returns (end: nat)
      requires Valid() && Whole5(msg) && SET_HDR_LEN + Count5(msg) * DREC_SIZE < U16_SIZE
      requires ipx.Length - at == if Count5(msg) > 0 then SET_HDR_LEN + Count5(msg) * DREC_SIZE else 0
      modifies ipx
      ensures end == ipx.Length && ipx[..] == old(ipx[..at]) + Flat(Dset5(msg))
    {
      hide TmpltSet5, Ts5, Rec5, Put16, Put64, Sampling, Flat, Get16, Get32;
      ghost var before := ipx[..at];
      var cnt := Count5(msg);
      if cnt == 0 {
        FlatNone();
        assert before + [] == before;
        return at;
      }
      var hdr := Put16(TMPLT_ID) + Put16(SET_HDR_LEN + cnt * drecSize);
      var pos := Put(ipx, at, hdr);
      FlatNone();
      assert before + hdr + [] == before + hdr;
      ghost var recs := ConvRecs5(msg);
      assert recs[..0] == [];
      for i := 0 to cnt
        invariant pos == at + SET_HDR_LEN + i * DREC_SIZE
        invariant ipx[..pos] == before + hdr + Flat(recs[..i])
      {
        RoomLeft(i, cnt);
        var rec := msg[NF5_HDR_LEN + NF5_REC_LEN * i..NF5_HDR_LEN + NF5_REC_LEN * (i + 1)];
        pos := AddRecord(msg, rec, ipx, pos);
        FlatNext(before + hdr, recs, i);
      }
      assert recs[..cnt] == recs;
      FlatOne(hdr + Flat(recs));
      assert before + hdr + Flat(recs) == before + (hdr + Flat(recs));
      assert ipx[..ipx.Length] == ipx[..];
      end := pos;
    }

    /** One record: the first part, both timestamps, the second part and the sampling. */
    method AddRecord(msg: seq<byte>, rec: seq<byte>, ipx: array<byte>, at: nat) returns (end: nat)
      requires |msg| >= NF5_HDR_LEN && |rec| == NF5_REC_LEN && at + DREC_SIZE <= ipx.Length
      modifies ipx
      ensures end == at + DREC_SIZE && ipx[..end] == old(ipx[..at]) + Rec5(msg, rec)
    {
      hide Ts5, Put64, Sampling;
      end := Put(ipx, at, rec[..24]);
      end := Put(ipx, end, Put64(Ts5(msg, Get32(rec, 24))));
      end := Put(ipx, end, Put64(Ts5(msg, Get32(rec, 28))));
      end := Put(ipx, end, rec[32..46]);
      end := Put(ipx, end, Sampling(msg));
    }

    method TrackSequence(msgSeq: u32, cnt: u16)
      modifies this`nextNf, this`nextIpx
      ensures Abstract() == Tracked(Started(old(Abstract()), msgSeq), msgSeq, cnt)
    {
      if !added {
        nextNf, nextIpx := msgSeq, msgSeq;
      }
      if nextNf != msgSeq {
        if SeqNewer(msgSeq, nextNf) {
          nextNf := (msgSeq + cnt) % U32_SIZE;
        }
      } else {
        nextNf := (nextNf + cnt) % U32_SIZE;
      }
    }

    /** Converts the message in the wrapper; the new message has exactly the announced size. */
    method Process(wrapper: Nf9Converter.Wrapper) returns (ok: bool)
      requires Valid() && wrapper.Valid()
      modifies this, wrapper
      ensures wrapper.Valid()
      ensures var r := Conv5(old(Abstract()), refresh, odid, old(wrapper.Raw()));
              && Abstract() == r.0
              && match r.1
                 case Done(m) => ok && wrapper.Raw() == m
                 case Failed => !ok && unchanged(wrapper) && wrapper.Raw() == old(wrapper.Raw())
    {
      hide TmpltSet5, Tracked, Dset5, Header5, TimeReached, Get16, Get32, Flat;
      var msg := wrapper.rawPkt[..wrapper.rawSize];
      if wrapper.rawSize < NF5_HDR_LEN {
        return false;
      }
      if Get16(msg, 0) != NF5_VERSION {
        return false;
      }
      var cnt, time := Count5(msg), Get32(msg, 8);
      TrackSequence(Get32(msg, 16), cnt);
      ghost var st1 := Abstract();
      if NF5_HDR_LEN + cnt * NF5_REC_LEN != wrapper.rawSize {
        return false;
      }
      var addTset := !added || (refresh != 0 && TimeReached(time, nextRefresh));
      var size := NewSize(cnt, addTset);
      if size > 65535 {
        return false;
      }
      var ipx := Build(msg, size, addTset, st1);
      if addTset {
        added, nextRefresh := true, (time + refresh) % U32_SIZE;
      }
      nextIpx := (nextIpx + cnt) % U32_SIZE;
      wrapper.rawPkt, wrapper.rawSize := ipx, size;
      return true;
    }

    /** Header, Template Set if due, Data Set. */
    method Build(msg: seq<byte>, size: u16, addTset: bool, ghost st: State5) returns (ipx: array<byte>)
      requires Valid() && Whole5(msg) && size == NewSize(Count5(msg), addTset) && st.nextIpx == nextIpx
      requires addTset == AddsTset(st, refresh, msg)
      ensures fresh(ipx) && ipx.Length == size
      ensures ipx[..] == Header5(msg, size, odid, nextIpx) + Flat(Sets5(st, refresh, msg))
    {
      hide TmpltSet5, Dset5, AddsTset, Put16, Put32, Get16, Get32, Flat;
      TsetSize();
      ipx := new byte[size];
      var hdr := Header5(msg, size, odid, nextIpx);
      var at := Put(ipx, 0, hdr);
      assert [] + hdr == hdr;
      ghost var sets: seq<seq<byte>> := [];
      FlatNone();
      if addTset {
        at := Put(ipx, at, tsetData);
        sets := [tsetData];
        FlatOne(tsetData);
      } else {
        assert hdr + [] == hdr;
      }
      FlatAppend(sets, Dset5(msg));
      ghost var head := ipx[..at];
      at := AddDset(msg, ipx, at);
      assert head + Flat(Dset5(msg)) == hdr + (Flat(sets) + Flat(Dset5(msg)));
    }
  }

  lemma NoSpecs()
    ensures EncSpecs([]) == []
  {
  }

  lemma FieldBytes(i: nat)
    requires i < FIELD_CNT
    ensures EncSpecs(Specs5()[..i + 1]) == EncSpecs(Specs5()[..i]) + (Put16(SpecAt(i).id) + Put16(SpecAt(i).len))
  {
    hide EncSpecs;
    assert Specs5()[..i + 1] == Specs5()[..i] + [SpecAt(i)];
    EncSnoc(Specs5()[..i], SpecAt(i));
  }

  lemma TsetSize()
    ensures |TmpltSet5()| == TSET_SIZE
  {
    TsetDecodes();
  }

  lemma FlatNone()
    ensures Flat([]) == []
  {
  }

  lemma RoomLeft(i: nat, cnt: nat)
    requires i < cnt
    ensures (i + 1) * DREC_SIZE <= cnt * DREC_SIZE
  {
  }

  lemma FlatNext(head: seq<byte>, recs: seq<seq<byte>>, i: nat)
    requires i < |recs|
    ensures head + Flat(recs[..i]) + recs[i] == head + Flat(recs[..i + 1])
  {
    assert recs[..i + 1] == recs[..i] + [recs[i]];
    FlatAppend(recs[..i], [recs[i]]);
    FlatOne(recs[i]);
    assert head + Flat(recs[..i]) + recs[i] == head + (Flat(recs[..i]) + recs[i]);
  }
}
