/**
 * What converting a NetFlow v9 Message means, without the template cache, the output buffer
 * and the fixed-width counters: the reference for the converter of netflow9.c.
 */
module Nf9Spec {
  import opened Arith
  import opened Bytes
  import opened Nf9Parsers
  import opened Nf9Templates
  import opened Nf9Trec

  const IPX_HDR_LEN := 16
  const IPX_VERSION := 10
  const NF9_VERSION := 9

  type Table = map<u16, Trec>

  /** Every record of the table is the compilation of its own stored template. */
  predicate IsTrec(t: Trec) {
    && (t.ty == SET_TMPLT || t.ty == SET_OPTS_TMPLT)
    && IsTmplt(t.ty, t.nf9Data)
    && t == TrecOf(t.ty, t.nf9Data)
  }

  predicate Coherent(tbl: Table) {
    forall id | id in tbl :: IsTrec(tbl[id]) && Get16(tbl[id].nf9Data, 0) == id
  }

  lemma TrecIsTrec(ty: u16, raw: seq<byte>)
    requires (ty == SET_TMPLT || ty == SET_OPTS_TMPLT) && IsTmplt(ty, raw)
    ensures IsTrec(TrecOf(ty, raw)) && TrecOf(ty, raw).ty == ty && TrecOf(ty, raw).nf9Data == raw
    ensures TrecOf(ty, raw).nf9DrecLen > 0
  {
  }

  /** A set of the new message: its ID and the records in it. */
  datatype OutSet = OutSet(id: u16, parts: seq<seq<byte>>) {
    function Size(): nat {
      SET_HDR_LEN + |Flat(parts)|
    }

    function Enc(): seq<byte>
      requires Size() < U16_SIZE
    {
      Put16(id) + Put16(Size()) + Flat(parts)
    }
  }

  datatype SetRes =
    | SetOk(tbl: Table, out: Option<OutSet>, recs: nat, drecs: nat)
    | SetFail(tbl: Table)

  /** Each template defines its ID anew; the converted ones are added to the message. */
  function DefineAll(tbl: Table, ty: u16, raws: seq<seq<byte>>): (Table, seq<seq<byte>>)
    requires ty == SET_TMPLT || ty == SET_OPTS_TMPLT
    requires forall r | r in raws :: IsTmplt(ty, r)
    decreases |raws|
  {
    hide RecError, TrecOf;
    if raws == [] then (tbl, [])
    else
      var t := TrecOf(ty, raws[0]);
      var rest := DefineAll(tbl[Get16(raws[0], 0) := t], ty, raws[1..]);
      (rest.0, (if t.Convert? then [Appended(t)] else []) + rest.1)
  }

  /** An (Options) Template FlowSet. */
  function ConvTset(tbl: Table, fset: seq<byte>): SetRes
    requires IsSet(fset) && Get16(fset, 0) <= SET_OPTS_TMPLT
  {
    var ty := Get16(fset, 0);
    var w := TsetOf(ty, fset);
    TmpltsTile(ty, fset[SET_HDR_LEN..]);
    var d := DefineAll(tbl, ty, w.items);
    if w.end.Some? then SetFail(d.0)
    else if d.1 == [] then SetOk(d.0, None, |w.items|, 0)
    else if OutSet(ty + 2, d.1).Size() > MAX_SET_CONTENT_LEN then SetFail(d.0)
    else SetOk(d.0, Some(OutSet(ty + 2, d.1)), |w.items|, 0)
  }

  function ConvRecs(t: Trec, c: Clock, recs: seq<seq<byte>>): seq<seq<byte>>
    requires t.Convert? && forall r | r in recs :: |r| == InLen(t.instrs)
  {
    seq(|recs|, i requires 0 <= i < |recs| => Exec(t.instrs, c, recs[i]))
  }

  /** A Data FlowSet: skipped without a template, counted when its template is refused, otherwise converted. */
  function ConvDset(tbl: Table, c: Clock, fset: seq<byte>): SetRes
    requires IsSet(fset) && Coherent(tbl)
  {
    hide IsTmplt, TrecOf, Exec, InLen;
    var tid := Get16(fset, 0);
    if tid !in tbl then SetOk(tbl, None, 0, 0)
    else
      var t := tbl[tid];
      TrecIsTrec(t.ty, t.nf9Data);
      if t.Drop? then SetOk(tbl, None, (|fset| - SET_HDR_LEN) / t.nf9DrecLen, 0)
      else
        var recs := RecsOf(fset[SET_HDR_LEN..], t.nf9DrecLen);
        RecsTile(fset[SET_HDR_LEN..], t.nf9DrecLen);
        TrecInLen(t);
        var out := OutSet(tid, ConvRecs(t, c, recs));
        if recs == [] || out.Size() > MAX_SET_CONTENT_LEN then SetFail(tbl)
        else SetOk(tbl, Some(out), |recs|, |recs|)
  }

  lemma TrecInLen(t: Trec)
    requires IsTrec(t) && t.Convert?
    ensures InLen(t.instrs) == t.nf9DrecLen && OutLen(t.instrs) == t.ipxDrecLen
  {
    CompileLengths(RecFields(t.ty, t.nf9Data), ScopeCnt(t.ty, t.nf9Data));
  }

  function ConvSet(tbl: Table, c: Clock, fset: seq<byte>): SetRes
    requires IsSet(fset) && Coherent(tbl)
  {
    if Get16(fset, 0) >= SET_MIN_DSET then ConvDset(tbl, c, fset)
    else if Get16(fset, 0) <= SET_OPTS_TMPLT then ConvTset(tbl, fset)
    else SetOk(tbl, None, 0, 0)
  }

  lemma {:induction false} DefineCoherent(tbl: Table, ty: u16, raws: seq<seq<byte>>)
    requires Coherent(tbl) && (ty == SET_TMPLT || ty == SET_OPTS_TMPLT)
    requires forall r | r in raws :: IsTmplt(ty, r)
    ensures Coherent(DefineAll(tbl, ty, raws).0)
    decreases |raws|
  {
    hide RecError, TrecOf;
    if raws != [] {
      TrecIsTrec(ty, raws[0]);
      DefineCoherent(tbl[Get16(raws[0], 0) := TrecOf(ty, raws[0])], ty, raws[1..]);
    }
  }

  predicate SmallOut(out: Option<OutSet>) {
    out.Some? ==> out.value.Size() <= MAX_SET_CONTENT_LEN
  }

  /** What a Data FlowSet comes to. */
  lemma DsetOutcome(tbl: Table, c: Clock, fset: seq<byte>)
    requires IsSet(fset) && Coherent(tbl)
    ensures var r, tid := ConvDset(tbl, c, fset), Get16(fset, 0);
            && r.tbl == tbl
            && (if tid !in tbl then r == SetOk(tbl, None, 0, 0)
                else
                  var t := tbl[tid];
                  && t.nf9DrecLen > 0
                  && if t.Drop? then r == SetOk(tbl, None, (|fset| - SET_HDR_LEN) / t.nf9DrecLen, 0)
                     else
                       var recs := RecsOf(fset[SET_HDR_LEN..], t.nf9DrecLen);
                       && t.nf9DrecLen == InLen(t.instrs) && t.ipxDrecLen == OutLen(t.instrs)
                       && (forall x | x in recs :: |x| == InLen(t.instrs))
                       && var parts := ConvRecs(t, c, recs);
                          && (r.SetOk? <==> recs != [] && SET_HDR_LEN + |Flat(parts)| <= MAX_SET_CONTENT_LEN)
                          && (r.SetOk? ==> r == SetOk(tbl, Some(OutSet(tid, parts)), |recs|, |recs|)))
  {
    hide TrecOf, Exec, InLen, RecsOf, Flat;
    if Get16(fset, 0) in tbl {
      var t := tbl[Get16(fset, 0)];
      TrecIsTrec(t.ty, t.nf9Data);
      if t.Convert? {
        TrecInLen(t);
        RecsTile(fset[SET_HDR_LEN..], t.nf9DrecLen);
      }
    }
  }

  /** What an (Options) Template FlowSet comes to. */
  lemma TsetOutcome(tbl: Table, fset: seq<byte>, tbl': Table, parts: seq<seq<byte>>)
    requires IsSet(fset) && Get16(fset, 0) <= SET_OPTS_TMPLT
    requires forall r | r in TsetOf(Get16(fset, 0), fset).items :: IsTmplt(Get16(fset, 0), r)
    requires DefineAll(tbl, Get16(fset, 0), TsetOf(Get16(fset, 0), fset).items) == (tbl', parts)
    ensures var ty, r := Get16(fset, 0), ConvTset(tbl, fset);
            && r.tbl == tbl' && (r.SetOk? ==> SmallOut(r.out))
            && (r.SetOk? <==> TsetOf(ty, fset).end == None
                              && (parts == [] || SET_HDR_LEN + |Flat(parts)| <= MAX_SET_CONTENT_LEN))
            && (r.SetOk? ==> r.recs == |TsetOf(ty, fset).items| && r.drecs == 0
                             && r.out == if parts == [] then None else Some(OutSet(ty + 2, parts)))
  {
    hide IsTmplt, RecError, TrecOf, TmpltsOf, DefineAll, Flat;
  }

  lemma SetCoherent(tbl: Table, c: Clock, fset: seq<byte>)
    requires IsSet(fset) && Coherent(tbl)
    ensures Coherent(ConvSet(tbl, c, fset).tbl)
  {
    hide Coherent, ConvTset, ConvDset, IsTmplt, DefineAll, TmpltsOf;
    if Get16(fset, 0) >= SET_MIN_DSET {
      DsetOutcome(tbl, c, fset);
    } else if Get16(fset, 0) <= SET_OPTS_TMPLT {
      var ty := Get16(fset, 0);
      TmpltsTile(ty, fset[SET_HDR_LEN..]);
      var d := DefineAll(tbl, ty, TsetOf(ty, fset).items);
      DefineCoherent(tbl, ty, TsetOf(ty, fset).items);
      TsetOutcome(tbl, fset, d.0, d.1);
    }
  }

  datatype MsgRes = MsgRes(tbl: Table, outs: seq<OutSet>, recs: nat, drecs: nat, ok: bool)

  /** The FlowSets in order, up to the first that fails. */
  function ConvSets(tbl: Table, c: Clock, sets: seq<seq<byte>>): MsgRes
    requires Coherent(tbl) && forall s | s in sets :: IsSet(s)
    decreases |sets|
  {
    hide IsTrec, ConvSet;
    if sets == [] then MsgRes(tbl, [], 0, 0, true)
    else
      SetCoherent(tbl, c, sets[0]);
      match ConvSet(tbl, c, sets[0])
      case SetFail(tbl') => MsgRes(tbl', [], 0, 0, false)
      case SetOk(tbl', out, recs, drecs) =>
        var r := ConvSets(tbl', c, sets[1..]);
        r.(outs := (if out.Some? then [out.value] else []) + r.outs, recs := recs + r.recs, drecs := drecs + r.drecs)
  }

  predicate SmallSets(outs: seq<OutSet>) {
    forall o | o in outs :: o.Size() <= MAX_SET_CONTENT_LEN
  }

  function EncSets(outs: seq<OutSet>): seq<byte>
    requires SmallSets(outs)
  {
    if outs == [] then [] else outs[0].Enc() + EncSets(outs[1..])
  }

  lemma SetSmall(tbl: Table, c: Clock, fset: seq<byte>)
    requires IsSet(fset) && Coherent(tbl)
    ensures var r := ConvSet(tbl, c, fset);
            r.SetOk? ==> SmallOut(r.out) && r.drecs <= r.recs <= |fset| - SET_HDR_LEN
  {
    hide IsTrec, ConvTset, ConvDset, IsTmplt, DefineAll, TmpltsOf, Flat, RecsOf, ConvRecs, InLen, OutLen;
    var ty := Get16(fset, 0);
    if ty >= SET_MIN_DSET {
      DsetOutcome(tbl, c, fset);
      if ty in tbl {
        RecsTile(fset[SET_HDR_LEN..], tbl[ty].nf9DrecLen);
        DivAtMost(|fset| - SET_HDR_LEN, tbl[ty].nf9DrecLen);
      }
    } else if ty <= SET_OPTS_TMPLT {
      TsetSmall(tbl, fset);
    }
  }

  lemma TsetSmall(tbl: Table, fset: seq<byte>)
    requires IsSet(fset) && Get16(fset, 0) <= SET_OPTS_TMPLT
    ensures var r := ConvTset(tbl, fset);
            r.SetOk? ==> SmallOut(r.out) && r.drecs <= r.recs <= |fset| - SET_HDR_LEN
  {
    hide RecError, TrecOf, Flat, DefineAll, TmpltsOf, ConvTset;
    var ty := Get16(fset, 0);
    TmpltsTile(ty, fset[SET_HDR_LEN..]);
    var d := DefineAll(tbl, ty, TsetOf(ty, fset).items);
    TsetOutcome(tbl, fset, d.0, d.1);
    CountFlat(TmpltsOf(ty, fset[SET_HDR_LEN..]).items);
  }

  lemma {:induction false} CountFlat(parts: seq<seq<byte>>)
    requires forall p | p in parts :: |p| >= 1
    ensures |parts| <= |Flat(parts)|
  {
    if parts != [] { CountFlat(parts[1..]); }
  }

  /**
   * Every message keeps the table coherent, its sets fit a 16-bit length, and it holds no more
   * records than bytes, so that 16-bit counters of records cannot wrap.
   */
  lemma {:induction false} MsgBounds(tbl: Table, c: Clock, sets: seq<seq<byte>>)
    requires Coherent(tbl) && forall s | s in sets :: IsSet(s)
    ensures var r := ConvSets(tbl, c, sets);
            Coherent(r.tbl) && SmallSets(r.outs) && r.drecs <= r.recs <= |Flat(sets)|
    decreases |sets|
  {
    hide IsTrec, ConvSet, OutSet.Size;
    if sets != [] {
      SetCoherent(tbl, c, sets[0]);
      SetSmall(tbl, c, sets[0]);
      if ConvSet(tbl, c, sets[0]).SetOk? {
        MsgBounds(ConvSet(tbl, c, sets[0]).tbl, c, sets[1..]);
      }
    }
  }

  // ---------------------------------------------------------------- a whole message

  datatype Result = Failed | Done(msg: seq<byte>)

  /** The header fields of a NetFlow v9 Message (section 5.1 of RFC 3954). */
  function ClockOf(msg: seq<byte>): Clock
    requires |msg| >= MSG_HDR_LEN
  {
    Clock(Get32(msg, 8), Get32(msg, 4))
  }

  function SeqOf(msg: seq<byte>): u32
    requires |msg| >= MSG_HDR_LEN
  {
    Get32(msg, 12)
  }

  function IpxHdr(msg: seq<byte>, size: u16, seqNum: u32): seq<byte>
    requires |msg| >= MSG_HDR_LEN
  {
    Put16(IPX_VERSION) + Put16(size) + msg[8..12] + Put32(seqNum) + msg[16..20]
  }

  /** Sets of the body and, at the end, whether all of it was understood. */
  function ConvBody(tbl: Table, msg: seq<byte>): MsgRes
    requires Coherent(tbl) && |msg| >= MSG_HDR_LEN
  {
    SetsTile(msg[MSG_HDR_LEN..]);
    var w := SetsOf(msg[MSG_HDR_LEN..]);
    var r := ConvSets(tbl, ClockOf(msg), w.items);
    r.(ok := r.ok && w.end == None)
  }

  lemma BodyBounds(tbl: Table, msg: seq<byte>)
    requires Coherent(tbl) && |msg| >= MSG_HDR_LEN
    ensures var r := ConvBody(tbl, msg);
            Coherent(r.tbl) && SmallSets(r.outs) && r.drecs <= r.recs <= |msg| - MSG_HDR_LEN
  {
    SetsTile(msg[MSG_HDR_LEN..]);
    MsgBounds(tbl, ClockOf(msg), SetsOf(msg[MSG_HDR_LEN..]).items);
  }

  /** State of a converter between messages. */
  datatype State = State(tbl: Table, ipxSeqNext: u32, nf9SeqNext: u32, nf9SeqValid: bool) {
    predicate Valid() {
      Coherent(tbl)
    }
  }

  predicate Understood(msg: seq<byte>) {
    |msg| >= MSG_HDR_LEN && Get16(msg, 0) == NF9_VERSION
  }

  /** Serial number comparison (RFC 1982): the sign bit of the 32-bit difference. */
  predicate SeqNewer(a: u32, b: u32) {
    a != b && (a - b) % U32_SIZE < 0x8000_0000
  }

  /** The number expected next, after a message with number `s`. */
  function TrackSeq(next: u32, valid: bool, s: u32): u32 {
    if next == s || !valid || SeqNewer(s, next) then (s + 1) % U32_SIZE else next
  }

  function ConvMsg(st: State, msg: seq<byte>): (r: (State, Result))
    requires st.Valid()
    ensures r.0.Valid()
  {
    if !Understood(msg) then (st, Failed)
    else
      var st1 := st.(nf9SeqNext := TrackSeq(st.nf9SeqNext, st.nf9SeqValid, SeqOf(msg)), nf9SeqValid := true);
      BodyBounds(st.tbl, msg);
      var r := ConvBody(st.tbl, msg);
      var st2 := st1.(tbl := r.tbl);
      if !r.ok then (st2, Failed)
      else
        var size := IPX_HDR_LEN + |EncSets(r.outs)|;
        if size > 65535 then (st2, Failed)
        else
          (st2.(ipxSeqNext := (st.ipxSeqNext + r.drecs) % U32_SIZE),
           Done(IpxHdr(msg, size, st.ipxSeqNext) + EncSets(r.outs)))
  }
}
