/**
 * The NetFlow v9 converter of netflow9.c: a growing message buffer with commit and rollback, the
 * template cache, and the methods that turn one message into another in place. Every method is
 * proved to compute what Nf9Spec says.
 */
module Nf9Converter {
  import opened Bytes
  import opened Nf9Parsers
  import opened Nf9Templates
  import opened Nf9Trec
  import opened Nf9Table
  import opened Nf9Spec

  // ---------------------------------------------------------------- the message buffer

  /** The memory of the new message: the first `used` bytes are committed, the rest is unspecified. */
  class MsgBuffer {
    var msg: array<byte>
    var used: nat

    ghost predicate Valid()
      reads this
    {
      used <= msg.Length
    }

    ghost function Committed(): seq<byte>
      requires Valid()
      reads this, msg
    {
      msg[..used]
    }

    constructor ()
      ensures Valid() && fresh(msg) && Committed() == []
    {
      msg := new byte[0];
      used := 0;
    }

    method Init()
      modifies this
      ensures Valid() && fresh(msg) && Committed() == []
    {
      msg := new byte[0];
      used := 0;
    }

    /** Makes room for `size` bytes; growth keeps what is committed. */
    method Reserve(size: nat)
      requires Valid()
      modifies this`msg
      ensures Valid() && (msg == old(msg) || fresh(msg))
      ensures used + size <= msg.Length && Committed() == old(Committed())
      ensures used + size <= old(msg.Length) ==> msg == old(msg)
    {
      if used + size <= msg.Length {
        return;
      }
      var newAlloc := ((used + size) / 1024 + 1) * 1024;
      var newMsg := new byte[newAlloc];
      for i := 0 to used
        modifies newMsg
        invariant forall k | 0 <= k < i :: newMsg[k] == msg[k]
      {
        newMsg[i] := msg[i];
      }
      msg := newMsg;
    }

    method Commit(size: nat)
      requires Valid() && used + size <= msg.Length
      modifies this`used
      ensures Valid() && used == old(used) + size
      ensures Committed() == old(Committed()) + msg[old(used)..used]
    {
      used := used + size;
    }

    /** Drops everything committed after `offset`. */
    method PosSet(offset: nat)
      requires Valid() && offset <= used
      modifies this`used
      ensures Valid() && used == offset && Committed() == old(Committed())[..offset]
    {
      used := offset;
    }

    /** Stores bytes at an offset of the reserved memory. */
    method Write(offset: nat, b: seq<byte>)
      requires Valid() && offset + |b| <= msg.Length
      modifies msg
      ensures forall k | 0 <= k < msg.Length ::
                msg[k] == if offset <= k < offset + |b| then b[k - offset] else old(msg[k])
    {
      for i := 0 to |b|
        invariant forall k | 0 <= k < msg.Length ::
                    msg[k] == if offset <= k < offset + i then b[k - offset] else old(msg[k])
      {
        msg[offset + i] := b[i];
      }
    }

    /** Stores bytes after those written since the last commit. */
    method WriteNext(offset: nat, b: seq<byte>)
      requires Valid() && used <= offset && offset + |b| <= msg.Length
      modifies msg
      ensures Committed() == old(Committed()) && msg[used..offset + |b|] == old(msg[used..offset]) + b
    {
      Write(offset, b);
    }

    method Append(b: seq<byte>)
      requires Valid()
      modifies this, msg
      ensures Valid() && (msg == old(msg) || fresh(msg))
      ensures Committed() == old(Committed()) + b
    {
      Reserve(|b|);
      Write(used, b);
      Commit(|b|);
    }

    /** Overwrites committed bytes, such as a header whose values were not known before. */
    method Patch(offset: nat, b: seq<byte>)
      requires Valid() && offset + |b| <= used
      modifies msg
      ensures Committed() == old(Committed())[..offset] + b + old(Committed())[offset + |b|..]
    {
      Write(offset, b);
    }

    /** Commits room for a set header that is filled in later. */
    method BeginSet() returns (hdrOffset: nat)
      requires Valid()
      modifies this, msg
      ensures Valid() && (msg == old(msg) || fresh(msg))
      ensures used == hdrOffset + SET_HDR_LEN && hdrOffset == old(used)
      ensures Committed()[..hdrOffset] == old(Committed())
    {
      hdrOffset := used;
      Reserve(SET_HDR_LEN);
      Commit(SET_HDR_LEN);
    }

    /** The header of a set, once its size is known. */
    method PatchSetHdr(offset: nat, id: u16, size: u16)
      requires Valid() && offset + SET_HDR_LEN <= used
      modifies msg
      ensures Committed() == old(Committed())[..offset] + (Put16(id) + Put16(size) + old(Committed())[offset + SET_HDR_LEN..])
    {
      Patch(offset, Put16(id));
      Patch(offset + 2, Put16(size));
    }

    /** Fills in the header of the set that was begun at an offset, unless the set is too long. */
    method CloseSet(offset: nat, id: u16) returns (ok: bool)
      requires Valid() && offset + SET_HDR_LEN <= used
      modifies msg
      ensures ok <==> used - offset <= MAX_SET_CONTENT_LEN
      ensures ok ==> Committed() == old(Committed())[..offset] + (Put16(id) + Put16(used - offset) + old(Committed())[offset + SET_HDR_LEN..])
    {
      var setSize := used - offset;
      if setSize > MAX_SET_CONTENT_LEN {
        return false;
      }
      PatchSetHdr(offset, id, setSize);
      return true;
    }

    /** The fields of the message header, in place. */
    method FillHeader(nf9: seq<byte>, size: u16, seqNum: u32)
      requires Valid() && IPX_HDR_LEN <= used && |nf9| >= MSG_HDR_LEN
      modifies msg
      ensures Committed() == IpxHdr(nf9, size, seqNum) + old(Committed())[IPX_HDR_LEN..]
    {
      hide Put16, Put32;
      Write(0, Put16(IPX_VERSION));
      Write(2, Put16(size));
      Write(4, nf9[8..12]);
      Write(8, Put32(seqNum));
      Write(12, nf9[16..20]);
    }
  }

  /** The message as it travels through the collector: memory and the length of what is in it. */
  class Wrapper {
    var rawPkt: array<byte>
    var rawSize: u16

    ghost predicate Valid()
      reads this
    {
      rawSize <= rawPkt.Length
    }

    function Raw(): seq<byte>
      requires Valid()
      reads this, rawPkt
    {
      rawPkt[..rawSize]
    }

    constructor (raw: array<byte>, size: u16)
      requires size <= raw.Length
      ensures Valid() && rawPkt == raw && rawSize == size
    {
      rawPkt, rawSize := raw, size;
    }
  }

  // ---------------------------------------------------------------- how loops make progress

  /** Templates still to be read lead from the present table and records to the result of the whole FlowSet. */
  ghost predicate TsetProgress(tbl0: Table, ty: u16, all: seq<seq<byte>>, tbl: Table, parts: seq<seq<byte>>, rest: seq<seq<byte>>)
    requires ty == SET_TMPLT || ty == SET_OPTS_TMPLT
  {
    && (forall r | r in all :: IsTmplt(ty, r))
    && (forall r | r in rest :: IsTmplt(ty, r))
    && DefineAll(tbl0, ty, all) == (DefineAll(tbl, ty, rest).0, parts + DefineAll(tbl, ty, rest).1)
  }

  lemma TsetStep(tbl0: Table, ty: u16, all: seq<seq<byte>>, tbl: Table, parts: seq<seq<byte>>, rec: seq<byte>, rest: seq<seq<byte>>)
    requires (ty == SET_TMPLT || ty == SET_OPTS_TMPLT) && IsTmplt(ty, rec)
    requires TsetProgress(tbl0, ty, all, tbl, parts, [rec] + rest)
    ensures var t := TrecOf(ty, rec);
            TsetProgress(tbl0, ty, all, tbl[Get16(rec, 0) := t], if t.Convert? then parts + [Appended(t)] else parts, rest)
  {
    hide RecError, TrecOf;
    var recs := [rec] + rest;
    assert recs[0] == rec && recs[1..] == rest;
    assert forall r | r in rest :: r in recs;
    var t := TrecOf(ty, rec);
    var d := DefineAll(tbl[Get16(rec, 0) := t], ty, rest);
    assert DefineAll(tbl, ty, recs) == (d.0, (if t.Convert? then [Appended(t)] else []) + d.1);
    if t.Convert? {
      assert parts + ([Appended(t)] + d.1) == parts + [Appended(t)] + d.1;
    } else {
      assert [] + d.1 == d.1;
    }
  }

  lemma TsetDone(tbl0: Table, ty: u16, all: seq<seq<byte>>, tbl: Table, parts: seq<seq<byte>>)
    requires (ty == SET_TMPLT || ty == SET_OPTS_TMPLT) && TsetProgress(tbl0, ty, all, tbl, parts, [])
    ensures (forall r | r in all :: IsTmplt(ty, r)) && DefineAll(tbl0, ty, all) == (tbl, parts)
  {
    hide IsTmplt;
    assert parts + [] == parts;
  }

  lemma TsetStart(tbl: Table, ty: u16, fset: seq<byte>)
    requires (ty == SET_TMPLT || ty == SET_OPTS_TMPLT) && IsSet(fset)
    ensures TsetProgress(tbl, ty, TsetOf(ty, fset).items, tbl, [], TsetOf(ty, fset).items)
  {
    TmpltsTile(ty, fset[SET_HDR_LEN..]);
    hide IsTmplt, DefineAll, TmpltsOf;
    assert [] + DefineAll(tbl, ty, TsetOf(ty, fset).items).1 == DefineAll(tbl, ty, TsetOf(ty, fset).items).1;
  }

  /** Telling a known template from a new one makes no difference to what is stored. */
  lemma KnownTemplate(tbl: Table, ty: u16, rec: seq<byte>)
    requires Coherent(tbl) && (ty == SET_TMPLT || ty == SET_OPTS_TMPLT) && IsTmplt(ty, rec)
    ensures var tid := Get16(rec, 0);
            && Coherent(tbl[tid := TrecOf(ty, rec)])
            && (tid in tbl && tbl[tid].ty == ty && tbl[tid].nf9Data == rec ==>
                  tbl[tid] == TrecOf(ty, rec) && tbl[tid := TrecOf(ty, rec)] == tbl)
  {
    TrecIsTrec(ty, rec);
    hide RecError, TrecOf;
  }

  lemma FlatSnoc(parts: seq<seq<byte>>, p: seq<byte>)
    ensures Flat(parts + [p]) == Flat(parts) + p
  {
    FlatAppend(parts, [p]);
    assert Flat([p]) == p + Flat([]);
    assert p + [] == p;
  }

  lemma {:induction false} InLenPrefix(p: seq<Instr>, k: nat)
    requires k <= |p|
    ensures InLen(p[..k]) <= InLen(p) && OutLen(p[..k]) <= OutLen(p)
    ensures k > 0 ==> p[..k][..k - 1] == p[..k - 1]
    decreases |p|
  {
    if k == |p| {
      assert p[..k] == p;
    } else {
      var n := |p| - 1;
      assert p[..n][..k] == p[..k];
      InLenPrefix(p[..n], k);
    }
  }

  datatype Lookup = Found | Denied | NotFound

  // ---------------------------------------------------------------- the converter

  class Converter {
    const table: L1Table
    const buf: MsgBuffer
    var nf9SeqNext: u32
    var nf9SeqValid: bool
    var ipxSeqNext: u32
    var recsProcessed: u16
    var drecsConverted: u16

    ghost predicate Valid()
      reads this, buf, table, table.Repr
    {
      && table.Valid() && buf.Valid() && this !in table.Repr && buf !in table.Repr && buf.msg !in table.Repr
      && Coherent(table.Contents)
    }

    /** The state that Nf9Spec speaks about. */
    ghost function Abstract(): State
      reads this, table
    {
      State(table.Contents, ipxSeqNext, nf9SeqNext, nf9SeqValid)
    }

    constructor ()
      ensures Valid() && fresh(table.Repr) && fresh(buf) && fresh(buf.msg)
      ensures Abstract() == State(map[], 0, 0, false)
    {
      table := new L1Table();
      buf := new MsgBuffer();
      nf9SeqNext, nf9SeqValid, ipxSeqNext := 0, false, 0;
      recsProcessed, drecsConverted := 0, 0;
    }

    /** A record whose own template is stored already is answered from the table. */
    method TmpltFromTable(rec: seq<byte>, ty: u16) returns (rc: Lookup)
      requires Valid() && (ty == SET_TMPLT || ty == SET_OPTS_TMPLT) && IsTmplt(ty, rec)
      modifies buf, buf.msg
      ensures Valid() && (buf.msg == old(buf.msg) || fresh(buf.msg)) && table.Contents == old(table.Contents)
      ensures rc != NotFound ==> table.Contents[Get16(rec, 0) := TrecOf(ty, rec)] == table.Contents
      ensures rc == Found ==> TrecOf(ty, rec).Convert? && buf.Committed() == old(buf.Committed()) + Appended(TrecOf(ty, rec))
      ensures rc == Denied ==> TrecOf(ty, rec).Drop?
      ensures rc != Found ==> buf.Committed() == old(buf.Committed())
      ensures rc == NotFound <==> var tbl, tid := table.Contents, Get16(rec, 0);
                                  tid !in tbl || tbl[tid].ty != ty || tbl[tid].nf9Data != rec
    {
      hide L1Table.Valid, RecError, Compile;
      KnownTemplate(table.Contents, ty, rec);
      var t := table.Find(Get16(rec, 0));
      if t == None || t.value.ty != ty || t.value.nf9Data != rec {
        return NotFound;
      }
      hide TrecOf, Coherent;
      if t.value.Drop? {
        return Denied;
      }
      buf.Append(Appended(t.value));
      return Found;
    }

    /** Compiles a template, stores it and, unless it is refused, appends its translation. */
    method TmpltFromData(rec: seq<byte>, ty: u16) returns (added: bool)
      requires Valid() && (ty == SET_TMPLT || ty == SET_OPTS_TMPLT) && IsTmplt(ty, rec)
      modifies buf, buf.msg, table.Repr
      ensures Valid() && (buf.msg == old(buf.msg) || fresh(buf.msg)) && fresh(table.Repr - old(table.Repr))
      ensures added == TrecOf(ty, rec).Convert?
      ensures buf.Committed() == old(buf.Committed()) + if added then Appended(TrecOf(ty, rec)) else []
      ensures table.Contents == old(table.Contents)[Get16(rec, 0) := TrecOf(ty, rec)]
    {
      hide L1Table.Valid, RecError, TrecOf, Coherent;
      KnownTemplate(table.Contents, ty, rec);
      var t := ConvTmpltProcess(ty, rec);
      table.Insert(Get16(rec, 0), t);
      if t.Drop? {
        return false;
      }
      buf.Append(Appended(t));
      return true;
    }

    /** One template of a FlowSet: whether it was known or not, the outcome is the same. */
    method ProcessTmplt(rec: seq<byte>, ty: u16) returns (added: bool)
      requires Valid() && (ty == SET_TMPLT || ty == SET_OPTS_TMPLT) && IsTmplt(ty, rec)
      modifies buf, buf.msg, table.Repr
      ensures Valid() && (buf.msg == old(buf.msg) || fresh(buf.msg)) && fresh(table.Repr - old(table.Repr))
      ensures added == TrecOf(ty, rec).Convert?
      ensures buf.Committed() == old(buf.Committed()) + if added then Appended(TrecOf(ty, rec)) else []
      ensures table.Contents == old(table.Contents)[Get16(rec, 0) := TrecOf(ty, rec)]
    {
      hide L1Table.Valid, RecError, TrecOf, Coherent;
      var rc := TmpltFromTable(rec, ty);
      match rc
      case Found => return true;
      case Denied => return false;
      case NotFound => added := TmpltFromData(rec, ty);
    }

    /** The loop over the templates of a FlowSet. */
    method ProcessTmplts(fset: seq<byte>, ty: u16) returns (end: Option<Error>, processed: nat, added: nat, ghost parts: seq<seq<byte>>)
      requires Valid() && IsSet(fset) && (ty == SET_TMPLT || ty == SET_OPTS_TMPLT)
      modifies buf, buf.msg, table.Repr
      ensures Valid() && (buf.msg == old(buf.msg) || fresh(buf.msg)) && fresh(table.Repr - old(table.Repr))
      ensures forall r | r in TsetOf(ty, fset).items :: IsTmplt(ty, r)
      ensures end == TsetOf(ty, fset).end && processed == |TsetOf(ty, fset).items| && added == |parts|
      ensures DefineAll(old(table.Contents), ty, TsetOf(ty, fset).items) == (table.Contents, parts)
      ensures buf.Committed() == old(buf.Committed()) + Flat(parts)
    {
      hide L1Table.Valid, IsSet, IsTmplt, RecError, TrecOf, Coherent, TsetOf, TsetProgress, Flat, TsetIter.Rest;
      var it := new TsetIter(fset, ty);
      ghost var all, tbl0, done := TsetOf(ty, fset), table.Contents, old(buf.Committed());
      TsetStart(tbl0, ty, fset);
      processed, added, parts := 0, 0, [];
      FlatNil();
      assert done + [] == done;
      var rc := it.Next();
      while rc == Ok
        invariant fresh(it) && it !in table.Repr && it.Valid() && it.ty == ty
        invariant Valid() && (buf.msg == old(buf.msg) || fresh(buf.msg)) && fresh(table.Repr - old(table.Repr))
        invariant rc == Ok ==> IsTmplt(ty, it.rec)
        invariant var rest := RestOf(rc, it);
                  && TsetProgress(tbl0, ty, all.items, table.Contents, parts, rest.items)
                  && all.end == rest.end && |all.items| == processed + |rest.items|
        invariant added == |parts| && buf.Committed() == done + Flat(parts)
        decreases if rc == Ok then 1 + |it.fset| - it.recNext else 0
      {
        ghost var rest := it.Rest().items;
        TsetStep(tbl0, ty, all.items, table.Contents, parts, it.rec, rest);
        processed := processed + 1;
        var ok := ProcessTmplt(it.rec, ty);
        if ok {
          added := added + 1;
          ghost var p := Appended(TrecOf(ty, it.rec));
          FlatSnoc(parts, p);
          assert done + (Flat(parts) + p) == done + Flat(parts) + p;
          parts := parts + [p];
        }
        rc := it.Next();
      }
      TsetDone(tbl0, ty, all.items, table.Contents, parts);
      end := if rc == Eoc then None else Some(rc.err);
    }

    /** An (Options) Template FlowSet; a set without templates takes its header back. */
    method ProcessTset(fset: seq<byte>) returns (ok: bool)
      requires Valid() && IsSet(fset) && Get16(fset, 0) <= SET_OPTS_TMPLT
      modifies this`recsProcessed, buf, buf.msg, table.Repr
      ensures Valid() && (buf.msg == old(buf.msg) || fresh(buf.msg)) && fresh(table.Repr - old(table.Repr))
      ensures var r := ConvTset(old(table.Contents), fset);
              && ok == r.SetOk? && table.Contents == r.tbl
              && (ok ==> recsProcessed == (old(recsProcessed) + r.recs) % U16_SIZE && r.drecs == 0
                         && SmallOut(r.out) && buf.Committed() == old(buf.Committed()) + SetBytes(r.out))
    {
      hide L1Table.Valid, IsTmplt, RecError, TrecOf, Coherent, TsetOf, DefineAll, Flat, Put16, ConvTset;
      var ty := Get16(fset, 0);
      ghost var tbl0 := table.Contents;
      var hdrOffset := buf.BeginSet();
      ghost var began := buf.Committed();
      var end, processed, added, parts := ProcessTmplts(fset, ty);
      TsetOutcome(tbl0, fset, table.Contents, parts);
      if end.Some? {
        return false;
      }
      recsProcessed := (recsProcessed + processed) % U16_SIZE;
      ok := EndTset(hdrOffset, ty + 2, added, began, parts);
    }

    /** Back-patches the header of a Template Set, or takes it back. */
    method EndTset(hdrOffset: nat, id: u16, added: nat, ghost began: seq<byte>, ghost parts: seq<seq<byte>>) returns (ok: bool)
      requires Valid() && |began| == hdrOffset + SET_HDR_LEN && buf.Committed() == began + Flat(parts) && added == |parts|
      modifies buf, buf.msg
      ensures Valid() && buf.msg == old(buf.msg)
      ensures ok <==> parts == [] || OutSet(id, parts).Size() <= MAX_SET_CONTENT_LEN
      ensures ok ==> buf.Committed() == began[..hdrOffset] + if parts == [] then [] else OutSet(id, parts).Enc()
    {
      hide L1Table.Valid, Coherent, Flat, Put16;
      SetCut(began, Flat(parts), hdrOffset);
      if added == 0 {
        buf.PosSet(hdrOffset);
        assert began[..hdrOffset] + [] == began[..hdrOffset];
        return true;
      }
      ok := buf.CloseSet(hdrOffset, id);
    }

    /** The interpreter: one Data Record through the instructions of its template. */
    method ProcessDrec(rec: seq<byte>, c: Clock, t: Trec)
      requires Valid() && t.Convert? && |rec| == InLen(t.instrs) && t.ipxDrecLen == OutLen(t.instrs)
      modifies buf, buf.msg
      ensures Valid() && (buf.msg == old(buf.msg) || fresh(buf.msg))
      ensures buf.Committed() == old(buf.Committed()) + Exec(t.instrs, c, rec)
    {
      hide L1Table.Valid, Coherent, InLen, OutLen, Exec, ExecOne, Instr.In, Instr.Out;
      buf.Reserve(t.ipxDrecLen);
      var nf9Pos, ipxPos: nat := 0, buf.used;
      ghost var start, head := buf.msg, buf.Committed();
      ghost var p := t.instrs;
      ExecStart(c, rec, p);
      for i := 0 to |t.instrs|
        invariant Valid() && buf.msg == start && buf.Committed() == head && buf.used + t.ipxDrecLen <= start.Length
        invariant 0 <= nf9Pos == InLen(p[..i]) <= |rec|
        invariant buf.used <= ipxPos == buf.used + OutLen(p[..i]) <= buf.used + t.ipxDrecLen
        invariant start[buf.used..ipxPos] == Exec(p[..i], c, rec[..nf9Pos])
      {
        ExecPrefix(p, c, rec, i);
        var instr := t.instrs[i];
        var out := Step(instr, c, rec[nf9Pos..nf9Pos + instr.In()]);
        buf.WriteNext(ipxPos, out);
        nf9Pos, ipxPos := nf9Pos + instr.In(), ipxPos + instr.Out();
      }
      assert p[..|p|] == p && rec[..|rec|] == rec;
      buf.Commit(t.ipxDrecLen);
    }

    /** The loop over the records of a Data FlowSet. */
    method ProcessDrecs(fset: seq<byte>, c: Clock, t: Trec) returns (rc: Rc, processed: nat, ghost recs: seq<seq<byte>>)
      requires Valid() && IsSet(fset) && t.Convert? && t.nf9DrecLen > 0
      requires t.nf9DrecLen == InLen(t.instrs) && t.ipxDrecLen == OutLen(t.instrs)
      modifies buf, buf.msg
      ensures Valid() && (buf.msg == old(buf.msg) || fresh(buf.msg))
      ensures recs == RecsOf(fset[SET_HDR_LEN..], t.nf9DrecLen) && forall r | r in recs :: |r| == InLen(t.instrs)
      ensures (rc == Eoc <==> recs != []) && (rc.ErrFormat? <==> recs == [])
      ensures processed == |recs| && buf.Committed() == old(buf.Committed()) + Flat(ConvRecs(t, c, recs))
    {
      hide L1Table.Valid, IsSet, Coherent, InLen, OutLen, Exec, Flat, ConvRecs, RecsOf;
      var it := new DsetIter(fset, t.nf9DrecLen);
      ghost var all, done := RecsOf(fset[SET_HDR_LEN..], t.nf9DrecLen), old(buf.Committed());
      processed, recs := 0, [];
      ConvRecsNil(t, c);
      assert done + [] == done;
      DsetFits(fset, t.nf9DrecLen);
      rc := it.Next();
      assert [] + RestRecs(rc, it) == all;
      while rc == Ok
        invariant fresh(it) && it !in table.Repr && it.Valid() && it.fset == fset && it.recSize == t.nf9DrecLen
        invariant Valid() && (buf.msg == old(buf.msg) || fresh(buf.msg))
        invariant (rc == Ok ==> |it.rec| == t.nf9DrecLen) && all == recs + RestRecs(rc, it)
        invariant rc.ErrFormat? <==> all == []
        invariant forall r | r in recs :: |r| == InLen(t.instrs)
        invariant processed == |recs| && buf.Committed() == done + Flat(ConvRecs(t, c, recs))
        decreases if rc == Ok then 1 + |fset| - it.recNext else 0
      {
        processed := processed + 1;
        ghost var rest := RecsOf(fset[it.recNext..], t.nf9DrecLen);
        RecsStep(t, c, recs, it.rec, rest, done);
        ProcessDrec(it.rec, c, t);
        recs := recs + [it.rec];
        rc := it.Next();
        assert rest == RestRecs(rc, it);
      }
      assert recs + [] == recs;
    }

    /** A Data FlowSet. */
    method ProcessDset(fset: seq<byte>, c: Clock) returns (ok: bool)
      requires Valid() && IsSet(fset) && Get16(fset, 0) >= SET_MIN_DSET
      modifies this`recsProcessed, this`drecsConverted, buf, buf.msg
      ensures Valid() && (buf.msg == old(buf.msg) || fresh(buf.msg))
      ensures var r := ConvDset(table.Contents, c, fset);
              && ok == r.SetOk? && table.Contents == r.tbl
              && (ok ==> recsProcessed == (old(recsProcessed) + r.recs) % U16_SIZE
                         && drecsConverted == (old(drecsConverted) + r.drecs) % U16_SIZE
                         && SmallOut(r.out) && buf.Committed() == old(buf.Committed()) + SetBytes(r.out))
    {
      hide L1Table.Valid, TrecOf, IsTmplt, Coherent, Flat, ConvDset, InLen, OutLen, RecsOf, ConvRecs, OutSet.Enc;
      var tid := Get16(fset, 0);
      ghost var done := buf.Committed();
      assert done + [] == done;
      DsetOutcome(table.Contents, c, fset);
      var found := table.Find(tid);
      if found == None {
        return true;
      }
      var t := found.value;
      if t.Drop? {
        recsProcessed := (recsProcessed + (|fset| - SET_HDR_LEN) / t.nf9DrecLen) % U16_SIZE;
        return true;
      }
      ok := ConvertDset(fset, c, t);
    }

    /** A Data FlowSet with a converted template. */
    method ConvertDset(fset: seq<byte>, c: Clock, t: Trec) returns (ok: bool)
      requires Valid() && IsSet(fset) && t.Convert? && t.nf9DrecLen > 0
      requires t.nf9DrecLen == InLen(t.instrs) && t.ipxDrecLen == OutLen(t.instrs)
      modifies this`recsProcessed, this`drecsConverted, buf, buf.msg
      ensures Valid() && (buf.msg == old(buf.msg) || fresh(buf.msg))
      ensures var recs := RecsOf(fset[SET_HDR_LEN..], t.nf9DrecLen);
              && (forall r | r in recs :: |r| == InLen(t.instrs))
              && var out := OutSet(Get16(fset, 0), ConvRecs(t, c, recs));
              && (ok <==> recs != [] && out.Size() <= MAX_SET_CONTENT_LEN)
              && (ok ==> recsProcessed == (old(recsProcessed) + |recs|) % U16_SIZE
                         && drecsConverted == (old(drecsConverted) + |recs|) % U16_SIZE
                         && buf.Committed() == old(buf.Committed()) + out.Enc())
    {
      hide L1Table.Valid, Coherent, Flat, Put16, InLen, OutLen, RecsOf, ConvRecs;
      var hdrOffset := buf.BeginSet();
      ghost var began := buf.Committed();
      var rc, processed, recs := ProcessDrecs(fset, c, t);
      if rc != Eoc {
        return false;
      }
      recsProcessed := (recsProcessed + processed) % U16_SIZE;
      drecsConverted := (drecsConverted + processed) % U16_SIZE;
      SetCut(began, Flat(ConvRecs(t, c, recs)), hdrOffset);
      ok := buf.CloseSet(hdrOffset, Get16(fset, 0));
    }

    /** One FlowSet, by its ID. */
    method ProcessSet(fset: seq<byte>, c: Clock) returns (ok: bool)
      requires Valid() && IsSet(fset)
      modifies this`recsProcessed, this`drecsConverted, buf, buf.msg, table.Repr
      ensures Valid() && (buf.msg == old(buf.msg) || fresh(buf.msg)) && fresh(table.Repr - old(table.Repr))
      ensures var r := ConvSet(old(table.Contents), c, fset);
              && ok == r.SetOk? && table.Contents == r.tbl
              && (ok ==> recsProcessed == (old(recsProcessed) + r.recs) % U16_SIZE
                         && drecsConverted == (old(drecsConverted) + r.drecs) % U16_SIZE
                         && SmallOut(r.out) && buf.Committed() == old(buf.Committed()) + SetBytes(r.out))
    {
      hide L1Table.Valid, TrecOf, IsTmplt, Coherent, ConvDset, ConvTset, OutSet.Enc;
      var id := Get16(fset, 0);
      if id >= SET_MIN_DSET {
        ok := ProcessDset(fset, c);
      } else if id == SET_TMPLT || id == SET_OPTS_TMPLT {
        ok := ProcessTset(fset);
      } else {
        assert buf.Committed() + [] == buf.Committed();
        ok := true;
      }
    }

    /** All of a message but its header, for which room is left. The 16-bit counters do not wrap. */
    method ProcessMsg(msg: seq<byte>) returns (ok: bool)
      requires Valid() && MSG_HDR_LEN <= |msg| < U16_SIZE && buf.Committed() == [] && recsProcessed == drecsConverted == 0
      modifies this`recsProcessed, this`drecsConverted, buf, buf.msg, table.Repr
      ensures Valid() && (buf.msg == old(buf.msg) || fresh(buf.msg)) && fresh(table.Repr - old(table.Repr))
      ensures var r := ConvBody(old(table.Contents), msg);
              && ok == r.ok && table.Contents == r.tbl
              && (ok ==> recsProcessed == r.recs && drecsConverted == r.drecs && SmallSets(r.outs)
                         && buf.used >= IPX_HDR_LEN && buf.Committed()[IPX_HDR_LEN..] == EncSets(r.outs))
    {
      hide L1Table.Valid, IsSet, Coherent, MsgProgress, SetsOf, EncSets, ConvSets, SmallSets, SetsFailed;
      buf.Reserve(|msg| + 8 * Get16(msg, 2));
      buf.Commit(IPX_HDR_LEN);
      ghost var hdr, tbl0, c := buf.Committed(), table.Contents, ClockOf(msg);
      ghost var all := SetsOf(msg[MSG_HDR_LEN..]);
      MsgStart(tbl0, c, msg);
      ghost var outs: seq<OutSet> := [];
      assert hdr + [] == hdr;
      var it := new SetsIter(msg);
      var rc := it.Next();
      ok := true;
      while ok && rc == Ok
        invariant fresh(it) && it !in table.Repr && it.Valid() && it.msg == msg
        invariant Valid() && (buf.msg == old(buf.msg) || fresh(buf.msg)) && fresh(table.Repr - old(table.Repr))
        invariant ok ==> (rc == Ok ==> IsSet(it.cur)) && all.end == RestSets(rc, it).end
        invariant ok ==> MsgProgress(tbl0, c, all.items, table.Contents, outs, recsProcessed, drecsConverted, RestSets(rc, it).items)
        invariant ok ==> SmallSets(outs) && buf.Committed() == hdr + EncSets(outs)
        invariant !ok ==> SetsFailed(tbl0, c, all.items, table.Contents)
        decreases ok, if rc == Ok then 1 + |msg| - it.setNext else 0
      {
        ok, outs := ProcessNext(msg, it.cur, hdr, tbl0, outs, SetsOf(msg[it.setNext..]).items);
        if ok {
          rc := it.Next();
        }
      }
      if !ok {
        MsgFailed(tbl0, msg, table.Contents);
        return;
      }
      MsgDone(tbl0, c, all.items, table.Contents, outs, recsProcessed, drecsConverted);
      ok := rc == Eoc;
    }

    /** The next FlowSet of a message. */
    method ProcessNext(msg: seq<byte>, cur: seq<byte>, ghost hdr: seq<byte>, ghost tbl0: Table,
                       ghost outs: seq<OutSet>, ghost rest: seq<seq<byte>>)
      returns (ok: bool, ghost outs': seq<OutSet>)
      requires Valid() && MSG_HDR_LEN <= |msg| < U16_SIZE && IsSet(cur)
      requires MsgProgress(tbl0, ClockOf(msg), SetsOf(msg[MSG_HDR_LEN..]).items, table.Contents, outs, recsProcessed, drecsConverted, [cur] + rest)
      requires SmallSets(outs) && buf.Committed() == hdr + EncSets(outs)
      modifies this`recsProcessed, this`drecsConverted, buf, buf.msg, table.Repr
      ensures Valid() && (buf.msg == old(buf.msg) || fresh(buf.msg)) && fresh(table.Repr - old(table.Repr))
      ensures var c, all := ClockOf(msg), SetsOf(msg[MSG_HDR_LEN..]).items;
              if ok then
                && MsgProgress(tbl0, c, all, table.Contents, outs', recsProcessed, drecsConverted, rest)
                && SmallSets(outs') && buf.Committed() == hdr + EncSets(outs')
              else SetsFailed(tbl0, c, all, table.Contents)
    {
      hide L1Table.Valid, IsSet, Coherent, MsgProgress, SetsOf, EncSets, ConvSet, ConvSets, SmallSets, OutSet.Size, OutSet.Enc;
      ghost var c, all, tbl := ClockOf(msg), SetsOf(msg[MSG_HDR_LEN..]).items, table.Contents;
      outs' := outs;
      ghost var r := ConvSet(tbl, c, cur);
      MsgStep(tbl0, c, all, tbl, outs, recsProcessed, drecsConverted, cur, rest);
      if r.SetOk? {
        MsgNoWrap(tbl0, c, all, r.tbl, outs + OptSeq(r.out), recsProcessed + r.recs, drecsConverted + r.drecs, rest, msg);
        SetSmall(tbl, c, cur);
        EncOpt(outs, r.out);
        Assoc(hdr, EncSets(outs), SetBytes(r.out));
        outs' := outs + OptSeq(r.out);
      }
      ok := ProcessSet(cur, ClockOf(msg));
    }

    /** The number expected in the next NetFlow Message. */
    method TrackSequence(msgSeq: u32)
      modifies this`nf9SeqNext, this`nf9SeqValid
      ensures nf9SeqValid && nf9SeqNext == TrackSeq(old(nf9SeqNext), old(nf9SeqValid), msgSeq)
    {
      var isOos := false;
      if nf9SeqNext != msgSeq {
        isOos := true;
        if !nf9SeqValid {
          nf9SeqValid := true;
          nf9SeqNext := (msgSeq + 1) % U32_SIZE;
        } else if SeqNewer(msgSeq, nf9SeqNext) {
          nf9SeqNext := (msgSeq + 1) % U32_SIZE;
        }
      }
      nf9SeqValid := true;
      if !isOos {
        nf9SeqNext := (nf9SeqNext + 1) % U32_SIZE;
      }
    }

    /**
     * Converts the message in the wrapper in place. On failure the wrapper keeps its message and the
     * next sequence number stays; the templates seen so far are kept.
     */
    method Process(wrapper: Wrapper) returns (ok: bool)
      requires Valid() && wrapper.Valid() && wrapper !in table.Repr && wrapper.rawPkt !in table.Repr && wrapper.rawPkt != buf.msg
      modifies this, buf, table.Repr, wrapper
      ensures Valid() && wrapper.Valid() && fresh(table.Repr - old(table.Repr))
      ensures wrapper !in table.Repr && wrapper.rawPkt !in table.Repr && wrapper.rawPkt != buf.msg
      ensures var r := ConvMsg(old(Abstract()), old(wrapper.Raw()));
              && Abstract() == r.0
              && match r.1
                 case Done(m) => ok && wrapper.Raw() == m
                 case Failed => !ok && unchanged(wrapper) && wrapper.Raw() == old(wrapper.Raw())
    {
      hide L1Table.Valid, Coherent, ConvBody, SmallSets, EncSets, TrackSeq, Get16, Get32, IpxHdr;
      buf.Init();
      recsProcessed, drecsConverted := 0, 0;
      var msg := wrapper.rawPkt[..wrapper.rawSize];
      if wrapper.rawSize < MSG_HDR_LEN {
        return false;
      }
      if Get16(msg, 0) != NF9_VERSION {
        return false;
      }
      TrackSequence(Get32(msg, 12));
      ghost var tbl0 := table.Contents;
      var done := ProcessMsg(msg);
      if !done {
        buf.Init();
        return false;
      }
      if buf.used > 65535 {
        buf.Init();
        return false;
      }
      HandOver(wrapper, msg);
      return true;
    }

    /** Fills the message header and replaces the message in the wrapper. */
    method HandOver(wrapper: Wrapper, msg: seq<byte>)
      requires Valid() && wrapper !in table.Repr && IPX_HDR_LEN <= buf.used <= 65535 && |msg| >= MSG_HDR_LEN
      modifies this`ipxSeqNext, buf, buf.msg, wrapper
      ensures Valid() && wrapper.Valid() && wrapper.rawPkt !in table.Repr && wrapper.rawPkt != buf.msg
      ensures ipxSeqNext == (old(ipxSeqNext) + drecsConverted) % U32_SIZE
      ensures wrapper.Raw() == IpxHdr(msg, old(buf.used), old(ipxSeqNext)) + old(buf.Committed())[IPX_HDR_LEN..]
    {
      hide L1Table.Valid, Coherent, IpxHdr;
      var ipxSize := buf.used;
      buf.FillHeader(msg, ipxSize, ipxSeqNext);
      ipxSeqNext := (ipxSeqNext + drecsConverted) % U32_SIZE;
      wrapper.rawPkt, wrapper.rawSize := buf.msg, ipxSize;
      buf.Init();
    }

    /** Copy or timestamp conversion. */
    static method Step(instr: Instr, c: Clock, raw: seq<byte>) returns (out: seq<byte>)
      requires |raw| == instr.In()
      ensures out == ExecOne(instr, c, raw)
    {
      match instr {
        case Cpy(size) => out := raw;
        case Ts => out := Put64(((c.unixSec * 1000 - c.sysUptime) % U64_SIZE + Get32(raw, 0)) % U64_SIZE);
      }
    }
  }

  /** What the record iterator still has to return, after a call. */
  ghost function RestRecs(rc: Rc, it: DsetIter): seq<seq<byte>>
    requires it.Valid()
    reads it
  {
    if rc == Ok then [it.rec] + RecsOf(it.fset[it.recNext..], it.recSize) else []
  }

  lemma ConvRecsNil(t: Trec, c: Clock)
    requires t.Convert?
    ensures Flat(ConvRecs(t, c, [])) == []
  {
  }

  lemma RecsStep(t: Trec, c: Clock, recs: seq<seq<byte>>, rec: seq<byte>, rest: seq<seq<byte>>, done: seq<byte>)
    requires t.Convert? && |rec| == InLen(t.instrs) && forall r | r in recs :: |r| == InLen(t.instrs)
    ensures forall r | r in recs + [rec] :: |r| == InLen(t.instrs)
    ensures done + Flat(ConvRecs(t, c, recs + [rec])) == done + Flat(ConvRecs(t, c, recs)) + Exec(t.instrs, c, rec)
    ensures recs + ([rec] + rest) == recs + [rec] + rest
  {
    hide Exec, InLen, ConvRecs, Flat;
    ConvRecsSnoc(t, c, recs, rec);
    FlatSnoc(ConvRecs(t, c, recs), Exec(t.instrs, c, rec));
    Assoc(done, Flat(ConvRecs(t, c, recs)), Exec(t.instrs, c, rec));
  }

  lemma ConvRecsSnoc(t: Trec, c: Clock, recs: seq<seq<byte>>, rec: seq<byte>)
    requires t.Convert? && |rec| == InLen(t.instrs) && forall r | r in recs :: |r| == InLen(t.instrs)
    ensures ConvRecs(t, c, recs + [rec]) == ConvRecs(t, c, recs) + [Exec(t.instrs, c, rec)]
  {
    hide Exec, InLen;
  }

  lemma DsetFits(fset: seq<byte>, len: nat)
    requires len > 0 && |fset| >= SET_HDR_LEN
    ensures SET_HDR_LEN + len > |fset| <==> RecsOf(fset[SET_HDR_LEN..], len) == []
    ensures forall r | r in RecsOf(fset[SET_HDR_LEN..], len) :: |r| == len
  {
    RecsTile(fset[SET_HDR_LEN..], len);
  }

  lemma ExecStart(c: Clock, rec: seq<byte>, p: seq<Instr>)
    ensures InLen(p[..0]) == 0 && OutLen(p[..0]) == 0 && Exec(p[..0], c, rec[..0]) == []
  {
  }

  lemma SetCut(began: seq<byte>, content: seq<byte>, hdrOffset: nat)
    requires |began| == hdrOffset + SET_HDR_LEN
    ensures var all := began + content;
            all[..hdrOffset] == began[..hdrOffset] && all[hdrOffset + SET_HDR_LEN..] == content
  {
  }

  /** One instruction more: where it reads, where it writes, and what. */
  lemma ExecPrefix(p: seq<Instr>, c: Clock, rec: seq<byte>, i: nat)
    requires i < |p| && |rec| == InLen(p)
    ensures var a, b := InLen(p[..i]), InLen(p[..i + 1]);
            && a + p[i].In() == b <= |rec| && OutLen(p[..i]) + p[i].Out() == OutLen(p[..i + 1]) <= OutLen(p)
            && Exec(p[..i + 1], c, rec[..b]) == Exec(p[..i], c, rec[..a]) + ExecOne(p[i], c, rec[a..b])
            && |ExecOne(p[i], c, rec[a..b])| == p[i].Out()
  {
    InLenPrefix(p, i);
    InLenPrefix(p, i + 1);
    var a, b := InLen(p[..i]), InLen(p[..i + 1]);
    assert rec[..b][..a] == rec[..a] && rec[..b][a..] == rec[a..b];
  }

  function SetBytes(out: Option<OutSet>): seq<byte>
    requires SmallOut(out)
  {
    if out.Some? then out.value.Enc() else []
  }

  predicate AllSets(sets: seq<seq<byte>>) {
    forall s | s in sets :: IsSet(s)
  }

  /** What the set iterator still has to return, after a call. */
  ghost function RestSets(rc: Rc, it: SetsIter): Walk
    requires it.Valid()
    reads it
  {
    match rc
    case Ok => Then(it.cur, SetsOf(it.msg[it.setNext..]))
    case Eoc => Walk([], None)
    case ErrFormat(e) => Walk([], Some(e))
  }

  function OptSeq<T>(o: Option<T>): seq<T> {
    if o.Some? then [o.value] else []
  }

  /** FlowSets still to be read lead from the present state to the result of the whole message. */
  ghost predicate MsgProgress(tbl0: Table, c: Clock, all: seq<seq<byte>>, tbl: Table, outs: seq<OutSet>, recs: nat, drecs: nat,
                              rest: seq<seq<byte>>)
  {
    && Coherent(tbl0) && Coherent(tbl) && AllSets(all) && AllSets(rest)
    && var r := ConvSets(tbl, c, rest);
       ConvSets(tbl0, c, all) == MsgRes(r.tbl, outs + r.outs, recs + r.recs, drecs + r.drecs, r.ok)
  }

  ghost predicate SetsFailed(tbl0: Table, c: Clock, all: seq<seq<byte>>, tbl: Table) {
    Coherent(tbl0) && AllSets(all) && !ConvSets(tbl0, c, all).ok && ConvSets(tbl0, c, all).tbl == tbl
  }

  lemma MsgStart(tbl: Table, c: Clock, msg: seq<byte>)
    requires Coherent(tbl) && |msg| >= MSG_HDR_LEN
    ensures MsgProgress(tbl, c, SetsOf(msg[MSG_HDR_LEN..]).items, tbl, [], 0, 0, SetsOf(msg[MSG_HDR_LEN..]).items)
    ensures SmallSets([]) && EncSets([]) == []
  {
    hide IsSet, ConvSets, Coherent;
    SetsTile(msg[MSG_HDR_LEN..]);
    var r := ConvSets(tbl, c, SetsOf(msg[MSG_HDR_LEN..]).items);
    assert [] + r.outs == r.outs;
  }

  lemma MsgStep(tbl0: Table, c: Clock, all: seq<seq<byte>>, tbl: Table, outs: seq<OutSet>, recs: nat, drecs: nat,
                s: seq<byte>, rest: seq<seq<byte>>)
    requires IsSet(s) && MsgProgress(tbl0, c, all, tbl, outs, recs, drecs, [s] + rest)
    ensures Coherent(tbl0) && Coherent(tbl) && AllSets(all) && Coherent(ConvSet(tbl, c, s).tbl)
    ensures match ConvSet(tbl, c, s)
            case SetFail(tbl') => SetsFailed(tbl0, c, all, tbl')
            case SetOk(tbl', out, n, d) => MsgProgress(tbl0, c, all, tbl', outs + OptSeq(out), recs + n, drecs + d, rest)
  {
    hide ConvSet, IsSet, Coherent;
    SetCoherent(tbl, c, s);
    var sets := [s] + rest;
    assert sets[0] == s && sets[1..] == rest;
    assert forall x | x in rest :: x in sets;
    if ConvSet(tbl, c, s).SetOk? {
      var r := ConvSets(ConvSet(tbl, c, s).tbl, c, rest);
      var o := OptSeq(ConvSet(tbl, c, s).out);
      assert outs + (o + r.outs) == outs + o + r.outs;
    }
  }

  lemma MsgNoWrap(tbl0: Table, c: Clock, all: seq<seq<byte>>, tbl: Table, outs: seq<OutSet>, recs: nat, drecs: nat,
                  rest: seq<seq<byte>>, msg: seq<byte>)
    requires MSG_HDR_LEN <= |msg| < U16_SIZE && all == SetsOf(msg[MSG_HDR_LEN..]).items
    requires MsgProgress(tbl0, c, all, tbl, outs, recs, drecs, rest)
    ensures recs < U16_SIZE && drecs < U16_SIZE
  {
    hide ConvSets, IsSet, Coherent, SetsOf;
    MsgBounds(tbl0, c, all);
    SetsTile(msg[MSG_HDR_LEN..]);
  }

  lemma MsgDone(tbl0: Table, c: Clock, all: seq<seq<byte>>, tbl: Table, outs: seq<OutSet>, recs: nat, drecs: nat)
    requires MsgProgress(tbl0, c, all, tbl, outs, recs, drecs, [])
    ensures Coherent(tbl0) && AllSets(all) && ConvSets(tbl0, c, all) == MsgRes(tbl, outs, recs, drecs, true)
  {
    hide IsSet, Coherent, ConvSet;
    assert outs + [] == outs;
  }

  lemma MsgFailed(tbl0: Table, msg: seq<byte>, tbl: Table)
    requires |msg| >= MSG_HDR_LEN && SetsFailed(tbl0, ClockOf(msg), SetsOf(msg[MSG_HDR_LEN..]).items, tbl)
    ensures Coherent(tbl0) && !ConvBody(tbl0, msg).ok && ConvBody(tbl0, msg).tbl == tbl
  {
    hide IsSet, Coherent, SetsOf, ConvSets;
  }

  lemma {:induction false} EncOpt(outs: seq<OutSet>, out: Option<OutSet>)
    requires SmallSets(outs) && SmallOut(out)
    ensures SmallSets(outs + OptSeq(out)) && EncSets(outs + OptSeq(out)) == EncSets(outs) + SetBytes(out)
  {
    hide OutSet.Size, OutSet.Enc, SetBytes;
    if outs == [] {
      EncOne(out);
      assert outs + OptSeq(out) == OptSeq(out);
    } else {
      EncOpt(outs[1..], out);
      assert (outs + OptSeq(out))[1..] == outs[1..] + OptSeq(out);
      Assoc(outs[0].Enc(), EncSets(outs[1..]), SetBytes(out));
    }
  }

  lemma EncOne(out: Option<OutSet>)
    requires SmallOut(out)
    ensures SmallSets(OptSeq(out)) && EncSets(OptSeq(out)) == SetBytes(out) == EncSets([]) + SetBytes(out)
  {
    hide OutSet.Size, OutSet.Enc;
    if out.Some? {
      assert OptSeq(out)[1..] == [];
      assert out.value.Enc() + [] == out.value.Enc();
    }
  }

  lemma FlatNil()
    ensures Flat([]) == []
  {
  }

  /** What is left to process after a call of the iterator. */
  ghost function RestOf(rc: Rc, it: TsetIter): Walk
    requires it.Valid()
    reads it
  {
    match rc
    case Ok => Then(it.rec, it.Rest())
    case Eoc => Walk([], None)
    case ErrFormat(e) => Walk([], Some(e))
  }
}
