/**
 * Compilation of a NetFlow v9 template into an IPFIX template and a list of conversion
 * instructions (conv_tmplt_process in netflow9.c), and what the two mean.
 */
module Nf9Templates {
  import opened Bytes
  import opened Nf9Parsers

  /** First NetFlow field ID without an IPFIX counterpart, and the enterprise numbers that replace it. */
  const NF_INCOMP_ID_MIN := 128
  const NF_INCOMP_EN_LOW: u32 := 4294967294
  const NF_INCOMP_EN_HIGH: u32 := 4294967295
  /** 65535 minus an IPFIX Message header (16) and a Set header (4). */
  const MAX_SET_CONTENT_LEN := 65535 - 16 - 4

  const IE_LAST_SWITCHED := 21
  const IE_FIRST_SWITCHED := 22

  // ---------------------------------------------------------------- conversion tables

  datatype OptsMap = OptsMap(nfId: u16, ipxId: u15, maxSize: u16)
  const OPTS_TABLE := [OptsMap(1, 144, 4), OptsMap(2, 10, 4), OptsMap(3, 141, 4), OptsMap(5, 145, 2)]

  /** Both entries of the data table convert a relative into an absolute timestamp. */
  datatype DataMap = DataMap(nfId: u16, nfSize: u16, ipxId: u15, ipxEn: u32, ipxSize: u16)
  const DATA_TABLE := [DataMap(IE_LAST_SWITCHED, 4, 153, 0, 8), DataMap(IE_FIRST_SWITCHED, 4, 152, 0, 8)]

  function FindOpts(table: seq<OptsMap>, id: u16): Option<OptsMap> {
    if table == [] then None else if table[0].nfId == id then Some(table[0]) else FindOpts(table[1..], id)
  }

  function FindData(table: seq<DataMap>, id: u16): Option<DataMap> {
    if table == [] then None else if table[0].nfId == id then Some(table[0]) else FindData(table[1..], id)
  }

  // ---------------------------------------------------------------- meaning of one field

  /** An IPFIX field specifier (section 3.2 of RFC 7011): `en` is present exactly when the enterprise bit is set. */
  datatype Spec = Spec(id: u15, en: Option<u32>, len: u16)

  predicate IsTs(f: Field, isScope: bool) {
    !isScope && (f.id == IE_LAST_SWITCHED || f.id == IE_FIRST_SWITCHED)
  }

  /** The IPFIX specifier that stands for a NetFlow field, if there is one. */
  function SpecOf(f: Field, isScope: bool): Option<Spec> {
    if isScope then
      match f.id
      case 1 => if f.len <= 4 then Some(Spec(144, None, f.len)) else None
      case 2 => if f.len <= 4 then Some(Spec(10, None, f.len)) else None
      case 3 => if f.len <= 4 then Some(Spec(141, None, f.len)) else None
      case 5 => if f.len <= 2 then Some(Spec(145, None, f.len)) else None
      case _ => None
    else if f.id == IE_LAST_SWITCHED then
      if f.len == 4 then Some(Spec(153, None, 8)) else None
    else if f.id == IE_FIRST_SWITCHED then
      if f.len == 4 then Some(Spec(152, None, 8)) else None
    else if f.id < NF_INCOMP_ID_MIN then
      Some(Spec(f.id, None, f.len))
    else if f.id < 0x8000 then
      Some(Spec(f.id, Some(NF_INCOMP_EN_LOW), f.len))
    else
      Some(Spec(f.id - 0x8000, Some(NF_INCOMP_EN_HIGH), f.len))
  }

  /** The inverse of SpecOf. */
  function NfIdOf(s: Spec, isScope: bool): u16 {
    if isScope then
      if s.id == 144 then 1 else if s.id == 10 then 2 else if s.id == 141 then 3 else 5
    else match s.en
      case None => if s.id == 153 then IE_LAST_SWITCHED else if s.id == 152 then IE_FIRST_SWITCHED else s.id
      case Some(en) => if en == NF_INCOMP_EN_LOW then s.id else s.id + 0x8000
  }

  /** No two NetFlow fields of a kind share an IPFIX specifier. */
  lemma NfIdRecoverable(f: Field, isScope: bool)
    requires SpecOf(f, isScope).Some?
    ensures NfIdOf(SpecOf(f, isScope).value, isScope) == f.id
    ensures SpecOf(f, isScope).value.len == if IsTs(f, isScope) then 8 else f.len
  {
  }

  /** The lookup tables say the same as SpecOf. */
  lemma TablesAgree(f: Field)
    ensures match FindOpts(OPTS_TABLE, f.id)
            case None => SpecOf(f, true) == None
            case Some(m) => SpecOf(f, true) == if m.maxSize < f.len then None else Some(Spec(m.ipxId, None, f.len))
    ensures match FindData(DATA_TABLE, f.id)
            case None => !IsTs(f, false)
            case Some(m) => IsTs(f, false) && m.ipxEn == 0 && m.ipxSize == 8 && m.nfSize == 4
                            && SpecOf(f, false) == if m.nfSize != f.len then None else Some(Spec(m.ipxId, None, 8))
  {
    var o1, o2, o3 := OPTS_TABLE[1..], OPTS_TABLE[2..], OPTS_TABLE[3..];
    assert o1[1..] == o2 && o2[1..] == o3 && o3[1..] == [];
    assert FindOpts(o3, f.id) == if f.id == 5 then Some(o3[0]) else None;
    assert FindOpts(o2, f.id) == if f.id == 3 then Some(o2[0]) else FindOpts(o3, f.id);
    assert FindOpts(o1, f.id) == if f.id == 2 then Some(o1[0]) else FindOpts(o2, f.id);
    var d1 := DATA_TABLE[1..];
    assert d1[1..] == [];
    assert FindData(d1, f.id) == if f.id == IE_FIRST_SWITCHED then Some(d1[0]) else None;
  }

  /** What of the NetFlow Message header the timestamp conversion needs. */
  datatype Clock = Clock(unixSec: u32, sysUptime: u32)

  /** Absolute timestamp in milliseconds, computed in 64-bit unsigned arithmetic. */
  function TsRel2Abs(c: Clock, ts: u32): u64 {
    ((c.unixSec * 1000 - c.sysUptime) % U64_SIZE + ts) % U64_SIZE
  }

  /** The two wrap-arounds are one: unix time of the export minus uptime plus the record's uptime, modulo 2^64. */
  lemma TsMeaning(c: Clock, ts: u32)
    ensures TsRel2Abs(c, ts) == (c.unixSec * 1000 - c.sysUptime + ts) % U64_SIZE
  {
  }

  /** One field of a record, converted on its own. */
  function ConvField(f: Field, isScope: bool, c: Clock, raw: seq<byte>): seq<byte>
    requires |raw| == f.len
    requires IsTs(f, isScope) ==> f.len == 4
  {
    if IsTs(f, isScope) then Put64(TsRel2Abs(c, Get32(raw, 0))) else raw
  }

  // ---------------------------------------------------------------- meaning of a whole template

  /** The specifiers of a convertible template. */
  predicate Convertible(fs: seq<Field>, scope: nat) {
    forall i | 0 <= i < |fs| :: SpecOf(fs[i], i < scope).Some?
  }

  function Specs(fs: seq<Field>, scope: nat): (ss: seq<Spec>)
    requires Convertible(fs, scope)
    ensures |ss| == |fs|
  {
    seq(|fs|, i requires 0 <= i < |fs| => SpecOf(fs[i], i < scope).value)
  }

  function SumSpec(ss: seq<Spec>): nat {
    if ss == [] then 0 else SumSpec(ss[..|ss| - 1]) + ss[|ss| - 1].len
  }

  /** Field-by-field conversion of a record: the reference the instructions are measured against. */
  function ConvRecord(fs: seq<Field>, scope: nat, c: Clock, rec: seq<byte>): seq<byte>
    requires Convertible(fs, scope) && |rec| == SumLen(fs)
  {
    if fs == [] then []
    else
      var n := |fs| - 1;
      var cut := |rec| - fs[n].len;
      ConvRecord(fs[..n], scope, c, rec[..cut]) + ConvField(fs[n], n < scope, c, rec[cut..])
  }

  function EncSpec(s: Spec): seq<byte>
  {
    match s.en
    case None => Put16(s.id) + Put16(s.len)
    case Some(en) => Put16(s.id + 0x8000) + Put16(s.len) + Put32(en)
  }

  function EncSpecs(ss: seq<Spec>): seq<byte>
  {
    if ss == [] then [] else EncSpecs(ss[..|ss| - 1]) + EncSpec(ss[|ss| - 1])
  }

  // ---------------------------------------------------------------- instructions

  datatype Instr = Cpy(size: nat) | Ts {
    function In(): nat {
      if Cpy? then size else 4
    }

    function Out(): nat {
      if Cpy? then size else 8
    }
  }

  function InLen(p: seq<Instr>): nat {
    if p == [] then 0 else InLen(p[..|p| - 1]) + p[|p| - 1].In()
  }

  function OutLen(p: seq<Instr>): nat {
    if p == [] then 0 else OutLen(p[..|p| - 1]) + p[|p| - 1].Out()
  }

  function ExecOne(i: Instr, c: Clock, rec: seq<byte>): seq<byte>
    requires |rec| == i.In()
  {
    match i
    case Cpy(_) => rec
    case Ts => Put64(TsRel2Abs(c, Get32(rec, 0)))
  }

  /** Bytes written by a program that reads all of `rec`. */
  function Exec(p: seq<Instr>, c: Clock, rec: seq<byte>): seq<byte>
    requires |rec| == InLen(p)
  {
    if p == [] then []
    else
      var n := |p| - 1;
      var cut := InLen(p[..n]);
      Exec(p[..n], c, rec[..cut]) + ExecOne(p[n], c, rec[cut..])
  }

  lemma {:induction false} ExecLen(p: seq<Instr>, c: Clock, rec: seq<byte>)
    requires |rec| == InLen(p)
    ensures |Exec(p, c, rec)| == OutLen(p)
  {
    if p != [] {
      ExecLen(p[..|p| - 1], c, rec[..InLen(p[..|p| - 1])]);
    }
  }

  lemma LenSnoc(p: seq<Instr>, i: Instr)
    ensures InLen(p + [i]) == InLen(p) + i.In() && OutLen(p + [i]) == OutLen(p) + i.Out()
  {
    assert (p + [i])[..|p|] == p;
  }

  lemma ExecSnoc(p: seq<Instr>, i: Instr, c: Clock, a: seq<byte>, b: seq<byte>)
    requires |a| == InLen(p) && |b| == i.In()
    ensures InLen(p + [i]) == |a + b|
    ensures Exec(p + [i], c, a + b) == Exec(p, c, a) + ExecOne(i, c, b)
  {
    LenSnoc(p, i);
    assert (p + [i])[..|p|] == p;
    assert (a + b)[..|a|] == a && (a + b)[|a|..] == b;
  }

  // ---------------------------------------------------------------- the compiler

  /** State of the conversion loop: specifiers written, instructions, bytes still to copy, record length. */
  datatype Acc = Acc(ipx: seq<byte>, instrs: seq<Instr>, cpySize: nat, drecLen: nat) {
    /** The instructions once the pending copy is added. */
    function Flush(): seq<Instr> {
      if cpySize > 0 then instrs + [Cpy(cpySize)] else instrs
    }
  }

  /** One iteration of the loop over the fields. */
  function StepField(a: Acc, f: Field, isScope: bool): Option<Acc> {
    if isScope then
      match FindOpts(OPTS_TABLE, f.id)
      case None => None
      case Some(m) =>
        if m.maxSize < f.len then None
        else Some(Acc(a.ipx + Put16(m.ipxId) + Put16(f.len), a.instrs, a.cpySize + f.len, a.drecLen + f.len))
    else
      match FindData(DATA_TABLE, f.id)
      case None =>
        var ipx :=
          if f.id < NF_INCOMP_ID_MIN then a.ipx + Put16(f.id) + Put16(f.len)
          else
            a.ipx + Put16(if f.id < 0x8000 then f.id + 0x8000 else f.id) + Put16(f.len)
            + Put32(if f.id < 0x8000 then NF_INCOMP_EN_LOW else NF_INCOMP_EN_HIGH);
        Some(Acc(ipx, a.instrs, a.cpySize + f.len, a.drecLen + f.len))
      case Some(m) =>
        if m.nfSize != f.len then None
        else
          // Neither table entry has an enterprise number
          Some(Acc(a.ipx + Put16(m.ipxId) + Put16(m.ipxSize), a.Flush() + [Ts], 0, a.drecLen + m.ipxSize))
  }

  /** The loop over the first fields of a template; `None` when one of them cannot be converted. */
  function Compile(fs: seq<Field>, scope: nat): Option<Acc> {
    if fs == [] then Some(Acc([], [], 0, 0))
    else
      var n := |fs| - 1;
      match Compile(fs[..n], scope)
      case None => None
      case Some(a) => StepField(a, fs[n], n < scope)
  }

  lemma {:induction false} CompileNonePrefix(fs: seq<Field>, scope: nat, k: nat)
    requires k <= |fs| && Compile(fs[..k], scope) == None
    ensures Compile(fs, scope) == None
    decreases |fs| - k
  {
    if k < |fs| {
      assert fs[..k + 1][..k] == fs[..k];
      CompileNonePrefix(fs, scope, k + 1);
    } else {
      assert fs[..k] == fs;
    }
  }

  /** The effect of one step, in terms of the reference meaning of the field. */
  lemma StepMeaning(a: Acc, f: Field, isScope: bool)
    ensures StepField(a, f, isScope).Some? <==> SpecOf(f, isScope).Some?
    ensures match StepField(a, f, isScope)
            case None => true
            case Some(b) =>
              var s := SpecOf(f, isScope).value;
              && b.ipx == a.ipx + EncSpec(s)
              && b.drecLen == a.drecLen + s.len
              && (if IsTs(f, isScope) then b.instrs == a.Flush() + [Ts] && b.cpySize == 0
                  else b.instrs == a.instrs && b.cpySize == a.cpySize + f.len)
  {
    TablesAgree(f);
  }

  lemma SpecsSnoc(fs: seq<Field>, scope: nat)
    requires fs != []
    ensures var n := |fs| - 1;
            && (Convertible(fs, scope) <==> Convertible(fs[..n], scope) && SpecOf(fs[n], n < scope).Some?)
            && (Convertible(fs, scope) ==>
                  Specs(fs, scope) == Specs(fs[..n], scope) + [SpecOf(fs[n], n < scope).value])
  {
    var n := |fs| - 1;
    if Convertible(fs, scope) {
      assert forall i | 0 <= i < n :: fs[..n][i] == fs[i];
    }
    if Convertible(fs[..n], scope) && SpecOf(fs[n], n < scope).Some? {
      assert forall i | 0 <= i < n :: SpecOf(fs[i], i < scope) == SpecOf(fs[..n][i], i < scope);
    }
  }

  lemma EncSnoc(ss: seq<Spec>, s: Spec)
    ensures EncSpecs(ss + [s]) == EncSpecs(ss) + EncSpec(s) && SumSpec(ss + [s]) == SumSpec(ss) + s.len
  {
    assert (ss + [s])[..|ss|] == ss;
  }

  /** Exactly the convertible templates compile, and the template part is the encoding of the specifiers. */
  lemma {:induction false} CompileTemplate(fs: seq<Field>, scope: nat)
    ensures Compile(fs, scope).Some? <==> Convertible(fs, scope)
    ensures match Compile(fs, scope)
            case None => true
            case Some(a) =>
              && a.ipx == EncSpecs(Specs(fs, scope)) && a.drecLen == SumSpec(Specs(fs, scope))
  {
    if fs != [] {
      var n := |fs| - 1;
      CompileTemplate(fs[..n], scope);
      SpecsSnoc(fs, scope);
      if Compile(fs[..n], scope).Some? {
        StepMeaning(Compile(fs[..n], scope).value, fs[n], n < scope);
        if Convertible(fs, scope) {
          EncSnoc(Specs(fs[..n], scope), SpecOf(fs[n], n < scope).value);
        }
      }
    }
  }

  lemma FlushLen(a: Acc)
    ensures InLen(a.Flush()) == InLen(a.instrs) + a.cpySize && OutLen(a.Flush()) == OutLen(a.instrs) + a.cpySize
  {
    LenSnoc(a.instrs, Cpy(a.cpySize));
  }

  lemma {:induction false} CompileLengths(fs: seq<Field>, scope: nat)
    requires Compile(fs, scope).Some?
    ensures var a := Compile(fs, scope).value;
            && InLen(a.Flush()) == SumLen(fs) && OutLen(a.Flush()) == a.drecLen
  {
    var a := Compile(fs, scope).value;
    FlushLen(a);
    if fs != [] {
      var n := |fs| - 1;
      CompileLengths(fs[..n], scope);
      var b := Compile(fs[..n], scope).value;
      StepMeaning(b, fs[n], n < scope);
      FlushLen(b);
      LenSnoc(b.Flush(), Ts);
    }
  }

  /** The last field of a record follows all the others, on both sides. */
  lemma {:induction false} RecordSplit(fs: seq<Field>, scope: nat, c: Clock, rec: seq<byte>)
    requires Convertible(fs, scope) && |rec| == SumLen(fs) && fs != []
    ensures var n, ss := |fs| - 1, Specs(fs, scope);
            var cut := |rec| - fs[n].len;
            && Convertible(fs[..n], scope) && cut == SumLen(fs[..n]) && Specs(fs[..n], scope) == ss[..n]
            && (IsTs(fs[n], n < scope) ==> fs[n].len == 4)
            && ConvRecord(fs, scope, c, rec)
               == ConvRecord(fs[..n], scope, c, rec[..cut]) + ConvField(fs[n], n < scope, c, rec[cut..])
            && |ConvRecord(fs[..n], scope, c, rec[..cut])| == SumSpec(ss[..n])
            && |ConvField(fs[n], n < scope, c, rec[cut..])| == ss[n].len
            && SumSpec(ss) == SumSpec(ss[..n]) + ss[n].len
  {
    var n := |fs| - 1;
    var cut := |rec| - fs[n].len;
    SpecsSnoc(fs, scope);
    assert Specs(fs, scope)[..n] == Specs(fs[..n], scope);
    NfIdRecoverable(fs[n], n < scope);
    assert |ConvField(fs[n], n < scope, c, rec[cut..])| == Specs(fs, scope)[n].len;
    hide SpecOf, Specs, Convertible, ConvField;
    if n > 0 {
      RecordSplit(fs[..n], scope, c, rec[..cut]);
    }
  }

  lemma OneField(f: Field, isScope: bool, c: Clock, raw: seq<byte>)
    requires SpecOf(f, isScope).Some? && |raw| == f.len
    ensures IsTs(f, isScope) ==> f.len == 4
    ensures ConvField(f, isScope, c, raw) == if IsTs(f, isScope) then ExecOne(Ts, c, raw) else raw
  {
  }

  lemma Assoc(a: seq<byte>, b: seq<byte>, c: seq<byte>)
    ensures a + b + c == a + (b + c)
  {
  }

  /** Lengthening the pending copy appends the copied bytes. */
  lemma ExtendCopy(a: Acc, b: Acc, c: Clock, base: seq<byte>, mid: seq<byte>, tail: seq<byte>)
    requires |base| == InLen(a.instrs) && |mid| == a.cpySize
    requires b.instrs == a.instrs && b.cpySize == a.cpySize + |tail|
    ensures InLen(a.Flush()) == |base + mid| && InLen(b.Flush()) == |base + mid + tail|
    ensures Exec(b.Flush(), c, base + mid + tail) == Exec(a.Flush(), c, base + mid) + tail
  {
    FlushCopies(a, c, base, mid);
    FlushCopies(b, c, base, mid + tail);
    Assoc(base, mid, tail);
    Assoc(Exec(a.instrs, c, base), mid, tail);
  }

  lemma FlushCopies(a: Acc, c: Clock, base: seq<byte>, mid: seq<byte>)
    requires |base| == InLen(a.instrs) && |mid| == a.cpySize
    ensures InLen(a.Flush()) == |base + mid|
    ensures Exec(a.Flush(), c, base + mid) == Exec(a.instrs, c, base) + mid
  {
    if a.cpySize > 0 {
      ExecSnoc(a.instrs, Cpy(a.cpySize), c, base, mid);
    } else {
      assert base + mid == base;
    }
  }

  /**
   * Meaning preservation: the coalesced program reads the whole record and writes what
   * converting every field on its own would write.
   */
  lemma {:induction false} CompileCorrect(fs: seq<Field>, scope: nat, c: Clock, rec: seq<byte>)
    requires Compile(fs, scope).Some? && |rec| == SumLen(fs)
    ensures Convertible(fs, scope)
    ensures InLen(Compile(fs, scope).value.Flush()) == |rec|
    ensures Exec(Compile(fs, scope).value.Flush(), c, rec) == ConvRecord(fs, scope, c, rec)
  {
    CompileTemplate(fs, scope);
    CompileLengths(fs, scope);
    if fs != [] {
      var n := |fs| - 1;
      var b, f := Compile(fs[..n], scope).value, fs[n];
      var head, tail := rec[..|rec| - f.len], rec[|rec| - f.len..];
      assert rec == head + tail;
      RecordSplit(fs, scope, c, rec);
      CompileCorrect(fs[..n], scope, c, head);
      hide StepField, SpecOf, ConvField, Exec, ConvRecord, InLen, SumLen, Specs, Convertible;
      StepExec(b, f, n < scope, c, head, tail);
    }
  }

  lemma StepExec(b: Acc, f: Field, isScope: bool, c: Clock, head: seq<byte>, tail: seq<byte>)
    requires StepField(b, f, isScope).Some? && |head| == InLen(b.Flush()) && |tail| == f.len
    ensures SpecOf(f, isScope).Some? && (IsTs(f, isScope) ==> f.len == 4)
    ensures var a := StepField(b, f, isScope).value.Flush();
            && InLen(a) == |head + tail|
            && Exec(a, c, head + tail) == Exec(b.Flush(), c, head) + ConvField(f, isScope, c, tail)
  {
    StepMeaning(b, f, isScope);
    OneField(f, isScope, c, tail);
    hide StepField, SpecOf, ConvField, Exec, InLen;
    var a := StepField(b, f, isScope).value;
    if IsTs(f, isScope) {
      ExecSnoc(b.Flush(), Ts, c, head, tail);
    } else {
      FlushLen(b);
      var cut := InLen(b.instrs);
      assert head == head[..cut] + head[cut..];
      ExtendCopy(b, a, c, head[..cut], head[cut..], tail);
    }
  }
}
