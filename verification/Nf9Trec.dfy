/**
 * Template records: the stored NetFlow template together with the IPFIX template and the
 * instructions it was compiled to, and the decoder of RFC 7011 that the IPFIX side must satisfy.
 */
module Nf9Trec {
  import opened Bytes
  import opened Nf9Parsers
  import opened Nf9Templates

  /** A record whose template cannot be converted is kept so that its Data Records can be skipped. */
  datatype Trec =
    | Convert(ty: u16, nf9Data: seq<byte>, nf9DrecLen: u16,
              ipxData: seq<byte>, ipxSize: u16, ipxDrecLen: u16, instrs: seq<Instr>)
    | Drop(ty: u16, nf9Data: seq<byte>, nf9DrecLen: u16)

  /** The template header; the Options Template counts fields where NetFlow counts bytes. */
  function EncHdr(ty: u16, raw: seq<byte>): seq<byte>
    requires IsTmplt(ty, raw)
  {
    if ty == SET_TMPLT then raw[..4]
    else raw[..2] + Put16(FieldCnt(ty, raw)) + Put16(ScopeCnt(ty, raw))
  }

  /** The compilation of a template: what conv_tmplt_from_data stores. The stored size is a 16-bit field. */
  function TrecOf(ty: u16, raw: seq<byte>): (t: Trec)
    requires IsTmplt(ty, raw)
    ensures t.Convert? ==> t.ipxSize <= |t.ipxData|
  {
    var fs, scope := RecFields(ty, raw), ScopeCnt(ty, raw);
    if ty == SET_OPTS_TMPLT && scope == 0 then Drop(ty, raw, SumLen(fs))
    else match Compile(fs, scope)
      case None => Drop(ty, raw, SumLen(fs))
      case Some(a) =>
        if a.drecLen > MAX_SET_CONTENT_LEN then Drop(ty, raw, SumLen(fs))
        else
          var ipx := EncHdr(ty, raw) + a.ipx;
          Convert(ty, raw, SumLen(fs), ipx, |ipx| % U16_SIZE, a.drecLen, a.Flush())
  }

  /** The bytes that conv_tmplt_append adds to the message. */
  function Appended(t: Trec): seq<byte>
    requires t.Convert? && t.ipxSize <= |t.ipxData|
  {
    t.ipxData[..t.ipxSize]
  }

  /** The parts of a converted template record, without the compiler. */
  lemma TrecShape(ty: u16, raw: seq<byte>)
    requires IsTmplt(ty, raw) && (ty == SET_TMPLT || ty == SET_OPTS_TMPLT) && TrecOf(ty, raw).Convert?
    ensures var fs, scope, t := RecFields(ty, raw), ScopeCnt(ty, raw), TrecOf(ty, raw);
            && Convertible(fs, scope) && |Specs(fs, scope)| == FieldCnt(ty, raw)
            && t.ipxData == EncHdr(ty, raw) + EncSpecs(Specs(fs, scope)) && t.ipxSize == |t.ipxData| % U16_SIZE
            && t.ipxDrecLen == SumSpec(Specs(fs, scope)) <= MAX_SET_CONTENT_LEN
            && t.nf9DrecLen == SumLen(fs) && t.ty == ty && t.nf9Data == raw
  {
    CompileTemplate(RecFields(ty, raw), ScopeCnt(ty, raw));
  }

  /** Exactly these templates are refused. */
  lemma DropCondition(ty: u16, raw: seq<byte>)
    requires IsTmplt(ty, raw)
    ensures var fs, scope := RecFields(ty, raw), ScopeCnt(ty, raw);
            TrecOf(ty, raw).Drop? <==>
            || (ty == 1 && scope == 0)
            || !Convertible(fs, scope)
            || SumSpec(Specs(fs, scope)) > 65515
  {
    CompileTemplate(RecFields(ty, raw), ScopeCnt(ty, raw));
  }

  // ---------------------------------------------------------------- the instruction vector

  /** The growing vector at the end of a template record. */
  class InstrVec {
    var data: array<Instr>
    var size: nat

    ghost predicate Valid()
      reads this
    {
      0 < data.Length && size <= data.Length
    }

    ghost function View(): seq<Instr>
      requires Valid()
      reads this, data
    {
      data[..size]
    }

    constructor (alloc: nat)
      requires alloc > 0
      ensures Valid() && fresh(data) && View() == []
    {
      data := new Instr[alloc](_ => Ts);
      size := 0;
    }

    method Add(i: Instr)
      requires Valid()
      modifies this, data
      ensures Valid() && (data == old(data) || fresh(data))
      ensures View() == old(View()) + [i]
    {
      if size == data.Length {
        var grown := new Instr[2 * size](k requires 0 <= k < 2 * size reads this, data =>
                                           if k < data.Length then data[k] else Ts);
        data := grown;
      }
      data[size] := i;
      size := size + 1;
    }
  }

  // ---------------------------------------------------------------- the compiler as it runs

  method ConvTmpltProcess(ty: u16, raw: seq<byte>) returns (t: Trec)
    requires IsTmplt(ty, raw) && (ty == SET_TMPLT || ty == SET_OPTS_TMPLT)
    ensures t == TrecOf(ty, raw)
  {
    var total, scope := FieldCnt(ty, raw), ScopeCnt(ty, raw);
    var body := raw[HdrLen(ty)..];
    var nf9DrecLen := TsetIter.DataSize(body, total);
    if ty == SET_OPTS_TMPLT && scope == 0 {
      return Drop(ty, raw, nf9DrecLen);
    }
    var ok, ipx, drecLen, vec := ProcessFields(body, total, scope);
    if !ok || drecLen > MAX_SET_CONTENT_LEN {
      return Drop(ty, raw, nf9DrecLen);
    }
    var hdr := EncHdr(ty, raw);
    t := Convert(ty, raw, nf9DrecLen, hdr + ipx, (|hdr| + |ipx|) % U16_SIZE, drecLen, vec.data[..vec.size]);
  }

  /** The loop over the field definitions and the final flush of the pending copy. */
  method ProcessFields(body: seq<byte>, total: nat, scope: nat)
    returns (ok: bool, ipx: seq<byte>, drecLen: nat, vec: InstrVec)
    requires total * IE_LEN <= |body|
    ensures vec.Valid()
    ensures match Compile(FieldsOf(body, total), scope)
            case None => !ok
            case Some(a) => ok && a.ipx == ipx && a.Flush() == vec.View() && a.drecLen == drecLen
  {
    hide StepField, InstrVec.View;
    ghost var fs := FieldsOf(body, total);
    vec := new InstrVec(1);
    ipx, drecLen, ok := [], 0, true;
    var cpySize: nat := 0;
    for i := 0 to total
      invariant vec.Valid() && fresh(vec) && fresh(vec.data)
      invariant Compile(fs[..i], scope) == Some(Acc(ipx, vec.View(), cpySize, drecLen))
    {
      var id, size := Get16(body, i * IE_LEN), Get16(body, i * IE_LEN + 2);
      assert fs[i] == Field(id, size) && fs[..i + 1][..i] == fs[..i];
      assert Compile(fs[..i + 1], scope) == StepField(Acc(ipx, vec.View(), cpySize, drecLen), fs[i], i < scope);
      ok, ipx, cpySize, drecLen := ProcessField(Field(id, size), i < scope, ipx, cpySize, drecLen, vec);
      if !ok {
        CompileNonePrefix(fs, scope, i + 1);
        return;
      }
    }
    assert fs[..total] == fs;
    if cpySize > 0 {
      vec.Add(Cpy(cpySize));
    }
  }

  /** One field definition: a scope field, a field kept or given an enterprise number, or a timestamp. */
  method ProcessField(f: Field, isScope: bool, ipx0: seq<byte>, cpy0: nat, drec0: nat, vec: InstrVec)
    returns (ok: bool, ipx: seq<byte>, cpySize: nat, drecLen: nat)
    requires vec.Valid()
    modifies vec, vec.data
    ensures vec.Valid() && (vec.data == old(vec.data) || fresh(vec.data))
    ensures match StepField(Acc(ipx0, old(vec.View()), cpy0, drec0), f, isScope)
            case None => !ok
            case Some(a) => ok && a == Acc(ipx, vec.View(), cpySize, drecLen)
  {
    ok, ipx, cpySize, drecLen := true, ipx0, cpy0, drec0;
    if isScope {
      var m := FindOpts(OPTS_TABLE, f.id);
      if m == None || m.value.maxSize < f.len {
        return false, [], 0, 0;
      }
      ipx := ipx + Put16(m.value.ipxId) + Put16(f.len);
      cpySize, drecLen := cpySize + f.len, drecLen + f.len;
      return;
    }
    var m := FindData(DATA_TABLE, f.id);
    if m == None {
      cpySize, drecLen := cpySize + f.len, drecLen + f.len;
      if f.id < NF_INCOMP_ID_MIN {
        ipx := ipx + Put16(f.id) + Put16(f.len);
        return;
      }
      ipx := ipx + Put16(if f.id < 0x8000 then f.id + 0x8000 else f.id) + Put16(f.len);
      ipx := ipx + Put32(if f.id < 0x8000 then NF_INCOMP_EN_LOW else NF_INCOMP_EN_HIGH);
      return;
    }
    if m.value.nfSize != f.len {
      return false, [], 0, 0;
    }
    drecLen := drecLen + m.value.ipxSize;
    if cpySize > 0 {
      vec.Add(Cpy(cpySize));
      cpySize := 0;
    }
    vec.Add(Ts);
    ipx := ipx + Put16(m.value.ipxId) + Put16(m.value.ipxSize);
  }

  // ---------------------------------------------------------------- what a compiled record does

  /**
   * Every Data Record of a converted template: the instructions consume exactly the NetFlow record,
   * write exactly the announced IPFIX record, and equal the field-by-field conversion.
   */
  lemma RecordConversion(ty: u16, raw: seq<byte>, c: Clock, rec: seq<byte>)
    requires IsTmplt(ty, raw) && TrecOf(ty, raw).Convert?
    requires |rec| == TrecOf(ty, raw).nf9DrecLen
    ensures var t, fs, scope := TrecOf(ty, raw), RecFields(ty, raw), ScopeCnt(ty, raw);
            && t.nf9DrecLen > 0 && t.instrs != []
            && InLen(t.instrs) == |rec| && Convertible(fs, scope) && SumLen(fs) == |rec|
            && Exec(t.instrs, c, rec) == ConvRecord(fs, scope, c, rec)
            && |Exec(t.instrs, c, rec)| == t.ipxDrecLen
  {
    var fs, scope := RecFields(ty, raw), ScopeCnt(ty, raw);
    CompileLengths(fs, scope);
    CompileCorrect(fs, scope, c, rec);
    ExecLen(TrecOf(ty, raw).instrs, c, rec);
  }

  lemma {:induction false} SumPrefix(fs: seq<Field>, ss: seq<Spec>, k: nat)
    requires k < |fs| && |fs| == |ss|
    ensures SumLen(fs[..k]) + fs[k].len <= SumLen(fs) && SumSpec(ss[..k]) + ss[k].len <= SumSpec(ss)
    decreases |fs|
  {
    var n := |fs| - 1;
    if k < n {
      SumPrefix(fs[..n], ss[..n], k);
      assert fs[..n][..k] == fs[..k] && ss[..n][..k] == ss[..k];
    }
  }

  /** The conversion of the first fields is a prefix of the conversion of the record. */
  lemma {:induction false} RecordPrefix(fs: seq<Field>, scope: nat, c: Clock, rec: seq<byte>, k: nat)
    requires Convertible(fs, scope) && |rec| == SumLen(fs) && k <= |fs|
    ensures Convertible(fs[..k], scope) && SumLen(fs[..k]) <= |rec|
    ensures |ConvRecord(fs, scope, c, rec)| == SumSpec(Specs(fs, scope))
    ensures Specs(fs[..k], scope) == Specs(fs, scope)[..k]
    ensures ConvRecord(fs[..k], scope, c, rec[..SumLen(fs[..k])]) <= ConvRecord(fs, scope, c, rec)
    decreases |fs|
  {
    hide ConvField, SpecOf, Specs, Convertible, ConvRecord, SumLen, SumSpec;
    SumLenPrefix(fs, k);
    if k == |fs| {
      assert fs[..k] == fs && rec[..SumLen(fs[..k])] == rec;
      RecordLen(fs, scope, c, rec);
    } else {
      var n := |fs| - 1;
      RecordSplit(fs, scope, c, rec);
      var cut := |rec| - fs[n].len;
      assert fs[..n][..k] == fs[..k];
      SumLenPrefix(fs[..n], k);
      CutTwice(rec, cut, SumLen(fs[..k]), Specs(fs, scope), n, k);
      RecordPrefix(fs[..n], scope, c, rec[..cut], k);
      var head, tail := ConvRecord(fs[..n], scope, c, rec[..cut]), ConvField(fs[n], n < scope, c, rec[cut..]);
      PrefixMore(ConvRecord(fs[..k], scope, c, rec[..SumLen(fs[..k])]), head, tail);
    }
  }

  lemma PrefixMore(a: seq<byte>, b: seq<byte>, c: seq<byte>)
    requires a <= b
    ensures a <= b + c && |b + c| == |b| + |c|
  {
  }

  lemma CutTwice(rec: seq<byte>, cut: nat, len: nat, ss: seq<Spec>, n: nat, k: nat)
    requires len <= cut <= |rec| && k <= n <= |ss|
    ensures rec[..cut][..len] == rec[..len] && ss[..n][..k] == ss[..k]
  {
  }

  lemma RecordLen(fs: seq<Field>, scope: nat, c: Clock, rec: seq<byte>)
    requires Convertible(fs, scope) && |rec| == SumLen(fs)
    ensures |ConvRecord(fs, scope, c, rec)| == SumSpec(Specs(fs, scope))
    ensures Specs(fs, scope)[..|fs|] == Specs(fs, scope)
  {
    if fs != [] {
      RecordSplit(fs, scope, c, rec);
      hide ConvField, SpecOf;
    }
  }

  /**
   * The field that the IPFIX template places at an offset of the converted record is the
   * conversion of the field that the NetFlow template places at its offset.
   */
  lemma {:induction false} FieldAtOffset(fs: seq<Field>, scope: nat, c: Clock, rec: seq<byte>, k: nat)
    requires Convertible(fs, scope) && |rec| == SumLen(fs) && k < |fs|
    ensures var out, ss := ConvRecord(fs, scope, c, rec), Specs(fs, scope);
            var from, to := SumLen(fs[..k]), SumSpec(ss[..k]);
            && |out| == SumSpec(ss) && from + fs[k].len <= |rec| && to + ss[k].len <= |out|
            && (IsTs(fs[k], k < scope) ==> fs[k].len == 4)
            && out[to..to + ss[k].len] == ConvField(fs[k], k < scope, c, rec[from..from + fs[k].len])
  {
    hide ConvField;
    var fs', from, upto := fs[..k + 1], SumLen(fs[..k]), SumLen(fs[..k + 1]);
    assert fs'[..k] == fs[..k];
    RecordPrefix(fs, scope, c, rec, k + 1);
    RecordSplit(fs', scope, c, rec[..upto]);
    assert rec[..upto][from..] == rec[from..from + fs[k].len];
    assert Specs(fs, scope)[..k + 1][..k] == Specs(fs, scope)[..k];
    var out, head := ConvRecord(fs, scope, c, rec), ConvRecord(fs', scope, c, rec[..upto]);
    var to := SumSpec(Specs(fs, scope)[..k]);
    var last := ConvField(fs[k], k < scope, c, rec[from..from + fs[k].len]);
    assert head[to..] == last;
    assert out[..|head|] == head;
    assert out[to..to + |last|] == head[to..];
  }

  // ---------------------------------------------------------------- decoding the IPFIX template

  /** `n` field specifiers (section 3.2 of RFC 7011) and the bytes after them. */
  function DecSpecs(b: seq<byte>, n: nat): Option<(seq<Spec>, seq<byte>)>
    decreases n
  {
    if n == 0 then Some(([], b))
    else if |b| < 4 then None
    else
      var id, len := Get16(b, 0), Get16(b, 2);
      if id >= 0x8000 && |b| < 8 then None
      else
        var s := if id < 0x8000 then Spec(id, None, len) else Spec(id - 0x8000, Some(Get32(b, 4)), len);
        match DecSpecs(b[if id < 0x8000 then 4 else 8..], n - 1)
        case None => None
        case Some(r) => Some(([s] + r.0, r.1))
  }

  datatype IpxTmplt = IpxTmplt(tid: u16, scope: nat, specs: seq<Spec>)

  /** An (Options) Template Record (sections 3.4.1 and 3.4.2.2 of RFC 7011) and the bytes after it. */
  function DecTmplt(ty: u16, b: seq<byte>): Option<(IpxTmplt, seq<byte>)> {
    if |b| < HdrLen(ty) then None
    else
      match DecSpecs(b[HdrLen(ty)..], Get16(b, 2))
      case None => None
      case Some(r) => Some((IpxTmplt(Get16(b, 0), if ty == SET_TMPLT then 0 else Get16(b, 4), r.0), r.1))
  }

  /** What the NetFlow template says, as an IPFIX template. */
  function Translated(ty: u16, raw: seq<byte>): IpxTmplt
    requires IsTmplt(ty, raw) && Convertible(RecFields(ty, raw), ScopeCnt(ty, raw))
  {
    IpxTmplt(Get16(raw, 0), ScopeCnt(ty, raw), Specs(RecFields(ty, raw), ScopeCnt(ty, raw)))
  }

  lemma {:induction false} EncSpecsFront(s: Spec, ss: seq<Spec>)
    ensures EncSpecs([s] + ss) == EncSpec(s) + EncSpecs(ss)
  {
    hide EncSpec;
    if ss == [] {
      EncSnoc([], s);
      assert [s] + ss == [] + [s];
    } else {
      var n := |ss| - 1;
      EncSpecsFront(s, ss[..n]);
      EncSnoc([s] + ss[..n], ss[n]);
      assert [s] + ss == [s] + ss[..n] + [ss[n]];
      var a, b, c := EncSpec(s), EncSpecs(ss[..n]), EncSpec(ss[n]);
      assert EncSpecs(ss) == b + c;
      assert a + b + c == a + (b + c);
    }
  }

  lemma DecOne(s: Spec, rest: seq<byte>, n: nat)
    requires n > 0
    ensures DecSpecs(EncSpec(s) + rest, n) == match DecSpecs(rest, n - 1)
                                              case None => None
                                              case Some(r) => Some(([s] + r.0, r.1))
  {
    var b := EncSpec(s) + rest;
    assert Get16(b, 0) == s.id + if s.en == None then 0 else 0x8000;
    assert Get16(b, 2) == s.len;
    if s.en.Some? {
      assert b[4..] == Put32(s.en.value) + rest && b[8..] == rest;
      GetPut32(s.en.value, rest);
      Get32Tail(b, 4);
    } else {
      assert b[4..] == rest;
    }
  }

  lemma Get32Tail(b: seq<byte>, at: nat)
    requires at + 4 <= |b|
    ensures Get32(b[at..], 0) == Get32(b, at)
  {
  }

  lemma {:induction false} DecEnc(ss: seq<Spec>, rest: seq<byte>)
    ensures DecSpecs(EncSpecs(ss) + rest, |ss|) == Some((ss, rest))
  {
    if ss == [] {
      assert EncSpecs(ss) + rest == rest;
    } else {
      DecEnc(ss[1..], rest);
      DecFront(ss[0], ss[1..], rest);
      assert [ss[0]] + ss[1..] == ss;
    }
  }

  lemma DecFront(s: Spec, ss: seq<Spec>, rest: seq<byte>)
    requires DecSpecs(EncSpecs(ss) + rest, |ss|) == Some((ss, rest))
    ensures DecSpecs(EncSpecs([s] + ss) + rest, 1 + |ss|) == Some(([s] + ss, rest))
  {
    hide EncSpec, EncSpecs, DecSpecs;
    EncSpecsFront(s, ss);
    Assoc(EncSpec(s), EncSpecs(ss), rest);
    DecOne(s, EncSpecs(ss) + rest, 1 + |ss|);
  }

  lemma DecOneCut(s: Spec, k: nat, n: nat)
    requires n > 0 && k < |EncSpec(s)|
    ensures DecSpecs(EncSpec(s)[..k], n) == None
  {
    if k >= 4 {
      assert Get16(EncSpec(s)[..k], 0) == s.id + 0x8000;
    }
  }

  /** A specifier list that lost bytes at its end is not decodable. */
  lemma {:induction false} DecCut(ss: seq<Spec>, k: nat)
    requires k < |EncSpecs(ss)|
    ensures DecSpecs(EncSpecs(ss)[..k], |ss|) == None
  {
    assert ss != [];
    EncSpecsFront(ss[0], ss[1..]);
    hide EncSpec, EncSpecs, DecSpecs;
    assert [ss[0]] + ss[1..] == ss;
    var e, tail := EncSpec(ss[0]), EncSpecs(ss[1..]);
    if k < |e| {
      assert (e + tail)[..k] == e[..k];
      DecOneCut(ss[0], k, |ss|);
    } else {
      assert (e + tail)[..k] == e + tail[..k - |e|];
      DecCut(ss[1..], k - |e|);
      DecOne(ss[0], tail[..k - |e|], |ss|);
    }
  }

  lemma {:induction false} EncSpecsSize(ss: seq<Spec>)
    ensures |EncSpecs(ss)| <= 8 * |ss|
  {
    if ss != [] {
      EncSpecsSize(ss[..|ss| - 1]);
    }
  }

  /** Whatever decodes to specifiers is as long as their encoding. */
  lemma {:induction false} DecReads(b: seq<byte>, n: nat)
    requires DecSpecs(b, n).Some?
    ensures var r := DecSpecs(b, n).value; |b| == |EncSpecs(r.0)| + |r.1|
    decreases n
  {
    if n > 0 {
      var r, size := DecSpecs(b, n).value, if Get16(b, 0) < 0x8000 then 4 else 8;
      DecReads(b[size..], n - 1);
      EncSpecsFront(r.0[0], r.0[1..]);
      assert r.0 == [r.0[0]] + r.0[1..];
    }
  }

  lemma HdrFacts(ty: u16, raw: seq<byte>)
    requires IsTmplt(ty, raw) && (ty == SET_TMPLT || ty == SET_OPTS_TMPLT)
    ensures |EncHdr(ty, raw)| == HdrLen(ty)
    ensures Get16(EncHdr(ty, raw), 0) == Get16(raw, 0) && Get16(EncHdr(ty, raw), 2) == FieldCnt(ty, raw)
    ensures ty == SET_OPTS_TMPLT ==> Get16(EncHdr(ty, raw), 4) == ScopeCnt(ty, raw)
    ensures |RecFields(ty, raw)| == FieldCnt(ty, raw)
  {
  }

  /** A header followed by its specifiers decodes, whatever comes next; cut short, it does not. */
  lemma DecHdrSpecs(ty: u16, hdr: seq<byte>, ss: seq<Spec>, rest: seq<byte>, cut: nat)
    requires |hdr| == HdrLen(ty) && Get16(hdr, 2) == |ss|
    requires cut < |hdr + EncSpecs(ss)|
    ensures DecTmplt(ty, hdr + EncSpecs(ss) + rest)
            == Some((IpxTmplt(Get16(hdr, 0), if ty == SET_TMPLT then 0 else Get16(hdr, 4), ss), rest))
    ensures DecTmplt(ty, (hdr + EncSpecs(ss))[..cut]) == None
  {
    hide EncSpec, EncSpecs, DecSpecs;
    var h, enc := |hdr|, EncSpecs(ss);
    var b := hdr + enc + rest;
    DecEnc(ss, rest);
    assert b[h..] == enc + rest;
    assert Get16(b, 0) == Get16(hdr, 0) && Get16(b, 2) == Get16(hdr, 2);
    assert h == 6 ==> Get16(b, 4) == Get16(hdr, 4);
    if cut >= h {
      var d := (hdr + enc)[..cut];
      assert d[h..] == enc[..cut - h] && Get16(d, 2) == Get16(hdr, 2);
      DecCut(ss, cut - h);
    }
  }

  /**
   * Encoding round trip. The full encoding decodes to the translated template, whatever follows;
   * the bytes appended to the message are the full encoding if and only if it is shorter than
   * 2^16 bytes, which up to 8191 fields guarantee, and decode to the template only in that case.
   * The encoding never exceeds the memory reserved for it (8 bytes a field after the header).
   */
  lemma TemplateRoundTrip(ty: u16, raw: seq<byte>, rest: seq<byte>)
    requires IsTmplt(ty, raw) && (ty == SET_TMPLT || ty == SET_OPTS_TMPLT) && TrecOf(ty, raw).Convert?
    ensures Convertible(RecFields(ty, raw), ScopeCnt(ty, raw))
    ensures var t := TrecOf(ty, raw);
            && t.ipxSize <= |t.ipxData| <= 6 + 8 * FieldCnt(ty, raw)
            && DecTmplt(ty, t.ipxData + rest) == Some((Translated(ty, raw), rest))
            && (FieldCnt(ty, raw) <= 8191 ==> |t.ipxData| < U16_SIZE)
            && (Appended(t) == t.ipxData <==> |t.ipxData| < U16_SIZE)
            && (DecTmplt(ty, Appended(t)) == Some((Translated(ty, raw), [])) <==> |t.ipxData| < U16_SIZE)
            && t.ipxDrecLen == SumSpec(Translated(ty, raw).specs)
  {
    hide EncSpec, EncSpecs, DecSpecs, DecTmplt, TrecOf, EncHdr, RecError, RecFields, FieldsOf, FieldCnt,
         Specs, SpecOf, Convertible, SumLen, SumSpec, Compile;
    TrecShape(ty, raw);
    HdrFacts(ty, raw);
    var t, hdr, ss := TrecOf(ty, raw), EncHdr(ty, raw), Specs(RecFields(ty, raw), ScopeCnt(ty, raw));
    EncSpecsSize(ss);
    DecHdrSpecs(ty, hdr, ss, rest, 0);
    DecHdrSpecs(ty, hdr, ss, [], |t.ipxData| - 1);
    assert t.ipxData + [] == t.ipxData;
    if |t.ipxData| >= U16_SIZE {
      assert |t.ipxData| % U16_SIZE < |t.ipxData|;
      DecHdrSpecs(ty, hdr, ss, [], t.ipxSize);
    }
  }

  /** Fields that get an enterprise number. */
  function Wide(fs: seq<Field>, scope: nat): nat {
    if fs == [] then 0
    else
      var n := |fs| - 1;
      Wide(fs[..n], scope) + if n >= scope && fs[n].id >= NF_INCOMP_ID_MIN then 1 else 0
  }

  /** The size of a template as IPFIX: its header, four bytes a field, and four more for every enterprise number. */
  function EncodedSize(ty: u16, raw: seq<byte>): nat
    requires IsTmplt(ty, raw)
  {
    HdrLen(ty) + 4 * FieldCnt(ty, raw) + 4 * Wide(RecFields(ty, raw), ScopeCnt(ty, raw))
  }

  lemma {:induction false} SpecsSize(fs: seq<Field>, scope: nat)
    requires Convertible(fs, scope)
    ensures |EncSpecs(Specs(fs, scope))| == 4 * |fs| + 4 * Wide(fs, scope)
    ensures Wide(fs, scope) <= |fs|
  {
    if fs != [] {
      var n := |fs| - 1;
      SpecsSnoc(fs, scope);
      SpecsSize(fs[..n], scope);
      EncSnoc(Specs(fs[..n], scope), SpecOf(fs[n], n < scope).value);
      hide Specs, EncSpecs, Convertible;
    }
  }

  /** The size can be computed from the NetFlow template; up to 8191 fields it fits 16 bits. */
  lemma EncodedSizeIs(ty: u16, raw: seq<byte>)
    requires IsTmplt(ty, raw) && (ty == SET_TMPLT || ty == SET_OPTS_TMPLT) && TrecOf(ty, raw).Convert?
    ensures |TrecOf(ty, raw).ipxData| == EncodedSize(ty, raw)
    ensures FieldCnt(ty, raw) <= 8191 ==> EncodedSize(ty, raw) < U16_SIZE
  {
    TrecShape(ty, raw);
    HdrFacts(ty, raw);
    SpecsSize(RecFields(ty, raw), ScopeCnt(ty, raw));
    hide TrecOf, IsTmplt, RecError, Specs, EncSpecs, Wide;
  }

  /** Emitted specifiers: never the variable-length marker of section 7 of RFC 7011, and the NetFlow ID is recoverable. */
  lemma SpecifiersFaithful(ty: u16, raw: seq<byte>, k: nat)
    requires IsTmplt(ty, raw) && TrecOf(ty, raw).Convert? && k < FieldCnt(ty, raw)
    ensures Convertible(RecFields(ty, raw), ScopeCnt(ty, raw))
    ensures var f, s, isScope := RecFields(ty, raw)[k], Translated(ty, raw).specs[k], k < ScopeCnt(ty, raw);
            && NfIdOf(s, isScope) == f.id && s.len != 65535
            && s.len == if IsTs(f, isScope) then 8 else f.len
  {
    var fs, scope := RecFields(ty, raw), ScopeCnt(ty, raw);
    CompileTemplate(fs, scope);
    NfIdRecoverable(fs[k], k < scope);
    SumPrefix(fs, Specs(fs, scope), k);
  }

  // ---------------------------------------------------------------- a template beyond the limit

  /** 8192 one-byte fields with enterprise-specific IDs: 65540 bytes as IPFIX. */
  function BigTemplate(): seq<byte> {
    Put16(256) + Put16(8192) + seq(4 * 8192, k requires 0 <= k => if k % 4 == 1 then 200 else if k % 4 == 3 then 1 else 0)
  }

  lemma {:induction false} SumOnes(fs: seq<Field>)
    requires forall i | 0 <= i < |fs| :: fs[i] == Field(200, 1)
    ensures SumLen(fs) == |fs|
  {
    if fs != [] { SumOnes(fs[..|fs| - 1]); }
  }

  lemma {:induction false} EncWide(ss: seq<Spec>)
    requires forall i | 0 <= i < |ss| :: ss[i] == Spec(200, Some(NF_INCOMP_EN_LOW), 1)
    ensures |EncSpecs(ss)| == 8 * |ss| && SumSpec(ss) == |ss|
  {
    if ss != [] { EncWide(ss[..|ss| - 1]); }
  }

  /** The 16-bit size is really exceeded: an accepted, convertible template of which 4 bytes are emitted. */
  lemma OversizedTemplate()
    ensures IsTmplt(SET_TMPLT, BigTemplate())
    ensures TrecOf(SET_TMPLT, BigTemplate()).Convert? && TrecOf(SET_TMPLT, BigTemplate()).ipxSize == 4
  {
    var raw := BigTemplate();
    BigFields();
    hide BigTemplate, SumLen, SumSpec, EncSpecs, FieldsOf, Compile, EncHdr;
    assert FieldCnt(SET_TMPLT, raw) == 8192;
    var fs := RecFields(SET_TMPLT, raw);
    assert fs == FieldsOf(raw[4..], 8192) && |fs| == 8192;
    SumOnes(fs);
    assert IsTmplt(SET_TMPLT, raw);
    CompileTemplate(fs, 0);
    HdrFacts(SET_TMPLT, raw);
    EncWide(Specs(fs, 0));
  }

  lemma BigFields()
    ensures |BigTemplate()| == 4 + 4 * 8192 && Get16(BigTemplate(), 0) == 256 && Get16(BigTemplate(), 2) == 8192
    ensures |FieldsOf(BigTemplate()[4..], 8192)| == 8192
    ensures forall i | 0 <= i < 8192 :: FieldsOf(BigTemplate()[4..], 8192)[i] == Field(200, 1)
  {
    var raw := BigTemplate();
    forall i | 0 <= i < 8192 ensures FieldsOf(raw[4..], 8192)[i] == Field(200, 1) {
      BigField(i);
    }
    hide BigTemplate;
  }

  lemma BigField(i: nat)
    requires i < 8192
    ensures |BigTemplate()| == 4 + 4 * 8192 && FieldsOf(BigTemplate()[4..], 8192)[i] == Field(200, 1)
  {
    var raw, at := BigTemplate(), 4 + 4 * i;
    assert raw[at] == 0 && raw[at + 1] == 200 && raw[at + 2] == 0 && raw[at + 3] == 1;
    var body := raw[4..];
    assert body[4 * i] == raw[at] && body[4 * i + 1] == raw[at + 1] && body[4 * i + 2] == raw[at + 2] && body[4 * i + 3] == raw[at + 3];
    hide BigTemplate;
  }
}
