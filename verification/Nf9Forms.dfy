/** Template records and field specifiers as the two protocols write them, and how the converter reads and translates them. */
module Nf9Forms {
  import opened Bytes
  import opened Nf9Parsers
  import opened Nf9Templates

  /** Field specifiers of NetFlow v9: type and length, 16 bits each. */
  function NfFields(fs: seq<Field>): seq<byte> {
    if fs == [] then [] else NfFields(fs[..|fs| - 1]) + (Put16(fs[|fs| - 1].id) + Put16(fs[|fs| - 1].len))
  }

  /** A Template Record (section 5.2 of RFC 3954). */
  function NfTemplate(tid: u16, fs: seq<Field>): seq<byte>
    requires |fs| < 0x1_0000
  {
    Put16(tid) + Put16(|fs|) + NfFields(fs)
  }

  /** An Options Template Record (section 6.1 of RFC 3954): its two lengths count bytes. */
  function NfOptions(tid: u16, scopes: seq<Field>, options: seq<Field>): seq<byte>
    requires 4 * |scopes| < 0x1_0000 && 4 * |options| < 0x1_0000
  {
    Put16(tid) + Put16(4 * |scopes|) + Put16(4 * |options|) + NfFields(scopes + options)
  }

  lemma {:induction false} NfFieldsAt(fs: seq<Field>, i: nat)
    requires i < |fs|
    ensures |NfFields(fs)| == 4 * |fs|
    ensures Get16(NfFields(fs), 4 * i) == fs[i].id && Get16(NfFields(fs), 4 * i + 2) == fs[i].len
  {
    var n := |fs| - 1;
    NfFieldsSize(fs[..n]);
    if i < n {
      NfFieldsAt(fs[..n], i);
    }
  }

  lemma {:induction false} NfFieldsSize(fs: seq<Field>)
    ensures |NfFields(fs)| == 4 * |fs|
  {
    if fs != [] {
      NfFieldsSize(fs[..|fs| - 1]);
    }
  }

  lemma NfFieldsRead(fs: seq<Field>)
    ensures |NfFields(fs)| == 4 * |fs| && FieldsOf(NfFields(fs), |fs|) == fs
  {
    NfFieldsSize(fs);
    forall i | 0 <= i < |fs| ensures FieldsOf(NfFields(fs), |fs|)[i] == fs[i] {
      NfFieldsAt(fs, i);
    }
  }

  /** A template is read back as it was built, and accepted exactly with a good ID, a field, and records that fit a message. */
  lemma TemplateRead(tid: u16, fs: seq<Field>)
    requires |fs| < 0x1_0000
    ensures var raw := NfTemplate(tid, fs);
            && |raw| == 4 + 4 * |fs| && RecSize(0, raw) == |raw| && ScopeCnt(0, raw) == 0 && RecFields(0, raw) == fs && Get16(raw, 0) == tid
            && (IsTmplt(0, raw) <==> tid >= 256 && fs != [] && 0 < SumLen(fs) <= 65511)
  {
    var raw := NfTemplate(tid, fs);
    NfFieldsRead(fs);
    hide NfFields, FieldsOf, SumLen;
    assert raw[4..] == NfFields(fs);
    assert Get16(raw, 0) == tid && Get16(raw, 2) == |fs|;
  }

  /** So is an Options Template, with its scope fields first. */
  lemma OptionsRead(tid: u16, scopes: seq<Field>, options: seq<Field>)
    requires 4 * |scopes| < 0x1_0000 && 4 * |options| < 0x1_0000
    ensures var raw, fs := NfOptions(tid, scopes, options), scopes + options;
            && |raw| == 6 + 4 * |fs| && RecSize(1, raw) == |raw| && ScopeCnt(1, raw) == |scopes| && RecFields(1, raw) == fs && Get16(raw, 0) == tid
            && (IsTmplt(1, raw) <==> tid >= 256 && fs != [] && 0 < SumLen(fs) <= 65511)
  {
    var raw, fs := NfOptions(tid, scopes, options), scopes + options;
    NfFieldsRead(fs);
    hide NfFields, FieldsOf, SumLen;
    assert raw[6..] == NfFields(fs);
    assert Get16(raw, 0) == tid && Get16(raw, 2) == 4 * |scopes| && Get16(raw, 4) == 4 * |options|;
  }

  /** Whatever is accepted was built like this. */
  lemma AcceptedForm(ty: u16, raw: seq<byte>)
    requires IsTmplt(ty, raw) && ty <= 1
    ensures ty == 0 ==> |RecFields(ty, raw)| < 0x1_0000 && raw == NfTemplate(Get16(raw, 0), RecFields(ty, raw))
    ensures ty == 1 ==> var fs, n := RecFields(ty, raw), ScopeCnt(ty, raw);
                        && n <= |fs| && 4 * n < 0x1_0000 && 4 * (|fs| - n) < 0x1_0000
                        && raw == NfOptions(Get16(raw, 0), fs[..n], fs[n..])
  {
    var h, fs := HdrLen(ty), RecFields(ty, raw);
    Rewritten(raw[h..], |fs|);
    Words(raw);
    hide NfFields, FieldsOf, SumLen, Get16, Put16;
    assert raw == raw[..h] + raw[h..];
    if ty == 1 {
      var n := ScopeCnt(ty, raw);
      assert fs[..n] + fs[n..] == fs;
    }
  }

  lemma Words(raw: seq<byte>)
    requires |raw| >= 6
    ensures raw[..4] == Put16(Get16(raw, 0)) + Put16(Get16(raw, 2)) && raw[..6] == raw[..4] + Put16(Get16(raw, 4))
  {
  }

  lemma {:induction false} Rewritten(b: seq<byte>, n: nat)
    requires |b| == 4 * n
    ensures NfFields(FieldsOf(b, n)) == b
  {
    if n > 0 {
      var k := n - 1;
      FieldsSnoc(b, n);
      Rewritten(b[..4 * k], k);
      hide FieldsOf, Get16, Put16;
      assert b == b[..4 * k] + b[4 * k..];
    }
  }

  lemma FieldsSnoc(b: seq<byte>, n: nat)
    requires |b| == 4 * n && n > 0
    ensures var fs, k := FieldsOf(b, n), n - 1;
            |fs| == n && fs[..k] == FieldsOf(b[..4 * k], k) && b[4 * k..] == Put16(fs[k].id) + Put16(fs[k].len)
  {
    var k, last := n - 1, b[4 * (n - 1)..];
    assert last[..2] == Put16(Get16(last, 0)) && last[2..] == Put16(Get16(last, 2));
    assert Get16(last, 0) == Get16(b, 4 * k) && Get16(last, 2) == Get16(b, 4 * k + 2);
    hide Get16, Put16;
    forall i | 0 <= i < k ensures FieldsOf(b, n)[i] == FieldsOf(b[..4 * k], k)[i] {
      SameWord(b, 4 * k, 4 * i);
      SameWord(b, 4 * k, 4 * i + 2);
    }
    assert last == last[..2] + last[2..];
  }

  lemma SameWord(b: seq<byte>, to: nat, at: nat)
    requires at + 2 <= to <= |b|
    ensures Get16(b[..to], at) == Get16(b, at)
  {
  }

  // ---------------------------------------------------------------- specifiers

  /**
   * Which specifier stands for a field: fields 1 to 127 are those of IPFIX, but for the two timestamps;
   * the others get an enterprise number, and the scope fields have information elements of their own.
   */
  lemma SpecifierOf(f: Field)
    ensures f.id == 22 ==> SpecOf(f, false) == if f.len == 4 then Some(Spec(152, None, 8)) else None
    ensures f.id == 21 ==> SpecOf(f, false) == if f.len == 4 then Some(Spec(153, None, 8)) else None
    ensures f.id < 128 && f.id != 21 && f.id != 22 ==> SpecOf(f, false) == Some(Spec(f.id, None, f.len))
    ensures 128 <= f.id < 32768 ==> SpecOf(f, false) == Some(Spec(f.id, Some(4294967294), f.len))
    ensures 32768 <= f.id ==> SpecOf(f, false) == Some(Spec(f.id - 32768, Some(4294967295), f.len))
    ensures var ids := map[1 := 144, 2 := 10, 3 := 141, 5 := 145];
            SpecOf(f, true) == if f.id in ids && f.len <= (if f.id == 5 then 2 else 4) then Some(Spec(ids[f.id], None, f.len)) else None
  {
  }
}
