/** Concrete NetFlow v9 messages at which the converter does not do what one might expect of it. */
module Nf9Examples {
  import opened Bytes
  import opened Nf9Parsers
  import opened Nf9Templates
  import opened Nf9Trec
  import opened Nf9Spec
  import opened Nf9Theorems
  import opened Nf9Runs
  import opened Nf9Forms

  // ---------------------------------------------------------------- a rejected message that leaves a template

  /** A NetFlow v9 header. */
  function Header(): (h: seq<byte>)
    ensures |h| == MSG_HDR_LEN && Get16(h, 0) == NF9_VERSION
  {
    Put16(NF9_VERSION) + Put16(1) + Put32(0) + Put32(0) + Put32(0) + Put32(0)
  }

  /** Template 256 with one field of four bytes, and the FlowSet that holds it alone. */
  function SmallTemplate(): seq<byte> {
    Put16(256) + Put16(1) + Put16(1) + Put16(4)
  }

  function TemplateSet(): seq<byte> {
    Put16(SET_TMPLT) + Put16(12) + SmallTemplate()
  }

  /** One record of that template. */
  function DataSet(): seq<byte> {
    Put16(256) + Put16(8) + [1, 2, 3, 4]
  }

  /** The template is followed by two stray bytes, which make the message malformed. */
  function Rejected(): seq<byte> {
    Header() + (TemplateSet() + [0, 0])
  }

  function Accepted(): seq<byte> {
    Header() + DataSet()
  }

  const START := State(map[], 0, 0, false)

  lemma OneFieldSum(f: Field)
    ensures SumLen([f]) == f.len
  {
    assert [f][..0] == [];
  }

  lemma SmallTemplateIsTemplate()
    ensures IsTmplt(SET_TMPLT, SmallTemplate()) && Get16(SmallTemplate(), 0) == 256
    ensures RecFields(SET_TMPLT, SmallTemplate()) == [Field(1, 4)]
  {
    var raw := SmallTemplate();
    assert RecFields(SET_TMPLT, raw) == [Field(1, 4)];
    OneFieldSum(Field(1, 4));
  }

  lemma SmallTemplateConverts()
    ensures IsTmplt(SET_TMPLT, SmallTemplate())
    ensures TrecOf(SET_TMPLT, SmallTemplate()).Convert? && TrecOf(SET_TMPLT, SmallTemplate()).nf9DrecLen == 4
    ensures TrecOf(SET_TMPLT, SmallTemplate()).ipxDrecLen == 4
  {
    SmallTemplateIsTemplate();
    var fs := [Field(1, 4)];
    OneFieldSum(fs[0]);
    DropCondition(SET_TMPLT, SmallTemplate());
    assert Specs(fs, 0) == [Spec(1, None, 4)];
    assert SumSpec([Spec(1, None, 4)]) == 4 by { EncSnoc([], Spec(1, None, 4)); assert [] + [Spec(1, None, 4)] == [Spec(1, None, 4)]; }
    assert Convertible(fs, 0);
    hide IsTmplt;
    assert TrecOf(SET_TMPLT, SmallTemplate()).Convert?;
    TrecShape(SET_TMPLT, SmallTemplate());
  }

  lemma FirstFlowSets()
    ensures SetsOf(TemplateSet() + [0, 0]) == Walk([TemplateSet()], Some(SetsUnexpectedEnd)) && IsSet(TemplateSet())
    ensures SetsOf(DataSet()) == Walk([DataSet()], None) && IsSet(DataSet())
    ensures Get16(TemplateSet(), 0) == SET_TMPLT && Get16(DataSet(), 0) == 256
    ensures TemplateSet()[SET_HDR_LEN..] == SmallTemplate() && |DataSet()| == 8
  {
    var b := TemplateSet() + [0, 0];
    assert b[..12] == TemplateSet() && b[12..] == [0, 0];
    assert SetsOf([0, 0]) == Walk([], Some(SetsUnexpectedEnd));
    assert DataSet()[..8] == DataSet() && DataSet()[8..] == [];
    assert SetsOf([]) == Walk([], None);
  }

  lemma TemplateSetReads()
    ensures |TemplateSet()| >= SET_HDR_LEN && TsetOf(SET_TMPLT, TemplateSet()).items == [SmallTemplate()]
  {
    FirstFlowSets();
    SmallTemplateIsTemplate();
    hide IsTmplt, SmallTemplate, SetsOf, RecFields, RecError;
    TmpltsComplete(SET_TMPLT, [SmallTemplate()], []);
    assert Flat([SmallTemplate()]) == SmallTemplate() by { FlatSingle(SmallTemplate()); }
    assert SmallTemplate() + [] == SmallTemplate();
    TemplateSetLong();
  }

  lemma TemplateSetLong()
    ensures |TemplateSet()| == 12
  {
  }

  lemma FlatSingle(s: seq<byte>)
    ensures Flat([s]) == s
  {
    assert [s][1..] == [] && s + [] == s;
  }

  /** The first message is rejected, and its template stays. */
  lemma RejectedLeavesTemplate()
    ensures ConvMsg(START, Rejected()).1.Failed?
    ensures ConvMsg(START, Rejected()).0.tbl == map[256 := TrecOf(SET_TMPLT, SmallTemplate())]
  {
    FirstFlowSets();
    TemplateSetReads();
    SmallTemplateIsTemplate();
    RejectedBody();
    var raw := SmallTemplate();
    hide IsTmplt, RecError, TrecOf, SmallTemplate, TemplateSet, Rejected, SetsOf, Get16, TmpltsOf, DefineAll, ConvTset, ConvMsg, Flat;
    DefineOne(raw);
    var d := DefineAll(map[], SET_TMPLT, [raw]);
    assert Coherent(map[]);
    TsetOutcome(map[], TemplateSet(), d.0, d.1);
    BrokenBehind(START, Rejected(), TemplateSet());
  }

  lemma RejectedBody()
    ensures Understood(Rejected()) && Rejected()[MSG_HDR_LEN..] == TemplateSet() + [0, 0]
  {
    hide TemplateSet, Header;
    assert Get16(Rejected(), 0) == Get16(Header(), 0);
  }

  /** A message of one FlowSet and an error behind it: rejected, but the FlowSet was read. */
  lemma BrokenBehind(st: State, msg: seq<byte>, s: seq<byte>)
    requires st.Valid() && Understood(msg) && IsSet(s) && SetsOf(msg[MSG_HDR_LEN..]) == Walk([s], Some(SetsUnexpectedEnd))
    ensures ConvMsg(st, msg).1.Failed? && ConvMsg(st, msg).0.tbl == ConvSet(st.tbl, ClockOf(msg), s).tbl
  {
    hide IsTrec, ConvSet, ConvSets, SetsOf, EncSets, IpxHdr, IsSet;
    OneSet(st.tbl, ClockOf(msg), s);
  }

  lemma DefineOne(raw: seq<byte>)
    requires IsTmplt(SET_TMPLT, raw)
    ensures DefineAll(map[], SET_TMPLT, [raw]).0 == map[Get16(raw, 0) := TrecOf(SET_TMPLT, raw)]
  {
    hide TrecOf, RecError;
    assert [raw][1..] == [];
    assert DefineAll(map[Get16(raw, 0) := TrecOf(SET_TMPLT, raw)], SET_TMPLT, []).0 == map[Get16(raw, 0) := TrecOf(SET_TMPLT, raw)];
  }

  lemma OneSet(tbl: Table, c: Clock, s: seq<byte>)
    requires Coherent(tbl) && IsSet(s)
    ensures var r, one := ConvSets(tbl, c, [s]), ConvSet(tbl, c, s);
            && r.tbl == one.tbl && r.ok == one.SetOk?
            && (one.SetOk? ==> r.outs == (if one.out.Some? then [one.out.value] else []))
  {
    hide IsTrec, ConvSet;
    SetCoherent(tbl, c, s);
    assert [s][1..] == [];
    if ConvSet(tbl, c, s).SetOk? {
      assert ConvSets(ConvSet(tbl, c, s).tbl, c, []).outs == [];
    }
  }

  /** A message of one FlowSet that is converted. */
  lemma SingleSet(st: State, msg: seq<byte>, s: seq<byte>)
    requires st.Valid() && Understood(msg) && IsSet(s) && SetsOf(msg[MSG_HDR_LEN..]) == Walk([s], None)
    requires ConvSet(st.tbl, ClockOf(msg), s).SetOk? && ConvSet(st.tbl, ClockOf(msg), s).out.Some?
    requires ConvSet(st.tbl, ClockOf(msg), s).out.value.Size() <= MAX_SET_CONTENT_LEN
    ensures ConvBody(st.tbl, msg).outs == [ConvSet(st.tbl, ClockOf(msg), s).out.value]
    ensures ConvMsg(st, msg).1.Done?
  {
    hide IsTrec, ConvSet, ConvSets, SetsOf, IpxHdr, IsSet;
    OneSet(st.tbl, ClockOf(msg), s);
    BodyBounds(st.tbl, msg);
    var outs := ConvBody(st.tbl, msg).outs;
    assert outs[1..] == [];
    assert EncSets(outs) == outs[0].Enc() + EncSets([]);
  }

  /** One record under the template: a Data Set of 8 bytes. */
  lemma DataSetConverts(tbl: Table, c: Clock)
    requires tbl == map[256 := TrecOf(SET_TMPLT, SmallTemplate())] && IsTmplt(SET_TMPLT, SmallTemplate())
    ensures Coherent(tbl) && IsSet(DataSet())
    ensures var r := ConvSet(tbl, c, DataSet());
            r.SetOk? && r.out.Some? && r.out.value.id == 256 && r.out.value.Size() == 8 && r.drecs == 1
  {
    FirstFlowSets();
    SmallTemplateConverts();
    SmallTemplateIsTemplate();
    TrecIsTrec(SET_TMPLT, SmallTemplate());
    hide IsTmplt, RecError, TrecOf, SmallTemplate, SetsOf;
    DsetExact(tbl, c, DataSet());
    hide DataSet, ConvDset;
  }

  /** The collector has not seen the template of the rejected message and cannot read what comes next. */
  lemma RejectedTemplateIsMissed()
    ensures var r := Run(START, [Rejected(), Accepted()]);
            |r| == 1 && Collect(map[], 0, r) == None
  {
    RejectedLeavesTemplate();
    SmallTemplateIsTemplate();
    FirstFlowSets();
    AcceptedBody();
    var st := ConvMsg(START, Rejected()).0;
    hide IsTmplt, RecError, TrecOf, SmallTemplate, TemplateSet, DataSet, Rejected, Accepted, SetsOf, Get16, ConvMsg, ConvSet, Encs, IsSet;
    DataSetConverts(st.tbl, ClockOf(Accepted()));
    SingleSet(st, Accepted(), DataSet());
    MessageWellFormed(st, Accepted());
    var o := ConvBody(st.tbl, Accepted()).outs[0];
    assert ConvBody(st.tbl, Accepted()).outs == [o];
    UnknownData(o, ConvMsg(st, Accepted()).1.msg);
    RunOfTwo(START, Rejected(), Accepted());
  }

  lemma AcceptedBody()
    ensures Understood(Accepted()) && Accepted()[MSG_HDR_LEN..] == DataSet()
  {
    hide DataSet, Header;
    assert Get16(Accepted(), 0) == Get16(Header(), 0);
  }

  /** A message of one Data Set, to a collector without templates. */
  lemma UnknownData(o: OutSet, m: seq<byte>)
    requires o.id >= SET_MIN_DSET && o.Size() <= MAX_SET_CONTENT_LEN && |m| >= IPX_HDR_LEN
    requires SmallSets([o]) && SetsOf(m[IPX_HDR_LEN..]) == Walk(Encs([o]), None)
    ensures Collect(map[], 0, [m]) == None
  {
    hide SetsOf, CountData;
    OutIsSet(o);
    assert Encs([o]) == [o.Enc()];
    assert Receive(map[], [o.Enc()]) == None;
  }

  lemma RunOfTwo(st: State, a: seq<byte>, b: seq<byte>)
    requires st.Valid() && ConvMsg(st, a).1.Failed? && ConvMsg(ConvMsg(st, a).0, b).1.Done?
    ensures Run(st, [a, b]) == [ConvMsg(ConvMsg(st, a).0, b).1.msg]
  {
    hide ConvMsg, Coherent;
    var st1 := ConvMsg(st, a).0;
    assert [a, b][1..] == [b] && [b][1..] == [];
    assert Run(ConvMsg(st1, b).0, []) == [];
    var m := ConvMsg(st1, b).1.msg;
    assert [m] + [] == [m];
    assert Run(st1, [b]) == [m];
  }

  // ---------------------------------------------------------------- Data FlowSets that fit and are rejected

  /** A timestamp, which grows by four bytes, and a field of 65504 bytes. */
  function LongTemplate(): seq<byte> {
    Put16(256) + Put16(2) + (Put16(22) + Put16(4) + (Put16(1) + Put16(65504)))
  }

  /** One record of it: 65512 bytes with the header of the FlowSet. */
  function LongDataSet(): seq<byte> {
    Put16(256) + Put16(65512) + seq(65508, _ => 0)
  }

  lemma LongTemplateIsTemplate()
    ensures IsTmplt(SET_TMPLT, LongTemplate()) && Get16(LongTemplate(), 0) == 256
    ensures RecFields(SET_TMPLT, LongTemplate()) == [Field(22, 4), Field(1, 65504)]
    ensures SumLen([Field(22, 4), Field(1, 65504)]) == 65508
  {
    var raw, fs := LongTemplate(), [Field(22, 4), Field(1, 65504)];
    assert RecFields(SET_TMPLT, raw) == fs;
    assert fs[..1] == [Field(22, 4)];
    OneFieldSum(fs[0]);
  }

  lemma LongTemplateConverts()
    ensures IsTmplt(SET_TMPLT, LongTemplate()) && Get16(LongTemplate(), 0) == 256
    ensures var t := TrecOf(SET_TMPLT, LongTemplate()); t.Convert? && t.nf9DrecLen == 65508 && t.ipxDrecLen == 65512
  {
    LongTemplateIsTemplate();
    hide LongTemplate, IsTmplt, RecFields;
    var fs, ss := [Field(22, 4), Field(1, 65504)], [Spec(152, None, 8), Spec(1, None, 65504)];
    assert Specs(fs, 0) == ss;
    EncSnoc([], ss[0]);
    EncSnoc([ss[0]], ss[1]);
    assert [] + [ss[0]] == [ss[0]] && [ss[0]] + [ss[1]] == ss;
    hide TrecOf;
    DropCondition(SET_TMPLT, LongTemplate());
    TrecShape(SET_TMPLT, LongTemplate());
  }

  /** The new set has 65516 bytes and the message 65532, which is not too long for IPFIX; yet it is rejected. */
  lemma FittingSetRejected(c: Clock)
    ensures IsSet(LongDataSet()) && IsTmplt(SET_TMPLT, LongTemplate())
    ensures var t := TrecOf(SET_TMPLT, LongTemplate());
            && Coherent(map[256 := t]) && t.Convert?
            && ConvDset(map[256 := t], c, LongDataSet()).SetFail?
            && MSG_HDR_LEN + |LongDataSet()| <= 65535
            && IPX_HDR_LEN + (SET_HDR_LEN + t.ipxDrecLen) == 65532
  {
    LongTemplateConverts();
    LongSet();
    TrecIsTrec(SET_TMPLT, LongTemplate());
    hide IsTmplt, TrecOf, LongTemplate, LongDataSet;
    DsetExact(map[256 := TrecOf(SET_TMPLT, LongTemplate())], c, LongDataSet());
  }

  lemma LongSet()
    ensures IsSet(LongDataSet()) && Get16(LongDataSet(), 0) == 256 && |LongDataSet()| == 65512
  {
    var h := Put16(256) + Put16(65512);
    assert LongDataSet()[..4] == h;
    assert Get16(LongDataSet(), 0) == Get16(h, 0) && Get16(LongDataSet(), 2) == Get16(h, 2);
  }

  // ---------------------------------------------------------------- templates byte by byte

  const FS4 := [Field(22, 4), Field(1, 4), Field(128, 2), Field(32769, 2)]
  const SS4: seq<Spec> := [Spec(152, None, 8), Spec(1, None, 4), Spec(128, Some(4294967294), 2), Spec(1, Some(4294967295), 2)]
  const RAW4: seq<byte> := [1, 0, 0, 4, 0, 22, 0, 4, 0, 1, 0, 4, 0, 128, 0, 2, 128, 1, 0, 2]

  lemma FieldsOfTemplate()
    ensures NfTemplate(256, FS4) == RAW4 && SumLen(FS4) == 12
  {
    var a, b, c, d := FS4[0], FS4[1], FS4[2], FS4[3];
    FourFields(a, b, c, d);
    assert FS4 == [a, b, c, d];
    hide NfFields;
    assert Put16(256) + Put16(4) == [1, 0, 0, 4];
    assert Put16(22) + Put16(4) == [0, 22, 0, 4] && Put16(1) + Put16(4) == [0, 1, 0, 4];
    assert Put16(128) + Put16(2) == [0, 128, 0, 2] && Put16(32769) + Put16(2) == [128, 1, 0, 2];
    hide Put16;
    Chunks([1, 0, 0, 4], [0, 22, 0, 4], [0, 1, 0, 4], [0, 128, 0, 2], [128, 1, 0, 2]);
  }

  lemma Chunks(h: seq<byte>, a: seq<byte>, b: seq<byte>, c: seq<byte>, d: seq<byte>)
    ensures h + (a + b + c + d) == h + a + b + c + d
  {
  }

  lemma SpecBytes()
    ensures EncSpecs(SS4) == [0, 152, 0, 8, 0, 1, 0, 4, 128, 128, 0, 2, 255, 255, 255, 254, 128, 1, 0, 2, 255, 255, 255, 255]
    ensures SumSpec(SS4) == 16 && Convertible(FS4, 0) && Specs(FS4, 0) == SS4
  {
    var w, x, y, z := Spec(152, None, 8), Spec(1, None, 4), Spec(128, Some(4294967294), 2), Spec(1, Some(4294967295), 2);
    FourSpecs(w, x, y, z);
    FourSpecBytes(w, x, y, z);
    assert SS4 == [w, x, y, z];
    SpecsOfFields();
    hide EncSpecs, SumSpec, EncSpec;
  }

  lemma SpecsOfFields()
    ensures Convertible(FS4, 0) && Specs(FS4, 0) == SS4
  {
  }

  lemma FourSpecBytes(w: Spec, x: Spec, y: Spec, z: Spec)
    requires w == Spec(152, None, 8) && x == Spec(1, None, 4) && y == Spec(128, Some(4294967294), 2) && z == Spec(1, Some(4294967295), 2)
    ensures EncSpec(w) + EncSpec(x) + EncSpec(y) + EncSpec(z)
            == [0, 152, 0, 8, 0, 1, 0, 4, 128, 128, 0, 2, 255, 255, 255, 254, 128, 1, 0, 2, 255, 255, 255, 255]
  {
    assert EncSpec(w) == [0, 152, 0, 8] && EncSpec(x) == [0, 1, 0, 4];
    assert EncSpec(y) == [128, 128, 0, 2, 255, 255, 255, 254] && EncSpec(z) == [128, 1, 0, 2, 255, 255, 255, 255];
    hide EncSpec;
  }

  /** A Template Record and the one it becomes: a timestamp, a field of IPFIX, and two that get enterprise numbers. */
  lemma TemplateBytes()
    ensures var raw: seq<byte> := [1, 0, 0, 4, 0, 22, 0, 4, 0, 1, 0, 4, 0, 128, 0, 2, 128, 1, 0, 2];
            && IsTmplt(0, raw) && TrecOf(0, raw).Convert?
            && Appended(TrecOf(0, raw))
               == [1, 0, 0, 4, 0, 152, 0, 8, 0, 1, 0, 4, 128, 128, 0, 2, 255, 255, 255, 254, 128, 1, 0, 2, 255, 255, 255, 255]
  {
    TemplateAccepted();
    SpecBytes();
    var ty: u16 := 0;
    hide *;
    Emitted(ty, RAW4, FS4, SS4);
    Behind([1, 0, 0, 4], [0, 152, 0, 8, 0, 1, 0, 4, 128, 128, 0, 2, 255, 255, 255, 254, 128, 1, 0, 2, 255, 255, 255, 255]);
  }

  lemma TemplateAccepted()
    ensures RAW4 == [1, 0, 0, 4, 0, 22, 0, 4, 0, 1, 0, 4, 0, 128, 0, 2, 128, 1, 0, 2]
    ensures IsTmplt(0, RAW4) && RecFields(0, RAW4) == FS4 && ScopeCnt(0, RAW4) == 0 && EncHdr(0, RAW4) == [1, 0, 0, 4]
  {
    FieldsOfTemplate();
    TemplateRead(256, FS4);
    PlainHeader(RAW4);
    hide NfTemplate, RecFields, IsTmplt, SumLen, EncHdr;
  }

  lemma Behind(h: seq<byte>, e: seq<byte>)
    ensures |h| == 4 && |e| == 24 ==>
              h + e == [h[0], h[1], h[2], h[3],
                        e[0], e[1], e[2], e[3], e[4], e[5], e[6], e[7], e[8], e[9], e[10], e[11],
                        e[12], e[13], e[14], e[15], e[16], e[17], e[18], e[19], e[20], e[21], e[22], e[23]]
    ensures |h| == 6 && |e| == 12 ==>
              h + e == [h[0], h[1], h[2], h[3], h[4], h[5], e[0], e[1], e[2], e[3], e[4], e[5], e[6], e[7], e[8], e[9], e[10], e[11]]
  {
  }

  lemma PlainHeader(raw: seq<byte>)
    requires IsTmplt(0, raw)
    ensures EncHdr(0, raw) == raw[..4] && ScopeCnt(0, raw) == 0
  {
  }

  const FS3 := [Field(1, 4), Field(3, 2), Field(34, 4)]
  const SS3: seq<Spec> := [Spec(144, None, 4), Spec(141, None, 2), Spec(34, None, 4)]
  const RAW3: seq<byte> := [1, 1, 0, 8, 0, 4, 0, 1, 0, 4, 0, 3, 0, 2, 0, 34, 0, 4]

  lemma FieldsOfOptions()
    ensures NfOptions(257, FS3[..2], FS3[2..]) == RAW3 && SumLen(FS3) == 10
  {
    ThreeFields(FS3[0], FS3[1], FS3[2]);
    assert FS3 == [FS3[0], FS3[1], FS3[2]] && FS3[..2] + FS3[2..] == FS3;
    hide NfFields;
    assert Put16(257) + Put16(8) + Put16(4) == [1, 1, 0, 8, 0, 4];
    assert Put16(1) + Put16(4) == [0, 1, 0, 4] && Put16(3) + Put16(2) == [0, 3, 0, 2] && Put16(34) + Put16(4) == [0, 34, 0, 4];
    hide Put16;
    Chunks([1, 1, 0, 8, 0, 4], [0, 1, 0, 4], [0, 3, 0, 2], [0, 34, 0, 4], []);
  }

  lemma OptionsSpecBytes()
    ensures EncSpecs(SS3) == [0, 144, 0, 4, 0, 141, 0, 2, 0, 34, 0, 4]
    ensures SumSpec(SS3) == 10 && Convertible(FS3, 2) && Specs(FS3, 2) == SS3
  {
    ThreeSpecs(SS3[0], SS3[1], SS3[2]);
    assert SS3 == [SS3[0], SS3[1], SS3[2]];
    hide EncSpecs, SumSpec;
    assert EncSpec(SS3[0]) == [0, 144, 0, 4] && EncSpec(SS3[1]) == [0, 141, 0, 2] && EncSpec(SS3[2]) == [0, 34, 0, 4];
  }

  /** An Options Template with two scope fields and one option, whose lengths in bytes become numbers of fields. */
  lemma OptionsBytes()
    ensures var raw: seq<byte> := [1, 1, 0, 8, 0, 4, 0, 1, 0, 4, 0, 3, 0, 2, 0, 34, 0, 4];
            && IsTmplt(1, raw) && TrecOf(1, raw).Convert?
            && Appended(TrecOf(1, raw)) == [1, 1, 0, 3, 0, 2, 0, 144, 0, 4, 0, 141, 0, 2, 0, 34, 0, 4]
  {
    OptionsAccepted();
    OptionsSpecBytes();
    var ty: u16 := 1;
    hide *;
    Emitted(ty, RAW3, FS3, SS3);
    Behind([1, 1, 0, 3, 0, 2], [0, 144, 0, 4, 0, 141, 0, 2, 0, 34, 0, 4]);
  }

  lemma OptionsAccepted()
    ensures RAW3 == [1, 1, 0, 8, 0, 4, 0, 1, 0, 4, 0, 3, 0, 2, 0, 34, 0, 4]
    ensures IsTmplt(1, RAW3) && RecFields(1, RAW3) == FS3 && ScopeCnt(1, RAW3) == 2 && EncHdr(1, RAW3) == [1, 1, 0, 3, 0, 2]
  {
    FieldsOfOptions();
    OptionsRead(257, FS3[..2], FS3[2..]);
    assert FS3[..2] + FS3[2..] == FS3;
    hide NfOptions, RecFields, IsTmplt, SumLen, EncHdr;
    OptionsHeader();
  }

  lemma OptionsHeader()
    requires IsTmplt(1, RAW3)
    ensures EncHdr(1, RAW3) == [1, 1, 0, 3, 0, 2]
  {
    assert FieldCnt(1, RAW3) == 3 && ScopeCnt(1, RAW3) == 2;
    hide IsTmplt;
  }

  lemma ThreeFields(a: Field, b: Field, c: Field)
    ensures NfFields([a, b, c]) == Put16(a.id) + Put16(a.len) + (Put16(b.id) + Put16(b.len)) + (Put16(c.id) + Put16(c.len))
    ensures SumLen([a, b, c]) == a.len + b.len + c.len
  {
    assert [a, b, c][..2] == [a, b] && [a, b][..1] == [a] && [a][..0] == [];
    assert NfFields([]) == [] && SumLen([]) == 0;
    assert NfFields([a]) == Put16(a.id) + Put16(a.len) && SumLen([a]) == a.len;
    assert NfFields([a, b]) == NfFields([a]) + (Put16(b.id) + Put16(b.len)) && SumLen([a, b]) == a.len + b.len;
  }

  lemma FourFields(a: Field, b: Field, c: Field, d: Field)
    ensures NfFields([a, b, c, d]) == NfFields([a, b, c]) + (Put16(d.id) + Put16(d.len))
    ensures NfFields([a, b, c]) == Put16(a.id) + Put16(a.len) + (Put16(b.id) + Put16(b.len)) + (Put16(c.id) + Put16(c.len))
    ensures SumLen([a, b, c, d]) == a.len + b.len + c.len + d.len
  {
    ThreeFields(a, b, c);
    hide NfFields;
    NfSnoc([a, b, c], d);
    assert [a, b, c] + [d] == [a, b, c, d] && [a, b, c, d][..3] == [a, b, c];
  }

  lemma NfSnoc(fs: seq<Field>, f: Field)
    ensures NfFields(fs + [f]) == NfFields(fs) + (Put16(f.id) + Put16(f.len))
  {
    assert (fs + [f])[..|fs|] == fs;
  }

  lemma ThreeSpecs(x: Spec, y: Spec, z: Spec)
    ensures EncSpecs([x, y, z]) == EncSpec(x) + EncSpec(y) + EncSpec(z) && SumSpec([x, y, z]) == x.len + y.len + z.len
  {
    OneSpec(x);
    EncSnoc([x], y);
    EncSnoc([x, y], z);
    hide EncSpec, EncSpecs, SumSpec;
    assert [x] + [y] == [x, y] && [x, y] + [z] == [x, y, z];
  }

  lemma OneSpec(x: Spec)
    ensures EncSpecs([x]) == EncSpec(x) && SumSpec([x]) == x.len
  {
    hide EncSpec;
    assert [x][..0] == [] && EncSpecs([]) == [] && SumSpec([]) == 0;
    assert [] + EncSpec(x) == EncSpec(x);
  }

  lemma FourSpecs(w: Spec, x: Spec, y: Spec, z: Spec)
    ensures EncSpecs([w, x, y, z]) == EncSpec(w) + EncSpec(x) + EncSpec(y) + EncSpec(z)
    ensures SumSpec([w, x, y, z]) == w.len + x.len + y.len + z.len
  {
    ThreeSpecs(w, x, y);
    EncSnoc([w, x, y], z);
    assert [w, x, y] + [z] == [w, x, y, z];
  }

  /** The bytes of the new template, from its specifiers. */
  lemma Emitted(ty: u16, raw: seq<byte>, fs: seq<Field>, ss: seq<Spec>)
    requires ty <= 1 && IsTmplt(ty, raw) && RecFields(ty, raw) == fs && Convertible(fs, ScopeCnt(ty, raw)) && Specs(fs, ScopeCnt(ty, raw)) == ss
    requires (ty == 1 ==> ScopeCnt(ty, raw) > 0) && SumSpec(ss) <= 1000 && |EncSpecs(ss)| <= 1000
    ensures TrecOf(ty, raw).Convert? && Appended(TrecOf(ty, raw)) == EncHdr(ty, raw) + EncSpecs(ss)
  {
    Accepts(ty, raw, fs, ss);
    HdrFacts(ty, raw);
    hide IsTmplt, TrecOf, RecFields, ScopeCnt, FieldCnt, Get16, Convertible, Specs, EncSpecs, SumSpec, EncHdr, Appended;
    TrecShape(ty, raw);
    Whole(TrecOf(ty, raw));
  }

  lemma Whole(t: Trec)
    requires t.Convert? && t.ipxSize == |t.ipxData| % U16_SIZE && |t.ipxData| < U16_SIZE
    ensures t.ipxSize <= |t.ipxData| && Appended(t) == t.ipxData
  {
  }

  lemma Accepts(ty: u16, raw: seq<byte>, fs: seq<Field>, ss: seq<Spec>)
    requires ty <= 1 && IsTmplt(ty, raw) && RecFields(ty, raw) == fs && Convertible(fs, ScopeCnt(ty, raw)) && Specs(fs, ScopeCnt(ty, raw)) == ss
    requires (ty == 1 ==> ScopeCnt(ty, raw) > 0) && SumSpec(ss) <= 1000
    ensures TrecOf(ty, raw).Convert?
  {
    hide IsTmplt, TrecOf, RecFields, ScopeCnt, Convertible, Specs, SumSpec;
    DropCondition(ty, raw);
  }
}
