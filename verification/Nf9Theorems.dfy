/**
 * What a collector that knows only RFC 7011 makes of the converted messages, over single
 * messages and over whole runs of the converter.
 */
module Nf9Theorems {
  import opened Arith
  import opened Bytes
  import opened Nf9Parsers
  import opened Nf9Templates
  import opened Nf9Trec
  import opened Nf9Spec

  // ---------------------------------------------------------------- the receiving side

  type RecvTable = map<u16, IpxTmplt>

  /** The records of an (Options) Template Set. */
  function DecTset(ty: u16, b: seq<byte>): Option<seq<IpxTmplt>>
    decreases |b|
  {
    if b == [] then Some([])
    else match DecTmplt(ty, b)
      case None => None
      case Some(r) =>
        if |r.1| >= |b| then None
        else match DecTset(ty, r.1)
          case None => None
          case Some(ts) => Some([r.0] + ts)
  }

  function Learn(rt: RecvTable, ts: seq<IpxTmplt>): RecvTable
    decreases |ts|
  {
    if ts == [] then rt else Learn(rt[ts[0].tid := ts[0]], ts[1..])
  }

  /** Data Records as they were read, with the template they were read under. */
  datatype RecvData = RecvData(tmplt: IpxTmplt, recs: seq<seq<byte>>)

  /** The sets of a message body; `None` when a set cannot be interpreted with the templates seen so far. */
  function Receive(rt: RecvTable, sets: seq<seq<byte>>): Option<(RecvTable, seq<RecvData>)>
    requires forall s | s in sets :: IsSet(s)
    decreases |sets|
  {
    if sets == [] then Some((rt, []))
    else
      assert IsSet(sets[0]);
      var id, content := Get16(sets[0], 0), sets[0][4..];
      if id == 2 || id == 3 then
        match DecTset(id - 2, content)
        case None => None
        case Some(ts) => Receive(Learn(rt, ts), sets[1..])
      else if id < 256 then Receive(rt, sets[1..])
      else if id !in rt || SumSpec(rt[id].specs) == 0 || |content| % SumSpec(rt[id].specs) != 0 then None
      else match Receive(rt, sets[1..])
        case None => None
        case Some(r) => Some((r.0, [RecvData(rt[id], RecsOf(content, SumSpec(rt[id].specs)))] + r.1))
  }

  // ---------------------------------------------------------------- the reference translation

  /** A NetFlow definition as it was received; `Direct` knows nothing of compilation or encoding. */
  datatype Def = Def(ty: u16, raw: seq<byte>) {
    predicate Valid() {
      (ty == SET_TMPLT || ty == SET_OPTS_TMPLT) && IsTmplt(ty, raw)
    }

    predicate Refused()
      requires Valid()
    {
      var fs, scope := RecFields(ty, raw), ScopeCnt(ty, raw);
      || (ty == SET_OPTS_TMPLT && scope == 0)
      || !Convertible(fs, scope)
      || SumSpec(Specs(fs, scope)) > MAX_SET_CONTENT_LEN
    }

    function Translation(): IpxTmplt
      requires Valid() && !Refused()
    {
      Translated(ty, raw)
    }
  }

  type Defs = map<u16, Def>

  predicate ValidDefs(defs: Defs) {
    forall id | id in defs :: defs[id].Valid() && Get16(defs[id].raw, 0) == id
  }

  function Define(defs: Defs, ty: u16, raws: seq<seq<byte>>): Defs
    requires forall r | r in raws :: IsTmplt(ty, r)
    decreases |raws|
  {
    hide RecError;
    if raws == [] then defs
    else
      assert IsTmplt(ty, raws[0]);
      Define(defs[Get16(raws[0], 0) := Def(ty, raws[0])], ty, raws[1..])
  }

  /** The records of a Data FlowSet, each converted field by field. */
  function DirectRecs(d: Def, c: Clock, fset: seq<byte>): seq<seq<byte>>
    requires IsSet(fset) && d.Valid() && !d.Refused()
  {
    var fs, scope := RecFields(d.ty, d.raw), ScopeCnt(d.ty, d.raw);
    RecsTile(fset[SET_HDR_LEN..], SumLen(fs));
    var recs := RecsOf(fset[SET_HDR_LEN..], SumLen(fs));
    seq(|recs|, i requires 0 <= i < |recs| => ConvRecord(fs, scope, c, recs[i]))
  }

  /** The FlowSets of a message, up to the first that is broken. */
  function FlowSets(msg: seq<byte>): seq<seq<byte>> {
    if |msg| < MSG_HDR_LEN then [] else SetsOf(msg[MSG_HDR_LEN..]).items
  }

  lemma FlowSetsAreSets(msg: seq<byte>)
    ensures forall s | s in FlowSets(msg) :: IsSet(s)
  {
    if |msg| >= MSG_HDR_LEN {
      SetsTile(msg[MSG_HDR_LEN..]);
    }
  }

  /** The latest definitions after the templates of some FlowSets. */
  function DefineSets(defs: Defs, sets: seq<seq<byte>>): Defs
    requires forall s | s in sets :: IsSet(s)
    decreases |sets|
  {
    if sets == [] then defs
    else
      assert IsSet(sets[0]);
      DefineSets(DefineSet(defs, sets[0]), sets[1..])
  }

  function DefineSet(defs: Defs, s: seq<byte>): Defs
    requires IsSet(s)
  {
    TsetTmplts(s);
    if Get16(s, 0) <= SET_OPTS_TMPLT then Define(defs, Get16(s, 0), TsetOf(Get16(s, 0), s).items) else defs
  }

  lemma TsetTmplts(fset: seq<byte>)
    requires IsSet(fset)
    ensures forall r | r in TsetOf(Get16(fset, 0), fset).items :: IsTmplt(Get16(fset, 0), r)
  {
    TmpltsTile(Get16(fset, 0), fset[SET_HDR_LEN..]);
  }

  lemma DefineSetValid(defs: Defs, s: seq<byte>)
    requires ValidDefs(defs) && IsSet(s)
    ensures ValidDefs(DefineSet(defs, s))
  {
    hide IsTmplt, ValidDefs, Define, TsetOf;
    TsetTmplts(s);
    if Get16(s, 0) <= SET_OPTS_TMPLT {
      DefineValid(defs, Get16(s, 0), TsetOf(Get16(s, 0), s).items);
    }
  }

  lemma {:induction false} DefineSetsValid(defs: Defs, sets: seq<seq<byte>>)
    requires ValidDefs(defs) && forall s | s in sets :: IsSet(s)
    ensures ValidDefs(DefineSets(defs, sets))
    decreases |sets|
  {
    hide ValidDefs, DefineSet;
    if sets != [] {
      assert IsSet(sets[0]);
      DefineSetValid(defs, sets[0]);
      DefineSetsValid(DefineSet(defs, sets[0]), sets[1..]);
    }
  }

  /** The Data Records of a message, each under the latest definition of its template. */
  function Direct(defs: Defs, c: Clock, sets: seq<seq<byte>>): seq<RecvData>
    requires ValidDefs(defs) && forall s | s in sets :: IsSet(s)
    decreases |sets|
  {
    if sets == [] then []
    else
      assert IsSet(sets[0]);
      var s, id := sets[0], Get16(sets[0], 0);
      if id <= SET_OPTS_TMPLT then
        DefineSetValid(defs, s);
        Direct(DefineSet(defs, s), c, sets[1..])
      else if id < SET_MIN_DSET || id !in defs || defs[id].Refused() then Direct(defs, c, sets[1..])
      else [RecvData(defs[id].Translation(), DirectRecs(defs[id], c, s))] + Direct(defs, c, sets[1..])
  }

  lemma {:induction false} DefineValid(defs: Defs, ty: u16, raws: seq<seq<byte>>)
    requires ValidDefs(defs) && (ty == SET_TMPLT || ty == SET_OPTS_TMPLT)
    requires forall r | r in raws :: IsTmplt(ty, r)
    ensures ValidDefs(Define(defs, ty, raws))
    decreases |raws|
  {
    hide RecError;
    if raws != [] {
      assert IsTmplt(ty, raws[0]);
      DefineValid(defs[Get16(raws[0], 0) := Def(ty, raws[0])], ty, raws[1..]);
    }
  }

  /** The definitions behind a table. */
  function DefsOf(tbl: Table): Defs {
    map id | id in tbl :: Def(tbl[id].ty, tbl[id].nf9Data)
  }

  lemma {:induction false} DefineSame(tbl: Table, ty: u16, raws: seq<seq<byte>>)
    requires Coherent(tbl) && (ty == SET_TMPLT || ty == SET_OPTS_TMPLT)
    requires forall r | r in raws :: IsTmplt(ty, r)
    ensures DefsOf(DefineAll(tbl, ty, raws).0) == Define(DefsOf(tbl), ty, raws)
    decreases |raws|
  {
    if raws != [] {
      assert IsTmplt(ty, raws[0]);
      var tid, t := Get16(raws[0], 0), TrecOf(ty, raws[0]);
      TrecIsTrec(ty, raws[0]);
      DefsUpdate(tbl, tid, t);
      hide RecError, TrecOf, DefsOf;
      assert Coherent(tbl[tid := t]);
      hide IsTrec;
      DefineSame(tbl[tid := t], ty, raws[1..]);
    }
  }

  lemma DefsUpdate(tbl: Table, tid: u16, t: Trec)
    ensures DefsOf(tbl[tid := t]) == DefsOf(tbl)[tid := Def(t.ty, t.nf9Data)]
  {
  }

  /** Running the compiled instructions over a Data FlowSet is the direct translation of its records. */
  lemma DsetDirect(t: Trec, c: Clock, fset: seq<byte>)
    requires IsTrec(t) && IsSet(fset)
    ensures var d := Def(t.ty, t.nf9Data);
            && d.Valid() && (t.Drop? <==> d.Refused())
            && (t.Convert? ==>
                  && t.nf9DrecLen > 0 && InLen(t.instrs) == t.nf9DrecLen
                  && var recs := RecsOf(fset[SET_HDR_LEN..], t.nf9DrecLen);
                     && (forall r | r in recs :: |r| == InLen(t.instrs))
                     && ConvRecs(t, c, recs) == DirectRecs(d, c, fset)
                     && forall p | p in ConvRecs(t, c, recs) :: |p| == t.ipxDrecLen)
  {
    DropCondition(t.ty, t.nf9Data);
    if t.Convert? {
      TrecIsTrec(t.ty, t.nf9Data);
      TrecInLen(t);
      RecsTile(fset[SET_HDR_LEN..], t.nf9DrecLen);
      var recs := RecsOf(fset[SET_HDR_LEN..], t.nf9DrecLen);
      forall i | 0 <= i < |recs|
        ensures ConvRecs(t, c, recs)[i] == DirectRecs(Def(t.ty, t.nf9Data), c, fset)[i]
        ensures |ConvRecs(t, c, recs)[i]| == t.ipxDrecLen
      {
        RecordConversion(t.ty, t.nf9Data, c, recs[i]);
      }
    }
  }

  /**
   * Exactly when a Data FlowSet with a converted template succeeds, from its size and the two record
   * lengths: at least one record, and a set of at most 65515 bytes with its header.
   */
  lemma DsetExact(tbl: Table, c: Clock, fset: seq<byte>)
    requires Coherent(tbl) && IsSet(fset) && Get16(fset, 0) in tbl && tbl[Get16(fset, 0)].Convert?
    ensures var r, t := ConvDset(tbl, c, fset), tbl[Get16(fset, 0)];
            && t.nf9DrecLen > 0
            && var recs := (|fset| - 4) / t.nf9DrecLen;
            && (r.SetOk? <==> recs > 0 && 4 + recs * t.ipxDrecLen <= 65515)
            && (r.SetOk? ==> r.drecs == recs && r.out.Some? && r.out.value.id == Get16(fset, 0)
                             && r.out.value.Size() == 4 + recs * t.ipxDrecLen)
  {
    var t := tbl[Get16(fset, 0)];
    DsetOutcome(tbl, c, fset);
    hide IsTrec, IsSet, ConvDset, ConvRecs, RecsOf, InLen, OutLen, Flat;
    DsetSize(t, c, fset);
  }

  /** The size of the converted records, from the size of the Data FlowSet. */
  lemma DsetSize(t: Trec, c: Clock, fset: seq<byte>)
    requires IsTrec(t) && IsSet(fset) && t.Convert?
    ensures t.nf9DrecLen > 0
    ensures var recs := RecsOf(fset[SET_HDR_LEN..], t.nf9DrecLen);
            && |recs| == (|fset| - SET_HDR_LEN) / t.nf9DrecLen && (forall r | r in recs :: |r| == InLen(t.instrs))
            && |Flat(ConvRecs(t, c, recs))| == |recs| * t.ipxDrecLen
  {
    assert |fset| >= SET_HDR_LEN;
    hide *;
    DsetDirect(t, c, fset);
    RecsCount(fset, t.nf9DrecLen);
    ConvRecsSize(t, c, RecsOf(fset[SET_HDR_LEN..], t.nf9DrecLen));
  }

  lemma RecsCount(fset: seq<byte>, len: nat)
    requires len > 0 && |fset| >= SET_HDR_LEN
    ensures |RecsOf(fset[SET_HDR_LEN..], len)| == (|fset| - SET_HDR_LEN) / len
  {
    hide RecsOf;
    RecsTile(fset[SET_HDR_LEN..], len);
  }

  lemma ConvRecsSize(t: Trec, c: Clock, recs: seq<seq<byte>>)
    requires t.Convert? && forall r | r in recs :: |r| == InLen(t.instrs)
    requires forall p | p in ConvRecs(t, c, recs) :: |p| == t.ipxDrecLen
    ensures |Flat(ConvRecs(t, c, recs))| == |recs| * t.ipxDrecLen
  {
    ConvRecsCount(t, c, recs);
    hide ConvRecs, InLen, Flat;
    FlatSize(ConvRecs(t, c, recs), t.ipxDrecLen);
  }

  lemma ConvRecsCount(t: Trec, c: Clock, recs: seq<seq<byte>>)
    requires t.Convert? && forall r | r in recs :: |r| == InLen(t.instrs)
    ensures |ConvRecs(t, c, recs)| == |recs|
  {
  }

  /** One FlowSet, converted or not: each template that was read has defined its ID. */
  lemma SetDefines(tbl: Table, c: Clock, s: seq<byte>)
    requires Coherent(tbl) && IsSet(s)
    ensures DefsOf(ConvSet(tbl, c, s).tbl) == DefineSet(DefsOf(tbl), s)
  {
    hide Coherent, ConvTset, ConvDset, IsTrec, IsTmplt, TmpltsOf, DefineAll, Define, DefsOf, RecsOf, ConvRecs, InLen, OutLen, Flat;
    var id := Get16(s, 0);
    if id <= SET_OPTS_TMPLT {
      TmpltsTile(id, s[SET_HDR_LEN..]);
      var d := DefineAll(tbl, id, TsetOf(id, s).items);
      TsetOutcome(tbl, s, d.0, d.1);
      DefineSame(tbl, id, TsetOf(id, s).items);
    } else if id >= SET_MIN_DSET {
      DsetOutcome(tbl, c, s);
    }
  }

  lemma CoherentDefs(tbl: Table)
    requires Coherent(tbl)
    ensures ValidDefs(DefsOf(tbl))
  {
    hide IsTmplt, TrecOf;
  }

  lemma DefinedIds(tbl: Table, id: u16)
    requires Coherent(tbl)
    ensures id in DefsOf(tbl) <==> id in tbl
    ensures id in tbl ==> IsTrec(tbl[id]) && DefsOf(tbl)[id] == Def(tbl[id].ty, tbl[id].nf9Data)
  {
    hide IsTrec;
  }

  // ---------------------------------------------------------------- what a receiver learns

  /** A template that is refused, or whose translation is shorter than 2^16 bytes. */
  predicate Emittable(ty: u16, raw: seq<byte>)
    requires IsTmplt(ty, raw)
  {
    TrecOf(ty, raw).Convert? ==> EncodedSize(ty, raw) < U16_SIZE
  }

  /** All templates of the FlowSet are. */
  predicate EmittableSet(fset: seq<byte>)
    requires IsSet(fset)
  {
    Get16(fset, 0) <= SET_OPTS_TMPLT ==>
      forall r | r in TsetOf(Get16(fset, 0), fset).items && IsTmplt(Get16(fset, 0), r) :: Emittable(Get16(fset, 0), r)
  }

  /** What template records teach: the translations of those that are not refused. */
  function Translations(ty: u16, raws: seq<seq<byte>>): seq<IpxTmplt>
    requires (ty == SET_TMPLT || ty == SET_OPTS_TMPLT) && forall r | r in raws :: IsTmplt(ty, r)
    decreases |raws|
  {
    hide RecError;
    if raws == [] then []
    else
      assert Def(ty, raws[0]).Valid();
      var d := Def(ty, raws[0]);
      (if d.Refused() then [] else [d.Translation()]) + Translations(ty, raws[1..])
  }

  /** What a receiver of a converted message learns from one of its FlowSets. */
  function Hear(rt: RecvTable, s: seq<byte>): RecvTable
    requires IsSet(s)
  {
    TsetTmplts(s);
    if Get16(s, 0) <= SET_OPTS_TMPLT then Learn(rt, Translations(Get16(s, 0), TsetOf(Get16(s, 0), s).items)) else rt
  }

  function HearSets(rt: RecvTable, sets: seq<seq<byte>>): RecvTable
    requires forall s | s in sets :: IsSet(s)
    decreases |sets|
  {
    if sets == [] then rt
    else
      assert IsSet(sets[0]);
      HearSets(Hear(rt, sets[0]), sets[1..])
  }

  /** At each Data FlowSet that is converted, the receiver holds the translation of the latest definition. */
  predicate Readable(rt: RecvTable, defs: Defs, sets: seq<seq<byte>>)
    requires ValidDefs(defs) && forall s | s in sets :: IsSet(s)
    decreases |sets|
  {
    sets != [] ==>
      assert IsSet(sets[0]);
      var s, id := sets[0], Get16(sets[0], 0);
      if id <= SET_OPTS_TMPLT then
        DefineSetValid(defs, s);
        Readable(Hear(rt, s), DefineSet(defs, s), sets[1..])
      else
        && (id >= SET_MIN_DSET && id in defs && !defs[id].Refused() ==> id in rt && rt[id] == defs[id].Translation())
        && Readable(rt, defs, sets[1..])
  }

  /** The translated template announces the length that the converter writes, and it is not zero. */
  lemma TranslationLen(d: Def)
    requires d.Valid() && !d.Refused()
    ensures TrecOf(d.ty, d.raw).Convert? && SumSpec(d.Translation().specs) == TrecOf(d.ty, d.raw).ipxDrecLen > 0
  {
    DropCondition(d.ty, d.raw);
    TrecShape(d.ty, d.raw);
    TrecIsTrec(d.ty, d.raw);
    hide IsTmplt, RecError, TrecOf;
    SpecsNoShorter(RecFields(d.ty, d.raw), ScopeCnt(d.ty, d.raw));
  }

  /** Templates added to a message decode to exactly their translations. */
  lemma {:induction false} DefineReceived(tbl: Table, ty: u16, raws: seq<seq<byte>>)
    requires (ty == SET_TMPLT || ty == SET_OPTS_TMPLT) && forall r | r in raws :: IsTmplt(ty, r) && Emittable(ty, r)
    ensures var parts := DefineAll(tbl, ty, raws).1;
            DecTset(ty, Flat(parts)) == Some(Translations(ty, raws)) && (parts != [] ==> Flat(parts) != [])
    decreases |raws|
  {
    NoneDecoded(ty);
    if raws != [] {
      var raw := raws[0];
      DefCompiled(ty, raw);
      var t, tbl' := TrecOf(ty, raw), tbl[Get16(raw, 0) := TrecOf(ty, raw)];
      assert Emittable(ty, raw);
      DefineFront(tbl, ty, raws);
      hide *;
      DefineReceived(tbl', ty, raws[1..]);
      var rest := DefineAll(tbl', ty, raws[1..]).1;
      if t.Convert? {
        OneReceived(ty, raw, Flat(rest));
        DecFirst(ty, Def(ty, raw).Translation(), t.ipxData, rest);
      } else {
        assert [] + rest == rest;
        assert [] + Translations(ty, raws[1..]) == Translations(ty, raws[1..]);
      }
    }
  }

  lemma DefineFront(tbl: Table, ty: u16, raws: seq<seq<byte>>)
    requires (ty == SET_TMPLT || ty == SET_OPTS_TMPLT) && (forall r | r in raws :: IsTmplt(ty, r)) && raws != []
    ensures var t, d := TrecOf(ty, raws[0]), Def(ty, raws[0]);
            && d.Valid()
            && DefineAll(tbl, ty, raws).1 == (if t.Convert? then [Appended(t)] else []) + DefineAll(tbl[Get16(raws[0], 0) := t], ty, raws[1..]).1
            && Translations(ty, raws) == (if d.Refused() then [] else [d.Translation()]) + Translations(ty, raws[1..])
  {
    hide RecError, TrecOf, Def.Refused, Def.Translation;
    assert IsTmplt(ty, raws[0]);
  }

  /** No template that is learned is longer than the set. */
  lemma {:induction false} LearnedFit(ty: u16, b: seq<byte>, k: nat)
    requires DecTset(ty, b).Some? && k < |DecTset(ty, b).value|
    ensures HdrLen(ty) + |EncSpecs(DecTset(ty, b).value[k].specs)| <= |b|
    decreases |b|
  {
    hide DecSpecs, EncSpecs;
    var r := DecTmplt(ty, b).value;
    DecReads(b[HdrLen(ty)..], Get16(b, 2));
    if k > 0 {
      LearnedFit(ty, r.1, k - 1);
    }
  }

  lemma {:induction false} TranslationIn(ty: u16, raws: seq<seq<byte>>, i: nat)
    requires (ty == SET_TMPLT || ty == SET_OPTS_TMPLT) && (forall r | r in raws :: IsTmplt(ty, r)) && i < |raws|
    ensures Def(ty, raws[i]).Valid() && (!Def(ty, raws[i]).Refused() ==> Def(ty, raws[i]).Translation() in Translations(ty, raws))
    decreases |raws|
  {
    hide IsTmplt, Def.Refused, Def.Translation;
    assert IsTmplt(ty, raws[i]) && IsTmplt(ty, raws[0]);
    if i > 0 {
      TranslationIn(ty, raws[1..], i - 1);
    }
  }

  /** Exactly when the Template Set of a converted FlowSet teaches the translations of its templates. */
  lemma TsetUnderstood(tbl: Table, fset: seq<byte>)
    requires IsSet(fset) && Get16(fset, 0) <= SET_OPTS_TMPLT && ConvTset(tbl, fset).SetOk?
    ensures var ty := Get16(fset, 0);
            var items := TsetOf(ty, fset).items;
            && (forall raw | raw in items :: IsTmplt(ty, raw))
            && var parts := DefineAll(tbl, ty, items).1;
               && ConvTset(tbl, fset).out == (if parts == [] then None else Some(OutSet(ty + 2, parts)))
               && (DecTset(ty, Flat(parts)) == Some(Translations(ty, items)) <==> EmittableSet(fset))
  {
    var ty := Get16(fset, 0);
    TsetTmplts(fset);
    hide ConvTset, Flat, DecTset, DefineAll, IsTmplt, Emittable, TsetOf, Translations;
    var items := TsetOf(ty, fset).items;
    var d := DefineAll(tbl, ty, items);
    TsetOutcome(tbl, fset, d.0, d.1);
    assert Flat([]) == [];
    if EmittableSet(fset) {
      DefineReceived(tbl, ty, items);
    } else if DecTset(ty, Flat(d.1)) == Some(Translations(ty, items)) {
      forall i | 0 <= i < |items| ensures Emittable(ty, items[i]) {
        ShortEnough(ty, items, Flat(d.1), i);
      }
    }
  }

  lemma ShortEnough(ty: u16, raws: seq<seq<byte>>, b: seq<byte>, i: nat)
    requires (ty == SET_TMPLT || ty == SET_OPTS_TMPLT) && (forall r | r in raws :: IsTmplt(ty, r)) && i < |raws|
    requires |b| < U16_SIZE && DecTset(ty, b) == Some(Translations(ty, raws))
    ensures Emittable(ty, raws[i])
  {
    var raw := raws[i];
    assert IsTmplt(ty, raw);
    DefCompiled(ty, raw);
    if TrecOf(ty, raw).Convert? {
      SpecsSize(RecFields(ty, raw), ScopeCnt(ty, raw));
      HdrFacts(ty, raw);
      hide IsTmplt, TrecOf, Def.Refused, DecTset, Translations, Specs, EncSpecs, Convertible;
      TranslationIn(ty, raws, i);
      var it, ts := Def(ty, raw).Translation(), Translations(ty, raws);
      var k :| 0 <= k < |ts| && ts[k] == it;
      LearnedFit(ty, b, k);
    }
  }

  lemma DefCompiled(ty: u16, raw: seq<byte>)
    requires (ty == SET_TMPLT || ty == SET_OPTS_TMPLT) && IsTmplt(ty, raw)
    ensures Def(ty, raw).Valid() && (Def(ty, raw).Refused() <==> TrecOf(ty, raw).Drop?)
    ensures !Def(ty, raw).Refused() ==> Convertible(RecFields(ty, raw), ScopeCnt(ty, raw)) && Def(ty, raw).Translation() == Translated(ty, raw)
  {
    DropCondition(ty, raw);
  }

  lemma DecFirst(ty: u16, it: IpxTmplt, enc: seq<byte>, rest: seq<seq<byte>>)
    requires enc != [] && DecTmplt(ty, enc + Flat(rest)) == Some((it, Flat(rest))) && DecTset(ty, Flat(rest)).Some?
    ensures Flat([enc] + rest) != []
    ensures DecTset(ty, Flat([enc] + rest)) == Some([it] + DecTset(ty, Flat(rest)).value)
  {
    hide DecTmplt;
    assert ([enc] + rest)[1..] == rest;
    assert Flat([enc] + rest) == enc + Flat(rest);
  }

  lemma OneReceived(ty: u16, raw: seq<byte>, rest: seq<byte>)
    requires (ty == SET_TMPLT || ty == SET_OPTS_TMPLT) && IsTmplt(ty, raw) && Emittable(ty, raw)
    requires TrecOf(ty, raw).Convert?
    ensures Convertible(RecFields(ty, raw), ScopeCnt(ty, raw))
    ensures var t := TrecOf(ty, raw);
            && Appended(t) == t.ipxData != []
            && DecTmplt(ty, t.ipxData + rest) == Some((Translated(ty, raw), rest))
            && Translated(ty, raw).tid == Get16(raw, 0)
  {
    TemplateRoundTrip(ty, raw, rest);
    EncodedSizeIs(ty, raw);
    TrecShape(ty, raw);
    HdrFacts(ty, raw);
  }

  // ---------------------------------------------------------------- one set

  lemma {:induction false} RecsOfFlat(parts: seq<seq<byte>>, len: nat)
    requires len > 0 && forall p | p in parts :: |p| == len
    ensures RecsOf(Flat(parts), len) == parts && |Flat(parts)| % len == 0
    decreases |parts|
  {
    if parts != [] {
      RecsOfFlat(parts[1..], len);
      RecsFront(parts[0], Flat(parts[1..]));
      ModStep(|Flat(parts[1..])|, len);
      assert parts == [parts[0]] + parts[1..];
    }
  }

  lemma RecsFront(p: seq<byte>, tail: seq<byte>)
    requires |p| > 0
    ensures RecsOf(p + tail, |p|) == [p] + RecsOf(tail, |p|)
  {
    assert (p + tail)[..|p|] == p && (p + tail)[|p|..] == tail;
  }

  lemma ModStep(n: nat, d: nat)
    requires d > 0 && n % d == 0
    ensures (d + n) % d == 0
  {
    assert n == n / d * d;
    assert (1 + n / d) * d == d + n / d * d;
    DivModUnique(d + n, d, 1 + n / d, 0);
  }

  lemma {:induction false} SpecsNoShorter(fs: seq<Field>, scope: nat)
    requires Convertible(fs, scope)
    ensures SumSpec(Specs(fs, scope)) >= SumLen(fs)
  {
    if fs != [] {
      var n := |fs| - 1;
      SpecsSnoc(fs, scope);
      EncSnoc(Specs(fs[..n], scope), SpecOf(fs[n], n < scope).value);
      NfIdRecoverable(fs[n], n < scope);
      SpecsNoShorter(fs[..n], scope);
    }
  }

  function Encs(outs: seq<OutSet>): seq<seq<byte>>
    requires SmallSets(outs)
  {
    seq(|outs|, i requires 0 <= i < |outs| => outs[i].Enc())
  }

  lemma OutIsSet(o: OutSet)
    requires o.Size() < U16_SIZE
    ensures IsSet(o.Enc()) && Get16(o.Enc(), 0) == o.id && o.Enc()[SET_HDR_LEN..] == Flat(o.parts)
  {
    assert Get16(o.Enc(), 2) == o.Size();
  }

  lemma {:induction false} EncSetsFlat(outs: seq<OutSet>)
    requires SmallSets(outs)
    ensures EncSets(outs) == Flat(Encs(outs)) && forall s | s in Encs(outs) :: IsSet(s)
    decreases |outs|
  {
    forall i | 0 <= i < |outs| ensures IsSet(Encs(outs)[i]) {
      OutIsSet(outs[i]);
    }
    if outs != [] {
      EncSetsFlat(outs[1..]);
      assert Encs(outs)[1..] == Encs(outs[1..]);
    }
  }

  /** One FlowSet: what it adds to the message, as a receiver sees it. */
  lemma SetReceived(tbl: Table, c: Clock, fset: seq<byte>)
    requires IsSet(fset) && Coherent(tbl) && EmittableSet(fset) && ConvSet(tbl, c, fset).SetOk?
    ensures ValidDefs(DefsOf(tbl)) && SmallOut(ConvSet(tbl, c, fset).out)
    ensures var id, r, defs := Get16(fset, 0), ConvSet(tbl, c, fset), DefsOf(tbl);
            if id <= SET_OPTS_TMPLT then
              && (forall raw | raw in TsetOf(id, fset).items :: IsTmplt(id, raw))
              && var ts := Translations(id, TsetOf(id, fset).items);
                 if r.out == None then ts == [] else r.out.value.id == id + 2 && DecTset(id, Flat(r.out.value.parts)) == Some(ts)
            else
              && (r.out.Some? <==> id >= SET_MIN_DSET && id in defs && !defs[id].Refused())
              && (r.out.Some? ==> r.out.value.id == id && Announced(r.out.value.parts, defs[id], c, fset))
  {
    SetDirect(tbl, c, fset);
    SetSmall(tbl, c, fset);
    var id := Get16(fset, 0);
    hide ConvTset, ConvDset, Coherent, Flat, DecTset, RecsOf, SumSpec, TsetOf, IsTrec, Def.Refused, DirectRecs, DefsOf;
    if id <= SET_OPTS_TMPLT {
      TsetReceived(tbl, fset);
    } else if ConvSet(tbl, c, fset).out.Some? {
      DsetReceived(DefsOf(tbl)[id], c, fset, ConvSet(tbl, c, fset).out.value.parts);
    }
  }

  /** The records of a set are read back by the length that the template announces. */
  predicate Announced(parts: seq<seq<byte>>, d: Def, c: Clock, fset: seq<byte>)
    requires d.Valid() && !d.Refused() && IsSet(fset)
  {
    var n := SumSpec(d.Translation().specs);
    n > 0 && |Flat(parts)| % n == 0 && RecsOf(Flat(parts), n) == parts == DirectRecs(d, c, fset)
  }

  lemma DsetReceived(d: Def, c: Clock, fset: seq<byte>, parts: seq<seq<byte>>)
    requires d.Valid() && !d.Refused() && IsSet(fset) && parts == DirectRecs(d, c, fset)
    ensures Announced(parts, d, c, fset)
  {
    var t := TrecOf(d.ty, d.raw);
    TrecIsTrec(d.ty, d.raw);
    TranslationLen(d);
    DsetDirect(t, c, fset);
    hide IsTrec, TrecOf, RecsOf, Flat, SumSpec, Exec, InLen, DirectRecs, Def.Refused, Def.Translation, IsTmplt;
    RecsOfFlat(parts, t.ipxDrecLen);
  }

  lemma TsetReceived(tbl: Table, fset: seq<byte>)
    requires IsSet(fset) && Get16(fset, 0) <= SET_OPTS_TMPLT && EmittableSet(fset) && ConvTset(tbl, fset).SetOk?
    ensures var ty, r := Get16(fset, 0), ConvTset(tbl, fset);
            && (forall raw | raw in TsetOf(ty, fset).items :: IsTmplt(ty, raw))
            && var ts := Translations(ty, TsetOf(ty, fset).items);
               if r.out == None then ts == [] else r.out.value.id == ty + 2 && DecTset(ty, Flat(r.out.value.parts)) == Some(ts)
  {
    TsetUnderstood(tbl, fset);
    NoneDecoded(Get16(fset, 0));
  }

  lemma NoneDecoded(ty: u16)
    ensures DecTset(ty, Flat([])) == Some([])
  {
  }

  /** Data Sets among the sets of a message. */
  datatype SentData = SentData(tid: u16, recs: seq<seq<byte>>)

  function DataOf(outs: seq<OutSet>): seq<SentData>
    decreases |outs|
  {
    if outs == [] then []
    else (if outs[0].id >= SET_MIN_DSET then [SentData(outs[0].id, outs[0].parts)] else []) + DataOf(outs[1..])
  }

  /** Records without what the receiver knows of their templates. */
  function Sent(data: seq<RecvData>): seq<SentData> {
    seq(|data|, i requires 0 <= i < |data| => SentData(data[i].tmplt.tid, data[i].recs))
  }

  function CountData(datas: seq<RecvData>): nat {
    if datas == [] then 0 else |datas[0].recs| + CountData(datas[1..])
  }

  /** How the receiver goes on behind a Template Set. */
  lemma ReceiveTset(rt: RecvTable, o: OutSet, rest: seq<seq<byte>>, ts: seq<IpxTmplt>)
    requires (o.id == 2 || o.id == 3) && o.Size() < U16_SIZE && DecTset(o.id - 2, Flat(o.parts)) == Some(ts)
    requires forall s | s in rest :: IsSet(s)
    ensures IsSet(o.Enc()) && Receive(rt, [o.Enc()] + rest) == Receive(Learn(rt, ts), rest)
  {
    OutIsSet(o);
    hide OutSet.Enc, DecTset, Learn, IsSet, Flat;
    assert ([o.Enc()] + rest)[1..] == rest;
  }

  /** And behind a Data Set, for which it needs a template whose length divides the set. */
  lemma ReceiveDset(rt: RecvTable, o: OutSet, rest: seq<seq<byte>>)
    requires o.id >= SET_MIN_DSET && o.Size() < U16_SIZE && forall s | s in rest :: IsSet(s)
    ensures IsSet(o.Enc())
    ensures var got, after := Receive(rt, [o.Enc()] + rest), Receive(rt, rest);
            if o.id in rt && SumSpec(rt[o.id].specs) > 0 && |Flat(o.parts)| % SumSpec(rt[o.id].specs) == 0 && after.Some? then
              got == Some((after.value.0, [RecvData(rt[o.id], RecsOf(Flat(o.parts), SumSpec(rt[o.id].specs)))] + after.value.1))
            else
              got == None
  {
    OutIsSet(o);
    hide OutSet.Enc, IsSet, Flat, RecsOf, SumSpec;
    assert ([o.Enc()] + rest)[1..] == rest;
  }

  /**
   * What a receiver makes of a converted body. It reads the direct translation, records and templates,
   * exactly if it holds the right template for each Data Set; what it learns depends on templates only.
   */
  ghost predicate ReadAs(got: Option<(RecvTable, seq<RecvData>)>, rt: RecvTable, defs: Defs, c: Clock, sets: seq<seq<byte>>)
    requires ValidDefs(defs) && forall s | s in sets :: IsSet(s)
  {
    && (got.Some? ==> got.value.0 == HearSets(rt, sets) && |got.value.1| == |Direct(defs, c, sets)|)
    && (Readable(rt, defs, sets) <==> got.Some? && got.value.1 == Direct(defs, c, sets))
  }

  lemma {:induction false} BodyReceived(tbl: Table, rt: RecvTable, c: Clock, sets: seq<seq<byte>>)
    requires Coherent(tbl) && (forall s | s in sets :: IsSet(s) && EmittableSet(s)) && ConvSets(tbl, c, sets).ok
    ensures var r := ConvSets(tbl, c, sets);
            && ValidDefs(DefsOf(tbl)) && SmallSets(r.outs) && (forall s | s in Encs(r.outs) :: IsSet(s))
            && ReadAs(Receive(rt, Encs(r.outs)), rt, DefsOf(tbl), c, sets)
    decreases |sets|
  {
    hide ConvSet, ConvSets, IsTrec, Coherent, EmittableSet, IsSet, ReadAs, Receive, ValidDefs, DefsOf, Encs, OutSet.Size;
    CoherentDefs(tbl);
    MsgBounds(tbl, c, sets);
    EncSetsFlat(ConvSets(tbl, c, sets).outs);
    if sets == [] {
      NothingRead(rt, tbl, c);
    } else {
      assert IsSet(sets[0]) && EmittableSet(sets[0]);
      SetFront(tbl, c, sets);
      var s := ConvSet(tbl, c, sets[0]);
      SetDirect(tbl, c, sets[0]);
      BodyReceived(s.tbl, Hear(rt, sets[0]), c, sets[1..]);
      assert RestRead(ConvSets(s.tbl, c, sets[1..]).outs, Hear(rt, sets[0]), DefsOf(s.tbl), c, sets[1..]);
      ReadFront(tbl, rt, c, sets, ConvSets(s.tbl, c, sets[1..]).outs);
    }
  }

  lemma NothingRead(rt: RecvTable, tbl: Table, c: Clock)
    requires Coherent(tbl) && ValidDefs(DefsOf(tbl))
    ensures Encs(ConvSets(tbl, c, []).outs) == [] && ReadAs(Receive(rt, []), rt, DefsOf(tbl), c, [])
  {
    hide IsTrec, ValidDefs, DefsOf;
  }

  lemma SetFront(tbl: Table, c: Clock, sets: seq<seq<byte>>)
    requires Coherent(tbl) && sets != [] && (forall s | s in sets :: IsSet(s)) && ConvSets(tbl, c, sets).ok
    ensures ConvSet(tbl, c, sets[0]).SetOk? && Coherent(ConvSet(tbl, c, sets[0]).tbl)
    ensures var s := ConvSet(tbl, c, sets[0]);
            var rest := ConvSets(s.tbl, c, sets[1..]);
            rest.ok && ConvSets(tbl, c, sets).outs == (if s.out.Some? then [s.out.value] else []) + rest.outs
  {
    hide IsTrec, ConvSet;
    SetCoherent(tbl, c, sets[0]);
  }

  /** The sets behind the first are read as they should be. */
  ghost predicate RestRead(rest: seq<OutSet>, rt: RecvTable, defs: Defs, c: Clock, sets: seq<seq<byte>>)
    requires ValidDefs(defs) && forall s | s in sets :: IsSet(s)
  {
    && SmallSets(rest) && (forall s | s in Encs(rest) :: IsSet(s))
    && ReadAs(Receive(rt, Encs(rest)), rt, defs, c, sets)
  }

  /** One FlowSet in front of others. */
  lemma ReadFront(tbl: Table, rt: RecvTable, c: Clock, sets: seq<seq<byte>>, rest: seq<OutSet>)
    requires Coherent(tbl) && sets != [] && forall s | s in sets :: IsSet(s)
    requires EmittableSet(sets[0]) && ConvSet(tbl, c, sets[0]).SetOk?
    requires ValidDefs(DefsOf(tbl)) && ValidDefs(DefineSet(DefsOf(tbl), sets[0]))
    requires RestRead(rest, Hear(rt, sets[0]), DefineSet(DefsOf(tbl), sets[0]), c, sets[1..])
    ensures var out := ConvSet(tbl, c, sets[0]).out;
            RestRead((if out.Some? then [out.value] else []) + rest, rt, DefsOf(tbl), c, sets)
  {
    var out, id, defs := ConvSet(tbl, c, sets[0]).out, Get16(sets[0], 0), DefsOf(tbl);
    SetReceived(tbl, c, sets[0]);
    hide ConvSet, Coherent, EmittableSet, IsSet, IsTmplt, IsTrec, RestRead, ValidDefs, DefsOf, Def.Refused, Announced,
         DecTset, Translations, TsetOf, Flat, Define, Learn, OutSet.Size;
    if out == None {
      assert [] + rest == rest;
      ReadNone(rt, defs, c, sets, rest);
    } else if id <= SET_OPTS_TMPLT {
      ReadTset(rt, defs, c, sets, out.value, rest);
    } else {
      ReadDset(rt, defs, c, sets, out.value, rest);
    }
  }

  /** Nothing is added to the message. */
  lemma ReadNone(rt: RecvTable, defs: Defs, c: Clock, sets: seq<seq<byte>>, rest: seq<OutSet>)
    requires ValidDefs(defs) && sets != [] && (forall s | s in sets :: IsSet(s)) && ValidDefs(DefineSet(defs, sets[0]))
    requires RestRead(rest, Hear(rt, sets[0]), DefineSet(defs, sets[0]), c, sets[1..])
    requires var id := Get16(sets[0], 0);
             if id <= SET_OPTS_TMPLT then
               && (forall raw | raw in TsetOf(id, sets[0]).items :: IsTmplt(id, raw))
               && Translations(id, TsetOf(id, sets[0]).items) == []
             else
               id < SET_MIN_DSET || id !in defs || defs[id].Refused()
    ensures RestRead(rest, rt, defs, c, sets)
  {
    hide IsSet, IsTmplt, ValidDefs, Def.Refused, Translations, TsetOf, Define, DirectRecs, Receive, Encs, SmallSets, OutSet.Size, Flat;
    assert Learn(rt, []) == rt;
    assert Hear(rt, sets[0]) == rt;
  }

  /** A Template Set is added. */
  lemma ReadTset(rt: RecvTable, defs: Defs, c: Clock, sets: seq<seq<byte>>, o: OutSet, rest: seq<OutSet>)
    requires ValidDefs(defs) && sets != [] && (forall s | s in sets :: IsSet(s)) && ValidDefs(DefineSet(defs, sets[0]))
    requires RestRead(rest, Hear(rt, sets[0]), DefineSet(defs, sets[0]), c, sets[1..])
    requires var id := Get16(sets[0], 0);
             && id <= SET_OPTS_TMPLT && o.id == id + 2 && o.Size() <= MAX_SET_CONTENT_LEN
             && (forall raw | raw in TsetOf(id, sets[0]).items :: IsTmplt(id, raw))
             && DecTset(id, Flat(o.parts)) == Some(Translations(id, TsetOf(id, sets[0]).items))
    ensures RestRead([o] + rest, rt, defs, c, sets)
  {
    assert IsSet(sets[0]) && |sets[0]| >= SET_HDR_LEN;
    TsetFirst(rt, defs, c, sets);
    hide HearSets, Readable, Direct, Hear, DefineSet;
    hide IsSet, IsTmplt, ValidDefs, Translations, TsetOf, Define, DirectRecs, Receive, DecTset, Learn, OutSet.Size, OutSet.Enc, Flat, Encs;
    ReceiveTset(rt, o, Encs(rest), Translations(Get16(sets[0], 0), TsetOf(Get16(sets[0], 0), sets[0]).items));
    EncsFront(o, rest);
  }

  lemma TsetFirst(rt: RecvTable, defs: Defs, c: Clock, sets: seq<seq<byte>>)
    requires ValidDefs(defs) && sets != [] && (forall s | s in sets :: IsSet(s)) && ValidDefs(DefineSet(defs, sets[0]))
    requires Get16(sets[0], 0) <= SET_OPTS_TMPLT && forall raw | raw in TsetOf(Get16(sets[0], 0), sets[0]).items :: IsTmplt(Get16(sets[0], 0), raw)
    ensures var s, id, rest := sets[0], Get16(sets[0], 0), sets[1..];
            && Hear(rt, s) == Learn(rt, Translations(id, TsetOf(id, s).items)) && HearSets(rt, sets) == HearSets(Hear(rt, s), rest)
            && Direct(defs, c, sets) == Direct(DefineSet(defs, s), c, rest)
            && (Readable(rt, defs, sets) <==> Readable(Hear(rt, s), DefineSet(defs, s), rest))
  {
    hide IsTmplt, ValidDefs, Translations, TsetOf, Define, DirectRecs, Learn;
  }

  lemma EncsFront(o: OutSet, rest: seq<OutSet>)
    requires o.Size() <= MAX_SET_CONTENT_LEN && SmallSets(rest)
    ensures SmallSets([o] + rest) && Encs([o] + rest) == [o.Enc()] + Encs(rest)
  {
    hide OutSet.Size;
  }

  /** A Data Set is added. */
  lemma ReadDset(rt: RecvTable, defs: Defs, c: Clock, sets: seq<seq<byte>>, o: OutSet, rest: seq<OutSet>)
    requires ValidDefs(defs) && sets != [] && (forall s | s in sets :: IsSet(s)) && ValidDefs(DefineSet(defs, sets[0]))
    requires RestRead(rest, Hear(rt, sets[0]), DefineSet(defs, sets[0]), c, sets[1..])
    requires var id := Get16(sets[0], 0);
             && id >= SET_MIN_DSET && id in defs && !defs[id].Refused()
             && o.id == id && o.Size() <= MAX_SET_CONTENT_LEN && Announced(o.parts, defs[id], c, sets[0])
    ensures RestRead([o] + rest, rt, defs, c, sets)
  {
    assert IsSet(sets[0]) && defs[o.id].Valid();
    hide IsSet, IsTmplt, ValidDefs, Define, Receive, OutSet.Size, OutSet.Enc, Flat, RecsOf, SumSpec;
    hide Def.Refused, Def.Translation, DirectRecs, Encs, HearSets;
    var id, tail, after := o.id, sets[1..], Receive(rt, Encs(rest));
    ReceiveDset(rt, o, Encs(rest));
    EncsFront(o, rest);
    var got, here := Receive(rt, [o.Enc()] + Encs(rest)), RecvData(defs[id].Translation(), DirectRecs(defs[id], c, sets[0]));
    assert Direct(defs, c, sets) == [here] + Direct(defs, c, tail);
    if got.Some? {
      SameFront(got.value.1[0], after.value.1, here, Direct(defs, c, tail));
    }
  }

  lemma SameFront<T>(a: T, s: seq<T>, b: T, t: seq<T>)
    ensures [a] + s == [b] + t <==> a == b && s == t
  {
    assert ([a] + s)[0] == a && ([a] + s)[1..] == s && ([b] + t)[0] == b && ([b] + t)[1..] == t;
  }

  /** What the converter wrote is the direct translation of the NetFlow message. */
  lemma {:induction false} BodyDirect(tbl: Table, c: Clock, sets: seq<seq<byte>>)
    requires Coherent(tbl) && (forall s | s in sets :: IsSet(s)) && ConvSets(tbl, c, sets).ok
    ensures var r, d := ConvSets(tbl, c, sets), DefsOf(tbl);
            && ValidDefs(d) && DataOf(r.outs) == Sent(Direct(d, c, sets)) && r.drecs == CountData(Direct(d, c, sets))
    decreases |sets|
  {
    if sets != [] {
      assert IsSet(sets[0]) && |sets[0]| >= SET_HDR_LEN;
    }
    hide ConvSet, IsTrec, IsSet, Def.Refused, DirectRecs, DefineSet, Coherent, ValidDefs, DefsOf, DataOf, Sent, CountData, Def.Translation;
    CoherentDefs(tbl);
    NoData();
    if sets != [] {
      assert IsSet(sets[0]);
      SetFront(tbl, c, sets);
      var s := ConvSet(tbl, c, sets[0]);
      SetDirect(tbl, c, sets[0]);
      BodyDirect(s.tbl, c, sets[1..]);
      var rest, d := ConvSets(s.tbl, c, sets[1..]), Direct(DefsOf(s.tbl), c, sets[1..]);
      if s.out.Some? {
        DataFront(s.out.value, rest.outs);
        if Get16(sets[0], 0) >= SET_MIN_DSET {
          SentFront(RecvData(DefsOf(tbl)[Get16(sets[0], 0)].Translation(), s.out.value.parts), d);
        }
      } else {
        assert [] + rest.outs == rest.outs;
      }
    }
  }

  lemma NoData()
    ensures DataOf([]) == [] && Sent([]) == [] && CountData([]) == 0
  {
  }

  lemma DataFront(o: OutSet, outs: seq<OutSet>)
    ensures DataOf([o] + outs) == (if o.id >= SET_MIN_DSET then [SentData(o.id, o.parts)] else []) + DataOf(outs)
  {
    assert ([o] + outs)[1..] == outs;
  }

  lemma SentFront(r: RecvData, data: seq<RecvData>)
    ensures Sent([r] + data) == [SentData(r.tmplt.tid, r.recs)] + Sent(data)
    ensures CountData([r] + data) == |r.recs| + CountData(data)
  {
    assert ([r] + data)[1..] == data;
  }

  lemma SetDirect(tbl: Table, c: Clock, fset: seq<byte>)
    requires Coherent(tbl) && IsSet(fset) && ConvSet(tbl, c, fset).SetOk?
    ensures ValidDefs(DefsOf(tbl)) && DefsOf(ConvSet(tbl, c, fset).tbl) == DefineSet(DefsOf(tbl), fset)
    ensures var r, id, defs := ConvSet(tbl, c, fset), Get16(fset, 0), DefsOf(tbl);
            && (id <= SET_OPTS_TMPLT ==> r.drecs == 0 && (r.out.Some? ==> r.out.value.id < SET_MIN_DSET))
            && (id > SET_OPTS_TMPLT ==>
                  && (r.out.Some? <==> id >= SET_MIN_DSET && id in defs && !defs[id].Refused())
                  && (r.out.Some? ==> r.out.value == OutSet(id, DirectRecs(defs[id], c, fset)) && r.drecs == |r.out.value.parts|
                                      && defs[id].Translation().tid == id)
                  && (r.out.None? ==> r.drecs == 0))
  {
    var id := Get16(fset, 0);
    CoherentDefs(tbl);
    SetDefines(tbl, c, fset);
    hide Coherent, ConvTset, ConvDset, IsTrec, IsTmplt, TmpltsOf, DefineAll, DefineSet, DefsOf;
    hide ConvRecs, InLen, RecsOf, Def.Refused, DirectRecs, Flat;
    if id <= SET_OPTS_TMPLT {
      TsetTmplts(fset);
      var d := DefineAll(tbl, id, TsetOf(id, fset).items);
      TsetOutcome(tbl, fset, d.0, d.1);
    } else {
      DefinedIds(tbl, id);
      if id >= SET_MIN_DSET {
        DsetOutcome(tbl, c, fset);
      }
      if id in tbl {
        DsetDirect(tbl[id], c, fset);
      }
    }
  }

  // ---------------------------------------------------------------- header and tiling

  /**
   * Whole-message well-formedness: version 10, the length field is the size of the message, export
   * time and Observation Domain are the NetFlow ones, and the sets tile the rest exactly.
   */
  lemma MessageWellFormed(st: State, msg: seq<byte>)
    requires st.Valid() && ConvMsg(st, msg).1.Done?
    ensures |msg| >= 20 && Get16(msg, 0) == 9 && SmallSets(ConvBody(st.tbl, msg).outs)
    ensures var m, outs := ConvMsg(st, msg).1.msg, ConvBody(st.tbl, msg).outs;
            && 16 <= |m| <= 65535
            && Get16(m, 0) == 10 && Get16(m, 2) == |m|
            && m[4..8] == msg[8..12] && Get32(m, 8) == st.ipxSeqNext && m[12..16] == msg[16..20]
            && SetsOf(m[16..]) == Walk(Encs(outs), None)
  {
    hide ConvBody, EncSets, Encs, SetsOf, IsSet;
    BodyBounds(st.tbl, msg);
    var outs := ConvBody(st.tbl, msg).outs;
    EncSetsFlat(outs);
    SetsComplete(Encs(outs));
    var m := ConvMsg(st, msg).1.msg;
    assert m[IPX_HDR_LEN..] == EncSets(outs);
    assert m[8..12] == Put32(st.ipxSeqNext);
    assert Put32(st.ipxSeqNext) + [] == Put32(st.ipxSeqNext);
    GetPut32(st.ipxSeqNext, []);
    assert Get32(m, 8) == Get32(m[8..12], 0);
  }

  /** A message that is not converted leaves the sequence number of the next one unchanged. */
  lemma FailureKeepsSequence(st: State, msg: seq<byte>)
    requires st.Valid()
    ensures var r := ConvMsg(st, msg);
            && (r.1.Failed? ==> r.0.ipxSeqNext == st.ipxSeqNext)
            && (r.1.Done? ==> r.0.ipxSeqNext == (st.ipxSeqNext + ConvBody(st.tbl, msg).drecs) % U32_SIZE)
  {
  }

  predicate EmittableMsg(msg: seq<byte>) {
    forall s | s in FlowSets(msg) && IsSet(s) :: EmittableSet(s)
  }

  /**
   * One message end to end. What a receiver reads out of the IPFIX message is the direct, field-by-field
   * translation of the NetFlow message under its latest definitions, each set with the translated template,
   * exactly if the receiver holds those templates.
   */
  lemma MessageFaithful(st: State, rt: RecvTable, msg: seq<byte>)
    requires st.Valid() && EmittableMsg(msg) && ConvMsg(st, msg).1.Done?
    ensures |msg| >= MSG_HDR_LEN && ValidDefs(DefsOf(st.tbl)) && forall s | s in FlowSets(msg) :: IsSet(s)
    ensures var r := ConvMsg(st, msg);
            && |r.1.msg| >= IPX_HDR_LEN
            && var sets := SetsOf(r.1.msg[IPX_HDR_LEN..]);
            && sets.end == None && (forall s | s in sets.items :: IsSet(s))
            && ReadAs(Receive(rt, sets.items), rt, DefsOf(st.tbl), ClockOf(msg), FlowSets(msg))
            && r.0.ipxSeqNext == (st.ipxSeqNext + CountData(Direct(DefsOf(st.tbl), ClockOf(msg), FlowSets(msg)))) % U32_SIZE
  {
    hide IsTrec, IsSet, EmittableSet, ConvSets, Direct, DataOf, Encs, EncSets, SetsOf, IpxHdr, Receive, ReadAs, ValidDefs, CountData, DefsOf;
    MessageWellFormed(st, msg);
    FlowSetsAreSets(msg);
    BodyReceived(st.tbl, rt, ClockOf(msg), FlowSets(msg));
    BodyDirect(st.tbl, ClockOf(msg), FlowSets(msg));
  }

  // ---------------------------------------------------------------- the strict collector

  /**
   * A strict collector. Every message must carry version 10, its own length, the number of Data Records
   * sent before it modulo 2^32 (section 3.1 of RFC 7011) and sets that tile it and can be interpreted.
   */
  function Collect(rt: RecvTable, sent: nat, msgs: seq<seq<byte>>): Option<seq<RecvData>>
    decreases |msgs|
  {
    if msgs == [] then Some([])
    else
      match CollectOne(rt, sent, msgs[0])
      case None => None
      case Some(r) =>
        match Collect(r.0, sent + CountData(r.1), msgs[1..])
        case None => None
        case Some(rest) => Some(r.1 + rest)
  }

  function CollectOne(rt: RecvTable, sent: nat, m: seq<byte>): Option<(RecvTable, seq<RecvData>)> {
    if |m| < 16 || Get16(m, 0) != 10 || Get16(m, 2) != |m| then None
    else if Get32(m, 8) != sent % U32_SIZE || SetsOf(m[16..]).end.Some? then None
    else
      SetsTile(m[16..]);
      Receive(rt, SetsOf(m[16..]).items)
  }

}
