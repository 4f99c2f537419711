/** Exactly which NetFlow v9 messages are converted, from their FlowSets and the latest definitions. */
module Nf9Acceptance {
  import opened Bytes
  import opened Nf9Parsers
  import opened Nf9Templates
  import opened Nf9Trec
  import opened Nf9Spec
  import opened Nf9Theorems

  /** Bytes of the accepted templates of a FlowSet in the new message; each size has 16 bits. */
  function TmpltsSize(ty: u16, raws: seq<seq<byte>>): nat
    requires (ty == SET_TMPLT || ty == SET_OPTS_TMPLT) && forall r | r in raws :: IsTmplt(ty, r)
  {
    if raws == [] then 0
    else
      assert IsTmplt(ty, raws[0]);
      (if Def(ty, raws[0]).Refused() then 0 else EncodedSize(ty, raws[0]) % 0x1_0000) + TmpltsSize(ty, raws[1..])
  }

  /** Size of the new set: none without an accepted template or definition, and no result if it cannot be converted. */
  function SetSize(defs: Defs, s: seq<byte>): Option<nat>
    requires ValidDefs(defs) && IsSet(s)
  {
    hide Def.Refused, LenIn, LenOut;
    var id := Get16(s, 0);
    if id < 2 then TsetSize(id, s)
    else if id < 256 || id !in defs || defs[id].Refused() then Some(0)
    else DsetSize(|s| - 4, LenIn(defs[id]), LenOut(defs[id]))
  }

  function TsetSize(ty: u16, s: seq<byte>): Option<nat>
    requires IsSet(s) && Get16(s, 0) == ty < 2
  {
    TsetTmplts(s);
    hide TsetOf, Translations, TmpltsSize;
    var w := TsetOf(ty, s);
    if w.end.Some? then None else if Translations(ty, w.items) == [] then Some(0) else Limited(4 + TmpltsSize(ty, w.items))
  }

  /** Records of one length that become records of another. */
  function DsetSize(content: nat, from: nat, to: nat): Option<nat>
    requires from > 0
  {
    if content / from == 0 then None else Limited(4 + content / from * to)
  }

  function LenIn(d: Def): (n: nat)
    requires d.Valid()
    ensures n > 0
  {
    SumLen(RecFields(d.ty, d.raw))
  }

  function LenOut(d: Def): nat
    requires d.Valid() && !d.Refused()
  {
    hide IsTmplt;
    SumSpec(d.Translation().specs)
  }

  function Limited(n: nat): Option<nat> {
    if n <= 65515 then Some(n) else None
  }

  function SetsSize(defs: Defs, sets: seq<seq<byte>>): Option<nat>
    requires ValidDefs(defs) && forall s | s in sets :: IsSet(s)
    decreases |sets|
  {
    if sets == [] then Some(0)
    else
      assert IsSet(sets[0]);
      DefineSetValid(defs, sets[0]);
      match SetSize(defs, sets[0])
      case None => None
      case Some(n) =>
        match SetsSize(DefineSet(defs, sets[0]), sets[1..])
        case None => None
        case Some(rest) => Some(n + rest)
  }

  lemma {:induction false} DefineSize(tbl: Table, ty: u16, raws: seq<seq<byte>>)
    requires (ty == SET_TMPLT || ty == SET_OPTS_TMPLT) && forall r | r in raws :: IsTmplt(ty, r)
    ensures var parts := DefineAll(tbl, ty, raws).1;
            |Flat(parts)| == TmpltsSize(ty, raws) && (parts == [] <==> Translations(ty, raws) == [])
    decreases |raws|
  {
    if raws != [] {
      var raw := raws[0];
      assert IsTmplt(ty, raw);
      var t := TrecOf(ty, raw);
      DefineFront(tbl, ty, raws);
      DefCompiled(ty, raw);
      if t.Convert? {
        EncodedSizeIs(ty, raw);
        TrecShape(ty, raw);
      }
      hide IsTmplt, TrecOf, DefineAll, Translations, Def.Refused, Def.Translation, EncodedSize;
      var rest := DefineAll(tbl[Get16(raw, 0) := t], ty, raws[1..]).1;
      DefineSize(tbl[Get16(raw, 0) := t], ty, raws[1..]);
      if t.Convert? {
        assert ([Appended(t)] + rest)[1..] == rest;
      } else {
        assert [] + rest == rest;
      }
    } else {
      assert Flat([]) == [];
    }
  }

  /** One FlowSet. */
  lemma SetSizeIs(tbl: Table, c: Clock, s: seq<byte>)
    requires Coherent(tbl) && IsSet(s)
    ensures ValidDefs(DefsOf(tbl))
    ensures SetSize(DefsOf(tbl), s) == match ConvSet(tbl, c, s)
                                       case SetFail(_) => None
                                       case SetOk(_, out, _, _) => Some(if out == None then 0 else out.value.Size())
  {
    CoherentDefs(tbl);
    var id := Get16(s, 0);
    hide Coherent, ConvTset, ConvDset, DefsOf, DefineAll, Translations, TmpltsSize;
    hide IsTmplt, IsTrec, Def.Refused, TsetOf, TmpltsOf, Flat, DsetSize, LenIn, LenOut, OutSet.Size;
    if id < 2 {
      TsetTmplts(s);
      var items := TsetOf(id, s).items;
      var d := DefineAll(tbl, id, items);
      TsetOutcome(tbl, s, d.0, d.1);
      DefineSize(tbl, id, items);
    } else {
      DefinedIds(tbl, id);
      if id >= 256 {
        DataSizeIs(tbl, c, s);
      }
    }
  }

  lemma DataSizeIs(tbl: Table, c: Clock, s: seq<byte>)
    requires Coherent(tbl) && IsSet(s) && Get16(s, 0) >= 256 && ValidDefs(DefsOf(tbl))
    ensures SetSize(DefsOf(tbl), s) == match ConvDset(tbl, c, s)
                                       case SetFail(_) => None
                                       case SetOk(_, out, _, _) => Some(if out == None then 0 else out.value.Size())
  {
    var id := Get16(s, 0);
    DefinedIds(tbl, id);
    hide Coherent, ConvDset, IsTrec, IsTmplt, DefsOf, ConvRecs, InLen, OutLen, RecsOf;
    hide Flat, Def.Refused, DirectRecs, OutSet.Size, LenIn, LenOut, DsetSize;
    if id !in tbl || tbl[id].Drop? {
      SkippedIs(tbl, c, s);
    } else {
      LengthsOf(tbl[id]);
      ConvertedIs(tbl, c, s);
    }
  }

  lemma ConvertedIs(tbl: Table, c: Clock, s: seq<byte>)
    requires Coherent(tbl) && IsSet(s) && Get16(s, 0) in tbl && tbl[Get16(s, 0)].Convert? && |s| >= 4
    ensures var t := tbl[Get16(s, 0)];
            && t.nf9DrecLen > 0
            && DsetSize(|s| - 4, t.nf9DrecLen, t.ipxDrecLen) == match ConvDset(tbl, c, s)
                                                                case SetFail(_) => None
                                                                case SetOk(_, out, _, _) => Some(if out == None then 0 else out.value.Size())
  {
    assert SET_HDR_LEN == 4 && MAX_SET_CONTENT_LEN == 65515;
    hide *;
    DsetExact(tbl, c, s);
    var t := tbl[Get16(s, 0)];
    SizeFormula(|s| - 4, t.nf9DrecLen, t.ipxDrecLen);
  }

  lemma SizeFormula(content: nat, from: nat, to: nat)
    requires from > 0
    ensures DsetSize(content, from, to)
            == if content / from > 0 && 4 + content / from * to <= 65515 then Some(4 + content / from * to) else None
  {
  }

  lemma SkippedIs(tbl: Table, c: Clock, s: seq<byte>)
    requires Coherent(tbl) && IsSet(s) && (Get16(s, 0) !in tbl || tbl[Get16(s, 0)].Drop?)
    ensures var r, id := ConvDset(tbl, c, s), Get16(s, 0);
            && r.SetOk? && r.out == None
            && (id in tbl ==> Def(tbl[id].ty, tbl[id].nf9Data).Valid() && Def(tbl[id].ty, tbl[id].nf9Data).Refused())
  {
    var id := Get16(s, 0);
    DsetOutcome(tbl, c, s);
    if id in tbl {
      DsetDirect(tbl[id], c, s);
    }
    hide ConvDset, RecsOf;
  }

  lemma LengthsOf(t: Trec)
    requires IsTrec(t) && t.Convert?
    ensures var d := Def(t.ty, t.nf9Data);
            && d.Valid() && !d.Refused()
            && LenIn(d) == t.nf9DrecLen && LenOut(d) == t.ipxDrecLen
  {
    DropCondition(t.ty, t.nf9Data);
    TranslationLen(Def(t.ty, t.nf9Data));
    TrecShape(t.ty, t.nf9Data);
  }

  lemma {:induction false} SetsSizeIs(tbl: Table, c: Clock, sets: seq<seq<byte>>)
    requires Coherent(tbl) && forall s | s in sets :: IsSet(s)
    ensures ValidDefs(DefsOf(tbl)) && SmallSets(ConvSets(tbl, c, sets).outs)
    ensures var r := ConvSets(tbl, c, sets); SetsSize(DefsOf(tbl), sets) == if r.ok then Some(|EncSets(r.outs)|) else None
    decreases |sets|
  {
    hide IsTrec, IsSet, Coherent, ConvSet, SetSize, DefineSet, DefsOf, ValidDefs, OutSet.Size, OutSet.Enc;
    CoherentDefs(tbl);
    MsgBounds(tbl, c, sets);
    if sets != [] {
      assert IsSet(sets[0]);
      SetCoherent(tbl, c, sets[0]);
      SetSizeIs(tbl, c, sets[0]);
      SetDefines(tbl, c, sets[0]);
      var s := ConvSet(tbl, c, sets[0]);
      if s.SetOk? {
        SetsSizeIs(s.tbl, c, sets[1..]);
        var rest := ConvSets(s.tbl, c, sets[1..]).outs;
        if s.out.Some? {
          EncSize(s.out.value, rest);
        } else {
          assert [] + rest == rest;
        }
      }
    }
  }

  lemma EncSize(o: OutSet, rest: seq<OutSet>)
    requires SmallSets([o] + rest)
    ensures SmallSets(rest) && |EncSets([o] + rest)| == o.Size() + |EncSets(rest)|
  {
    assert ([o] + rest)[0] == o && ([o] + rest)[1..] == rest;
    forall x | x in rest ensures x in [o] + rest {
    }
  }

  /**
   * A message is converted exactly if it is a whole NetFlow v9 message whose FlowSets can all be read, whose
   * new sets are at most 65515 bytes long, and which then has at most 65535 bytes.
   */
  lemma ConvertedExactly(st: State, msg: seq<byte>)
    requires st.Valid()
    ensures ValidDefs(DefsOf(st.tbl)) && forall s | s in FlowSets(msg) :: IsSet(s)
    ensures ConvMsg(st, msg).1.Done? <==>
              && |msg| >= 20 && Get16(msg, 0) == 9 && SetsOf(msg[20..]).end == None
              && SetsSize(DefsOf(st.tbl), FlowSets(msg)).Some? && 16 + SetsSize(DefsOf(st.tbl), FlowSets(msg)).value <= 65535
  {
    hide IsTrec, IsSet, Coherent, ConvSets, SetsSize, EncSets, SetsOf, IpxHdr, ValidDefs, DefsOf, ClockOf;
    FlowSetsAreSets(msg);
    CoherentDefs(st.tbl);
    if |msg| >= 20 {
      SetsSizeIs(st.tbl, ClockOf(msg), FlowSets(msg));
    }
  }
}
