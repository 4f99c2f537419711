/**
 * What is in the bytes of converted NetFlow v9 messages, field by field: every record at its place in the
 * new message, read against the record and the header of the old one.
 */
module Nf9Bytes {
  import opened Bytes
  import opened Nf9Parsers
  import opened Nf9Templates
  import opened Nf9Trec
  import opened Nf9Spec
  import opened Nf9Theorems
  import opened Nf9Runs

  // ---------------------------------------------------------------- fields and records

  /**
   * One field. FIRST_SWITCHED and LAST_SWITCHED count milliseconds since the start of the exporter, as the
   * uptime in the old header does, and become milliseconds since 1970, as the export time in the new header
   * counts seconds. All other fields are copied.
   */
  predicate FieldBytes(f: Field, isScope: bool, msg: seq<byte>, m: seq<byte>, a: seq<byte>, b: seq<byte>)
    requires |msg| >= 20 && |m| >= 16
  {
    if !isScope && (f.id == 21 || f.id == 22) then
      && |a| == 4 && |b| == 8
      && Get64(b, 0) == (1000 * Get32(m, 4) + Get32(a, 0) - Get32(msg, 4)) % 0x1_0000_0000_0000_0000
    else b == a
  }

  /** The `k`-th field, where the two templates have it. */
  predicate FieldPlaced(fs: seq<Field>, scope: nat, ss: seq<Spec>, msg: seq<byte>, m: seq<byte>, rec: seq<byte>, out: seq<byte>, k: nat)
    requires |msg| >= 20 && |m| >= 16 && k < |fs| == |ss|
  {
    var from, to := SumLen(fs[..k]), SumSpec(ss[..k]);
    && from + fs[k].len <= |rec| && to + ss[k].len <= |out|
    && FieldBytes(fs[k], k < scope, msg, m, rec[from..from + fs[k].len], out[to..to + ss[k].len])
  }

  /** A record under the NetFlow template and the translated one. */
  predicate RecordBytes(d: Def, msg: seq<byte>, m: seq<byte>, rec: seq<byte>, out: seq<byte>)
    requires d.Valid() && !d.Refused() && |msg| >= 20 && |m| >= 16
  {
    var fs, scope, ss := RecFields(d.ty, d.raw), ScopeCnt(d.ty, d.raw), d.Translation().specs;
    && |ss| == |fs| && |out| == SumSpec(ss) && |rec| == SumLen(fs)
    && forall k | 0 <= k < |fs| :: FieldPlaced(fs, scope, ss, msg, m, rec, out, k)
  }

  /** The `j`-th record of a Data FlowSet. */
  function RecordIn(s: seq<byte>, len: nat, j: nat): seq<byte>
    requires j * len + len + 4 <= |s|
  {
    s[4 + j * len..4 + j * len + len]
  }

  /** A Data FlowSet: all records that fit, in order. */
  predicate SetBytes(d: Def, msg: seq<byte>, m: seq<byte>, s: seq<byte>, outs: seq<seq<byte>>)
    requires d.Valid() && !d.Refused() && |msg| >= 20 && |m| >= 16 && |s| >= 4
  {
    var len := SumLen(RecFields(d.ty, d.raw));
    && len > 0 && |outs| == (|s| - 4) / len
    && forall j | 0 <= j < |outs| :: j * len + len + 4 <= |s| && RecordBytes(d, msg, m, RecordIn(s, len, j), outs[j])
  }

  /** The FlowSets of a message, each under the latest definitions; those without a usable one are left out. */
  predicate Translates(defs: Defs, msg: seq<byte>, m: seq<byte>, sets: seq<seq<byte>>, data: seq<RecvData>)
    requires ValidDefs(defs) && |msg| >= 20 && |m| >= 16 && forall s | s in sets :: IsSet(s)
    decreases |sets|
  {
    if sets == [] then data == []
    else
      assert IsSet(sets[0]);
      var s, id := sets[0], Get16(sets[0], 0);
      if id < 2 then
        DefineSetValid(defs, s);
        Translates(DefineSet(defs, s), msg, m, sets[1..], data)
      else if id < 256 || id !in defs || defs[id].Refused() then Translates(defs, msg, m, sets[1..], data)
      else
        && data != [] && data[0].tmplt == defs[id].Translation() && SetBytes(defs[id], msg, m, s, data[0].recs)
        && Translates(defs, msg, m, sets[1..], data[1..])
  }

  lemma FieldIs(f: Field, isScope: bool, msg: seq<byte>, m: seq<byte>, a: seq<byte>)
    requires |msg| >= 20 && |m| >= 16 && Get32(m, 4) == Get32(msg, 8)
    requires |a| == f.len && (IsTs(f, isScope) ==> f.len == 4)
    ensures FieldBytes(f, isScope, msg, m, a, ConvField(f, isScope, ClockOf(msg), a))
  {
    HeaderWords(msg);
    if IsTs(f, isScope) {
      TsMeaning(ClockOf(msg), Get32(a, 0));
      GetPut64(TsRel2Abs(ClockOf(msg), Get32(a, 0)));
      hide ClockOf, TsRel2Abs, Put64, Get32, Get64;
    }
  }

  /** Uptime and seconds in the header of NetFlow v9 (section 5.1 of RFC 3954). */
  lemma HeaderWords(msg: seq<byte>)
    requires |msg| >= 20
    ensures ClockOf(msg).sysUptime == Get32(msg, 4) && ClockOf(msg).unixSec == Get32(msg, 8)
  {
  }

  lemma FieldPlacedIs(fs: seq<Field>, scope: nat, msg: seq<byte>, m: seq<byte>, rec: seq<byte>, k: nat)
    requires Convertible(fs, scope) && |rec| == SumLen(fs) && k < |fs|
    requires |msg| >= 20 && |m| >= 16 && Get32(m, 4) == Get32(msg, 8)
    ensures var out := ConvRecord(fs, scope, ClockOf(msg), rec);
            |out| == SumSpec(Specs(fs, scope)) && FieldPlaced(fs, scope, Specs(fs, scope), msg, m, rec, out, k)
  {
    hide FieldBytes, ConvField, ClockOf, ConvRecord, SpecOf, SumLen, SumSpec;
    FieldAtOffset(fs, scope, ClockOf(msg), rec, k);
    FieldIs(fs[k], k < scope, msg, m, rec[SumLen(fs[..k])..SumLen(fs[..k]) + fs[k].len]);
  }

  lemma RecordIs(d: Def, msg: seq<byte>, m: seq<byte>, rec: seq<byte>)
    requires d.Valid() && !d.Refused() && |msg| >= 20 && |m| >= 16 && Get32(m, 4) == Get32(msg, 8)
    requires |rec| == SumLen(RecFields(d.ty, d.raw)) > 0
    ensures RecordBytes(d, msg, m, rec, ConvRecord(RecFields(d.ty, d.raw), ScopeCnt(d.ty, d.raw), ClockOf(msg), rec))
  {
    var fs, scope := RecFields(d.ty, d.raw), ScopeCnt(d.ty, d.raw);
    var out, ss := ConvRecord(fs, scope, ClockOf(msg), rec), Specs(fs, scope);
    assert fs != [];
    assert Convertible(fs, scope) && d.Translation().specs == ss;
    hide FieldPlaced, ClockOf, ConvRecord, SpecOf, Convertible, IsTmplt, RecFields, ScopeCnt, SumLen, SumSpec, Def.Translation, Specs;
    forall k | 0 <= k < |fs| ensures |out| == SumSpec(ss) && FieldPlaced(fs, scope, ss, msg, m, rec, out, k) {
      FieldPlacedIs(fs, scope, msg, m, rec, k);
    }
    FieldPlacedIs(fs, scope, msg, m, rec, 0);
  }

  /** The records of a Data FlowSet are cut at multiples of their length. */
  lemma {:induction false} RecsAt(content: seq<byte>, len: nat, j: nat)
    requires len > 0 && j < |RecsOf(content, len)|
    ensures j * len + len <= |content| && RecsOf(content, len)[j] == content[j * len..j * len + len]
    decreases j
  {
    if j > 0 {
      RecsAt(content[len..], len, j - 1);
      assert RecsOf(content, len) == [content[..len]] + RecsOf(content[len..], len);
      assert j * len == len + (j - 1) * len;
      assert content[len..][(j - 1) * len..(j - 1) * len + len] == content[j * len..j * len + len];
    }
  }

  lemma SetShape(d: Def, c: Clock, s: seq<byte>)
    requires d.Valid() && !d.Refused() && IsSet(s)
    ensures |s| >= 4 && SumLen(RecFields(d.ty, d.raw)) > 0
    ensures var len := SumLen(RecFields(d.ty, d.raw));
            var recs := RecsOf(s[4..], len);
            && |recs| == (|s| - 4) / len == |DirectRecs(d, c, s)|
            && (forall j | 0 <= j < |recs| :: |recs[j]| == len)
            && forall j | 0 <= j < |recs| ::
                 DirectRecs(d, c, s)[j] == ConvRecord(RecFields(d.ty, d.raw), ScopeCnt(d.ty, d.raw), c, recs[j])
  {
    assert SumLen(RecFields(d.ty, d.raw)) > 0;
    hide RecsOf, ConvRecord, Convertible;
    RecsTile(s[4..], SumLen(RecFields(d.ty, d.raw)));
  }

  lemma SetIs(d: Def, msg: seq<byte>, m: seq<byte>, s: seq<byte>)
    requires d.Valid() && !d.Refused() && |msg| >= 20 && |m| >= 16 && Get32(m, 4) == Get32(msg, 8) && IsSet(s)
    ensures |s| >= 4 && SetBytes(d, msg, m, s, DirectRecs(d, ClockOf(msg), s))
  {
    SetShape(d, ClockOf(msg), s);
    hide RecordBytes, RecordIn, RecsOf, ConvRecord, ClockOf, IsTmplt, Def.Refused, DirectRecs, SumLen, RecFields, Get32, IsSet;
    var len := SumLen(RecFields(d.ty, d.raw));
    forall j | 0 <= j < |RecsOf(s[4..], len)|
      ensures j * len + len + 4 <= |s| && RecordBytes(d, msg, m, RecordIn(s, len, j), DirectRecs(d, ClockOf(msg), s)[j])
    {
      RecordInIs(s, len, j);
      RecordIs(d, msg, m, RecsOf(s[4..], len)[j]);
    }
  }

  lemma RecordInIs(s: seq<byte>, len: nat, j: nat)
    requires |s| >= 4 && len > 0 && j < |RecsOf(s[4..], len)|
    ensures j * len + len + 4 <= |s| && RecsOf(s[4..], len)[j] == RecordIn(s, len, j)
  {
    hide RecsOf;
    RecsAt(s[4..], len, j);
  }

  lemma {:induction false} DirectTranslates(defs: Defs, msg: seq<byte>, m: seq<byte>, sets: seq<seq<byte>>)
    requires ValidDefs(defs) && |msg| >= 20 && |m| >= 16 && Get32(m, 4) == Get32(msg, 8) && forall s | s in sets :: IsSet(s)
    ensures Translates(defs, msg, m, sets, Direct(defs, ClockOf(msg), sets))
    decreases |sets|
  {
    if sets != [] {
      assert IsSet(sets[0]);
      var s, id := sets[0], Get16(sets[0], 0);
      hide IsSet, ClockOf, DirectRecs, SetBytes, Def.Refused, Def.Translation, DefineSet;
      if id < 2 {
        DefineSetValid(defs, s);
        DirectTranslates(DefineSet(defs, s), msg, m, sets[1..]);
      } else {
        DirectTranslates(defs, msg, m, sets[1..]);
        if id >= 256 && id in defs && defs[id].Valid() && !defs[id].Refused() {
          SetIs(defs[id], msg, m, s);
        }
      }
    }
  }

  // ---------------------------------------------------------------- timestamps

  /** A flow that began or ended when the message was exported has the time of export, and others keep their distance. */
  lemma SwitchTimes(f: Field, g: Field, msg: seq<byte>, m: seq<byte>, a: seq<byte>, b: seq<byte>, x: seq<byte>, y: seq<byte>)
    requires |msg| >= 20 && |m| >= 16 && (f.id == 21 || f.id == 22) && (g.id == 21 || g.id == 22)
    requires FieldBytes(f, false, msg, m, a, b) && FieldBytes(g, false, msg, m, x, y)
    ensures |a| == |x| == 4 && |b| == |y| == 8
    ensures Get32(a, 0) == Get32(msg, 4) ==> Get64(b, 0) == 1000 * Get32(m, 4)
    ensures Get64(y, 0) == (Get64(b, 0) + Get32(x, 0) - Get32(a, 0)) % 0x1_0000_0000_0000_0000
  {
    hide Get32, Get64;
    SwitchArith(1000 * Get32(m, 4), Get32(a, 0), Get32(x, 0), Get32(msg, 4));
  }

  lemma SwitchArith(t: u64, a: int, b: int, u: int)
    ensures a == u ==> (t + a - u) % U64_SIZE == t
    ensures (t + b - u) % U64_SIZE == ((t + a - u) % U64_SIZE + b - a) % U64_SIZE
  {
    var v := t + a - u;
    assert v + (b - a) == v / U64_SIZE * U64_SIZE + (v % U64_SIZE + (b - a));
  }

  // ---------------------------------------------------------------- messages and runs

  lemma ExportTimeKept(st: State, msg: seq<byte>)
    requires st.Valid() && ConvMsg(st, msg).1.Done?
    ensures var m := ConvMsg(st, msg).1.msg; |msg| >= 20 && |m| >= 16 && Get32(m, 4) == Get32(msg, 8)
  {
    hide ConvMsg, ConvBody, SmallSets, Encs, SetsOf;
    MessageWellFormed(st, msg);
    var m := ConvMsg(st, msg).1.msg;
    Word(m, 4);
    Word(msg, 8);
  }

  lemma Word(s: seq<byte>, at: nat)
    requires at + 4 <= |s|
    ensures Get32(s, at) == Get32(s[at..at + 4], 0)
  {
  }

  /** What a receiver reads that holds the right templates, down to the bytes of every field. */
  lemma MessageTranslates(st: State, rt: RecvTable, msg: seq<byte>)
    requires st.Valid() && EmittableMsg(msg) && ConvMsg(st, msg).1.Done?
    requires ValidDefs(DefsOf(st.tbl)) && (forall s | s in FlowSets(msg) :: IsSet(s)) && Readable(rt, DefsOf(st.tbl), FlowSets(msg))
    ensures var m := ConvMsg(st, msg).1.msg;
            && |msg| >= 20 && |m| >= 16 && (forall s | s in SetsOf(m[16..]).items :: IsSet(s))
            && var got := Receive(rt, SetsOf(m[16..]).items);
               got.Some? && Translates(DefsOf(st.tbl), msg, m, FlowSets(msg), got.value.1)
  {
    hide IsTrec, IsSet, EmittableMsg, ConvMsg, Direct, SetsOf, Receive, ValidDefs, CountData;
    hide DefsOf, FlowSets, Readable, Translates, ClockOf, HearSets;
    ExportTimeKept(st, msg);
    MessageFaithful(st, rt, msg);
    DirectTranslates(DefsOf(st.tbl), msg, ConvMsg(st, msg).1.msg, FlowSets(msg));
  }

  /** The emitted messages of a run hold exactly these records, and each is the translation of its own. */
  ghost predicate RunBytes(defs: Defs, msgs: seq<seq<byte>>, os: seq<Outcome>, outs: seq<seq<byte>>, data: seq<seq<RecvData>>)
    requires ValidDefs(defs) && AllPossible(msgs, os)
    decreases |msgs|
  {
    hide IsSet, ValidDefs, SetsOf;
    if msgs == [] then outs == [] && data == []
    else
      var sets := FlowSets(msgs[0]);
      assert Possible(msgs[0], os[0]);
      FlowSetsAreSets(msgs[0]);
      DefineSetsValid(defs, sets[..os[0].read]);
      assert AllPossible(msgs[1..], os[1..]) by { TailPossible(msgs, os); }
      var after := DefineSets(defs, sets[..os[0].read]);
      if os[0].converted then
        && outs != [] && data != [] && |outs[0]| >= 16 && Carries(outs[0], data[0])
        && Translates(defs, msgs[0], outs[0], sets, data[0])
        && RunBytes(after, msgs[1..], os[1..], outs[1..], data[1..])
      else
        RunBytes(after, msgs[1..], os[1..], outs, data)
  }

  /** Over every run: the records of each emitted message are, byte for byte, those of the message it was made from. */
  lemma {:induction false} RunTranslates(st: State, msgs: seq<seq<byte>>)
    requires st.Valid()
    ensures ValidDefs(DefsOf(st.tbl)) && AllPossible(msgs, Outcomes(st, msgs))
    ensures var os := Outcomes(st, msgs); RunBytes(DefsOf(st.tbl), msgs, os, Run(st, msgs), Expected(DefsOf(st.tbl), msgs, os))
    decreases |msgs|
  {
    hide Coherent, ValidDefs, DefsOf, ConvMsg, FlowSets, DefineSets, OutcomeOf;
    hide Possible, Total, Direct, Expected, RunBytes, Translates, Carries;
    CoherentDefs(st.tbl);
    if msgs == [] {
      ExpectNothing(DefsOf(st.tbl));
      NoBytes(DefsOf(st.tbl));
    } else {
      var m, r, os := msgs[0], ConvMsg(st, msgs[0]), Outcomes(st, msgs);
      MessageDefines(st, m);
      var data := RunStep(st, m, st.ipxSeqNext);
      RunTranslates(r.0, msgs[1..]);
      FrontPossible(msgs, os);
      var rest := Expected(DefsOf(r.0.tbl), msgs[1..], os[1..]);
      ExpectFront(DefsOf(st.tbl), msgs, os, data, rest);
      if os[0].converted {
        ExportTimeKept(st, m);
        DirectTranslates(DefsOf(st.tbl), m, r.1.msg, FlowSets(m));
      }
      BytesFront(DefsOf(st.tbl), msgs, os, data, rest, if os[0].converted then [r.1.msg] else [], Run(r.0, msgs[1..]));
    }
  }

  lemma NoBytes(defs: Defs)
    requires ValidDefs(defs)
    ensures RunBytes(defs, [], [], [], [])
  {
  }

  lemma BytesFront(defs: Defs, msgs: seq<seq<byte>>, os: seq<Outcome>, data: seq<seq<RecvData>>, rest: seq<seq<RecvData>>,
                   first: seq<seq<byte>>, outs: seq<seq<byte>>)
    requires ValidDefs(defs) && AllPossible(msgs, os) && msgs != [] && AllPossible(msgs[1..], os[1..])
    requires (forall s | s in FlowSets(msgs[0]) :: IsSet(s)) && Possible(msgs[0], os[0])
    requires |first| == |data| == (if os[0].converted then 1 else 0)
    requires os[0].converted ==> |msgs[0]| >= 20 && |first[0]| >= 16 && Carries(first[0], data[0])
                                 && Translates(defs, msgs[0], first[0], FlowSets(msgs[0]), data[0])
    requires var d := DefineSets(defs, FlowSets(msgs[0])[..os[0].read]);
             ValidDefs(d) && RunBytes(d, msgs[1..], os[1..], outs, rest)
    ensures RunBytes(defs, msgs, os, first + outs, data + rest)
  {
    hide IsSet, ValidDefs, SetsOf, Translates, DefineSets, Carries;
    if os[0].converted {
      assert (first + outs)[1..] == outs && (data + rest)[1..] == rest;
    } else {
      assert first + outs == outs && data + rest == rest;
    }
  }
}
