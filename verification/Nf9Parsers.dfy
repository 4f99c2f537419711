/**
 * The FlowSet, Data FlowSet and Template FlowSet iterators of netflow9_parsers.c.
 * Every iterator is specified by a walk over the bytes still to be read.
 */
module Nf9Parsers {
  import opened Arith
  import opened Bytes

  const MSG_HDR_LEN := 20
  const SET_HDR_LEN := 4
  const SET_TMPLT := 0
  const SET_OPTS_TMPLT := 1
  const SET_MIN_DSET := 256
  const IE_LEN := 4
  /** Largest Data Record that fits into a NetFlow v9 Message. */
  const DATA_MAX := 65535 - MSG_HDR_LEN - SET_HDR_LEN

  datatype Error =
    | SetsUnexpectedEnd | SetsShort | SetsLong
    | DsetEmpty
    | TsetEmpty | TsetScopeLength | TsetOptionLength | TsetId | TsetNoField | TsetEnd | TsetZero | TsetData

  datatype Rc = Ok | Eoc | ErrFormat(err: Error)

  /** All items an iterator returns, and how it ends: `None` is end of content. */
  datatype Walk = Walk(items: seq<seq<byte>>, end: Option<Error>)

  function Then(item: seq<byte>, w: Walk): Walk {
    Walk([item] + w.items, w.end)
  }

  function Flat(parts: seq<seq<byte>>): seq<byte> {
    if parts == [] then [] else parts[0] + Flat(parts[1..])
  }

  lemma {:induction false} FlatAppend(a: seq<seq<byte>>, b: seq<seq<byte>>)
    ensures Flat(a + b) == Flat(a) + Flat(b)
  {
    if a == [] {
      assert a + b == b;
    } else {
      FlatAppend(a[1..], b);
      assert (a + b)[0] == a[0] && (a + b)[1..] == a[1..] + b;
      var x, y, z := a[0], Flat(a[1..]), Flat(b);
      assert x + (y + z) == x + y + z;
    }
  }

  lemma {:induction false} FlatSize(parts: seq<seq<byte>>, len: nat)
    requires forall i | 0 <= i < |parts| :: |parts[i]| == len
    ensures |Flat(parts)| == |parts| * len
  {
    if parts != [] {
      FlatSize(parts[1..], len);
    }
  }

  // ---------------------------------------------------------------- FlowSets

  /** A set as sections 5.3 of RFC 3954 and 3.3.2 of RFC 7011 define it: its length field counts all of it. */
  predicate IsSet(s: seq<byte>) {
    |s| >= SET_HDR_LEN && Get16(s, 2) == |s|
  }

  function SetsOf(rest: seq<byte>): Walk {
    if rest == [] then Walk([], None)
    else if |rest| < SET_HDR_LEN then Walk([], Some(SetsUnexpectedEnd))
    else
      var len := Get16(rest, 2);
      if len < SET_HDR_LEN then Walk([], Some(SetsShort))
      else if len > |rest| then Walk([], Some(SetsLong))
      else Then(rest[..len], SetsOf(rest[len..]))
  }

  /** Sets never overlap and never leave a gap: what was returned is a prefix, and at the end all of it. */
  lemma {:induction false} SetsTile(rest: seq<byte>)
    ensures forall s | s in SetsOf(rest).items :: IsSet(s)
    ensures Flat(SetsOf(rest).items) <= rest
    ensures SetsOf(rest).end == None ==> Flat(SetsOf(rest).items) == rest
  {
    if |rest| >= SET_HDR_LEN && SET_HDR_LEN <= Get16(rest, 2) <= |rest| {
      var len := Get16(rest, 2);
      SetsTile(rest[len..]);
      TileFront(rest, len, SetsOf(rest[len..]).items);
    }
  }

  /** Any sequence of sets is read back exactly: together with SetsTile, success is "the body is a sequence of sets". */
  lemma {:induction false} SetsComplete(parts: seq<seq<byte>>)
    requires forall s | s in parts :: IsSet(s)
    ensures SetsOf(Flat(parts)) == Walk(parts, None)
  {
    if parts != [] {
      var rest := Flat(parts);
      var len := |parts[0]|;
      assert rest[..len] == parts[0] && rest[len..] == Flat(parts[1..]);
      assert IsSet(parts[0]);
      Get16Slice(rest, 0, len, 2);
      SetsComplete(parts[1..]);
    }
  }

  class SetsIter {
    const msg: seq<byte>
    var setNext: nat
    var cur: seq<byte>

    ghost predicate Valid()
      reads this
    {
      setNext <= |msg|
    }

    constructor (msg: seq<byte>)
      requires MSG_HDR_LEN <= |msg|
      ensures Valid() && this.msg == msg && setNext == MSG_HDR_LEN
    {
      this.msg := msg;
      setNext := MSG_HDR_LEN;
      cur := [];
    }

    method Next() returns (rc: Rc)
      requires Valid()
      modifies this
      ensures Valid()
      ensures match rc
              case Ok => SetsOf(msg[old(setNext)..]) == Then(cur, SetsOf(msg[setNext..]))
                         && IsSet(cur) && setNext == old(setNext) + |cur|
              case Eoc => SetsOf(msg[old(setNext)..]) == Walk([], None)
              case ErrFormat(e) => SetsOf(msg[old(setNext)..]) == Walk([], Some(e))
    {
      if setNext == |msg| {
        return Eoc;
      }
      if setNext + SET_HDR_LEN > |msg| {
        return ErrFormat(SetsUnexpectedEnd);
      }
      var setLen := Get16(msg, setNext + 2);
      Get16Slice(msg, setNext, |msg|, 2);
      if setLen < SET_HDR_LEN {
        return ErrFormat(SetsShort);
      }
      if setNext + setLen > |msg| {
        return ErrFormat(SetsLong);
      }
      cur := msg[setNext..setNext + setLen];
      assert cur == msg[setNext..][..setLen] && msg[setNext..][setLen..] == msg[setNext + setLen..];
      setNext := setNext + setLen;
      return Ok;
    }
  }

  // ---------------------------------------------------------------- Data FlowSets

  /** The records of a Data FlowSet; what remains after them is padding. */
  function RecsOf(rest: seq<byte>, size: nat): seq<seq<byte>>
    requires size > 0
    decreases |rest|
  {
    if |rest| < size then [] else [rest[..size]] + RecsOf(rest[size..], size)
  }

  lemma DivStep(n: nat, d: nat)
    requires 0 < d <= n
    ensures n / d == 1 + (n - d) / d
  {
    var q, r := (n - d) / d, (n - d) % d;
    assert (q + 1) * d == q * d + d;
    DivModUnique(n, d, q + 1, r);
  }

  /** An item in front of items that tile the rest. */
  lemma TileFront(rest: seq<byte>, size: nat, tail: seq<seq<byte>>)
    requires size <= |rest| && Flat(tail) <= rest[size..]
    ensures var all := Flat([rest[..size]] + tail);
            all <= rest && |all| == size + |Flat(tail)| && (Flat(tail) == rest[size..] ==> all == rest)
  {
    assert ([rest[..size]] + tail)[1..] == tail;
    assert rest == rest[..size] + rest[size..];
  }

  /** Exactly floor(len / size) contiguous records, and less than one record of padding. */
  lemma {:induction false} RecsTile(rest: seq<byte>, size: nat)
    requires size > 0
    ensures |RecsOf(rest, size)| == |rest| / size
    ensures forall r | r in RecsOf(rest, size) :: |r| == size
    ensures Flat(RecsOf(rest, size)) <= rest
    ensures |rest| - |Flat(RecsOf(rest, size))| < size
    decreases |rest|
  {
    if |rest| >= size {
      RecsTile(rest[size..], size);
      DivStep(|rest|, size);
      TileFront(rest, size, RecsOf(rest[size..], size));
    } else {
      assert |rest| / size == 0;
    }
  }

  class DsetIter {
    const fset: seq<byte>
    const recSize: nat
    var recNext: nat
    var failed: bool
    var rec: seq<byte>

    ghost predicate Valid()
      reads this
    {
      recSize > 0 && recNext <= |fset| && (failed <==> SET_HDR_LEN + recSize > |fset|)
    }

    constructor (fset: seq<byte>, recSize: nat)
      requires IsSet(fset) && recSize > 0
      ensures Valid() && this.fset == fset && this.recSize == recSize && recNext == SET_HDR_LEN
    {
      this.fset := fset;
      this.recSize := recSize;
      recNext := SET_HDR_LEN;
      failed := SET_HDR_LEN + recSize > |fset|;
      rec := [];
    }

    /** An empty set is an error on the first call; otherwise the records follow one another. */
    method Next() returns (rc: Rc)
      requires Valid()
      modifies this`recNext, this`rec
      ensures Valid()
      ensures rc == ErrFormat(DsetEmpty) <==> SET_HDR_LEN + recSize > |fset|
      ensures rc.ErrFormat? ==> rc.err == DsetEmpty
      ensures rc == Eoc ==> RecsOf(fset[old(recNext)..], recSize) == []
      ensures rc == Ok ==> RecsOf(fset[old(recNext)..], recSize) == [rec] + RecsOf(fset[recNext..], recSize)
                           && |rec| == recSize && recNext == old(recNext) + recSize
    {
      if failed {
        return ErrFormat(DsetEmpty);
      }
      if recNext + recSize > |fset| {
        return Eoc;
      }
      rec := fset[recNext..recNext + recSize];
      assert fset[recNext..][..recSize] == rec && fset[recNext..][recSize..] == fset[recNext + recSize..];
      recNext := recNext + recSize;
      return Ok;
    }
  }

  // ---------------------------------------------------------------- Template FlowSets

  datatype Field = Field(id: u16, len: u16)

  function FieldsOf(b: seq<byte>, cnt: nat): seq<Field>
    requires cnt * IE_LEN <= |b|
  {
    seq(cnt, i requires 0 <= i < cnt => Field(Get16(b, i * IE_LEN), Get16(b, i * IE_LEN + 2)))
  }

  function SumLen(fs: seq<Field>): nat {
    if fs == [] then 0 else SumLen(fs[..|fs| - 1]) + fs[|fs| - 1].len
  }

  lemma {:induction false} SumLenBound(fs: seq<Field>)
    ensures SumLen(fs) <= 65535 * |fs|
  {
    if fs != [] { SumLenBound(fs[..|fs| - 1]); }
  }

  lemma {:induction false} SumLenPrefix(fs: seq<Field>, k: nat)
    requires k <= |fs|
    ensures SumLen(fs[..k]) <= SumLen(fs)
    decreases |fs| - k
  {
    if k < |fs| {
      SumLenPrefix(fs, k + 1);
      assert fs[..k + 1][..k] == fs[..k];
    } else {
      assert fs[..k] == fs;
    }
  }

  function HdrLen(ty: u16): nat {
    if ty == SET_TMPLT then 4 else 6
  }

  /** Header of a template followed by one field. */
  function MinSize(ty: u16): nat {
    HdrLen(ty) + IE_LEN
  }

  /** Number of scope fields given by the record header. */
  function ScopeCnt(ty: u16, rec: seq<byte>): nat
    requires |rec| >= HdrLen(ty)
  {
    if ty == SET_TMPLT then 0 else Get16(rec, 2) / IE_LEN
  }

  function FieldCnt(ty: u16, rec: seq<byte>): u16
    requires |rec| >= HdrLen(ty)
  {
    if ty == SET_TMPLT then Get16(rec, 2) else Get16(rec, 2) / IE_LEN + Get16(rec, 4) / IE_LEN
  }

  function RecSize(ty: u16, rec: seq<byte>): nat
    requires |rec| >= HdrLen(ty)
  {
    HdrLen(ty) + FieldCnt(ty, rec) * IE_LEN
  }

  function RecFields(ty: u16, rec: seq<byte>): seq<Field>
    requires |rec| >= HdrLen(ty) && RecSize(ty, rec) <= |rec|
  {
    FieldsOf(rec[HdrLen(ty)..], FieldCnt(ty, rec))
  }

  /** The first error of the template record that `rest` starts with, in the order the checks are made. */
  function RecError(ty: u16, rest: seq<byte>): Option<Error>
    requires |rest| >= MinSize(ty)
  {
    if ty != SET_TMPLT && Get16(rest, 2) % IE_LEN != 0 then Some(TsetScopeLength)
    else if ty != SET_TMPLT && Get16(rest, 4) % IE_LEN != 0 then Some(TsetOptionLength)
    else if Get16(rest, 0) < SET_MIN_DSET then Some(TsetId)
    else if FieldCnt(ty, rest) == 0 then Some(TsetNoField)
    else if RecSize(ty, rest) > |rest| then Some(TsetEnd)
    else if SumLen(RecFields(ty, rest)) == 0 then Some(TsetZero)
    else if SumLen(RecFields(ty, rest)) > DATA_MAX then Some(TsetData)
    else None
  }

  /** A whole template record that the iterator accepts. */
  predicate IsTmplt(ty: u16, raw: seq<byte>) {
    && |raw| >= MinSize(ty)
    && RecError(ty, raw) == None
    && RecSize(ty, raw) == |raw|
  }

  function TmpltsOf(ty: u16, rest: seq<byte>): Walk {
    if |rest| < MinSize(ty) then Walk([], None)
    else match RecError(ty, rest)
      case Some(e) => Walk([], Some(e))
      case None =>
        var size := RecSize(ty, rest);
        Then(rest[..size], TmpltsOf(ty, rest[size..]))
  }

  /** The whole Template FlowSet: a set too small for one template is an error, not an empty walk. */
  function TsetOf(ty: u16, fset: seq<byte>): Walk
    requires |fset| >= SET_HDR_LEN
  {
    if SET_HDR_LEN + MinSize(ty) > |fset| then Walk([], Some(TsetEmpty)) else TmpltsOf(ty, fset[SET_HDR_LEN..])
  }

  /** What a record says does not depend on what follows it. */
  lemma RecLocal(ty: u16, raw: seq<byte>, rest: seq<byte>)
    requires |raw| >= MinSize(ty) && |raw| <= |rest| && raw == rest[..|raw|]
    requires RecSize(ty, rest) <= |raw|
    ensures RecSize(ty, raw) == RecSize(ty, rest) && FieldCnt(ty, raw) == FieldCnt(ty, rest)
    ensures RecFields(ty, raw) == RecFields(ty, rest)
    ensures RecError(ty, raw) == RecError(ty, rest)
  {
    var h := HdrLen(ty);
    forall i | 0 <= i < FieldCnt(ty, rest) ensures RecFields(ty, raw)[i] == RecFields(ty, rest)[i] {
      assert h + i * IE_LEN + 4 <= |raw|;
    }
  }

  /** Template records are accepted records, contiguous, inside the set, with less than one minimal template left. */
  lemma {:induction false} TmpltsTile(ty: u16, rest: seq<byte>)
    ensures forall r | r in TmpltsOf(ty, rest).items :: IsTmplt(ty, r)
    ensures Flat(TmpltsOf(ty, rest).items) <= rest
    ensures TmpltsOf(ty, rest).end == None ==> |rest| - |Flat(TmpltsOf(ty, rest).items)| < if ty == 0 then 8 else 10
  {
    if |rest| >= MinSize(ty) && RecError(ty, rest) == None {
      var size := RecSize(ty, rest);
      RecLocal(ty, rest[..size], rest);
      TmpltsTile(ty, rest[size..]);
      TileFront(rest, size, TmpltsOf(ty, rest[size..]).items);
    }
  }

  /** Any accepted records followed by padding are read back exactly. */
  lemma {:induction false} TmpltsComplete(ty: u16, recs: seq<seq<byte>>, pad: seq<byte>)
    requires forall r | r in recs :: IsTmplt(ty, r)
    requires |pad| < if ty == 0 then 8 else 10
    ensures TmpltsOf(ty, Flat(recs) + pad) == Walk(recs, None)
  {
    hide RecError, RecSize;
    if recs == [] {
      assert Flat(recs) + pad == pad;
    } else {
      TmpltsComplete(ty, recs[1..], pad);
      TmpltFront(ty, recs[0], Flat(recs[1..]) + pad);
      assert Flat(recs) + pad == recs[0] + (Flat(recs[1..]) + pad);
      assert recs == [recs[0]] + recs[1..];
    }
  }

  lemma TmpltFront(ty: u16, rec: seq<byte>, rest: seq<byte>)
    requires IsTmplt(ty, rec)
    ensures TmpltsOf(ty, rec + rest) == Then(rec, TmpltsOf(ty, rest))
  {
    var all := rec + rest;
    assert all[..|rec|] == rec && all[|rec|..] == rest;
    assert RecSize(ty, all) == RecSize(ty, rec);
    RecLocal(ty, rec, all);
    hide RecError, RecFields;
  }

  class TsetIter {
    const fset: seq<byte>
    const ty: u16
    var recNext: nat
    var failed: bool
    var rec: seq<byte>
    var fieldCnt: u16
    var scopeCnt: nat

    ghost predicate Valid()
      reads this
    {
      && SET_HDR_LEN <= recNext <= |fset|
      && (failed <==> SET_HDR_LEN + MinSize(ty) > |fset|)
    }

    /** What the iterator still has to return. */
    ghost function Rest(): Walk
      requires Valid()
      reads this
    {
      if failed then Walk([], Some(TsetEmpty)) else TmpltsOf(ty, fset[recNext..])
    }

    constructor (fset: seq<byte>, ty: u16)
      requires IsSet(fset) && (ty == SET_TMPLT || ty == SET_OPTS_TMPLT)
      ensures Valid() && this.fset == fset && this.ty == ty && Rest() == TsetOf(ty, fset)
      ensures recNext == SET_HDR_LEN
    {
      this.fset := fset;
      this.ty := ty;
      recNext := SET_HDR_LEN;
      failed := SET_HDR_LEN + MinSize(ty) > |fset|;
      rec, fieldCnt, scopeCnt := [], 0, 0;
    }

    method Next() returns (rc: Rc)
      requires Valid()
      modifies this`recNext, this`rec, this`fieldCnt, this`scopeCnt
      ensures Valid()
      ensures match rc
              case Eoc => old(Rest()) == Walk([], None)
              case ErrFormat(e) => old(Rest()) == Walk([], Some(e))
              case Ok =>
                && old(Rest()) == Then(rec, Rest())
                && IsTmplt(ty, rec) && fieldCnt == FieldCnt(ty, rec) && scopeCnt == ScopeCnt(ty, rec)
                && recNext == old(recNext) + |rec| > old(recNext)
    {
      hide RecError, RecFields, FieldsOf, SumLen;
      if failed {
        return ErrFormat(TsetEmpty);
      }
      if recNext + MinSize(ty) > |fset| {
        return Eoc;
      }
      var rest := fset[recNext..];
      var err, cnt, scope := Check(ty, rest);
      if err.Some? {
        return ErrFormat(err.value);
      }
      var size := HdrLen(ty) + cnt * IE_LEN;
      RecLocal(ty, rest[..size], rest);
      assert rest[size..] == fset[recNext + size..];
      rec, fieldCnt, scopeCnt := rest[..size], cnt, scope;
      recNext := recNext + size;
      return Ok;
    }

    /** The header of the next record and the checks on it, in their order. */
    static method Check(ty: u16, rest: seq<byte>) returns (err: Option<Error>, cnt: nat, scope: nat)
      requires |rest| >= MinSize(ty)
      ensures err == RecError(ty, rest)
      ensures err == None ==>
                cnt == FieldCnt(ty, rest) && scope == ScopeCnt(ty, rest)
                && MinSize(ty) <= HdrLen(ty) + cnt * IE_LEN == RecSize(ty, rest) <= |rest|
    {
      hide FieldsOf, SumLen;
      var tmpltId := Get16(rest, 0);
      if ty == SET_TMPLT {
        cnt, scope := Get16(rest, 2), 0;
      } else {
        var sizeOpts, sizeFields := Get16(rest, 2), Get16(rest, 4);
        if sizeOpts % IE_LEN != 0 {
          return Some(TsetScopeLength), 0, 0;
        }
        if sizeFields % IE_LEN != 0 {
          return Some(TsetOptionLength), 0, 0;
        }
        scope := sizeOpts / IE_LEN;
        cnt := scope + sizeFields / IE_LEN;
      }
      if tmpltId < SET_MIN_DSET {
        return Some(TsetId), 0, 0;
      }
      if cnt == 0 {
        return Some(TsetNoField), 0, 0;
      }
      if HdrLen(ty) + cnt * IE_LEN > |rest| {
        return Some(TsetEnd), 0, 0;
      }
      var dataSize := DataSize(rest[HdrLen(ty)..], cnt);
      if dataSize == 0 {
        return Some(TsetZero), 0, 0;
      }
      if dataSize > DATA_MAX {
        return Some(TsetData), 0, 0;
      }
      return None, cnt, scope;
    }

    /** The 32-bit accumulator over the field lengths never wraps. */
    static method DataSize(b: seq<byte>, cnt: u16) returns (size: u32)
      requires cnt * IE_LEN <= |b|
      ensures size == SumLen(FieldsOf(b, cnt))
    {
      size := 0;
      ghost var fs := FieldsOf(b, cnt);
      for i := 0 to cnt
        invariant size == SumLen(fs[..i])
      {
        assert fs[..i + 1][..i] == fs[..i];
        SumLenBound(fs[..i + 1]);
        size := size + Get16(b, i * IE_LEN + 2);
      }
      assert fs[..cnt] == fs;
    }
  }
}
