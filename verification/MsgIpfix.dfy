/**
 * The wrapper of an IPFIX Message (message_ipfix.c): set descriptions that move from a fixed to a
 * growing array, and Data Records of a size that depends on the registered extensions.
 */
module MsgIpfix {
  import opened Arith
  import opened Bytes
  import opened Extensions

  const SET_DEF_CNT := 32
  const REC_DEF_CNT := 64

  /** Start of the `k`-th record. */
  function RecOffset(k: nat, recSize: nat): nat {
    k * recSize
  }

  class Message<T(0)> {
    const base: array<T>
    var extended: array?<T>
    var setsValid: nat
    var setsAlloc: nat
    const recSize: nat
    var recs: array<byte>
    var recsValid: u32
    var recsAlloc: u32

    ghost predicate Valid()
      reads this
    {
      && base.Length == SET_DEF_CNT && setsValid <= setsAlloc
      && (extended == null ==> setsAlloc == SET_DEF_CNT)
      && (extended != null ==> extended != base && extended.Length == setsAlloc && setsAlloc > SET_DEF_CNT && setsValid > SET_DEF_CNT)
      && 0 < recsAlloc && recsValid <= recsAlloc && recs.Length == recsAlloc * recSize
    }

    /** The array that holds the set descriptions. */
    function SetArray(): (a: array<T>)
      reads this
      requires Valid()
      ensures setsValid <= a.Length
    {
      if setsValid <= SET_DEF_CNT then base else extended
    }

    ghost function Sets(): seq<T>
      reads this, SetArray()
      requires Valid()
    {
      SetArray()[..setsValid]
    }

    constructor (recSize: nat)
      ensures Valid() && Sets() == [] && recsValid == 0 && this.recSize == recSize
    {
      base := new T[SET_DEF_CNT];
      extended, setsValid, setsAlloc := null, 0, SET_DEF_CNT;
      this.recSize := recSize;
      recs := new byte[REC_DEF_CNT * recSize];
      recsValid, recsAlloc := 0, REC_DEF_CNT;
      new;
      assert SetArray()[..0] == [];
    }

    method GetSets() returns (a: array<T>, cnt: nat)
      requires Valid()
      ensures cnt <= a.Length && a[..cnt] == Sets()
    {
      a, cnt := if setsValid <= SET_DEF_CNT then base else extended, setsValid;
    }

    /** The place for one more set description; those before keep their contents when they move. */
    method AddSetRef(x: T)
      requires Valid()
      modifies this`extended, this`setsValid, this`setsAlloc, base, extended
      ensures Valid() && Sets() == old(Sets()) + [x]
    {
      ghost var before := Sets();
      if setsValid < SET_DEF_CNT {
        base[setsValid] := x;
        setsValid := setsValid + 1;
        assert Sets() == base[..setsValid];
        return;
      }
      if setsValid == setsAlloc {
        Extend();
      }
      extended[setsValid] := x;
      setsValid := setsValid + 1;
      assert Sets() == extended[..setsValid];
    }

    /** Doubles the allocation; the first time the fixed array is copied, later the growing one. */
    method Extend()
      requires Valid() && setsValid == setsAlloc && setsValid >= SET_DEF_CNT
      modifies this`extended, this`setsAlloc
      ensures setsAlloc == 2 * old(setsAlloc) && extended != null && fresh(extended) && extended.Length == setsAlloc
      ensures extended[..setsValid] == old(Sets())
    {
      ghost var before := Sets();
      var from := if setsValid == SET_DEF_CNT then base else extended;
      var bigger := new T[2 * setsAlloc];
      for i := 0 to setsValid
        modifies bigger
        invariant forall k | 0 <= k < i :: bigger[k] == from[k]
      {
        bigger[i] := from[i];
      }
      assert bigger[..setsValid] == before;
      extended, setsAlloc := bigger, 2 * setsAlloc;
    }

    /** Offset of a record, or nothing behind the last. */
    method GetDrec(idx: u32) returns (offset: Option<nat>)
      requires Valid()
      ensures offset == if idx >= recsValid then None else Some(RecOffset(idx, recSize))
      ensures offset.Some? ==> offset.value + recSize <= recs.Length
    {
      if idx >= recsValid {
        return None;
      }
      Inside(idx, recsAlloc, recSize);
      return Some(idx * recSize);
    }

    /** Room for one more record; the records before keep their contents when the message moves. */
    method AddDrecRef() returns (offset: nat)
      requires Valid() && recsValid < 0x8000_0000
      modifies this`recs, this`recsValid, this`recsAlloc
      ensures Valid() && recsValid == old(recsValid) + 1 && offset == RecOffset(old(recsValid), recSize)
      ensures offset + recSize <= recs.Length && offset <= old(recs.Length)
      ensures recs[..offset] == old(recs[..RecOffset(recsValid, recSize)])
    {
      Inside(recsValid, recsAlloc, recSize);
      offset := recsValid * recSize;
      if recsValid == recsAlloc {
        Double(offset);
      }
      Inside(recsValid, recsAlloc, recSize);
      recsValid := recsValid + 1;
    }

    method Double(used: nat)
      requires Valid() && recsValid == recsAlloc < 0x8000_0000 && used == recsValid * recSize
      modifies this`recs, this`recsAlloc
      ensures Valid() && recsAlloc == 2 * old(recsAlloc) && used <= old(recs.Length)
      ensures used <= recs.Length && recs[..used] == old(recs[..used])
    {
      var n: nat := 2 * recsValid;
      Inside(recsValid, n, recSize);
      var bigger := new byte[n * recSize];
      for i := 0 to used
        modifies bigger
        invariant forall k | 0 <= k < i :: bigger[k] == recs[k]
      {
        bigger[i] := recs[i];
      }
      recs, recsAlloc := bigger, n;
    }
  }

  lemma Inside(k: nat, n: nat, recSize: nat)
    requires k <= n
    ensures k * recSize <= n * recSize && (k < n ==> k * recSize + recSize <= n * recSize)
  {
    MulMonotone(k, n, recSize);
    if k < n {
      MulMonotone(k + 1, n, recSize);
      assert (k + 1) * recSize == k * recSize + recSize;
    }
  }

  /**
   * With the stride that the configurator sets (base size of a record plus all extensions), the bytes
   * of one extension in one record are not those of any extension in another record, nor those of
   * another extension in the same record; and none reaches into the base part of a record.
   */
  lemma ExtensionBytesApart(exts: Table, order: seq<Key>, total: nat, sizes: seq<u64>, baseSize: nat,
                            r: nat, i: nat, r': nat, i': nat)
    requires LaidOut(exts, order, total, sizes) && Fits(sizes) && i < |order| && i' < |order| && (r < r' || (r == r' && i < i'))
    ensures var recSize := baseSize + total;
            var a, b := exts[order[i]], exts[order[i']];
            var from, to := RecOffset(r, recSize) + baseSize + a.offset, RecOffset(r', recSize) + baseSize + b.offset;
            && from + a.size <= to
            && from + a.size <= RecOffset(r + 1, recSize) && (r < r' ==> from + a.size <= RecOffset(r', recSize))
  {
    var recSize := baseSize + total;
    Unwrapped(exts, order, total, sizes, i);
    Unwrapped(exts, order, total, sizes, i');
    assert (r + 1) * recSize == r * recSize + recSize;
    if r < r' {
      MulMonotone(r + 1, r', recSize);
    } else {
      ExtensionsDisjoint(exts, order, total, sizes, i, i');
    }
  }
}
