/**
 * Data Record extensions: their registration by plugin instances (context.c, extension.c) and the
 * allocation of offsets and mask bits by the configurator (extensions.cpp).
 */
module Extensions {
  import opened Arith
  import opened Bytes

  /** Identification of an extension: its type and its name. */
  datatype Key = Key(ty: string, name: string)

  /** A registration of one instance; offset and mask are filled in by the configurator. */
  datatype Ext = Ext(producer: bool, key: Key, size: u64, offset: u64, mask: u64)

  datatype Rc = RcOk | RcDenied | RcExists | RcArg
  datatype PluginType = Input | Intermediate | OutputMgr | Output

  // ---------------------------------------------------------------- registration by an instance

  /** No instance has two registrations for one extension, and what is produced is not empty. */
  predicate ProperItems(items: seq<Ext>) {
    && (forall i, j | 0 <= i < j < |items| :: items[i].key != items[j].key)
    && (forall i | 0 <= i < |items| :: items[i].producer ==> items[i].size > 0)
  }

  /** Which plugins may produce, and which may depend on what others produce. */
  predicate AllowedItems(ty: PluginType, items: seq<Ext>) {
    && (items != [] ==> ty == Intermediate || ty == Output)
    && (forall i | 0 <= i < |items| :: items[i].producer ==> ty == Intermediate)
  }

  class Context {
    const ty: PluginType
    var isNew: bool
    var items: seq<Ext>
    var recSize: nat

    ghost predicate Valid()
      reads this
    {
      ProperItems(items) && AllowedItems(ty, items)
    }

    constructor (ty: PluginType)
      ensures Valid() && this.ty == ty && isNew && items == []
    {
      this.ty, isNew, items, recSize := ty, true, [], 0;
    }

    /** Looks for an earlier registration of the same extension. */
    method Exists(key: Key) returns (found: bool)
      ensures found <==> exists i :: 0 <= i < |items| && items[i].key == key
    {
      for i := 0 to |items|
        invariant forall k | 0 <= k < i :: items[k].key != key
      {
        if items[i].key == key {
          return true;
        }
      }
      return false;
    }

    /** Only intermediate plugins may produce, and only while they are initialized. */
    method Producer(key: Key, size: u64) returns (rc: Rc)
      requires Valid()
      modifies this`items
      ensures Valid()
      ensures rc == if ty != Intermediate || !isNew then RcDenied
                    else if exists i :: 0 <= i < |old(items)| && old(items)[i].key == key then RcExists
                    else if key.ty == "" || key.name == "" || size == 0 then RcArg else RcOk
      ensures items == old(items) + if rc == RcOk then [Ext(true, key, size, 0, 0)] else []
    {
      if ty != Intermediate || !isNew {
        return RcDenied;
      }
      var found := Exists(key);
      if found {
        return RcExists;
      }
      if key.ty == "" || key.name == "" || size == 0 {
        return RcArg;
      }
      items := items + [Ext(true, key, size, 0, 0)];
      return RcOk;
    }

    method Consumer(key: Key) returns (rc: Rc)
      requires Valid()
      modifies this`items
      ensures Valid()
      ensures rc == if (ty != Intermediate && ty != Output) || !isNew then RcDenied
                    else if exists i :: 0 <= i < |old(items)| && old(items)[i].key == key then RcExists
                    else if key.ty == "" || key.name == "" then RcArg else RcOk
      ensures items == old(items) + if rc == RcOk then [Ext(false, key, 0, 0, 0)] else []
    {
      if (ty != Intermediate && ty != Output) || !isNew {
        return RcDenied;
      }
      var found := Exists(key);
      if found {
        return RcExists;
      }
      if key.ty == "" || key.name == "" {
        return RcArg;
      }
      items := items + [Ext(false, key, 0, 0, 0)];
      return RcOk;
    }
  }

  // ---------------------------------------------------------------- layout

  function Align8(size: u64): (r: nat)
    ensures r % 8 == 0 && size <= r < size + 8
  {
    if size % 8 == 0 then size else (size / 8 + 1) * 8
  }

  /** Offset of the `k`-th extension, were integers unbounded: the aligned sizes before it. */
  function OffsetOf(sizes: seq<u64>, k: nat): nat
    requires k <= |sizes|
  {
    if k == 0 then 0 else OffsetOf(sizes, k - 1) + Align8(sizes[k - 1])
  }

  /** The total size can be represented. */
  predicate Fits(sizes: seq<u64>) {
    OffsetOf(sizes, |sizes|) < U64_SIZE
  }

  /** Offsets are aligned, and an extension ends before the next one begins. */
  lemma {:induction false} LayoutDisjoint(sizes: seq<u64>, i: nat, j: nat)
    requires i < j <= |sizes|
    ensures OffsetOf(sizes, i) % 8 == 0 && OffsetOf(sizes, i) + sizes[i] <= OffsetOf(sizes, j)
    decreases j
  {
    if j == i + 1 {
      OffsetAligned(sizes, i);
    } else {
      LayoutDisjoint(sizes, i, j - 1);
    }
  }

  lemma {:induction false} OffsetAligned(sizes: seq<u64>, k: nat)
    requires k <= |sizes|
    ensures OffsetOf(sizes, k) % 8 == 0
  {
    if k > 0 {
      OffsetAligned(sizes, k - 1);
    }
  }

  lemma {:induction false} OffsetGrows(sizes: seq<u64>, i: nat, j: nat)
    requires i <= j <= |sizes|
    ensures OffsetOf(sizes, i) <= OffsetOf(sizes, j)
    decreases j
  {
    if i < j {
      OffsetGrows(sizes, i, j - 1);
    }
  }

  lemma AddMod64(a: nat, b: nat)
    ensures (a % U64_SIZE + b % U64_SIZE) % U64_SIZE == (a + b) % U64_SIZE
  {
    var q := a / U64_SIZE + b / U64_SIZE;
    assert a + b == q * U64_SIZE + (a % U64_SIZE + b % U64_SIZE);
  }

  /** Masks are powers of two: different ones have no bit in common. */
  lemma {:induction false} Pow2Apart(i: nat, j: nat)
    requires i < j
    ensures Pow2(i) < Pow2(j) && Pow2(j) % (2 * Pow2(i)) == 0
    decreases j
  {
    if j == i + 1 {
      DivModUnique(Pow2(j), 2 * Pow2(i), 1, 0);
    } else {
      Pow2Apart(i, j - 1);
      var d := 2 * Pow2(i);
      var q := Pow2(j - 1) / d;
      assert Pow2(j - 1) == q * d;
      assert (2 * q) * d == 2 * (q * d);
      DivModUnique(Pow2(j), d, 2 * q, 0);
    }
  }

  // ---------------------------------------------------------------- the configurator

  datatype PluginRec = PluginRec(pos: nat, size: u64)
  datatype ExtRec = ExtRec(producers: seq<PluginRec>, consumers: seq<PluginRec>, size: u64, offset: u64, mask: u64)

  /** An instance as it was registered. */
  datatype Inst = Inst(ty: PluginType, pos: nat, items: seq<Ext>)

  /** Exactly one producer, not behind any consumer. */
  predicate Resolvable(r: ExtRec) {
    |r.producers| == 1 && forall i | 0 <= i < |r.consumers| :: r.producers[0].pos <= r.consumers[i].pos
  }

  method CheckDependencies(r: ExtRec) returns (ok: bool)
    ensures ok <==> Resolvable(r)
    ensures ok <==> |r.producers| == 1 && forall c | c in r.consumers :: r.producers[0].pos <= c.pos
  {
    if |r.producers| != 1 {
      return false;
    }
    if r.consumers == [] {
      return true;
    }
    var min := r.consumers[0].pos;
    for i := 1 to |r.consumers|
      invariant forall k | 0 <= k < i :: min <= r.consumers[k].pos
      invariant exists k :: 0 <= k < i && min == r.consumers[k].pos
    {
      if r.consumers[i].pos < min {
        min := r.consumers[i].pos;
      }
    }
    return r.producers[0].pos <= min;
  }

  type Table = map<Key, ExtRec>

  /** The registration of one instance is in the record of its extension. */
  predicate Known(r: ExtRec, pos: nat, e: Ext) {
    if e.producer then PluginRec(pos, e.size) in r.producers else PluginRec(pos, e.size) in r.consumers
  }

  /** The record of a plugin comes from the `i`-th registration of the `k`-th instance. */
  predicate From(insts: seq<Inst>, k: nat, i: nat, key: Key, producer: bool, c: PluginRec) {
    && k < |insts| && i < |insts[k].items|
    && insts[k].items[i].key == key && insts[k].items[i].producer == producer
    && c == PluginRec(insts[k].pos, insts[k].items[i].size)
  }

  ghost predicate HasOrigin(insts: seq<Inst>, key: Key, producer: bool, c: PluginRec) {
    exists k: nat, i: nat :: From(insts, k, i, key, producer, c)
  }

  /** What the instances registered for an extension, in the order of registration. */
  function Regs(insts: seq<Inst>, key: Key, producer: bool): seq<PluginRec> {
    if insts == [] then []
    else
      var inst := insts[|insts| - 1];
      Regs(insts[..|insts| - 1], key, producer) + RegsOf(inst.pos, inst.items, key, producer)
  }

  function RegsOf(pos: nat, items: seq<Ext>, key: Key, producer: bool): seq<PluginRec> {
    if items == [] then []
    else
      var e := items[|items| - 1];
      RegsOf(pos, items[..|items| - 1], key, producer) + if e.key == key && e.producer == producer then [PluginRec(pos, e.size)] else []
  }

  ghost predicate RecOk(insts: seq<Inst>, key: Key, r: ExtRec) {
    && r.producers == Regs(insts, key, true) && r.consumers == Regs(insts, key, false)
    && (forall i | 0 <= i < |r.producers| :: HasOrigin(insts, key, true, r.producers[i]))
    && (forall i | 0 <= i < |r.consumers| :: HasOrigin(insts, key, false, r.consumers[i]))
  }

  ghost predicate InstOk(inst: Inst, exts: Table) {
    && ProperItems(inst.items)
    && (forall i | 0 <= i < |inst.items| :: inst.items[i].key in exts && Known(exts[inst.items[i].key], inst.pos, inst.items[i]))
  }

  /** The records are exactly those of the registered instances. */
  ghost predicate TableOk(insts: seq<Inst>, exts: Table) {
    && (forall k | 0 <= k < |insts| :: InstOk(insts[k], exts))
    && (forall key | key in exts :: RecOk(insts, key, exts[key]))
  }

  predicate Enumerates(order: seq<Key>, exts: Table) {
    && (forall i, j | 0 <= i < j < |order| :: order[i] != order[j])
    && (forall i | 0 <= i < |order| :: order[i] in exts)
    && (forall key | key in exts :: key in order)
  }

  predicate SameRegistrations(a: Table, b: Table) {
    && (forall key | key in a :: key in b) && (forall key | key in b :: key in a)
    && (forall key | key in a :: b[key].producers == a[key].producers && b[key].consumers == a[key].consumers)
  }

  /** The `i`-th extension of the layout. */
  predicate Placed(r: ExtRec, sizes: seq<u64>, i: nat) {
    && i < |sizes| && i < 64
    && r.producers != [] && r.size == sizes[i] == r.producers[0].size
    && r.offset == OffsetOf(sizes, i) % U64_SIZE && r.mask == Pow2(i)
  }

  ghost predicate LaidOut(exts: Table, order: seq<Key>, total: nat, sizes: seq<u64>) {
    && Enumerates(order, exts) && |sizes| == |order| <= 64 && total == OffsetOf(sizes, |order|) % U64_SIZE
    && forall i | 0 <= i < |order| :: Placed(exts[order[i]], sizes, i)
  }

  class Manager {
    var resolved: bool
    var sizeTotal: u64
    var exts: Table
    ghost var insts: seq<Inst>

    ghost predicate Valid()
      reads this
    {
      TableOk(insts, exts)
    }

    constructor ()
      ensures Valid() && !resolved && exts == map[] && insts == []
    {
      resolved, sizeTotal, exts, insts := false, 0, map[], [];
    }

    /** Adds all registrations of an instance at a position of the pipeline. */
    method RegisterInstance(ctx: Context, pos: nat)
      requires Valid() && !resolved && ctx.Valid()
      modifies this`exts, this`insts
      ensures Valid() && insts == old(insts) + [Inst(ctx.ty, pos, ctx.items)]
    {
      hide TableOk;
      ghost var before := insts;
      var items := ctx.items;
      insts := insts + [Inst(ctx.ty, pos, [])];
      EmptyInst(before, ctx.ty, pos, exts);
      for i := 0 to |items|
        invariant Valid() && insts == before + [Inst(ctx.ty, pos, items[..i])]
      {
        AddExtension(ctx.ty, pos, items, i);
      }
      assert items[..|items|] == items;
    }

    method AddExtension(ghost ty: PluginType, pos: nat, items: seq<Ext>, i: nat)
      requires Valid() && insts != [] && i < |items| && insts[|insts| - 1] == Inst(ty, pos, items[..i]) && ProperItems(items)
      modifies this`exts, this`insts
      ensures Valid() && insts == old(insts)[|old(insts)| - 1 := Inst(ty, pos, items[..i + 1])]
    {
      hide TableOk;
      var ext := items[i];
      var r := if ext.key in exts then exts[ext.key] else ExtRec([], [], 0, 0, 0);
      var p := PluginRec(pos, ext.size);
      var r' := if ext.producer then r.(producers := r.producers + [p]) else r.(consumers := r.consumers + [p]);
      ghost var insts' := insts[|insts| - 1 := Inst(ty, pos, items[..i + 1])];
      OneMore(insts, exts, ty, pos, items, i, r, r', insts');
      exts := exts[ext.key := r'];
      insts := insts';
    }

    /**
     * Walks the extensions in the order of the map (any order does), checks each and gives it the next
     * free offset and bit; there are 64 bits.
     */
    method Resolve(order: seq<Key>) returns (ok: bool, ghost sizes: seq<u64>)
      requires Valid() && !resolved && Enumerates(order, exts)
      modifies this`resolved, this`sizeTotal, this`exts
      ensures Valid() && SameRegistrations(old(exts), exts)
      ensures ok <==> |order| <= 64 && forall key | key in old(exts) :: Resolvable(old(exts)[key])
      ensures resolved == ok && (ok ==> LaidOut(exts, order, sizeTotal, sizes) && forall key | key in exts :: Resolvable(exts[key]))
      ensures insts == old(insts)
    {
      hide Resolvable, TableOk, Placed, OffsetOf, Pow2, Align8;
      var offset: u64 := 0;
      var mask: u64 := 1;
      sizes := [];
      ghost var exts0 := exts;
      StartLayout();
      for k := 0 to |order|
        invariant Valid() && SameRegistrations(exts0, exts) && Enumerates(order, exts) && !resolved
        invariant |sizes| == k <= 64 && offset == OffsetOf(sizes, k) % U64_SIZE && mask == if k == 64 then 0 else Pow2(k)
        invariant forall i | 0 <= i < k :: Resolvable(exts0[order[i]]) && Placed(exts[order[i]], sizes, i)
      {
        if mask == 0 {
          return false, sizes;
        }
        var key := order[k];
        SameResolvable(exts0[key], exts[key]);
        var good := CheckDependencies(exts[key]);
        if !good {
          return false, sizes;
        }
        var size := Produced(exts[key]);
        ghost var exts1 := exts;
        SamePlaces(insts, exts, key, size, offset, mask);
        exts := exts[key := exts[key].(size := size, offset := offset, mask := mask)];
        NextPlaced(exts[key], sizes, k, size, offset, mask);
        forall i | 0 <= i < k ensures Placed(exts[order[i]], sizes + [size], i) {
          assert order[i] != order[k];
          MorePlaced(exts[order[i]], sizes, i, size);
        }
        NextBit(k);
        sizes := sizes + [size];
        offset := (offset + Align8(size) % U64_SIZE) % U64_SIZE;
        mask := (mask * 2) % U64_SIZE;
      }
      forall key | key in exts0 ensures Resolvable(exts0[key]) {
        assert key in exts;
        var i :| 0 <= i < |order| && order[i] == key;
      }
      forall key | key in exts ensures Resolvable(exts[key]) {
        SameResolvable(exts0[key], exts[key]);
      }
      sizeTotal, resolved := offset, true;
      return true, sizes;
    }

    /** Every instance is told the same size, offset and mask of an extension; the size of a producer stays. */
    method UpdateInstance(k: nat, items: seq<Ext>, baseSize: nat) returns (items': seq<Ext>, recSize: nat)
      requires Valid() && resolved && k < |insts| && items == insts[k].items
      requires forall key | key in exts :: |exts[key].producers| == 1 && exts[key].size == exts[key].producers[0].size
      ensures |items'| == |items| && recSize == baseSize + sizeTotal
      ensures forall i | 0 <= i < |items| ::
                && items[i].key in exts
                && items'[i] == Ext(items[i].producer, items[i].key, exts[items[i].key].size, exts[items[i].key].offset, exts[items[i].key].mask)
                && (items[i].producer ==> items'[i].size == items[i].size)
    {
      hide RecOk;
      assert InstOk(insts[k], exts);
      hide TableOk;
      items' := [];
      for i := 0 to |items|
        invariant |items'| == i
        invariant forall j | 0 <= j < i ::
                    && items[j].key in exts
                    && items'[j] == Ext(items[j].producer, items[j].key, exts[items[j].key].size, exts[items[j].key].offset, exts[items[j].key].mask)
                    && (items[j].producer ==> items'[j].size == items[j].size)
      {
        var def := exts[items[i].key];
        assert Known(def, insts[k].pos, items[i]);
        items' := items' + [items[i].(mask := def.mask, offset := def.offset, size := def.size)];
      }
      recSize := baseSize + sizeTotal;
    }
  }

  function Produced(r: ExtRec): u64
    requires Resolvable(r)
  {
    r.producers[0].size
  }

  lemma StartLayout()
    ensures OffsetOf([], 0) == 0 && Pow2(0) == 1
  {
  }

  lemma NextBit(k: nat)
    requires k < 64
    ensures (Pow2(k) * 2) % U64_SIZE == if k + 1 == 64 then 0 else Pow2(k + 1)
  {
    Pow64();
    Pow2Monotone(k + 1, 64);
    if k + 1 < 64 {
      Pow2Apart(k + 1, 64);
    }
  }

  lemma {:induction false} OffsetPrefix(sizes: seq<u64>, x: u64, k: nat)
    requires k <= |sizes|
    ensures OffsetOf(sizes + [x], k) == OffsetOf(sizes, k)
  {
    if k > 0 { OffsetPrefix(sizes, x, k - 1); }
  }

  lemma NextPlaced(r: ExtRec, sizes: seq<u64>, k: nat, size: u64, offset: u64, mask: u64)
    requires |sizes| == k < 64 && offset == OffsetOf(sizes, k) % U64_SIZE && mask == Pow2(k)
    requires r.producers != [] && r.producers[0].size == size && r.size == size && r.offset == offset && r.mask == mask
    ensures Placed(r, sizes + [size], k)
    ensures OffsetOf(sizes + [size], k + 1) % U64_SIZE == (offset + Align8(size) % U64_SIZE) % U64_SIZE
  {
    OffsetPrefix(sizes, size, k);
    AddMod64(OffsetOf(sizes, k), Align8(size));
    hide Align8;
  }

  lemma MorePlaced(r: ExtRec, sizes: seq<u64>, i: nat, size: u64)
    requires Placed(r, sizes, i)
    ensures Placed(r, sizes + [size], i)
  {
    OffsetPrefix(sizes, size, i);
  }

  lemma SameResolvable(a: ExtRec, b: ExtRec)
    requires a.producers == b.producers && a.consumers == b.consumers
    ensures (Resolvable(a) <==> Resolvable(b)) && (Resolvable(b) ==> b.producers != [])
  {
  }

  lemma SamePlaces(insts: seq<Inst>, exts: Table, key: Key, size: u64, offset: u64, mask: u64)
    requires TableOk(insts, exts) && key in exts
    ensures TableOk(insts, exts[key := exts[key].(size := size, offset := offset, mask := mask)])
  {
    var exts' := exts[key := exts[key].(size := size, offset := offset, mask := mask)];
    forall k | 0 <= k < |insts| ensures InstOk(insts[k], exts') {
      assert InstOk(insts[k], exts);
    }
    forall x | x in exts' ensures RecOk(insts, x, exts'[x]) {
      assert RecOk(insts, x, exts[x]);
    }
  }

  lemma EmptyInst(insts: seq<Inst>, ty: PluginType, pos: nat, exts: Table)
    requires TableOk(insts, exts)
    ensures TableOk(insts + [Inst(ty, pos, [])], exts)
  {
    var insts' := insts + [Inst(ty, pos, [])];
    forall k | 0 <= k < |insts'| ensures InstOk(insts'[k], exts) {
      if k < |insts| { assert InstOk(insts[k], exts); }
    }
    forall key | key in exts ensures RecOk(insts', key, exts[key]) {
      assert RecOk(insts, key, exts[key]);
      assert insts'[..|insts|] == insts;
      MoreOrigins(insts, insts', key, exts[key]);
    }
  }

  /** One more registration of the last instance. */
  lemma RegsMore(insts: seq<Inst>, ty: PluginType, pos: nat, items: seq<Ext>, i: nat, key: Key, producer: bool)
    requires insts != [] && i < |items| && insts[|insts| - 1] == Inst(ty, pos, items[..i])
    ensures Regs(insts[|insts| - 1 := Inst(ty, pos, items[..i + 1])], key, producer)
            == Regs(insts, key, producer) + if items[i].key == key && items[i].producer == producer then [PluginRec(pos, items[i].size)] else []
  {
    var n, insts' := |insts| - 1, insts[|insts| - 1 := Inst(ty, pos, items[..i + 1])];
    assert insts'[..n] == insts[..n] && items[..i + 1][..i] == items[..i];
  }

  /** An extension that is not in the table was not registered. */
  lemma {:induction false} RegsNone(insts: seq<Inst>, exts: Table, key: Key, producer: bool)
    requires (forall k | 0 <= k < |insts| :: InstOk(insts[k], exts)) && key !in exts
    ensures Regs(insts, key, producer) == []
  {
    if insts != [] {
      var n := |insts| - 1;
      RegsNone(insts[..n], exts, key, producer);
      assert InstOk(insts[n], exts);
      ItemsNone(insts[n].pos, insts[n].items, key, producer);
    }
  }

  lemma {:induction false} ItemsNone(pos: nat, items: seq<Ext>, key: Key, producer: bool)
    requires forall i | 0 <= i < |items| :: items[i].key != key
    ensures RegsOf(pos, items, key, producer) == []
  {
    if items != [] {
      ItemsNone(pos, items[..|items| - 1], key, producer);
    }
  }

  /** Origins stay when instances and registrations are added. */
  lemma MoreOrigins(insts: seq<Inst>, insts': seq<Inst>, key: Key, r: ExtRec)
    requires RecOk(insts, key, r) && |insts| <= |insts'|
    requires forall k | 0 <= k < |insts| :: insts'[k].pos == insts[k].pos && insts[k].items <= insts'[k].items
    requires forall producer :: Regs(insts', key, producer) == Regs(insts, key, producer)
    ensures RecOk(insts', key, r)
  {
    forall i | 0 <= i < |r.producers| ensures HasOrigin(insts', key, true, r.producers[i]) {
      MoreOrigin(insts, insts', key, true, r.producers[i]);
    }
    forall i | 0 <= i < |r.consumers| ensures HasOrigin(insts', key, false, r.consumers[i]) {
      MoreOrigin(insts, insts', key, false, r.consumers[i]);
    }
  }

  lemma MoreOrigin(insts: seq<Inst>, insts': seq<Inst>, key: Key, producer: bool, c: PluginRec)
    requires HasOrigin(insts, key, producer, c) && |insts| <= |insts'|
    requires forall k | 0 <= k < |insts| :: insts'[k].pos == insts[k].pos && insts[k].items <= insts'[k].items
    ensures HasOrigin(insts', key, producer, c)
  {
    var k: nat, i: nat :| From(insts, k, i, key, producer, c);
    assert From(insts', k, i, key, producer, c);
  }

  lemma OneMore(insts: seq<Inst>, exts: Table, ty: PluginType, pos: nat, items: seq<Ext>, i: nat, r: ExtRec, r': ExtRec, insts': seq<Inst>)
    requires TableOk(insts, exts) && insts != [] && i < |items| && insts[|insts| - 1] == Inst(ty, pos, items[..i]) && ProperItems(items)
    requires r == if items[i].key in exts then exts[items[i].key] else ExtRec([], [], 0, 0, 0)
    requires var p := PluginRec(pos, items[i].size);
             r' == if items[i].producer then r.(producers := r.producers + [p]) else r.(consumers := r.consumers + [p])
    requires insts' == insts[|insts| - 1 := Inst(ty, pos, items[..i + 1])]
    ensures TableOk(insts', exts[items[i].key := r'])
  {
    hide HasOrigin, From;
    var n, exts' := |insts| - 1, exts[items[i].key := r'];
    forall k | 0 <= k < |insts'| ensures InstOk(insts'[k], exts') {
      assert InstOk(insts[k], exts);
      InstMore(insts[k], insts'[k], exts, exts', items[i], r, r', k == n, ty, pos, items, i);
    }
    assert forall k | 0 <= k < |insts| :: insts'[k].pos == insts[k].pos && insts[k].items <= insts'[k].items;
    forall key | key in exts' ensures RecOk(insts', key, exts'[key]) {
      RegsMore(insts, ty, pos, items, i, key, true);
      RegsMore(insts, ty, pos, items, i, key, false);
      if key == items[i].key {
        ThisMore(insts, exts, ty, pos, items, i, r, r', insts');
      } else {
        assert RecOk(insts, key, exts[key]);
        MoreOrigins(insts, insts', key, exts[key]);
      }
    }
  }

  lemma ThisMore(insts: seq<Inst>, exts: Table, ty: PluginType, pos: nat, items: seq<Ext>, i: nat, r: ExtRec, r': ExtRec, insts': seq<Inst>)
    requires TableOk(insts, exts) && insts != [] && i < |items| && insts[|insts| - 1] == Inst(ty, pos, items[..i])
    requires r == if items[i].key in exts then exts[items[i].key] else ExtRec([], [], 0, 0, 0)
    requires var p := PluginRec(pos, items[i].size);
             r' == if items[i].producer then r.(producers := r.producers + [p]) else r.(consumers := r.consumers + [p])
    requires insts' == insts[|insts| - 1 := Inst(ty, pos, items[..i + 1])]
    ensures RecOk(insts', items[i].key, r')
  {
    hide *;
    var key, n := items[i].key, |insts| - 1;
    RecFor(insts, exts, key, r);
    RegsMore(insts, ty, pos, items, i, key, true);
    RegsMore(insts, ty, pos, items, i, key, false);
    NewOrigin(insts', n, ty, pos, items, i);
    MoreItems(insts, ty, pos, items, i);
    RecMore(insts, insts', key, r, r', items[i].producer, PluginRec(pos, items[i].size));
  }

  lemma RecMore(insts: seq<Inst>, insts': seq<Inst>, key: Key, r: ExtRec, r': ExtRec, producer: bool, p: PluginRec)
    requires RecOk(insts, key, r) && |insts| <= |insts'| && HasOrigin(insts', key, producer, p)
    requires forall k | 0 <= k < |insts| :: insts'[k].pos == insts[k].pos && insts[k].items <= insts'[k].items
    requires r' == if producer then r.(producers := r.producers + [p]) else r.(consumers := r.consumers + [p])
    requires Regs(insts', key, true) == Regs(insts, key, true) + if producer then [p] else []
    requires Regs(insts', key, false) == Regs(insts, key, false) + if producer then [] else [p]
    ensures RecOk(insts', key, r')
  {
    hide Regs, From, HasOrigin;
    forall x | 0 <= x < |r.producers| ensures HasOrigin(insts', key, true, r.producers[x]) {
      MoreOrigin(insts, insts', key, true, r.producers[x]);
    }
    forall x | 0 <= x < |r.consumers| ensures HasOrigin(insts', key, false, r.consumers[x]) {
      MoreOrigin(insts, insts', key, false, r.consumers[x]);
    }
  }

  lemma MoreItems(insts: seq<Inst>, ty: PluginType, pos: nat, items: seq<Ext>, i: nat)
    requires insts != [] && i < |items| && insts[|insts| - 1] == Inst(ty, pos, items[..i])
    ensures var insts' := insts[|insts| - 1 := Inst(ty, pos, items[..i + 1])];
            forall k | 0 <= k < |insts| :: insts'[k].pos == insts[k].pos && insts[k].items <= insts'[k].items
  {
  }

  /** The record of an extension, or the empty one. */
  lemma RecFor(insts: seq<Inst>, exts: Table, key: Key, r: ExtRec)
    requires TableOk(insts, exts) && r == if key in exts then exts[key] else ExtRec([], [], 0, 0, 0)
    ensures RecOk(insts, key, r)
  {
    if key in exts {
      assert RecOk(insts, key, exts[key]);
    } else {
      RegsNone(insts, exts, key, true);
      RegsNone(insts, exts, key, false);
    }
  }

  lemma NewOrigin(insts: seq<Inst>, n: nat, ty: PluginType, pos: nat, items: seq<Ext>, i: nat)
    requires n < |insts| && i < |items| && insts[n] == Inst(ty, pos, items[..i + 1])
    ensures HasOrigin(insts, items[i].key, items[i].producer, PluginRec(pos, items[i].size))
  {
    assert From(insts, n, i, items[i].key, items[i].producer, PluginRec(pos, items[i].size));
  }

  lemma InstMore(a: Inst, b: Inst, exts: Table, exts': Table, ext: Ext, r: ExtRec, r': ExtRec, last: bool,
                 ty: PluginType, pos: nat, items: seq<Ext>, i: nat)
    requires InstOk(a, exts) && exts' == exts[ext.key := r'] && i < |items| && ext == items[i] && ProperItems(items)
    requires ext.key in exts ==> r == exts[ext.key]
    requires r' == if ext.producer then r.(producers := r.producers + [PluginRec(pos, ext.size)])
                   else r.(consumers := r.consumers + [PluginRec(pos, ext.size)])
    requires if last then a == Inst(ty, pos, items[..i]) && b == Inst(ty, pos, items[..i + 1]) else b == a
    ensures InstOk(b, exts')
  {
    forall j | 0 <= j < |b.items| ensures b.items[j].key in exts' && Known(exts'[b.items[j].key], b.pos, b.items[j]) {
      if j < |a.items| {
        assert b.items[j] == a.items[j];
      }
    }
  }

  // ---------------------------------------------------------------- what the layout guarantees

  /** Two extensions occupy disjoint aligned ranges within the total size, and their masks are different single bits. */
  lemma ExtensionsDisjoint(exts: Table, order: seq<Key>, total: nat, sizes: seq<u64>, i: nat, j: nat)
    requires LaidOut(exts, order, total, sizes) && Fits(sizes) && i < j < |order|
    ensures var a, b := exts[order[i]], exts[order[j]];
            && a.offset % 8 == 0 && b.offset % 8 == 0
            && a.offset + a.size <= b.offset && b.offset + b.size <= total
            && a.mask == Pow2(i) < b.mask == Pow2(j) && b.mask % (2 * a.mask) == 0
  {
    Unwrapped(exts, order, total, sizes, i);
    Unwrapped(exts, order, total, sizes, j);
    LayoutDisjoint(sizes, i, j);
    LayoutDisjoint(sizes, j, |order|);
    Pow2Apart(i, j);
  }

  /** Without overflow the offsets are the sums of sizes. */
  lemma Unwrapped(exts: Table, order: seq<Key>, total: nat, sizes: seq<u64>, i: nat)
    requires LaidOut(exts, order, total, sizes) && Fits(sizes) && i < |order|
    ensures exts[order[i]].offset == OffsetOf(sizes, i) && exts[order[i]].size == sizes[i] && total == OffsetOf(sizes, |order|)
    ensures OffsetOf(sizes, i) + sizes[i] <= total
  {
    hide OffsetOf, Enumerates;
    OffsetGrows(sizes, i, |order|);
    LayoutDisjoint(sizes, i, |order|);
    SmallMod(OffsetOf(sizes, i), OffsetOf(sizes, |order|));
  }

  lemma SmallMod(a: nat, b: nat)
    requires a <= b < U64_SIZE
    ensures a % U64_SIZE == a && b % U64_SIZE == b
  {
  }

  /** No range overlaps another one or the end. */
  ghost predicate Apart(exts: Table, order: seq<Key>, total: nat)
    requires Enumerates(order, exts)
  {
    && (forall i, j | 0 <= i < j < |order| :: exts[order[i]].offset + exts[order[i]].size <= exts[order[j]].offset)
    && (forall i | 0 <= i < |order| :: exts[order[i]].offset + exts[order[i]].size <= total)
  }

  /** Exactly when the layout is right: the aligned sizes together stay below 2^64. */
  lemma LayoutExact(exts: Table, order: seq<Key>, total: nat, sizes: seq<u64>)
    requires LaidOut(exts, order, total, sizes) && forall i | 0 <= i < |sizes| :: sizes[i] > 0
    ensures Apart(exts, order, total) <==> Fits(sizes)
  {
    if Fits(sizes) {
      forall i, j | 0 <= i < j < |order| ensures exts[order[i]].offset + exts[order[i]].size <= exts[order[j]].offset {
        ExtensionsDisjoint(exts, order, total, sizes, i, j);
      }
      forall i | 0 <= i < |order| ensures exts[order[i]].offset + exts[order[i]].size <= total {
        Unwrapped(exts, order, total, sizes, i);
      }
    } else {
      Overflow(exts, order, total, sizes);
    }
  }

  /** With an overflow one range reaches over the next or the end. */
  lemma Overflow(exts: Table, order: seq<Key>, total: nat, sizes: seq<u64>)
    requires LaidOut(exts, order, total, sizes) && !Fits(sizes) && forall i | 0 <= i < |sizes| :: sizes[i] > 0
    ensures !Apart(exts, order, total)
  {
    hide OffsetOf, Pow2;
    var k := FirstWrap(sizes, |sizes|);
    var a := exts[order[k]];
    assert Placed(a, sizes, k);
    assert a.offset + a.size > OffsetOf(sizes, k + 1) % U64_SIZE;
    if k + 1 < |order| {
      assert Placed(exts[order[k + 1]], sizes, k + 1);
      assert exts[order[k]].offset + exts[order[k]].size > exts[order[k + 1]].offset;
    } else {
      assert exts[order[k]].offset + exts[order[k]].size > total;
    }
  }

  /** The extension behind which the offset overflows: the next one begins no later than it does. */
  lemma {:induction false} FirstWrap(sizes: seq<u64>, n: nat) returns (k: nat)
    requires n <= |sizes| && OffsetOf(sizes, n) >= U64_SIZE
    ensures k < n && OffsetOf(sizes, k) < U64_SIZE <= OffsetOf(sizes, k + 1)
    ensures OffsetOf(sizes, k + 1) % U64_SIZE <= OffsetOf(sizes, k)
  {
    if OffsetOf(sizes, n - 1) >= U64_SIZE {
      k := FirstWrap(sizes, n - 1);
    } else {
      k := n - 1;
    }
  }

  /** What is produced is never empty. */
  lemma PositiveSizes(insts: seq<Inst>, exts: Table, order: seq<Key>, total: nat, sizes: seq<u64>)
    requires TableOk(insts, exts) && LaidOut(exts, order, total, sizes)
    ensures forall i | 0 <= i < |sizes| :: sizes[i] > 0
  {
    hide OffsetOf;
    forall i | 0 <= i < |sizes| ensures sizes[i] > 0 {
      var r := exts[order[i]];
      assert Placed(r, sizes, i) && RecOk(insts, order[i], r);
      assert HasOrigin(insts, order[i], true, r.producers[0]);
      var k: nat, x: nat :| From(insts, k, x, order[i], true, r.producers[0]);
      assert InstOk(insts[k], exts);
    }
  }

  // ---------------------------------------------------------------- positions in the pipeline

  /**
   * The instances as startup registers them: inputs and their parsers at position 0, which register
   * nothing; every intermediate plugin, the output manager last, at a position of its own; all outputs
   * behind them.
   */
  function StartupInsts(n: nat, inters: seq<Inst>, outs: seq<Inst>): seq<Inst> {
    Front(n) + inters + outs
  }

  function Front(n: nat): seq<Inst> {
    if n == 0 then [] else Front(n - 1) + [Inst(Input, 0, []), Inst(Intermediate, 0, [])]
  }

  lemma {:induction false} FrontIsEmpty(n: nat)
    ensures |Front(n)| == 2 * n && forall k | 0 <= k < |Front(n)| :: Front(n)[k].pos == 0 && Front(n)[k].items == []
  {
    if n > 0 { FrontIsEmpty(n - 1); }
  }

  predicate Positioned(inters: seq<Inst>, outs: seq<Inst>) {
    && (forall k | 0 <= k < |inters| :: inters[k].pos == k + 1)
    && (forall k | 0 <= k < |outs| :: outs[k].pos == |inters| + 1 && outs[k].ty == Output && AllowedItems(Output, outs[k].items))
  }

  /** Two instances at one position are outputs, or register nothing. */
  lemma OnePlaceOneKind(n: nat, inters: seq<Inst>, outs: seq<Inst>, k: nat, l: nat, x: nat, y: nat)
    requires Positioned(inters, outs)
    requires var insts := StartupInsts(n, inters, outs);
             k < l < |insts| && insts[k].pos == insts[l].pos && x < |insts[k].items| && y < |insts[l].items|
    ensures var insts := StartupInsts(n, inters, outs); !insts[k].items[x].producer && !insts[l].items[y].producer
  {
    InstAt(n, inters, outs, k);
    InstAt(n, inters, outs, l);
    hide StartupInsts;
  }

  lemma InstAt(n: nat, inters: seq<Inst>, outs: seq<Inst>, k: nat)
    requires k < |StartupInsts(n, inters, outs)|
    ensures var inst, j := StartupInsts(n, inters, outs)[k], k - 2 * n;
            && (j < 0 ==> inst.items == [])
            && (0 <= j < |inters| ==> inst == inters[j])
            && (j >= |inters| ==> j - |inters| < |outs| && inst == outs[j - |inters|])
  {
    FrontIsEmpty(n);
  }

  /** One producer, strictly in front of all consumers. */
  predicate StrictlyFirst(r: ExtRec) {
    |r.producers| == 1 && forall i | 0 <= i < |r.consumers| :: r.producers[0].pos < r.consumers[i].pos
  }

  /** The one producer of an extension comes strictly before all its consumers. */
  lemma ProducerFirst(n: nat, inters: seq<Inst>, outs: seq<Inst>, exts: Table, key: Key)
    requires Positioned(inters, outs) && TableOk(StartupInsts(n, inters, outs), exts)
    requires key in exts && Resolvable(exts[key])
    ensures StrictlyFirst(exts[key])
  {
    hide StartupInsts, Positioned, TableOk;
    forall i | 0 <= i < |exts[key].consumers| ensures exts[key].producers[0].pos < exts[key].consumers[i].pos {
      ConsumerBehind(n, inters, outs, exts, key, i);
    }
  }

  lemma ConsumerBehind(n: nat, inters: seq<Inst>, outs: seq<Inst>, exts: Table, key: Key, i: nat)
    requires Positioned(inters, outs) && TableOk(StartupInsts(n, inters, outs), exts)
    requires key in exts && Resolvable(exts[key]) && i < |exts[key].consumers|
    ensures exts[key].producers[0].pos < exts[key].consumers[i].pos
  {
    hide StartupInsts, Positioned;
    var insts := StartupInsts(n, inters, outs);
    var p, c := exts[key].producers[0], exts[key].consumers[i];
    assert RecOk(insts, key, exts[key]);
    assert HasOrigin(insts, key, true, p) && HasOrigin(insts, key, false, c);
    var k: nat, x: nat :| From(insts, k, x, key, true, p);
    var l: nat, y: nat :| From(insts, l, y, key, false, c);
    assert InstOk(insts[k], exts);
    assert k != l;
    if insts[k].pos == insts[l].pos {
      if k < l {
        OnePlaceOneKind(n, inters, outs, k, l, x, y);
      } else {
        OnePlaceOneKind(n, inters, outs, l, k, y, x);
      }
    }
  }

  /** Instances of contexts at consecutive positions, or all at one. */
  ghost function InstsOf(ctxs: seq<Context>, pos: nat, step: nat): seq<Inst>
    reads ctxs
  {
    seq(|ctxs|, k requires 0 <= k < |ctxs| reads ctxs => Inst(ctxs[k].ty, pos + k * step, ctxs[k].items))
  }

  /** One instance produces the extension, and none that depends on it is in front of that one. */
  predicate Served(insts: seq<Inst>, key: Key) {
    |Regs(insts, key, true)| == 1 && forall c | c in Regs(insts, key, false) :: Regs(insts, key, true)[0].pos <= c.pos
  }

  lemma ServedResolvable(insts: seq<Inst>, exts: Table, key: Key)
    requires TableOk(insts, exts) && key in exts
    ensures Served(insts, key) <==> Resolvable(exts[key])
  {
    assert RecOk(insts, key, exts[key]);
    hide Regs;
  }

  /**
   * Registration and resolution at startup: it succeeds exactly if there are at most 64 extensions and each is
   * served; on success every extension has its own aligned range and
   * bit, and its producer stands strictly before all its consumers.
   */
  method Startup(inputs: seq<Context>, parsers: seq<Context>, inters: seq<Context>, outputs: seq<Context>, mgr: Manager)
    returns (ok: bool, order: seq<Key>, ghost sizes: seq<u64>)
    requires mgr.Valid() && !mgr.resolved && mgr.insts == [] && |parsers| == |inputs|
    requires forall k | 0 <= k < |inputs| :: inputs[k].Valid() && inputs[k].ty == Input
    requires forall k | 0 <= k < |parsers| :: parsers[k].Valid() && parsers[k].ty == Intermediate && parsers[k].items == []
    requires forall k | 0 <= k < |inters| :: inters[k].Valid()
    requires forall k | 0 <= k < |outputs| :: outputs[k].Valid() && outputs[k].ty == Output
    modifies mgr
    ensures mgr.Valid() && mgr.insts == StartupInsts(|inputs|, InstsOf(inters, 1, 1), InstsOf(outputs, |inters| + 1, 0))
    ensures Enumerates(order, mgr.exts)
    ensures ok <==> |order| <= 64 && forall key | key in mgr.exts :: Served(mgr.insts, key)
    ensures ok ==> LaidOut(mgr.exts, order, mgr.sizeTotal, sizes)
    ensures ok ==> forall key | key in mgr.exts :: StrictlyFirst(mgr.exts[key])
  {
    hide TableOk, ProperItems, LaidOut, Resolvable;
    for k := 0 to |inputs|
      invariant mgr.Valid() && !mgr.resolved && mgr.insts == Front(k)
    {
      mgr.RegisterInstance(inputs[k], 0);
      mgr.RegisterInstance(parsers[k], 0);
    }
    ghost var ins, os := InstsOf(inters, 1, 1), InstsOf(outputs, |inters| + 1, 0);
    var pos := 1;
    for k := 0 to |inters|
      invariant mgr.Valid() && !mgr.resolved && pos == k + 1 && mgr.insts == Front(|inputs|) + ins[..k]
    {
      mgr.RegisterInstance(inters[k], pos);
      pos := pos + 1;
      assert ins[..k + 1] == ins[..k] + [ins[k]];
    }
    for k := 0 to |outputs|
      invariant mgr.Valid() && !mgr.resolved && mgr.insts == Front(|inputs|) + ins[..|inters|] + os[..k]
    {
      mgr.RegisterInstance(outputs[k], pos);
      assert os[..k + 1] == os[..k] + [os[k]];
    }
    assert ins[..|inters|] == ins && os[..|outputs|] == os;
    order := KeyOrder(mgr.exts);
    forall key | key in mgr.exts ensures Served(mgr.insts, key) <==> Resolvable(mgr.exts[key]) {
      ServedResolvable(mgr.insts, mgr.exts, key);
    }
    ok, sizes := mgr.Resolve(order);
    if ok {
      assert Positioned(ins, os);
      forall key | key in mgr.exts ensures StrictlyFirst(mgr.exts[key]) {
        ProducerFirst(|inputs|, ins, os, mgr.exts, key);
      }
    }
  }

  /** Some order of the keys, for that of the map. */
  method KeyOrder(exts: Table) returns (order: seq<Key>)
    ensures Enumerates(order, exts)
  {
    order := [];
    var left := exts.Keys;
    while left != {}
      invariant left <= exts.Keys
      invariant forall i | 0 <= i < |order| :: order[i] in exts && order[i] !in left
      invariant forall i, j | 0 <= i < j < |order| :: order[i] != order[j]
      invariant forall key | key in exts :: key in left || key in order
      decreases left
    {
      var key :| key in left;
      order, left := order + [key], left - {key};
    }
  }
}
