/** Tables that are kept sorted by a key in an array: lookup by binary search, insertion at the end followed by a sort. */
module SortedTable {

  predicate Sorted<T(!new)>(s: seq<T>, key: T -> int) {
    forall i, j | 0 <= i < j < |s| :: key(s[i]) < key(s[j])
  }

  predicate HasKey<T(!new)>(s: seq<T>, key: T -> int, k: int) {
    exists i :: 0 <= i < |s| && key(s[i]) == k
  }

  function Insert<T>(x: T, s: seq<T>, key: T -> int): (r: seq<T>)
    ensures |r| == |s| + 1
  {
    if s == [] then [x]
    else if key(x) < key(s[0]) then [x] + s
    else [s[0]] + Insert(x, s[1..], key)
  }

  lemma {:induction false} InsertSplits<T(!new)>(x: T, s: seq<T>, key: T -> int) returns (p: nat)
    requires Sorted(s, key) && !HasKey(s, key, key(x))
    ensures p <= |s| && Insert(x, s, key) == s[..p] + [x] + s[p..]
    ensures (forall i | 0 <= i < p :: key(s[i]) < key(x)) && (forall i | p <= i < |s| :: key(x) < key(s[i]))
  {
    if s == [] {
      p := 0;
    } else if key(x) < key(s[0]) {
      p := 0;
      assert s[..0] + [x] + s[0..] == [x] + s;
    } else {
      assert key(s[0]) != key(x);
      forall i | 0 <= i < |s[1..]| ensures key(s[1..][i]) != key(x) { assert s[1..][i] == s[i + 1]; }
      var q := InsertSplits(x, s[1..], key);
      p := q + 1;
      assert [s[0]] + (s[1..][..q] + [x] + s[1..][q..]) == s[..p] + [x] + s[p..];
      forall i | 0 <= i < |s| ensures if i < p then key(s[i]) < key(x) else key(x) < key(s[i]) {
        if i > 0 { assert s[i] == s[1..][i - 1]; }
      }
    }
  }

  /** The table stays strictly sorted and has exactly one element more. */
  lemma InsertKeeps<T(!new)>(x: T, s: seq<T>, key: T -> int)
    requires Sorted(s, key) && !HasKey(s, key, key(x))
    ensures Sorted(Insert(x, s, key), key)
    ensures multiset(Insert(x, s, key)) == multiset(s) + multiset{x}
    ensures forall k :: HasKey(Insert(x, s, key), key, k) <==> k == key(x) || HasKey(s, key, k)
  {
    var p := InsertSplits(x, s, key);
    assert s == s[..p] + s[p..];
    hide Insert, Sorted;
    InsertedKeys(x, s, key, p);
    assert Sorted(s[..p] + [x] + s[p..], key) by { InsertedSorted(x, s, key, p); }
  }

  lemma InsertedSorted<T(!new)>(x: T, s: seq<T>, key: T -> int, p: nat)
    requires p <= |s| && Sorted(s, key)
    requires (forall i | 0 <= i < p :: key(s[i]) < key(x)) && (forall i | p <= i < |s| :: key(x) < key(s[i]))
    ensures Sorted(s[..p] + [x] + s[p..], key)
  {
    var r := s[..p] + [x] + s[p..];
    forall i, j | 0 <= i < j < |r| ensures key(r[i]) < key(r[j]) {
      assert i != p ==> r[i] == s[if i < p then i else i - 1];
      assert j != p ==> r[j] == s[if j < p then j else j - 1];
    }
  }

  lemma InsertedKeys<T(!new)>(x: T, s: seq<T>, key: T -> int, p: nat)
    requires p <= |s|
    ensures forall k :: HasKey(s[..p] + [x] + s[p..], key, k) <==> k == key(x) || HasKey(s, key, k)
  {
    var r := s[..p] + [x] + s[p..];
    forall k ensures HasKey(r, key, k) <==> k == key(x) || HasKey(s, key, k) {
      if HasKey(r, key, k) {
        var i :| 0 <= i < |r| && key(r[i]) == k;
        assert i != p ==> r[i] == s[if i < p then i else i - 1];
      }
      if HasKey(s, key, k) {
        var i :| 0 <= i < |s| && key(s[i]) == k;
        assert r[if i < p then i else i + 1] == s[i];
      }
      assert r[p] == x;
    }
  }

  /** Whatever the sorting algorithm does, its result is this one. */
  lemma {:induction false} SortedUnique<T(!new)>(a: seq<T>, b: seq<T>, key: T -> int)
    requires Sorted(a, key) && Sorted(b, key) && multiset(a) == multiset(b)
    ensures a == b
  {
    assert |a| == |multiset(a)| == |multiset(b)| == |b|;
    if a != [] {
      SameFirst(a, b, key);
      TailSorted(a, key);
      TailSorted(b, key);
      hide Sorted;
      assert a == [a[0]] + a[1..] && b == [b[0]] + b[1..];
      assert multiset(a[1..]) == multiset(a) - multiset{a[0]};
      assert multiset(b[1..]) == multiset(b) - multiset{b[0]};
      SortedUnique(a[1..], b[1..], key);
    }
  }

  lemma TailSorted<T(!new)>(a: seq<T>, key: T -> int)
    requires Sorted(a, key) && a != []
    ensures Sorted(a[1..], key)
  {
  }

  lemma SameFirst<T(!new)>(a: seq<T>, b: seq<T>, key: T -> int)
    requires Sorted(a, key) && Sorted(b, key) && a != [] && b != [] && multiset(a) == multiset(b)
    ensures a[0] == b[0]
  {
    Least(a, b, key);
    Least(b, a, key);
    assert a[0] in multiset(b);
    var k :| 0 <= k < |b| && b[k] == a[0];
  }

  lemma Least<T(!new)>(a: seq<T>, b: seq<T>, key: T -> int)
    requires Sorted(a, key) && a != [] && b != [] && multiset(a) == multiset(b)
    ensures key(a[0]) <= key(b[0])
  {
    assert b[0] in multiset(a);
    var k :| 0 <= k < |a| && a[k] == b[0];
  }

  /** Binary search finds a key exactly if it is there. */
  method Search<T(!new)>(s: seq<T>, key: T -> int, k: int) returns (found: bool, at: nat)
    requires Sorted(s, key)
    ensures found <==> HasKey(s, key, k)
    ensures found ==> at < |s| && key(s[at]) == k
  {
    var lo, hi := 0, |s|;
    while lo < hi
      invariant 0 <= lo <= hi <= |s|
      invariant forall i | 0 <= i < lo :: key(s[i]) < k
      invariant forall i | hi <= i < |s| :: k < key(s[i])
    {
      var mid := lo + (hi - lo) / 2;
      if key(s[mid]) == k {
        return true, mid;
      }
      if key(s[mid]) < k { lo := mid + 1; } else { hi := mid; }
    }
    return false, 0;
  }
}
