/**
 Ordering records by size, largest first, the way Python's stable `sorted`
 with `key=size, reverse=True` does: records of equal size keep the order
 they had in the dictionary, which is insertion (walk) order.
 */
module SizeOrder {
  import opened FileTable

  /** Sizes never increase along `t`. */
  predicate SortedBySizeDesc(t: Table)
  {
    forall i, j :: 0 <= i < j < |t| ==> t[i].size >= t[j].size
  }

  /** The records of `t` that have size `k`, in their order in `t`. */
  function OfSize(t: Table, k: nat): (r: Table)
    ensures forall x :: x in r <==> x in t && x.size == k
  {
    if t == [] then []
    else (if t[0].size == k then [t[0]] else []) + OfSize(t[1..], k)
  }

  lemma {:induction false} OfSizeAppend(a: Table, b: Table, k: nat)
    ensures OfSize(a + b, k) == OfSize(a, k) + OfSize(b, k)
  {
    if a == [] {
      assert a + b == b;
    } else {
      assert (a + b)[1..] == a[1..] + b;
      OfSizeAppend(a[1..], b, k);
    }
  }

  /** Filtering a table that starts with `x`. */
  lemma OfSizeCons(x: FileInfo, t: Table, k: nat)
    ensures OfSize([x] + t, k) == (if x.size == k then [x] else []) + OfSize(t, k)
  {
    assert ([x] + t)[1..] == t;
  }

  /** Places `x` after every strictly larger record of `t` and before the rest. */
  function InsertBySize(x: FileInfo, t: Table): (r: Table)
    ensures multiset(r) == multiset(t) + multiset{x}
    ensures |r| == |t| + 1
  {
    if t == [] || t[0].size <= x.size then [x] + t
    else
      assert t == [t[0]] + t[1..];
      [t[0]] + InsertBySize(x, t[1..])
  }

  lemma {:induction false} InsertSorted(x: FileInfo, t: Table)
    requires SortedBySizeDesc(t)
    ensures SortedBySizeDesc(InsertBySize(x, t))
  {
    if t != [] && t[0].size > x.size {
      SortedTail(t);
      InsertSorted(x, t[1..]);
      var r := InsertBySize(x, t);
      var tail := InsertBySize(x, t[1..]);
      assert r == [t[0]] + tail;
      forall j | 0 < j < |r| ensures r[0].size >= r[j].size {
        assert r[j] in multiset(tail);
        assert r[j] in multiset(t[1..]) + multiset{x};
        if r[j] != x {
          assert r[j] in t[1..];
        }
      }
    }
  }

  /** Inserting `x` into a sorted table puts it first among the records of its size. */
  lemma {:induction false} InsertOfSize(x: FileInfo, t: Table, k: nat)
    requires SortedBySizeDesc(t)
    ensures OfSize(InsertBySize(x, t), k) == (if x.size == k then [x] else []) + OfSize(t, k)
  {
    if t == [] || t[0].size <= x.size {
      OfSizeCons(x, t, k);
    } else {
      var tail := InsertBySize(x, t[1..]);
      assert InsertBySize(x, t) == [t[0]] + tail;
      SortedTail(t);
      InsertOfSize(x, t[1..], k);
      OfSizeCons(t[0], tail, k);
      assert t == [t[0]] + t[1..];
      OfSizeCons(t[0], t[1..], k);
      if x.size == k {
        assert OfSize(InsertBySize(x, t), k) == OfSize(tail, k) == [x] + OfSize(t[1..], k);
        assert OfSize(t, k) == OfSize(t[1..], k);
      } else if t[0].size == k {
        assert OfSize(InsertBySize(x, t), k) == [t[0]] + OfSize(tail, k);
        assert OfSize(tail, k) == OfSize(t[1..], k);
        assert OfSize(t, k) == [t[0]] + OfSize(t[1..], k);
      } else {
        assert OfSize(InsertBySize(x, t), k) == OfSize(tail, k) == OfSize(t[1..], k) == OfSize(t, k);
      }
    }
  }

  /** Dropping the head of a table drops at most the head of each filter. */
  lemma OfSizeTail(t: Table, k: nat)
    requires t != []
    ensures OfSize(t[1..], k) == if t[0].size == k then OfSize(t, k)[1..] else OfSize(t, k)
  {
    assert t == [t[0]] + t[1..];
    OfSizeCons(t[0], t[1..], k);
    if t[0].size == k {
      assert OfSize(t, k) == [t[0]] + OfSize(t[1..], k);
    } else {
      assert OfSize(t, k) == [] + OfSize(t[1..], k);
    }
  }

  /** A table's multiset is its head plus its tail's. */
  lemma MultisetCons(t: Table)
    requires t != []
    ensures multiset(t) == multiset(t[1..]) + multiset{t[0]}
  {
    assert t == [t[0]] + t[1..];
  }

  /** A prefix holds no more of any record than the whole table. */
  lemma PrefixMultiset(t: Table, n: nat)
    requires n <= |t|
    ensures multiset(t[..n]) <= multiset(t)
  {
    assert t == t[..n] + t[n..];
  }

  /** sorted(values, key=size, reverse=True). */
  function SortBySizeDesc(t: Table): (r: Table)
    ensures multiset(r) == multiset(t)
    ensures |r| == |t|
    ensures SortedBySizeDesc(r)
  {
    if t == [] then []
    else
      var rest := SortBySizeDesc(t[1..]);
      InsertSorted(t[0], rest);
      MultisetCons(t);
      InsertBySize(t[0], rest)
  }

  /** The sort is stable: for every size, the records of that size keep their order. */
  lemma {:induction false} SortIsStable(t: Table, k: nat)
    ensures OfSize(SortBySizeDesc(t), k) == OfSize(t, k)
  {
    if t != [] {
      SortIsStable(t[1..], k);
      InsertOfSize(t[0], SortBySizeDesc(t[1..]), k);
    }
  }

  /**
   Sortedness and stability pin the order down: a table sorted by size whose
   records of each size appear in the same order as in `t` is the sort of `t`.
   */
  lemma StableSortIsUnique(r: Table, t: Table)
    requires SortedBySizeDesc(r)
    requires forall k :: OfSize(r, k) == OfSize(t, k)
    ensures r == SortBySizeDesc(t)
  {
    forall k ensures OfSize(r, k) == OfSize(SortBySizeDesc(t), k) {
      SortIsStable(t, k);
    }
    SameOfSizeSortedEqual(r, SortBySizeDesc(t));
  }

  /** Two sorted tables with the same records of every size start with the same size. */
  lemma SameHeadSize(a: Table, b: Table)
    requires SortedBySizeDesc(a) && SortedBySizeDesc(b) && a != [] && b != []
    requires OfSize(a, a[0].size) == OfSize(b, a[0].size)
    requires OfSize(a, b[0].size) == OfSize(b, b[0].size)
    ensures a[0].size == b[0].size
  {
    assert a[0] in OfSize(a, a[0].size);
    assert b[0] in OfSize(b, b[0].size);
    var i :| 0 <= i < |b| && b[i] == a[0];
    var j :| 0 <= j < |a| && a[j] == b[0];
    assert a[0].size >= a[j].size;
    assert b[0].size >= b[i].size;
  }

  lemma HeadOfSize(t: Table)
    requires t != []
    ensures OfSize(t, t[0].size) != []
  {
    assert t[0] in OfSize(t, t[0].size);
  }

  lemma SortedTail(a: Table)
    requires SortedBySizeDesc(a) && a != []
    ensures SortedBySizeDesc(a[1..])
  {
    forall i, j | 0 <= i < j < |a| - 1 ensures a[1..][i].size >= a[1..][j].size {
      assert a[1..][i] == a[i + 1] && a[1..][j] == a[j + 1];
    }
  }

  lemma {:induction false} SameOfSizeSortedEqual(a: Table, b: Table)
    requires SortedBySizeDesc(a) && SortedBySizeDesc(b)
    requires forall k :: OfSize(a, k) == OfSize(b, k)
    ensures a == b
    decreases |a|
  {
    if a == [] || b == [] {
      if a != [] {
        HeadOfSize(a);
        assert false;
      } else if b != [] {
        HeadOfSize(b);
        assert false;
      }
    } else {
      var m := a[0].size;
      SameHeadSize(a, b);
      forall k ensures OfSize(a[1..], k) == OfSize(b[1..], k) {
        OfSizeTail(a, k);
        OfSizeTail(b, k);
      }
      SortedTail(a);
      SortedTail(b);
      SameOfSizeSortedEqual(a[1..], b[1..]);
      assert a == [a[0]] + a[1..] && b == [b[0]] + b[1..];
    }
  }

  /** The first `n` records of the sort are drawn from `t`. */
  lemma SortedPrefixDrawn(t: Table, n: nat)
    requires n <= |t|
    ensures multiset(SortBySizeDesc(t)[..n]) <= multiset(t)
  {
    PrefixMultiset(SortBySizeDesc(t), n);
  }

  /** No record the first `n` of the sort leave out is larger than one they keep. */
  lemma SortedPrefixLargest(t: Table, n: nat)
    requires n <= |t|
    ensures var r := SortBySizeDesc(t)[..n];
            forall x, y :: x in t && x !in r && y in r ==> x.size <= y.size
  {
    var sorted := SortBySizeDesc(t);
    var r := sorted[..n];
    forall x, y | x in t && x !in r && y in r ensures x.size <= y.size {
      assert x in multiset(t);
      assert x in multiset(sorted);
      var j :| 0 <= j < |sorted| && sorted[j] == x;
      var i :| 0 <= i < n && r[i] == y;
      assert sorted[i] == y;
    }
  }

  /** For every size, the first `n` records of the sort keep the first records of that size in `t`. */
  lemma SortedPrefixStable(t: Table, n: nat, k: nat)
    requires n <= |t|
    ensures OfSize(SortBySizeDesc(t)[..n], k) <= OfSize(t, k)
  {
    var sorted := SortBySizeDesc(t);
    assert sorted == sorted[..n] + sorted[n..];
    OfSizeAppend(sorted[..n], sorted[n..], k);
    SortIsStable(t, k);
  }

  /** Two records already in order sort to themselves. */
  lemma SortSortedPair(y: FileInfo, z: FileInfo)
    requires y.size >= z.size
    ensures SortBySizeDesc([y, z]) == [y, z]
  {
    assert [y, z][1..] == [z] && [z][1..] == [];
    assert SortBySizeDesc([z]) == [z];
  }

  /** A record smaller than both of a sorted pair is inserted after them. */
  lemma InsertSmallestLast(x: FileInfo, y: FileInfo, z: FileInfo)
    requires x.size < z.size <= y.size
    ensures InsertBySize(x, [y, z]) == [y, z, x]
  {
    assert [y, z][1..] == [z] && [z][1..] == [];
    assert InsertBySize(x, [z]) == [z, x];
  }
}
