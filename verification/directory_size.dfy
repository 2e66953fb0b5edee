/**
 The first pass of a scan: the total size of the files under the root, where
 a file whose stat fails counts 0 and does not stop the walk.
 */
module DirectorySize {
  import opened Wrappers
  import opened FileTable
  import opened Walk

  /**
   get_directory_size over the entries of a walk, one file at a time: a
   failing stat is swallowed and the loop continues with the next file.
   */
  method GetDirectorySize(entries: seq<Entry>) returns (total: nat)
    ensures total == StattedTotal(entries)
  {
    total := 0;
    var i := 0;
    while i < |entries|
      invariant i <= |entries|
      invariant total == StattedTotal(entries[..i])
    {
      assert entries[..i + 1][..i] == entries[..i];
      match entries[i].stat {
        case Some(size) =>
          total := total + size;
        case None =>
      }
      i := i + 1;
    }
    assert entries[..i] == entries;
  }

  /** The total of two consecutive stretches of a walk is the sum of their totals. */
  lemma {:induction false} StattedTotalAppend(a: seq<Entry>, b: seq<Entry>)
    ensures StattedTotal(a + b) == StattedTotal(a) + StattedTotal(b)
    decreases |b|
  {
    if b != [] {
      var init := b[..|b| - 1];
      assert (a + b)[..|a + b| - 1] == a + init;
      StattedTotalAppend(a, init);
    } else {
      assert a + b == a;
    }
  }

  /** A file whose stat fails, anywhere in the walk, leaves the total unchanged. */
  lemma FailedEntryAddsNothing(a: seq<Entry>, p: Path, b: seq<Entry>)
    ensures StattedTotal(a + [Entry(p, None)] + b) == StattedTotal(a + b)
  {
    StattedTotalAppend(a + [Entry(p, None)], b);
    StattedTotalAppend(a, [Entry(p, None)]);
    StattedTotalAppend(a, b);
    assert [Entry(p, None)][..0] == [];
  }

  /** A walk in which every stat fails totals 0. */
  lemma {:induction false} AllFailedTotalsZero(es: seq<Entry>)
    requires forall i :: 0 <= i < |es| ==> es[i].stat.None?
    ensures StattedTotal(es) == 0
  {
    if es != [] {
      AllFailedTotalsZero(es[..|es| - 1]);
    }
  }

  /** A prefix of the walk never totals more than the whole walk. */
  lemma PrefixTotalBounded(es: seq<Entry>, i: nat)
    requires i <= |es|
    ensures StattedTotal(es[..i]) <= StattedTotal(es)
  {
    StattedTotalAppend(es[..i], es[i..]);
    assert es[..i] + es[i..] == es;
  }

  /** The total is the sum of the sizes of the records a scan of the same walk builds. */
  lemma {:induction false} TotalIsSumOfRecords(es: seq<Entry>, suffix: Suffix)
    ensures StattedTotal(es) == SumOfSizes(RecordsOf(es, suffix))
  {
    if es != [] {
      var init := es[..|es| - 1];
      TotalIsSumOfRecords(init, suffix);
      var last := es[|es| - 1];
      if last.stat.Some? {
        SumOfSizesAppend(RecordsOf(init, suffix), [RecordOf(last, suffix)]);
      }
    }
  }

  /** The sum of the sizes of a table's records. */
  function SumOfSizes(t: Table): nat
  {
    if t == [] then 0 else t[0].size + SumOfSizes(t[1..])
  }

  /** The sum over two consecutive stretches of a table is the sum of their sums. */
  lemma {:induction false} SumOfSizesAppend(a: Table, b: Table)
    ensures SumOfSizes(a + b) == SumOfSizes(a) + SumOfSizes(b)
  {
    if a != [] {
      assert (a + b)[1..] == a[1..] + b;
      SumOfSizesAppend(a[1..], b);
    } else {
      assert a + b == b;
    }
  }
}
