/**
 The DiskScanner object as a state record with pure transitions. A scan is
 run sequentially: scan_directory starts it, the worker runs to one of its
 exits, and stop_scan's effect on a running worker is the cancellation
 point handed to the worker.
 */
module DiskScanner {
  import opened Wrappers
  import opened FileTable
  import opened Walk
  import opened ScanWorker
  import opened SizeOrder

  /** The default `limit` of get_largest_files. */
  const DefaultLimit: nat := 100

  /**
   A scanner: whether a progress callback is registered, the scanning flag,
   the results dictionary, and the handle of the last worker thread, which is
   abstracted to the root that worker was started on.
   */
  datatype Scanner = Scanner(callback: bool, scanning: bool, fileSizes: Table, thread: Option<Path>)

  /** The two walks a scan makes of its root: the size pass and the enumeration pass. */
  datatype Tree = Tree(sizePass: seq<Entry>, walk: seq<Entry>)

  /**
   What one scan_directory call leads to: the scanner once the worker has
   exited, the callback invocations in order, and the worker's exit (None
   when no worker was started).
   */
  datatype Session = Session(scanner: Scanner, events: seq<Event>, exit: Option<Exit>)

  /** The scanner's invariant: keys are unique, and a running scan has a worker. */
  predicate Valid(s: Scanner)
  {
    Distinct(s.fileSizes) && (s.scanning ==> s.thread.Some?)
  }

  function Min(a: nat, b: nat): nat
  {
    if a <= b then a else b
  }

  /** DiskScanner.__init__. */
  function Init(callback: bool := false): (s: Scanner)
    ensures Valid(s) && !s.scanning && s.fileSizes == [] && s.callback == callback
  {
    Scanner(callback, false, [], None)
  }

  /**
   scan_directory: a call while a scan is running changes nothing; otherwise
   the flag is raised and the dictionary emptied before the worker starts.
   */
  function ScanDirectory(s: Scanner, root: Path): (r: Scanner)
    ensures s.scanning ==> r == s
    ensures !s.scanning ==> r.scanning && r.fileSizes == [] && r.thread == Some(root)
    ensures r.callback == s.callback
    ensures Valid(s) ==> Valid(r)
  {
    if s.scanning then s
    else s.(scanning := true, fileSizes := [], thread := Some(root))
  }

  /**
   The worker thread of a started scanner, up to and including its finally
   block: whatever the exit, the flag ends false and, with a callback, the
   last event is (100, file_sizes) and every earlier one is intermediate.
   */
  function RunWorker(s: Scanner, tree: Tree, suffix: Suffix, cancel: Option<nat>): (r: Session)
    requires s.scanning
    ensures !r.scanner.scanning && r.exit.Some?
    ensures r.scanner.callback == s.callback && r.scanner.thread == s.thread
    ensures s.callback ==> |r.events| >= 1 && r.events[|r.events| - 1] == Event(Hundred, r.scanner.fileSizes)
    ensures s.callback ==> forall j :: 0 <= j < |r.events| - 1 ==> r.events[j].progress.Fraction?
    ensures !s.callback ==> r.events == []
    ensures Distinct(s.fileSizes) ==> Distinct(r.scanner.fileSizes)
  {
    var w := Worker(s.callback, tree.sizePass, tree.walk, suffix, cancel, s.fileSizes);
    WalkFromDistinct(s.callback, w.total, tree.walk, suffix, cancel, 0, WalkState(s.fileSizes, 0, []));
    Session(s.(scanning := false, fileSizes := w.files), w.events, Some(w.exit))
  }

  /** scan_directory followed by its worker's whole run. */
  function Scan(s: Scanner, root: Path, tree: Tree, suffix: Suffix, cancel: Option<nat>): (r: Session)
    ensures s.scanning ==> r == Session(s, [], None)
    ensures !s.scanning ==> !r.scanner.scanning && r.scanner.thread == Some(root) && r.exit.Some?
    ensures !s.scanning && s.callback ==>
              |r.events| >= 1 && r.events[|r.events| - 1] == Event(Hundred, r.scanner.fileSizes)
    ensures Valid(s) ==> Valid(r.scanner)
  {
    if s.scanning then Session(s, [], None)
    else RunWorker(ScanDirectory(s, root), tree, suffix, cancel)
  }

  /**
   stop_scan: the flag ends false, nothing else changes, and stopping a
   scanner that is not scanning is a no-op (so stopping twice is stopping once).
   */
  function StopScan(s: Scanner): (r: Scanner)
    ensures !r.scanning
    ensures r.fileSizes == s.fileSizes && r.thread == s.thread && r.callback == s.callback
    ensures !s.scanning ==> r == s
    ensures Valid(s) ==> Valid(r)
  {
    s.(scanning := false)
  }

  /**
   get_largest_files: at most `limit` records, taken from the dictionary,
   largest first, none left out larger than one kept, and for every size the
   records kept are the first ones of that size in insertion order.
   */
  function GetLargestFiles(s: Scanner, limit: nat := DefaultLimit): (r: Table)
    ensures |r| == Min(limit, |s.fileSizes|)
    ensures multiset(r) <= multiset(s.fileSizes)
    ensures SortedBySizeDesc(r)
    ensures forall x, y :: x in s.fileSizes && x !in r && y in r ==> x.size <= y.size
    ensures forall k :: OfSize(r, k) <= OfSize(s.fileSizes, k)
  {
    var n := Min(limit, |s.fileSizes|);
    SortedPrefixDrawn(s.fileSizes, n);
    SortedPrefixLargest(s.fileSizes, n);
    assert forall k :: OfSize(SortBySizeDesc(s.fileSizes)[..n], k) <= OfSize(s.fileSizes, k) by {
      forall k ensures OfSize(SortBySizeDesc(s.fileSizes)[..n], k) <= OfSize(s.fileSizes, k) {
        SortedPrefixStable(s.fileSizes, n, k);
      }
    }
    SortBySizeDesc(s.fileSizes)[..n]
  }

  /**
   A new scan discards the previous results wholesale: two idle scanners with
   the same callback setting end a scan of the same tree with the same
   dictionary, events and exit, whatever they held before.
   */
  lemma ScanForgetsEarlierResults(s1: Scanner, s2: Scanner, root: Path, tree: Tree, suffix: Suffix, cancel: Option<nat>)
    requires !s1.scanning && !s2.scanning && s1.callback == s2.callback
    ensures var r1 := Scan(s1, root, tree, suffix, cancel);
            var r2 := Scan(s2, root, tree, suffix, cancel);
            r1 == r2
  {
  }

  /**
   After a scan that ran to the end of the walk, the dictionary's keys are
   exactly the walked paths whose stat succeeded.
   */
  lemma CompletedScanKeys(s: Scanner, root: Path, tree: Tree, suffix: Suffix, cancel: Option<nat>)
    requires !s.scanning
    requires Scan(s, root, tree, suffix, cancel).exit == Some(Completed)
    ensures Keys(Scan(s, root, tree, suffix, cancel).scanner.fileSizes) == Statted(tree.walk)
  {
    WorkerExit(s.callback, tree.sizePass, tree.walk, suffix, cancel, []);
    WorkerKeys(s.callback, tree.sizePass, tree.walk, suffix, cancel);
    assert tree.walk[..|tree.walk|] == tree.walk;
  }

  /**
   After a scan that ran to the end of a walk without repeated paths, the
   dictionary holds, in walk order, one record per statted file: its path, its
   stat size and its suffix.
   */
  lemma CompletedScanRecords(s: Scanner, root: Path, tree: Tree, suffix: Suffix, cancel: Option<nat>)
    requires !s.scanning && DistinctPaths(tree.walk)
    requires Scan(s, root, tree, suffix, cancel).exit == Some(Completed)
    ensures var files := Scan(s, root, tree, suffix, cancel).scanner.fileSizes;
            && files == RecordsOf(tree.walk, suffix)
            && forall r :: r in files ==> r.fileType == suffix(r.path) && Entry(r.path, Some(r.size)) in tree.walk
  {
    WorkerExit(s.callback, tree.sizePass, tree.walk, suffix, cancel, []);
    WorkerRecords(s.callback, tree.sizePass, tree.walk, suffix, cancel);
    assert tree.walk[..|tree.walk|] == tree.walk;
  }

  /**
   stop_scan seen by the worker before file `c`: unless the division fault
   came first, the worker exits as cancelled, the dictionary holds exactly the
   records of the files before `c`, no file from `c` on has a key, and the
   final (100, file_sizes) event is still emitted.
   */
  lemma StopMidScanKeepsPrefix(s: Scanner, root: Path, tree: Tree, suffix: Suffix, c: nat)
    requires !s.scanning && DistinctPaths(tree.walk) && c < |tree.walk|
    requires !Faults(s.callback, StattedTotal(tree.sizePass), tree.walk, Some(c))
    ensures var r := Scan(s, root, tree, suffix, Some(c));
            && r.exit == Some(Cancelled)
            && !r.scanner.scanning
            && r.scanner.fileSizes == RecordsOf(tree.walk[..c], suffix)
            && (forall j :: c <= j < |tree.walk| ==> tree.walk[j].path !in Keys(r.scanner.fileSizes))
            && (s.callback ==> r.events[|r.events| - 1] == Event(Hundred, r.scanner.fileSizes))
  {
    WorkerExit(s.callback, tree.sizePass, tree.walk, suffix, Some(c), []);
    WorkerRecords(s.callback, tree.sizePass, tree.walk, suffix, Some(c));
  }

  /**
   Records of equal size come out in the order they were inserted, whatever
   their paths: of `x` then `y` then `z`, with `y` and `z` tied above `x`,
   the two largest are `y` then `z`.
   */
  lemma TiesKeepInsertionOrder(callback: bool, x: FileInfo, y: FileInfo, z: FileInfo)
    requires y.size == z.size && x.size < y.size
    ensures GetLargestFiles(Scanner(callback, false, [x, y, z], None), 2) == [y, z]
  {
    SortSortedPair(y, z);
    InsertSmallestLast(x, y, z);
    assert [x, y, z][1..] == [y, z];
    assert SortBySizeDesc([x, y, z]) == [y, z, x];
    assert [y, z, x][..2] == [y, z];
  }
}
