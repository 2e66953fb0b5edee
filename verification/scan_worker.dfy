/**
 The background worker of a scan, run sequentially: the size pass, then the
 enumeration pass with its cancellation check before every file, its
 swallowed stat errors and its progress events, and finally the cleanup that
 runs on every exit path.
 */
module ScanWorker {
  import opened Wrappers
  import opened FileTable
  import opened Walk
  import opened DirectorySize

  /**
   The first argument of the progress callback. An intermediate event reports
   processed_size / total_size * 100, kept here as the exact pair; the final
   event passes the literal 100.
   */
  datatype Progress = Fraction(processed: nat, total: nat) | Hundred

  /** One callback invocation: the progress and the dictionary as it stands. */
  datatype Event = Event(progress: Progress, snapshot: Table)

  /**
   How the worker left its try block: the walk ran out, the scanning flag was
   seen false, or the progress division raised ZeroDivisionError.
   */
  datatype Exit = Completed | Cancelled | ZeroDivision

  /** The worker's locals during the enumeration pass. */
  datatype WalkState = WalkState(files: Table, processed: nat, events: seq<Event>)

  datatype Run = Run(state: WalkState, exit: Exit)

  /** Everything the worker leaves behind. */
  datatype Outcome = Outcome(files: Table, processed: nat, total: nat, events: seq<Event>, exit: Exit)

  /**
   The scanning flag is seen false before file `i`: `cancel` is the first file
   position at which the check reads false, and the flag stays false after.
   */
  predicate CancelSeen(cancel: Option<nat>, i: nat)
  {
    cancel.Some? && cancel.value <= i
  }

  /**
   The enumeration pass from file `i` on. Only a successful stat inserts a
   record, adds to processed_size and (with a callback) emits an event.
   */
  function WalkFrom(callback: bool, total: nat, walk: seq<Entry>, suffix: Suffix,
                    cancel: Option<nat>, i: nat, acc: WalkState): (r: Run)
    requires i <= |walk|
    ensures acc.processed <= r.state.processed
    ensures |acc.events| <= |r.state.events| && r.state.events[..|acc.events|] == acc.events
    ensures forall j :: |acc.events| <= j < |r.state.events| ==>
              r.state.events[j].progress.Fraction?
              && r.state.events[j].progress.total == total
              && acc.processed <= r.state.events[j].progress.processed <= r.state.processed
    ensures !callback ==> r.state.events == acc.events
    ensures r.exit == ZeroDivision ==> callback && total == 0
    ensures r.exit == Cancelled ==> CancelSeen(cancel, i) || (cancel.Some? && i < cancel.value < |walk|)
    decreases |walk| - i
  {
    if i == |walk| then Run(acc, Completed)
    else if CancelSeen(cancel, i) then Run(acc, Cancelled)
    else
      match walk[i].stat
      case None =>
        WalkFrom(callback, total, walk, suffix, cancel, i + 1, acc)
      case Some(_) =>
        var inserted := Insert(acc, RecordOf(walk[i], suffix));
        if callback && total == 0 then Run(inserted, ZeroDivision)
        else WalkFrom(callback, total, walk, suffix, cancel, i + 1, Report(callback, total, inserted))
  }

  /** From position `from` on, the events are fractions whose processed sizes never decrease. */
  predicate MonotoneFrom(events: seq<Event>, from: nat)
  {
    forall j, k :: from <= j < k < |events| ==>
      events[j].progress.Fraction? && events[k].progress.Fraction?
      && events[j].progress.processed <= events[k].progress.processed
  }

  /** Progress never goes back: the events of one pass report non-decreasing processed sizes. */
  lemma {:induction false} WalkFromMonotone(callback: bool, total: nat, walk: seq<Entry>, suffix: Suffix,
                                            cancel: Option<nat>, i: nat, acc: WalkState)
    requires i <= |walk|
    ensures MonotoneFrom(WalkFrom(callback, total, walk, suffix, cancel, i, acc).state.events, |acc.events|)
    decreases |walk| - i
  {
    if i < |walk| && !CancelSeen(cancel, i) {
      match walk[i].stat
      case None =>
        WalkFromMonotone(callback, total, walk, suffix, cancel, i + 1, acc);
        assert WalkFrom(callback, total, walk, suffix, cancel, i, acc)
            == WalkFrom(callback, total, walk, suffix, cancel, i + 1, acc);
      case Some(_) =>
        if !(callback && total == 0) {
          var next := Report(callback, total, Insert(acc, RecordOf(walk[i], suffix)));
          WalkFromMonotone(callback, total, walk, suffix, cancel, i + 1, next);
        }
    }
  }

  /** `file_sizes[file_path] = FileInfo(...)` followed by `processed_size += size`. */
  function Insert(acc: WalkState, rec: FileInfo): WalkState
  {
    WalkState(Put(acc.files, rec), acc.processed + rec.size, acc.events)
  }

  /** The progress callback after an insertion, when there is one. */
  function Report(callback: bool, total: nat, st: WalkState): WalkState
  {
    if callback then st.(events := st.events + [Event(Fraction(st.processed, total), st.files)]) else st
  }

  /**
   _scan_worker: the size pass gives total_size, the enumeration pass starts
   from the scanner's dictionary `start`, and the finally block emits
   (100, file_sizes) whatever the exit.
   */
  function Worker(callback: bool, sizePass: seq<Entry>, walk: seq<Entry>, suffix: Suffix,
                  cancel: Option<nat>, start: Table): (w: Outcome)
    ensures callback ==> |w.events| >= 1 && w.events[|w.events| - 1] == Event(Hundred, w.files)
    ensures callback ==> forall j :: 0 <= j < |w.events| - 1 ==> w.events[j].progress.Fraction?
    ensures !callback ==> w.events == []
    ensures forall j, k :: 0 <= j < k < |w.events| - 1 ==>
              w.events[j].progress.processed <= w.events[k].progress.processed
    ensures w.exit == ZeroDivision ==> callback && w.total == 0
  {
    var total := StattedTotal(sizePass);
    var run := WalkFrom(callback, total, walk, suffix, cancel, 0, WalkState(start, 0, []));
    WalkFromMonotone(callback, total, walk, suffix, cancel, 0, WalkState(start, 0, []));
    assert MonotoneFrom(run.state.events, 0);
    var final := if callback then [Event(Hundred, run.state.files)] else [];
    Outcome(run.state.files, run.state.processed, total, run.state.events + final, run.exit)
  }

  /** The number of files the enumeration pass reaches before the flag is seen false. */
  function Cut(walk: seq<Entry>, cancel: Option<nat>): (c: nat)
    ensures c <= |walk|
  {
    if cancel.Some? && cancel.value < |walk| then cancel.value else |walk|
  }

  /** The progress division is reached with total_size == 0. */
  predicate Faults(callback: bool, total: nat, walk: seq<Entry>, cancel: Option<nat>)
  {
    callback && total == 0 && Statted(walk[..Cut(walk, cancel)]) != {}
  }

  lemma StattedSnoc(walk: seq<Entry>, i: nat)
    requires i < |walk|
    ensures Statted(walk[..i + 1]) == Statted(walk[..i]) + (if walk[i].stat.Some? then {walk[i].path} else {})
  {
    assert walk[..i + 1] == walk[..i] + [walk[i]];
  }

  lemma StattedTotalSnoc(walk: seq<Entry>, i: nat)
    requires i < |walk|
    ensures StattedTotal(walk[..i + 1]) == StattedTotal(walk[..i]) + (if walk[i].stat.Some? then walk[i].stat.value else 0)
  {
    assert walk[..i + 1][..i] == walk[..i];
  }

  /** A statted file before the cut is among the statted paths the cut keeps. */
  lemma StattedBeforeCut(walk: seq<Entry>, cancel: Option<nat>, i: nat)
    requires i < Cut(walk, cancel) && walk[i].stat.Some?
    ensures walk[i].path in Statted(walk[..Cut(walk, cancel)])
  {
    assert walk[..Cut(walk, cancel)][i] == walk[i];
  }

  /**
   How the enumeration pass ends, for any walk: it faults exactly when a stat
   succeeds before the cut with a callback and a zero total, and otherwise it
   is cancelled exactly when the flag is seen false before the walk runs out.
   */
  lemma {:induction false} WalkFromExit(callback: bool, total: nat, walk: seq<Entry>, suffix: Suffix,
                                        cancel: Option<nat>, i: nat, acc: WalkState)
    requires i <= Cut(walk, cancel)
    requires callback && total == 0 ==> Statted(walk[..i]) == {}
    ensures var r := WalkFrom(callback, total, walk, suffix, cancel, i, acc);
            && (r.exit == ZeroDivision <==> Faults(callback, total, walk, cancel))
            && (r.exit == Cancelled <==> !Faults(callback, total, walk, cancel) && Cut(walk, cancel) < |walk|)
    decreases |walk| - i
  {
    var c := Cut(walk, cancel);
    if i == |walk| {
      assert walk[..i] == walk[..c];
    } else if CancelSeen(cancel, i) {
      assert i == c;
    } else {
      StattedSnoc(walk, i);
      var e := walk[i];
      if e.stat.None? {
        WalkFromExit(callback, total, walk, suffix, cancel, i + 1, acc);
      } else if callback && total == 0 {
        StattedBeforeCut(walk, cancel, i);
      } else {
        var next := Report(callback, total, Insert(acc, RecordOf(e, suffix)));
        WalkFromExit(callback, total, walk, suffix, cancel, i + 1, next);
      }
    }
  }

  /**
   Unless it faults, the enumeration pass leaves a dictionary whose keys are
   the statted paths before the cut, and a processed size that is their total.
   */
  lemma {:induction false} WalkFromKeys(callback: bool, total: nat, walk: seq<Entry>, suffix: Suffix,
                                        cancel: Option<nat>, i: nat, acc: WalkState)
    requires i <= Cut(walk, cancel)
    requires !Faults(callback, total, walk, cancel)
    requires Keys(acc.files) == Statted(walk[..i]) && acc.processed == StattedTotal(walk[..i])
    ensures var r := WalkFrom(callback, total, walk, suffix, cancel, i, acc);
            && Keys(r.state.files) == Statted(walk[..Cut(walk, cancel)])
            && r.state.processed == StattedTotal(walk[..Cut(walk, cancel)])
    decreases |walk| - i
  {
    var c := Cut(walk, cancel);
    if i == |walk| {
      assert walk[..i] == walk[..c];
    } else if CancelSeen(cancel, i) {
      assert i == c;
    } else {
      var e := walk[i];
      StattedSnoc(walk, i);
      StattedTotalSnoc(walk, i);
      if e.stat.None? {
        WalkFromKeys(callback, total, walk, suffix, cancel, i + 1, acc);
      } else {
        if callback && total == 0 {
          StattedBeforeCut(walk, cancel, i);
          assert false;
        }
        var rec := RecordOf(e, suffix);
        PutKeys(acc.files, rec);
        var next := Report(callback, total, Insert(acc, rec));
        WalkFromKeys(callback, total, walk, suffix, cancel, i + 1, next);
      }
    }
  }

  /**
   The events of an uninterrupted enumeration of `w`: one per statted file, in
   walk order, each carrying the processed size and the dictionary as they
   stand right after that file's insertion.
   */
  function ProgressEvents(w: seq<Entry>, total: nat, suffix: Suffix): (ev: seq<Event>)
    ensures |ev| == |RecordsOf(w, suffix)|
  {
    if w == [] then []
    else
      var init := w[..|w| - 1];
      var last := w[|w| - 1];
      assert w == init + [last];
      ProgressEvents(init, total, suffix)
        + (if last.stat.Some? then [Event(Fraction(StattedTotal(w), total), RecordsOf(w, suffix))] else [])
  }

  /**
   The j-th intermediate event of an uninterrupted enumeration shows the first
   j + 1 records and their total size: an event follows each insertion and
   nothing else.
   */
  lemma {:induction false} ProgressEventsShape(w: seq<Entry>, total: nat, suffix: Suffix)
    ensures forall j :: 0 <= j < |ProgressEvents(w, total, suffix)| ==>
              ProgressEvents(w, total, suffix)[j]
                == Event(Fraction(SumOfSizes(RecordsOf(w, suffix)[..j + 1]), total), RecordsOf(w, suffix)[..j + 1])
  {
    if w != [] {
      var init := w[..|w| - 1];
      var last := w[|w| - 1];
      assert w == init + [last];
      ProgressEventsShape(init, total, suffix);
      var ev := ProgressEvents(w, total, suffix);
      var ev0 := ProgressEvents(init, total, suffix);
      var t := RecordsOf(w, suffix);
      var t0 := RecordsOf(init, suffix);
      if last.stat.Some? {
        TotalIsSumOfRecords(w, suffix);
      }
      forall j | 0 <= j < |ev|
        ensures ev[j] == Event(Fraction(SumOfSizes(t[..j + 1]), total), t[..j + 1])
      {
        if j < |ev0| {
          assert ev[j] == ev0[j];
          assert ev0[j] == Event(Fraction(SumOfSizes(t0[..j + 1]), total), t0[..j + 1]);
          assert t[..j + 1] == t0[..j + 1];
        } else {
          assert last.stat.Some? && t == t0 + [RecordOf(last, suffix)];
          assert ev[j] == Event(Fraction(StattedTotal(w), total), t);
          assert t[..j + 1] == t;
        }
      }
    }
  }

  /** The worker's locals once it has gone through the files of `w`. */
  function Expected(callback: bool, total: nat, w: seq<Entry>, suffix: Suffix): WalkState
  {
    WalkState(RecordsOf(w, suffix), StattedTotal(w), if callback then ProgressEvents(w, total, suffix) else [])
  }

  /** With distinct walk paths, file `i` is not yet a key after the files before it. */
  lemma NotStattedBefore(walk: seq<Entry>, i: nat)
    requires DistinctPaths(walk) && i < |walk|
    ensures walk[i].path !in Statted(walk[..i])
  {
  }

  /** Going past a file whose stat fails changes none of the worker's locals. */
  lemma ExpectedSkip(callback: bool, total: nat, walk: seq<Entry>, suffix: Suffix, i: nat)
    requires i < |walk| && walk[i].stat.None?
    ensures Expected(callback, total, walk[..i + 1], suffix) == Expected(callback, total, walk[..i], suffix)
  {
    assert walk[..i + 1][..i] == walk[..i];
  }

  /** Going past a statted file appends its record: with distinct paths it is a new key. */
  lemma RecordsOfInsert(walk: seq<Entry>, suffix: Suffix, i: nat)
    requires DistinctPaths(walk) && i < |walk| && walk[i].stat.Some?
    ensures RecordsOf(walk[..i + 1], suffix) == Put(RecordsOf(walk[..i], suffix), RecordOf(walk[i], suffix))
  {
    var w := walk[..i + 1];
    assert w[..|w| - 1] == walk[..i] && w[|w| - 1] == walk[i];
    NotStattedBefore(walk, i);
    PutNew(RecordsOf(walk[..i], suffix), RecordOf(walk[i], suffix));
  }

  /** Going past a statted file emits one event with the new processed size and dictionary. */
  lemma ProgressEventsInsert(walk: seq<Entry>, total: nat, suffix: Suffix, i: nat)
    requires i < |walk| && walk[i].stat.Some?
    ensures var w := walk[..i + 1];
            ProgressEvents(w, total, suffix)
              == ProgressEvents(walk[..i], total, suffix) + [Event(Fraction(StattedTotal(w), total), RecordsOf(w, suffix))]
  {
    var w := walk[..i + 1];
    assert w[..|w| - 1] == walk[..i] && w[|w| - 1] == walk[i];
  }

  /** Going past a statted file inserts its record, adds its size and emits one event. */
  lemma ExpectedInsert(callback: bool, total: nat, walk: seq<Entry>, suffix: Suffix, i: nat)
    requires DistinctPaths(walk) && i < |walk| && walk[i].stat.Some?
    ensures Expected(callback, total, walk[..i + 1], suffix)
         == Report(callback, total, Insert(Expected(callback, total, walk[..i], suffix), RecordOf(walk[i], suffix)))
  {
    RecordsOfInsert(walk, suffix, i);
    StattedTotalSnoc(walk, i);
    ProgressEventsInsert(walk, total, suffix, i);
  }

  /**
   With distinct walk paths and no fault, the enumeration pass leaves exactly
   the records, processed size and events of the files before the cut.
   */
  lemma {:induction false} WalkFromExact(callback: bool, total: nat, walk: seq<Entry>, suffix: Suffix,
                                         cancel: Option<nat>, i: nat, acc: WalkState)
    requires DistinctPaths(walk)
    requires i <= Cut(walk, cancel)
    requires !Faults(callback, total, walk, cancel)
    requires acc == Expected(callback, total, walk[..i], suffix)
    ensures WalkFrom(callback, total, walk, suffix, cancel, i, acc).state
         == Expected(callback, total, walk[..Cut(walk, cancel)], suffix)
    decreases |walk| - i
  {
    var c := Cut(walk, cancel);
    if i == |walk| {
      assert walk[..i] == walk[..c];
    } else if CancelSeen(cancel, i) {
      assert i == c;
    } else {
      var e := walk[i];
      if e.stat.None? {
        ExpectedSkip(callback, total, walk, suffix, i);
        WalkFromExact(callback, total, walk, suffix, cancel, i + 1, acc);
      } else {
        if callback && total == 0 {
          StattedBeforeCut(walk, cancel, i);
          assert false;
        }
        ExpectedInsert(callback, total, walk, suffix, i);
        var next := Expected(callback, total, walk[..i + 1], suffix);
        WalkFromExact(callback, total, walk, suffix, cancel, i + 1, next);
      }
    }
  }

  /** The enumeration pass never gives two records the same key. */
  lemma {:induction false} WalkFromDistinct(callback: bool, total: nat, walk: seq<Entry>, suffix: Suffix,
                                            cancel: Option<nat>, i: nat, acc: WalkState)
    requires i <= |walk|
    ensures Distinct(acc.files) ==> Distinct(WalkFrom(callback, total, walk, suffix, cancel, i, acc).state.files)
    decreases |walk| - i
  {
    if Distinct(acc.files) && i < |walk| && !CancelSeen(cancel, i) {
      if walk[i].stat.None? {
        WalkFromDistinct(callback, total, walk, suffix, cancel, i + 1, acc);
      } else {
        PutDistinct(acc.files, RecordOf(walk[i], suffix));
        if !(callback && total == 0) {
          var next := Report(callback, total, Insert(acc, RecordOf(walk[i], suffix)));
          WalkFromDistinct(callback, total, walk, suffix, cancel, i + 1, next);
        }
      }
    }
  }

  /**
   With a callback and a zero total, no intermediate event is ever emitted,
   and a fault leaves the dictionary with exactly one more assignment: that of
   the first statted file from `i` on.
   */
  lemma {:induction false} WalkFromFault(walk: seq<Entry>, suffix: Suffix, cancel: Option<nat>, i: nat, acc: WalkState)
    requires i <= |walk|
    ensures var r := WalkFrom(true, 0, walk, suffix, cancel, i, acc);
            && r.state.events == acc.events
            && (r.exit == ZeroDivision ==>
                  exists k :: i <= k < Cut(walk, cancel) && walk[k].stat.Some?
                              && (forall j :: i <= j < k ==> walk[j].stat.None?)
                              && r.state.files == Put(acc.files, RecordOf(walk[k], suffix))
                              && r.state.processed == acc.processed + walk[k].stat.value)
    decreases |walk| - i
  {
    if i < |walk| && !CancelSeen(cancel, i) {
      if walk[i].stat.None? {
        WalkFromFault(walk, suffix, cancel, i + 1, acc);
      } else {
        assert i < Cut(walk, cancel);
      }
    }
  }

  /** Worker: which exit the try block takes, for every walk and cancellation point. */
  lemma WorkerExit(callback: bool, sizePass: seq<Entry>, walk: seq<Entry>, suffix: Suffix,
                   cancel: Option<nat>, start: Table)
    ensures var w := Worker(callback, sizePass, walk, suffix, cancel, start);
            var faults := Faults(callback, w.total, walk, cancel);
            && (w.exit == ZeroDivision <==> faults)
            && (w.exit == Cancelled <==> !faults && Cut(walk, cancel) < |walk|)
            && (w.exit == Completed <==> !faults && Cut(walk, cancel) == |walk|)
  {
    assert walk[..0] == [];
    WalkFromExit(callback, StattedTotal(sizePass), walk, suffix, cancel, 0, WalkState(start, 0, []));
  }

  /**
   Worker, started on an emptied dictionary with no fault: the keys are
   exactly the statted paths before the cut (all of them when the walk is not
   cancelled), none after it, and processed_size is their total size.
   */
  lemma WorkerKeys(callback: bool, sizePass: seq<Entry>, walk: seq<Entry>, suffix: Suffix, cancel: Option<nat>)
    requires !Faults(callback, StattedTotal(sizePass), walk, cancel)
    ensures var w := Worker(callback, sizePass, walk, suffix, cancel, []);
            && Keys(w.files) == Statted(walk[..Cut(walk, cancel)])
            && w.processed == StattedTotal(walk[..Cut(walk, cancel)])
            && Distinct(w.files)
  {
    assert walk[..0] == [];
    var acc := WalkState([], 0, []);
    WalkFromKeys(callback, StattedTotal(sizePass), walk, suffix, cancel, 0, acc);
    WalkFromDistinct(callback, StattedTotal(sizePass), walk, suffix, cancel, 0, acc);
  }

  /**
   Worker over a walk without repeated paths and with no fault: the
   dictionary holds one record per statted file before the cut, in walk order
   (path, stat size, suffix); one event per such record precedes the final
   (100, file_sizes).
   */
  lemma WorkerRecords(callback: bool, sizePass: seq<Entry>, walk: seq<Entry>, suffix: Suffix, cancel: Option<nat>)
    requires DistinctPaths(walk)
    requires !Faults(callback, StattedTotal(sizePass), walk, cancel)
    ensures var w := Worker(callback, sizePass, walk, suffix, cancel, []);
            var done := walk[..Cut(walk, cancel)];
            && w.files == RecordsOf(done, suffix)
            && w.processed == StattedTotal(done)
            && w.events == (if callback then ProgressEvents(done, w.total, suffix) + [Event(Hundred, w.files)] else [])
  {
    assert walk[..0] == [];
    WalkFromExact(callback, StattedTotal(sizePass), walk, suffix, cancel, 0, WalkState([], 0, []));
  }

  /**
   Worker with a callback and a zero total that reaches a statted file: the
   first statted file before the cut is recorded, then the division raises;
   the only event is the final (100, file_sizes).
   */
  lemma WorkerZeroDivision(sizePass: seq<Entry>, walk: seq<Entry>, suffix: Suffix, cancel: Option<nat>)
    requires Faults(true, StattedTotal(sizePass), walk, cancel)
    ensures var w := Worker(true, sizePass, walk, suffix, cancel, []);
            && w.exit == ZeroDivision
            && |w.files| == 1
            && w.events == [Event(Hundred, w.files)]
            && exists k :: 0 <= k < Cut(walk, cancel) && walk[k].stat.Some?
                           && (forall j :: 0 <= j < k ==> walk[j].stat.None?)
                           && w.files == [RecordOf(walk[k], suffix)]
  {
    WorkerExit(true, sizePass, walk, suffix, cancel, []);
    WalkFromFault(walk, suffix, cancel, 0, WalkState([], 0, []));
  }

  /** The size of one statted file never exceeds the walk's total. */
  lemma StattedSizeBounded(walk: seq<Entry>, k: nat)
    requires k < |walk| && walk[k].stat.Some?
    ensures walk[k].stat.value <= StattedTotal(walk)
  {
    StattedTotalSnoc(walk, k);
    PrefixTotalBounded(walk, k + 1);
  }

  /**
   When both passes see the same stat outcomes, no event reports more than
   the total, and an uncancelled run ends with processed_size == total_size.
   This holds on the fault exit too, where the total is 0.
   */
  lemma IdenticalPassesReachTotal(callback: bool, walk: seq<Entry>, suffix: Suffix, cancel: Option<nat>)
    ensures var w := Worker(callback, walk, walk, suffix, cancel, []);
            && w.processed <= w.total
            && (w.exit == Completed ==> w.processed == w.total)
            && forall j :: 0 <= j < |w.events| - 1 ==> w.events[j].progress.processed <= w.total
  {
    WorkerExit(callback, walk, walk, suffix, cancel, []);
    if Faults(callback, StattedTotal(walk), walk, cancel) {
      WalkFromFault(walk, suffix, cancel, 0, WalkState([], 0, []));
      var w := Worker(callback, walk, walk, suffix, cancel, []);
      var k :| 0 <= k < Cut(walk, cancel) && walk[k].stat.Some? && w.processed == walk[k].stat.value;
      StattedSizeBounded(walk, k);
    } else {
      WorkerKeys(callback, walk, walk, suffix, cancel);
      PrefixTotalBounded(walk, Cut(walk, cancel));
      assert walk[..|walk|] == walk;
    }
  }

  /** An empty tree: no division, and the only event is (100, {}). */
  lemma EmptyTreeReportsHundred(suffix: Suffix, cancel: Option<nat>)
    ensures Worker(true, [], [], suffix, cancel, []) == Outcome([], 0, 0, [Event(Hundred, [])], Completed)
  {
  }

  /** A tree whose only file is empty: the division by the zero total raises. */
  lemma EmptyFileRaises(suffix: Suffix)
    ensures var es := [Entry("d/empty", Some(0))];
            var w := Worker(true, es, es, suffix, None, []);
            && w.exit == ZeroDivision
            && w.files == [FileInfo("d/empty", 0, suffix("d/empty"))]
            && w.events == [Event(Hundred, w.files)]
  {
  }

  /** Files that grow between the passes make an event report more than 100. */
  lemma DriftOvershoots(suffix: Suffix)
    ensures var w := Worker(true, [Entry("d/a", Some(1))], [Entry("d/a", Some(2))], suffix, None, []);
            w.events[0].progress == Fraction(2, 1)
  {
  }
}
