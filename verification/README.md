# Disk scanner core in Dafny

This project models the scanning engine of a small disk-usage analyser and
proves properties of the model. The engine is the `DiskScanner` class with
its `FileInfo` record, plus two pure helpers: `format_size`, which chooses a
size unit, and `get_file_type_icon`, which looks up an icon by extension.

The scan is modelled sequentially and functionally:

- **Walk** (`walk.dfy`): the filesystem is a sequence of entries in walk
  order. Each entry is a path and the outcome of stat'ing it, where `None`
  stands for an `OSError`. The suffix of a path is a function supplied by the
  caller.
- **FileTable** (`file_table.dfy`): the results dictionary is an
  insertion-ordered table of `FileInfo` records. Assignment replaces an
  existing key in place and appends a new one, as a Python dict does.
- **DirectorySize** (`directory_size.dfy`): the first pass, which totals the
  sizes whose stat succeeds.
- **ScanWorker** (`scan_worker.dfy`): the worker, a pure function of the
  size pass, the enumeration pass, and the cancellation point. The
  cancellation point is the first file position at which the worker reads the
  `scanning` flag as false. The worker returns:
  - the dictionary;
  - `processed_size`;
  - the size pass's total;
  - the progress events in order;
  - how the try block was left: completed, cancelled, or `ZeroDivisionError`.
- **DiskScanner** (`disk_scanner.dfy`): the scanner object as a state record
  with pure transitions for `__init__`, `scan_directory`, the worker run,
  `stop_scan` and `get_largest_files`.
- **SizeOrder** (`size_order.dfy`): Python's stable `sorted` by size,
  descending, as an insertion sort. Records of equal size keep their order.
- **SizeUnits** (`format_size.dfy`): the unit-selection loop of
  `format_size`, over exact reals.
- **FileIcons** (`file_icons.dfy`): the extension table and its
  case-insensitive lookup, with abstract icon tokens.

Behaviour worth noting, as the code has it:

- **Ties:** records of equal size come out in insertion (walk) order. No path
  tie-break is applied.
- **Final event:** the `finally` block emits `(100, file_sizes)` on every
  exit, including after a cancellation and after an exception.
- **Bad root:** a root that cannot be walked is not an error. `os.walk`
  yields nothing, so the walk is empty.
- **No clamp:** the progress value is not clamped. Files that grow between the
  two passes report more than 100 (`ScanWorker.DriftOvershoots`).
- **Zero total:** a callback with a zero total raises `ZeroDivisionError` at
  the first recorded file, for example in a directory that holds only empty
  files. The `except` clause does not catch it. The model carries this exit
  explicitly (`ScanWorker.Faults`).

## Model

| member | source | states |
|---|---|---|
| DirectorySize.GetDirectorySize | disk_scanner.py:20-29 | The loop's result is the sum of the sizes of exactly the entries whose stat succeeds. A failing stat contributes nothing and does not stop the loop. |
| DirectorySize.StattedTotalAppend | disk_scanner.py:20-29 | The total over two consecutive stretches of a walk is the sum of their totals. |
| DirectorySize.FailedEntryAddsNothing | disk_scanner.py:25-28 | Inserting a file whose stat fails anywhere in a walk leaves the total unchanged. |
| DirectorySize.AllFailedTotalsZero | disk_scanner.py:20-29 | A walk in which every stat fails totals 0. |
| DirectorySize.PrefixTotalBounded | disk_scanner.py:20-29 | The files before any point of the walk never total more than the whole walk. |
| DirectorySize.TotalIsSumOfRecords | disk_scanner.py:20-29 | The size pass's total equals the sum of the sizes of the records that an enumeration of the same walk builds. |
| FileTable.Put | disk_scanner.py:54-58 | Dict assignment `file_sizes[rec.path] = rec`: the assigned record is in the result and every other record was already there. An existing key keeps its position and takes the new value (`FileTable.PutExisting`), and a new key is appended last (`FileTable.PutNew`). Lookups follow `FileTable.PutGet` and `FileTable.PutOther`. |
| FileTable.PutExisting | disk_scanner.py:54-58 | Re-assigning a key updates its record in place. The result is the table with only the first record of that key replaced, so the order of insertion is unchanged. |
| FileTable.PutGet | disk_scanner.py:54-58 | After `file_sizes[p] = rec`, looking up `p` gives `rec`. |
| FileTable.PutOther | disk_scanner.py:54-58 | Assigning one key leaves the lookup of every other key unchanged. |
| FileTable.PutKeys | disk_scanner.py:54-58 | Assignment adds exactly its key to the key set. |
| FileTable.PutNew | disk_scanner.py:54-58 | A new key is appended after every earlier insertion, so insertion order is walk order. |
| FileTable.PutLength | disk_scanner.py:54-58 | Re-assigning an existing key does not grow the dictionary. |
| FileTable.PutDistinct | disk_scanner.py:54-58 | Assignment keeps keys unique. |
| Walk.RecordsOf | disk_scanner.py:50-58 | The records of a walk's statted files have exactly the statted paths as keys. There are no more records than files. Each record carries its path's stat size and its path's suffix. |
| Walk.RecordsOfDistinct | disk_scanner.py:45-58 | A walk without repeated paths gives a dictionary without repeated keys. |
| ScanWorker.WalkFrom | disk_scanner.py:45-66 | The enumeration pass only appends events. Each new event is an intermediate fraction over the size pass's total, and `processed_size` never decreases. There are no events without a callback. The fault exit needs a callback and a zero total. The cancel exit needs the flag to be seen false. |
| ScanWorker.WalkFromMonotone | disk_scanner.py:59-63 | The intermediate events report non-decreasing processed sizes. |
| ScanWorker.Worker | disk_scanner.py:40-71 | On every exit with a callback, the last event is `(100, file_sizes)` and every earlier event is an intermediate fraction, with non-decreasing processed sizes. Without a callback there are no events. The fault needs a zero total. |
| ScanWorker.WalkFromExit | disk_scanner.py:45-66 | The pass faults exactly when a stat succeeds before the cut, with a callback and a zero total. Otherwise it is cancelled exactly when the flag is seen false before the walk runs out. |
| ScanWorker.WalkFromKeys | disk_scanner.py:45-59 | Unless the pass faults, the keys are exactly the statted paths before the cut, and `processed_size` is their total. |
| ScanWorker.ProgressEventsShape | disk_scanner.py:59-63 | The j-th intermediate event of an uninterrupted enumeration shows the first j+1 records and the sum of their sizes. |
| ScanWorker.WalkFromExact | disk_scanner.py:45-63 | With distinct paths and no fault, the pass leaves exactly the records, processed size and events of the files before the cut. |
| ScanWorker.WalkFromDistinct | disk_scanner.py:54-58 | The enumeration pass never gives two records the same key. |
| ScanWorker.WalkFromFault | disk_scanner.py:59-66 | With a callback and a zero total, no intermediate event is emitted. A fault happens right after the first statted file is assigned and added to `processed_size`. |
| ScanWorker.WorkerExit | disk_scanner.py:40-71 | For every walk and cancellation point, each of the three exits is characterised by an if-and-only-if. |
| ScanWorker.WorkerKeys | disk_scanner.py:40-59 | Started on an emptied dictionary with no fault, the keys are exactly the statted paths before the cut, `processed_size` is their total, and the keys are unique. |
| ScanWorker.WorkerRecords | disk_scanner.py:40-71 | With distinct paths and no fault, the dictionary holds the records of the files before the cut in walk order. One event follows each record, and `(100, file_sizes)` comes last. |
| ScanWorker.WorkerZeroDivision | disk_scanner.py:61-71 | On a fault, the dictionary holds exactly one record: that of the first statted file, which lies before the cut. The only event is the final `(100, file_sizes)`. |
| ScanWorker.IdenticalPassesReachTotal | disk_scanner.py:42-63 | For every run whose two passes see the same stats, no event reports more than the total and `processed_size` never exceeds it. A completed run ends with `processed_size == total_size`. This includes the zero-total fault, where the one recorded size is 0. |
| ScanWorker.EmptyTreeReportsHundred | disk_scanner.py:68-71 | An empty tree completes, and its only event is `(100, {})`. |
| ScanWorker.EmptyFileRaises | disk_scanner.py:59-63 | A tree whose only file is empty raises at the division, after recording the file, and still emits the final event. |
| ScanWorker.DriftOvershoots | disk_scanner.py:42-63 | A file that grows between the passes makes an intermediate event report more than the total. |
| DiskScanner.Init | disk_scanner.py:14-18 | A new scanner is idle, has an empty dictionary and keeps its callback setting, which is absent by default, as `progress_callback=None` is. |
| DiskScanner.ScanDirectory | disk_scanner.py:31-38 | While scanning, the call changes nothing. When idle, it raises the flag, empties the dictionary and records the worker. The scanner invariant is kept. |
| DiskScanner.RunWorker | disk_scanner.py:40-71 | The worker of a started scanner, as `scan_directory` launches it with the flag raised. Whatever the exit, the flag ends false. With a callback, the last event is `(100, file_sizes)` and every earlier one is intermediate. Unique keys stay unique. |
| DiskScanner.Scan | disk_scanner.py:31-71 | A scan requested while scanning changes nothing and emits nothing. Otherwise the run ends with the flag false and the final event last, and keeps the scanner invariant. |
| DiskScanner.StopScan | disk_scanner.py:73-76 | The flag ends false and nothing else changes. On an idle scanner it is a no-op, so stopping twice is stopping once. |
| DiskScanner.GetLargestFiles | disk_scanner.py:78-84 | With `limit` defaulting to 100, the result has `min(limit, len)` records, drawn from the dictionary and sorted by size, descending. No record left out is larger than one kept. For every size, the kept records are the first ones of that size in insertion order. |
| DiskScanner.ScanForgetsEarlierResults | disk_scanner.py:35-36 | Because the dictionary is cleared first, a scan's outcome does not depend on earlier results. |
| DiskScanner.CompletedScanKeys | disk_scanner.py:45-58 | After a completed scan, the keys are exactly the walked paths whose stat succeeded. |
| DiskScanner.CompletedScanRecords | disk_scanner.py:45-58 | After a completed scan, each record's path is its key, its size is its stat, and its type is its path's suffix. The records are in walk order. |
| DiskScanner.StopMidScanKeepsPrefix | disk_scanner.py:47-71 | Unless the zero-total fault comes first (see `ScanWorker.WorkerZeroDivision`, where the one record also lies before the cut), a stop seen before file c cancels the run. The dictionary holds exactly the records of the files before c, no later file has a key, and the final event is still emitted. |
| DiskScanner.TiesKeepInsertionOrder | disk_scanner.py:78-84 | Records of equal size come out in insertion order, whatever their paths. |
| SizeOrder.SortBySizeDesc | disk_scanner.py:79-83 | The sort is a permutation of its input and is sorted by size, descending. |
| SizeOrder.SortIsStable | disk_scanner.py:79-83 | For every size, the sort keeps the records of that size in their original order. |
| SizeOrder.StableSortIsUnique | disk_scanner.py:79-83 | A table that is sorted by size and keeps each size's order is the sort: the order is fully determined. |
| SizeOrder.SortedPrefixLargest | disk_scanner.py:78-84 | No record left out of the first n is larger than one kept. |
| SizeOrder.SortedPrefixStable | disk_scanner.py:78-84 | For every size, the first n of the sort keep a prefix of that size's records in insertion order. |
| SizeUnits.FormatSize | file_utils.py:4-10 | The loop picks the unit given by the thresholds 1024^k. The magnitude times the unit's power of 1024 is the input. |
| SizeUnits.BelowKibIsBytes | file_utils.py:6-8 | Any size below 1024, negative sizes included, is in bytes. |
| SizeUnits.UnitBand | file_utils.py:6-9 | For k from 0 to 4, a size in [1024^k, 1024^(k+1)) gets the k-th of B, KB, MB, GB, TB. |
| SizeUnits.AtLeastPibIsPetabytes | file_utils.py:6-10 | Sizes from 1024^5 on fall through the loop to PB. |
| SizeUnits.UnitMonotone | file_utils.py:6-10 | A larger size never gets a smaller unit. |
| FileIcons.Lower | file_utils.py:37 | Lower-casing keeps the length and maps each character on its own. |
| FileIcons.LowerIdempotent | file_utils.py:37 | Lower-casing twice is lower-casing once. |
| FileIcons.IconIgnoresCase | file_utils.py:37 | An extension gets the icon of its lower-cased form. |
| FileIcons.UnlistedGetsTextIcon | file_utils.py:22-37 | An extension missing from the table gets the default, which is the `.txt` icon. |
| FileIcons.IconFor | file_utils.py:20-37 | Case-insensitive table lookup with a default. The icon is always one the table lists, and it is the page icon exactly for `.txt` and for unlisted extensions. Case-insensitivity is proved in `FileIcons.IconIgnoresCase`. |
| FileIcons.WordVariantsShareIcon | file_utils.py:25-26 | Every spelling of `.doc` or `.docx` gets the same icon. |
| FileIcons.SheetVariantsShareIcon | file_utils.py:27-28 | Every spelling of `.xls` or `.xlsx` gets the same icon. |
| FileIcons.ImageVariantsShareIcon | file_utils.py:29-31 | Every spelling of `.jpg`, `.jpeg` or `.png` gets the same icon. |

## Left out

- Threads: `threading.Thread`, `start`, `is_alive` and `join` are not modelled. The run is sequential.
- Cancellation timing: `stop_scan`'s effect on a running worker is the cancellation position given to the worker.
- Filesystem primitives: `os.walk`, `os.path.join` and `os.path.getsize` are abstracted as the entry sequences.
  - Walk order and stat outcomes are inputs.
  - The two passes are separate inputs, because the tree can change between them.
- Suffix extraction: `pathlib.Path.suffix` is the `Suffix` parameter and is not interpreted.
- Progress percentage: the float `processed_size / total_size * 100` is kept as the exact pair `(processed, total)`.
- Callback contents: the callback's effects are not modelled. Only its presence is modelled, and what it is passed is recorded as events.
- Snapshots: each event records the dictionary as a value. Python passes the same dict object each time, so a callback that keeps it sees later changes.
- Other exceptions: exceptions other than `ZeroDivisionError` are not modelled.
- Number rendering: the `.2f` rendering in `format_size` is float formatting. The unit (its constructors are the labels) and the exact real magnitude are modelled.
- `delete_file`: deleting a file is filesystem I/O.
- GUI modules: `gui_components.py` and `main.py` are presentation code.
- Icon glyphs: the emoji glyphs are replaced by abstract icon tokens.
- FileIcons.Lower: lower-cases ASCII letters only; Python's `str.lower` also folds non-ASCII letters.
- DiskScanner.GetLargestFiles: takes `limit` as a natural number. A negative `limit` in Python drops records from the end of the sorted list.
- SizeUnits.FormatSize: divides exact reals where the source divides binary floats. For integers whose quotient by 1024 fits in a double, the chosen unit is the same: dividing by 1024 is exact in binary floating point, the powers of 1024 up to 1024^5 are exact doubles, and rounding a large integer to a double never moves it across one of them. The magnitude of an integer above 2^53 may differ in its last bits. Beyond the double range the source raises OverflowError: at the first `size_bytes /= 1024` for a huge positive size, and at the `.2f` formatting for a huge negative one. The model returns a unit instead.
- SizeUnits.AtLeastPibIsPetabytes: holds for every integer from 1024^5 on. The source reaches PB only for sizes whose quotient by 1024 fits in a double (below about 1.8 * 10^311); larger ones raise OverflowError.
- ScanWorker.WorkerRecords: assumes the walk yields no path twice, as `os.walk` never does. The keys-only results (`ScanWorker.WorkerKeys`, `DiskScanner.CompletedScanKeys`) hold without that assumption.
- DiskScanner.CompletedScanRecords: assumes the walk yields no path twice, as above.
- DiskScanner.StopMidScanKeepsPrefix: assumes the walk yields no path twice, as above.
