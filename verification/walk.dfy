/**
 What a directory walk yields: the files under the root in walk order, each
 with the outcome of stat'ing it. The walk order and the stat outcomes are
 given, not computed; they stand for os.walk, os.path.join and
 os.path.getsize.
 */
module Walk {
  import opened Wrappers
  import opened FileTable

  /** One file of the walk; `stat` is None when reading its size raised OSError. */
  datatype Entry = Entry(path: Path, stat: Option<nat>)

  /** The suffix of a path (pathlib's `Path.suffix`), supplied by the host. */
  type Suffix = Path -> string

  /** The paths whose stat succeeded. */
  function Statted(es: seq<Entry>): set<Path>
  {
    set e | e in es && e.stat.Some? :: e.path
  }

  /** os.walk never yields the same path twice. */
  predicate DistinctPaths(es: seq<Entry>)
  {
    forall i, j :: 0 <= i < j < |es| ==> es[i].path != es[j].path
  }

  /** The record built for a file whose stat succeeded. */
  function RecordOf(e: Entry, suffix: Suffix): (r: FileInfo)
    requires e.stat.Some?
    ensures r.path == e.path && Some(r.size) == e.stat
  {
    FileInfo(e.path, e.stat.value, suffix(e.path))
  }

  /** The sum of the sizes of the entries whose stat succeeded. */
  function StattedTotal(es: seq<Entry>): nat
  {
    if es == [] then 0
    else
      var last := es[|es| - 1];
      StattedTotal(es[..|es| - 1]) + (if last.stat.Some? then last.stat.value else 0)
  }

  /** One record per statted entry, in walk order. */
  function RecordsOf(es: seq<Entry>, suffix: Suffix): (t: Table)
    ensures Keys(t) == Statted(es)
    ensures |t| <= |es|
    ensures forall r :: r in t ==> r.fileType == suffix(r.path) && Entry(r.path, Some(r.size)) in es
  {
    if es == [] then []
    else
      var init := es[..|es| - 1];
      var last := es[|es| - 1];
      var t := RecordsOf(init, suffix);
      assert es == init + [last];
      if last.stat.Some? then
        assert Keys(t + [RecordOf(last, suffix)]) == Keys(t) + {last.path};
        t + [RecordOf(last, suffix)]
      else t
  }

  /** Distinct walk paths give a dictionary with distinct keys. */
  lemma {:induction false} RecordsOfDistinct(es: seq<Entry>, suffix: Suffix)
    requires DistinctPaths(es)
    ensures Distinct(RecordsOf(es, suffix))
  {
    if es != [] {
      var init := es[..|es| - 1];
      var last := es[|es| - 1];
      assert es == init + [last];
      RecordsOfDistinct(init, suffix);
      if last.stat.Some? {
        var t := RecordsOf(init, suffix);
        assert last.path !in Statted(init);
        var u := t + [RecordOf(last, suffix)];
        forall i, j | 0 <= i < j < |u| ensures u[i].path != u[j].path {
          if j == |t| {
            assert u[i] in t;
          }
        }
      }
    }
  }
}
