/**
 The scanner's results dictionary: a map from path to FileInfo that, like a
 Python dict, remembers insertion order. It is represented as the sequence of
 its values in insertion order; the key of a record is its `path` field, so
 every record's path equals its key by construction.
 */
module FileTable {
  import opened Wrappers

  type Path = string

  /** One successfully stat'd file. `fileType` is the path's suffix. */
  datatype FileInfo = FileInfo(path: Path, size: nat, fileType: string)

  /** The dictionary's values in insertion order. */
  type Table = seq<FileInfo>

  /** The dictionary's key set. */
  function Keys(t: Table): set<Path>
  {
    set r | r in t :: r.path
  }

  /** No key occurs twice: the shape every real dictionary has. */
  predicate Distinct(t: Table)
  {
    forall i, j :: 0 <= i < j < |t| ==> t[i].path != t[j].path
  }

  /** Dictionary lookup. */
  function Get(t: Table, p: Path): (r: Option<FileInfo>)
    ensures r.None? <==> p !in Keys(t)
    ensures r.Some? ==> r.value in t && r.value.path == p
  {
    if t == [] then None
    else if t[0].path == p then Some(t[0])
    else
      KeysCons(t[0], t[1..]);
      assert t == [t[0]] + t[1..];
      Get(t[1..], p)
  }

  /**
   Dictionary assignment `d[rec.path] = rec`: an existing key keeps its
   position and takes the new value; a new key is appended at the end.
   */
  function Put(t: Table, rec: FileInfo): (r: Table)
    ensures rec in r
    ensures forall x :: x in r ==> x == rec || x in t
  {
    if t == [] then [rec]
    else if t[0].path == rec.path then [rec] + t[1..]
    else [t[0]] + Put(t[1..], rec)
  }

  /** Keys and distinctness of a table with one more record in front. */
  lemma KeysCons(x: FileInfo, t: Table)
    ensures Keys([x] + t) == {x.path} + Keys(t)
    ensures Distinct([x] + t) <==> x.path !in Keys(t) && Distinct(t)
  {
    var u := [x] + t;
    assert forall r :: r in u <==> r == x || r in t;
    if Distinct(u) {
      forall r | r in t ensures r.path != x.path {
        var i :| 0 <= i < |t| && t[i] == r;
        assert u[0] == x && u[i + 1] == r;
      }
      forall i, j | 0 <= i < j < |t| ensures t[i].path != t[j].path {
        assert u[i + 1] == t[i] && u[j + 1] == t[j];
      }
    }
    if x.path !in Keys(t) && Distinct(t) {
      forall i, j | 0 <= i < j < |u| ensures u[i].path != u[j].path {
        if i == 0 {
          assert u[j] in t;
        } else {
          assert u[i] == t[i - 1] && u[j] == t[j - 1];
        }
      }
    }
  }

  /** Reading a key right after assigning it gives the assigned record. */
  lemma {:induction false} PutGet(t: Table, rec: FileInfo)
    ensures Get(Put(t, rec), rec.path) == Some(rec)
  {
    if t != [] && t[0].path != rec.path {
      PutGet(t[1..], rec);
    }
  }

  /** Assigning one key leaves the lookup of every other key as it was. */
  lemma {:induction false} PutOther(t: Table, rec: FileInfo, p: Path)
    requires p != rec.path
    ensures Get(Put(t, rec), p) == Get(t, p)
  {
    if t != [] && t[0].path != rec.path {
      PutOther(t[1..], rec, p);
    }
  }

  /**
   Re-assigning a key updates its record in place: the dictionary keeps its
   order and only the first record with that key changes.
   */
  lemma {:induction false} PutExisting(t: Table, rec: FileInfo, i: nat)
    requires i < |t| && t[i].path == rec.path
    requires forall j :: 0 <= j < i ==> t[j].path != rec.path
    ensures Put(t, rec) == t[i := rec]
  {
    if i > 0 {
      PutExisting(t[1..], rec, i - 1);
      assert Put(t, rec) == [t[0]] + t[1..][i - 1 := rec];
    }
  }

  /** Assignment adds exactly its key to the key set. */
  lemma {:induction false} PutKeys(t: Table, rec: FileInfo)
    ensures Keys(Put(t, rec)) == Keys(t) + {rec.path}
  {
    if t == [] {
    } else if t[0].path == rec.path {
      KeysCons(t[0], t[1..]);
      KeysCons(rec, t[1..]);
      assert t == [t[0]] + t[1..];
    } else {
      PutKeys(t[1..], rec);
      KeysCons(t[0], t[1..]);
      KeysCons(t[0], Put(t[1..], rec));
      assert t == [t[0]] + t[1..];
    }
  }

  /** A new key goes to the end, after every earlier insertion. */
  lemma {:induction false} PutNew(t: Table, rec: FileInfo)
    requires rec.path !in Keys(t)
    ensures Put(t, rec) == t + [rec]
  {
    if t != [] {
      KeysCons(t[0], t[1..]);
      assert t == [t[0]] + t[1..];
      PutNew(t[1..], rec);
    }
  }

  /** Re-assigning an existing key does not grow the dictionary. */
  lemma {:induction false} PutLength(t: Table, rec: FileInfo)
    requires rec.path in Keys(t)
    ensures |Put(t, rec)| == |t|
  {
    KeysCons(t[0], t[1..]);
    assert t == [t[0]] + t[1..];
    if t[0].path != rec.path {
      PutLength(t[1..], rec);
    }
  }

  /** Assignment keeps keys unique. */
  lemma {:induction false} PutDistinct(t: Table, rec: FileInfo)
    requires Distinct(t)
    ensures Distinct(Put(t, rec))
  {
    if t == [] {
    } else {
      KeysCons(t[0], t[1..]);
      assert t == [t[0]] + t[1..];
      if t[0].path == rec.path {
        KeysCons(rec, t[1..]);
      } else {
        PutDistinct(t[1..], rec);
        PutKeys(t[1..], rec);
        KeysCons(t[0], Put(t[1..], rec));
      }
    }
  }
}
