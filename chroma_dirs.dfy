/**
 * internal/chroma/utils.go: persist-dir validation for the Go commands and
 * the selection of segment directories (those holding a `header.bin`).
 */
module ChromaDirs {
  import opened Wrappers
  import opened Storage
  import opened Seqs
  import Utils

  datatype CheckError = PersistDirRequired | PersistDirNotExist | SqliteFileNotExist

  /**
   * `CheckPersistDir`: only `os.IsNotExist` outcomes are rejected, so a
   * directory whose `stat` fails for another reason passes.
   */
  function CheckPersistDir(path: string, root: Stat, entries: map<string, Entry>): (r: Option<CheckError>)
    ensures path == "" ==> r == Some(PersistDirRequired)
    ensures path != "" && root == Absent ==> r == Some(PersistDirNotExist)
    ensures r == Some(SqliteFileNotExist) <==>
      path != "" && root != Absent && ChildStat(root, entries, "chroma.sqlite3") == Absent
    ensures r == None <==>
      path != "" && root != Absent && ChildStat(root, entries, "chroma.sqlite3") != Absent
  {
    if path == "" then Some(PersistDirRequired)
    else if root == Absent then Some(PersistDirNotExist)
    else if ChildStat(root, entries, "chroma.sqlite3") == Absent then Some(SqliteFileNotExist)
    else None
  }

  /** A directory the Python validator accepts is accepted here too. */
  lemma PythonValidIsGoValid(path: string, root: Stat, entries: map<string, Entry>)
    requires path != "" && Utils.ValidatePersistDir(root, entries) == None
    ensures CheckPersistDir(path, root, entries) == None
  {
  }

  /** The converse fails: an unexaminable directory passes here and is refused by the Python validator. */
  lemma GoAcceptsUnexaminableDir(path: string, entries: map<string, Entry>)
    requires path != ""
    ensures CheckPersistDir(path, StatError, entries) == None
    ensures Utils.ValidatePersistDir(StatError, entries) == Some(Utils.PersistDirMissing)
  {
  }

  /** `IsValidSegmentDir`: false only when `header.bin` is reported as not existing. */
  function IsValidSegmentDir(header: Stat): (r: bool)
    ensures !r <==> header == Absent
  {
    !(header == Absent)
  }

  /** An entry that `GetSegmentDirs` keeps: a directory that is a valid segment dir. */
  predicate IsSegmentEntry(entries: map<string, Entry>, name: string)
  {
    name in entries && entries[name].Dir? && IsValidSegmentDir(entries[name].header)
  }

  /**
   * Go's `<` on strings: the byte order of their UTF-8 encodings, which is
   * the order of their code points, compared from the first character on.
   */
  predicate NameBefore(a: string, b: string)
  {
    if a == [] then b != []
    else if b == [] then false
    else if a[0] != b[0] then a[0] < b[0]
    else NameBefore(a[1..], b[1..])
  }

  predicate NameAtMost(a: string, b: string)
  {
    a == b || NameBefore(a, b)
  }

  /** Any two different names are ordered one way or the other. */
  lemma {:induction false} NameBeforeTotal(a: string, b: string)
    ensures a == b || NameBefore(a, b) || NameBefore(b, a)
  {
    if a != [] && b != [] && a[0] == b[0] {
      NameBeforeTotal(a[1..], b[1..]);
      if a[1..] == b[1..] {
        assert a == [a[0]] + a[1..] && b == [b[0]] + b[1..];
      }
    }
  }

  lemma {:induction false} NameBeforeTransitive(a: string, b: string, c: string)
    requires NameBefore(a, b) && NameBefore(b, c)
    ensures NameBefore(a, c)
  {
    if a != [] && a[0] == b[0] && b[0] == c[0] {
      NameBeforeTransitive(a[1..], b[1..], c[1..]);
    }
  }

  lemma NameAtMostTransitive(a: string, b: string, c: string)
    requires NameAtMost(a, b) && NameAtMost(b, c)
    ensures NameAtMost(a, c)
  {
    if a != b && b != c {
      NameBeforeTransitive(a, b, c);
    }
  }

  predicate SortedByName(s: seq<string>)
  {
    forall i, j | 0 <= i < j < |s| :: NameAtMost(s[i], s[j])
  }

  /** `x` put into the sorted listing `s` before the first name it does not follow. */
  function InsertByName(x: string, s: seq<string>): (r: seq<string>)
    ensures multiset(r) == multiset(s) + multiset{x}
  {
    if s == [] || NameAtMost(x, s[0]) then [x] + s
    else
      assert s == [s[0]] + s[1..];
      [s[0]] + InsertByName(x, s[1..])
  }

  lemma {:induction false} InsertByNameSorted(x: string, s: seq<string>)
    requires SortedByName(s)
    ensures SortedByName(InsertByName(x, s))
  {
    var r := InsertByName(x, s);
    if s == [] {
    } else if NameAtMost(x, s[0]) {
      forall j | 0 < j < |r|
        ensures NameAtMost(r[0], r[j])
      {
        if j > 1 {
          NameAtMostTransitive(x, s[0], s[j - 1]);
        }
      }
    } else {
      NameBeforeTotal(x, s[0]);
      var t := InsertByName(x, s[1..]);
      InsertByNameSorted(x, s[1..]);
      forall j | 0 <= j < |t|
        ensures NameAtMost(s[0], t[j])
      {
        assert t[j] in multiset(s[1..]) + multiset{x};
        if t[j] != x {
          var k :| 0 <= k < |s[1..]| && s[1..][k] == t[j];
          assert s[k + 1] == t[j];
        }
      }
    }
  }

  /**
   * The order in which `os.ReadDir` returns the entries of a directory whose
   * native listing is `names`: sorted by filename.
   */
  function ByName(names: seq<string>): (r: seq<string>)
    ensures multiset(r) == multiset(names) && |r| == |names|
    ensures forall x :: x in r <==> x in names
  {
    if names == [] then []
    else
      var r := InsertByName(names[|names| - 1], ByName(names[..|names| - 1]));
      assert names == names[..|names| - 1] + [names[|names| - 1]];
      assert forall x :: x in r <==> x in multiset(r);
      r
  }

  lemma {:induction false} ByNameSorted(names: seq<string>)
    ensures SortedByName(ByName(names))
  {
    if names != [] {
      ByNameSorted(names[..|names| - 1]);
      InsertByNameSorted(names[|names| - 1], ByName(names[..|names| - 1]));
    }
  }

  /** Filtering a sorted listing keeps it sorted. */
  lemma {:induction false} FilterSortedByName(s: seq<string>, p: string -> bool)
    requires SortedByName(s)
    ensures SortedByName(Filter(s, p))
  {
    if s != [] {
      var init, last := s[..|s| - 1], s[|s| - 1];
      assert SortedByName(init);
      FilterSortedByName(init, p);
      var f := Filter(init, p);
      forall i | 0 <= i < |f|
        ensures NameAtMost(f[i], last)
      {
        assert f[i] in f;
        var k :| 0 <= k < |init| && init[k] == f[i];
        assert s[k] == f[i];
      }
    }
  }

  /** The segment dir names `GetSegmentDirs` returns, in `os.ReadDir` order. */
  function SegmentDirNames(names: seq<string>, entries: map<string, Entry>): seq<string>
  {
    Filter(ByName(names), n => IsSegmentEntry(entries, n))
  }

  datatype ListError = ReadDirFailed

  /**
   * `GetSegmentDirs`: the names of the directory entries that are valid
   * segment dirs, in the by-filename order of `os.ReadDir`; a failed
   * `ReadDir` is an error.
   */
  method GetSegmentDirs(fs: PersistDir) returns (r: Result<seq<string>, ListError>)
    requires fs.Valid()
    ensures !fs.listable ==> r == Err(ReadDirFailed)
    ensures fs.listable ==> r.Ok?
    ensures r.Ok? ==> r.value == SegmentDirNames(fs.names, fs.entries)
    ensures r.Ok? ==> forall n :: n in r.value <==> n in fs.names && IsSegmentEntry(fs.entries, n)
    ensures r.Ok? ==> IsSubsequence(r.value, ByName(fs.names)) && SortedByName(r.value)
  {
    if !fs.listable {
      return Err(ReadDirFailed);
    }
    var listing, entries := ByName(fs.names), fs.entries;
    var dirs: seq<string> := [];
    for i := 0 to |listing|
      invariant dirs == Filter(listing[..i], n => IsSegmentEntry(entries, n))
    {
      FilterPrefix(listing, i, n => IsSegmentEntry(entries, n));
      var name := listing[i];
      if name in entries && entries[name].Dir? && IsValidSegmentDir(entries[name].header) {
        dirs := dirs + [name];
      }
    }
    assert listing[..|listing|] == listing;
    FilterIsSubsequence(listing, n => IsSegmentEntry(entries, n));
    ByNameSorted(fs.names);
    FilterSortedByName(listing, n => IsSegmentEntry(entries, n));
    return Ok(dirs);
  }
}
