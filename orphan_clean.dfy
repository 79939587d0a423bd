/**
 * The Python orphan cleaners: chroma_ops/clean.py (deletes as it lists) and
 * chroma_ops/db_clean.py (lists, asks for confirmation, then deletes). Both
 * treat as orphan a directory of the persist dir that is not the ID of a
 * VECTOR segment and holds a `header.bin` that `os.path.exists` reports.
 */
module OrphanClean {
  import opened Wrappers
  import opened Storage
  import opened Utils
  import opened ChromaDirs
  import opened Seqs
  import CleanCmd

  datatype PyCleanError =
    | ValidationFailed(reason: DirError)
    | QueryFailed
    | ListDirFailed
    | RmtreeFailed(name: string)

  /** How a `db_clean` run ends when nothing is raised. */
  datatype Outcome = NoOrphans | Cancelled | Deleted

  /** The IDs the `scope = 'VECTOR'` query returns, in row order. */
  function VectorSegmentIds(rows: seq<SegmentRow>): (r: seq<string>)
    ensures forall id :: id in r <==> exists i | 0 <= i < |rows| :: rows[i].scope == Vector && rows[i].id == id
  {
    if rows == [] then []
    else
      var last := rows[|rows| - 1];
      VectorSegmentIds(rows[..|rows| - 1]) + (if last.scope == Vector then [last.id] else [])
  }

  /** The directory test of both Python cleaners. */
  predicate IsHeaderOrphan(entries: map<string, Entry>, active: seq<string>, name: string)
  {
    name in entries && entries[name].Dir? && name !in active && entries[name].header == Present
  }

  /** The orphans of a listing, in listing order. */
  function HeaderOrphans(names: seq<string>, entries: map<string, Entry>, active: seq<string>): (r: seq<string>)
    ensures |r| <= |names|
  {
    if names == [] then []
    else
      var last := names[|names| - 1];
      HeaderOrphans(names[..|names| - 1], entries, active) + (if IsHeaderOrphan(entries, active, last) then [last] else [])
  }

  lemma HeaderOrphansStep(names: seq<string>, i: nat, entries: map<string, Entry>, active: seq<string>)
    requires i < |names|
    ensures HeaderOrphans(names[..i + 1], entries, active)
      == HeaderOrphans(names[..i], entries, active) + (if IsHeaderOrphan(entries, active, names[i]) then [names[i]] else [])
  {
    assert names[..i + 1][..i] == names[..i];
  }

  /** A listed name is deleted exactly when it passes the orphan test. */
  lemma {:induction false} HeaderOrphansMembership(names: seq<string>, entries: map<string, Entry>, active: seq<string>, n: string)
    ensures n in HeaderOrphans(names, entries, active) <==> n in names && IsHeaderOrphan(entries, active, n)
  {
    if names != [] {
      var init := names[..|names| - 1];
      HeaderOrphansMembership(init, entries, active, n);
      assert names == init + [names[|names| - 1]];
    }
  }

  /** The orphans of a listing with distinct names are distinct. */
  lemma {:induction false} HeaderOrphansDistinct(names: seq<string>, entries: map<string, Entry>, active: seq<string>)
    requires Distinct(names)
    ensures Distinct(HeaderOrphans(names, entries, active))
  {
    if names != [] {
      var init := names[..|names| - 1];
      var last := names[|names| - 1];
      assert Distinct(init);
      HeaderOrphansDistinct(init, entries, active);
      HeaderOrphansMembership(init, entries, active, last);
      assert names == init + [last];
      assert last !in init;
    }
  }

  /**
   * Against the Go `clean`: a directory the Go command deletes is deleted by
   * the Python cleaners too whenever its `header.bin` stats cleanly, since
   * the VECTOR IDs are among all segment IDs.
   */
  lemma GoOrphanWithHeaderIsPythonOrphan(names: seq<string>, entries: map<string, Entry>, rows: seq<SegmentRow>, n: string)
    requires n in CleanCmd.Orphans(SegmentDirNames(names, entries), CleanCmd.SegmentIds(rows))
    requires n in entries && entries[n].Dir? && entries[n].header == Present
    ensures n in HeaderOrphans(names, entries, VectorSegmentIds(rows))
  {
    CleanCmd.OrphansMembership(SegmentDirNames(names, entries), CleanCmd.SegmentIds(rows), n);
    HeaderOrphansMembership(names, entries, VectorSegmentIds(rows), n);
  }

  /**
   * A METADATA segment's ID is no protection for the Python cleaners: a
   * directory named by it and holding `header.bin` is deleted.
   */
  lemma MetadataNamedDirIsPythonOrphan(names: seq<string>, entries: map<string, Entry>, rows: seq<SegmentRow>, n: string)
    requires n in names && n in entries && entries[n].Dir? && entries[n].header == Present
    requires forall i | 0 <= i < |rows| && rows[i].id == n :: rows[i].scope != Vector
    ensures n in HeaderOrphans(names, entries, VectorSegmentIds(rows))
  {
    HeaderOrphansMembership(names, entries, VectorSegmentIds(rows), n);
  }

  /**
   * After a complete run, a listed directory still holding `header.bin` is an
   * active segment dir, and every active segment dir is still there.
   */
  lemma RemainingHeaderDirsAreActive(names: seq<string>, entries: map<string, Entry>, active: seq<string>, n: string)
    ensures var after := Without(entries, HeaderOrphans(names, entries, active));
      n in names && n in after && after[n].Dir? && after[n].header == Present ==> n in active
    ensures var after := Without(entries, HeaderOrphans(names, entries, active));
      n in active ==> (n in after <==> n in entries)
  {
    var gone := HeaderOrphans(names, entries, active);
    WithoutSpec(entries, gone);
    HeaderOrphansMembership(names, entries, active, n);
  }

  /** The `active_segments` loop shared by both cleaners. */
  method ActiveSegments(rows: seq<SegmentRow>) returns (active: seq<string>)
    ensures active == VectorSegmentIds(rows)
  {
    active := [];
    for i := 0 to |rows|
      invariant active == VectorSegmentIds(rows[..i])
    {
      assert rows[..i + 1][..i] == rows[..i];
      if rows[i].scope == Vector {
        active := active + [rows[i].id];
      }
    }
    assert rows[..|rows|] == rows;
  }

  /**
   * chroma_ops/clean.py `clean`: each orphan is removed as soon as the
   * listing reaches it; a failing `rmtree` raises and ends the run.
   * `segments` is None when the query fails.
   */
  method CleanScript(fs: PersistDir, segments: Option<seq<SegmentRow>>) returns (err: Option<PyCleanError>)
    requires fs.Valid()
    modifies fs`names, fs`entries, fs.journal`events
    ensures fs.Valid()
    ensures ValidatePersistDir(fs.root, old(fs.entries)).Some? ==>
      err == Some(ValidationFailed(ValidatePersistDir(fs.root, old(fs.entries)).value)) && fs.entries == old(fs.entries) && fs.names == old(fs.names)
    ensures ValidatePersistDir(fs.root, old(fs.entries)).None? && segments.None? ==>
      err == Some(QueryFailed) && fs.entries == old(fs.entries) && fs.names == old(fs.names)
    ensures ValidatePersistDir(fs.root, old(fs.entries)).None? && segments.Some? && !fs.listable ==>
      err == Some(ListDirFailed) && fs.entries == old(fs.entries) && fs.names == old(fs.names)
    ensures ValidatePersistDir(fs.root, old(fs.entries)).None? && segments.Some? && fs.listable ==>
      var plan := HeaderOrphans(old(fs.names), old(fs.entries), VectorSegmentIds(segments.value));
      var done := TakeUntil(plan, fs.undeletable);
      && fs.entries == Without(old(fs.entries), done)
      && fs.names == Unlisted(old(fs.names), done)
      && (err.None? <==> done == plan)
      && (err.Some? ==> |done| < |plan| && err.value == RmtreeFailed(plan[|done|]))
  {
    var v := ValidatePersistDir(fs.root, fs.entries);
    if v.Some? {
      return Some(ValidationFailed(v.value));
    }
    if segments.None? {
      return Some(QueryFailed);
    }
    var active := ActiveSegments(segments.value);
    if !fs.listable {
      return Some(ListDirFailed);
    }
    err := RemoveAsListed(fs, active);
  }

  /** The listing loop of clean.py: each orphan is removed when the listing reaches it. */
  method RemoveAsListed(fs: PersistDir, active: seq<string>) returns (err: Option<PyCleanError>)
    requires fs.Valid()
    modifies fs`names, fs`entries, fs.journal`events
    ensures fs.Valid()
    ensures var plan := HeaderOrphans(old(fs.names), old(fs.entries), active);
      var done := TakeUntil(plan, fs.undeletable);
      && fs.entries == Without(old(fs.entries), done)
      && fs.names == Unlisted(old(fs.names), done)
      && (err.None? <==> done == plan)
      && (err.Some? ==> |done| < |plan| && err.value == RmtreeFailed(plan[|done|]))
  {
    var listing, entries := fs.names, fs.entries;
    ghost var plan := HeaderOrphans(listing, entries, active);
    ghost var done: seq<string> := [];
    for k := 0 to |listing|
      invariant done == HeaderOrphans(listing[..k], entries, active)
      invariant RemovedSoFar(fs, entries, listing, done)
    {
      HeaderOrphansStep(listing, k, entries, active);
      var dir := listing[k];
      LaterNameNotDone(listing, k, entries, active, done);
      WithoutKeeps(entries, done, dir);
      if dir in fs.entries && fs.entries[dir].Dir? && dir !in active && fs.entries[dir].header == Present {
        var ok := RemoveNext(fs, dir, entries, listing, done);
        if !ok {
          StopsAtFailure(listing, k, entries, active, fs.undeletable, done);
          return Some(RmtreeFailed(dir));
        }
        done := done + [dir];
      }
    }
    assert listing[..|listing|] == listing;
    TakeUntilAll(plan, fs.undeletable);
    err := None;
  }

  /** The listing loop of db_clean.py: the orphans, collected before anything is deleted. */
  method CollectOrphans(listing: seq<string>, entries: map<string, Entry>, active: seq<string>) returns (dirs: seq<string>)
    ensures dirs == HeaderOrphans(listing, entries, active)
  {
    dirs := [];
    for k := 0 to |listing|
      invariant dirs == HeaderOrphans(listing[..k], entries, active)
    {
      HeaderOrphansStep(listing, k, entries, active);
      var dir := listing[k];
      if dir in entries && entries[dir].Dir? && dir !in active && entries[dir].header == Present {
        dirs := dirs + [dir];
      }
    }
    assert listing[..|listing|] == listing;
  }

  /**
   * chroma_ops/db_clean.py `clean`: collect the orphans, stop when there are
   * none, ask unless `yes` (`confirmed` is the answer), then remove them in
   * order; a failing `rmtree` raises and ends the run.
   */
  method DbClean(fs: PersistDir, segments: Option<seq<SegmentRow>>, yes: bool, confirmed: bool)
    returns (r: Result<Outcome, PyCleanError>)
    requires fs.Valid()
    modifies fs`names, fs`entries, fs.journal`events
    ensures fs.Valid()
    ensures ValidatePersistDir(fs.root, old(fs.entries)).Some? ==>
      r == Err(ValidationFailed(ValidatePersistDir(fs.root, old(fs.entries)).value)) && fs.entries == old(fs.entries) && fs.names == old(fs.names)
    ensures ValidatePersistDir(fs.root, old(fs.entries)).None? && segments.None? ==>
      r == Err(QueryFailed) && fs.entries == old(fs.entries) && fs.names == old(fs.names)
    ensures ValidatePersistDir(fs.root, old(fs.entries)).None? && segments.Some? && !fs.listable ==>
      r == Err(ListDirFailed) && fs.entries == old(fs.entries) && fs.names == old(fs.names)
    ensures ValidatePersistDir(fs.root, old(fs.entries)).None? && segments.Some? && fs.listable ==>
      var plan := HeaderOrphans(old(fs.names), old(fs.entries), VectorSegmentIds(segments.value));
      && (plan == [] ==> r == Ok(NoOrphans) && fs.entries == old(fs.entries) && fs.names == old(fs.names))
      && (plan != [] && !yes && !confirmed ==> r == Ok(Cancelled) && fs.entries == old(fs.entries) && fs.names == old(fs.names))
      && (plan != [] && (yes || confirmed) ==>
            var done := TakeUntil(plan, fs.undeletable);
            && fs.entries == Without(old(fs.entries), done)
            && fs.names == Unlisted(old(fs.names), done)
            && (r == Ok(Deleted) <==> done == plan)
            && (r.Err? ==> |done| < |plan| && r.error == RmtreeFailed(plan[|done|])))
  {
    var v := ValidatePersistDir(fs.root, fs.entries);
    if v.Some? {
      return Err(ValidationFailed(v.value));
    }
    if segments.None? {
      return Err(QueryFailed);
    }
    var active := ActiveSegments(segments.value);
    if !fs.listable {
      return Err(ListDirFailed);
    }
    var listing, entries := fs.names, fs.entries;
    var dirsToDelete := CollectOrphans(listing, entries, active);
    if |dirsToDelete| == 0 {
      return Ok(NoOrphans);
    }
    if !yes && !confirmed {
      return Ok(Cancelled);
    }
    r := RemoveAllInOrder(fs, dirsToDelete);
  }

  /** The deletion loop of db_clean.py over a duplicate-free list of names. */
  method RemoveAllInOrder(fs: PersistDir, dirs: seq<string>) returns (r: Result<Outcome, PyCleanError>)
    requires fs.Valid()
    modifies fs`names, fs`entries, fs.journal`events
    ensures fs.Valid()
    ensures var done := TakeUntil(dirs, fs.undeletable);
      && fs.entries == Without(old(fs.entries), done)
      && fs.names == Unlisted(old(fs.names), done)
      && (r == Ok(Deleted) <==> done == dirs)
      && (r.Err? ==> |done| < |dirs| && r.error == RmtreeFailed(dirs[|done|]))
  {
    ghost var done: seq<string> := [];
    ghost var entries0, names0 := fs.entries, fs.names;
    for k := 0 to |dirs|
      invariant done == dirs[..k]
      invariant RemovedSoFar(fs, entries0, names0, done)
    {
      var ok := RemoveNext(fs, dirs[k], entries0, names0, done);
      if !ok {
        assert dirs == dirs[..k] + dirs[k..];
        TakeUntilPrefix(dirs[..k], dirs[k..], fs.undeletable);
        return Err(RmtreeFailed(dirs[k]));
      }
      assert dirs[..k + 1] == done + [dirs[k]];
      done := done + [dirs[k]];
    }
    assert dirs[..|dirs|] == dirs;
    TakeUntilAll(dirs, fs.undeletable);
    r := Ok(Deleted);
  }

  lemma {:induction false} WithoutKeeps(m: map<string, Entry>, gone: seq<string>, n: string)
    requires n !in gone
    ensures n in Without(m, gone) <==> n in m
    ensures n in m ==> Without(m, gone)[n] == m[n]
  {
    if gone != [] {
      WithoutKeeps(m, gone[..|gone| - 1], n);
    }
  }

  /** A name later in a duplicate-free listing has not been deleted yet. */
  lemma LaterNameNotDone(listing: seq<string>, k: nat, entries: map<string, Entry>, active: seq<string>, done: seq<string>)
    requires k < |listing| && Distinct(listing)
    requires done == HeaderOrphans(listing[..k], entries, active)
    ensures listing[k] !in done
  {
    HeaderOrphansMembership(listing[..k], entries, active, listing[k]);
  }

  /** When the orphan at position `k` cannot be removed, the removed ones are what `TakeUntil` gives. */
  lemma StopsAtFailure(listing: seq<string>, k: nat, entries: map<string, Entry>, active: seq<string>, bad: set<string>, done: seq<string>)
    requires k < |listing| && IsHeaderOrphan(entries, active, listing[k]) && listing[k] in bad
    requires done == HeaderOrphans(listing[..k], entries, active)
    requires forall x | x in done :: x !in bad
    ensures var plan := HeaderOrphans(listing, entries, active);
      TakeUntil(plan, bad) == done && |done| < |plan| && plan[|done|] == listing[k]
  {
    HeaderOrphansSplit(listing, k, entries, active);
    TakeUntilPrefix(done, [listing[k]] + HeaderOrphans(listing[k + 1..], entries, active), bad);
  }

  lemma {:induction false} HeaderOrphansAppend(a: seq<string>, b: seq<string>, entries: map<string, Entry>, active: seq<string>)
    ensures HeaderOrphans(a + b, entries, active) == HeaderOrphans(a, entries, active) + HeaderOrphans(b, entries, active)
  {
    if b == [] {
      assert a + b == a;
    } else {
      var b' := b[..|b| - 1];
      assert (a + b)[..|a + b| - 1] == a + b';
      HeaderOrphansAppend(a, b', entries, active);
    }
  }

  lemma HeaderOrphansSplit(listing: seq<string>, k: nat, entries: map<string, Entry>, active: seq<string>)
    requires k < |listing| && IsHeaderOrphan(entries, active, listing[k])
    ensures HeaderOrphans(listing, entries, active)
      == HeaderOrphans(listing[..k], entries, active) + ([listing[k]] + HeaderOrphans(listing[k + 1..], entries, active))
  {
    var a, b := listing[..k + 1], listing[k + 1..];
    assert a + b == listing;
    HeaderOrphansAppend(a, b, entries, active);
    HeaderOrphansStep(listing, k, entries, active);
    AppendAssoc(HeaderOrphans(listing[..k], entries, active), [listing[k]], HeaderOrphans(b, entries, active));
  }
}
