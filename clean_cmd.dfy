/**
 * cmd/clean.go: delete the segment directories whose name is not the ID of
 * any catalog segment (of any scope), with a dry-run mode that deletes
 * nothing and a stop at the first removal that fails.
 */
module CleanCmd {
  import opened Wrappers
  import opened Storage
  import opened Seqs
  import opened ChromaDirs

  datatype CleanError =
    | InvalidPersistDir(reason: CheckError)
    | SegmentsQueryFailed
    | SegmentDirsFailed
    | RemoveFailed(dir: Path)

  /** The segment dirs `clean` removes, in listing order: those not named by a catalog segment ID. */
  function Orphans(segmentDirs: seq<string>, segmentIds: seq<string>): (r: seq<string>)
    ensures |r| <= |segmentDirs|
  {
    if segmentDirs == [] then []
    else
      var last := segmentDirs[|segmentDirs| - 1];
      Orphans(segmentDirs[..|segmentDirs| - 1], segmentIds) + (if last in segmentIds then [] else [last])
  }

  /** A dir is an orphan exactly when it is listed and no segment has its name. */
  lemma {:induction false} OrphansMembership(segmentDirs: seq<string>, segmentIds: seq<string>, d: string)
    ensures d in Orphans(segmentDirs, segmentIds) <==> d in segmentDirs && d !in segmentIds
  {
    if segmentDirs != [] {
      var init := segmentDirs[..|segmentDirs| - 1];
      OrphansMembership(init, segmentIds, d);
      assert segmentDirs == init + [segmentDirs[|segmentDirs| - 1]];
    }
  }

  lemma OrphansStep(s: seq<string>, i: nat, ids: seq<string>)
    requires i < |s|
    ensures Orphans(s[..i + 1], ids) == Orphans(s[..i], ids) + (if s[i] in ids then [] else [s[i]])
  {
    assert s[..i + 1][..i] == s[..i];
  }

  lemma {:induction false} OrphansAppend(a: seq<string>, b: seq<string>, ids: seq<string>)
    ensures Orphans(a + b, ids) == Orphans(a, ids) + Orphans(b, ids)
  {
    if b == [] {
      assert a + b == a;
    } else {
      var b' := b[..|b| - 1];
      assert (a + b)[..|a + b| - 1] == a + b';
      OrphansAppend(a, b', ids);
    }
  }

  /** The IDs of the catalog's segments, in row order. */
  function SegmentIds(rows: seq<SegmentRow>): (r: seq<string>)
    ensures |r| == |rows| && forall i | 0 <= i < |rows| :: r[i] == rows[i].id
  {
    seq(|rows|, i requires 0 <= i < |rows| => rows[i].id)
  }

  /** The paths `clean` reports as deleted, one per name. */
  function Locations(base: Path, names: seq<string>): (r: seq<Path>)
    ensures |r| == |names|
  {
    if names == [] then [] else Locations(base, names[..|names| - 1]) + [Join(base, names[|names| - 1])]
  }

  lemma {:induction false} LocationsAt(base: Path, names: seq<string>, i: nat)
    requires i < |names|
    ensures Locations(base, names)[i] == Join(base, names[i])
  {
    if i < |names| - 1 {
      LocationsAt(base, names[..|names| - 1], i);
    }
  }

  lemma LocationsStep(base: Path, names: seq<string>, name: string)
    ensures Locations(base, names + [name]) == Locations(base, names) + [Join(base, name)]
  {
    assert (names + [name])[..|names|] == names;
  }

  /** An empty catalog makes every segment dir an orphan. */
  lemma {:induction false} EmptyCatalogOrphansAll(segmentDirs: seq<string>)
    ensures Orphans(segmentDirs, []) == segmentDirs
  {
    if segmentDirs != [] {
      EmptyCatalogOrphansAll(segmentDirs[..|segmentDirs| - 1]);
    }
  }

  /**
   * After the orphans are removed, every remaining segment dir is named by a
   * catalog segment, and every segment dir named by the catalog is still there.
   */
  lemma RemainingSegmentDirsAreCatalogued(names: seq<string>, entries: map<string, Entry>, ids: seq<string>)
    ensures var removed := Orphans(SegmentDirNames(names, entries), ids);
      forall n | n in names && n in entries && n !in removed && IsSegmentEntry(entries, n) :: n in ids
    ensures var removed := Orphans(SegmentDirNames(names, entries), ids);
      forall n | n in ids :: n !in removed
  {
    forall n {
      OrphansMembership(SegmentDirNames(names, entries), ids, n);
    }
  }

  /**
   * `clean`. `segments` is None when the catalog query fails. Returns the
   * error, if any, together with `deletedCount` and `deletedDirs` (which the
   * source only prints).
   */
  method Clean(fs: PersistDir, segments: Option<seq<SegmentRow>>, dryRun: bool)
    returns (err: Option<CleanError>, deletedCount: nat, deletedDirs: seq<Path>)
    requires fs.Valid()
    modifies fs`names, fs`entries, fs.journal`events
    ensures fs.Valid()
    ensures deletedCount == |deletedDirs|
    ensures CheckPersistDir(fs.path, fs.root, old(fs.entries)) != None ==>
      err == Some(InvalidPersistDir(CheckPersistDir(fs.path, fs.root, old(fs.entries)).value))
    ensures CheckPersistDir(fs.path, fs.root, old(fs.entries)) == None && segments.None? ==>
      err == Some(SegmentsQueryFailed)
    ensures CheckPersistDir(fs.path, fs.root, old(fs.entries)) == None && segments.Some? && !fs.listable ==>
      err == Some(SegmentDirsFailed)
    ensures err.Some? && !err.value.RemoveFailed? ==> fs.entries == old(fs.entries) && fs.names == old(fs.names) && deletedCount == 0
    ensures dryRun ==> fs.entries == old(fs.entries) && deletedCount == 0 && fs.names == old(fs.names)
    ensures err.None? || err.value.RemoveFailed? ==>
      && CheckPersistDir(fs.path, fs.root, old(fs.entries)) == None && segments.Some? && fs.listable
      && var plan := Orphans(SegmentDirNames(old(fs.names), old(fs.entries)), SegmentIds(segments.value));
         var done := if dryRun then [] else TakeUntil(plan, fs.undeletable);
         && fs.entries == Without(old(fs.entries), done)
         && fs.names == Unlisted(old(fs.names), done)
         && deletedDirs == Locations(fs.Location(), done)
         && (err.None? <==> dryRun || done == plan)
         && (err.Some? ==> |done| < |plan| && err.value == RemoveFailed(Join(fs.Location(), plan[|done|])))
  {
    deletedCount, deletedDirs := 0, [];
    var check := CheckPersistDir(fs.path, fs.root, fs.entries);
    if check.Some? {
      return Some(InvalidPersistDir(check.value)), deletedCount, deletedDirs;
    }
    if segments.None? {
      return Some(SegmentsQueryFailed), deletedCount, deletedDirs;
    }
    var listed := GetSegmentDirs(fs);
    if listed.Err? {
      return Some(SegmentDirsFailed), deletedCount, deletedDirs;
    }
    var segmentDirs := listed.value;
    if |segmentDirs| == 0 {
      return None, deletedCount, deletedDirs;
    }
    var segmentIds := CollectSegmentIds(segments.value);
    err, deletedCount, deletedDirs := RemoveOrphans(fs, segmentDirs, segmentIds, dryRun);
  }

  /** The loop of `clean` that appends the ID of each catalog segment row. */
  method CollectSegmentIds(rows: seq<SegmentRow>) returns (segmentIds: seq<string>)
    ensures segmentIds == SegmentIds(rows)
  {
    segmentIds := [];
    for i := 0 to |rows|
      invariant segmentIds == SegmentIds(rows[..i])
    {
      segmentIds := segmentIds + [rows[i].id];
    }
    assert rows[..|rows|] == rows;
  }

  /** The deletion loop of `clean` over the listed segment dirs. */
  method RemoveOrphans(fs: PersistDir, segmentDirs: seq<string>, segmentIds: seq<string>, dryRun: bool)
    returns (err: Option<CleanError>, deletedCount: nat, deletedDirs: seq<Path>)
    requires fs.Valid()
    modifies fs`names, fs`entries, fs.journal`events
    ensures fs.Valid()
    ensures err.None? || err.value.RemoveFailed?
    ensures dryRun ==> err.None? && fs.entries == old(fs.entries) && fs.names == old(fs.names)
    ensures var plan := Orphans(segmentDirs, segmentIds);
      var done := if dryRun then [] else TakeUntil(plan, fs.undeletable);
      && fs.entries == Without(old(fs.entries), done)
      && fs.names == Unlisted(old(fs.names), done)
      && deletedCount == |deletedDirs| && deletedDirs == Locations(fs.Location(), done)
      && (err.None? <==> dryRun || done == plan)
      && (err.Some? ==> |done| < |plan| && err.value == RemoveFailed(Join(fs.Location(), plan[|done|])))
  {
    if dryRun {
      // A dry run only reports each orphan's path on stderr.
      return None, 0, [];
    }
    err, deletedCount, deletedDirs := DeleteOrphans(fs, segmentDirs, segmentIds);
  }

  /** The deletion loop of `clean` when it is not a dry run: it stops at the first failed `os.RemoveAll`. */
  method DeleteOrphans(fs: PersistDir, segmentDirs: seq<string>, segmentIds: seq<string>)
    returns (err: Option<CleanError>, deletedCount: nat, deletedDirs: seq<Path>)
    requires fs.Valid()
    modifies fs`names, fs`entries, fs.journal`events
    ensures fs.Valid()
    ensures var plan := Orphans(segmentDirs, segmentIds);
      var done := TakeUntil(plan, fs.undeletable);
      && fs.entries == Without(old(fs.entries), done)
      && fs.names == Unlisted(old(fs.names), done)
      && deletedCount == |deletedDirs| && deletedDirs == Locations(fs.Location(), done)
      && (err.None? <==> done == plan)
      && (err.Some? ==> |done| < |plan| && err.value == RemoveFailed(Join(fs.Location(), plan[|done|])))
  {
    deletedCount, deletedDirs, err := 0, [], None;
    ghost var plan := Orphans(segmentDirs, segmentIds);
    ghost var done: seq<string> := [];
    ghost var entries0, names0 := fs.entries, fs.names;
    for k := 0 to |segmentDirs|
      invariant done == Orphans(segmentDirs[..k], segmentIds)
      invariant RemovedSoFar(fs, entries0, names0, done)
      invariant Reported(fs.Location(), done, deletedCount, deletedDirs)
    {
      var dir := segmentDirs[k];
      OrphansStep(segmentDirs, k, segmentIds);
      if dir !in segmentIds {
        var ok;
        ok, deletedCount, deletedDirs := RemoveAndCount(fs, dir, entries0, names0, done, deletedCount, deletedDirs);
        if !ok {
          OrphanPrefixStops(segmentDirs, segmentIds, k, fs.undeletable, done);
          return Some(RemoveFailed(Join(fs.Location(), dir))), deletedCount, deletedDirs;
        }
        done := done + [dir];
      }
    }
    assert segmentDirs[..|segmentDirs|] == segmentDirs;
    TakeUntilAll(plan, fs.undeletable);
  }

  /** `deletedCount` and `deletedDirs` report the removal of exactly the names of `done`. */
  predicate Reported(base: Path, done: seq<string>, deletedCount: nat, deletedDirs: seq<Path>)
  {
    deletedCount == |deletedDirs| && deletedDirs == Locations(base, done)
  }

  /**
   * One `os.RemoveAll` of the deletion loop of `clean`, followed on success
   * by `deletedCount++` and the append to `deletedDirs`.
   */
  method RemoveAndCount(fs: PersistDir, dir: string, ghost entries: map<string, Entry>, ghost names: seq<string>,
                        ghost done: seq<string>, deletedCount: nat, deletedDirs: seq<Path>)
    returns (ok: bool, count: nat, dirs: seq<Path>)
    requires RemovedSoFar(fs, entries, names, done) && Reported(fs.Location(), done, deletedCount, deletedDirs)
    modifies fs`names, fs`entries, fs.journal`events
    ensures ok == (dir !in fs.undeletable)
    ensures ok ==> RemovedSoFar(fs, entries, names, done + [dir]) && Reported(fs.Location(), done + [dir], count, dirs)
    ensures !ok ==> RemovedSoFar(fs, entries, names, done) && Reported(fs.Location(), done, count, dirs)
  {
    count, dirs := deletedCount, deletedDirs;
    ok := RemoveNext(fs, dir, entries, names, done);
    if ok {
      LocationsStep(fs.Location(), done, dir);
      count := count + 1;
      dirs := dirs + [Join(fs.Location(), dir)];
    }
  }

  /** When the orphan at position `k` is the first undeletable one, the deleted prefix is what `TakeUntil` gives. */
  lemma OrphanPrefixStops(dirs: seq<string>, ids: seq<string>, k: nat, bad: set<string>, done: seq<string>)
    requires k < |dirs| && dirs[k] !in ids && dirs[k] in bad
    requires done == Orphans(dirs[..k], ids)
    requires forall x | x in done :: x !in bad
    ensures var plan := Orphans(dirs, ids);
      TakeUntil(plan, bad) == done && |done| < |plan| && plan[|done|] == dirs[k]
  {
    OrphansSplit(dirs, k, ids);
    TakeUntilPrefix(done, [dirs[k]] + Orphans(dirs[k + 1..], ids), bad);
  }

  /** Splitting the listing at an orphan splits the orphans around it. */
  lemma OrphansSplit(dirs: seq<string>, k: nat, ids: seq<string>)
    requires k < |dirs| && dirs[k] !in ids
    ensures Orphans(dirs, ids) == Orphans(dirs[..k], ids) + ([dirs[k]] + Orphans(dirs[k + 1..], ids))
  {
    var a, b := dirs[..k + 1], dirs[k + 1..];
    assert a + b == dirs;
    OrphansAppend(a, b, ids);
    OrphansStep(dirs, k, ids);
    AppendAssoc(Orphans(dirs[..k], ids), [dirs[k]], Orphans(b, ids));
  }

}
