/**
 * chroma_ops/hnsw.py: resolving a collection's HNSW segment and rebuilding
 * its index through a staged copy while the catalog is exclusively locked.
 */
module Hnsw {
  import opened Wrappers
  import opened Storage
  import opened Chunking
  import opened Utils
  import opened HnswIndex
  import opened Seqs

  datatype DetailsError =
    | CollectionNotFound(name: string)
    | HnswConfigMissing
    | VectorSegmentNotFound(collectionId: string)

  /** The dictionary `_get_hnsw_details` returns (the formatted index size aside). */
  datatype HnswDetails = HnswDetails(
    collectionName: string, database: string, config: HnswConfiguration, dimensions: int,
    segmentId: string, path: Path, hasMetadata: bool, numElements: nat,
    idToLabel: map<string, int>, collectionId: string)

  /** The row `fetchone()` returns for `WHERE name = ?`: the first one. */
  function FirstCollection(cs: seq<CollectionRow>, name: string): (r: Option<nat>)
    ensures r.None? <==> forall i | 0 <= i < |cs| :: cs[i].name != name
    ensures r.Some? ==> r.value < |cs| && cs[r.value].name == name && forall j | 0 <= j < r.value :: cs[j].name != name
  {
    if cs == [] then None
    else if cs[0].name == name then Some(0)
    else match FirstCollection(cs[1..], name)
      case None => None
      case Some(i) => Some(i + 1)
  }

  /** The row `fetchone()` returns for `WHERE scope = 'VECTOR' AND collection = ?`. */
  function FirstVectorSegment(segs: seq<SegmentRow>, collectionId: string): (r: Option<nat>)
    ensures r.None? <==> forall i | 0 <= i < |segs| :: !(segs[i].scope == Vector && segs[i].collection == collectionId)
    ensures r.Some? ==> r.value < |segs| && segs[r.value].scope == Vector && segs[r.value].collection == collectionId
    ensures r.Some? ==> forall j | 0 <= j < r.value :: !(segs[j].scope == Vector && segs[j].collection == collectionId)
  {
    if segs == [] then None
    else if segs[0].scope == Vector && segs[0].collection == collectionId then Some(0)
    else match FirstVectorSegment(segs[1..], collectionId)
      case None => None
      case Some(i) => Some(i + 1)
  }

  /** Whether `persist_dir/<segment>/index_metadata.pickle` exists, and the record it holds. */
  function Sidecar(entries: map<string, Entry>, segmentId: string): Option<PersistentData>
  {
    if segmentId in entries && entries[segmentId].Dir? then entries[segmentId].sidecar else None
  }

  /**
   * `_get_hnsw_details`. The lookup fails when no collection has the name,
   * when its config has no `hnsw_configuration`, or when it has no VECTOR
   * segment. The database name is only echoed: the query does not filter on it.
   */
  function GetHnswDetails(tables: Tables, persist: Path, entries: map<string, Entry>, name: string, database: string)
    : (r: Result<HnswDetails, DetailsError>)
    ensures FirstCollection(tables.collections, name).None? <==> r == Err(CollectionNotFound(name))
    ensures r.Ok? <==>
      && FirstCollection(tables.collections, name).Some?
      && tables.collections[FirstCollection(tables.collections, name).value].config.Some?
      && FirstVectorSegment(tables.segments, tables.collections[FirstCollection(tables.collections, name).value].id).Some?
    ensures r.Ok? ==>
      var c := tables.collections[FirstCollection(tables.collections, name).value];
      var s := tables.segments[FirstVectorSegment(tables.segments, c.id).value];
      var d := r.value;
      && d.collectionName == name && d.database == database && d.collectionId == c.id
      && d.config == c.config.value && d.dimensions == c.dimension
      && d.segmentId == s.id && d.path == Join(persist, s.id)
      && (d.hasMetadata <==> Sidecar(entries, s.id).Some?)
      && (d.hasMetadata ==> d.idToLabel == Sidecar(entries, s.id).value.idToLabel)
      && (!d.hasMetadata ==> d.idToLabel == map[])
      && d.numElements == |d.idToLabel|
  {
    match FirstCollection(tables.collections, name)
    case None => Err(CollectionNotFound(name))
    case Some(ci) =>
      var c := tables.collections[ci];
      if c.config.None? then Err(HnswConfigMissing)
      else match FirstVectorSegment(tables.segments, c.id)
        case None => Err(VectorSegmentNotFound(c.id))
        case Some(si) =>
          var segId := tables.segments[si].id;
          var side := Sidecar(entries, segId);
          var idToLabel := if side.Some? then side.value.idToLabel else map[];
          Ok(HnswDetails(name, database, c.config.value, c.dimension, segId, Join(persist, segId),
                         side.Some?, |idToLabel|, idToLabel, c.id))
  }

  /** Without a side-car nothing is live as far as the rebuild is concerned. */
  lemma NoSidecarNoElements(tables: Tables, persist: Path, entries: map<string, Entry>, name: string, database: string)
    requires GetHnswDetails(tables, persist, entries, name, database).Ok?
    requires !GetHnswDetails(tables, persist, entries, name, database).value.hasMetadata
    ensures GetHnswDetails(tables, persist, entries, name, database).value.numElements == 0
  {
  }

  /**
   * The lookup depends on the persist dir only for the side-car: changing
   * the directory keeps the same segment, path and configuration.
   */
  lemma DetailsStableUnderDirChange(tables: Tables, persist: Path, e1: map<string, Entry>, e2: map<string, Entry>, name: string, database: string)
    ensures GetHnswDetails(tables, persist, e1, name, database).Ok? == GetHnswDetails(tables, persist, e2, name, database).Ok?
    ensures GetHnswDetails(tables, persist, e1, name, database).Ok? ==>
      var d1, d2 := GetHnswDetails(tables, persist, e1, name, database).value, GetHnswDetails(tables, persist, e2, name, database).value;
      d1.segmentId == d2.segmentId && d1.path == d2.path && d1.config == d2.config && d1.collectionId == d2.collectionId
  {
  }

  datatype RebuildError =
    | ValidationFailed(reason: DirError)
    | DatabaseLocked
    | Details(lookup: DetailsError)
    | StagingFailed
    | SourceLoadFailed
    | InvalidBatchSize
    | LabelNotFound
    | BackupFailed
    | RemoveFailed
    | InstallFailed

  /** `source_index.get_items(labels)`: fails when a label is not live in the source. */
  function GetItems(source: IndexData, labels: seq<int>): (r: Result<seq<Vector>, RebuildError>)
    ensures r.Ok? <==> forall i | 0 <= i < |labels| :: labels[i] in source.vectors
    ensures r.Err? ==> r.error == LabelNotFound
    ensures r.Ok? ==> r.value == Fetch(source.vectors, labels)
  {
    if forall i | 0 <= i < |labels| :: labels[i] in source.vectors then Ok(Fetch(source.vectors, labels))
    else Err(LabelNotFound)
  }

  /** `list(id_to_label.values())`: one entry per ID; the model does not fix the order. */
  method LabelValues(m: map<string, int>) returns (values: seq<int>)
    ensures |values| == |m|
    ensures forall l :: l in values <==> exists id | id in m :: m[id] == l
  {
    values := [];
    var rest := m;
    ghost var taken: set<string> := {};
    while rest != map[]
      invariant rest.Keys !! taken && rest.Keys + taken == m.Keys
      invariant forall id | id in rest :: rest[id] == m[id]
      invariant |values| == |taken|
      invariant forall l :: l in values <==> exists id | id in taken :: m[id] == l
      decreases |rest|
    {
      var id :| id in rest;
      values := values + [rest[id]];
      taken := taken + {id};
      rest := rest - {id};
    }
    assert taken == m.Keys;
  }

  predicate AllLive(source: IndexData, values: seq<int>)
  {
    forall i | 0 <= i < |values| :: values[i] in source.vectors
  }

  /**
   * The batch loop `for i in range(0, len(values), batch_size)`: each slice
   * `values[i:i+batch_size]` is fetched from the source and added to the
   * target. A zero step makes `range` raise before any batch; a negative step
   * gives an empty range. `batches` records the slices in the order visited.
   */
  method TransferBatches(source: IndexData, target: TargetIndex, values: seq<int>, batchSize: int)
    returns (err: Option<RebuildError>, ghost batches: seq<seq<int>>)
    requires target.Valid()
    modifies target`ids, target`vectors, target`dirty
    ensures target.Valid()
    ensures batchSize == 0 ==> err == Some(InvalidBatchSize)
    ensures batchSize < 0 ==> err == None && batches == []
    ensures batchSize <= 0 ==> target.vectors == old(target.vectors) && target.ids == old(target.ids)
    ensures batchSize > 0 ==> (err == None <==> AllLive(source, values)) && (err.Some? ==> err.value == LabelNotFound)
    ensures batchSize > 0 && err == None ==>
      && batches == Chunks(values, batchSize)
      && target.vectors == Assign(old(target.vectors), values, Fetch(source.vectors, values))
  {
    batches := [];
    if batchSize == 0 {
      return Some(InvalidBatchSize), batches;
    }
    if batchSize < 0 {
      return None, batches;
    }
    var n := |values|;
    var i := 0;
    ghost var v0 := target.vectors;
    while i < n
      invariant 0 <= i <= n
      invariant target.Valid()
      invariant AllLive(source, values[..i])
      invariant batches + Chunks(values[i..], batchSize) == Chunks(values, batchSize)
      invariant target.vectors == Assign(v0, values[..i], Fetch(source.vectors, values[..i]))
    {
      var j := Min(i + batchSize, n);
      var batch := values[i..j];
      var items := GetItems(source, batch);
      if items.Err? {
        MissingLabelInBatch(source, values, i, j);
        return Some(items.error), batches;
      }
      BatchStep(v0, source, values, i, j);
      target.AddItems(items.value, batch);
      ChunksStep(values, i, j, batchSize);
      assert (batches + [batch]) + Chunks(values[j..], batchSize) == batches + ([batch] + Chunks(values[j..], batchSize));
      batches := batches + [batch];
      i := j;
    }
    assert values[..n] == values;
    err := None;
  }

  lemma MissingLabelInBatch(source: IndexData, values: seq<int>, i: nat, j: nat)
    requires i <= j <= |values| && !AllLive(source, values[i..j])
    ensures !AllLive(source, values)
  {
    var k :| 0 <= k < j - i && values[i..j][k] !in source.vectors;
    assert values[i + k] == values[i..j][k];
  }

  /** One batch extends what the target holds from the labels `values[..i]` to `values[..j]`. */
  lemma BatchStep(v0: map<int, Vector>, source: IndexData, values: seq<int>, i: nat, j: nat)
    requires i <= j <= |values| && AllLive(source, values[..i]) && AllLive(source, values[i..j])
    ensures AllLive(source, values[..j])
    ensures Assign(Assign(v0, values[..i], Fetch(source.vectors, values[..i])), values[i..j], Fetch(source.vectors, values[i..j]))
         == Assign(v0, values[..j], Fetch(source.vectors, values[..j]))
  {
    var a, b := values[..i], values[i..j];
    assert a + b == values[..j];
    AllLiveAppend(source, a, b);
    FetchAppend(source.vectors, a, b);
    AssignAppend(v0, a, Fetch(source.vectors, a), b, Fetch(source.vectors, b));
  }

  lemma AllLiveAppend(source: IndexData, a: seq<int>, b: seq<int>)
    requires AllLive(source, a) && AllLive(source, b)
    ensures AllLive(source, a + b)
  {
    forall k | 0 <= k < |a + b|
      ensures (a + b)[k] in source.vectors
    {
      if k >= |a| {
        assert (a + b)[k] == b[k - |a|];
      }
    }
  }

  /**
   * What the transfer achieves on a fresh target: it holds exactly the labels
   * of `values`, each with the source's vector, and no more of them than
   * `values` has entries, so `max_elements = len(id_to_label)` is never exceeded.
   */
  lemma {:induction false} TransferContents(source: IndexData, values: seq<int>)
    requires AllLive(source, values)
    ensures var t := Assign(map[], values, Fetch(source.vectors, values));
      && (forall l :: l in t <==> l in values)
      && (forall l | l in t :: t[l] == source.vectors[l])
      && |t.Keys| <= |values|
  {
    var t := Assign(map[], values, Fetch(source.vectors, values));
    AssignFetched(map[], source.vectors, values);
    assert t.Keys == set l | l in values;
    LabelsBound(values);
  }

  lemma {:induction false} LabelsBound(values: seq<int>)
    ensures |set l | l in values| <= |values|
  {
    if values != [] {
      var init := values[..|values| - 1];
      LabelsBound(init);
      assert values == init + [values[|values| - 1]];
      assert (set l | l in values) == (set l | l in init) + {values[|values| - 1]};
    }
  }

  // ------------------------------------------------------------ rebuild_hnsw

  /** How `rebuild_hnsw` returns normally. */
  datatype RebuildOutcome = NoMetadata(segmentId: string) | Cancelled | Rebuilt(after: HnswDetails)

  /** Failures of copies and moves that the model does not derive from the directory state. */
  datatype Faults = Faults(stagingFails: bool, moveFails: bool, installFails: bool)

  function BackupName(segmentId: string, timestamp: string): (r: string)
    ensures |r| > |segmentId| && r[..|segmentId|] == segmentId
  {
    segmentId + "_backup_" + timestamp
  }

  /** The operations that move, remove or replace the live segment dir `seg`. */
  predicate TouchesLive(e: Event, seg: string)
  {
    (e.Moved? && e.src == seg) || (e.Removed? && e.name == seg) || (e.Installed? && e.name == seg)
  }

  /**
   * The ordering a rebuild must keep: the live segment dir is touched only
   * after the target is flushed, the commit comes only after the staged copy
   * is installed, and a commit or a rollback ends the run.
   */
  predicate OrderedLog(log: seq<Event>, seg: string)
  {
    && (forall i | 0 <= i < |log| && TouchesLive(log[i], seg) :: Flushed in log[..i])
    && (forall i | 0 <= i < |log| && log[i] == Committed :: Installed(seg) in log[..i] && i == |log| - 1)
    && (forall i | 0 <= i < |log| && log[i] == RolledBack :: i == |log| - 1)
  }

  /** The journal of a rebuild that runs to the end, from `BEGIN EXCLUSIVE` on. */
  function SegmentLog(seg: string, backup: bool, bak: string): seq<Event>
  {
    [Locked, Flushed, if backup then Moved(seg, bak) else Removed(seg), Installed(seg), Committed]
  }

  /** The journal of a rebuild that runs to the end keeps the ordering. */
  lemma FullLogOrdered(seg: string, backup: bool, bak: string)
    ensures OrderedLog(SegmentLog(seg, backup, bak), seg)
  {
    var full := SegmentLog(seg, backup, bak);
    assert forall i | 0 <= i < |full| && TouchesLive(full[i], seg) :: 2 <= i && full[..i][1] == Flushed;
    assert forall i | 0 <= i < |full| && full[i] == Committed :: i == 4 && full[..i][3] == Installed(seg);
  }

  /** A journal closed by a rollback at any point before the commit keeps the ordering. */
  lemma RolledBackLogOrdered(seg: string, backup: bool, bak: string, k: nat)
    requires k <= 3
    ensures OrderedLog(SegmentLog(seg, backup, bak)[..k] + [RolledBack], seg)
  {
    var full := SegmentLog(seg, backup, bak);
    var cut := full[..k] + [RolledBack];
    assert forall i | 0 <= i < k :: cut[i] == full[i];
    assert cut[k] == RolledBack;
    assert forall i | 0 <= i < |cut| && TouchesLive(cut[i], seg) :: i == 2 && cut[..i][1] == Flushed;
    assert forall i | 0 <= i < |cut| :: cut[i] != Committed;
  }

  /** The ordering rejects a run that removes the live dir before the flush. */
  lemma RemoveBeforeFlushUnordered(seg: string)
    ensures !OrderedLog([Locked, Removed(seg), Flushed, Installed(seg), Committed], seg)
  {
    var log := [Locked, Removed(seg), Flushed, Installed(seg), Committed];
    assert TouchesLive(log[1], seg) && log[..1] == [Locked];
  }

  /** The persist dir once the old segment dir is moved to its backup name, or removed. */
  function Displaced(entries: map<string, Entry>, seg: string, backup: bool, bak: string): map<string, Entry>
    requires seg in entries
  {
    if backup then (entries - {seg})[bak := entries[seg]] else entries - {seg}
  }

  /**
   * The staged directory: a copy of the old segment dir whose index files are
   * replaced by what the target has flushed, if it has flushed anything.
   */
  function StagedEntry(old_: Entry, persisted: Option<IndexData>): (r: Entry)
    requires old_.Dir?
    ensures r.Dir? && r.header == Present && r.sidecar == old_.sidecar
    ensures persisted.Some? ==> r.index == persisted
    ensures persisted.None? ==> r.index == old_.index
  {
    Dir(Present, old_.sidecar, if persisted.Some? then persisted else old_.index)
  }

  /**
   * The target a confirmed rebuild leaves behind: opened with the segment's
   * parameters, flushed, and holding exactly the labels of the side-car, each
   * with its vector from the source index; a negative batch size adds nothing.
   */
  ghost predicate FilledTarget(target: TargetIndex, d: HnswDetails, source: IndexData)
    reads target
  {
    && !target.dirty
    && target.space == d.config.space && target.dim == d.dimensions
    && target.maxElements == |d.idToLabel| && target.efConstruction == d.config.efConstruction
    && target.m == d.config.m && target.numThreads == d.config.numThreads && target.ef == d.config.efSearch
    && (d.config.batchSize > 0 ==>
          && (forall l :: l in target.vectors <==> exists id | id in d.idToLabel :: d.idToLabel[id] == l)
          && (forall l | l in target.vectors :: l in source.vectors && target.vectors[l] == source.vectors[l])
          && |target.vectors.Keys| <= target.maxElements)
    && (d.config.batchSize < 0 ==> target.vectors == map[])
  }

  /** `hnswlib.Index(space, dim)` followed by `init_index`, `set_num_threads` and `set_ef` (lines 120-129). */
  method OpenTarget(d: HnswDetails, journal: Journal) returns (target: TargetIndex)
    ensures fresh(target) && target.Valid() && target.ids == [] && target.vectors == map[] && !target.dirty
    ensures target.journal == journal && target.persisted == None
    ensures target.space == d.config.space && target.dim == d.dimensions
    ensures target.maxElements == |d.idToLabel| && target.efConstruction == d.config.efConstruction
    ensures target.m == d.config.m && target.numThreads == d.config.numThreads && target.ef == d.config.efSearch
  {
    target := new TargetIndex(d.config.space, d.dimensions, journal);
    target.InitIndex(|d.idToLabel|, d.config.efConstruction, d.config.m);
    target.SetNumThreads(d.config.numThreads);
    target.SetEf(d.config.efSearch);
  }

  /**
   * Lines 143-164: fill the target batch by batch, flush it, then swap the
   * directories; a failed transfer rolls the transaction back. `log` is what
   * the directory, the target and the catalog add to their shared journal.
   */
  method TransferAndSwap(fs: PersistDir, db: Catalog, target: TargetIndex, source: IndexData, values: seq<int>,
                         batchSize: int, seg: string, backup: bool, bak: string, installFails: bool, moveFails: bool)
    returns (err: Option<RebuildError>, ghost log: seq<Event>)
    requires fs.Valid() && target.Valid() && target.ids == [] && target.vectors == map[] && target.persisted == None
    requires db.journal == fs.journal && target.journal == fs.journal
    requires db.tx == Exclusive && db.saved == db.tables
    requires seg in fs.entries && fs.entries[seg].Dir? && seg != bak
    modifies fs`names, fs`entries, db, target`ids, target`vectors, target`dirty, target`persisted, fs.journal`events
    ensures fs.Valid() && target.Valid() && db.tx == Idle && db.tables == old(db.tables)
    ensures fs.journal.events == old(fs.journal.events) + log
    ensures err.None? ==>
      && (batchSize > 0 ==> AllLive(source, values) && target.vectors == Assign(map[], values, Fetch(source.vectors, values)))
      && (batchSize < 0 ==> target.vectors == map[])
      && !target.dirty && target.persisted == Some(target.Snapshot())
      && fs.entries == Displaced(old(fs.entries), seg, backup, bak)[seg := StagedEntry(old(fs.entries)[seg], Some(target.Snapshot()))]
      && log == SegmentLog(seg, backup, bak)[1..]
    ensures err.Some? ==> exists k | 1 <= k <= 3 :: log == SegmentLog(seg, backup, bak)[1..k] + [RolledBack]
    ensures err.Some? && fs.entries != old(fs.entries) ==> installFails && fs.entries == Displaced(old(fs.entries), seg, backup, bak)
  {
    var transferError, batches := TransferBatches(source, target, values, batchSize);
    if transferError.Some? {
      db.Rollback();
      log := [RolledBack];
      assert log == SegmentLog(seg, backup, bak)[1..1] + [RolledBack];
      return transferError, log;
    }
    ghost var events0 := fs.journal.events;
    target.PersistDirty();
    ghost var swapLog;
    err, swapLog := SwapDirs(fs, db, target, seg, backup, bak, installFails, moveFails);
    log := [Flushed] + swapLog;
    AppendAssoc(events0, [Flushed], swapLog);
    if err.Some? {
      ghost var k :| 2 <= k <= 3 && swapLog == SegmentLog(seg, backup, bak)[2..k] + [RolledBack];
      assert log == SegmentLog(seg, backup, bak)[1..k] + [RolledBack];
    } else {
      assert log == SegmentLog(seg, backup, bak)[1..];
    }
  }

  /**
   * Lines 155-164: move the old segment dir to its backup name or remove it,
   * copy the staged dir, which holds what the target has flushed, into its
   * place and commit; any failure rolls the transaction back.
   */
  method SwapDirs(fs: PersistDir, db: Catalog, target: TargetIndex, seg: string, backup: bool, bak: string,
                  installFails: bool, moveFails: bool)
    returns (err: Option<RebuildError>, ghost log: seq<Event>)
    requires fs.Valid() && db.journal == fs.journal
    requires db.tx == Exclusive && db.saved == db.tables
    requires seg in fs.entries && fs.entries[seg].Dir? && seg != bak
    modifies fs`names, fs`entries, db, fs.journal`events
    ensures fs.Valid() && db.tx == Idle && db.tables == old(db.tables)
    ensures fs.journal.events == old(fs.journal.events) + log
    ensures err.None? ==>
      && fs.entries == Displaced(old(fs.entries), seg, backup, bak)[seg := StagedEntry(old(fs.entries)[seg], target.persisted)]
      && log == SegmentLog(seg, backup, bak)[2..]
    ensures err.Some? ==> exists k | 2 <= k <= 3 :: log == SegmentLog(seg, backup, bak)[2..k] + [RolledBack]
    ensures err.Some? && fs.entries != old(fs.entries) ==> installFails && fs.entries == Displaced(old(fs.entries), seg, backup, bak)
  {
    var original := fs.entries[seg];
    ghost var full := SegmentLog(seg, backup, bak);
    err, log := DisplaceOld(fs, db, seg, backup, bak, moveFails);
    if err.Some? {
      assert log == full[2..2] + [RolledBack];
      return;
    }
    assert log == full[2..3];
    if installFails {
      db.Rollback();
      return Some(InstallFailed), log + [RolledBack];
    }
    fs.Install(seg, StagedEntry(original, target.persisted));
    db.Commit();
    log := log + [Installed(seg), Committed];
    assert log == full[2..];
  }

  /**
   * Lines 155-160: `shutil.move` of the old segment dir to its backup name, or
   * `shutil.rmtree` of it; a failure rolls the transaction back. A backup
   * name that already exists is treated as a failed move.
   */
  method DisplaceOld(fs: PersistDir, db: Catalog, seg: string, backup: bool, bak: string, moveFails: bool)
    returns (err: Option<RebuildError>, ghost log: seq<Event>)
    requires fs.Valid() && db.journal == fs.journal
    requires db.tx == Exclusive && db.saved == db.tables
    requires seg in fs.entries && seg != bak
    modifies fs`names, fs`entries, db, fs.journal`events
    ensures fs.Valid() && db.tables == old(db.tables)
    ensures fs.journal.events == old(fs.journal.events) + log
    ensures err.None? ==>
      && db.tx == Exclusive && db.saved == old(db.saved)
      && fs.entries == Displaced(old(fs.entries), seg, backup, bak)
      && log == [if backup then Moved(seg, bak) else Removed(seg)]
    ensures err.Some? ==> db.tx == Idle && fs.entries == old(fs.entries) && log == [RolledBack]
    ensures err.Some? ==> err == Some(if backup then BackupFailed else RemoveFailed)
  {
    if backup {
      if moveFails || bak in fs.entries {
        db.Rollback();
        return Some(BackupFailed), [RolledBack];
      }
      fs.Rename(seg, bak);
      return None, [Moved(seg, bak)];
    }
    var removed := fs.RemoveTree(seg);
    if !removed {
      db.Rollback();
      return Some(RemoveFailed), [RolledBack];
    }
    return None, [Removed(seg)];
  }

  /**
   * Lines 116-164 for a segment with a side-car: stage a copy, open the
   * target and the source index, ask, then transfer and swap. `cancelled`
   * reports a declined prompt.
   */
  method RebuildSegment(fs: PersistDir, db: Catalog, d: HnswDetails, backup: bool, yes: bool, confirmed: bool,
                        bak: string, faults: Faults)
    returns (err: Option<RebuildError>, cancelled: bool, target: TargetIndex?, ghost log: seq<Event>)
    requires fs.Valid() && db.tx == Exclusive && db.saved == db.tables && db.journal == fs.journal
    requires d.segmentId in fs.entries && fs.entries[d.segmentId].Dir? && d.segmentId != bak
    modifies fs`names, fs`entries, db, fs.journal`events
    ensures fs.Valid() && db.tables == old(db.tables)
    ensures fs.journal.events == old(fs.journal.events) + log
    ensures err.Some? ==> db.tx == Idle && exists k | 1 <= k <= 3 :: log == SegmentLog(d.segmentId, backup, bak)[1..k] + [RolledBack]
    ensures err.Some? && fs.entries != old(fs.entries) ==>
      faults.installFails && fs.entries == Displaced(old(fs.entries), d.segmentId, backup, bak)
    ensures err.None? && cancelled ==>
      !yes && !confirmed && fs.entries == old(fs.entries) && db.tx == Exclusive && log == []
    ensures err.None? && !cancelled ==>
      var seg := d.segmentId;
      var source := old(fs.entries)[seg].index;
      && (yes || confirmed) && source.Some?
      && target != null && fresh(target) && FilledTarget(target, d, source.value)
      && fs.entries == Displaced(old(fs.entries), seg, backup, bak)[seg := StagedEntry(old(fs.entries)[seg], Some(target.Snapshot()))]
      && db.tx == Idle
      && log == SegmentLog(seg, backup, bak)[1..]
  {
    target, cancelled := null, false;
    var seg := d.segmentId;
    if faults.stagingFails {
      db.Rollback();
      log := [RolledBack];
      assert log == SegmentLog(seg, backup, bak)[1..1] + [RolledBack];
      return Some(StagingFailed), cancelled, target, log;
    }
    var original := fs.entries[seg];
    target := OpenTarget(d, fs.journal);
    if original.index.None? {
      db.Rollback();
      log := [RolledBack];
      assert log == SegmentLog(seg, backup, bak)[1..1] + [RolledBack];
      return Some(SourceLoadFailed), cancelled, target, log;
    }
    var source := original.index.value;
    if !yes && !confirmed {
      return None, true, target, [];
    }
    err, log := SwapIn(fs, db, target, source, d, backup, bak, faults);
  }

  /** Lines 133-164 of the rebuild, once it is confirmed: fill the target from the source's labels, then swap it in. */
  method SwapIn(fs: PersistDir, db: Catalog, target: TargetIndex, source: IndexData, d: HnswDetails,
                backup: bool, bak: string, faults: Faults)
    returns (err: Option<RebuildError>, ghost log: seq<Event>)
    requires fs.Valid() && target.Valid() && target.ids == [] && target.vectors == map[] && target.persisted == None
    requires db.journal == fs.journal && target.journal == fs.journal
    requires db.tx == Exclusive && db.saved == db.tables
    requires d.segmentId in fs.entries && fs.entries[d.segmentId].Dir? && d.segmentId != bak
    modifies fs`names, fs`entries, db, target`ids, target`vectors, target`dirty, target`persisted, fs.journal`events
    ensures fs.Valid() && db.tx == Idle && db.tables == old(db.tables)
    ensures fs.journal.events == old(fs.journal.events) + log
    ensures err.None? ==>
      && !target.dirty
      && (d.config.batchSize > 0 ==>
            && (forall l :: l in target.vectors <==> exists id | id in d.idToLabel :: d.idToLabel[id] == l)
            && (forall l | l in target.vectors :: l in source.vectors && target.vectors[l] == source.vectors[l])
            && |target.vectors.Keys| <= |d.idToLabel|)
      && (d.config.batchSize < 0 ==> target.vectors == map[])
      && fs.entries == Displaced(old(fs.entries), d.segmentId, backup, bak)[d.segmentId := StagedEntry(old(fs.entries)[d.segmentId], Some(target.Snapshot()))]
      && log == SegmentLog(d.segmentId, backup, bak)[1..]
    ensures err.Some? ==> exists k | 1 <= k <= 3 :: log == SegmentLog(d.segmentId, backup, bak)[1..k] + [RolledBack]
    ensures err.Some? && fs.entries != old(fs.entries) ==>
      faults.installFails && fs.entries == Displaced(old(fs.entries), d.segmentId, backup, bak)
  {
    var values := LabelValues(d.idToLabel);
    err, log := TransferAndSwap(fs, db, target, source, values, d.config.batchSize, d.segmentId, backup, bak,
                                faults.installFails, faults.moveFails);
    if err.None? && d.config.batchSize > 0 {
      TransferContents(source, values);
    }
  }

  /**
   * `rebuild_hnsw`. `confirmed` is the answer to the prompt, `timestamp` the
   * formatted clock, `faults` the copies and moves that fail. Returns the
   * outcome and the target index (null until it is created); `log` is what
   * the run adds to the journal the directory and the catalog share.
   */
  method RebuildHnsw(fs: PersistDir, db: Catalog, name: string, database: string, backup: bool, yes: bool,
                     confirmed: bool, timestamp: string, faults: Faults)
    returns (r: Result<RebuildOutcome, RebuildError>, target: TargetIndex?, ghost log: seq<Event>)
    requires fs.Valid() && db.tx == Idle && db.journal == fs.journal
    modifies fs`names, fs`entries, db, fs.journal`events
    ensures fs.Valid()
    ensures db.tables == old(db.tables)
    ensures fs.journal.events == old(fs.journal.events) + log
    ensures ValidatePersistDir(fs.root, old(fs.entries)).Some? ==>
      r == Err(ValidationFailed(ValidatePersistDir(fs.root, old(fs.entries)).value)) && log == [] && fs.entries == old(fs.entries)
    ensures ValidatePersistDir(fs.root, old(fs.entries)).None? && db.busy ==>
      r == Err(DatabaseLocked) && log == [] && fs.entries == old(fs.entries)
    ensures r.Err? ==> db.tx == Idle
    ensures ValidatePersistDir(fs.root, old(fs.entries)).None? && !db.busy && GetHnswDetails(old(db.tables), fs.Location(), old(fs.entries), name, database).Err? ==>
      r == Err(Details(GetHnswDetails(old(db.tables), fs.Location(), old(fs.entries), name, database).error)) && log == [Locked, RolledBack] && fs.entries == old(fs.entries)
    ensures GetHnswDetails(old(db.tables), fs.Location(), old(fs.entries), name, database).Ok? ==> OrderedLog(log, GetHnswDetails(old(db.tables), fs.Location(), old(fs.entries), name, database).value.segmentId)
    ensures r.Err? && log != [] && GetHnswDetails(old(db.tables), fs.Location(), old(fs.entries), name, database).Ok? ==>
      var seg := GetHnswDetails(old(db.tables), fs.Location(), old(fs.entries), name, database).value.segmentId;
      exists k | 1 <= k <= 3 :: log == SegmentLog(seg, backup, BackupName(seg, timestamp))[..k] + [RolledBack]
    ensures r.Ok? && !r.value.Rebuilt? ==> fs.entries == old(fs.entries) && db.tx == Exclusive && log == [Locked]
    ensures r.Ok? || fs.entries != old(fs.entries) ==>
      && ValidatePersistDir(fs.root, old(fs.entries)).None? && !db.busy && GetHnswDetails(old(db.tables), fs.Location(), old(fs.entries), name, database).Ok?
    ensures r.Ok? ==>
      var d := GetHnswDetails(old(db.tables), fs.Location(), old(fs.entries), name, database).value;
      && (r.value.NoMetadata? <==> !d.hasMetadata)
      && (r.value.NoMetadata? ==> r.value.segmentId == d.segmentId && target == null)
      && (r.value.Cancelled? ==> !yes && !confirmed)
      && (r.value.Rebuilt? ==> (yes || confirmed) && log == SegmentLog(d.segmentId, backup, BackupName(d.segmentId, timestamp)) && db.tx == Idle)
    ensures r.Ok? && r.value.Rebuilt? ==>
      var d := GetHnswDetails(old(db.tables), fs.Location(), old(fs.entries), name, database).value;
      var seg := d.segmentId;
      && seg in old(fs.entries) && old(fs.entries)[seg].Dir? && old(fs.entries)[seg].index.Some?
      && var source := old(fs.entries)[seg].index.value;
      && target != null && fresh(target) && FilledTarget(target, d, source)
      && fs.entries == Displaced(old(fs.entries), seg, backup, BackupName(seg, timestamp))
                         [seg := StagedEntry(old(fs.entries)[seg], Some(target.Snapshot()))]
      && r.value.after == GetHnswDetails(old(db.tables), fs.Location(), fs.entries, name, database).value
    ensures r.Err? && fs.entries != old(fs.entries) ==>
      var seg := GetHnswDetails(old(db.tables), fs.Location(), old(fs.entries), name, database).value.segmentId;
      && faults.installFails && seg in old(fs.entries)
      && fs.entries == Displaced(old(fs.entries), seg, backup, BackupName(seg, timestamp))
  {
    log, target := [], null;
    var v := ValidatePersistDir(fs.root, fs.entries);
    if v.Some? {
      return Err(ValidationFailed(v.value)), target, log;
    }
    var locked := db.BeginExclusive();
    if !locked {
      return Err(DatabaseLocked), target, log;
    }
    ghost var events0 := old(fs.journal.events);
    ghost var tail;
    r, target, tail := RebuildLocked(fs, db, name, database, backup, yes, confirmed, timestamp, faults,
                                     old(db.tables), old(fs.entries));
    log := [Locked] + tail;
    AppendAssoc(events0, [Locked], tail);
  }

  /**
   * Lines 103-168, once `BEGIN EXCLUSIVE` has succeeded: look the segment up,
   * return early without a side-car, otherwise rebuild the segment and look
   * it up again. `log` is what the run adds to the journal after the lock.
   */
  method RebuildLocked(fs: PersistDir, db: Catalog, name: string, database: string, backup: bool, yes: bool,
                       confirmed: bool, timestamp: string, faults: Faults,
                       ghost tables0: Tables, ghost entries0: map<string, Entry>)
    returns (r: Result<RebuildOutcome, RebuildError>, target: TargetIndex?, ghost log: seq<Event>)
    requires fs.Valid() && db.tx == Exclusive && db.saved == db.tables && db.journal == fs.journal
    requires db.tables == tables0 && fs.entries == entries0
    modifies fs`names, fs`entries, db, fs.journal`events
    ensures fs.Valid()
    ensures db.tables == tables0
    ensures fs.journal.events == old(fs.journal.events) + log
    ensures r.Err? ==> db.tx == Idle
    ensures GetHnswDetails(tables0, fs.Location(), entries0, name, database).Err? ==> r == Err(Details(GetHnswDetails(tables0, fs.Location(), entries0, name, database).error)) && log == [RolledBack] && fs.entries == entries0
    ensures GetHnswDetails(tables0, fs.Location(), entries0, name, database).Ok? ==> OrderedLog([Locked] + log, GetHnswDetails(tables0, fs.Location(), entries0, name, database).value.segmentId)
    ensures r.Err? && GetHnswDetails(tables0, fs.Location(), entries0, name, database).Ok? ==>
      var seg := GetHnswDetails(tables0, fs.Location(), entries0, name, database).value.segmentId;
      exists k | 1 <= k <= 3 :: [Locked] + log == SegmentLog(seg, backup, BackupName(seg, timestamp))[..k] + [RolledBack]
    ensures r.Ok? && !r.value.Rebuilt? ==> fs.entries == entries0 && db.tx == Exclusive && log == []
    ensures r.Ok? || fs.entries != entries0 ==> GetHnswDetails(tables0, fs.Location(), entries0, name, database).Ok?
    ensures r.Ok? ==>
      var d := GetHnswDetails(tables0, fs.Location(), entries0, name, database).value;
      && (r.value.NoMetadata? <==> !d.hasMetadata)
      && (r.value.NoMetadata? ==> r.value.segmentId == d.segmentId && target == null)
      && (r.value.Cancelled? ==> !yes && !confirmed)
      && (r.value.Rebuilt? ==> (yes || confirmed) && [Locked] + log == SegmentLog(d.segmentId, backup, BackupName(d.segmentId, timestamp)) && db.tx == Idle)
    ensures r.Ok? && r.value.Rebuilt? ==>
      var d := GetHnswDetails(tables0, fs.Location(), entries0, name, database).value;
      var seg := d.segmentId;
      && seg in entries0 && entries0[seg].Dir? && entries0[seg].index.Some?
      && var source := entries0[seg].index.value;
      && target != null && fresh(target) && FilledTarget(target, d, source)
      && fs.entries == Displaced(entries0, seg, backup, BackupName(seg, timestamp))
                         [seg := StagedEntry(entries0[seg], Some(target.Snapshot()))]
      && r.value.after == GetHnswDetails(tables0, fs.Location(), fs.entries, name, database).value
    ensures r.Err? && fs.entries != entries0 ==>
      var seg := GetHnswDetails(tables0, fs.Location(), entries0, name, database).value.segmentId;
      && faults.installFails && seg in entries0
      && fs.entries == Displaced(entries0, seg, backup, BackupName(seg, timestamp))
  {
    target := null;
    var det := GetHnswDetails(db.tables, fs.Location(), fs.entries, name, database);
    if det.Err? {
      db.Rollback();
      return Err(Details(det.error)), target, [RolledBack];
    }
    var d := det.value;
    var bak := BackupName(d.segmentId, timestamp);
    ghost var full := SegmentLog(d.segmentId, backup, bak);
    if !d.hasMetadata {
      assert [Locked] == full[..1] + [];
      return Ok(NoMetadata(d.segmentId)), target, [];
    }
    var err, cancelled;
    err, cancelled, target, log := RebuildSegment(fs, db, d, backup, yes, confirmed, bak, faults);
    if err.Some? {
      ghost var k :| 1 <= k <= 3 && log == full[1..k] + [RolledBack];
      assert [Locked] + log == full[..k] + [RolledBack];
      RolledBackLogOrdered(d.segmentId, backup, bak, k);
      return Err(err.value), target, log;
    }
    if cancelled {
      return Ok(Cancelled), target, log;
    }
    assert [Locked] + log == full;
    FullLogOrdered(d.segmentId, backup, bak);
    DetailsStableUnderDirChange(db.tables, fs.Location(), entries0, fs.entries, name, database);
    var after := GetHnswDetails(db.tables, fs.Location(), fs.entries, name, database);
    return Ok(Rebuilt(after.value)), target, log;
  }
}
