/**
 * chroma_ops/wal_clean.py `clean_wal` (lines 12-56): one or more DELETE
 * statements per VECTOR segment, then `VACUUM`, run as one script against
 * the WAL (`embeddings_queue`).
 */
module WalClean {
  import opened Wrappers
  import opened Storage
  import opened Seqs
  import opened Chunking
  import opened Utils
  import Hnsw

  /** The statements the script is made of. */
  datatype Stmt =
    | DeleteBelow(watermark: int, topic: string)   // seq_id < watermark AND topic = ...
    | DeleteIn(ids: seq<int>)                      // seq_id IN (...)
    | Vacuum

  datatype WalCleanError =
    | ValidationFailed(reason: DirError)
    | SidecarWithoutWatermark(segmentId: string)   // a pickle from Chroma 0.5.7 on has no `max_seq_id`
    | IndexLoadFailed(segmentId: string)

  /** A call of `get_hnsw_index_ids`: the directory and the space it opens the index with. */
  datatype IndexOpen = IndexOpen(path: Path, space: string)

  const CleanupBatchSize: nat := 100

  /** The rows of the `WHERE s.scope = 'VECTOR'` query, in table order. */
  function VectorRows(segments: seq<SegmentRow>): (r: seq<SegmentRow>)
    ensures forall s | s in r :: s in segments && s.scope == Vector
    ensures forall i | 0 <= i < |segments| && segments[i].scope == Vector :: segments[i] in r
  {
    Filter(segments, (s: SegmentRow) => s.scope == Vector)
  }

  /** The `hnsw:space` of a collection: the first matching metadata row's value, else "l2". */
  function HnswSpace(md: seq<MetadataRow>, collectionId: string): (r: string)
    ensures (forall i | 0 <= i < |md| :: !IsSpaceRow(md[i], collectionId)) ==> r == "l2"
    ensures (exists i | 0 <= i < |md| :: IsSpaceRow(md[i], collectionId)) ==>
      exists i | 0 <= i < |md| :: IsSpaceRow(md[i], collectionId) && r == md[i].strValue
                                 && forall j | 0 <= j < i :: !IsSpaceRow(md[j], collectionId)
  {
    if md == [] then "l2"
    else if IsSpaceRow(md[0], collectionId) then md[0].strValue
    else
      var r := HnswSpace(md[1..], collectionId);
      assert forall i | 0 <= i < |md| - 1 :: md[1..][i] == md[i + 1];
      r
  }

  predicate IsSpaceRow(row: MetadataRow, collectionId: string)
  {
    row.collectionId == collectionId && row.key == "hnsw:space"
  }

  function SegmentEntry(entries: map<string, Entry>, id: string): Option<Entry>
  {
    if id in entries then Some(entries[id]) else None
  }

  function DeleteIns(batches: seq<seq<int>>): (r: seq<Stmt>)
    ensures |r| == |batches| && forall i | 0 <= i < |r| :: r[i] == DeleteIn(batches[i])
  {
    seq(|batches|, i requires 0 <= i < |batches| => DeleteIn(batches[i]))
  }

  /**
   * The statements of one VECTOR segment: with a side-car, a watermark
   * delete on the segment's topic; without, the index's labels as `IN`
   * lists of at most 100, on every topic.
   */
  function SegmentStmts(entries: map<string, Entry>, s: SegmentRow): Result<seq<Stmt>, WalCleanError>
  {
    match Hnsw.Sidecar(entries, s.id)
    case Some(side) =>
      if side.maxSeqId.None? then Err(SidecarWithoutWatermark(s.id))
      else Ok([DeleteBelow(side.maxSeqId.value, s.topic)])
    case None =>
      match IndexIds(SegmentEntry(entries, s.id))
      case Err(_) => Err(IndexLoadFailed(s.id))
      case Ok(ids) => Ok(DeleteIns(Chunks(ids, CleanupBatchSize)))
  }

  /** `wal_cleanup_queries` after the rows `rows`, or the first exception. */
  function Plan(entries: map<string, Entry>, rows: seq<SegmentRow>): Result<seq<Stmt>, WalCleanError>
  {
    if rows == [] then Ok([])
    else match Plan(entries, rows[..|rows| - 1])
      case Err(e) => Err(e)
      case Ok(init) =>
        match SegmentStmts(entries, rows[|rows| - 1])
        case Err(e) => Err(e)
        case Ok(more) => Ok(init + more)
  }

  /** The indexes the fallback opens for the rows `rows`. */
  function Loads(persist: Path, entries: map<string, Entry>, md: seq<MetadataRow>, rows: seq<SegmentRow>): seq<IndexOpen>
  {
    if rows == [] then []
    else
      var s := rows[|rows| - 1];
      Loads(persist, entries, md, rows[..|rows| - 1]) +
        (if Hnsw.Sidecar(entries, s.id).None? then [IndexOpen(Join(persist, s.id), HnswSpace(md, s.collection))] else [])
  }

  /** The script that runs: nothing at all, or the statements followed by one `VACUUM`. */
  function Script(plan: seq<Stmt>): (r: seq<Stmt>)
  {
    if plan == [] then [] else plan + [Vacuum]
  }

  /** The rows a statement leaves in place. */
  function Keeps(st: Stmt): WalRow -> bool
  {
    match st
    case DeleteBelow(m, t) => (w: WalRow) => !(w.seqId < m && w.topic == t)
    case DeleteIn(ids) => NotIn(ids)
    case Vacuum => (w: WalRow) => true
  }

  function NotIn(ids: seq<int>): WalRow -> bool
  {
    (w: WalRow) => w.seqId !in ids
  }

  function OtherTopic(t: string): WalRow -> bool
  {
    (w: WalRow) => w.topic != t
  }

  /** The effect of one statement on the WAL. */
  function Apply(wal: seq<WalRow>, st: Stmt): seq<WalRow>
  {
    Filter(wal, Keeps(st))
  }

  /** Running the statements in order. */
  function Execute(wal: seq<WalRow>, script: seq<Stmt>): seq<WalRow>
    decreases |script|
  {
    if script == [] then wal else Execute(Apply(wal, script[0]), script[1..])
  }

  // ------------------------------------------------------------------ the loops

  /** The inner `for batch in range(0, len(list_of_ids), 100)` loop. */
  method BatchDeletes(ids: seq<int>) returns (stmts: seq<Stmt>)
    ensures stmts == DeleteIns(Chunks(ids, CleanupBatchSize))
  {
    stmts := [];
    ghost var batches: seq<seq<int>> := [];
    var i := 0;
    while i < |ids|
      invariant 0 <= i <= |ids|
      invariant batches + Chunks(ids[i..], CleanupBatchSize) == Chunks(ids, CleanupBatchSize)
      invariant stmts == DeleteIns(batches)
    {
      var j := Min(i + CleanupBatchSize, |ids|);
      ChunksStep(ids, i, j, CleanupBatchSize);
      stmts := stmts + [DeleteIn(ids[i..j])];
      batches := batches + [ids[i..j]];
      i := j;
    }
  }

  /** The `for row in results` loop building `wal_cleanup_queries`. */
  method BuildStatements(persist: Path, entries: map<string, Entry>, md: seq<MetadataRow>, rows: seq<SegmentRow>)
    returns (r: Result<seq<Stmt>, WalCleanError>, loads: seq<IndexOpen>)
    ensures r == Plan(entries, rows)
    ensures r.Ok? ==> loads == Loads(persist, entries, md, rows)
  {
    var queries: seq<Stmt> := [];
    loads := [];
    for k := 0 to |rows|
      invariant Plan(entries, rows[..k]) == Ok(queries)
      invariant loads == Loads(persist, entries, md, rows[..k])
    {
      assert rows[..k + 1][..k] == rows[..k];
      var s := rows[k];
      var side := Hnsw.Sidecar(entries, s.id);
      if side.Some? {
        if side.value.maxSeqId.None? {
          PlanAbsorbs(entries, rows, k + 1);
          return Err(SidecarWithoutWatermark(s.id)), loads;
        }
        queries := queries + [DeleteBelow(side.value.maxSeqId.value, s.topic)];
      } else {
        var space := HnswSpace(md, s.collection);
        loads := loads + [IndexOpen(Join(persist, s.id), space)];
        var ids := IndexIds(SegmentEntry(entries, s.id));
        if ids.Err? {
          PlanAbsorbs(entries, rows, k + 1);
          return Err(IndexLoadFailed(s.id)), loads;
        }
        var more := BatchDeletes(ids.value);
        queries := queries + more;
      }
    }
    assert rows[..|rows|] == rows;
    return Ok(queries), loads;
  }

  /** Once a prefix of the rows raises, so does the whole loop, with the same exception. */
  lemma {:induction false} PlanAbsorbs(entries: map<string, Entry>, rows: seq<SegmentRow>, k: nat)
    requires k <= |rows| && Plan(entries, rows[..k]).Err?
    ensures Plan(entries, rows) == Plan(entries, rows[..k])
    decreases |rows| - k
  {
    if k < |rows| {
      assert rows[..k + 1][..k] == rows[..k];
      PlanAbsorbs(entries, rows, k + 1);
    } else {
      assert rows[..k] == rows;
    }
  }

  /**
   * `clean_wal`: validate, build the statements from the VECTOR rows and,
   * when there are any, run them and `VACUUM` as one script. `loads` are
   * the index directories the fallback opened.
   */
  method CleanWal(fs: PersistDir, db: Catalog) returns (err: Option<WalCleanError>, script: seq<Stmt>, loads: seq<IndexOpen>)
    modifies db`tables
    ensures ValidatePersistDir(fs.root, fs.entries).Some? ==>
      err == Some(ValidationFailed(ValidatePersistDir(fs.root, fs.entries).value)) && script == [] && loads == []
    ensures ValidatePersistDir(fs.root, fs.entries).None? ==>
      var plan := Plan(fs.entries, VectorRows(old(db.tables.segments)));
      && (plan.Err? ==> err == Some(plan.error) && script == [])
      && (plan.Ok? ==> err == None && script == Script(plan.value)
                       && loads == Loads(fs.Location(), fs.entries, old(db.tables.collectionMetadata), VectorRows(old(db.tables.segments))))
    ensures err.None? ==> db.tables == old(db.tables).(wal := Execute(old(db.tables.wal), script))
    ensures err.Some? ==> db.tables == old(db.tables)
  {
    var invalid := ValidatePersistDir(fs.root, fs.entries);
    if invalid.Some? {
      return Some(ValidationFailed(invalid.value)), [], [];
    }
    var rows := VectorRows(db.tables.segments);
    var queries;
    queries, loads := BuildStatements(fs.Location(), fs.entries, db.tables.collectionMetadata, rows);
    if queries.Err? {
      return Some(queries.error), [], loads;
    }
    script := [];
    if |queries.value| > 0 {
      script := queries.value + [Vacuum];
      db.tables := db.tables.(wal := Execute(db.tables.wal, script));
    }
    err := None;
  }

  // ------------------------------------------------------------ properties

  lemma {:induction false} ExecuteAppend(wal: seq<WalRow>, a: seq<Stmt>, b: seq<Stmt>)
    ensures Execute(wal, a + b) == Execute(Execute(wal, a), b)
    decreases |a|
  {
    if a == [] {
      assert a + b == b;
    } else {
      assert (a + b)[0] == a[0] && (a + b)[1..] == a[1..] + b;
      ExecuteAppend(Apply(wal, a[0]), a[1..], b);
    }
  }

  /** The side-car statement removes exactly the rows of its topic below the watermark. */
  lemma DeleteBelowExact(wal: seq<WalRow>, m: int, t: string)
    ensures forall w :: w in Apply(wal, DeleteBelow(m, t)) <==> w in wal && !(w.topic == t && w.seqId < m)
    ensures Filter(Apply(wal, DeleteBelow(m, t)), OtherTopic(t)) == Filter(wal, OtherTopic(t))
  {
    var keep := Keeps(DeleteBelow(m, t));
    var other := OtherTopic(t);
    FilterFilter(wal, keep, other);
    FilterExt(wal, Both(keep, other), other);
  }

  /** The chunked fallback, taken together, removes exactly the rows whose seq_id is a label, on every topic. */
  lemma {:induction false} ChunkedDeletesExact(wal: seq<WalRow>, ids: seq<int>)
    ensures Execute(wal, DeleteIns(Chunks(ids, CleanupBatchSize))) == Filter(wal, NotIn(ids))
  {
    ChunksCover(ids, CleanupBatchSize);
    DeleteInsFlatten(wal, Chunks(ids, CleanupBatchSize));
  }

  lemma {:induction false} DeleteInsFlatten(wal: seq<WalRow>, batches: seq<seq<int>>)
    ensures Execute(wal, DeleteIns(batches)) == Filter(wal, NotIn(Flatten(batches)))
    decreases |batches|
  {
    if batches == [] {
      FilterAll(wal, NotIn(Flatten(batches)));
    } else {
      var b := batches[0];
      var rest := batches[1..];
      var stmts := DeleteIns(batches);
      assert stmts[0] == DeleteIn(b);
      assert stmts[1..] == DeleteIns(rest);
      var first := Filter(wal, NotIn(b));
      assert Execute(wal, stmts) == Execute(first, DeleteIns(rest));
      DeleteInsFlatten(first, rest);
      var p := NotIn(b);
      var q := NotIn(Flatten(rest));
      FilterFilter(wal, p, q);
      assert Flatten(batches) == b + Flatten(rest);
      FilterExt(wal, Both(p, q), NotIn(Flatten(batches)));
    }
  }

  /** Statements only delete: the WAL afterwards is a subsequence of the WAL before. */
  lemma {:induction false} ExecuteShrinks(wal: seq<WalRow>, script: seq<Stmt>)
    ensures IsSubsequence(Execute(wal, script), wal)
    decreases |script|
  {
    if script == [] {
      SubsequenceRefl(wal);
    } else {
      var next := Apply(wal, script[0]);
      ExecuteShrinks(next, script[1..]);
      FilterIsSubsequence(wal, Keeps(script[0]));
      SubsequenceTransitive(Execute(next, script[1..]), next, wal);
    }
  }

  lemma {:induction false} PlanHasNoVacuum(entries: map<string, Entry>, rows: seq<SegmentRow>)
    requires Plan(entries, rows).Ok?
    ensures Vacuum !in Plan(entries, rows).value
  {
    if rows != [] {
      PlanHasNoVacuum(entries, rows[..|rows| - 1]);
    }
  }

  /** No statements: nothing runs. Otherwise `VACUUM` is the last statement and the only one. */
  lemma ScriptShape(entries: map<string, Entry>, rows: seq<SegmentRow>, wal: seq<WalRow>)
    requires Plan(entries, rows).Ok?
    ensures var plan := Plan(entries, rows).value;
      && (plan == [] ==> Execute(wal, Script(plan)) == wal)
      && (plan != [] ==> Script(plan)[|Script(plan)| - 1] == Vacuum
                         && forall i | 0 <= i < |Script(plan)| - 1 :: Script(plan)[i] != Vacuum)
  {
    PlanHasNoVacuum(entries, rows);
    var plan := Plan(entries, rows).value;
    if plan != [] {
      forall i | 0 <= i < |Script(plan)| - 1 ensures Script(plan)[i] != Vacuum {
        assert Script(plan)[i] == plan[i];
      }
    }
  }
}
