/**
 * chroma_ops/info.py `info` (lines 57-194): the per-collection and
 * per-segment statistics, and the directories of the persist dir that no
 * reported segment accounts for.
 */
module Info {
  import opened Wrappers
  import opened Storage
  import opened Utils
  import Seqs
  import Hnsw

  datatype InfoError =
    | SeqIdUndecodable(reason: SeqIdError)
    | IndexLoadFailed(segmentId: string)
    | EmptyIndex(segmentId: string)

  /** The statistics of a VECTOR segment. */
  datatype VectorStats = VectorStats(
    metadataMaxSeqId: int, totalElements: nat, walGap: int, rawTotalElements: nat,
    orphanElements: set<int>, fragmentation: real, rawCapacity: nat)

  datatype SegmentReport = SegmentReport(
    id: string, segType: string, scope: Scope, path: Path, sidecarPath: Option<Path>,
    sysdbMaxSeqId: int, vector: Option<VectorStats>)

  datatype CollectionReport = CollectionReport(
    id: string, name: string, tenant: string, database: string, records: nat,
    dimension: Option<int>, segments: seq<SegmentReport>, walEntries: nat)

  datatype ReportedPath = Shown(path: Path) | Redacted

  datatype OrphanDir = OrphanDir(path: ReportedPath, id: string)

  datatype InfoReport = InfoReport(collections: map<string, CollectionReport>, orphanDirs: seq<OrphanDir>)

  const SqliteFile := "chroma.sqlite3"
  const SidecarFile := "index_metadata.pickle"
  const WalTopicPrefix := "persistent://default/default/"

  /** A METADATA segment lives in the SQLite file; every other one in its own dir. */
  function SegmentPath(persist: Path, s: SegmentRow): Path
  {
    if s.scope == Metadata then Join(persist, SqliteFile) else Join(persist, s.id)
  }

  function SidecarPath(persist: Path, s: SegmentRow): Option<Path>
  {
    if s.scope == Metadata then None else Some(Join(Join(persist, s.id), SidecarFile))
  }

  /** The first `max_seq_id` row of a segment. */
  function FirstSeqId(rows: seq<MaxSeqIdRow>, segmentId: string): (r: Option<SeqIdValue>)
    ensures r.None? <==> forall i | 0 <= i < |rows| :: rows[i].segmentId != segmentId
    ensures r.Some? ==> exists i | 0 <= i < |rows| :: rows[i].segmentId == segmentId && rows[i].seqId == r.value
                                     && forall j | 0 <= j < i :: rows[j].segmentId != segmentId
  {
    if rows == [] then None
    else if rows[0].segmentId == segmentId then Some(rows[0].seqId)
    else
      var r := FirstSeqId(rows[1..], segmentId);
      assert r.Some? ==> exists i | 0 <= i < |rows[1..]| :: rows[1..][i].segmentId == segmentId && rows[1..][i].seqId == r.value
                                     && forall j | 0 <= j < i :: rows[1..][j].segmentId != segmentId;
      assert forall i | 0 <= i < |rows[1..]| :: rows[1..][i] == rows[i + 1];
      r
  }

  /** The decoded catalog watermark of a segment, 0 when it has no row. */
  function CatalogSeqId(rows: seq<MaxSeqIdRow>, segmentId: string): (r: Result<int, InfoError>)
    ensures FirstSeqId(rows, segmentId).None? ==> r == Ok(0)
    ensures FirstSeqId(rows, segmentId).Some? ==>
      r == match DecodeSeqId(FirstSeqId(rows, segmentId).value)
           case Ok(n) => Ok(n)
           case Err(e) => Err(SeqIdUndecodable(e))
  {
    match FirstSeqId(rows, segmentId)
    case None => Ok(0)
    case Some(v) =>
      match DecodeSeqId(v)
      case Ok(n) => Ok(n)
      case Err(e) => Err(SeqIdUndecodable(e))
  }

  /** `(element_count - live) / element_count * 100`, which divides by zero on an empty index. */
  function Fragmentation(ix: IndexData, segmentId: string): (r: Result<real, InfoError>)
    ensures r.Err? <==> ix.elementCount == 0
    ensures r.Ok? ==> r.value * ix.elementCount as real == (ix.elementCount - |ix.ids|) as real * 100.0
  {
    if ix.elementCount == 0 then Err(EmptyIndex(segmentId))
    else Ok((ix.elementCount - |ix.ids|) as real / ix.elementCount as real * 100.0)
  }

  /** A loaded hnswlib index is never more than fully fragmented, nor less than not at all. */
  lemma FragmentationBounds(ix: IndexData, segmentId: string)
    requires IndexWellFormed(ix) && ix.elementCount > 0
    ensures 0.0 <= Fragmentation(ix, segmentId).value <= 100.0
    ensures Fragmentation(ix, segmentId).value == 0.0 <==> |ix.ids| == ix.elementCount
  {
    var x, e := (ix.elementCount - |ix.ids|) as real, ix.elementCount as real;
    assert Fragmentation(ix, segmentId).value == x / e * 100.0;
    RatioBounds(x, e);
  }

  lemma RatioBounds(x: real, e: real)
    requires e > 0.0 && 0.0 <= x <= e
    ensures 0.0 <= x / e <= 1.0
    ensures x / e == 0.0 <==> x == 0.0
  {
    var q := x / e;
    assert q * e == x;
    MulBounds(q, e);
  }

  /** For a positive `e`, `q * e` lies in `[0, e]` only when `q` lies in `[0, 1]`. */
  lemma MulBounds(q: real, e: real)
    requires e > 0.0
    ensures 0.0 <= q * e <==> 0.0 <= q
    ensures q * e <= e <==> q <= 1.0
    ensures q * e == 0.0 <==> q == 0.0
  {
    assert q * e - 0.0 * e == q * e;
    assert q * e - 1.0 * e == (q - 1.0) * e;
  }

  /** The labels of the index that the side-car does not map back to an ID. */
  function OrphanLabels(ids: seq<int>, labelToId: map<int, string>): (r: set<int>)
    ensures forall l :: l in r <==> l in ids && l !in labelToId
  {
    set l | l in ids && l !in labelToId
  }

  /**
   * The VECTOR counters: all zero without a side-car; with one, the
   * side-car's watermark (the catalog's when the pickle predates it), the
   * label counts and the index's statistics.
   */
  function VectorSegmentStats(persist: Path, entries: map<string, Entry>, s: SegmentRow, rows: seq<MaxSeqIdRow>, records: nat)
    : (r: Result<VectorStats, InfoError>)
    ensures Hnsw.Sidecar(entries, s.id).None? ==> r == Ok(VectorStats(0, 0, 0, 0, {}, 0.0, 0))
    ensures r.Ok? && Hnsw.Sidecar(entries, s.id).Some? ==>
      var side := Hnsw.Sidecar(entries, s.id).value;
      && (side.maxSeqId.Some? ==> r.value.metadataMaxSeqId == side.maxSeqId.value)
      && (side.maxSeqId.None? ==> Ok(r.value.metadataMaxSeqId) == CatalogSeqId(rows, s.id))
      && r.value.totalElements == |side.idToLabel|
      && r.value.walGap == records - |side.idToLabel|
      && entries[s.id].index.Some?
      && r.value.rawTotalElements == |entries[s.id].index.value.ids|
      && r.value.rawCapacity == entries[s.id].index.value.elementCount
      && Ok(r.value.fragmentation) == Fragmentation(entries[s.id].index.value, s.id)
      && r.value.orphanElements == OrphanLabels(entries[s.id].index.value.ids, side.labelToId)
    ensures r.Err? ==>
      && Hnsw.Sidecar(entries, s.id).Some?
      && (|| (Hnsw.Sidecar(entries, s.id).value.maxSeqId.None? && CatalogSeqId(rows, s.id).Err?)
          || entries[s.id].index.None?
          || entries[s.id].index.value.elementCount == 0)
  {
    match Hnsw.Sidecar(entries, s.id)
    case None => Ok(VectorStats(0, 0, 0, 0, {}, 0.0, 0))
    case Some(side) =>
      var watermark := if side.maxSeqId.Some? then Ok(side.maxSeqId.value) else CatalogSeqId(rows, s.id);
      if watermark.Err? then Err(watermark.error)
      else match entries[s.id].index
        case None => Err(IndexLoadFailed(s.id))
        case Some(ix) =>
          match Fragmentation(ix, s.id)
          case Err(e) => Err(e)
          case Ok(f) =>
            Ok(VectorStats(watermark.value, |side.idToLabel|, records - |side.idToLabel|, |ix.ids|,
                           OrphanLabels(ix.ids, side.labelToId), f, ix.elementCount))
  }

  /** One entry of `collection["segments"]`. */
  function SegmentStats(persist: Path, entries: map<string, Entry>, s: SegmentRow, rows: seq<MaxSeqIdRow>, records: nat)
    : (r: Result<SegmentReport, InfoError>)
    ensures r.Ok? ==> r.value.id == s.id && r.value.path == SegmentPath(persist, s) && r.value.sidecarPath == SidecarPath(persist, s)
    ensures r.Ok? ==> Ok(r.value.sysdbMaxSeqId) == CatalogSeqId(rows, s.id)
    ensures r.Ok? ==> (r.value.vector.Some? <==> s.scope == Vector)
    ensures r.Ok? && s.scope == Vector ==> Ok(r.value.vector.value) == VectorSegmentStats(persist, entries, s, rows, records)
    ensures r.Err? <==> CatalogSeqId(rows, s.id).Err? || (s.scope == Vector && VectorSegmentStats(persist, entries, s, rows, records).Err?)
  {
    match CatalogSeqId(rows, s.id)
    case Err(e) => Err(e)
    case Ok(sysdb) =>
      if s.scope != Vector then Ok(SegmentReport(s.id, s.segType, s.scope, SegmentPath(persist, s), SidecarPath(persist, s), sysdb, None))
      else match VectorSegmentStats(persist, entries, s, rows, records)
        case Err(e) => Err(e)
        case Ok(v) => Ok(SegmentReport(s.id, s.segType, s.scope, SegmentPath(persist, s), SidecarPath(persist, s), sysdb, Some(v)))
  }

  /** The rows of the segments JOIN for one collection, in table order. */
  function CollectionSegments(segs: seq<SegmentRow>, collectionId: string): (r: seq<SegmentRow>)
    ensures forall s | s in r :: s in segs && s.collection == collectionId
    ensures forall i | 0 <= i < |segs| && segs[i].collection == collectionId :: segs[i] in r
  {
    Seqs.Filter(segs, (s: SegmentRow) => s.collection == collectionId)
  }

  /** The reports of `segs`, in order, or the first failure. */
  function SegmentsReport(persist: Path, entries: map<string, Entry>, segs: seq<SegmentRow>, rows: seq<MaxSeqIdRow>, records: nat)
    : (r: Result<seq<SegmentReport>, InfoError>)
    ensures r.Ok? ==> |r.value| == |segs|
    ensures r.Ok? ==> forall i | 0 <= i < |segs| :: SegmentStats(persist, entries, segs[i], rows, records) == Ok(r.value[i])
    ensures r.Err? ==> exists i | 0 <= i < |segs| :: SegmentStats(persist, entries, segs[i], rows, records) == Err(r.error)
  {
    if segs == [] then Ok([])
    else
      var init := SegmentsReport(persist, entries, segs[..|segs| - 1], rows, records);
      if init.Err? then Err(init.error)
      else
        match SegmentStats(persist, entries, segs[|segs| - 1], rows, records)
        case Err(e) => Err(e)
        case Ok(s) => Ok(init.value + [s])
  }

  /** The `count(*)` of WAL rows on the collection's topic. */
  function WalEntries(wal: seq<WalRow>, collectionId: string): nat
  {
    |Seqs.Filter(wal, (w: WalRow) => w.topic == WalTopicPrefix + collectionId)|
  }

  /** The `collection` dict of one reported collection. */
  function CollectionData(persist: Path, entries: map<string, Entry>, tables: Tables, c: CollectionRow)
    : (r: Result<CollectionReport, InfoError>)
    ensures r.Ok? ==> r.value.id == c.id && r.value.name == c.name && r.value.records == c.records
    ensures r.Ok? ==> r.value.tenant == c.tenant && r.value.database == c.database
    ensures r.Ok? ==> r.value.walEntries == WalEntries(tables.wal, c.id)
    ensures r.Ok? ==> (r.value.dimension.Some? <==> CollectionSegments(tables.segments, c.id) != [])
    ensures r.Ok? && r.value.dimension.Some? ==> r.value.dimension.value == c.dimension
    ensures r.Ok? ==> Ok(r.value.segments) == SegmentsReport(persist, entries, CollectionSegments(tables.segments, c.id), tables.maxSeqIds, c.records)
    ensures r.Err? <==> SegmentsReport(persist, entries, CollectionSegments(tables.segments, c.id), tables.maxSeqIds, c.records).Err?
  {
    var segs := CollectionSegments(tables.segments, c.id);
    match SegmentsReport(persist, entries, segs, tables.maxSeqIds, c.records)
    case Err(e) => Err(e)
    case Ok(reports) =>
      Ok(CollectionReport(c.id, c.name, c.tenant, c.database, c.records,
                          if |segs| > 0 then Some(c.dimension) else None, reports, WalEntries(tables.wal, c.id)))
  }

  predicate Skipped(skip: Option<seq<string>>, c: CollectionRow)
  {
    skip.Some? && c.name in skip.value
  }

  /** `collection_data` after the collections `cs`, or the first failure; a later name overwrites an earlier one. */
  function CollectionsReport(persist: Path, entries: map<string, Entry>, tables: Tables, cs: seq<CollectionRow>, skip: Option<seq<string>>)
    : (r: Result<map<string, CollectionReport>, InfoError>)
  {
    if cs == [] then Ok(map[])
    else match CollectionsReport(persist, entries, tables, cs[..|cs| - 1], skip)
      case Err(e) => Err(e)
      case Ok(init) =>
        var c := cs[|cs| - 1];
        if Skipped(skip, c) then Ok(init)
        else match CollectionData(persist, entries, tables, c)
          case Err(e) => Err(e)
          case Ok(cr) => Ok(init[c.name := cr])
  }

  /** The paths `segs` add to `active_hnsw_segment_dirs`. */
  function PathsOf(persist: Path, segs: seq<SegmentRow>): (r: set<Path>)
  {
    if segs == [] then {} else PathsOf(persist, segs[..|segs| - 1]) + {SegmentPath(persist, segs[|segs| - 1])}
  }

  lemma {:induction false} PathsOfMembership(persist: Path, segs: seq<SegmentRow>, p: Path)
    ensures p in PathsOf(persist, segs) <==> exists s | s in segs :: p == SegmentPath(persist, s)
  {
    if segs != [] {
      var init := segs[..|segs| - 1];
      PathsOfMembership(persist, init, p);
      assert segs == init + [segs[|segs| - 1]];
      if p in PathsOf(persist, init) {
        var s :| s in init && p == SegmentPath(persist, s);
        assert s in segs;
      }
    }
  }

  /** `active_hnsw_segment_dirs` after the collections `cs`. */
  function ActivePaths(persist: Path, tables: Tables, cs: seq<CollectionRow>, skip: Option<seq<string>>): set<Path>
  {
    if cs == [] then {}
    else
      var c := cs[|cs| - 1];
      ActivePaths(persist, tables, cs[..|cs| - 1], skip) +
        (if Skipped(skip, c) then {} else PathsOf(persist, CollectionSegments(tables.segments, c.id)))
  }

  /** What the `os.scandir` loop appends for one entry. */
  function OrphanEntry(persist: Path, entries: map<string, Entry>, active: set<Path>, privacy: bool, n: string): seq<OrphanDir>
  {
    if n in entries && entries[n].Dir? && Join(persist, n) !in active
    then [OrphanDir(if privacy then Redacted else Shown(Join(persist, n)), n)]
    else []
  }

  /** The orphan directories among `names`, in listing order. */
  function OrphanDirs(persist: Path, names: seq<string>, entries: map<string, Entry>, active: set<Path>, privacy: bool)
    : (r: seq<OrphanDir>)
  {
    if names == [] then []
    else OrphanDirs(persist, names[..|names| - 1], entries, active, privacy) + OrphanEntry(persist, entries, active, privacy, names[|names| - 1])
  }

  /** The report `info` assembles, or the exception that aborts it. */
  function InfoSpec(persist: Path, names: seq<string>, entries: map<string, Entry>, tables: Tables,
                    cs: seq<CollectionRow>, skip: Option<seq<string>>, privacy: bool): Result<InfoReport, InfoError>
  {
    match CollectionsReport(persist, entries, tables, cs, skip)
    case Err(e) => Err(e)
    case Ok(m) => Ok(InfoReport(m, OrphanDirs(persist, names, entries, ActivePaths(persist, tables, cs, skip), privacy)))
  }

  // ------------------------------------------------------------------ the loops

  /** The inner `for row in results` loop of one collection. */
  method GatherSegments(persist: Path, entries: map<string, Entry>, segs: seq<SegmentRow>, rows: seq<MaxSeqIdRow>, records: nat)
    returns (r: Result<seq<SegmentReport>, InfoError>, paths: set<Path>)
    ensures r == SegmentsReport(persist, entries, segs, rows, records)
    ensures r.Ok? ==> paths == PathsOf(persist, segs)
  {
    var reports: seq<SegmentReport> := [];
    paths := {};
    for j := 0 to |segs|
      invariant SegmentsReport(persist, entries, segs[..j], rows, records) == Ok(reports)
      invariant paths == PathsOf(persist, segs[..j])
    {
      SegmentsReportStep(persist, entries, segs, rows, records, j);
      paths := paths + {SegmentPath(persist, segs[j])};
      var s := SegmentStats(persist, entries, segs[j], rows, records);
      if s.Err? {
        SegmentsReportAbsorbs(persist, entries, segs, rows, records, j + 1);
        return Err(s.error), paths;
      }
      reports := reports + [s.value];
    }
    assert segs[..|segs|] == segs;
    return Ok(reports), paths;
  }

  lemma SegmentsReportStep(persist: Path, entries: map<string, Entry>, segs: seq<SegmentRow>, rows: seq<MaxSeqIdRow>, records: nat, j: nat)
    requires j < |segs| && SegmentsReport(persist, entries, segs[..j], rows, records).Ok?
    ensures SegmentsReport(persist, entries, segs[..j + 1], rows, records) ==
      match SegmentStats(persist, entries, segs[j], rows, records)
      case Err(e) => Err(e)
      case Ok(s) => Ok(SegmentsReport(persist, entries, segs[..j], rows, records).value + [s])
    ensures PathsOf(persist, segs[..j + 1]) == PathsOf(persist, segs[..j]) + {SegmentPath(persist, segs[j])}
  {
    assert segs[..j + 1][..j] == segs[..j];
  }

  /** Once a prefix fails, the whole list fails with the same exception. */
  lemma {:induction false} SegmentsReportAbsorbs(persist: Path, entries: map<string, Entry>, segs: seq<SegmentRow>, rows: seq<MaxSeqIdRow>, records: nat, k: nat)
    requires k <= |segs| && SegmentsReport(persist, entries, segs[..k], rows, records).Err?
    ensures SegmentsReport(persist, entries, segs, rows, records) == SegmentsReport(persist, entries, segs[..k], rows, records)
    decreases |segs| - k
  {
    if k < |segs| {
      assert segs[..k + 1][..k] == segs[..k];
      SegmentsReportAbsorbs(persist, entries, segs, rows, records, k + 1);
    } else {
      assert segs[..k] == segs;
    }
  }

  lemma CollectionsReportStep(persist: Path, entries: map<string, Entry>, tables: Tables, cs: seq<CollectionRow>, skip: Option<seq<string>>, k: nat)
    requires k < |cs| && CollectionsReport(persist, entries, tables, cs[..k], skip).Ok?
    ensures var init := CollectionsReport(persist, entries, tables, cs[..k], skip).value;
      CollectionsReport(persist, entries, tables, cs[..k + 1], skip) ==
        if Skipped(skip, cs[k]) then Ok(init)
        else match CollectionData(persist, entries, tables, cs[k])
          case Err(e) => Err(e)
          case Ok(cr) => Ok(init[cs[k].name := cr])
    ensures ActivePaths(persist, tables, cs[..k + 1], skip) == ActivePaths(persist, tables, cs[..k], skip) +
      (if Skipped(skip, cs[k]) then {} else PathsOf(persist, CollectionSegments(tables.segments, cs[k].id)))
  {
    assert cs[..k + 1][..k] == cs[..k];
  }

  lemma {:induction false} CollectionsReportAbsorbs(persist: Path, entries: map<string, Entry>, tables: Tables, cs: seq<CollectionRow>, skip: Option<seq<string>>, k: nat)
    requires k <= |cs| && CollectionsReport(persist, entries, tables, cs[..k], skip).Err?
    ensures CollectionsReport(persist, entries, tables, cs, skip) == CollectionsReport(persist, entries, tables, cs[..k], skip)
    decreases |cs| - k
  {
    if k < |cs| {
      assert cs[..k + 1][..k] == cs[..k];
      CollectionsReportAbsorbs(persist, entries, tables, cs, skip, k + 1);
    } else {
      assert cs[..k] == cs;
    }
  }

  /** The `os.scandir` loop. */
  method ListOrphanDirs(persist: Path, names: seq<string>, entries: map<string, Entry>, active: set<Path>, privacy: bool)
    returns (dirs: seq<OrphanDir>)
    ensures dirs == OrphanDirs(persist, names, entries, active, privacy)
  {
    dirs := [];
    for k := 0 to |names|
      invariant dirs == OrphanDirs(persist, names[..k], entries, active, privacy)
    {
      assert names[..k + 1][..k] == names[..k];
      var n := names[k];
      if n in entries && entries[n].Dir? && Join(persist, n) !in active {
        dirs := dirs + [OrphanDir(if privacy then Redacted else Shown(Join(persist, n)), n)];
      }
    }
    assert names[..|names|] == names;
  }

  /**
   * `info`: `cs` is what `list_collections` returned, `names`/`entries` the
   * persist dir's listing, `skip` the `skip_collection_names` argument.
   */
  method Info(persist: Path, names: seq<string>, entries: map<string, Entry>, tables: Tables,
              cs: seq<CollectionRow>, skip: Option<seq<string>>, privacy: bool)
    returns (r: Result<InfoReport, InfoError>)
    ensures r == InfoSpec(persist, names, entries, tables, cs, skip, privacy)
  {
    var collectionData: map<string, CollectionReport> := map[];
    var active: set<Path> := {};
    for k := 0 to |cs|
      invariant CollectionsReport(persist, entries, tables, cs[..k], skip) == Ok(collectionData)
      invariant active == ActivePaths(persist, tables, cs[..k], skip)
    {
      CollectionsReportStep(persist, entries, tables, cs, skip, k);
      var c := cs[k];
      if Skipped(skip, c) {
        continue;
      }
      var segs := CollectionSegments(tables.segments, c.id);
      var reports, paths := GatherSegments(persist, entries, segs, tables.maxSeqIds, c.records);
      if reports.Err? {
        CollectionsReportAbsorbs(persist, entries, tables, cs, skip, k + 1);
        return Err(reports.error);
      }
      active := active + paths;
      var collection := CollectionReport(c.id, c.name, c.tenant, c.database, c.records,
                                         if |segs| > 0 then Some(c.dimension) else None,
                                         reports.value, WalEntries(tables.wal, c.id));
      collectionData := collectionData[c.name := collection];
    }
    assert cs[..|cs|] == cs;
    var orphans := ListOrphanDirs(persist, names, entries, active, privacy);
    return Ok(InfoReport(collectionData, orphans));
  }

  // ------------------------------------------------------------ properties

  /** A name in the skip list never becomes a key of the report; every other listed name does. */
  lemma {:induction false} ReportedNames(persist: Path, entries: map<string, Entry>, tables: Tables, cs: seq<CollectionRow>, skip: Option<seq<string>>, name: string)
    requires CollectionsReport(persist, entries, tables, cs, skip).Ok?
    ensures name in CollectionsReport(persist, entries, tables, cs, skip).value <==>
      exists c | c in cs :: c.name == name && !Skipped(skip, c)
  {
    if cs != [] {
      var init := cs[..|cs| - 1];
      var c := cs[|cs| - 1];
      assert cs == init + [c];
      ReportedNames(persist, entries, tables, init, skip, name);
      if exists c' | c' in init :: c'.name == name && !Skipped(skip, c') {
        var c' :| c' in init && c'.name == name && !Skipped(skip, c');
        assert c' in cs;
      }
    }
  }

  lemma SkippedNamesAbsent(persist: Path, names: seq<string>, entries: map<string, Entry>, tables: Tables,
                           cs: seq<CollectionRow>, skip: seq<string>, privacy: bool, name: string)
    requires InfoSpec(persist, names, entries, tables, cs, Some(skip), privacy).Ok?
    requires name in skip
    ensures name !in InfoSpec(persist, names, entries, tables, cs, Some(skip), privacy).value.collections
  {
    ReportedNames(persist, entries, tables, cs, Some(skip), name);
  }

  /** The segment paths of every reported collection are active. */
  lemma {:induction false} ActivePathsCover(persist: Path, tables: Tables, cs: seq<CollectionRow>, skip: Option<seq<string>>, c: CollectionRow, s: SegmentRow)
    requires c in cs && !Skipped(skip, c) && s in tables.segments && s.collection == c.id
    ensures SegmentPath(persist, s) in ActivePaths(persist, tables, cs, skip)
  {
    var init := cs[..|cs| - 1];
    if c == cs[|cs| - 1] {
      var segs := CollectionSegments(tables.segments, c.id);
      PathsOfMembership(persist, segs, SegmentPath(persist, s));
    } else {
      assert cs == init + [cs[|cs| - 1]];
      ActivePathsCover(persist, tables, init, skip, c, s);
    }
  }

  /** An orphan entry is a listed directory whose path is not active, reported redacted in privacy mode. */
  lemma {:induction false} OrphanDirsMembership(persist: Path, names: seq<string>, entries: map<string, Entry>, active: set<Path>, privacy: bool, n: string)
    ensures (exists o | o in OrphanDirs(persist, names, entries, active, privacy) :: o.id == n) <==>
      n in names && n in entries && entries[n].Dir? && Join(persist, n) !in active
    ensures forall o | o in OrphanDirs(persist, names, entries, active, privacy) ::
      o.path == (if privacy then Redacted else Shown(Join(persist, o.id)))
  {
    if names != [] {
      var init := names[..|names| - 1];
      assert names == init + [names[|names| - 1]];
      OrphanDirsMembership(persist, init, entries, active, privacy, n);
    }
  }

  /** A reported collection's non-METADATA segment directory is never listed as an orphan. */
  lemma ActiveSegmentDirNotOrphan(persist: Path, names: seq<string>, entries: map<string, Entry>, tables: Tables,
                                  cs: seq<CollectionRow>, skip: Option<seq<string>>, privacy: bool,
                                  c: CollectionRow, s: SegmentRow)
    requires InfoSpec(persist, names, entries, tables, cs, skip, privacy).Ok?
    requires c in cs && !Skipped(skip, c) && s in tables.segments && s.collection == c.id && s.scope != Metadata
    ensures forall o | o in InfoSpec(persist, names, entries, tables, cs, skip, privacy).value.orphanDirs :: o.id != s.id
  {
    var active := ActivePaths(persist, tables, cs, skip);
    ActivePathsCover(persist, tables, cs, skip, c, s);
    OrphanDirsMembership(persist, names, entries, active, privacy, s.id);
  }
}
