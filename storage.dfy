/**
 * The abstract state every maintenance command works on: the persist
 * directory (a listing of named entries, each a file or a directory that may
 * hold an index, its `header.bin` and its `index_metadata.pickle` side-car)
 * and the SQLite catalog (collections, segments, the WAL and its config),
 * with the exclusive-transaction discipline the commands use.
 */
module Storage {
  import opened Wrappers
  import opened Seqs

  newtype byte = x: int | 0 <= x < 256

  type Vector = seq<real>

  /** Outcome of a `stat` call on a path. */
  datatype Stat = Present | Absent | StatError

  /** A raw `seq_id` column value: SQLite hands back either an int or a blob. */
  datatype SeqIdValue = SeqInt(n: int) | SeqBytes(bytes: seq<byte>)

  /**
   * The side-car `PersistentData` record (chroma_ops/utils.py:94-119).
   * `maxSeqId` is None when the pickle has no `max_seq_id` attribute, which is
   * the case for pickles written by Chroma 0.5.7 and later.
   */
  datatype PersistentData = PersistentData(
    dimensionality: Option<int>,
    totalElementsAdded: int,
    maxSeqId: Option<int>,
    idToLabel: map<string, int>,
    labelToId: map<int, string>,
    idToSeqId: map<string, int>)

  /**
   * A persisted HNSW index as hnswlib reports it: `ids` is `get_ids_list()`
   * (the live labels, in the library's order), `vectors` the stored vector of
   * each live label, `elementCount` the allocated positions (`element_count`,
   * deleted ones included).
   */
  datatype IndexData = IndexData(ids: seq<int>, vectors: map<int, Vector>, elementCount: nat)

  predicate Distinct<T(==)>(s: seq<T>)
  {
    forall i, j | 0 <= i < j < |s| :: s[i] != s[j]
  }

  /** What hnswlib guarantees of a loaded index. */
  predicate IndexWellFormed(ix: IndexData)
  {
    && Distinct(ix.ids)
    && (forall l | l in ix.vectors :: l in ix.ids)
    && (forall l | l in ix.ids :: l in ix.vectors)
    && |ix.ids| <= ix.elementCount
  }

  /**
   * An entry of the persist directory. For a directory, `header` is what
   * `stat` says of its `header.bin`, `sidecar` is the loaded
   * `index_metadata.pickle` when that file exists, and `index` is None when
   * hnswlib cannot load the directory as an index.
   */
  datatype Entry =
    | File
    | Dir(header: Stat, sidecar: Option<PersistentData>, index: Option<IndexData>)

  /**
   * What `stat` says of the entry `name` inside a directory whose own `stat`
   * gave `root`: a listed entry exists, an unlisted one does not, and a
   * directory that cannot be examined makes its children unexaminable too.
   */
  function ChildStat(root: Stat, entries: map<string, Entry>, name: string): Stat
  {
    match root
    case Present => if name in entries then Present else Absent
    case Absent => Absent
    case StatError => StatError
  }

  /** A path as a sequence of components; `Join` is `os.path.join` / `filepath.Join`. */
  datatype Path = Path(parts: seq<string>)

  function Join(p: Path, name: string): (r: Path)
    ensures |r.parts| == |p.parts| + 1 && r.parts[|p.parts|] == name
  {
    Path(p.parts + [name])
  }

  lemma JoinInjective(p: Path, a: string, b: string)
    ensures Join(p, a) == Join(p, b) <==> a == b
  {
    if Join(p, a) == Join(p, b) {
      assert Join(p, a).parts[|p.parts|] == Join(p, b).parts[|p.parts|];
    }
  }

  /**
   * An operation that reaches the persist directory, a segment's index files
   * or the catalog. The rebuild's ordering guarantees are stated over these.
   */
  datatype Event =
    | Locked | Committed | RolledBack
    | Flushed
    | Moved(src: string, dst: string) | Removed(name: string) | Installed(name: string)

  /**
   * The order in which operations reach the disk and the catalog. The
   * directory, the catalog and each index hold a journal and append to it in
   * every operation that changes what is stored.
   */
  class Journal {
    ghost var events: seq<Event>

    constructor ()
      ensures events == []
    {
      events := [];
    }
  }

  function RemoveName(s: seq<string>, name: string): (r: seq<string>)
    ensures forall x :: x in r <==> x in s && x != name
    ensures Distinct(s) ==> Distinct(r)
  {
    if s == [] then []
    else
      var init, last := s[..|s| - 1], s[|s| - 1];
      assert Distinct(s) ==> Distinct(init) && last !in init;
      RemoveName(init, name) + (if last == name then [] else [last])
  }

  /** The listing once each name of `gone` has been removed from it in turn. */
  function Unlisted(names: seq<string>, gone: seq<string>): seq<string>
  {
    if gone == [] then names else RemoveName(Unlisted(names, gone[..|gone| - 1]), gone[|gone| - 1])
  }

  /** Removing names one after another keeps the rest of the listing in its order. */
  lemma {:induction false} UnlistedIsFilter(names: seq<string>, gone: seq<string>)
    ensures Unlisted(names, gone) == Filter(names, n => n !in gone)
  {
    if gone == [] {
      FilterAll(names, n => n !in gone);
    } else {
      var init, last := gone[..|gone| - 1], gone[|gone| - 1];
      UnlistedIsFilter(names, init);
      RemoveNameIsFilter(Filter(names, n => n !in init), last);
      FilterFilter(names, n => n !in init, n => n != last);
      FilterExt(names, Both(n => n !in init, n => n != last), n => n !in gone);
    }
  }

  lemma {:induction false} RemoveNameIsFilter(s: seq<string>, name: string)
    ensures RemoveName(s, name) == Filter(s, n => n != name)
  {
    if s != [] {
      RemoveNameIsFilter(s[..|s| - 1], name);
    }
  }

  /**
   * The persist directory. `names` is the order in which a directory listing
   * returns the entries; `root` is what `stat` says of the directory itself;
   * `listable` is false when reading the listing fails; `undeletable` names the
   * entries whose recursive removal fails.
   */
  class PersistDir {
    const path: string
    const journal: Journal
    var root: Stat
    var names: seq<string>
    var entries: map<string, Entry>
    var listable: bool
    var undeletable: set<string>

    ghost predicate Valid()
      reads this
    {
      Distinct(names) && (forall n :: n in names <==> n in entries)
    }

    function Location(): Path
    {
      Path([path])
    }

    constructor (path: string, root: Stat, names: seq<string>, entries: map<string, Entry>, journal: Journal)
      requires Distinct(names) && (forall n :: n in names <==> n in entries)
      ensures Valid()
      ensures this.path == path && this.root == root && this.names == names && this.entries == entries
      ensures listable && undeletable == {} && this.journal == journal
    {
      this.path := path;
      this.journal := journal;
      this.root := root;
      this.names := names;
      this.entries := entries;
      listable := true;
      undeletable := {};
    }

    /** `shutil.rmtree` / `os.RemoveAll` of one entry; fails only for an undeletable one. */
    method RemoveTree(name: string) returns (ok: bool)
      requires Valid()
      modifies this`names, this`entries, journal`events
      ensures Valid()
      ensures ok == (name !in undeletable)
      ensures ok ==> entries == old(entries) - {name} && names == RemoveName(old(names), name)
      ensures ok ==> journal.events == old(journal.events) + [Removed(name)]
      ensures !ok ==> entries == old(entries) && names == old(names) && journal.events == old(journal.events)
    {
      ok := name !in undeletable;
      if ok {
        entries := entries - {name};
        names := RemoveName(names, name);
        journal.events := journal.events + [Removed(name)];
      }
    }

    /**
     * `shutil.move` of entry `src` to the new name `dst` in the same
     * directory, where `dst` does not exist yet.
     */
    method Rename(src: string, dst: string)
      requires Valid() && src in entries && dst !in entries
      modifies this`names, this`entries, journal`events
      ensures Valid()
      ensures entries == (old(entries) - {src})[dst := old(entries)[src]]
      ensures names == RemoveName(old(names), src) + [dst]
      ensures journal.events == old(journal.events) + [Moved(src, dst)]
    {
      var e := entries[src];
      entries := (entries - {src})[dst := e];
      names := RemoveName(names, src) + [dst];
      journal.events := journal.events + [Moved(src, dst)];
    }

    /** `shutil.copytree` of a staged directory into the new name `name`. */
    method Install(name: string, e: Entry)
      requires Valid()
      modifies this`names, this`entries, journal`events
      ensures Valid()
      ensures entries == old(entries)[name := e]
      ensures names == if name in old(names) then old(names) else old(names) + [name]
      ensures journal.events == old(journal.events) + [Installed(name)]
    {
      entries := entries[name := e];
      if name !in names {
        names := names + [name];
      }
      journal.events := journal.events + [Installed(name)];
    }
  }

  /** The directory map once every name of `gone` is removed from it. */
  function Without(m: map<string, Entry>, gone: seq<string>): (r: map<string, Entry>)
  {
    if gone == [] then m else Without(m, gone[..|gone| - 1]) - {gone[|gone| - 1]}
  }

  lemma {:induction false} WithoutSpec(m: map<string, Entry>, gone: seq<string>)
    ensures Without(m, gone) == m - set d | d in gone
  {
    if gone != [] {
      var init := gone[..|gone| - 1];
      WithoutSpec(m, init);
      assert gone == init + [gone[|gone| - 1]];
      assert (set d | d in gone) == (set d | d in init) + {gone[|gone| - 1]};
    }
  }

  /**
   * The persist dir once the names of `done` have been removed from the
   * state `entries`/`names`, in order; none of them was undeletable.
   */
  ghost predicate RemovedSoFar(fs: PersistDir, entries: map<string, Entry>, names: seq<string>, done: seq<string>)
    reads fs
  {
    && fs.Valid()
    && fs.entries == Without(entries, done)
    && fs.names == Unlisted(names, done)
    && forall x | x in done :: x !in fs.undeletable
  }

  /**
   * One removal of a deletion loop (`os.RemoveAll`, `shutil.rmtree`): it
   * extends the removed names by `dir`, or fails and changes nothing.
   */
  method RemoveNext(fs: PersistDir, dir: string, ghost entries: map<string, Entry>, ghost names: seq<string>,
                    ghost done: seq<string>)
    returns (ok: bool)
    requires RemovedSoFar(fs, entries, names, done)
    modifies fs`names, fs`entries, fs.journal`events
    ensures ok == (dir !in fs.undeletable)
    ensures ok ==> RemovedSoFar(fs, entries, names, done + [dir])
    ensures !ok ==> RemovedSoFar(fs, entries, names, done) && fs.entries == old(fs.entries) && fs.names == old(fs.names)
  {
    ok := fs.RemoveTree(dir);
    if ok {
      RemovedStep(entries, names, done, dir);
    }
  }

  /** Removing one more entry extends the removed prefix by one name. */
  lemma RemovedStep(entries: map<string, Entry>, names: seq<string>, done: seq<string>, dir: string)
    ensures Without(entries, done + [dir]) == Without(entries, done) - {dir}
    ensures Unlisted(names, done + [dir]) == RemoveName(Unlisted(names, done), dir)
  {
    assert (done + [dir])[..|done|] == done;
  }

  // ---------------------------------------------------------------- catalog

  datatype Scope = Vector | Metadata | OtherScope(name: string)

  datatype SegmentRow = SegmentRow(id: string, segType: string, scope: Scope, topic: string, collection: string)

  /** The `hnsw_configuration` object of a collection's `config_json_str`. */
  datatype HnswConfiguration = HnswConfiguration(
    space: string, efConstruction: int, efSearch: int, m: int, numThreads: int,
    resizeFactor: real, batchSize: int, syncThreshold: int)

  /**
   * A collection: its row in `collections` (with `config` None when
   * `hnsw_configuration` is missing from its JSON config) together with what
   * the client reports of it (`records` is `count()`).
   */
  datatype CollectionRow = CollectionRow(
    id: string, name: string, dimension: int, tenant: string, database: string,
    config: Option<HnswConfiguration>, records: nat)

  datatype MaxSeqIdRow = MaxSeqIdRow(segmentId: string, seqId: SeqIdValue)

  /** A `collection_metadata` row; only its string value is read. */
  datatype MetadataRow = MetadataRow(collectionId: string, key: string, strValue: string)

  /** An `embeddings_queue` (WAL) row. */
  datatype WalRow = WalRow(seqId: int, topic: string)

  datatype JsonValue = JBool(b: bool) | JNumber(n: int) | JString(s: string) | JNull

  type ConfigJson = map<string, JsonValue>

  /** `walConfig` is None when the `embeddings_queue_config` table does not exist. */
  datatype Tables = Tables(
    collections: seq<CollectionRow>,
    segments: seq<SegmentRow>,
    maxSeqIds: seq<MaxSeqIdRow>,
    collectionMetadata: seq<MetadataRow>,
    wal: seq<WalRow>,
    walConfig: Option<seq<ConfigJson>>)

  datatype TxState = Idle | Exclusive

  /**
   * A connection to the catalog. Between `BEGIN EXCLUSIVE` and the end of the
   * transaction, `saved` holds the tables as they were at the start, which a
   * rollback restores. `busy` is true while another process holds a lock.
   */
  class Catalog {
    var tables: Tables
    var tx: TxState
    var saved: Tables
    const busy: bool
    const journal: Journal

    constructor (tables: Tables, busy: bool, journal: Journal)
      ensures this.tables == tables && this.busy == busy && tx == Idle && saved == tables
      ensures this.journal == journal
    {
      this.tables := tables;
      this.busy := busy;
      this.journal := journal;
      tx := Idle;
      saved := tables;
    }

    method BeginExclusive() returns (ok: bool)
      requires tx == Idle
      modifies this, journal`events
      ensures ok == !busy && tables == old(tables)
      ensures tx == (if ok then Exclusive else Idle)
      ensures ok ==> saved == tables && journal.events == old(journal.events) + [Locked]
      ensures !ok ==> saved == old(saved) && journal.events == old(journal.events)
    {
      ok := !busy;
      if ok {
        tx := Exclusive;
        saved := tables;
        journal.events := journal.events + [Locked];
      }
    }

    method Commit()
      modifies this, journal`events
      ensures tables == old(tables) && tx == Idle && saved == old(saved)
      ensures journal.events == old(journal.events) + [Committed]
    {
      tx := Idle;
      journal.events := journal.events + [Committed];
    }

    method Rollback()
      modifies this, journal`events
      ensures tables == (if old(tx) == Exclusive then old(saved) else old(tables))
      ensures tx == Idle && saved == old(saved)
      ensures journal.events == old(journal.events) + [RolledBack]
    {
      if tx == Exclusive {
        tables := saved;
      }
      tx := Idle;
      journal.events := journal.events + [RolledBack];
    }
  }
}
