# chromadb-ops maintenance core, modelled in Dafny

chromadb-ops is a set of maintenance commands for a Chroma persist
directory. A persist directory holds a SQLite catalog (`chroma.sqlite3`)
and one directory per HNSW vector segment. The commands are written in
Python (`chroma_ops`) and in Go (`cmd`, `internal`). This project models
the decision and transformation logic of those commands over abstract
state, and proves what the commands promise about that state.

The abstract state is defined in `storage.dfy`:

- `Storage.PersistDir` is a class for the persist directory. It has a listing
  order, a map from names to entries and the `stat` outcome of the directory
  itself. It also records whether the listing can be read and which entries
  cannot be removed.
- An entry is a file or a directory. A directory records the `stat` of its
  `header.bin`, the loaded `index_metadata.pickle` side-car (the
  `PersistentData` record) and the hnswlib index stored in it (live labels,
  their vectors, allocated element count).
- `Storage.Catalog` is a class for the SQLite catalog. It holds the
  collections, segments, `max_seq_id`, `collection_metadata`,
  `embeddings_queue` (the WAL) and `embeddings_queue_config` rows, with an
  exclusive transaction that a rollback undoes.
- `Storage.Journal` is a ghost record of the order in which operations
  reach the disk and the catalog. The directory, the catalog and the target
  index share one journal. Each of their mutators appends its own event:
  lock, flush, move, removal, install, commit or rollback. The ordering
  guarantees of the HNSW rebuild are stated over this journal.

One module per source file:

| module (file) | source |
|---|---|
| `Utils` (utils.dfy) | chroma_ops/utils.py: persist-dir validation, `decode_seq_id`, `check_disk_space`, the version gate of `list_collections`, `get_hnsw_index_ids` |
| `ChromaDirs` (chroma_dirs.dfy) | internal/chroma/utils.go: `CheckPersistDir`, `GetSegmentDirs`, `IsValidSegmentDir` |
| `CleanCmd` (clean_cmd.dfy) | cmd/clean.go: `clean` |
| `OrphanClean` (orphan_clean.dfy) | chroma_ops/clean.py and chroma_ops/db_clean.py: `clean` |
| `HnswIndex` (hnsw_index.dfy) | the hnswlib `Index` calls that chroma_ops/hnsw.py makes on the target index |
| `Hnsw` (hnsw.dfy) | chroma_ops/hnsw.py: `_get_hnsw_details`, `rebuild_hnsw` |
| `Info` (info.dfy) | chroma_ops/info.py: the statistics of `info` |
| `WalClean` (wal_clean.dfy) | chroma_ops/wal_clean.py: `clean_wal` |
| `WalConfig` (wal_config.dfy) | chroma_ops/wal_config.py: `config_wal` |
| `FtsGo` (fts_go.dfy) | cmd/fts.go: `validateTokenizer`, `ftsRebuild` |
| `Fts` (fts.dfy) | chroma_ops/fts.py: `validate_tokenizer`, `rebuild_fts` |
| `Tx` (tx.dfy) | internal/db/tx.go: `MyTx` |
| `Constants` (constants.dfy) | the default FTS tokenizer of chroma_ops/constants.py |
| `Chunking`, `Seqs`, `Wrappers` | shared helpers: the `range(0, n, k)` slicing, order-preserving filter and subsequence, the prefix a loop gets through before its first failure, prefix test, Option/Result |

The commands that change state are methods. They work on the
`PersistDir`/`Catalog` objects, and their loops carry invariants. Each one
is proved against a specification function. Examples are `Orphans`,
`HeaderOrphans`, `Plan`/`Execute`, `InfoSpec` and `Received`. Lemmas then
state what the source promises about those functions.

Inputs that the code gets from outside are parameters. These are:

- the answer to a confirmation prompt (`confirmed`);
- the formatted timestamp of a backup name;
- whether a copy, move, UPDATE or Chroma start fails (`Faults`,
  `updateFails`, `scriptFails`, `startFails`);
- the statements a database rejects (`failing`);
- the text of the FTS script.

Behaviour of the code a reader may not expect:

- The HNSW rebuild is not atomic. With `backup` false, the old segment
  directory is removed before the staged copy is installed. If that install
  fails, the directory is gone and the transaction is rolled back
  (chroma_ops/hnsw.py:161-163). `RebuildHnsw` states this case.
- A `batch_size` of 0 makes `range` raise, so the transaction rolls back.
  A negative `batch_size` makes the loop empty, and an empty index is
  installed (chroma_ops/hnsw.py:150).
- When the side-car is missing, or the prompt is declined, `rebuild_hnsw`
  returns inside the `try`. Neither commit nor rollback runs, so the exclusive
  transaction is still open at return (chroma_ops/hnsw.py:104-106, 141-142).
- `info` never adds the segment paths of skipped collections to the active
  set. Their directories are therefore reported as orphans
  (chroma_ops/info.py:58-63, 183-194).
- The Python cleaners protect only VECTOR segment IDs
  (chroma_ops/clean.py:19, chroma_ops/db_clean.py:21). The Go `clean`
  protects the IDs of all segments (cmd/clean.go:69-71).
- The Go `clean` visits the segment dirs sorted by name, because `os.ReadDir`
  sorts its entries (internal/chroma/utils.go:25). The Python cleaners visit
  them in `os.listdir` order, which is the directory's own order
  (chroma_ops/clean.py:29, chroma_ops/db_clean.py:35). So when a removal
  fails, the two can stop after different sets of dirs.
- `_get_hnsw_details` takes a database name but only echoes it. The lookup
  query does not filter on it (chroma_ops/hnsw.py:28).
- `CheckPersistDir` rejects only "does not exist" outcomes of `stat`. A
  directory whose `stat` fails for another reason passes. The Python
  validator refuses that directory (internal/chroma/utils.go:14-19,
  chroma_ops/utils.py:16-18).

## Model

| member | source | states |
|---|---|---|
| Utils.ValidatePersistDir | chroma_ops/utils.py:15-21 | fails with "missing" exactly when the dir does not stat as present, and with "not a Chroma dir" exactly when `chroma.sqlite3` is absent from an existing dir |
| Utils.DecodeSeqId | chroma_ops/utils.py:129-139 | an int is returned unchanged; a blob decodes exactly when it has 8 or 24 bytes, to a value below 256^len; any other length is a `ValueError` carrying the length |
| Utils.DecodeSeqIdInvertsEncoding | chroma_ops/utils.py:134-137 | at widths 8 and 24, decoding the big-endian encoding of n gives n |
| Utils.DecodeSeqIdRecoversBytes | chroma_ops/utils.py:134-137 | an 8- or 24-byte blob decodes, and re-encoding the value at the same width gives the blob back |
| Utils.BigEndianOfEncode | chroma_ops/utils.py:135 | `int.from_bytes` inverts `to_bytes` for every n below 256^w |
| Utils.EncodeOfBigEndian | chroma_ops/utils.py:135 | `to_bytes` inverts `int.from_bytes` at the blob's own width |
| Utils.BigEndianBound | chroma_ops/utils.py:135 | a w-byte big-endian value is below 256^w |
| Utils.CheckDiskSpace | chroma_ops/utils.py:173-184 | true exactly when free space is at least 1.1 times the source size, in exact arithmetic |
| Utils.CheckDiskSpaceBoundaries | tests/test_utils.py:6-23 | 10x and exactly 1.1x a 1000-byte source are accepted; 1x and one byte under 1.1x are rejected |
| Utils.SplitOn | chroma_ops/utils.py:153 | `str.split` yields at least one piece |
| Utils.SplitOnJoin | chroma_ops/utils.py:153 | the pieces of `split` contain no separator and join back to the string |
| Utils.ParseParts | chroma_ops/utils.py:153 | parsing succeeds with one number per part, each the value of its digits, and fails exactly when some part is not all digits (see the `Utils.ParseParts` line under Left out) |
| Utils.TupleLessIsLexLess | chroma_ops/utils.py:153 | Python tuple `<` is the lexicographic order: a proper prefix, or smaller at the first difference |
| Utils.ParseVersion | chroma_ops/utils.py:153 | `tuple(int(part) for part in version.split("."))`: one number per dot-separated part, or the `int()` failure of the first part that is not all digits; characterized by `ParseParts` and the `VersionGate` lemmas |
| Utils.TupleLess | chroma_ops/utils.py:153 | Python's `<` on int tuples; characterized as lexicographic, strict, total and transitive by `TupleLessIsLexLess`, `TupleLessTrichotomy` and `TupleLessTransitive` |
| Utils.LexLessAtHead | chroma_ops/utils.py:153 | tuples with different first parts are ordered by those parts |
| Utils.LexLessTail | chroma_ops/utils.py:153 | tuples with equal first parts are ordered by the rest |
| Utils.TupleLessTrichotomy | chroma_ops/utils.py:153 | tuple order is strict and total: exactly one of a < b, a == b, b < a |
| Utils.TupleLessTransitive | chroma_ops/utils.py:153 | tuple order is transitive |
| Utils.UsesLegacyListing | chroma_ops/utils.py:153 | the gate raises exactly when the version does not parse, and otherwise takes the legacy path exactly when the parsed tuple is lexicographically below (0, 6, 0) |
| Utils.VersionGateOld | chroma_ops/utils.py:153-154 | "0.5.23" takes the legacy listing |
| Utils.VersionGateCurrent | chroma_ops/utils.py:155-159 | "0.6.0" takes the per-name listing |
| Utils.VersionGateMajor | chroma_ops/utils.py:155-159 | "1.0.0" takes the per-name listing |
| Utils.VersionGateShort | chroma_ops/utils.py:153-154 | "0.6" is a proper prefix of (0, 6, 0) and takes the legacy listing |
| Utils.VersionGateNonNumeric | chroma_ops/utils.py:153 | "0.6.0rc1" makes `int()` raise |
| Utils.GetCollection | chroma_ops/utils.py:158 | `get_collection` returns a listed collection of that name, and fails exactly when none has it |
| Utils.GetCollectionDistinct | chroma_ops/utils.py:158 | with distinct names, looking a listed name up returns that collection |
| Utils.ListCollections | chroma_ops/utils.py:152-159 | raises exactly when the version does not parse; otherwise returns one collection per listed name, in order, equal to the listing when names are distinct |
| Utils.IndexIds | chroma_ops/utils.py:55-64 | the live labels of the index stored in the entry, failing exactly when the entry is not a loadable index directory |
| ChromaDirs.CheckPersistDir | internal/chroma/utils.go:10-22 | empty path, then a non-existent dir, then a non-existent `chroma.sqlite3` are errors in that order; every other outcome is accepted |
| ChromaDirs.PythonValidIsGoValid | internal/chroma/utils.go:10-22 | a non-empty directory the Python validator accepts is accepted by the Go one |
| ChromaDirs.GoAcceptsUnexaminableDir | internal/chroma/utils.go:14-16 | a directory whose `stat` fails for a reason other than absence passes the Go check and fails the Python one |
| ChromaDirs.IsValidSegmentDir | internal/chroma/utils.go:38-44 | false exactly when `header.bin` is reported as not existing |
| ChromaDirs.GetSegmentDirs | internal/chroma/utils.go:24-36 | a failed `ReadDir` is an error; otherwise exactly the directory entries that are valid segment dirs, in the by-filename order `os.ReadDir` returns: a subsequence of `ByName` of the listing, sorted by name |
| ChromaDirs.ByName | internal/chroma/utils.go:25 | the `os.ReadDir` order of a listing is a permutation of it: the same names, each as often |
| ChromaDirs.ByNameSorted | internal/chroma/utils.go:25 | the `os.ReadDir` order is sorted by Go's string `<` |
| ChromaDirs.InsertByNameSorted | internal/chroma/utils.go:25 | inserting a name into a sorted listing keeps it sorted |
| ChromaDirs.FilterSortedByName | internal/chroma/utils.go:29-34 | keeping only some entries of a sorted listing leaves it sorted |
| ChromaDirs.NameBeforeTotal | internal/chroma/utils.go:25 | Go's string `<` orders any two different names |
| ChromaDirs.NameBeforeTransitive | internal/chroma/utils.go:25 | Go's string `<` is transitive |
| ChromaDirs.NameBefore | internal/chroma/utils.go:25 | Go's string `<`, the order in which `os.ReadDir` returns names: code point by code point from the first character, a proper prefix first; total and transitive by `NameBeforeTotal` and `NameBeforeTransitive`, and `ByName` sorts by it (`ByNameSorted`) |
| ChromaDirs.SegmentDirNames | internal/chroma/utils.go:24-36 | the names `GetSegmentDirs` returns: the directory entries with a valid `header.bin`, kept in `os.ReadDir` order; `GetSegmentDirs` computes it and proves it a sorted subsequence of the listing |
| CleanCmd.Orphans | cmd/clean.go:74-75 | the dirs `clean` targets number no more than the segment dirs |
| CleanCmd.OrphansMembership | cmd/clean.go:74-75 | a dir is targeted exactly when it is a segment dir and no segment of any scope has its ID |
| CleanCmd.OrphansAppend | cmd/clean.go:74-86 | targeting distributes over concatenation of listings |
| Seqs.TakeUntil | cmd/clean.go:78-81 | the dirs removed before the first failing `RemoveAll`: a prefix of the plan, all removable, followed by the undeletable one when it stops short |
| CleanCmd.SegmentIds | cmd/clean.go:67-71 | one ID per catalog segment row, in row order |
| CleanCmd.Locations | cmd/clean.go:83 | one path per deleted dir |
| CleanCmd.LocationsAt | cmd/clean.go:83 | the i-th reported path is the persist dir joined with the i-th deleted name |
| Storage.WithoutSpec | cmd/clean.go:78 | removing the deleted names one by one leaves the directory map minus exactly those names |
| CleanCmd.EmptyCatalogOrphansAll | cmd/clean.go:74-75 | with no catalog segments every segment dir is targeted |
| CleanCmd.RemainingSegmentDirsAreCatalogued | cmd/clean.go:69-86 | after the targeted dirs are removed, each remaining segment dir is named by a catalog segment, and no catalogued dir was targeted |
| CleanCmd.Clean | cmd/clean.go:33-89 | the error of each failed check, with nothing deleted; dry-run deletes nothing and counts 0; otherwise the orphans are taken in `os.ReadDir` order, exactly those up to the first failing removal are deleted, the rest of the listing keeps its order, `deletedCount == len(deletedDirs)`, and the error names the first undeletable dir |
| CleanCmd.RemoveOrphans | cmd/clean.go:72-86 | the deletion loop deletes exactly the orphan prefix that `TakeUntil` gives, reports their paths, and fails exactly when it stops short |
| CleanCmd.DeleteOrphans | cmd/clean.go:72-86 | outside dry-run the loop removes the orphans in order, keeps the rest of the listing in its order, counts and reports each removed path, and stops at the first failing `RemoveAll` |
| CleanCmd.RemoveAndCount | cmd/clean.go:78-83 | one `RemoveAll` succeeds exactly when the dir is removable, and then removes it, adds 1 to `deletedCount` and appends its path to `deletedDirs`; a failure changes nothing |
| CleanCmd.CollectSegmentIds | cmd/clean.go:67-71 | the loop collects the ID of every catalog segment row, in row order |
| OrphanClean.VectorSegmentIds | chroma_ops/clean.py:19-24 | an ID is active exactly when some VECTOR segment row has it |
| OrphanClean.ActiveSegments | chroma_ops/db_clean.py:21-26 | the `active_segments` loop computes the VECTOR segment IDs |
| OrphanClean.HeaderOrphans | chroma_ops/db_clean.py:35-42 | the candidates number no more than the listing |
| OrphanClean.HeaderOrphansMembership | chroma_ops/db_clean.py:35-42 | a listed name is a candidate exactly when it is a directory, is not active, and has a `header.bin` that exists |
| OrphanClean.HeaderOrphansDistinct | chroma_ops/db_clean.py:35-42 | the candidates of a duplicate-free listing are duplicate-free |
| OrphanClean.RemainingHeaderDirsAreActive | tests/test_clean.py:34-41 | after a complete run, every listed dir still holding `header.bin` is active, and every active dir that existed is still there |
| OrphanClean.GoOrphanWithHeaderIsPythonOrphan | chroma_ops/clean.py:30 | a dir that the Go `clean` deletes and whose `header.bin` stats cleanly is deleted by the Python cleaners too |
| OrphanClean.MetadataNamedDirIsPythonOrphan | chroma_ops/clean.py:19-30 | a dir named by a METADATA segment only, and holding `header.bin`, is deleted by the Python cleaners |
| OrphanClean.CleanScript | chroma_ops/clean.py:12-32 | validation, query and listing failures delete nothing; otherwise exactly the candidates up to the first failing `rmtree` are removed, and the error names that dir |
| OrphanClean.RemoveAsListed | chroma_ops/clean.py:29-32 | the listing loop removes each candidate as it reaches it, stopping at the first failing `rmtree` |
| OrphanClean.CollectOrphans | chroma_ops/db_clean.py:35-42 | the listing loop collects exactly the candidates, in listing order |
| OrphanClean.DbClean | chroma_ops/db_clean.py:15-58 | failures delete nothing; no candidates or a declined prompt delete nothing; otherwise exactly the candidates up to the first failing `rmtree` are removed and `Deleted` means all were |
| OrphanClean.RemoveAllInOrder | chroma_ops/db_clean.py:55-57 | removes the names in order up to the first failure and reports which one failed |
| HnswIndex.Assign | chroma_ops/hnsw.py:152 | after `add_items` the stored labels are the old ones plus the given ones |
| HnswIndex.AssignAppend | chroma_ops/hnsw.py:150-152 | adding two batches in turn equals adding their concatenation |
| HnswIndex.Fetch | chroma_ops/hnsw.py:151 | `get_items` returns, position by position, the source vector of each label |
| HnswIndex.FetchAppend | chroma_ops/hnsw.py:151 | fetching a concatenation is concatenating the fetches |
| HnswIndex.AssignFetched | chroma_ops/hnsw.py:151-152 | after adding fetched items, each added label holds the source's vector and every other label keeps its own |
| HnswIndex.NewLabelsSpec | chroma_ops/hnsw.py:152 | the labels appended to the id list are duplicate-free and are exactly the given labels not already present |
| HnswIndex.AddStep | chroma_ops/hnsw.py:152 | one `add_items` element keeps the id list duplicate-free and in step with the stored vectors |
| HnswIndex.TargetIndex.Snapshot | chroma_ops/hnsw.py:154 | the index as persisted holds its ids and vectors, every position live |
| HnswIndex.TargetIndex.constructor | chroma_ops/hnsw.py:120 | `hnswlib.Index(space, dim)` is empty and clean |
| HnswIndex.TargetIndex.InitIndex | chroma_ops/hnsw.py:121-127 | records `max_elements`, `ef_construction` and `M` |
| HnswIndex.TargetIndex.SetNumThreads | chroma_ops/hnsw.py:128 | records the thread count |
| HnswIndex.TargetIndex.SetEf | chroma_ops/hnsw.py:129 | records `ef_search` |
| HnswIndex.TargetIndex.AddItems | chroma_ops/hnsw.py:152 | vectors become the assignment of the items to the labels, new labels are appended once, and the index is dirty when anything was added |
| HnswIndex.TargetIndex.PersistDirty | chroma_ops/hnsw.py:154 | after the flush nothing is dirty, the persisted index is the in-memory one, and a flush event is journalled |
| Hnsw.FirstCollection | chroma_ops/hnsw.py:28 | `fetchone` of `WHERE name = ?` is the first row with that name, None exactly when there is none |
| Hnsw.FirstVectorSegment | chroma_ops/hnsw.py:38 | the first VECTOR segment of the collection, None exactly when there is none |
| Hnsw.GetHnswDetails | chroma_ops/hnsw.py:27-66 | fails for a missing collection, a missing `hnsw_configuration` or a missing VECTOR segment; otherwise the config is copied unchanged, the path is persist_dir/segment_id, `has_metadata` holds exactly when the side-car exists, `id_to_label` is the side-car's or empty, and `num_elements` is its size |
| Hnsw.NoSidecarNoElements | chroma_ops/hnsw.py:39-46 | without a side-car `num_elements` is 0 |
| Hnsw.DetailsStableUnderDirChange | chroma_ops/hnsw.py:27-38 | the directory contents affect neither whether the lookup succeeds nor the segment, path, config and collection it gives |
| Hnsw.GetItems | chroma_ops/hnsw.py:151 | `get_items` succeeds exactly when every label is live in the source, and then returns their vectors |
| Hnsw.LabelValues | chroma_ops/hnsw.py:133 | one value per ID of `id_to_label`, and exactly its labels |
| Hnsw.TransferBatches | chroma_ops/hnsw.py:150-153 | step 0 raises; a negative step adds nothing; otherwise the loop visits exactly the consecutive slices of the values, fails exactly when some label is not live, and leaves the target holding the source vector of every value |
| Hnsw.TransferContents | chroma_ops/hnsw.py:150-153 | on a fresh target the transfer leaves exactly the labels of the values, each with the source's vector, and no more labels than `max_elements` |
| Hnsw.LabelsBound | chroma_ops/hnsw.py:122 | a list has no more distinct labels than entries |
| Hnsw.BackupName | chroma_ops/hnsw.py:158 | the backup name starts with the segment ID and is longer than it |
| Hnsw.FullLogOrdered | chroma_ops/hnsw.py:150-164 | the journal of a complete rebuild (lock, flush, backup move or removal, install, commit) touches the live segment dir only after the flush, and commits last, after the install |
| Hnsw.RolledBackLogOrdered | chroma_ops/hnsw.py:166-170 | a journal cut off at any step before the commit and closed by a rollback keeps that ordering |
| Hnsw.OrderedLog | chroma_ops/hnsw.py:145-170 | the ordering a rebuild keeps on its journal: the live segment dir is touched only after the flush, the commit only follows the install and ends the run, a rollback ends the run; shown for every run by `FullLogOrdered` and `RolledBackLogOrdered` |
| Hnsw.SegmentLog | chroma_ops/hnsw.py:145-164 | the journal of a complete rebuild: lock, flush, `shutil.move` to the backup or `shutil.rmtree`, the `copytree` install, commit; `FullLogOrdered` proves it ordered |
| Hnsw.Sidecar | chroma_ops/hnsw.py:40-42 | whether `index_metadata.pickle` exists under the segment dir, and the record it loads; used by `WalClean.SegmentStmts`, `WalClean.Loads` and the rebuild |
| Hnsw.RemoveBeforeFlushUnordered | chroma_ops/hnsw.py:150-160 | the ordering rejects a run that removes the live dir before the target is flushed |
| Hnsw.StagedEntry | chroma_ops/hnsw.py:154-163 | the installed dir has a header, keeps the copied side-car and holds the flushed target |
| Hnsw.OpenTarget | chroma_ops/hnsw.py:120-129 | the target is fresh and empty, with `max_elements = len(id_to_label)` and the collection's space, dimension, `ef_construction`, `M`, `num_threads` and `ef_search` |
| Hnsw.TransferAndSwap | chroma_ops/hnsw.py:143-170 | the events the flush, the directory and the catalog append to the shared journal are the flush, the backup move or removal, the install and the commit, in that order; any failure appends a rollback, and the only directory change a failure leaves is the displaced old dir when the install fails |
| Hnsw.SwapDirs | chroma_ops/hnsw.py:155-170 | the old dir is displaced, then the staged copy holding what the target flushed is installed under the segment ID, then the transaction commits; a failure rolls back |
| Hnsw.DisplaceOld | chroma_ops/hnsw.py:155-160 | with `backup` the old dir moves intact to the backup name, otherwise it is removed; a failed move or removal rolls back and leaves the dir unchanged |
| Hnsw.SwapIn | chroma_ops/hnsw.py:133-164 | once confirmed the target holds exactly the live labels of `id_to_label` with the source vectors, and the staged copy replaces the segment dir |
| Hnsw.RebuildSegment | chroma_ops/hnsw.py:116-170 | a declined prompt leaves the persist dir unchanged and the transaction open; staging or loading failures roll back before the dir is touched; success installs the staged copy and commits |
| Hnsw.RebuildHnsw | chroma_ops/hnsw.py:94-170 | validation and lock failures change nothing; a missing side-car returns before any copy; a completed rebuild leaves the old dir under `<id>_backup_<timestamp>` or removed, the rebuilt index in its place holding exactly the live labels with their source vectors, commits, and reports the new details; errors roll back; the journal the run appends keeps the live dir untouched until the flush and the commit after the install |
| Hnsw.RebuildLocked | chroma_ops/hnsw.py:103-170 | after the lock: a failed lookup rolls back, a missing side-car returns with nothing further in the journal, and every run keeps the rebuild ordering in its journal |
| Info.FirstSeqId | chroma_ops/info.py:95-101 | the first `max_seq_id` row of the segment, None exactly when there is none |
| Info.CatalogSeqId | chroma_ops/info.py:95-102 | `sysdb_max_seq_id` is the decoded first row, or 0 when there is none |
| Info.Fragmentation | chroma_ops/info.py:154-160 | fragmentation times `element_count` is `(element_count - live) * 100`; an empty index divides by zero |
| Info.FragmentationBounds | chroma_ops/info.py:154-160 | for a loaded index the percentage lies in [0, 100] and is 0 exactly when every position is live |
| Info.RatioBounds | chroma_ops/info.py:154-160 | a ratio of 0 <= x <= e lies in [0, 1] and is 0 exactly when x is |
| Info.MulBounds | chroma_ops/info.py:154-160 | multiplying by a positive e keeps a value's position relative to 0 and 1 |
| Info.OrphanLabels | chroma_ops/info.py:161-164 | the orphan labels are exactly the index ids that are not `label_to_id` keys |
| Info.VectorSegmentStats | chroma_ops/info.py:103-165 | without a side-car every counter is zero; with one, the watermark is the side-car's `max_seq_id` when present and the catalog's otherwise, total = `len(id_to_label)`, `wal_gap` = records minus that, and the raw counts, fragmentation and orphan labels come from the loaded index; failures are an undecodable seq id, an unloadable index or an empty one |
| Info.SegmentStats | chroma_ops/info.py:83-171 | a METADATA segment's path is the SQLite file with no side-car path, any other's is persist_dir/id with its pickle; `sysdb_max_seq_id` is the catalog's; VECTOR statistics are present exactly for VECTOR segments |
| Info.CollectionSegments | chroma_ops/info.py:73-76 | the JOIN rows are exactly the collection's segments |
| Info.SegmentsReport | chroma_ops/info.py:82-171 | one report per segment in order, or the exception of one of them |
| Info.CollectionData | chroma_ops/info.py:64-179 | id, name, tenant, database and records are the collection's, the dimension is the collection's and present exactly when it has segments, the segments are their reports, and `wal_entries` is the WAL count on its topic; it raises exactly when a segment does |
| Info.GatherSegments | chroma_ops/info.py:82-171 | the segment loop computes the segment reports and adds their paths to the active set |
| Info.SegmentsReportAbsorbs | chroma_ops/info.py:82-171 | once a segment raises, the whole loop raises the same exception |
| Info.CollectionsReportAbsorbs | chroma_ops/info.py:57-180 | once a collection raises, the whole loop raises the same exception |
| Info.PathsOfMembership | chroma_ops/info.py:94 | a path is added exactly when it is the path of one of the segments |
| Info.ListOrphanDirs | chroma_ops/info.py:183-194 | the `scandir` loop computes the orphan directory list |
| Info.Info | chroma_ops/info.py:57-194 | the two loops compute the report: the collection dicts and the orphan dirs, or the first exception |
| Info.ReportedNames | chroma_ops/info.py:57-179 | a name is a key of the report exactly when some listed, non-skipped collection has it |
| Info.SkippedNamesAbsent | chroma_ops/info.py:58-63 | a skipped name never appears in the report |
| Info.ActivePathsCover | chroma_ops/info.py:94 | every segment path of a reported collection is active |
| Info.OrphanDirsMembership | chroma_ops/info.py:183-194 | an orphan is exactly a listed directory whose path is not active, with its path redacted in privacy mode |
| Info.ActiveSegmentDirNotOrphan | chroma_ops/info.py:183-194 | the directory of a reported collection's non-METADATA segment is never listed as an orphan |
| Info.WalEntries | chroma_ops/info.py:172-178 | the `count(*)` of WAL rows on the collection's topic; `CollectionData` reports it |
| Info.CollectionsReport | chroma_ops/info.py:57-180 | the collection dicts keyed by name, skipping the skip-listed names, a later name overwriting an earlier one, or the first exception; characterized by `ReportedNames`, `SkippedNamesAbsent` and `CollectionsReportAbsorbs` |
| Info.PathsOf | chroma_ops/info.py:86-94 | the paths one collection's segments add to `active_hnsw_segment_dirs`; `PathsOfMembership` characterizes it |
| Info.ActivePaths | chroma_ops/info.py:57-94 | `active_hnsw_segment_dirs` after the collection loop: the segment paths of every non-skipped collection; `ActivePathsCover` and `Info` state it |
| Info.OrphanDirs | chroma_ops/info.py:183-194 | the `scandir` entries that are directories whose path is not active, in listing order, redacted in privacy mode; `OrphanDirsMembership` characterizes it and `ListOrphanDirs` computes it |
| Info.InfoSpec | chroma_ops/info.py:57-194 | the whole report: the collection dicts and the orphan dirs computed against the active paths, or the first exception; the `Info` method computes it and `ActiveSegmentDirNotOrphan` relates its two halves |
| WalClean.VectorRows | chroma_ops/wal_clean.py:22-26 | the rows are exactly the VECTOR segments |
| WalClean.HnswSpace | chroma_ops/wal_clean.py:36-40 | the first `hnsw:space` row's value of the collection, "l2" when there is none |
| WalClean.DeleteIns | chroma_ops/wal_clean.py:45-48 | one `DELETE ... IN` per batch, in order |
| WalClean.BatchDeletes | chroma_ops/wal_clean.py:44-48 | the batch loop emits one delete per consecutive slice of at most 100 labels |
| WalClean.BuildStatements | chroma_ops/wal_clean.py:28-48 | the row loop computes the statement list, or the first exception, and opens each fallback index with the collection's space |
| WalClean.PlanAbsorbs | chroma_ops/wal_clean.py:28-48 | once a row raises, the whole loop raises the same exception |
| WalClean.CleanWal | chroma_ops/wal_clean.py:12-56 | validation or a raising row changes nothing; otherwise the script (the statements, plus `VACUUM` when there are any) is executed on the WAL and nothing else changes |
| WalClean.DeleteBelowExact | chroma_ops/wal_clean.py:29-34 | the side-car statement removes exactly the rows of its topic below the watermark, and leaves other topics as they were |
| WalClean.ChunkedDeletesExact | chroma_ops/wal_clean.py:41-48 | the chunked deletes together remove exactly the rows whose seq id is a label, whatever their topic |
| WalClean.DeleteInsFlatten | chroma_ops/wal_clean.py:45-48 | a sequence of batch deletes removes exactly the rows whose seq id is in some batch |
| WalClean.ExecuteAppend | chroma_ops/wal_clean.py:52 | a script runs as its parts in order |
| WalClean.ExecuteShrinks | chroma_ops/wal_clean.py:52 | the WAL after the script is a subsequence of the WAL before: rows are only deleted |
| WalClean.PlanHasNoVacuum | chroma_ops/wal_clean.py:28-48 | the built statements contain no `VACUUM` |
| WalClean.ScriptShape | chroma_ops/wal_clean.py:49-52 | no statements means nothing runs and the WAL is unchanged; otherwise `VACUUM` is last and appears once |
| WalClean.SegmentStmts | chroma_ops/wal_clean.py:29-48 | one row's statements: with a side-car, one watermark delete on the segment's topic (a side-car without `max_seq_id` raises); without, the index's labels as `IN` deletes of at most 100, and an index that cannot load raises; characterized by `DeleteBelowExact`, `ChunkedDeletesExact` and `PlanHasNoVacuum` |
| WalClean.Plan | chroma_ops/wal_clean.py:27-48 | `wal_cleanup_queries`: the rows' statements concatenated in row order, or the exception of the first row that raises; `BuildStatements` computes it, `PlanAbsorbs` and `PlanHasNoVacuum` characterize it |
| WalClean.Loads | chroma_ops/wal_clean.py:35-43 | one index opened per row without a side-car, at persist_dir/segment with the collection's space, in row order; `BuildStatements` ensures it |
| WalClean.Script | chroma_ops/wal_clean.py:49-52 | nothing runs when there are no statements, otherwise the statements followed by one `VACUUM`; `ScriptShape` characterizes it |
| WalClean.Keeps | chroma_ops/wal_clean.py:33-47 | the rows a statement leaves: not (below the watermark and on the topic), not a listed seq id, or all of them for `VACUUM`; `DeleteBelowExact` and `ChunkedDeletesExact` state the effect |
| WalClean.Apply | chroma_ops/wal_clean.py:52 | one statement deletes the rows it matches and keeps the rest in order |
| WalClean.Execute | chroma_ops/wal_clean.py:52 | `executescript` runs the statements in order; `ExecuteAppend`, `ExecuteShrinks` and `CleanWal` characterize it |
| WalConfig.SetPurge | chroma_ops/wal_config.py:87-97 | the UPDATE sets `automatically_purge` in every row and changes no other key |
| WalConfig.Decide | chroma_ops/wal_config.py:40-85 | a missing table is caught, an empty table raises, the requested state already set returns with no write, a declined prompt cancels, and only a confirmed run updates |
| WalConfig.ConfigWal | chroma_ops/wal_config.py:21-102 | validation raises; the outcome is `Decide`'s, with an update turned into a rollback when the lock or UPDATE fails; a completed run writes the flag for OFF/AUTO and leaves the rows unchanged for no flag; every other path leaves the table unchanged and no transaction open |
| WalConfig.UpdateIsIdempotent | chroma_ops/wal_config.py:50-66 | running again with the flag just written returns "already set" |
| FtsGo.ValidateTokenizer | cmd/fts.go:42-56 | accepted exactly with one of the four prefixes and returned unchanged; otherwise an error for the given name |
| FtsGo.DefaultTokenizerValid | cmd/fts.go:151 | the default "trigram" validates |
| FtsGo.CreateEmbedsTokenizer | cmd/fts.go:126 | the create statement contains `tokenize='<tokenizer>'` |
| FtsGo.CreateStatement | cmd/fts.go:126 | the `CREATE VIRTUAL TABLE ... fts5(string_value, tokenize='<tokenizer>')` statement; `CreateEmbedsTokenizer` characterizes it |
| FtsGo.Plan | cmd/fts.go:88-144 | BEGIN, the six drops, the create, `CreateFTS`, `InsertFTS`, then COMMIT exactly outside dry-run; never a ROLLBACK |
| FtsGo.FirstFailing | cmd/fts.go:88-144 | the index of the first rejected statement, every earlier one accepted |
| FtsGo.Database.constructor | cmd/fts.go:84 | a fresh connection has received nothing |
| FtsGo.Database.Exec | cmd/fts.go:88 | the statement is received and succeeds exactly when it is not rejected |
| FtsGo.ReceivedOnFailure | cmd/fts.go:92-99 | a failure after BEGIN sends the prefix up to it and then the deferred ROLLBACK |
| FtsGo.Deferred | cmd/fts.go:93-99 | the deferred function sends ROLLBACK exactly when not committed |
| FtsGo.DropTables | cmd/fts.go:102-125 | the six drops run in order, stopping at the first failure |
| FtsGo.CreateTables | cmd/fts.go:126-137 | the create, `CreateFTS` and `InsertFTS` run in order, stopping at the first failure |
| FtsGo.Rebuild | cmd/fts.go:88-145 | the database receives the plan up to its first failure and then the deferred ROLLBACK unless committed; the error names the failing statement |
| FtsGo.FtsRebuild | cmd/fts.go:58-146 | the persist dir and tokenizer are checked before the database receives anything; then `Rebuild` |
| FtsGo.DryRunNeverCommits | cmd/fts.go:138-144 | in dry-run mode COMMIT is never sent |
| FtsGo.RollbackUnlessCommitted | cmd/fts.go:92-99 | a committed run sends no ROLLBACK; any other run that got past BEGIN ends with exactly one ROLLBACK; a failing BEGIN sends nothing else |
| FtsGo.Received | cmd/fts.go:88-145 | what the database receives: the plan up to and including its first rejected statement, then the deferred ROLLBACK unless BEGIN itself failed; a full run in dry-run mode ends with ROLLBACK, otherwise with COMMIT; `Rebuild` computes it, `ReceivedOnFailure`, `RollbackUnlessCommitted` and `DryRunNeverCommits` characterize it |
| Fts.ValidateTokenizer | chroma_ops/fts.py:20-30 | raises exactly when none of "trigram", "unicode61", "ascii", "porter" is a prefix |
| Fts.ValidatorsAgree | chroma_ops/fts.py:20-30 | the Python and Go validators accept the same names |
| Fts.DefaultTokenizerAccepted | chroma_ops/constants.py:15 | the Python default is accepted and equals the Go default |
| Fts.ReplaceNoOccurrence | chroma_ops/fts.py:52 | a script without the placeholder is unchanged |
| Fts.ReplaceSplice | chroma_ops/fts.py:52 | the first occurrence becomes the replacement and the scan continues after it |
| Fts.SubstituteOnce | chroma_ops/fts.py:51-53 | a script with one placeholder runs with the tokenizer in its place |
| Fts.Replace | chroma_ops/fts.py:52 | `str.replace`: leftmost, non-overlapping replacement of every occurrence; characterized by `ReplaceNoOccurrence`, `ReplaceSplice` and `SubstituteOnce` |
| Fts.RebuildFts | chroma_ops/fts.py:33-64 | the dir and tokenizer are validated before any prompt or connection; a declined prompt opens no connection; otherwise the script with every placeholder replaced runs, and script and start failures are raised |
| Tx.Step | internal/db/tx.go:24-57 | `done` becomes true exactly on Commit or Rollback and never resets; Exec after `done` sends nothing, before it forwards the query; control statements are always sent |
| Tx.DoneIsFinal | internal/db/tx.go:24-57 | a finished transaction stays finished whatever is called next |
| Tx.NoQueryAfterDone | internal/db/tx.go:37-39 | after Commit or Rollback no query reaches the connection |
| Tx.OpenMeansNeverEnded | internal/db/tx.go:43-57 | an unfinished transaction saw neither Commit nor Rollback |
| Tx.Run | internal/db/tx.go:24-57 | a sequence of `MyTx` calls, each a `Step`; `DoneIsFinal`, `NoQueryAfterDone` and `OpenMeansNeverEnded` characterize it |
| Tx.MyTx.constructor | internal/db/tx.go:17-22 | `NewTx` starts not done, with nothing sent |
| Tx.MyTx.Begin | internal/db/tx.go:24-27 | sends BEGIN, leaves `done` alone, fails exactly when the database rejects it |
| Tx.MyTx.BeginExclusive | internal/db/tx.go:29-32 | sends BEGIN EXCLUSIVE, leaves `done` alone, fails exactly when the database rejects it |
| Tx.MyTx.Exec | internal/db/tx.go:34-41 | after `done` returns `ErrTxDone` without sending; otherwise forwards the query |
| Tx.MyTx.Commit | internal/db/tx.go:43-49 | sets `done` whether or not COMMIT succeeds |
| Tx.MyTx.Rollback | internal/db/tx.go:51-57 | sets `done` whether or not ROLLBACK succeeds |
| Storage.Join | chroma_ops/hnsw.py:60 | joining appends the name as the last component |
| Storage.JoinInjective | internal/chroma/utils.go:31 | joining the same dir with two names gives the same path exactly when the names are equal |
| Storage.PersistDir.RemoveTree | chroma_ops/db_clean.py:57 | `rmtree` of a removable entry deletes exactly it, keeps the rest of the listing in order and journals the removal; an undeletable one leaves the dir unchanged |
| Storage.UnlistedIsFilter | chroma_ops/db_clean.py:55-57 | removing names one after another leaves the listing filtered to the other names, in their order |
| Storage.PersistDir.Rename | chroma_ops/hnsw.py:159 | `shutil.move` onto a name not yet taken puts the entry under the new name, removes the old one and journals the move |
| Storage.PersistDir.Install | chroma_ops/hnsw.py:163 | `copytree` puts the staged entry under the name and journals the install |
| Storage.Catalog.BeginExclusive | chroma_ops/hnsw.py:101 | succeeds exactly when no other process holds a lock, saving the tables |
| Storage.Catalog.Commit | chroma_ops/hnsw.py:164 | ends the transaction keeping the tables |
| Storage.Catalog.Rollback | chroma_ops/hnsw.py:167 | restores the tables saved at BEGIN when a transaction is open |
| Chunking.ChunksCover | chroma_ops/wal_clean.py:45-47 | concatenating the batches gives back the whole list |
| Chunking.ChunksBounded | chroma_ops/wal_clean.py:45-47 | every batch is non-empty and holds at most the batch size |
| Chunking.ChunkAt | chroma_ops/hnsw.py:150-151 | batch j is exactly `values[j*k : (j+1)*k]`, truncated at the end |
| Chunking.Chunks | chroma_ops/wal_clean.py:44-47 | the batches `s[i:i+k]` for `i in range(0, len(s), k)`, as in hnsw.py:150-151 too; characterized by `ChunksCover`, `ChunksBounded` and `ChunkAt` |

## Left out

- Rendering is not modelled: rich tables, progress bars, `print_hnsw_details`, `info_hnsw`, `sizeof_fmt`, and the index and directory sizes that `info` and `_get_hnsw_details` print.
- Floating point is not modelled. Fragmentation and the 1.1 disk-space factor use exact rationals.
- Sizes, the free disk space and the backup timestamp are inputs. `get_dir_size`, `get_disk_free_space` and `datetime.now` are not modelled.
- Pickle loading, JSON parsing and hnswlib internals are not modelled. A side-car is a loaded `PersistentData` value, and an index is its ids, vectors and element count.
- `get_hnsw_index_ids` loads with `max_elements=100000`, and `info` loads with `max_elements` set to the watermark. The capacity and dimension checks hnswlib makes on load are not modelled; an entry either loads or does not.
- The `dimension` column of the `clean_wal` query is not modelled. It only reaches the index loader.
- `info` takes the dimension from `c._model` when that attribute exists. The model uses the catalog's `dimension` column.
- `info` records no statistics for METADATA segments (chroma_ops/info.py:166-170). The source has only a TODO there.
- The `sqlite_master` probe of `config_wal` only fetches, so its `OperationalError` handler (chroma_ops/wal_config.py:35-39) cannot run in this model. A missing config table reaches the second query, which raises; the handler there rolls back.
- `executescript` is modelled as running every statement; partial execution on a mid-script failure is not modelled.
- A `shutil.move` onto a backup name that already exists would put the old dir inside it; `Hnsw.DisplaceOld` treats that case as a failed move.
- An `Entry` is a file or a directory and has no symbolic-link case. Go's `DirEntry.IsDir` does not follow a link to a directory (internal/chroma/utils.go:31), while Python's `os.path.isdir` does (chroma_ops/clean.py:30, chroma_ops/db_clean.py:37); the model cannot show that difference.
- Utils.ParseParts: accepts only parts made of decimal digits. Python's `int` also accepts a sign, surrounding blanks and `_` between digits ("+6", " 6", "1_0"); no Chroma version string has such a part, so this is not modelled.
- `rmtree`/`RemoveAll` either removes the whole entry or fails with nothing removed. A partial removal is not modelled.
- The text of `scripts/drop_fts.sql` is an input; `read_script` is not modelled.
- The Chroma client start after `rebuild_fts` is a flag saying whether it raises.
- Hnsw.LabelValues: fixes only the length and the set of labels of `list(id_to_label.values())`, not their order, because the order of a loaded dict is not visible in the model.
- Go flag, `sql.Open` and cobra errors are not modelled (cmd/fts.go:63-73, 84-87; cmd/clean.go:38-50). Nor is the stderr output.
- The mutex and atomic flag of `MyTx` are not modelled. The transaction is modelled sequentially, with no concurrent callers.
- `list_collections` calls the chromadb client. Its listing is an input, and `get_collection` is a lookup by name in it.
- The merge of the `collection_metadata` `hnsw:*` parameters into `HnswParams` in `info` is not modelled, because the space it selects only reaches the index loader.
