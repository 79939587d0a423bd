/**
 * chroma_ops/wal_config.py `config_wal` (lines 21-102): show the WAL's
 * `automatically_purge` flag and, when asked to, switch it in every row of
 * `embeddings_queue_config` inside an exclusive transaction.
 */
module WalConfig {
  import opened Wrappers
  import opened Storage
  import opened Utils

  datatype PurgeFlag = Off | Auto

  const PurgeKey := "automatically_purge"
  const TypeKey := "_type"

  /** How a run ends without raising. */
  datatype Outcome =
    | ConfigTableMissing     // the SELECT raised OperationalError; rolled back
    | AlreadySet
    | Cancelled
    | Updated
    | UpdateFailed           // BEGIN EXCLUSIVE or the UPDATE raised OperationalError; rolled back

  /** The exceptions that escape `config_wal`. */
  datatype WalConfigError =
    | ValidationFailed(reason: DirError)
    | EmptyConfigTable          // `fetchone()` is None: TypeError on `[0]`
    | MissingKey(key: string)   // KeyError from `del` or from reading the flag

  function FlagValue(p: PurgeFlag): bool { p == Auto }

  /** The `JSON_SET(config_json_str, '$.automatically_purge', ...)` of every row. */
  function SetPurge(rows: seq<ConfigJson>, value: bool): (r: seq<ConfigJson>)
    ensures |r| == |rows|
    ensures forall i | 0 <= i < |rows| :: PurgeKey in r[i] && r[i][PurgeKey] == JBool(value)
    ensures forall i, k | 0 <= i < |rows| && k != PurgeKey ::
      (k in r[i] <==> k in rows[i]) && (k in rows[i] ==> r[i][k] == rows[i][k])
  {
    seq(|rows|, i requires 0 <= i < |rows| => rows[i][PurgeKey := JBool(value)])
  }

  /** The early return on a flag that already has the requested value (`is False` / `is True`). */
  predicate AlreadyInState(current: ConfigJson, p: PurgeFlag)
    requires PurgeKey in current
  {
    current[PurgeKey] == JBool(FlagValue(p))
  }

  /**
   * What the run does, decided on the stored rows alone: the `walConfig`
   * rows after it (None when it raises or changes nothing) and how it ends.
   */
  function Decide(walConfig: Option<seq<ConfigJson>>, purge: Option<PurgeFlag>, yes: bool, confirmed: bool)
    : (r: Result<Outcome, WalConfigError>)
    ensures walConfig.None? ==> r == Ok(ConfigTableMissing)
    ensures walConfig == Some([]) ==> r == Err(EmptyConfigTable)
    ensures r == Ok(Updated) || r == Ok(Cancelled) ==>
      && walConfig.Some? && |walConfig.value| > 0 && TypeKey in walConfig.value[0] && PurgeKey in walConfig.value[0]
      && !(purge.Some? && AlreadyInState(walConfig.value[0], purge.value))
    ensures r == Ok(Updated) ==> yes || confirmed
    ensures r == Ok(Cancelled) ==> !yes && !confirmed
    ensures r == Ok(AlreadySet) <==>
      walConfig.Some? && |walConfig.value| > 0 && TypeKey in walConfig.value[0] && PurgeKey in walConfig.value[0]
      && purge.Some? && AlreadyInState(walConfig.value[0], purge.value)
  {
    match walConfig
    case None => Ok(ConfigTableMissing)
    case Some(rows) =>
      if rows == [] then Err(EmptyConfigTable)
      else if TypeKey !in rows[0] then Err(MissingKey(TypeKey))
      else
        var current := rows[0] - {TypeKey};
        if PurgeKey !in current then Err(MissingKey(PurgeKey))
        else if purge.Some? && AlreadyInState(current, purge.value) then Ok(AlreadySet)
        else if !yes && !confirmed then Ok(Cancelled)
        else Ok(Updated)
  }

  /**
   * `config_wal`. `confirmed` is the answer to the prompt; `updateFails`
   * says the UPDATE raises OperationalError. The connection is fresh, so
   * no transaction is open at the start.
   */
  method ConfigWal(fs: PersistDir, db: Catalog, purge: Option<PurgeFlag>, yes: bool, confirmed: bool, updateFails: bool)
    returns (r: Result<Outcome, WalConfigError>)
    requires db.tx == Idle
    modifies db, db.journal`events
    ensures db.tx == Idle
    ensures ValidatePersistDir(fs.root, fs.entries).Some? ==>
      r == Err(ValidationFailed(ValidatePersistDir(fs.root, fs.entries).value))
    ensures ValidatePersistDir(fs.root, fs.entries).None? ==>
      var d := Decide(old(db.tables.walConfig), purge, yes, confirmed);
      && (d != Ok(Updated) ==> r == d)
      && (d == Ok(Updated) ==> r == (if db.busy || (purge.Some? && updateFails) then Ok(UpdateFailed) else Ok(Updated)))
    ensures r == Ok(Updated) && purge.Some? ==>
      db.tables == old(db.tables).(walConfig := Some(SetPurge(old(db.tables.walConfig.value), FlagValue(purge.value))))
    ensures r != Ok(Updated) || purge.None? ==> db.tables == old(db.tables)
  {
    var invalid := ValidatePersistDir(fs.root, fs.entries);
    if invalid.Some? {
      return Err(ValidationFailed(invalid.value));
    }
    // The `sqlite_master` probe only fetches a row: a missing table makes it return None, not raise,
    // so its handler is not modelled.
    if db.tables.walConfig.None? {
      db.Rollback();
      return Ok(ConfigTableMissing);
    }
    var rows := db.tables.walConfig.value;
    if |rows| == 0 {
      return Err(EmptyConfigTable);
    }
    if TypeKey !in rows[0] {
      return Err(MissingKey(TypeKey));
    }
    var current := rows[0] - {TypeKey};
    if PurgeKey !in current {
      return Err(MissingKey(PurgeKey));
    }
    if purge.Some? && AlreadyInState(current, purge.value) {
      return Ok(AlreadySet);
    }
    if !yes && !confirmed {
      return Ok(Cancelled);
    }
    var ok := db.BeginExclusive();
    if !ok {
      db.Rollback();
      return Ok(UpdateFailed);
    }
    if purge.Some? {
      if updateFails {
        db.Rollback();
        return Ok(UpdateFailed);
      }
      db.tables := db.tables.(walConfig := Some(SetPurge(rows, FlagValue(purge.value))));
    }
    db.Commit();
    return Ok(Updated);
  }

  // ------------------------------------------------------------ properties

  /** Running again with the flag just written is a no-op. */
  lemma UpdateIsIdempotent(rows: seq<ConfigJson>, p: PurgeFlag, yes: bool, confirmed: bool)
    requires Decide(Some(rows), Some(p), yes, confirmed) == Ok(Updated)
    ensures Decide(Some(SetPurge(rows, FlagValue(p))), Some(p), yes, confirmed) == Ok(AlreadySet)
  {
    var after := SetPurge(rows, FlagValue(p));
    assert TypeKey in after[0];
    assert (after[0] - {TypeKey})[PurgeKey] == JBool(FlagValue(p));
  }
}
