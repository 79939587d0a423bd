/**
 * cmd/fts.go: tokenizer validation and `ftsRebuild`, which drops and
 * recreates the full-text-search tables inside one exclusive transaction
 * and rolls back, from a deferred function, unless it committed.
 */
module FtsGo {
  import opened Wrappers
  import opened Storage
  import opened ChromaDirs
  import opened Seqs

  const Unicode61 := "unicode61"
  const Trigram := "trigram"
  const Porter := "porter"
  const Ascii := "ascii"

  /** The `--tokenizer` flag's default. */
  const DefaultTokenizer := Trigram

  predicate KnownTokenizer(s: string)
  {
    HasPrefix(s, Unicode61) || HasPrefix(s, Trigram) || HasPrefix(s, Porter) || HasPrefix(s, Ascii)
  }

  datatype TokenizerError = InvalidTokenizer(given: string)

  /** `validateTokenizer`: a name with one of the four prefixes is returned unchanged (options may follow it). */
  function ValidateTokenizer(s: string): (r: Result<string, TokenizerError>)
    ensures r.Ok? <==> KnownTokenizer(s)
    ensures r.Ok? ==> r.value == s
    ensures r.Err? ==> r.error == InvalidTokenizer(s)
  {
    if HasPrefix(s, Unicode61) then Ok(s)
    else if HasPrefix(s, Trigram) then Ok(s)
    else if HasPrefix(s, Porter) then Ok(s)
    else if HasPrefix(s, Ascii) then Ok(s)
    else Err(InvalidTokenizer(s))
  }

  lemma DefaultTokenizerValid()
    ensures ValidateTokenizer(DefaultTokenizer) == Ok("trigram")
  {
  }

  /** The statements `ftsRebuild` sends. */
  datatype Step =
    | BeginExclusive
    | DropFts | DropFtsConfig | DropFtsContent | DropFtsData | DropFtsDocsize | DropFtsIdx
    | CreateTable(sql: string)
    | CreateFts | InsertFts
    | Commit | Rollback

  const CreatePrefix := "CREATE VIRTUAL TABLE IF NOT EXISTS embedding_fulltext_search USING fts5(string_value, "

  function CreateStatement(tokenizer: string): string
  {
    CreatePrefix + "tokenize='" + tokenizer + "')"
  }

  predicate Contains(s: string, x: string)
  {
    exists i | 0 <= i <= |s| :: HasPrefix(s[i..], x)
  }

  /** The virtual table is created with `tokenize='<tokenizer>'`. */
  lemma CreateEmbedsTokenizer(tokenizer: string)
    ensures Contains(CreateStatement(tokenizer), "tokenize='" + tokenizer + "'")
  {
    var s := CreateStatement(tokenizer);
    var x := "tokenize='" + tokenizer + "'";
    var i := |CreatePrefix|;
    assert s == CreatePrefix + x + ")";
    assert s[i..][..|x|] == x;
  }

  /** The fixed order of the statements; COMMIT only outside dry-run mode. */
  function Plan(tokenizer: string, dryRun: bool): (p: seq<Step>)
    ensures |p| == (if dryRun then 10 else 11)
    ensures p[0] == BeginExclusive
    ensures p[1] == DropFts && p[2] == DropFtsConfig && p[3] == DropFtsContent
    ensures p[4] == DropFtsData && p[5] == DropFtsDocsize && p[6] == DropFtsIdx
    ensures p[7] == CreateTable(CreateStatement(tokenizer)) && p[8] == CreateFts && p[9] == InsertFts
    ensures !dryRun ==> p[10] == Commit
    ensures Commit in p <==> !dryRun
    ensures Rollback !in p
  {
    [BeginExclusive, DropFts, DropFtsConfig, DropFtsContent, DropFtsData, DropFtsDocsize, DropFtsIdx,
     CreateTable(CreateStatement(tokenizer)), CreateFts, InsertFts] + (if dryRun then [] else [Commit])
  }

  /** The index of the first statement the database rejects, `|p|` when none is. */
  function FirstFailing(p: seq<Step>, failing: set<Step>): (k: nat)
    ensures k <= |p|
    ensures forall i | 0 <= i < k :: p[i] !in failing
    ensures k < |p| ==> p[k] in failing
  {
    if p == [] then 0
    else if p[0] in failing then 0
    else
      var k := FirstFailing(p[1..], failing);
      assert forall i | 1 <= i < k + 1 :: p[i] == p[1..][i - 1];
      k + 1
  }

  /** A connection that rejects the statements in `failing`; `log` is what it received. */
  class Database {
    var log: seq<Step>
    const failing: set<Step>

    constructor (failing: set<Step>)
      ensures log == [] && this.failing == failing
    {
      log := [];
      this.failing := failing;
    }

    method Exec(st: Step) returns (ok: bool)
      modifies this`log
      ensures log == old(log) + [st]
      ensures ok <==> st !in failing
    {
      log := log + [st];
      ok := st !in failing;
    }
  }

  datatype FtsError =
    | CheckFailed(reason: CheckError)
    | BadTokenizer(tokenizerError: TokenizerError)
    | StepFailed(step: Step)

  /** What the database receives: the plan up to its first failure, then the deferred ROLLBACK when not committed. */
  function Received(p: seq<Step>, failing: set<Step>, dryRun: bool): seq<Step>
  {
    var k := FirstFailing(p, failing);
    if p == [] then []
    else if k == 0 then [p[0]]             // BEGIN failed: the deferred rollback is not yet registered
    else if k < |p| then p[..k + 1] + [Rollback]
    else if dryRun then p + [Rollback]
    else p
  }

  lemma FirstFailingAt(p: seq<Step>, failing: set<Step>, k: nat)
    requires k <= |p| && (forall i | 0 <= i < k :: p[i] !in failing) && (k < |p| ==> p[k] in failing)
    ensures FirstFailing(p, failing) == k
  {
  }

  lemma ReceivedOnFailure(p: seq<Step>, failing: set<Step>, dryRun: bool, k: nat)
    requires 0 < k < |p| && FirstFailing(p, failing) == k
    ensures Received(p, failing, dryRun) == p[..k + 1] + [Rollback]
  {
  }

  /** A statement after BEGIN EXCLUSIVE failed: the log is the plan up to it, left for the deferred ROLLBACK. */
  lemma FailedRun(p: seq<Step>, failing: set<Step>, dryRun: bool, log0: seq<Step>, log: seq<Step>, failed: Option<Step>)
    requires 10 <= |p|
    requires exists k | 0 < k < 10 :: FirstFailing(p, failing) == k && failed == Some(p[k]) && log == log0 + p[..k + 1]
    ensures FirstFailing(p, failing) < |p| && failed == Some(p[FirstFailing(p, failing)])
    ensures log + [Rollback] == log0 + Received(p, failing, dryRun)
  {
    var k :| 0 < k < 10 && FirstFailing(p, failing) == k && failed == Some(p[k]) && log == log0 + p[..k + 1];
    ReceivedOnFailure(p, failing, dryRun, k);
  }

  /** The deferred function: ROLLBACK unless committed; its failure is only reported. */
  method Deferred(db: Database, committed: bool)
    modifies db`log
    ensures db.log == old(db.log) + (if committed then [] else [Rollback])
  {
    if !committed {
      var _ := db.Exec(Rollback);
    }
  }

  /**
   * `ftsRebuild`. The persist dir and the tokenizer are checked before the
   * database is touched; each statement failing returns at once.
   */
  method FtsRebuild(fs: PersistDir, db: Database, dryRun: bool, tokenizer: string) returns (err: Option<FtsError>)
    modifies db`log
    ensures CheckPersistDir(fs.path, fs.root, fs.entries).Some? ==>
      err == Some(CheckFailed(CheckPersistDir(fs.path, fs.root, fs.entries).value)) && db.log == old(db.log)
    ensures CheckPersistDir(fs.path, fs.root, fs.entries).None? && ValidateTokenizer(tokenizer).Err? ==>
      err == Some(BadTokenizer(ValidateTokenizer(tokenizer).error)) && db.log == old(db.log)
    ensures CheckPersistDir(fs.path, fs.root, fs.entries).None? && ValidateTokenizer(tokenizer).Ok? ==>
      var p := Plan(tokenizer, dryRun);
      var k := FirstFailing(p, db.failing);
      && db.log == old(db.log) + Received(p, db.failing, dryRun)
      && (k < |p| ==> err == Some(StepFailed(p[k])))
      && (k == |p| ==> err == None)
  {
    var invalid := CheckPersistDir(fs.path, fs.root, fs.entries);
    if invalid.Some? {
      return Some(CheckFailed(invalid.value));
    }
    var tok := ValidateTokenizer(tokenizer);
    if tok.Err? {
      return Some(BadTokenizer(tok.error));
    }
    err := Rebuild(db, tok.value, dryRun);
  }

  /** Sends `p[j]`, the next statement of the plan, and tells whether it is the first to fail. */
  method Send(db: Database, st: Step, ghost p: seq<Step>, ghost j: nat, ghost log0: seq<Step>) returns (ok: bool)
    requires j < |p| && p[j] == st && db.log == log0 + p[..j] && forall i | 0 <= i < j :: p[i] !in db.failing
    modifies db`log
    ensures db.log == log0 + p[..j + 1]
    ensures ok ==> forall i | 0 <= i <= j :: p[i] !in db.failing
    ensures !ok ==> FirstFailing(p, db.failing) == j
  {
    ok := db.Exec(st);
    assert p[..j + 1] == p[..j] + [st];
    if !ok {
      FirstFailingAt(p, db.failing, j);
    }
  }

  /** Statements `p[from..to]` of the plan: all sent, or sent up to and including the first that fails. */
  ghost predicate Sent(db: Database, p: seq<Step>, log0: seq<Step>, from: nat, to: nat, failed: Option<Step>)
    requires from <= to <= |p|
    reads db
  {
    && (failed.None? ==> db.log == log0 + p[..to] && forall i | 0 <= i < to :: p[i] !in db.failing)
    && (failed.Some? ==> exists k | from <= k < to :: FirstFailing(p, db.failing) == k && failed == Some(p[k]) && db.log == log0 + p[..k + 1])
  }

  /** The six `queries.DropFTS*` calls. */
  method DropTables(db: Database, ghost p: seq<Step>, ghost log0: seq<Step>, ghost tokenizer: string, ghost dryRun: bool)
    returns (failed: Option<Step>)
    requires p == Plan(tokenizer, dryRun)
    requires db.log == log0 + p[..1] && p[0] !in db.failing
    modifies db`log
    ensures Sent(db, p, log0, 1, 7, failed)
  {
    var ok;
    ok := Send(db, DropFts, p, 1, log0);
    if !ok {
      return Some(DropFts);
    }
    ok := Send(db, DropFtsConfig, p, 2, log0);
    if !ok {
      return Some(DropFtsConfig);
    }
    ok := Send(db, DropFtsContent, p, 3, log0);
    if !ok {
      return Some(DropFtsContent);
    }
    ok := Send(db, DropFtsData, p, 4, log0);
    if !ok {
      return Some(DropFtsData);
    }
    ok := Send(db, DropFtsDocsize, p, 5, log0);
    if !ok {
      return Some(DropFtsDocsize);
    }
    ok := Send(db, DropFtsIdx, p, 6, log0);
    if !ok {
      return Some(DropFtsIdx);
    }
    return None;
  }

  /** The CREATE VIRTUAL TABLE statement, `queries.CreateFTS` and `queries.InsertFTS`. */
  method CreateTables(db: Database, tokenizer: string, ghost p: seq<Step>, ghost log0: seq<Step>, ghost dryRun: bool)
    returns (failed: Option<Step>)
    requires p == Plan(tokenizer, dryRun)
    requires db.log == log0 + p[..7] && forall i | 0 <= i < 7 :: p[i] !in db.failing
    modifies db`log
    ensures Sent(db, p, log0, 7, 10, failed)
  {
    var ok;
    ok := Send(db, CreateTable(CreateStatement(tokenizer)), p, 7, log0);
    if !ok {
      return Some(CreateTable(CreateStatement(tokenizer)));
    }
    ok := Send(db, CreateFts, p, 8, log0);
    if !ok {
      return Some(CreateFts);
    }
    ok := Send(db, InsertFts, p, 9, log0);
    if !ok {
      return Some(InsertFts);
    }
    return None;
  }

  /** The transaction of `ftsRebuild`, from BEGIN EXCLUSIVE to the deferred ROLLBACK. */
  method Rebuild(db: Database, tokenizer: string, dryRun: bool) returns (err: Option<FtsError>)
    modifies db`log
    ensures var p := Plan(tokenizer, dryRun);
      var k := FirstFailing(p, db.failing);
      && db.log == old(db.log) + Received(p, db.failing, dryRun)
      && (k < |p| ==> err == Some(StepFailed(p[k])))
      && (k == |p| ==> err == None)
  {
    ghost var p := Plan(tokenizer, dryRun);
    ghost var log0 := db.log;
    var ok := Send(db, BeginExclusive, p, 0, log0);
    if !ok {
      return Some(StepFailed(BeginExclusive));
    }
    var committed := false;
    var failed := DropTables(db, p, log0, tokenizer, dryRun);
    if failed.None? {
      failed := CreateTables(db, tokenizer, p, log0, dryRun);
    }
    if failed.Some? {
      FailedRun(p, db.failing, dryRun, log0, db.log, failed);
      Deferred(db, committed);
      return Some(StepFailed(failed.value));
    }
    if !dryRun {
      ok := Send(db, Commit, p, 10, log0);
      if !ok {
        ReceivedOnFailure(p, db.failing, dryRun, 10);
        Deferred(db, committed);
        return Some(StepFailed(Commit));
      }
      committed := true;
    }
    assert p[..|p|] == p;
    FirstFailingAt(p, db.failing, |p|);
    Deferred(db, committed);
    return None;
  }

  // ------------------------------------------------------------ properties

  /** In dry-run mode COMMIT is never sent, whichever statements fail. */
  lemma DryRunNeverCommits(tokenizer: string, failing: set<Step>)
    ensures Commit !in Received(Plan(tokenizer, true), failing, true)
  {
    var p := Plan(tokenizer, true);
    var k := FirstFailing(p, failing);
    if 0 < k < |p| {
      var q := p[..k + 1];
      forall i | 0 <= i < |q| ensures q[i] != Commit {
        assert q[i] == p[i];
      }
    }
  }

  /**
   * Once BEGIN EXCLUSIVE succeeded, the run ends with exactly one ROLLBACK
   * unless it committed; a committed run sends no ROLLBACK.
   */
  lemma RollbackUnlessCommitted(tokenizer: string, dryRun: bool, failing: set<Step>)
    ensures var p := Plan(tokenizer, dryRun);
      var k := FirstFailing(p, failing);
      var r := Received(p, failing, dryRun);
      && (k == |p| && !dryRun ==> r[|r| - 1] == Commit && Rollback !in r)
      && (0 < k && !(k == |p| && !dryRun) ==> r[|r| - 1] == Rollback && Rollback !in r[..|r| - 1])
      && (k == 0 ==> r == [BeginExclusive])
  {
    var p := Plan(tokenizer, dryRun);
    var k := FirstFailing(p, failing);
    var r := Received(p, failing, dryRun);
    if 0 < k < |p| {
      assert r[..|r| - 1] == p[..k + 1];
      var q := p[..k + 1];
      forall i | 0 <= i < |q| ensures q[i] != Rollback {
        assert q[i] == p[i];
      }
    } else if k == |p| && dryRun {
      assert r[..|r| - 1] == p;
    }
  }
}
