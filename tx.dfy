/**
 * internal/db/tx.go `MyTx` (lines 10-57): a wrapper over a connection whose
 * `done` flag, set by `Commit` and `Rollback`, makes every later `Exec`
 * fail with `ErrTxDone` instead of reaching the database.
 */
module Tx {
  import opened Wrappers

  /** A statement that reached the database. */
  datatype Sent = Query(sql: string) | BeginStmt | BeginExclusiveStmt | CommitStmt | RollbackStmt

  datatype TxError = ErrTxDone | DbError

  /** The transaction as values: the flag and what the connection received. */
  datatype TxState = TxState(done: bool, sent: seq<Sent>)

  datatype Op = Begin | BeginExclusive | Exec(sql: string) | Commit | Rollback

  /** The database's answer for a statement: whether it fails. */
  type Failing = set<Sent>

  /** One method call of `MyTx`. */
  function Step(s: TxState, op: Op): (r: TxState)
    ensures r.done == (s.done || op == Commit || op == Rollback)
    ensures op.Exec? && s.done ==> r.sent == s.sent
    ensures op.Exec? && !s.done ==> r.sent == s.sent + [Query(op.sql)]
    ensures !op.Exec? ==> |r.sent| == |s.sent| + 1 && r.sent[..|s.sent|] == s.sent && !r.sent[|s.sent|].Query?
  {
    match op
    case Begin => TxState(s.done, s.sent + [BeginStmt])
    case BeginExclusive => TxState(s.done, s.sent + [BeginExclusiveStmt])
    case Exec(q) => if s.done then s else TxState(s.done, s.sent + [Query(q)])
    case Commit => TxState(true, s.sent + [CommitStmt])
    case Rollback => TxState(true, s.sent + [RollbackStmt])
  }

  function Run(s: TxState, ops: seq<Op>): TxState
    decreases |ops|
  {
    if ops == [] then s else Run(Step(s, ops[0]), ops[1..])
  }

  /** Once finished, a transaction stays finished, whatever is called after. */
  lemma {:induction false} DoneIsFinal(s: TxState, ops: seq<Op>)
    requires s.done
    ensures Run(s, ops).done
    decreases |ops|
  {
    if ops != [] {
      DoneIsFinal(Step(s, ops[0]), ops[1..]);
    }
  }

  /** After `Commit` or `Rollback` no query reaches the database: only control statements are still sent. */
  lemma {:induction false} NoQueryAfterDone(s: TxState, ops: seq<Op>)
    requires s.done
    ensures |s.sent| <= |Run(s, ops).sent| && Run(s, ops).sent[..|s.sent|] == s.sent
    ensures forall i | |s.sent| <= i < |Run(s, ops).sent| :: !Run(s, ops).sent[i].Query?
    decreases |ops|
  {
    if ops != [] {
      var next := Step(s, ops[0]);
      NoQueryAfterDone(next, ops[1..]);
    }
  }

  /** A run that ends unfinished contained neither `Commit` nor `Rollback`. */
  lemma {:induction false} OpenMeansNeverEnded(s: TxState, ops: seq<Op>)
    requires !Run(s, ops).done
    ensures !s.done && forall i | 0 <= i < |ops| :: ops[i] != Commit && ops[i] != Rollback
    decreases |ops|
  {
    if s.done {
      DoneIsFinal(s, ops);
    } else if ops != [] {
      OpenMeansNeverEnded(Step(s, ops[0]), ops[1..]);
    }
  }

  /** `MyTx` over a connection that rejects the statements in `failing`. */
  class MyTx {
    var done: bool
    var sent: seq<Sent>
    const failing: Failing

    function State(): TxState
      reads this
    {
      TxState(done, sent)
    }

    /** `NewTx`: not done, nothing sent. */
    constructor (failing: Failing)
      ensures State() == TxState(false, []) && this.failing == failing
    {
      done := false;
      sent := [];
      this.failing := failing;
    }

    method Begin() returns (err: Option<TxError>)
      modifies this`sent
      ensures State() == Step(old(State()), Op.Begin)
      ensures err.None? <==> BeginStmt !in failing
    {
      sent := sent + [BeginStmt];
      err := if BeginStmt in failing then Some(DbError) else None;
    }

    method BeginExclusive() returns (err: Option<TxError>)
      modifies this`sent
      ensures State() == Step(old(State()), Op.BeginExclusive)
      ensures err.None? <==> BeginExclusiveStmt !in failing
    {
      sent := sent + [BeginExclusiveStmt];
      err := if BeginExclusiveStmt in failing then Some(DbError) else None;
    }

    method Exec(query: string) returns (err: Option<TxError>)
      modifies this`sent
      ensures State() == Step(old(State()), Op.Exec(query))
      ensures old(done) ==> err == Some(ErrTxDone)
      ensures !old(done) ==> (err.None? <==> Query(query) !in failing) && (err.Some? ==> err == Some(DbError))
    {
      if done {
        return Some(ErrTxDone);
      }
      sent := sent + [Query(query)];
      err := if Query(query) in failing then Some(DbError) else None;
    }

    /** The flag is set whether or not COMMIT succeeded. */
    method Commit() returns (err: Option<TxError>)
      modifies this`sent, this`done
      ensures State() == Step(old(State()), Op.Commit)
      ensures err.None? <==> CommitStmt !in failing
    {
      sent := sent + [CommitStmt];
      done := true;
      err := if CommitStmt in failing then Some(DbError) else None;
    }

    /** The flag is set whether or not ROLLBACK succeeded. */
    method Rollback() returns (err: Option<TxError>)
      modifies this`sent, this`done
      ensures State() == Step(old(State()), Op.Rollback)
      ensures err.None? <==> RollbackStmt !in failing
    {
      sent := sent + [RollbackStmt];
      done := true;
      err := if RollbackStmt in failing then Some(DbError) else None;
    }
  }
}
