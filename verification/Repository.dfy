/**
 The SQLite database behind the master, with one open transaction at a time, and the repository that
 runs its batches. Which statements, scans or commits fail is an input, so that every failing
 position is covered.
 */
module Repository {
  import opened Common
  import opened Registry

  datatype SqlError = ExecFailed(at: nat) | CommitFailed | QueryFailed | ScanFailed(at: nat)

  /** The statements of a batch that fail, by position, and whether the commit fails. */
  datatype WriteFaults = WriteFaults(statements: set<nat>, commit: bool)

  /** Whether the query fails, and the result rows whose scan fails. */
  datatype ReadFaults = ReadFaults(query: bool, scans: set<nat>)

  /** The first failing position below n. */
  function FirstFault(n: nat, faults: set<nat>): Option<nat> {
    if n == 0 then None
    else
      var r := FirstFault(n - 1, faults);
      if r.Some? then r else if n - 1 in faults then Some(n - 1) else None
  }

  lemma {:induction false} FirstFaultIsLeast(n: nat, faults: set<nat>)
    ensures match FirstFault(n, faults) {
      case Some(k) => k < n && k in faults && forall j :: 0 <= j < k ==> j !in faults
      case None => forall k :: 0 <= k < n ==> k !in faults
    }
  {
    if n == 0 {
    } else {
      FirstFaultIsLeast(n - 1, faults);
    }
  }

  function WriteError(n: nat, faults: WriteFaults): Option<SqlError> {
    match FirstFault(n, faults.statements)
    case Some(k) => Some(ExecFailed(k))
    case None => if faults.commit then Some(CommitFailed) else None
  }

  function ReadError(n: nat, faults: ReadFaults): Option<SqlError> {
    if faults.query then Some(QueryFailed)
    else
      match FirstFault(n, faults.scans)
      case Some(k) => Some(ScanFailed(k))
      case None => None
  }

  /** A batch of n statements fails with its first failing statement, or else with its commit. */
  lemma WriteErrorIff(n: nat, faults: WriteFaults)
    ensures WriteError(n, faults).None? <==>
      !faults.commit && forall k :: 0 <= k < n ==> k !in faults.statements
    ensures forall k: nat :: WriteError(n, faults) == Some(ExecFailed(k)) <==>
      k < n && k in faults.statements && forall j :: 0 <= j < k ==> j !in faults.statements
    ensures WriteError(n, faults) == Some(CommitFailed) <==>
      faults.commit && forall k :: 0 <= k < n ==> k !in faults.statements
  {
    FirstFaultIsLeast(n, faults.statements);
  }

  /** A query with n rows fails itself, or else with the first row whose scan fails. */
  lemma ReadErrorIff(n: nat, faults: ReadFaults)
    ensures ReadError(n, faults).None? <==>
      !faults.query && forall k :: 0 <= k < n ==> k !in faults.scans
    ensures forall k: nat :: ReadError(n, faults) == Some(ScanFailed(k)) <==>
      !faults.query && k < n && k in faults.scans && forall j :: 0 <= j < k ==> j !in faults.scans
    ensures ReadError(n, faults) == Some(QueryFailed) <==> faults.query
  {
    FirstFaultIsLeast(n, faults.scans);
  }

  /** Statements act on the rows in place; the journal keeps what a rollback restores. */
  class Database {
    var rows: Table
    var journal: Table
    var inTransaction: bool

    ghost predicate Valid()
      reads this
    {
      && KeyOrdered(rows)
      && (inTransaction ==> KeyOrdered(journal))
    }

    ghost predicate Idle()
      reads this
    {
      Valid() && !inTransaction
    }

    constructor (rows: Table)
      requires KeyOrdered(rows)
      ensures Idle() && this.rows == rows
    {
      this.rows := rows;
      this.journal := [];
      this.inTransaction := false;
    }

    method Begin()
      requires Idle()
      modifies this
      ensures Valid() && inTransaction && rows == old(rows) && journal == old(rows)
    {
      journal := rows;
      inTransaction := true;
    }

    method ExecInsert(h: ServiceHandler, at: nat, fails: bool) returns (err: Option<SqlError>)
      requires Valid() && inTransaction
      modifies this`rows
      ensures Valid()
      ensures err == if fails then Some(ExecFailed(at)) else None
      ensures rows == if fails then old(rows) else InsertOne(old(rows), h)
    {
      if fails {
        return Some(ExecFailed(at));
      }
      rows := InsertOne(rows, h);
      err := None;
    }

    method ExecUpdate(h: ServiceHandler, at: nat, fails: bool) returns (err: Option<SqlError>)
      requires Valid() && inTransaction
      modifies this`rows
      ensures Valid()
      ensures err == if fails then Some(ExecFailed(at)) else None
      ensures rows == if fails then old(rows) else UpdateOne(old(rows), h)
    {
      if fails {
        return Some(ExecFailed(at));
      }
      rows := UpdateOne(rows, h);
      err := None;
    }

    /** A failed commit leaves the transaction open, for the caller to roll back. */
    method Commit(fails: bool) returns (err: Option<SqlError>)
      requires Valid() && inTransaction
      modifies this`inTransaction
      ensures Valid()
      ensures err == if fails then Some(CommitFailed) else None
      ensures inTransaction == fails
    {
      inTransaction := fails;
      err := if fails then Some(CommitFailed) else None;
    }

    method Rollback()
      requires Valid() && inTransaction
      modifies this`rows, this`inTransaction
      ensures Idle() && rows == old(journal)
    {
      rows := journal;
      inTransaction := false;
    }

    /** The DISTINCT query: the urls come back in any order. */
    method QueryDistinct(handler: string) returns (cursor: seq<string>)
      ensures IsDistinctAnswer(cursor, rows, handler)
    {
      cursor := [];
      var remaining := AliveUrls(rows, handler);
      while remaining != {}
        invariant NoDuplicates(cursor)
        invariant forall u :: u in AliveUrls(rows, handler) <==> u in cursor || u in remaining
        invariant forall u :: u in cursor ==> u !in remaining
        decreases remaining
      {
        var u :| u in remaining;
        cursor := cursor + [u];
        remaining := remaining - {u};
      }
    }
  }

  class ServiceHandlerRepository {
    const db: Database

    constructor (db: Database)
      ensures this.db == db
    {
      this.db := db;
    }

    /** All of the batch, with fresh keys and in order, or nothing. */
    method Insert(batch: seq<ServiceHandler>, faults: WriteFaults) returns (err: Option<SqlError>)
      requires db.Idle()
      modifies db
      ensures db.Idle()
      ensures err == WriteError(|batch|, faults)
      ensures faults.commit || (exists k :: 0 <= k < |batch| && k in faults.statements) <==> err.Some?
      ensures forall k: nat :: err == Some(ExecFailed(k)) <==>
        k < |batch| && k in faults.statements && forall j :: 0 <= j < k ==> j !in faults.statements
      ensures db.rows == if err.None? then InsertAll(old(db.rows), batch) else old(db.rows)
    {
      db.Begin();
      var k := 0;
      while k < |batch|
        invariant 0 <= k <= |batch|
        invariant db.Valid() && db.inTransaction && db.journal == old(db.rows)
        invariant db.rows == InsertAll(old(db.rows), batch[..k])
        invariant FirstFault(k, faults.statements).None?
      {
        assert batch[..k + 1][..k] == batch[..k];
        err := db.ExecInsert(batch[k], k, k in faults.statements);
        if err.Some? {
          db.Rollback();
          FirstFaultIs(|batch|, k, faults.statements);
          WriteErrorIff(|batch|, faults);
          return;
        }
        k := k + 1;
      }
      assert batch[..k] == batch;
      err := db.Commit(faults.commit);
      if err.Some? {
        db.Rollback();
      }
      WriteErrorIff(|batch|, faults);
    }

    /** Every entity of the batch written over the row with its key, in order, or nothing. */
    method Update(batch: seq<ServiceHandler>, faults: WriteFaults) returns (err: Option<SqlError>)
      requires db.Idle()
      modifies db
      ensures db.Idle()
      ensures err == WriteError(|batch|, faults)
      ensures faults.commit || (exists k :: 0 <= k < |batch| && k in faults.statements) <==> err.Some?
      ensures forall k: nat :: err == Some(ExecFailed(k)) <==>
        k < |batch| && k in faults.statements && forall j :: 0 <= j < k ==> j !in faults.statements
      ensures db.rows == if err.None? then UpdateAll(old(db.rows), batch) else old(db.rows)
    {
      db.Begin();
      var k := 0;
      while k < |batch|
        invariant 0 <= k <= |batch|
        invariant db.Valid() && db.inTransaction && db.journal == old(db.rows)
        invariant db.rows == UpdateAll(old(db.rows), batch[..k])
        invariant FirstFault(k, faults.statements).None?
      {
        assert batch[..k + 1][..k] == batch[..k];
        err := db.ExecUpdate(batch[k], k, k in faults.statements);
        if err.Some? {
          db.Rollback();
          FirstFaultIs(|batch|, k, faults.statements);
          WriteErrorIff(|batch|, faults);
          return;
        }
        k := k + 1;
      }
      assert batch[..k] == batch;
      err := db.Commit(faults.commit);
      if err.Some? {
        db.Rollback();
      }
      WriteErrorIff(|batch|, faults);
    }

    method GetByServiceId(serviceId: string, faults: ReadFaults)
      returns (r: Result<seq<ServiceHandler>, SqlError>)
      ensures match ReadError(|ByInstance(db.rows, serviceId)|, faults) {
        case Some(e) => r == Err(e)
        case None => r == Ok(ByInstance(db.rows, serviceId))
      }
      ensures r.Ok? <==>
        !faults.query && forall k :: 0 <= k < |ByInstance(db.rows, serviceId)| ==> k !in faults.scans
    {
      ReadErrorIff(|ByInstance(db.rows, serviceId)|, faults);
      if faults.query {
        return Err(QueryFailed);
      }
      var results := ByInstance(db.rows, serviceId);
      var serviceHandlers: seq<ServiceHandler> := [];
      var k := 0;
      while k < |results|
        invariant 0 <= k <= |results|
        invariant serviceHandlers == results[..k]
        invariant FirstFault(k, faults.scans).None?
      {
        if k in faults.scans {
          FirstFaultIs(|results|, k, faults.scans);
          return Err(ScanFailed(k));
        }
        serviceHandlers := serviceHandlers + [results[k]];
        k := k + 1;
      }
      assert serviceHandlers == results;
      r := Ok(serviceHandlers);
    }

    method GetAliveServices(handler: string, faults: ReadFaults)
      returns (r: Result<seq<string>, SqlError>)
      ensures match ReadError(|AliveUrls(db.rows, handler)|, faults) {
        case Some(e) => r == Err(e)
        case None => r.Ok? && IsDistinctAnswer(r.value, db.rows, handler)
      }
      ensures r.Ok? <==>
        !faults.query && forall k :: 0 <= k < |AliveUrls(db.rows, handler)| ==> k !in faults.scans
    {
      ReadErrorIff(|AliveUrls(db.rows, handler)|, faults);
      if faults.query {
        return Err(QueryFailed);
      }
      var results := db.QueryDistinct(handler);
      DistinctLength(results, AliveUrls(db.rows, handler));
      var services: seq<string> := [];
      var k := 0;
      while k < |results|
        invariant 0 <= k <= |results|
        invariant services == results[..k]
        invariant FirstFault(k, faults.scans).None?
      {
        if k in faults.scans {
          FirstFaultIs(|results|, k, faults.scans);
          return Err(ScanFailed(k));
        }
        services := services + [results[k]];
        k := k + 1;
      }
      assert services == results;
      r := Ok(services);
    }
  }

  lemma {:induction false} FirstFaultIs(n: nat, k: nat, faults: set<nat>)
    requires k < n && k in faults && FirstFault(k, faults).None?
    ensures FirstFault(n, faults) == Some(k)
  {
    if k < n - 1 {
      FirstFaultIs(n - 1, k, faults);
    }
  }

  lemma {:induction false} DistinctLength(s: seq<string>, urls: set<string>)
    requires NoDuplicates(s) && forall u :: u in s <==> u in urls
    ensures |s| == |urls|
  {
    if s == [] {
      assert urls == {};
    } else {
      var n := |s| - 1;
      assert s == s[..n] + [s[n]];
      DistinctLength(s[..n], urls - {s[n]});
    }
  }
}
