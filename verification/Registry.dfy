/**
 The ServiceHandler table of the discovery master and the meaning of the SQL statements run on it.
 A table is listed in primary-key order, so the key SQLite generates (largest key plus one) is the
 last row's key plus one.
 */
module Registry {
  import opened Common

  /** One row, and also the entity that the use cases pass to the repository. */
  datatype ServiceHandler =
    ServiceHandler(methodId: int, service: string, instance: string, handler: string, isAlive: bool)
  {
    function MarkAsNotAlive(): ServiceHandler {
      this.(isAlive := false)
    }
  }

  type Table = seq<ServiceHandler>

  function NewServiceHandler(service: string, instance: string, handler: string): ServiceHandler {
    ServiceHandler(0, service, instance, handler, true)
  }

  ghost predicate KeyOrdered(t: Table) {
    forall i, j :: 0 <= i < j < |t| ==> t[i].methodId < t[j].methodId
  }

  function NextId(t: Table): int {
    if t == [] then 1 else t[|t| - 1].methodId + 1
  }

  /** INSERT binds the constant 1 to IsAlive and lets the database generate the key. */
  function InsertOne(t: Table, h: ServiceHandler): Table {
    t + [ServiceHandler(NextId(t), h.service, h.instance, h.handler, true)]
  }

  function InsertAll(t: Table, batch: seq<ServiceHandler>): Table {
    if batch == [] then t else InsertOne(InsertAll(t, batch[..|batch| - 1]), batch[|batch| - 1])
  }

  /** UPDATE writes every column of the rows with the given key. */
  function UpdateOne(t: Table, h: ServiceHandler): Table {
    seq(|t|, i requires 0 <= i < |t| => if t[i].methodId == h.methodId then h else t[i])
  }

  function UpdateAll(t: Table, batch: seq<ServiceHandler>): Table {
    if batch == [] then t else UpdateOne(UpdateAll(t, batch[..|batch| - 1]), batch[|batch| - 1])
  }

  /** SELECT ... WHERE InstanceId = ? */
  function ByInstance(t: Table, instance: string): Table {
    if t == [] then []
    else
      ByInstance(t[..|t| - 1], instance) + (if t[|t| - 1].instance == instance then [t[|t| - 1]] else [])
  }

  /** The urls that SELECT DISTINCT Service ... WHERE Handler = ? AND IsAlive = 1 may return. */
  function AliveUrls(t: Table, handler: string): set<string> {
    set r | r in t && r.handler == handler && r.isAlive :: r.service
  }

  /** An answer to that query: each url once, in an order the query leaves open. */
  ghost predicate IsDistinctAnswer(answer: seq<string>, t: Table, handler: string) {
    && NoDuplicates(answer)
    && forall u :: u in answer <==> u in AliveUrls(t, handler)
  }

  function MarkAll(rows: Table): Table {
    seq(|rows|, i requires 0 <= i < |rows| => rows[i].MarkAsNotAlive())
  }

  function MarkIds(t: Table, ids: set<int>): Table {
    seq(|t|, i requires 0 <= i < |t| => if t[i].methodId in ids then t[i].MarkAsNotAlive() else t[i])
  }

  /** What an atomic "mark every row of this instance dead" would do. */
  function MarkInstance(t: Table, instance: string): Table {
    seq(|t|, i requires 0 <= i < |t| => if t[i].instance == instance then t[i].MarkAsNotAlive() else t[i])
  }

  function Ids(rows: seq<ServiceHandler>): set<int> {
    set r | r in rows :: r.methodId
  }

  /** The entities that the register use case builds from one request. */
  function Batch(url: string, instance: string, handlers: seq<string>): seq<ServiceHandler> {
    seq(|handlers|, i requires 0 <= i < |handlers| => NewServiceHandler(url, instance, handlers[i]))
  }

  /******* Inserts *******/

  lemma {:induction false} InsertAllAppends(t: Table, batch: seq<ServiceHandler>)
    requires KeyOrdered(t)
    ensures KeyOrdered(InsertAll(t, batch))
    ensures |InsertAll(t, batch)| == |t| + |batch|
    ensures InsertAll(t, batch)[..|t|] == t
    ensures forall k :: 0 <= k < |batch| ==>
      InsertAll(t, batch)[|t| + k] ==
        ServiceHandler(NextId(t) + k, batch[k].service, batch[k].instance, batch[k].handler, true)
  {
    if batch == [] {
    } else {
      var n := |batch| - 1;
      InsertAllAppends(t, batch[..n]);
      var p, r := InsertAll(t, batch[..n]), InsertAll(t, batch);
      assert r == InsertOne(p, batch[n]);
      assert r[..|p|] == p;
      assert r[..|t|] == p[..|t|];
      assert NextId(p) == NextId(t) + n;
      forall k | 0 <= k < |batch|
        ensures r[|t| + k] ==
          ServiceHandler(NextId(t) + k, batch[k].service, batch[k].instance, batch[k].handler, true)
      {
        if k < n {
          assert r[|t| + k] == p[|t| + k];
          assert batch[..n][k] == batch[k];
        }
      }
    }
  }

  /** Inserting a register batch: the old rows stay, and each new row is one of the services. */
  lemma RegisteredRows(t: Table, url: string, id: string, services: seq<string>)
    requires KeyOrdered(t)
    ensures var t' := InsertAll(t, Batch(url, id, services));
      && |t'| == |t| + |services|
      && (forall i :: 0 <= i < |t| ==> t'[i] == t[i])
      && (forall i :: |t| <= i < |t'| ==>
            t'[i].instance == id && t'[i].service == url && t'[i].isAlive && t'[i].handler == services[i - |t|])
  {
    var batch := Batch(url, id, services);
    var t' := InsertAll(t, batch);
    InsertAllAppends(t, batch);
    assert forall i :: 0 <= i < |t| ==> t'[i] == t'[..|t|][i];
    forall i | |t| <= i < |t'|
      ensures t'[i].instance == id && t'[i].service == url && t'[i].isAlive && t'[i].handler == services[i - |t|]
    {
      assert t'[|t| + (i - |t|)].handler == batch[i - |t|].handler;
    }
  }

  /******* Updates *******/

  /** The last entity of a batch that carries the given key. */
  function LastWrite(batch: seq<ServiceHandler>, id: int): (h: Option<ServiceHandler>)
    ensures h.Some? ==> h.value in batch && h.value.methodId == id
    ensures h.None? ==> forall k :: 0 <= k < |batch| ==> batch[k].methodId != id
  {
    if batch == [] then None
    else if batch[|batch| - 1].methodId == id then Some(batch[|batch| - 1])
    else
      var h := LastWrite(batch[..|batch| - 1], id);
      assert forall k :: 0 <= k < |batch| - 1 ==> batch[..|batch| - 1][k] == batch[k];
      h
  }

  lemma {:induction false} UpdateAllAt(t: Table, batch: seq<ServiceHandler>, i: nat)
    requires i < |t|
    ensures |UpdateAll(t, batch)| == |t|
    ensures UpdateAll(t, batch)[i] ==
      match LastWrite(batch, t[i].methodId) { case None => t[i] case Some(h) => h }
  {
    if batch == [] {
    } else {
      UpdateAllAt(t, batch[..|batch| - 1], i);
    }
  }

  /** Of several entities with the same key the last one of the batch stands. */
  lemma {:induction false} UpdateAllTakesLast(t: Table, batch: seq<ServiceHandler>, i: nat, k: nat)
    requires i < |t| && k < |batch| && batch[k].methodId == t[i].methodId
    requires forall j :: k < j < |batch| ==> batch[j].methodId != t[i].methodId
    ensures |UpdateAll(t, batch)| == |t| && UpdateAll(t, batch)[i] == batch[k]
  {
    var n := |batch| - 1;
    UpdateAllAt(t, batch[..n], i);
    if k < n {
      UpdateAllTakesLast(t, batch[..n], i, k);
    }
  }

  lemma {:induction false} UpdateAllLength(t: Table, batch: seq<ServiceHandler>)
    ensures |UpdateAll(t, batch)| == |t|
  {
    if batch == [] {
    } else {
      UpdateAllLength(t, batch[..|batch| - 1]);
    }
  }

  /** An update writes exactly the rows whose key occurs in the batch and never moves a key. */
  lemma {:induction false} UpdateAllTouchesOnlyBatch(t: Table, batch: seq<ServiceHandler>)
    requires KeyOrdered(t)
    ensures KeyOrdered(UpdateAll(t, batch)) && |UpdateAll(t, batch)| == |t|
    ensures forall i :: 0 <= i < |t| ==> UpdateAll(t, batch)[i].methodId == t[i].methodId
    ensures forall i :: 0 <= i < |t| && t[i].methodId !in Ids(batch) ==> UpdateAll(t, batch)[i] == t[i]
    ensures forall i :: 0 <= i < |t| && t[i].methodId in Ids(batch) ==> UpdateAll(t, batch)[i] in batch
  {
    UpdateAllLength(t, batch);
    forall i | 0 <= i < |t|
      ensures UpdateAll(t, batch)[i].methodId == t[i].methodId
      ensures t[i].methodId !in Ids(batch) ==> UpdateAll(t, batch)[i] == t[i]
      ensures t[i].methodId in Ids(batch) ==> UpdateAll(t, batch)[i] in batch
    {
      UpdateAllAt(t, batch, i);
    }
  }

  /** w is a marked copy of some row of t. */
  ghost predicate Copies(t: Table, w: ServiceHandler) {
    exists i :: 0 <= i < |t| && t[i].MarkAsNotAlive() == w
  }

  /**
   Writing back every column of marked copies changes nothing but IsAlive, and only in the rows that
   were copied.
   */
  lemma {:induction false} WriteBackMarks(t: Table, writes: seq<ServiceHandler>)
    requires KeyOrdered(t)
    requires forall w :: w in writes ==> Copies(t, w)
    ensures UpdateAll(t, writes) == MarkIds(t, Ids(writes))
  {
    UpdateAllLength(t, writes);
    forall i | 0 <= i < |t|
      ensures UpdateAll(t, writes)[i] == MarkIds(t, Ids(writes))[i]
    {
      UpdateAllAt(t, writes, i);
      var h := LastWrite(writes, t[i].methodId);
      if h.Some? {
        assert h.value.methodId in Ids(writes);
        var j :| 0 <= j < |t| && t[j].MarkAsNotAlive() == h.value;
        assert i == j;
      } else {
        assert t[i].methodId !in Ids(writes);
      }
    }
  }

  /******* Queries *******/

  lemma {:induction false} ByInstanceSelects(t: Table, instance: string)
    ensures forall r :: r in ByInstance(t, instance) <==> r in t && r.instance == instance
  {
    if t == [] {
    } else {
      var n := |t| - 1;
      ByInstanceSelects(t[..n], instance);
      assert t == t[..n] + [t[n]];
    }
  }

  /** They come in key order, so each of them comes once. */
  lemma {:induction false} ByInstanceKeepsOrder(t: Table, instance: string)
    requires KeyOrdered(t)
    ensures KeyOrdered(ByInstance(t, instance))
  {
    if t == [] {
    } else {
      var n := |t| - 1;
      ByInstanceKeepsOrder(t[..n], instance);
      ByInstanceSelects(t[..n], instance);
      forall r | r in ByInstance(t[..n], instance)
        ensures r.methodId < t[n].methodId
      {
        var i :| 0 <= i < n && t[..n][i] == r;
      }
    }
  }

  /** The marked copies of an instance's rows, written back at once, are an atomic unregister. */
  lemma WriteBackOfSnapshot(t: Table, instance: string)
    requires KeyOrdered(t)
    ensures UpdateAll(t, MarkAll(ByInstance(t, instance))) == MarkInstance(t, instance)
  {
    var rows := ByInstance(t, instance);
    var writes := MarkAll(rows);
    ByInstanceSelects(t, instance);
    SnapshotCopies(t, instance);
    WriteBackMarks(t, writes);
    forall i | 0 <= i < |t|
      ensures t[i].methodId in Ids(writes) <==> t[i].instance == instance
    {
      SnapshotIds(t, instance, i);
    }
  }

  lemma SnapshotCopies(t: Table, instance: string)
    ensures forall w :: w in MarkAll(ByInstance(t, instance)) ==> Copies(t, w) && w.instance == instance
  {
    var rows := ByInstance(t, instance);
    ByInstanceSelects(t, instance);
    forall w | w in MarkAll(rows)
      ensures Copies(t, w) && w.instance == instance
    {
      var k :| 0 <= k < |rows| && rows[k].MarkAsNotAlive() == w;
      assert rows[k] in rows;
      var i :| 0 <= i < |t| && t[i] == rows[k];
    }
  }

  lemma SnapshotIds(t: Table, instance: string, i: nat)
    requires KeyOrdered(t) && i < |t|
    ensures t[i].methodId in Ids(MarkAll(ByInstance(t, instance))) <==> t[i].instance == instance
  {
    var rows := ByInstance(t, instance);
    var writes := MarkAll(rows);
    ByInstanceSelects(t, instance);
    if t[i].instance == instance {
      assert t[i] in rows;
      var k :| 0 <= k < |rows| && rows[k] == t[i];
      assert writes[k] in writes && writes[k].methodId == t[i].methodId;
    }
    if t[i].methodId in Ids(writes) {
      var w :| w in writes && w.methodId == t[i].methodId;
      SnapshotCopies(t, instance);
      var j :| 0 <= j < |t| && t[j].MarkAsNotAlive() == w;
      assert i == j;
    }
  }
}
