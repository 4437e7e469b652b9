/**
 The master under concurrent calls. Each transaction and each query is one step; an unregister call
 is two of them, with any steps of other calls in between.
 */
module Master {
  import opened Common
  import opened Registry

  /** An unregister call between its read and its write: the marked copies it will write back. */
  datatype Call = Call(instance: string, writes: seq<ServiceHandler>)

  datatype State = State(table: Table, calls: map<string, Call>)

  /** Calls are named by the caller; a step of a call that is not at that point changes nothing. */
  datatype Step =
    | RegisterTx(url: string, instance: string, handlers: seq<string>, ok: bool)
    | UnregisterRead(call: string, instance: string, ok: bool)
    | UnregisterWrite(call: string, ok: bool)
    | Query(handler: string, ok: bool)

  function Next(s: State, step: Step): State {
    match step
    case RegisterTx(url, instance, handlers, ok) =>
      if ok then s.(table := InsertAll(s.table, Batch(url, instance, handlers))) else s
    case UnregisterRead(call, instance, ok) =>
      if ok && call !in s.calls then
        s.(calls := s.calls[call := Call(instance, MarkAll(ByInstance(s.table, instance)))])
      else s
    case UnregisterWrite(call, ok) =>
      if call !in s.calls then s
      else
        State(if ok then UpdateAll(s.table, s.calls[call].writes) else s.table, s.calls - {call})
    case Query(_, _) => s
  }

  function Run(s: State, steps: seq<Step>): State {
    if steps == [] then s else Next(Run(s, steps[..|steps| - 1]), steps[|steps| - 1])
  }

  lemma {:induction false} RunAppend(s: State, a: seq<Step>, b: seq<Step>)
    ensures Run(s, a + b) == Run(Run(s, a), b)
  {
    if b == [] {
      assert a + b == a;
    } else {
      var n := |b| - 1;
      assert (a + b)[..|a + b| - 1] == a + b[..n];
      RunAppend(s, a, b[..n]);
    }
  }

  /******* What every step keeps *******/

  /** Every pending write is a marked copy of a current row of the call's own instance. */
  ghost predicate SnapshotAgrees(t: Table, c: Call) {
    forall w :: w in c.writes ==> Copies(t, w) && w.instance == c.instance
  }

  ghost predicate Inv(s: State) {
    && KeyOrdered(s.table)
    && forall call :: call in s.calls ==> SnapshotAgrees(s.table, s.calls[call])
  }

  /** No row is deleted, no column but IsAlive changes, and no dead row comes back to life. */
  ghost predicate Evolves(t: Table, t': Table) {
    && |t| <= |t'|
    && forall i :: 0 <= i < |t| ==>
      && t'[i].methodId == t[i].methodId && t'[i].service == t[i].service
      && t'[i].instance == t[i].instance && t'[i].handler == t[i].handler
      && (t'[i].isAlive ==> t[i].isAlive)
  }

  lemma {:induction false} EvolvesKeepsSnapshots(t: Table, t': Table, c: Call)
    requires Evolves(t, t') && SnapshotAgrees(t, c)
    ensures SnapshotAgrees(t', c)
  {
  }

  /** The write-back of a pending call only marks the rows it read. */
  lemma WriteOnlyMarks(s: State, call: string)
    requires Inv(s) && call in s.calls
    ensures Next(s, UnregisterWrite(call, true)).table == MarkIds(s.table, Ids(s.calls[call].writes))
    ensures forall i :: 0 <= i < |s.table| && s.table[i].instance != s.calls[call].instance ==>
      MarkIds(s.table, Ids(s.calls[call].writes))[i] == s.table[i]
  {
    var c := s.calls[call];
    WriteBackMarks(s.table, c.writes);
    forall i | 0 <= i < |s.table| && s.table[i].instance != c.instance
      ensures s.table[i].methodId !in Ids(c.writes)
    {
      forall w | w in c.writes
        ensures w.methodId != s.table[i].methodId
      {
        var j :| 0 <= j < |s.table| && s.table[j].MarkAsNotAlive() == w;
        assert i != j;
      }
    }
  }

  lemma NextKeepsInv(s: State, step: Step)
    requires Inv(s)
    ensures Inv(Next(s, step)) && Evolves(s.table, Next(s, step).table)
  {
    var s' := Next(s, step);
    match step {
      case RegisterTx(url, instance, handlers, ok) =>
        InsertAllAppends(s.table, Batch(url, instance, handlers));
        if ok {
          assert forall i :: 0 <= i < |s.table| ==> s'.table[..|s.table|][i] == s.table[i];
        }
      case UnregisterRead(call, instance, ok) =>
        SnapshotCopies(s.table, instance);
      case UnregisterWrite(call, ok) =>
        if call in s.calls {
          WriteOnlyMarks(s, call);
        }
      case Query(_, _) =>
    }
    assert Evolves(s.table, s'.table);
    forall call | call in s'.calls
      ensures SnapshotAgrees(s'.table, s'.calls[call])
    {
      if call in s.calls {
        EvolvesKeepsSnapshots(s.table, s'.table, s.calls[call]);
      }
    }
  }

  /** Over every run: keys stay ordered, pending snapshots stay in agreement, no dead row is revived. */
  lemma {:induction false} NoResurrection(s: State, steps: seq<Step>)
    requires Inv(s)
    ensures Inv(Run(s, steps))
    ensures Evolves(s.table, Run(s, steps).table)
    ensures var t, t' := s.table, Run(s, steps).table;
      |t| <= |t'| && forall i :: 0 <= i < |t| ==> t'[i] in {t[i], t[i].(isAlive := false)}
  {
    if steps == [] {
    } else {
      NoResurrection(s, steps[..|steps| - 1]);
      NextKeepsInv(Run(s, steps[..|steps| - 1]), steps[|steps| - 1]);
    }
  }

  /******* When the two-step unregister is atomic *******/

  /** The state right after a successful read. */
  function AfterRead(s: State, call: string, instance: string): State {
    Next(s, UnregisterRead(call, instance, true))
  }

  ghost predicate Writes(step: Step, call: string) {
    step.UnregisterWrite? && step.call == call
  }

  lemma {:induction false} PendingCallStays(s: State, call: string, steps: seq<Step>)
    requires call in s.calls
    requires forall k :: 0 <= k < |steps| ==> !Writes(steps[k], call)
    ensures call in Run(s, steps).calls && Run(s, steps).calls[call] == s.calls[call]
  {
    if steps == [] {
    } else {
      var n := |steps| - 1;
      assert forall k :: 0 <= k < n ==> steps[..n][k] == steps[k];
      PendingCallStays(s, call, steps[..n]);
      assert !Writes(steps[n], call);
    }
  }

  /** A live row of the instance that the read did not see. */
  ghost predicate MissedRow(t: Table, seen: nat, instance: string) {
    exists i :: seen <= i < |t| && t[i].instance == instance && t[i].isAlive
  }

  /** Marking, in a later table, the rows read from t marks the whole instance iff no live row was missed. */
  lemma MarkedIffNoneMissed(t: Table, t': Table, instance: string)
    requires KeyOrdered(t) && KeyOrdered(t') && Evolves(t, t')
    ensures MarkIds(t', Ids(MarkAll(ByInstance(t, instance)))) == MarkInstance(t', instance)
      <==> !MissedRow(t', |t|, instance)
  {
    var ids := Ids(MarkAll(ByInstance(t, instance)));
    var a, b := MarkIds(t', ids), MarkInstance(t', instance);
    forall i | 0 <= i < |t'|
      ensures a[i] == b[i] <==> !(i >= |t| && t'[i].instance == instance && t'[i].isAlive)
    {
      WrittenRows(t, t', instance, i);
    }
    if MissedRow(t', |t|, instance) {
      var i :| |t| <= i < |t'| && t'[i].instance == instance && t'[i].isAlive;
      assert a[i] != b[i];
    }
  }

  /** The pending write of the call does to the table what an atomic unregister would do. */
  ghost predicate AtomicAtWrite(s: State, call: string, instance: string) {
    Next(s, UnregisterWrite(call, true)).table == MarkInstance(s.table, instance)
  }

  /**
   With any steps between its read and its write, the call does what an atomic unregister at the
   write would do exactly when no live row of the instance was added since the read.
   */
  lemma {:induction false} UnregisterAtomicIff(s: State, call: string, instance: string, between: seq<Step>)
    requires Inv(s) && call !in s.calls
    requires forall k :: 0 <= k < |between| ==> !Writes(between[k], call)
    ensures var before := Run(AfterRead(s, call, instance), between);
      AtomicAtWrite(before, call, instance) <==> !MissedRow(before.table, |s.table|, instance)
  {
    var s1 := AfterRead(s, call, instance);
    NextKeepsInv(s, UnregisterRead(call, instance, true));
    NoResurrection(s1, between);
    PendingCallStays(s1, call, between);
    var before := Run(s1, between);
    WriteOnlyMarks(before, call);
    MarkedIffNoneMissed(s.table, before.table, instance);
  }

  /** The keys read from t belong, in a later table, to exactly the instance's rows that t had. */
  lemma WrittenRows(t: Table, t': Table, instance: string, i: nat)
    requires KeyOrdered(t) && KeyOrdered(t') && Evolves(t, t') && i < |t'|
    ensures t'[i].methodId in Ids(MarkAll(ByInstance(t, instance))) <==> t'[i].instance == instance && i < |t|
  {
    var writes := MarkAll(ByInstance(t, instance));
    if i < |t| {
      SnapshotIds(t, instance, i);
      assert t'[i].MarkAsNotAlive() == t[i].MarkAsNotAlive();
      assert t'[i].methodId == t[i].methodId && t'[i].instance == t[i].instance;
    } else {
      SnapshotCopies(t, instance);
      forall w | w in writes
        ensures w.methodId != t'[i].methodId
      {
        var j :| 0 <= j < |t| && t[j].MarkAsNotAlive() == w;
        assert t'[j].MarkAsNotAlive() == t[j].MarkAsNotAlive();
        assert t'[j].methodId < t'[i].methodId;
      }
    }
  }

  /** A register transaction that commits at least one row for the instance. */
  ghost predicate Registers(step: Step, instance: string) {
    step.RegisterTx? && step.ok && step.instance == instance && step.handlers != []
  }

  /** At position j the call effectively read the instance's rows, and it has not written since. */
  ghost predicate OpenedAt(s: State, steps: seq<Step>, j: nat, call: string, instance: string)
    requires j < |steps|
  {
    && steps[j] == UnregisterRead(call, instance, true)
    && call !in Run(s, steps[..j]).calls
    && forall l :: j < l < |steps| ==> !Writes(steps[l], call)
  }

  ghost predicate Opened(s: State, steps: seq<Step>, call: string, instance: string) {
    exists j :: 0 <= j < |steps| && OpenedAt(s, steps, j, call, instance)
  }

  /** Position m is the successful write of a call that read the instance's rows earlier in these steps. */
  ghost predicate SweptAt(s: State, steps: seq<Step>, m: nat, instance: string)
    requires m < |steps|
  {
    steps[m].UnregisterWrite? && steps[m].ok && Opened(s, steps[..m], steps[m].call, instance)
  }

  /** Within these steps some call effectively reads the instance's rows and then successfully writes them. */
  ghost predicate Swept(s: State, steps: seq<Step>, instance: string) {
    exists m :: 0 <= m < |steps| && SweptAt(s, steps, m, instance)
  }

  lemma OpenedLast(s: State, steps: seq<Step>, last: Step, call: string, instance: string)
    ensures Opened(s, steps + [last], call, instance) <==>
      || (Opened(s, steps, call, instance) && !Writes(last, call))
      || (last == UnregisterRead(call, instance, true) && call !in Run(s, steps).calls)
  {
    var more, n := steps + [last], |steps|;
    assert more[..n] == steps;
    if Opened(s, steps, call, instance) && !Writes(last, call) {
      var j :| 0 <= j < n && OpenedAt(s, steps, j, call, instance);
      assert more[..j] == steps[..j];
      assert OpenedAt(s, more, j, call, instance);
    }
    if last == UnregisterRead(call, instance, true) && call !in Run(s, steps).calls {
      assert OpenedAt(s, more, n, call, instance);
    }
    if j :| 0 <= j < n && OpenedAt(s, more, j, call, instance) {
      assert more[..j] == steps[..j] && more[n] == last;
      assert forall l :: j < l < n ==> more[l] == steps[l];
      assert OpenedAt(s, steps, j, call, instance);
    }
  }

  lemma SweptLast(s: State, steps: seq<Step>, last: Step, instance: string)
    ensures Swept(s, steps + [last], instance) <==>
      || Swept(s, steps, instance)
      || (last.UnregisterWrite? && last.ok && Opened(s, steps, last.call, instance))
  {
    var more, n := steps + [last], |steps|;
    assert more[..n] == steps;
    assert SweptAt(s, more, n, instance) <==>
      last.UnregisterWrite? && last.ok && Opened(s, steps, last.call, instance);
    forall m | 0 <= m < n
      ensures SweptAt(s, more, m, instance) <==> SweptAt(s, steps, m, instance)
    {
      assert more[..m] == steps[..m];
    }
  }

  /** The pending call has the row with this key in its snapshot. */
  ghost predicate Covers(s: State, call: string, id: int) {
    call in s.calls && id in Ids(s.calls[call].writes)
  }

  /**
   A live row that no pending call has in its snapshot dies in a run exactly if the run sweeps its
   instance, and the calls that have it in their snapshots are those opened on the way.
   */
  lemma {:induction false} RowFate(s: State, steps: seq<Step>, i: nat, instance: string)
    requires Inv(s) && i < |s.table| && s.table[i].isAlive && s.table[i].instance == instance
    requires forall call :: !Covers(s, call, s.table[i].methodId)
    ensures Inv(Run(s, steps)) && Evolves(s.table, Run(s, steps).table)
    ensures Run(s, steps).table[i].isAlive <==> !Swept(s, steps, instance)
    ensures forall call :: Covers(Run(s, steps), call, s.table[i].methodId) <==> Opened(s, steps, call, instance)
  {
    NoResurrection(s, steps);
    if steps == [] {
    } else {
      var n := |steps| - 1;
      var init, last := steps[..n], steps[n];
      assert steps == init + [last];
      RowFate(s, init, i, instance);
      var before := Run(s, init);
      NoResurrection(s, init);
      assert before.table[i].MarkAsNotAlive() == s.table[i].MarkAsNotAlive();
      SweptLast(s, init, last, instance);
      RowStep(before, last, i);
      forall call
        ensures Covers(Run(s, steps), call, s.table[i].methodId) <==> Opened(s, steps, call, instance)
      {
        OpenedLast(s, init, last, call, instance);
        CoverStep(before, last, i, call);
      }
    }
  }

  /** One step kills a row exactly if it is the successful write of a call that covers it. */
  lemma RowStep(s: State, step: Step, i: nat)
    requires Inv(s) && i < |s.table|
    ensures |s.table| <= |Next(s, step).table|
    ensures Next(s, step).table[i].isAlive <==>
      s.table[i].isAlive && !(step.UnregisterWrite? && step.ok && Covers(s, step.call, s.table[i].methodId))
  {
    match step
    case RegisterTx(url, id, handlers, ok) => RegisteredRows(s.table, url, id, handlers);
    case UnregisterRead(_, _, _) =>
    case UnregisterWrite(call, ok) =>
      if call in s.calls {
        WriteOnlyMarks(s, call);
      }
    case Query(_, _) =>
  }

  /** A call covers a row after a step if it did before and did not write, or if the step opens it there. */
  lemma CoverStep(s: State, step: Step, i: nat, call: string)
    requires Inv(s) && i < |s.table|
    ensures Covers(Next(s, step), call, s.table[i].methodId) <==>
      || (Covers(s, call, s.table[i].methodId) && !Writes(step, call))
      || (step == UnregisterRead(call, s.table[i].instance, true) && call !in s.calls)
  {
    if step.UnregisterRead? {
      SnapshotIds(s.table, step.instance, i);
    }
  }

  /** A registration at position k of which no later step of the run takes the rows down again. */
  ghost predicate Remains(s: State, steps: seq<Step>, k: nat, instance: string)
    requires k < |steps|
  {
    Registers(steps[k], instance) && !Swept(Run(s, steps[..k + 1]), steps[k + 1..], instance)
  }

  /** A row that was added during a run was added by the registration at some position. */
  lemma {:induction false} AddedRow(s: State, steps: seq<Step>, i: nat) returns (k: nat)
    requires Inv(s) && |s.table| <= i < |Run(s, steps).table|
    ensures k < |steps| && |Run(s, steps[..k]).table| <= i < |Run(s, steps[..k + 1]).table|
  {
    if steps == [] {
    } else {
      var n := |steps| - 1;
      if i < |Run(s, steps[..n]).table| {
        k := AddedRow(s, steps[..n], i);
        assert steps[..n][..k] == steps[..k] && steps[..n][..k + 1] == steps[..k + 1];
      } else {
        k := n;
        assert steps[..n + 1] == steps;
      }
    }
  }

  /** The row at i was just added by a registration: alive, of the registered instance, in no snapshot. */
  lemma NewRow(s: State, step: Step, i: nat)
    requires Inv(s) && |s.table| <= i < |Next(s, step).table|
    ensures step.RegisterTx? && step.ok && step.handlers != []
    ensures var row := Next(s, step).table[i];
      row.isAlive && row.instance == step.instance && forall call :: !Covers(Next(s, step), call, row.methodId)
  {
    NextKeepsInv(s, step);
    if step.UnregisterWrite? && step.call in s.calls {
      WriteOnlyMarks(s, step.call);
    }
    var s' := Next(s, step);
    assert step.RegisterTx? && step.ok;
    RegisteredRows(s.table, step.url, step.instance, step.handlers);
    forall call
      ensures !Covers(s', call, s'.table[i].methodId)
    {
      if call in s.calls {
        forall w | w in s.calls[call].writes
          ensures w.methodId != s'.table[i].methodId
        {
          assert Copies(s.table, w);
          var j :| 0 <= j < |s.table| && s.table[j].MarkAsNotAlive() == w;
          assert s'.table[j].methodId < s'.table[i].methodId;
        }
      }
    }
  }

  /** What becomes of a row that the registration at position k adds. */
  lemma FateOfNewRow(s: State, steps: seq<Step>, k: nat, i: nat)
    requires Inv(s) && k < |steps|
    requires |Run(s, steps[..k]).table| <= i < |Run(s, steps[..k + 1]).table|
    ensures steps[k].RegisterTx? && Registers(steps[k], steps[k].instance)
    ensures |s.table| <= i < |Run(s, steps).table| && Run(s, steps).table[i].instance == steps[k].instance
    ensures Run(s, steps).table[i].isAlive <==> Remains(s, steps, k, steps[k].instance)
  {
    var rest := steps[k + 1..];
    assert steps[..k + 1][..k] == steps[..k] && steps[..k + 1] + rest == steps;
    NoResurrection(s, steps[..k]);
    var s1 := Run(s, steps[..k + 1]);
    NextKeepsInv(Run(s, steps[..k]), steps[k]);
    NewRow(Run(s, steps[..k]), steps[k], i);
    RowFate(s1, rest, i, steps[k].instance);
    RunAppend(s, steps[..k + 1], rest);
    assert Run(s, steps).table[i].MarkAsNotAlive() == s1.table[i].MarkAsNotAlive();
  }

  lemma MissedRowMeansRemaining(s: State, instance: string, steps: seq<Step>) returns (k: nat)
    requires Inv(s) && MissedRow(Run(s, steps).table, |s.table|, instance)
    ensures k < |steps| && Remains(s, steps, k, instance)
  {
    var t := Run(s, steps).table;
    var i :| |s.table| <= i < |t| && t[i].instance == instance && t[i].isAlive;
    k := AddedRow(s, steps, i);
    FateOfNewRow(s, steps, k, i);
  }

  lemma RemainingMeansMissedRow(s: State, instance: string, steps: seq<Step>, k: nat)
    requires Inv(s) && k < |steps| && Remains(s, steps, k, instance)
    ensures MissedRow(Run(s, steps).table, |s.table|, instance)
  {
    var before := Run(s, steps[..k]);
    assert steps[..k + 1][..k] == steps[..k];
    NoResurrection(s, steps[..k]);
    RegisteredRows(before.table, steps[k].url, instance, steps[k].handlers);
    FateOfNewRow(s, steps, k, |before.table|);
  }

  /** A live row of the instance escapes a snapshot exactly if a later registration remains. */
  lemma {:induction false} MissedRowIffRegistrationRemains(s: State, instance: string, steps: seq<Step>)
    requires Inv(s)
    ensures MissedRow(Run(s, steps).table, |s.table|, instance) <==>
      exists k :: 0 <= k < |steps| && Remains(s, steps, k, instance)
  {
    if MissedRow(Run(s, steps).table, |s.table|, instance) {
      var k := MissedRowMeansRemaining(s, instance, steps);
    }
    if k :| 0 <= k < |steps| && Remains(s, steps, k, instance) {
      RemainingMeansMissedRow(s, instance, steps, k);
    }
  }

  /**
   The exact condition on the steps: with any steps between its read and its write, other unregister
   calls of the same instance included, the call is atomic at its write if and only if after every
   registration of the instance in between, and still in between, another call reads the instance's
   rows and then writes them.
   */
  lemma {:induction false} UnregisterAtomicIffRegistrationsSwept(s: State, call: string, instance: string,
                                                                 between: seq<Step>)
    requires Inv(s) && call !in s.calls
    requires forall k :: 0 <= k < |between| ==> !Writes(between[k], call)
    ensures var s1 := AfterRead(s, call, instance);
      AtomicAtWrite(Run(s1, between), call, instance)
      <==> forall k :: 0 <= k < |between| && Registers(between[k], instance) ==>
             Swept(Run(s1, between[..k + 1]), between[k + 1..], instance)
  {
    var s1 := AfterRead(s, call, instance);
    UnregisterAtomicIff(s, call, instance, between);
    NextKeepsInv(s, UnregisterRead(call, instance, true));
    MissedRowIffRegistrationRemains(s1, instance, between);
    forall k | 0 <= k < |between|
      ensures Remains(s1, between, k, instance) <==>
        Registers(between[k], instance) && !Swept(Run(s1, between[..k + 1]), between[k + 1..], instance)
    {
    }
  }

  /** With no registration of the instance in between it is atomic, whatever other calls read and write. */
  lemma UnregisterAtomicWithoutRegistration(s: State, call: string, instance: string, between: seq<Step>)
    requires Inv(s) && call !in s.calls
    requires forall k :: 0 <= k < |between| ==> !Writes(between[k], call) && !Registers(between[k], instance)
    ensures AtomicAtWrite(Run(AfterRead(s, call, instance), between), call, instance)
  {
    UnregisterAtomicIffRegistrationsSwept(s, call, instance, between);
  }

  /** A run on which the call is not atomic: a registration slips in and its row stays alive. */
  lemma LateRegistrationSurvives()
    ensures var s := State([], map[]);
      var before := Run(AfterRead(s, "call", "id"), [RegisterTx("url", "id", ["h"], true)]);
      && !AtomicAtWrite(before, "call", "id")
      && "url" in AliveUrls(Next(before, UnregisterWrite("call", true)).table, "h")
  {
    var s := State([], map[]);
    var step := RegisterTx("url", "id", ["h"], true);
    var s1 := AfterRead(s, "call", "id");
    assert [step][..0] == [];
    var before := Next(s1, step);
    assert Run(s1, [step]) == before;
    InsertAllAppends([], Batch("url", "id", ["h"]));
    var row := ServiceHandler(1, "url", "id", "h", true);
    assert before.table[0 + 0] == row;
    var after := Next(before, UnregisterWrite("call", true)).table;
    assert after == before.table;
    assert after[0] == row && row in after;
  }
}
