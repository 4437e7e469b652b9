/**
 The discovery service as a whole: the imperative server driven by the calls that the agents of module
 System make, with lookups of anyone in between. What is proved of the system's runs holds of its table.
 */
module Discovery {
  import opened Common
  import opened Registry
  import opened Repository
  import opened Server
  import Master
  import System

  const START := System.EMPTY.master

  /** The steps other than lookups. */
  function Transactions(steps: seq<Master.Step>): seq<Master.Step> {
    if steps == [] then []
    else
      var n := |steps| - 1;
      Transactions(steps[..n]) + (if steps[n].Query? then [] else [steps[n]])
  }

  lemma {:induction false} LookupsChangeNothing(s: Master.State, steps: seq<Master.Step>)
    ensures Master.Run(s, steps) == Master.Run(s, Transactions(steps))
  {
    if steps == [] {
    } else {
      var n := |steps| - 1;
      var before := Transactions(steps[..n]);
      LookupsChangeNothing(s, steps[..n]);
      if steps[n].Query? {
        assert before + [] == before;
      } else {
        assert (before + [steps[n]])[..|before|] == before;
      }
    }
  }

  lemma {:induction false} TransactionsOfPrefix(steps: seq<Master.Step>, k: nat)
    requires k <= |steps|
    ensures Transactions(steps[..k]) <= Transactions(steps)
  {
    if k == |steps| {
      assert steps[..k] == steps;
    } else {
      var n := |steps| - 1;
      TransactionsOfPrefix(steps[..n], k);
      assert steps[..n][..k] == steps[..k];
    }
  }

  lemma {:induction false} StepsOfPrefix(s: Master.State, requests: seq<Request>, k: nat)
    requires k <= |requests|
    ensures StepsOf(s, requests)[..k] == StepsOf(s, requests[..k])
  {
    if k == |requests| {
      assert requests[..k] == requests;
    } else {
      var n := |requests| - 1;
      StepsOfPrefix(s, requests[..n], k);
      assert requests[..n][..k] == requests[..k];
      assert StepsOf(s, requests)[..n] == StepsOf(s, requests[..n]);
    }
  }

  /** Served from the start, the requests other than lookups are the transactions of the agents' run. */
  ghost predicate Drives(events: seq<System.Event>, requests: seq<Request>)
    requires System.Runs(System.EMPTY, events)
  {
    Transactions(StepsOf(START, requests)) == System.MasterSteps(System.EMPTY, events)
  }

  /** The events of a run up to its n-th transaction. */
  lemma {:induction false} EventsUpTo(s: System.System, events: seq<System.Event>, n: nat) returns (p: nat)
    requires System.Runs(s, events) && n <= |System.MasterSteps(s, events)|
    ensures p <= |events| && System.Runs(s, events[..p])
    ensures System.MasterSteps(s, events[..p]) == System.MasterSteps(s, events)[..n]
    decreases |events|
  {
    if n == 0 {
      p := 0;
    } else {
      var s', rest := System.Next(s, events[0]), events[1..];
      var own := |System.MasterSteps(s, events)| - |System.MasterSteps(s', rest)|;
      var q := EventsUpTo(s', rest, n - own);
      p := q + 1;
      assert events[..p][1..] == rest[..q] && events[..p][0] == events[0];
    }
  }

  /** The point p of the agents' run that the first k requests have led the server to. */
  ghost predicate ServedUpTo(events: seq<System.Event>, requests: seq<Request>, k: nat, p: nat) {
    && k <= |requests| && p <= |events| && System.Runs(System.EMPTY, events[..p])
    && Drives(events[..p], requests[..k])
  }

  lemma PointOfRun(events: seq<System.Event>, requests: seq<Request>, k: nat) returns (p: nat)
    requires System.Runs(System.EMPTY, events) && Drives(events, requests) && k <= |requests|
    ensures ServedUpTo(events, requests, k, p)
  {
    var steps := StepsOf(START, requests);
    StepsOfPrefix(START, requests, k);
    TransactionsOfPrefix(steps, k);
    p := EventsUpTo(System.EMPTY, events, |Transactions(steps[..k])|);
  }

  lemma LookupReply(events: seq<System.Event>, requests: seq<Request>, k: nat, reply: Reply)
    requires System.Runs(System.EMPTY, events) && Drives(events, requests)
    requires k < |requests| && requests[k].Lookup? && reply.Found? && RepliesAt(START, requests, k, reply)
    ensures exists p: nat ::
      && ServedUpTo(events, requests, k, p)
      && NoDuplicates(reply.services)
      && forall u :: u in reply.services <==>
           System.Offered(System.After(System.EMPTY, events[..p]).agents, u, requests[k].serviceDefinition)
  {
    var p := PointOfRun(events, requests, k);
    ServedState(events[..p], requests[..k]);
    System.LookupAnswers(events[..p], requests[k].serviceDefinition, reply.services);
    assert ServedUpTo(events, requests, k, p);
  }

  lemma LookupReplies(events: seq<System.Event>, requests: seq<Request>, replies: seq<Reply>)
    requires System.Runs(System.EMPTY, events) && Drives(events, requests) && |replies| == |requests|
    requires forall k :: 0 <= k < |requests| ==> RepliesAt(START, requests, k, replies[k])
    ensures forall k :: 0 <= k < |requests| && requests[k].Lookup? && replies[k].Found? ==>
      exists p: nat ::
        && ServedUpTo(events, requests, k, p)
        && NoDuplicates(replies[k].services)
        && forall u :: u in replies[k].services <==>
             System.Offered(System.After(System.EMPTY, events[..p]).agents, u, requests[k].serviceDefinition)
  {
    forall k | 0 <= k < |requests| && requests[k].Lookup? && replies[k].Found?
      ensures exists p: nat ::
        && ServedUpTo(events, requests, k, p)
        && NoDuplicates(replies[k].services)
        && forall u :: u in replies[k].services <==>
             System.Offered(System.After(System.EMPTY, events[..p]).agents, u, requests[k].serviceDefinition)
    {
      LookupReply(events, requests, k, replies[k]);
    }
  }

  lemma ServedState(events: seq<System.Event>, requests: seq<Request>)
    requires System.Runs(System.EMPTY, events) && Drives(events, requests)
    ensures Master.Run(START, StepsOf(START, requests)) == System.After(System.EMPTY, events).master
  {
    LookupsChangeNothing(START, StepsOf(START, requests));
    System.MasterRuns(System.EMPTY, events);
  }

  /**
   Serving the agents' calls, with any faults that make them come out as they did and any lookups among
   them, the imperative server reaches the master of the agents' run; its table refines the set of live
   triples; every reply is an error exactly when its request met a fault; and every lookup it answers
   lists exactly the urls offered at that point, each once.
   */
  method ServeAgents(server: DiscoveryServer, ghost events: seq<System.Event>, requests: seq<Request>)
    returns (replies: seq<Reply>)
    requires server.Valid() && server.State() == START
    requires System.Runs(System.EMPTY, events) && Drives(events, requests)
    modifies server, server.repo.db
    ensures server.Valid() && server.State() == System.After(System.EMPTY, events).master
    ensures System.Live(server.repo.db.rows) == System.AbstractAfter({}, System.EMPTY, events)
    ensures |replies| == |requests|
    ensures forall k :: 0 <= k < |requests| ==> RepliesAt(START, requests, k, replies[k])
    ensures forall k :: 0 <= k < |requests| && requests[k].Lookup? && replies[k].Found? ==>
      exists p: nat ::
        && ServedUpTo(events, requests, k, p)
        && NoDuplicates(replies[k].services)
        && forall u :: u in replies[k].services <==>
             System.Offered(System.After(System.EMPTY, events[..p]).agents, u, requests[k].serviceDefinition)
  {
    replies := server.Serve(requests);
    ServedState(events, requests);
    assert System.Live([]) == {};
    System.RunRefines(System.EMPTY, events);
    LookupReplies(events, requests, replies);
  }

  /******* Every run of the agents can be served *******/

  /** A request, and faults, that take the step. */
  function RequestFor(step: Master.Step): Request {
    match step
    case RegisterTx(url, instance, handlers, ok) => Register(url, instance, handlers, WriteFaults({}, !ok))
    case UnregisterRead(call, instance, ok) => BeginUnregister(call, instance, ReadFaults(!ok, {}))
    case UnregisterWrite(call, ok) => FinishUnregister(call, WriteFaults({}, !ok))
    case Query(handler, ok) => Lookup(handler, ReadFaults(!ok, {}))
  }

  function RequestsFor(steps: seq<Master.Step>): seq<Request> {
    seq(|steps|, i requires 0 <= i < |steps| => RequestFor(steps[i]))
  }

  lemma {:induction false} NoFault(n: nat)
    ensures FirstFault(n, {}) == None
  {
    if n == 0 {
    } else {
      NoFault(n - 1);
    }
  }

  /** Calls only write after they have read. */
  ghost predicate WritesArePending(s: Master.State, steps: seq<Master.Step>) {
    forall k :: 0 <= k < |steps| && steps[k].UnregisterWrite? ==> steps[k].call in Master.Run(s, steps[..k]).calls
  }

  lemma PendingPrefix(s: Master.State, steps: seq<Master.Step>, n: nat)
    requires WritesArePending(s, steps) && n <= |steps|
    ensures WritesArePending(s, steps[..n])
  {
    assert forall k :: 0 <= k < n ==> steps[..n][..k] == steps[..k] && steps[..n][k] == steps[k];
  }

  lemma StepOfRequestFor(s: Master.State, step: Master.Step)
    requires step.UnregisterWrite? ==> step.call in s.calls
    ensures StepOf(s, RequestFor(step)) == step
  {
    match step
    case RegisterTx(_, _, handlers, _) => NoFault(|handlers|);
    case UnregisterRead(_, instance, _) => NoFault(|ByInstance(s.table, instance)|);
    case UnregisterWrite(call, _) => NoFault(|s.calls[call].writes|);
    case Query(handler, _) => NoFault(|AliveUrls(s.table, handler)|);
  }

  lemma {:induction false} StepsOfRequestsFor(s: Master.State, steps: seq<Master.Step>)
    requires WritesArePending(s, steps)
    ensures StepsOf(s, RequestsFor(steps)) == steps
  {
    if steps == [] {
    } else {
      var n := |steps| - 1;
      PendingPrefix(s, steps, n);
      StepsOfRequestsFor(s, steps[..n]);
      assert RequestsFor(steps)[..n] == RequestsFor(steps[..n]);
      StepOfRequestFor(Master.Run(s, steps[..n]), steps[n]);
      assert steps == steps[..n] + [steps[n]];
    }
  }

  lemma {:induction false} MasterStepsArePending(s: System.System, events: seq<System.Event>)
    requires System.Inv(s) && System.Runs(s, events)
    ensures WritesArePending(s.master, System.MasterSteps(s, events))
    ensures Transactions(System.MasterSteps(s, events)) == System.MasterSteps(s, events)
    decreases |events|
  {
    if events == [] {
    } else {
      var s', rest := System.Next(s, events[0]), System.MasterSteps(System.Next(s, events[0]), events[1..]);
      System.NextKeepsInv(s, events[0]);
      MasterStepsArePending(s', events[1..]);
      var own := System.OwnSteps(s, events[0]);
      assert System.MasterSteps(s, events) == own + rest;
      if own == [] {
        assert own + rest == rest;
      } else {
        OwnStepIsPending(s, events[0]);
        PendingCons(s.master, own[0], rest);
      }
    }
  }

  lemma OwnStepIsPending(s: System.System, e: System.Event)
    requires System.TableInv(s.master, s.agents) && System.Enabled(s, e) && System.OwnSteps(s, e) != []
    ensures !System.OwnSteps(s, e)[0].Query?
    ensures System.OwnSteps(s, e)[0].UnregisterWrite? ==> System.OwnSteps(s, e)[0].call in s.master.calls
  {
  }

  lemma PendingCons(s: Master.State, step: Master.Step, rest: seq<Master.Step>)
    requires step.UnregisterWrite? ==> step.call in s.calls
    requires WritesArePending(Master.Next(s, step), rest) && Transactions(rest) == rest && !step.Query?
    ensures WritesArePending(s, [step] + rest) && Transactions([step] + rest) == [step] + rest
  {
    var steps := [step] + rest;
    forall k | 0 <= k < |steps| && steps[k].UnregisterWrite?
      ensures steps[k].call in Master.Run(s, steps[..k]).calls
    {
      if k > 0 {
        assert steps[..k] == [step] + rest[..k - 1];
        Master.RunAppend(s, [step], rest[..k - 1]);
        assert [step][..0] == [];
        assert Master.Run(s, [step]) == Master.Next(s, step);
      }
    }
    TransactionsCons(step, rest);
  }

  lemma {:induction false} TransactionsCons(step: Master.Step, rest: seq<Master.Step>)
    requires !step.Query?
    ensures Transactions([step] + rest) == [step] + Transactions(rest)
  {
    if rest == [] {
      assert ([step] + rest)[..0] == [];
    } else {
      var n := |rest| - 1;
      assert ([step] + rest)[..n + 1] == [step] + rest[..n];
      TransactionsCons(step, rest[..n]);
    }
  }

  /** For every run of the agents there are requests, with faults, that drive the server through it. */
  lemma EveryRunCanBeServed(events: seq<System.Event>) returns (requests: seq<Request>)
    requires System.Runs(System.EMPTY, events)
    ensures Drives(events, requests)
  {
    var steps := System.MasterSteps(System.EMPTY, events);
    MasterStepsArePending(System.EMPTY, events);
    requests := RequestsFor(steps);
    StepsOfRequestsFor(START, steps);
  }
}
