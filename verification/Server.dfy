/**
 The running master: one database, and the unregister calls that have read but not yet written. Its
 methods are the transactions of the use cases, and any interleaving of calls is a run of the state
 machine in module Master.
 */
module Server {
  import opened Common
  import opened Registry
  import opened Repository
  import opened UseCases
  import Master

  /** What one concurrent call does next, with the faults it meets. */
  datatype Request =
    | Register(url: string, serviceId: string, handlers: seq<string>, writeFaults: WriteFaults)
    | BeginUnregister(call: string, serviceId: string, readFaults: ReadFaults)
    | FinishUnregister(call: string, writeFaults: WriteFaults)
    | Lookup(serviceDefinition: string, readFaults: ReadFaults)

  /** What the caller gets back; a call that is still to write, or is not there, gets nothing yet. */
  datatype Reply = Acknowledged | Found(services: seq<string>) | Refused(err: SqlError) | NoReply

  /** The step of the state machine that a request takes from a state, faults included. */
  function StepOf(s: Master.State, r: Request): Master.Step {
    match r
    case Register(url, serviceId, handlers, faults) =>
      Master.RegisterTx(url, serviceId, handlers, WriteError(|handlers|, faults).None?)
    case BeginUnregister(call, serviceId, faults) =>
      Master.UnregisterRead(call, serviceId, ReadError(|ByInstance(s.table, serviceId)|, faults).None?)
    case FinishUnregister(call, faults) =>
      Master.UnregisterWrite(call, call in s.calls && WriteError(|s.calls[call].writes|, faults).None?)
    case Lookup(handler, faults) =>
      Master.Query(handler, ReadError(|AliveUrls(s.table, handler)|, faults).None?)
  }

  function StepsOf(s: Master.State, requests: seq<Request>): (steps: seq<Master.Step>)
    ensures |steps| == |requests|
  {
    if requests == [] then []
    else
      var n := |requests| - 1;
      var steps := StepsOf(s, requests[..n]);
      steps + [StepOf(Master.Run(s, steps), requests[n])]
  }

  /** The reply to a request served in a state: an error exactly when the step aborts, and which one. */
  ghost predicate Replies(s: Master.State, r: Request, reply: Reply) {
    match r
    case Register(_, _, handlers, faults) =>
      reply == Outcome(WriteError(|handlers|, faults), Acknowledged)
    case BeginUnregister(_, serviceId, faults) =>
      reply == Outcome(ReadError(|ByInstance(s.table, serviceId)|, faults), NoReply)
    case FinishUnregister(call, faults) =>
      reply == if call in s.calls then Outcome(WriteError(|s.calls[call].writes|, faults), Acknowledged) else NoReply
    case Lookup(handler, faults) =>
      match ReadError(|AliveUrls(s.table, handler)|, faults) {
        case Some(err) => reply == Refused(err)
        case None => reply.Found? && IsDistinctAnswer(reply.services, s.table, handler)
      }
  }

  function Outcome(err: Option<SqlError>, success: Reply): Reply {
    if err.Some? then Refused(err.value) else success
  }

  /**
   A caller is told the truth: a request is refused exactly when a query, scan, statement or commit that it
   reaches fails, with the first such error, and then the table is as it was.
   */
  lemma RefusedIffFaulty(s: Master.State, r: Request, reply: Reply)
    requires Replies(s, r, reply)
    ensures reply.Refused? ==> Master.Next(s, StepOf(s, r)).table == s.table
    ensures match r {
      case Register(_, _, handlers, faults) =>
        && (reply.Refused? <==> faults.commit || exists k :: 0 <= k < |handlers| && k in faults.statements)
        && (reply.Refused? ==> WriteError(|handlers|, faults) == Some(reply.err))
        && (!reply.Refused? ==>
              && reply == Acknowledged
              && Master.Next(s, StepOf(s, r)).table == InsertAll(s.table, Batch(r.url, r.serviceId, handlers)))
      case BeginUnregister(_, serviceId, faults) =>
        && (reply.Refused? <==>
              faults.query || exists k :: 0 <= k < |ByInstance(s.table, serviceId)| && k in faults.scans)
        && (reply.Refused? ==> ReadError(|ByInstance(s.table, serviceId)|, faults) == Some(reply.err))
        && (!reply.Refused? ==> reply == NoReply)
        && (!reply.Refused? && r.call !in s.calls ==>
              Master.Next(s, StepOf(s, r)).calls ==
                s.calls[r.call := Master.Call(serviceId, MarkAll(ByInstance(s.table, serviceId)))])
      case FinishUnregister(call, faults) =>
        && (reply.Refused? <==>
              call in s.calls
              && (faults.commit || exists k :: 0 <= k < |s.calls[call].writes| && k in faults.statements))
        && (reply.Refused? ==> WriteError(|s.calls[call].writes|, faults) == Some(reply.err))
        && (!reply.Refused? && call !in s.calls ==> reply == NoReply)
        && (!reply.Refused? && call in s.calls ==>
              && reply == Acknowledged
              && Master.Next(s, StepOf(s, r)).table == UpdateAll(s.table, s.calls[call].writes))
      case Lookup(handler, faults) =>
        && (reply.Refused? <==>
              faults.query || exists k :: 0 <= k < |AliveUrls(s.table, handler)| && k in faults.scans)
        && (reply.Refused? ==> ReadError(|AliveUrls(s.table, handler)|, faults) == Some(reply.err))
        && (!reply.Refused? ==> reply.Found? && IsDistinctAnswer(reply.services, s.table, handler))
    }
  {
    match r
    case Register(_, _, handlers, faults) => WriteErrorIff(|handlers|, faults);
    case BeginUnregister(_, serviceId, faults) => ReadErrorIff(|ByInstance(s.table, serviceId)|, faults);
    case FinishUnregister(call, faults) =>
      if call in s.calls {
        WriteErrorIff(|s.calls[call].writes|, faults);
      }
    case Lookup(handler, faults) => ReadErrorIff(|AliveUrls(s.table, handler)|, faults);
  }

  /** One more request is one more step. */
  lemma RunOfNext(s: Master.State, requests: seq<Request>, k: nat)
    requires k < |requests|
    ensures var before := Master.Run(s, StepsOf(s, requests[..k]));
      Master.Run(s, StepsOf(s, requests[..k + 1])) == Master.Next(before, StepOf(before, requests[k]))
  {
    assert requests[..k + 1][..k] == requests[..k];
    assert StepsOf(s, requests[..k + 1])[..k] == StepsOf(s, requests[..k]);
  }

  /** A reply that is right for the state which the requests before position k have led to. */
  ghost predicate RepliesAt(s: Master.State, requests: seq<Request>, k: nat, reply: Reply)
    requires k < |requests|
  {
    Replies(Master.Run(s, StepsOf(s, requests[..k])), requests[k], reply)
  }

  /** The request at position k is told truly too, and if it is refused the table stays as those before left it. */
  lemma ServedTruly(s: Master.State, requests: seq<Request>, k: nat, reply: Reply)
    requires k < |requests| && RepliesAt(s, requests, k, reply)
    ensures Replies(Master.Run(s, StepsOf(s, requests[..k])), requests[k], reply)
    ensures reply.Refused? ==>
      Master.Run(s, StepsOf(s, requests[..k + 1])).table == Master.Run(s, StepsOf(s, requests[..k])).table
  {
    RunOfNext(s, requests, k);
    RefusedIffFaulty(Master.Run(s, StepsOf(s, requests[..k])), requests[k], reply);
  }

  class DiscoveryServer {
    const repo: ServiceHandlerRepository
    const register: RegisterServiceUseCase
    const unregister: UnregisterServiceUseCase
    const getAlive: GetAliveServicesUseCase
    var calls: map<string, Master.Call>

    ghost predicate Valid()
      reads this, repo.db
    {
      repo.db.Idle() && register.repo == repo && unregister.repo == repo && getAlive.repo == repo
    }

    ghost function State(): Master.State
      reads this, repo.db
    {
      Master.State(repo.db.rows, calls)
    }

    constructor (repo: ServiceHandlerRepository)
      requires repo.db.Idle()
      ensures Valid() && this.repo == repo
      ensures State() == Master.State(repo.db.rows, map[])
    {
      this.repo := repo;
      this.register := new RegisterServiceUseCase(repo);
      this.unregister := new UnregisterServiceUseCase(repo);
      this.getAlive := new GetAliveServicesUseCase(repo);
      this.calls := map[];
    }

    /** The call itself, by its kind. */
    method Dispatch(r: Request) returns (reply: Reply)
      requires Valid()
      modifies this, repo.db
      ensures Valid()
      ensures State() == Master.Next(old(State()), StepOf(old(State()), r))
      ensures Replies(old(State()), r, reply)
    {
      match r
      case Register(url, serviceId, handlers, faults) =>
        var err := register.Execute(url, serviceId, handlers, faults);
        reply := if err.Some? then Refused(err.value) else Acknowledged;
      case BeginUnregister(call, serviceId, faults) =>
        var marked := unregister.ReadAndMark(serviceId, faults);
        if marked.Ok? && call !in calls {
          calls := calls[call := Master.Call(serviceId, marked.value)];
        }
        reply := if marked.Err? then Refused(marked.error) else NoReply;
      case FinishUnregister(call, faults) =>
        reply := NoReply;
        if call in calls {
          var err := repo.Update(calls[call].writes, faults);
          calls := calls - {call};
          reply := if err.Some? then Refused(err.value) else Acknowledged;
        }
      case Lookup(handler, faults) =>
        var found := getAlive.Execute(handler, faults);
        reply := if found.Err? then Refused(found.error) else Found(found.value);
    }

    /**
     One part of a call: the step of the state machine, and the reply that tells how it went. It is an error
     exactly when a query, scan, statement or commit that the call reaches fails, and then the table is as
     it was.
     */
    method Handle(r: Request) returns (reply: Reply)
      requires Valid()
      modifies this, repo.db
      ensures Valid()
      ensures State() == Master.Next(old(State()), StepOf(old(State()), r))
      ensures Replies(old(State()), r, reply)
      ensures reply.Refused? ==> repo.db.rows == old(repo.db.rows)
      ensures reply.Refused? <==> match r {
        case Register(_, _, handlers, faults) =>
          faults.commit || exists k :: 0 <= k < |handlers| && k in faults.statements
        case BeginUnregister(_, serviceId, faults) =>
          faults.query || exists k :: 0 <= k < |ByInstance(old(repo.db.rows), serviceId)| && k in faults.scans
        case FinishUnregister(call, faults) =>
          && call in old(calls)
          && (faults.commit || exists k :: 0 <= k < |old(calls)[call].writes| && k in faults.statements)
        case Lookup(handler, faults) =>
          faults.query || exists k :: 0 <= k < |AliveUrls(old(repo.db.rows), handler)| && k in faults.scans
      }
    {
      reply := Dispatch(r);
      RefusedIffFaulty(old(State()), r, reply);
    }

    /** The request at position k, after those before it. */
    method HandleNext(ghost start: Master.State, requests: seq<Request>, k: nat) returns (reply: Reply)
      requires Valid() && k < |requests|
      requires State() == Master.Run(start, StepsOf(start, requests[..k]))
      modifies this, repo.db
      ensures Valid()
      ensures State() == Master.Run(start, StepsOf(start, requests[..k + 1]))
      ensures RepliesAt(start, requests, k, reply)
    {
      RunOfNext(start, requests, k);
      reply := Handle(requests[k]);
    }

    /**
     Every interleaving of calls, with faults anywhere, is a run of the state machine, and every reply
     is the right one for the state in which its request was served.
     */
    method Serve(requests: seq<Request>) returns (replies: seq<Reply>)
      requires Valid()
      modifies this, repo.db
      ensures Valid()
      ensures State() == Master.Run(old(State()), StepsOf(old(State()), requests))
      ensures |replies| == |requests|
      ensures forall k :: 0 <= k < |requests| ==> RepliesAt(old(State()), requests, k, replies[k])
    {
      ghost var start := State();
      replies := [];
      for k := 0 to |requests|
        invariant Valid()
        invariant State() == Master.Run(start, StepsOf(start, requests[..k]))
        invariant |replies| == k
        invariant forall j :: 0 <= j < k ==> RepliesAt(start, requests, j, replies[j])
      {
        var reply := HandleNext(start, requests, k);
        replies := replies + [reply];
      }
      assert requests[..|requests|] == requests;
    }
  }
}
