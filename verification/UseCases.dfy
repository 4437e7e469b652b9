/** The use cases of the master, each one gRPC call, over the repository. */
module UseCases {
  import opened Common
  import opened Registry
  import opened Repository

  class RegisterServiceUseCase {
    const repo: ServiceHandlerRepository

    constructor (repo: ServiceHandlerRepository)
      ensures this.repo == repo
    {
      this.repo := repo;
    }

    /** One live row per handler, in the order of the request, or no change at all. */
    method Execute(url: string, serviceId: string, handlers: seq<string>, faults: WriteFaults)
      returns (err: Option<SqlError>)
      requires repo.db.Idle()
      modifies repo.db
      ensures repo.db.Idle()
      ensures err == WriteError(|handlers|, faults)
      ensures faults.commit || (exists k :: 0 <= k < |handlers| && k in faults.statements) <==> err.Some?
      ensures repo.db.rows ==
        if err.None? then InsertAll(old(repo.db.rows), Batch(url, serviceId, handlers)) else old(repo.db.rows)
    {
      var serviceHandlers: seq<ServiceHandler> := [];
      for k := 0 to |handlers|
        invariant serviceHandlers == Batch(url, serviceId, handlers)[..k]
      {
        serviceHandlers := serviceHandlers + [NewServiceHandler(url, serviceId, handlers[k])];
      }
      assert serviceHandlers == Batch(url, serviceId, handlers);
      err := repo.Insert(serviceHandlers, faults);
    }
  }

  class UnregisterServiceUseCase {
    const repo: ServiceHandlerRepository

    constructor (repo: ServiceHandlerRepository)
      ensures this.repo == repo
    {
      this.repo := repo;
    }

    /** The first half of the call: read the instance's rows and mark the copies. */
    method ReadAndMark(serviceId: string, faults: ReadFaults)
      returns (r: Result<seq<ServiceHandler>, SqlError>)
      ensures match ReadError(|ByInstance(repo.db.rows, serviceId)|, faults) {
        case Some(e) => r == Err(e)
        case None => r == Ok(MarkAll(ByInstance(repo.db.rows, serviceId)))
      }
    {
      var queryResult := repo.GetByServiceId(serviceId, faults);
      if queryResult.Err? {
        return Err(queryResult.error);
      }
      var serviceHandlers: seq<ServiceHandler> := [];
      for k := 0 to |queryResult.value|
        invariant serviceHandlers == MarkAll(queryResult.value)[..k]
      {
        serviceHandlers := serviceHandlers + [queryResult.value[k].MarkAsNotAlive()];
      }
      assert serviceHandlers == MarkAll(queryResult.value);
      r := Ok(serviceHandlers);
    }

    /** With nothing in between, the call is an atomic unregister or no change at all. */
    method Execute(serviceId: string, readFaults: ReadFaults, writeFaults: WriteFaults)
      returns (err: Option<SqlError>)
      requires repo.db.Idle()
      modifies repo.db
      ensures repo.db.Idle()
      ensures var n := |ByInstance(old(repo.db.rows), serviceId)|;
        && err == (if ReadError(n, readFaults).Some? then ReadError(n, readFaults) else WriteError(n, writeFaults))
        && (err.Some? <==>
              || readFaults.query || writeFaults.commit
              || exists k :: 0 <= k < n && (k in readFaults.scans || k in writeFaults.statements))
      ensures repo.db.rows ==
        if err.None? then MarkInstance(old(repo.db.rows), serviceId) else old(repo.db.rows)
    {
      ghost var n := |ByInstance(repo.db.rows, serviceId)|;
      ReadErrorIff(n, readFaults);
      WriteErrorIff(n, writeFaults);
      var r := ReadAndMark(serviceId, readFaults);
      if r.Err? {
        return Some(r.error);
      }
      err := repo.Update(r.value, writeFaults);
      WriteBackOfSnapshot(old(repo.db.rows), serviceId);
    }
  }

  class GetAliveServicesUseCase {
    const repo: ServiceHandlerRepository

    constructor (repo: ServiceHandlerRepository)
      ensures this.repo == repo
    {
      this.repo := repo;
    }

    /** The urls found for the definition, or the repository's error. */
    method Execute(serviceDefinition: string, faults: ReadFaults) returns (r: Result<seq<string>, SqlError>)
      ensures match ReadError(|AliveUrls(repo.db.rows, serviceDefinition)|, faults) {
        case Some(e) => r == Err(e)
        case None => r.Ok? && IsDistinctAnswer(r.value, repo.db.rows, serviceDefinition)
      }
    {
      var services := repo.GetAliveServices(serviceDefinition, faults);
      if services.Err? {
        return Err(services.error);
      }
      r := Ok(services.value);
    }
  }
}
