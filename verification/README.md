# Verified model of service discovery and gateway composition

A Dafny model of the two cooperating halves of the repository: the discovery service (a master that
keeps a table of service handlers, and agents that register, watch and unregister one service instance
each) and the gRPC gateway that looks a service up, calls every url it finds and merges the answers.

Check it with `dafny verify dfyconfig.toml`.

## How it is built

| module | models |
|---|---|
| `Registry` | the ServiceHandler table and what each SQL statement does to it |
| `Repository` | the database with its open transaction, and the repository's batches, imperatively, with a fault possible at every statement, scan and commit |
| `UseCases`, `Server` | the master's use cases over the repository, and the running master with its unregister calls in flight |
| `Master` | the master as a state machine whose steps are transactions and queries, in any interleaving |
| `Handoff` | the two-goroutine, two-channel hand-off shared by the agent's clients |
| `WatchService`, `Reflection` | the two clients as instances of that hand-off |
| `Agent`, `HandleServices` | the agent's `Execute` as two goroutines with the quit channel, and as one sequential run |
| `System`, `Discovery` | any number of agents against one master, and the imperative server driven by them |
| `AgentProcess` | an agent together with its hand-off goroutines and the streams they read |
| `Merge`, `ChannelFactory`, `Gateway` | response merging, the channel cache, and the request end to end |

The chain of results is: the imperative `Server.DiscoveryServer.Serve` performs runs of `Master`, whatever
fails and however calls interleave; driven by the calls of any run of `System`, it reaches that run's
master, its table refines the run's set of live (instance, url, handler) triples, and the lookups it
answers on the way are right (`Discovery.ServeAgents`, with `System.MasterRuns`, `System.RunRefines`);
and a gateway request against such a table succeeds exactly when its lookups do, and then calls exactly
the offered urls and composes their answers (`Gateway.ServeInReachableState`, `Gateway.ServeRequest`).

## Properties that hold only under a condition

The code does not meet these in general. Each is proved as an equivalence with the exact condition.

- The unregister call reads in one query and writes back in a later transaction. It equals an atomic
  unregister at its write if and only if every registration of the same instance that commits in between
  is followed, still in between, by another call's read of the instance and that call's write
  (`Master.UnregisterAtomicIffRegistrationsSwept`; a run on which it fails is
  `Master.LateRegistrationSurvives`). Agents never register again, so for them it is always atomic
  (`System.AgentUnregisterIsAtomic`).
- The reply depends on the order in which the DISTINCT query lists the urls, unless any two answers
  that both set a field agree on it; then and only then it does not (`Merge.OrderIndependentIffCompatible`,
  `Gateway.ReplyIndependentOfLookupOrder`; a table with two answers that give different replies is
  `Gateway.LookupOrderMatters`).
- A run in which nothing can move any more has ended `Execute`, unless the registration was acknowledged
  and reflection named no service: then, and only then, it has left `Execute` blocked on its quit channel
  (`Agent.ExecuteEnds`). Reflection names no service with an empty list, and also with a reply that
  carries neither response nor error (`AgentProcess.BlocksIff`, `Agent.EmptyReflectionBlocks`). An agent
  whose service stays healthy waits on quit too, but its watch goes on
  (`AgentProcess.HealthyAgentNeverUnregisters`).
- `WatchService` and `GetImplementedServices` can return if and only if their stream holds an event that
  ends the receive loop; on EOFs alone (for the watch also SERVING responses) they receive for ever
  (`WatchService.WatchReturnsIff`, `Reflection.ReflectionReturnsIff`).
- `GetImplementedServices` can dereference nil if and only if the first event other than EOF carries
  another message than a service list (`Reflection.CanPanicIff`; a run on which it does is
  `Reflection.OtherMessagePanics`).
- When an agent has come to its end, its instance stays listed for ever if and only if the master
  committed its registration and not its unregister call. The error of the unregister call is dropped, and
  a register call whose reply was lost may have committed (`System.ListingIsFinal`; a run on which a failed
  execution stays listed is `System.LostReplyStaysListed`).

## Assumptions

- The table is listed by its integer primary key, and SQLite generates the largest key plus one. This is
  the schema in the database file shipped at `discovery-service/master/adapter/database/sqlite.db`. Keys are
  unbounded here. A query without ORDER BY on this table scans it in key order; the DISTINCT query may
  answer in any order.
- A transaction is one atomic step. Beginning one succeeds, since its error is dropped. A failed commit
  publishes nothing and is followed by a rollback.
- Iterating over result rows ends only at the last row, since the error of the iteration is not looked at.
- Instance ids are fresh per agent, as they are random UUIDs.
- A gRPC call may lose its reply: the agent then sees an error while the master may still run or have
  committed the call. An agent that crashes is one that takes no further step.
- Every register and unregister call of an agent returns in the end, with an error if need be, although the
  calls have no deadline: an agent that waits for one can still move. So does every watch in `Agent`, while
  in `AgentProcess` a watch returns only when its stream makes it.
- Within one request the outcome of a call is a function of the url, which is called once.

## Model

| member | source | states |
|---|---|---|
| Registry.InsertAllAppends | discovery-service/master/adapter/repository/service_handler_repository.go:21-27 | a committed insert keeps all rows and appends the batch in order, alive, under consecutive fresh keys, whatever flag the entities carry |
| Registry.UpdateAllAt | discovery-service/master/adapter/repository/service_handler_repository.go:39-48 | after a batch of full-column updates a row is the last entity of the batch with its key, or untouched |
| Registry.UpdateAllTakesLast | discovery-service/master/adapter/repository/service_handler_repository.go:39-48 | of several entities of a batch with the same key the last one stands |
| Registry.UpdateAllTouchesOnlyBatch | discovery-service/master/adapter/repository/service_handler_repository.go:39-48 | an update changes exactly the rows whose key occurs in the batch, adds none and moves no key |
| Registry.WriteBackMarks | discovery-service/master/usecases/unregister_service.go:24-29 | writing every column of marked copies back amounts to clearing IsAlive in the copied rows only |
| Registry.WriteBackOfSnapshot | discovery-service/master/usecases/unregister_service.go:18-29 | read, mark and write back with nothing in between marks every row of the instance and no other |
| Registry.ByInstanceSelects | discovery-service/master/adapter/repository/service_handler_repository.go:60 | the query by service id returns the rows of the instance and no others, dead ones included |
| Registry.ByInstanceKeepsOrder | discovery-service/master/adapter/repository/service_handler_repository.go:60 | it returns them in key order, so each once |
| Repository.FirstFaultIsLeast | discovery-service/master/adapter/repository/service_handler_repository.go:21-26 | the error a batch reports is that of the least failing position |
| Repository.WriteErrorIff | discovery-service/master/adapter/repository/service_handler_repository.go:19-35 | a batch fails iff one of its statements or its commit does, with the first failing statement, or else with the commit |
| Repository.ReadErrorIff | discovery-service/master/adapter/repository/service_handler_repository.go:58-75 | a query fails iff it itself or the scan of one of its rows does, and which error is reported |
| Repository.Database.QueryDistinct | discovery-service/master/adapter/repository/service_handler_repository.go:78 | the lookup query returns each url of a live row of the handler once, in some order |
| Repository.ServiceHandlerRepository.Insert | discovery-service/master/adapter/repository/service_handler_repository.go:19-35 | for every batch and every failing position, the commit included: the whole batch or the table exactly as before, and which error |
| Repository.ServiceHandlerRepository.Update | discovery-service/master/adapter/repository/service_handler_repository.go:37-56 | the same atomicity for updates |
| Repository.ServiceHandlerRepository.GetByServiceId | discovery-service/master/adapter/repository/service_handler_repository.go:58-75 | all rows of the instance in key order, or the first query or scan error and no rows |
| Repository.ServiceHandlerRepository.GetAliveServices | discovery-service/master/adapter/repository/service_handler_repository.go:77-95 | exactly the alive urls of the handler, each once, or the first error |
| UseCases.RegisterServiceUseCase.Execute | discovery-service/master/usecases/register_service.go:17-30 | one live row per handler for the request's url and instance, in one batch, or no change |
| UseCases.UnregisterServiceUseCase.ReadAndMark | discovery-service/master/usecases/unregister_service.go:18-27 | the marked copies of exactly the instance's rows, or the read error |
| UseCases.UnregisterServiceUseCase.Execute | discovery-service/master/usecases/unregister_service.go:17-35 | without interference an atomic unregister of the instance, or no change, for every fault |
| UseCases.GetAliveServicesUseCase.Execute | discovery-service/master/usecases/get_alive_services.go:16-23 | the alive urls of the definition, each once, or the error |
| Server.DiscoveryServer.Handle | discovery-service/master/adapter/http2/grpc_server.go:29-39 | each part of a register, unregister or lookup call, under any faults, is the corresponding step of the state machine, and its reply is an error exactly when the step aborts, and which one |
| Server.DiscoveryServer.Serve | discovery-service/master/adapter/http2/grpc_server.go:29-39 | every interleaving of calls, lookups included, with faults anywhere is a run of the state machine, and each reply is right for the state in which its request was served |
| Server.RefusedIffFaulty | discovery-service/master/adapter/http2/grpc_server.go:29-39 | a request is refused iff a query, scan, statement or commit that it reaches fails, with the first such error and the table as it was; otherwise it has its full effect and the caller is told so |
| Server.ServedTruly | discovery-service/master/adapter/http2/grpc_server.go:29-39 | at every position of every interleaving the reply is the right one, and a refused request leaves the table as those before it left it |
| Discovery.ServeAgents | discovery-service/master/adapter/http2/grpc_server.go:29-39 | serving the calls of any run of the agents, with any faults that make them come out so and lookups among them, the imperative server reaches the master of that run, its table refines the set of live triples, every reply is an error exactly when its request met a fault, and every answered lookup lists exactly the urls offered at the point reached, each once |
| Discovery.EveryRunCanBeServed | discovery-service/master/adapter/http2/grpc_server.go:29-39 | for every run of the agents there are requests and faults that drive the server through it |
| Master.NoResurrection | discovery-service/master/usecases/unregister_service.go:23-29 | over every run no row is deleted, no column but IsAlive changes, no dead row comes back, and every pending snapshot row agrees with the current row of its key |
| Master.WriteOnlyMarks | discovery-service/master/usecases/unregister_service.go:29 | the write-back of a pending call loses no concurrent update and touches only rows of its own instance |
| Master.UnregisterAtomicIff | discovery-service/master/usecases/unregister_service.go:17-35 | with any steps between read and write, the call equals an atomic unregister at its write iff no live row of the instance was added since the read |
| Master.UnregisterAtomicIffRegistrationsSwept | discovery-service/master/usecases/unregister_service.go:17-35 | with any steps in between, other unregisters of the instance included, it is atomic at its write iff every registration of the instance in between is followed, still in between, by another call's effective read of the instance and that call's successful write |
| Master.UnregisterAtomicWithoutRegistration | discovery-service/master/usecases/unregister_service.go:17-35 | with no registration of the instance in between it is atomic, whatever other calls read and write |
| Master.MissedRowIffRegistrationRemains | discovery-service/master/usecases/unregister_service.go:18-29 | a live row of the instance escapes the snapshot exactly when a registration commits after the read that no later read and write of another call takes down |
| Master.RowFate | discovery-service/master/usecases/unregister_service.go:18-29 | over every run a live row dies exactly if some call reads its instance after it was there and then successfully writes |
| Master.LateRegistrationSurvives | discovery-service/master/usecases/unregister_service.go:18-29 | a concrete run on which the call is not atomic and the url stays listed |
| Handoff.Safety | discovery-service/agent/adapter/client/healthcheck_client.go:29-49 | under every schedule no send meets a closed channel, a returned receiver leaves no pending send, and both values it took belong to the first stopping event |
| Handoff.NoDeadlock | discovery-service/agent/adapter/client/healthcheck_client.go:34-49 | until both goroutines are finished one of them can move |
| Handoff.Bounded | discovery-service/agent/adapter/client/healthcheck_client.go:35-49 | a measure of events before the stop plus hand-off phases bounds every schedule |
| Handoff.ReturnsIff | discovery-service/agent/adapter/client/healthcheck_client.go:35-49 | some schedule returns iff some event stops the receive loop |
| WatchService.ReturnsFirstFailure | discovery-service/agent/adapter/client/healthcheck_client.go:29-49 | the returned error is exactly the one paired with the first non-SERVING response or non-EOF error, which is none for a NOT_SERVING response that arrives well |
| WatchService.WatchReturnsIff | discovery-service/agent/adapter/client/healthcheck_client.go:35-49 | the watch can return iff the stream holds a non-SERVING response or a non-EOF error |
| WatchService.WatchTerminates | discovery-service/agent/adapter/client/healthcheck_client.go:35-49 | with a non-SERVING response or non-EOF error at n every schedule has at most n + 11 steps and a maximal one has returned with its goroutine gone |
| WatchService.HealthyServiceIsWatchedForever | discovery-service/agent/adapter/client/healthcheck_client.go:36-44 | on SERVING and EOF events only, every reachable state is still receiving |
| WatchService.ReceiveLoop | discovery-service/agent/adapter/client/healthcheck_client.go:35-44 | the loop stops exactly at the first non-SERVING response or non-EOF error among the events that have arrived, if any |
| Reflection.OutcomeOfFirstEvent | discovery-service/agent/adapter/client/reflection_client.go:29-64 | under every schedule, also after a failed send, no send on a closed channel, and the outcome is that of the first non-EOF event |
| Reflection.ReflectionReturnsIff | discovery-service/agent/adapter/client/reflection_client.go:39-53 | the call can return iff some event does not carry EOF |
| Reflection.ReflectionTerminates | discovery-service/agent/adapter/client/reflection_client.go:35-64 | schedules are bounded and maximal ones have returned and left no goroutine, early exit included |
| Reflection.OutcomeIff | discovery-service/agent/adapter/client/reflection_client.go:51-64 | for every schedule on which the call returns: exactly when it dereferences nil, hands out names, hands out an error, or reports success without a name, by the first non-EOF event |
| Reflection.CanPanicIff | discovery-service/agent/adapter/client/reflection_client.go:60 | some schedule dereferences nil iff the first non-EOF event carries another message than a service list |
| Reflection.OtherMessagePanics | discovery-service/agent/adapter/client/reflection_client.go:60 | a concrete stream and schedule on which it does |
| Reflection.CollectNames | discovery-service/agent/adapter/client/reflection_client.go:59-62 | the names in the order of the reply |
| Agent.TraceShape | discovery-service/agent/use_cases/handle_services_use_case.go:28-66 | for every outcome and schedule the calls are a prefix of Reflect, Register, Watch(first service), Unregister; Unregister only after a committed registration; no send on the closed quit |
| Agent.ExecuteEnds | discovery-service/agent/use_cases/handle_services_use_case.go:46-65 | every run has at most 18 acts; a maximal one is over or blocked, and blocked iff no service was named and the registration was acknowledged |
| Agent.EmptyReflectionBlocks | discovery-service/agent/use_cases/handle_services_use_case.go:49-63 | each reply that counts as success without names leads to a blocked run |
| HandleServices.Execute | discovery-service/agent/use_cases/handle_services_use_case.go:28-66 | the sequential code makes the calls of a maximal run of the state machine, in order, stores the names, and reports the run's end and what became of both calls on the master; it blocks exactly for an acknowledged registration of no services |
| HandleServices.AwaitWorker | discovery-service/agent/use_cases/handle_services_use_case.go:49-65 | the loop watches the first service only and then unregisters, the return is error-free iff there is a service, and the unregister has committed iff its read and its write went through |
| AgentProcess.HealthyAgentNeverUnregisters | discovery-service/agent/use_cases/handle_services_use_case.go:49-57 | with a watch stream of SERVING responses and EOFs only, under every schedule of all its goroutines an agent never unregisters and never returns without an error, and once its registration is acknowledged it does not return at all |
| AgentProcess.HealthyServiceStaysListed | discovery-service/agent/use_cases/handle_services_use_case.go:39-58 | such an agent's url is listed for each of its services in every state reached after its acknowledged registration, whatever the others do |
| AgentProcess.FailedReflectionIsReported | discovery-service/agent/adapter/client/reflection_client.go:24-38 | when the reflection stream cannot be opened or the request not be sent, Execute returns no other error than that one and makes no further call, under every schedule |
| AgentProcess.ProcessEnds | discovery-service/agent/use_cases/handle_services_use_case.go:28-66 | with a non-EOF reflection event at m and a terminating watch event at n, every run of Execute and both hand-offs has at most m + n + 40 steps, and a maximal one has ended or is blocked |
| AgentProcess.NoGoroutineLeft | discovery-service/agent/use_cases/handle_services_use_case.go:46-65 | a maximal run leaves neither the worker nor a hand-off goroutine behind, even when Execute stays blocked |
| AgentProcess.BlocksIff | discovery-service/agent/use_cases/handle_services_use_case.go:46-65 | a maximal run is blocked iff the registration was acknowledged and the first non-EOF reflection event named no service |
| System.MasterRuns | discovery-service/master/adapter/http2/grpc_server.go:29-39 | the master of every system run performs a run of the master's state machine |
| System.RowsStay | discovery-service/master/usecases/unregister_service.go:23-29 | from every reachable state on, rows stay and dead ones stay dead |
| System.RunRefines | discovery-service/master/adapter/repository/service_handler_repository.go:19-95 | over every interleaving, with aborts and lost replies, the table refines the set of live triples |
| System.LookupAnswers | discovery-service/master/adapter/repository/service_handler_repository.go:77-95 | every answer to a lookup, in whatever order, lists exactly the urls of instances whose registration stands |
| System.ListedIffOffered | discovery-service/master/adapter/repository/service_handler_repository.go:78 | a shared url is listed exactly as long as one instance that registered it has not committed its unregister |
| System.RemovingOneInstance | discovery-service/master/usecases/unregister_service.go:29 | removing one instance keeps a url listed iff another listed instance shares it |
| System.WatchedIsDiscoverable | discovery-service/agent/use_cases/handle_services_use_case.go:39-58 | between the acknowledged registration and the committed unregister the url is listed for each of the agent's services |
| System.AgentUnregisterIsAtomic | discovery-service/master/usecases/unregister_service.go:17-35 | for agents the two-step unregister is atomic at its write in every reachable state |
| System.ListingIsFinal | discovery-service/agent/use_cases/handle_services_use_case.go:39-65 | however an execution ended, a lost register reply included: once nothing of the agent can move its triples are live for ever iff the master committed the registration and not the unregister, and dead for good otherwise |
| System.LostReplyStaysListed | discovery-service/agent/use_cases/handle_services_use_case.go:39-44 | a concrete run on which Execute returns the register error and its url stays listed in every later state |
| System.AgentsRunAlone | discovery-service/agent/cmd/main.go:32-73 | an agent's state depends on its own events only |
| System.InterleavingDoesNotMatter | discovery-service/master/usecases/unregister_service.go:17-35 | interleavings with the same per-agent histories give the same live triples and the same answer for every handler |
| System.NeighboursCommute | discovery-service/master/usecases/unregister_service.go:17-35 | in any run two neighbouring events of different agents can be swapped: the result is a run, with the same live triples and the same answer for every handler |
| Merge.SearchResponse.MergeFrom | grpc-gateway/src/Utils.Grpc/contract/cityinformation.proto:16-20 | a non-empty field of the source overwrites the target's, an empty one leaves it |
| Merge.MergeAllResults | grpc-gateway/src/Utils.Grpc/src/Utils.Grpc/Extensions/GrpcCallExtensions.cs:27-38 | a new message holding the ordered fold, leaving the results alone |
| Merge.MergeAllIsHomomorphism | grpc-gateway/src/Utils.Grpc/src/Utils.Grpc/Extensions/GrpcCallExtensions.cs:32-35 | the fold of a concatenation is the merge of the folds |
| Merge.MergeAllTakesLast | grpc-gateway/src/Utils.Grpc/src/Utils.Grpc/Extensions/GrpcCallExtensions.cs:32-35 | each field is the last non-empty value in order |
| Merge.MergeAllNonEmptyIff | grpc-gateway/src/Utils.Grpc/src/Utils.Grpc/Extensions/GrpcCallExtensions.cs:32-35 | a field is non-empty iff some result sets it, and then has the value of one that does |
| Merge.FailuresAreIsolated | grpc-gateway/src/GrpcGateway/Services/CityInformationService.cs:42-47 | empty responses for failed calls give the fold of the successful responses alone |
| Merge.OrderIndependentIffCompatible | grpc-gateway/src/Utils.Grpc/src/Utils.Grpc/Extensions/GrpcCallExtensions.cs:27-38 | every permutation of the results gives the same message iff any two that both set a field agree on it |
| ChannelFactory.ChannelFactory.Initialize | grpc-gateway/src/Utils.Grpc/src/Utils.Grpc/Factory/ChannelFactory.cs:35-45 | caches exactly the handlers looked up before the first failure, and fails exactly at the first failed or empty lookup |
| ChannelFactory.SeenIff | grpc-gateway/src/Utils.Grpc/src/Utils.Grpc/Factory/ChannelFactory.cs:35-45 | a handler is cached by the initialization iff some lookup returns it, and that one and all before it are answered |
| ChannelFactory.ChannelFactory.RegisterHandlers | grpc-gateway/src/Utils.Grpc/src/Utils.Grpc/Factory/ChannelFactory.cs:47-54 | adds exactly the missing handlers, under new channels, and replaces no entry |
| ChannelFactory.ChannelFactory.GetChannel | grpc-gateway/src/Utils.Grpc/src/Utils.Grpc/Factory/ChannelFactory.cs:66-78 | the cached channel of the handler, created if missing, after at most one recursive call |
| ChannelFactory.ChannelFactory.Enumerate | grpc-gateway/src/Utils.Grpc/src/Utils.Grpc/Factory/ChannelFactory.cs:59-78 | one enumeration yields the cached channel of each handler in order, and leaves the cache alone when all handlers are cached |
| ChannelFactory.ChannelFactory.EnumerateTwice | grpc-gateway/src/Utils.Grpc/src/Utils.Grpc/Factory/ChannelFactory.cs:59-64 | enumerating the lazy result twice yields the same channel objects both times, in handler order |
| ChannelFactory.ChannelFactory.ServeLookups | grpc-gateway/src/Utils.Grpc/src/Utils.Grpc/Factory/ChannelFactory.cs:59-78 | over any sequence of lookups the keys are exactly those seen, each leads to itself, and equal urls get the same channel object throughout, so no entry is ever replaced |
| Gateway.CityInformationService.GetCityInformation | grpc-gateway/src/GrpcGateway/Services/CityInformationService.cs:19-57 | calls each url of the lookup in order and returns the fold, in which each field is the last non-empty answer in that order, or the exception of a failed or null lookup with nothing called |
| Gateway.ReplyTakesLast | grpc-gateway/src/GrpcGateway/Services/CityInformationService.cs:28-51 | for every list of urls, the last one that answers a field with something decides the field |
| Gateway.Serve | grpc-gateway/src/Utils.Grpc/src/Utils.Grpc/DiscoveryClient/DiscoveryServiceClient.cs:30-41 | a request against the running master succeeds iff neither the query of its lookup nor the scan of a row fails, and then calls exactly the alive urls, each once; otherwise it calls nothing |
| Gateway.ServeInReachableState | grpc-gateway/src/GrpcGateway/Services/CityInformationService.cs:19-57 | when the master is in any state that a run of the agents reaches, a request succeeds iff neither the query of its lookup nor the scan of a row fails, failed calls notwithstanding; it then calls each url that a listed instance offers exactly once however many instances share it, and nothing else, and a field of the returned message is non-empty iff some offered url answers with it |
| Gateway.ServeRequest | grpc-gateway/src/Utils.Grpc/src/Utils.Grpc/Factory/ChannelFactory.cs:26-45 | with the factory built for the request: it succeeds exactly when every initial lookup and its own succeed, with the calls and the message as above, and otherwise the first lookup that fails decides the error and nothing is called |
| Gateway.EndToEnd | grpc-gateway/src/GrpcGateway/Services/CityInformationService.cs:19-57 | in every reachable state and for every order of the lookup, the composition over the answered urls has exactly the fields that offered urls answer with |
| Gateway.ReplyIndependentOfLookupOrder | grpc-gateway/src/GrpcGateway/Services/CityInformationService.cs:22-51 | the reply is the same for every order of the lookup iff the alive urls' answers agree where they overlap |
| Gateway.LookupOrderMatters | grpc-gateway/src/GrpcGateway/Services/CityInformationService.cs:22-51 | a table and backends for which two orders of the lookup give different replies |
| Gateway.ReplyIndependentOfInterleaving | grpc-gateway/src/GrpcGateway/Services/CityInformationService.cs:22-51 | with agreeing answers, two interleavings of the same agent histories give the same reply |

## Left out

- gRPC, TCP, SQLite and protobuf wire code and the generated stubs: calls and statements are steps with an outcome.
- Watching every implemented service: the code returns after the first, so no coverage of the others is claimed.
- Detecting dead agents: a crashed agent, a lost register reply or a failed unregister leaves live rows behind.
- Channel interception: the factory discards the intercepted invoker, so it has no effect on the channel.
- Logging, metrics and correlation ids: they do not influence any result here.
- Races inside the concurrent dictionary: the factory is scoped to one request, so the cache is sequential.
- Interleaving of the fan-out's calls: each result depends on its own url only, and the merge waits for all of them.
- The population, weather and nearby-cities services, charts and scripts: single calls to external data, and configuration.
- Repository.Database.QueryDistinct: the row order within SQLite's DISTINCT is left open rather than modelled.
