/** The agent's use case as one sequential run, in the shape of its code. */
module HandleServices {
  import opened Common
  import opened Agent
  import Reflection

  class Service {
    const url: string
    const name: string
    const id: string
    var services: seq<string>

    constructor (url: string, name: string, id: string)
      ensures this.url == url && this.name == name && this.id == id && services == []
    {
      this.url, this.name, this.id, this.services := url, name, id, [];
    }

    method SetServices(services: seq<string>)
      modifies this
      ensures this.services == services
    {
      this.services := services;
    }
  }

  /** A register call: acknowledged, or an error for the agent, whatever the master made of the call. */
  datatype RegisterResult = Acknowledged | Error(committed: bool)

  /** What the calls of one execution come to. */
  datatype Environment = Environment(
    reflection: Reflection.Outcome,
    register: RegisterResult,
    unregisterReads: bool,
    unregisterWrites: bool)

  datatype Execution = Ends(err: Option<Failure>) | Panics | Blocks

  /** What the result says about the state in which a run ended. */
  predicate Describes(result: Execution, a: Agent) {
    match result
    case Ends(err) => a.main == Returned(err) && Over(a)
    case Panics => a.main.Crashed? && Over(a)
    case Blocks => Stuck(a)
  }

  /** Reflection came back with names, possibly none. */
  predicate Named(env: Environment) {
    env.reflection.Returned? && env.reflection.err.None?
  }

  /** What the master has made of the two calls when everything has come to rest. */
  predicate Settles(a: Agent, env: Environment) {
    && (Named(env) ==> a.services == env.reflection.services)
    && (Named(env) ==> (a.register.Committed? <==> env.register.Acknowledged? || env.register.committed))
    && (a.unregister.Committed? <==> Unregister in a.trace && env.unregisterReads && env.unregisterWrites)
  }

  /**
   Execute does one run of the state machine, to a state in which nothing can move any more: it makes
   the calls of that run in order, leaves the service names in the entity, and what it returns says
   where the run has ended. The unregister call is made whenever there is a service to watch.
   */
  method Execute(service: Service, env: Environment)
    returns (result: Execution, calls: seq<Call>, ghost acts: seq<Act>)
    modifies service
    ensures Runs(NewAgent(service.url), acts)
    ensures var a := After(NewAgent(service.url), acts);
      && Quiescent(a) && Describes(result, a) && calls == a.trace && Settles(a, env)
      && (a.register.Committed? <==>
            Register in calls && (env.register.Acknowledged? || env.register.committed))
      && (a.unregister.Committed? <==> Unregister in calls && env.unregisterReads && env.unregisterWrites)
    ensures service.services == if Named(env) then env.reflection.services else old(service.services)
    ensures result == match env.reflection {
      case Panicked => Panics
      case Returned(_, Some(err)) => Ends(Some(ReflectionFailed(err)))
      case Returned(names, None) =>
        if env.register.Error? then Ends(Some(RegisterFailed)) else if names == [] then Blocks else Ends(None)
    }
    ensures calls == match env.reflection {
      case Panicked => [Reflect]
      case Returned(_, Some(_)) => [Reflect]
      case Returned(names, None) =>
        if env.register.Error? || names == [] then [Reflect, Register]
        else [Reflect, Register, Watch(names[0]), Unregister]
    }
  {
    ghost var a0 := NewAgent(service.url);
    calls := [Reflect];
    acts := Do(a0, [], ReflectReturns(env.reflection));
    if env.reflection.Panicked? {
      return Panics, calls, acts;
    }
    if env.reflection.err.Some? {
      return Ends(Some(ReflectionFailed(env.reflection.err.value))), calls, acts;
    }
    service.SetServices(env.reflection.services);
    result, calls, acts := RegisterAndWatch(service, env, calls, a0, acts);
  }

  /** The part of Execute after the names are known. */
  method RegisterAndWatch(service: Service, env: Environment, made: seq<Call>, ghost a0: Agent, ghost acts: seq<Act>)
    returns (result: Execution, calls: seq<Call>, ghost more: seq<Act>)
    requires Named(env) && service.services == env.reflection.services
    requires Runs(a0, acts)
    requires var a := After(a0, acts);
      && a.services == service.services && a.main.AtRegister? && a.worker.NotStarted? && !a.quitClosed
      && a.register.Unsent? && a.unregister.Unsent? && a.trace == made == [Reflect]
    ensures Runs(a0, more)
    ensures var a := After(a0, more);
      Quiescent(a) && Describes(result, a) && calls == a.trace && Settles(a, env)
    ensures calls ==
      if env.register.Error? || service.services == [] then [Reflect, Register]
      else [Reflect, Register, Watch(service.services[0]), Unregister]
    ensures result ==
      if env.register.Error? then Ends(Some(RegisterFailed))
      else if service.services == [] then Blocks
      else Ends(None)
  {
    calls := made + [Register];
    more := CallRegister(env, a0, acts);
    if env.register.Error? {
      SettledIsQuiescent(After(a0, more));
      return Ends(Some(RegisterFailed)), calls, more;
    }
    more := Do(a0, more, StartWorker);
    result, calls, more := AwaitWorker(service, env, calls, a0, more);
  }

  /** The register call: the master commits it or not, and the agent is told or not. */
  ghost method CallRegister(env: Environment, a0: Agent, acts: seq<Act>) returns (more: seq<Act>)
    requires Runs(a0, acts)
    requires var a := After(a0, acts);
      a.main.AtRegister? && a.worker.NotStarted? && a.register.Unsent?
    ensures Runs(a0, more)
    ensures var a, a' := After(a0, acts), After(a0, more);
      a' == a.(
        main := if env.register.Acknowledged? then AtSpawn else Returned(Some(RegisterFailed)),
        register := if env.register.Acknowledged? || env.register.committed then Committed else Aborted,
        trace := a.trace + [Register])
  {
    more := Do(a0, acts, SendRegister);
    more := Do(a0, more, RegisterTx(env.register.Acknowledged? || env.register.committed));
    more := Do(a0, more, RegisterReply(env.register.Acknowledged?));
  }

  /** The goroutine's loop, whose body returns in its first turn, and the receive from quit. */
  method AwaitWorker(service: Service, env: Environment, made: seq<Call>, ghost a0: Agent, ghost acts: seq<Act>)
    returns (result: Execution, calls: seq<Call>, ghost more: seq<Act>)
    requires Runs(a0, acts)
    requires var a := After(a0, acts);
      && a.services == service.services && a.main.AwaitQuit? && a.worker.AtLoop? && !a.quitClosed
      && a.register.Committed? && a.unregister.Unsent? && a.trace == made == [Reflect, Register]
    ensures Runs(a0, more)
    ensures var a := After(a0, more);
      && Quiescent(a) && Describes(result, a) && calls == a.trace
      && a.services == service.services && a.register.Committed?
      && (a.unregister.Committed? <==> service.services != [] && env.unregisterReads && env.unregisterWrites)
    ensures calls == made + if service.services == [] then [] else [Watch(service.services[0]), Unregister]
    ensures result == if service.services == [] then Blocks else Ends(None)
  {
    calls := made;
    more := Do(a0, acts, EnterLoop);
    ghost var entered := more;
    for k := 0 to |service.services|
      invariant k == 0 && more == entered && calls == made
    {
      calls := calls + [Watch(service.services[k])] + [Unregister];
      more := WatchThenUnregister(env, a0, more);
      more := Do(a0, more, CloseQuit);
      SettledIsQuiescent(After(a0, more));
      return Ends(None), calls, more;
    }
    SettledIsQuiescent(After(a0, more));
    result := Blocks;
  }

  /** The loop body: watch, unregister whatever the watch returned, and hand over quit. */
  ghost method WatchThenUnregister(env: Environment, a0: Agent, acts: seq<Act>) returns (more: seq<Act>)
    requires Runs(a0, acts)
    requires var a := After(a0, acts);
      a.worker.AtWatch? && a.main.AwaitQuit? && !a.quitClosed && a.register.Committed?
    ensures Runs(a0, more)
    ensures var a, a' := After(a0, acts), After(a0, more);
      && a'.main.AtClose? && a'.worker.Exited? && a'.services == a.services && a'.register.Committed?
      && a'.unregister == (if env.unregisterReads && env.unregisterWrites then Committed else Aborted)
      && a'.trace == a.trace + [Unregister]
  {
    more := Do(a0, acts, WatchReturns);
    more := Do(a0, more, SendUnregister);
    more := Do(a0, more, UnregisterRead(env.unregisterReads));
    if env.unregisterReads {
      more := Do(a0, more, UnregisterWrite(env.unregisterWrites));
    }
    more := Do(a0, more, UnregisterReply);
    more := Do(a0, more, HandQuit);
  }

  /** Records one more act of a run. */
  ghost method Do(a: Agent, acts: seq<Act>, act: Act) returns (more: seq<Act>)
    requires Runs(a, acts) && Enabled(After(a, acts), act)
    ensures Runs(a, more) && After(a, more) == Next(After(a, acts), act)
  {
    Extend(a, acts, act);
    more := acts + [act];
  }
}
