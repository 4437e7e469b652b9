/**
 One discovery agent: the use case Execute as two goroutines with the quit channel, and the two gRPC
 calls to the master as seen from both ends. The reply of a call may get lost, so the agent can see an
 error while the master still runs or has committed the call.
 */
module Agent {
  import opened Common
  import Reflection

  datatype Failure = ReflectionFailed(err: StreamError) | RegisterFailed

  datatype Main =
    | AtReflect
    | AtRegister
    | AwaitRegister
    | AtSpawn
    | AwaitQuit
    | AtClose
    | Returned(err: Option<Failure>)
    | Crashed

  datatype Worker =
    | NotStarted
    | AtLoop
    | AtWatch
    | AtUnregister
    | AwaitUnregister
    | AtSend
    | Exited

  /** How far the master is with a call; only an unregister call takes a snapshot. */
  datatype Rpc = Unsent | InFlight | SnapshotTaken | Committed | Aborted

  /** The calls an agent makes, in order. */
  datatype Call = Reflect | Register | Watch(service: string) | Unregister

  datatype Agent = Agent(
    url: string,
    services: seq<string>,
    main: Main,
    worker: Worker,
    quitClosed: bool,
    register: Rpc,
    unregister: Rpc,
    trace: seq<Call>)

  datatype Act =
    | ReflectReturns(outcome: Reflection.Outcome)
    | SendRegister
    | RegisterTx(ok: bool)
    | RegisterReply(ok: bool)
    | StartWorker
    | EnterLoop
    | WatchReturns
    | SendUnregister
    | UnregisterRead(ok: bool)
    | UnregisterWrite(ok: bool)
    | UnregisterReply
    | HandQuit
    | CloseQuit

  function NewAgent(url: string): Agent {
    Agent(url, [], AtReflect, NotStarted, false, Unsent, Unsent, [Reflect])
  }

  predicate Enabled(a: Agent, act: Act) {
    match act
    case ReflectReturns(_) => a.main.AtReflect?
    case SendRegister => a.main.AtRegister?
    case RegisterTx(_) => a.register.InFlight?
    case RegisterReply(ok) => a.main.AwaitRegister? && (ok ==> a.register.Committed?)
    case StartWorker => a.main.AtSpawn?
    case EnterLoop => a.worker.AtLoop?
    case WatchReturns => a.worker.AtWatch?
    case SendUnregister => a.worker.AtUnregister?
    case UnregisterRead(_) => a.unregister.InFlight?
    case UnregisterWrite(_) => a.unregister.SnapshotTaken?
    case UnregisterReply => a.worker.AwaitUnregister?
    case HandQuit => a.worker.AtSend? && a.main.AwaitQuit? && !a.quitClosed
    case CloseQuit => a.main.AtClose?
  }

  function Next(a: Agent, act: Act): Agent
    requires Enabled(a, act)
  {
    match act
    case ReflectReturns(Panicked) => a.(main := Crashed)
    case ReflectReturns(Returned(services, err)) =>
      if err.Some? then a.(main := Returned(Some(ReflectionFailed(err.value))))
      else a.(services := services, main := AtRegister)
    case SendRegister => a.(main := AwaitRegister, register := InFlight, trace := a.trace + [Register])
    case RegisterTx(ok) => a.(register := if ok then Committed else Aborted)
    case RegisterReply(ok) => a.(main := if ok then AtSpawn else Returned(Some(RegisterFailed)))
    case StartWorker => a.(main := AwaitQuit, worker := AtLoop)
    case EnterLoop =>
      // The loop body returns, so only the first service is ever watched.
      if a.services == [] then a.(worker := Exited)
      else a.(worker := AtWatch, trace := a.trace + [Watch(a.services[0])])
    case WatchReturns => a.(worker := AtUnregister)
    case SendUnregister =>
      a.(worker := AwaitUnregister, unregister := InFlight, trace := a.trace + [Unregister])
    case UnregisterRead(ok) => a.(unregister := if ok then SnapshotTaken else Aborted)
    case UnregisterWrite(ok) => a.(unregister := if ok then Committed else Aborted)
    case UnregisterReply => a.(worker := AtSend)
    case HandQuit => a.(worker := Exited, main := AtClose)
    case CloseQuit => a.(main := Returned(None), quitClosed := true)
  }

  predicate Runs(a: Agent, acts: seq<Act>)
    decreases |acts|
  {
    acts == [] || (Enabled(a, acts[0]) && Runs(Next(a, acts[0]), acts[1..]))
  }

  function After(a: Agent, acts: seq<Act>): Agent
    requires Runs(a, acts)
    decreases |acts|
  {
    if acts == [] then a else After(Next(a, acts[0]), acts[1..])
  }

  lemma {:induction false} Extend(a: Agent, acts: seq<Act>, act: Act)
    requires Runs(a, acts) && Enabled(After(a, acts), act)
    ensures Runs(a, acts + [act]) && After(a, acts + [act]) == Next(After(a, acts), act)
    decreases |acts|
  {
    if acts == [] {
      assert (acts + [act])[1..] == [];
    } else {
      Extend(Next(a, acts[0]), acts[1..], act);
      assert (acts + [act])[1..] == acts[1..] + [act];
    }
  }

  /******* What every act keeps *******/

  /** The whole trace of an agent that goes through, of which every trace is a prefix. */
  function FullTrace(services: seq<string>): seq<Call> {
    if services == [] then [Reflect, Register] else [Reflect, Register, Watch(services[0]), Unregister]
  }

  /** How much of the full trace has happened. */
  function Progress(a: Agent): nat {
    match a.main
    case AtReflect => 1
    case AtRegister => 1
    case Crashed => 1
    case AwaitRegister => 2
    case AtSpawn => 2
    case Returned(Some(RegisterFailed)) => 2
    case Returned(Some(ReflectionFailed(_))) => 1
    case _ =>
      match a.worker
      case NotStarted => 2
      case AtLoop => 2
      case AtWatch => 3
      case AtUnregister => 3
      case AwaitUnregister => 4
      case AtSend => 4
      case Exited => if a.services == [] then 2 else 4
  }

  ghost predicate Inv(a: Agent) {
    && (match a.main
        case AtReflect => a.register.Unsent? && a.services == []
        case AtRegister => a.register.Unsent?
        case AwaitRegister => a.register.InFlight? || a.register.Committed? || a.register.Aborted?
        case AtSpawn => a.register.Committed?
        case AwaitQuit => a.register.Committed? && !a.worker.NotStarted?
        case AtClose => a.register.Committed? && a.worker.Exited? && a.services != []
        case Returned(None) => a.register.Committed? && a.worker.Exited? && a.services != []
        case Returned(Some(RegisterFailed)) => !a.register.Unsent?
        case Returned(Some(ReflectionFailed(_))) => a.register.Unsent?
        case Crashed => a.register.Unsent?)
    && !a.register.SnapshotTaken?
    && (match a.worker
        case NotStarted => a.unregister.Unsent? && !a.main.AwaitQuit? && !a.main.AtClose? && a.main != Returned(None)
        case AtLoop => a.unregister.Unsent? && a.main.AwaitQuit?
        case AtWatch => a.unregister.Unsent? && a.main.AwaitQuit? && a.services != []
        case AtUnregister => a.unregister.Unsent? && a.main.AwaitQuit? && a.services != []
        case AwaitUnregister => !a.unregister.Unsent? && a.main.AwaitQuit? && a.services != []
        case AtSend => !a.unregister.Unsent? && a.main.AwaitQuit? && a.services != []
        case Exited =>
          && (a.services == [] <==> a.unregister.Unsent?)
          && (if a.services == [] then a.main.AwaitQuit? else a.main.AtClose? || a.main == Returned(None)))
    && (a.quitClosed <==> a.main == Returned(None))
    && Progress(a) <= |FullTrace(a.services)|
    && a.trace == FullTrace(a.services)[..Progress(a)]
  }

  lemma NextKeepsInv(a: Agent, act: Act)
    requires Inv(a) && Enabled(a, act)
    ensures Inv(Next(a, act))
  {
  }

  lemma {:induction false} RunKeepsInv(a: Agent, acts: seq<Act>)
    requires Inv(a) && Runs(a, acts)
    ensures Inv(After(a, acts))
    decreases |acts|
  {
    if acts == [] {
    } else {
      NextKeepsInv(a, acts[0]);
      RunKeepsInv(Next(a, acts[0]), acts[1..]);
    }
  }

  /** The part of an agent that the master's table depends on. */
  ghost predicate SameListing(a: Agent, b: Agent) {
    && (a.register.Committed? <==> b.register.Committed?)
    && (a.unregister.Committed? <==> b.unregister.Committed?)
    && (a.unregister.SnapshotTaken? <==> b.unregister.SnapshotTaken?)
    && (a.register.Committed? ==> a.url == b.url && a.services == b.services)
  }

  /** Acts that run no successful transaction on the master, and no write-back. */
  predicate IsLocal(act: Act) {
    !act.UnregisterWrite? && act != RegisterTx(true) && act != UnregisterRead(true)
  }

  /** What the master's table may rely on when an act happens. */
  ghost predicate Admissible(a: Agent, act: Act)
    requires Enabled(a, act)
  {
    && (IsLocal(act) ==> SameListing(a, Next(a, act)))
    && (act.RegisterTx? ==> a.unregister.Unsent?)
  }

  lemma EnabledIsAdmissible(a: Agent, act: Act)
    requires Inv(a) && Enabled(a, act)
    ensures Admissible(a, act)
  {
  }

  lemma RegisterComesFirst(a: Agent)
    requires Inv(a)
    ensures !a.unregister.Unsent? ==> a.register.Committed?
    ensures PastRegister(a) ==> a.register.Committed?
  {
  }

  /**
   For every outcome of the called services and every schedule: the calls are a prefix of Reflect,
   Register, Watch of the first service, Unregister; Unregister is only made after the registration
   has committed; and nobody stands at a send on the closed quit channel.
   */
  lemma TraceShape(url: string, acts: seq<Act>)
    requires Runs(NewAgent(url), acts)
    ensures var a := After(NewAgent(url), acts);
      && a.trace <=
           (if a.services == [] then [Reflect, Register] else [Reflect, Register, Watch(a.services[0]), Unregister])
      && (Unregister in a.trace ==> a.register.Committed? && a.services != [])
      && (a.quitClosed ==> !a.worker.AtSend?)
      && (a.main == Returned(None) ==> a.worker.Exited? && a.trace == FullTrace(a.services))
  {
    RunKeepsInv(NewAgent(url), acts);
  }

  /******* Termination *******/

  function Measure(a: Agent): nat {
    var main := match a.main
      case AtReflect => 6
      case AtRegister => 5
      case AwaitRegister => 4
      case AtSpawn => 3
      case AwaitQuit => 2
      case AtClose => 1
      case Returned(_) => 0
      case Crashed => 0;
    var worker := match a.worker
      case NotStarted => 6
      case AtLoop => 5
      case AtWatch => 4
      case AtUnregister => 3
      case AwaitUnregister => 2
      case AtSend => 1
      case Exited => 0;
    main + worker + RpcMeasure(a.register) + RpcMeasure(a.unregister)
  }

  function RpcMeasure(r: Rpc): nat {
    match r
    case Unsent => 3
    case InFlight => 2
    case SnapshotTaken => 1
    case Committed => 0
    case Aborted => 0
  }

  lemma {:induction false} RunsAreBounded(a: Agent, acts: seq<Act>)
    requires Inv(a) && Runs(a, acts)
    ensures |acts| <= Measure(a) - Measure(After(a, acts))
    decreases |acts|
  {
    if acts == [] {
    } else {
      NextKeepsInv(a, acts[0]);
      RunsAreBounded(Next(a, acts[0]), acts[1..]);
    }
  }

  /** Neither a goroutine of the agent nor the master, for one of its calls, can move. */
  ghost predicate Quiescent(a: Agent) {
    forall act :: !Enabled(a, act)
  }

  /** Execute is over and its goroutine, if it was started, has gone. */
  predicate Over(a: Agent) {
    (a.main.Returned? || a.main.Crashed?) && (a.worker.NotStarted? || a.worker.Exited?)
  }

  /** The main goroutine waits for a quit that nobody will send. */
  predicate Stuck(a: Agent) {
    a.main.AwaitQuit? && a.worker.Exited?
  }

  /** Nothing moves once Execute is over or stuck and no call of its is still with the master. */
  lemma SettledIsQuiescent(a: Agent)
    requires Over(a) || Stuck(a)
    requires !a.register.InFlight? && !a.unregister.InFlight? && !a.unregister.SnapshotTaken?
    ensures Quiescent(a)
  {
  }

  /**
   Every run is at most 18 acts long. One that cannot be extended is over, except when reflection
   named no service and the registration was acknowledged: those runs, and only those, leave Execute
   blocked on the quit channel.
   */
  lemma ExecuteEnds(url: string, acts: seq<Act>)
    requires Runs(NewAgent(url), acts)
    ensures |acts| <= 18
    ensures var a := After(NewAgent(url), acts);
      && (Stuck(a) ==> Quiescent(a) && !Over(a))
      && (Quiescent(a) ==>
            if a.services == [] && RegisterReply(true) in acts then a.main.AwaitQuit? && a.worker.Exited?
            else (a.main.Returned? || a.main.Crashed?) && (a.worker.NotStarted? || a.worker.Exited?))
  {
    var a0 := NewAgent(url);
    RunKeepsInv(a0, acts);
    RunsAreBounded(a0, acts);
    Acknowledged(a0, acts);
    var a := After(a0, acts);
    if !Over(a) && !Stuck(a) {
      var act := Move(a);
      assert !Quiescent(a);
    }
    if Stuck(a) {
      assert forall act :: !Enabled(a, act);
    }
  }

  ghost predicate AcknowledgedRegister(acts: seq<Act>) {
    RegisterReply(true) in acts
  }

  predicate PastRegister(a: Agent) {
    a.main.AtSpawn? || a.main.AwaitQuit? || a.main.AtClose? || a.main == Returned(None)
  }

  lemma StuckIsPastRegister(a: Agent)
    requires Inv(a)
    ensures Stuck(a) ==> PastRegister(a) && a.services == []
    ensures PastRegister(a) && Over(a) ==> a.services != []
  {
  }

  lemma {:induction false} Acknowledged(a: Agent, acts: seq<Act>)
    requires Inv(a) && Runs(a, acts)
    ensures PastRegister(After(a, acts)) <==> PastRegister(a) || AcknowledgedRegister(acts)
    decreases |acts|
  {
    if acts == [] {
    } else {
      NextKeepsInv(a, acts[0]);
      Acknowledged(Next(a, acts[0]), acts[1..]);
      assert acts == [acts[0]] + acts[1..];
    }
  }

  /** As long as Execute is neither over nor stuck, something can move. */
  lemma Move(a: Agent) returns (act: Act)
    requires Inv(a) && !Over(a) && !Stuck(a)
    ensures Enabled(a, act)
  {
    match a.main
    case AtReflect => act := ReflectReturns(Reflection.Panicked);
    case AtRegister => act := SendRegister;
    case AwaitRegister => act := RegisterReply(false);
    case AtSpawn => act := StartWorker;
    case AtClose => act := CloseQuit;
    case _ =>
      match a.worker {
        case AtLoop => act := EnterLoop;
        case AtWatch => act := WatchReturns;
        case AtUnregister => act := SendUnregister;
        case AwaitUnregister => act := UnregisterReply;
        case _ => act := HandQuit;
      }
  }

  /**
   The blocked run exists: a reflection stream whose first non-EOF event carries neither a response
   nor an error makes Execute register nothing and wait for ever.
   */
  lemma EmptyReflectionBlocks(url: string, e: Reflection.Event)
    requires Reflection.Interpret(e.response, e.err) == Reflection.Returned([], None)
    ensures var acts := [ReflectReturns(Reflection.Interpret(e.response, e.err)), SendRegister,
                         RegisterTx(true), RegisterReply(true), StartWorker, EnterLoop];
      Runs(NewAgent(url), acts) && Stuck(After(NewAgent(url), acts))
  {
    var acts := [ReflectReturns(Reflection.Interpret(e.response, e.err)), SendRegister,
                 RegisterTx(true), RegisterReply(true), StartWorker, EnterLoop];
    var a0 := NewAgent(url);
    for k := 0 to 6
      invariant Runs(a0, acts[..k])
      invariant var a := After(a0, acts[..k]);
        && a.services == [] && a.unregister.Unsent? && !a.quitClosed
        && (k == 0 ==> a == a0)
        && (k == 1 ==> a.main.AtRegister? && a.worker.NotStarted? && a.register.Unsent?)
        && (k == 2 ==> a.main.AwaitRegister? && a.worker.NotStarted? && a.register.InFlight?)
        && (k == 3 ==> a.main.AwaitRegister? && a.worker.NotStarted? && a.register.Committed?)
        && (k == 4 ==> a.main.AtSpawn?)
        && (k == 5 ==> a.main.AwaitQuit? && a.worker.AtLoop?)
        && (k == 6 ==> Stuck(a))
    {
      Extend(a0, acts[..k], acts[k]);
      assert acts[..k] + [acts[k]] == acts[..k + 1];
    }
    assert acts[..6] == acts;
  }

  /**
   A failed execution whose registration stands: the reply of the register call is lost and the master
   commits it nevertheless.
   */
  lemma LostReplyFails(url: string, handler: string) returns (acts: seq<Act>)
    ensures Runs(NewAgent(url), acts)
    ensures var a := After(NewAgent(url), acts);
      && a.main == Returned(Some(RegisterFailed)) && Quiescent(a)
      && a.register.Committed? && a.unregister.Unsent? && a.url == url && a.services == [handler]
  {
    acts := [ReflectReturns(Reflection.Returned([handler], None)), SendRegister, RegisterReply(false),
             RegisterTx(true)];
    var a0 := NewAgent(url);
    for k := 0 to 4
      invariant Runs(a0, acts[..k])
      invariant var a := After(a0, acts[..k]);
        && a.url == url && a.unregister.Unsent? && a.worker.NotStarted?
        && (k == 0 ==> a == a0)
        && (k > 0 ==> a.services == [handler])
        && (k == 1 ==> a.main.AtRegister?)
        && (k == 2 ==> a.main.AwaitRegister? && a.register.InFlight?)
        && (k >= 3 ==> a.main == Returned(Some(RegisterFailed)))
        && (k == 3 ==> a.register.InFlight?)
        && (k == 4 ==> a.register.Committed?)
    {
      Extend(a0, acts[..k], acts[k]);
      assert acts[..k] + [acts[k]] == acts[..k + 1];
    }
    assert acts[..4] == acts;
    SettledIsQuiescent(After(a0, acts));
  }
}
