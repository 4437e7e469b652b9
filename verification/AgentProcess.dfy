/**
 An agent with the streams it reads: Execute together with the hand-off goroutines of its reflection
 and its watch call, all scheduled freely. What the hand-offs guarantee decides what the agent does.
 */
module AgentProcess {
  import opened Common
  import Registry
  import Handoff
  import Reflection
  import WatchService
  import Agent
  import System

  datatype Streams = Streams(reflection: Reflection.Connection, watch: WatchService.Connection)

  datatype Process = Process(agent: Agent.Agent, reflection: Handoff.State, watch: Handoff.State)

  datatype Step =
    | Reflecting(step: Handoff.Step)
    | Watching(step: Handoff.Step)
    | Acting(act: Agent.Act)

  function Begin(url: string): Process {
    Process(Agent.NewAgent(url), Handoff.INIT, Handoff.INIT)
  }

  /** The reflection call has an outcome to return. */
  predicate Reflected(c: Reflection.Connection, h: Handoff.State) {
    match c
    case OpenFailed(_) => true
    case SendFailed(_) => h.receiver.Done?
    case Connected(_) => h.receiver.Done? && h.receiver.taken.Some?
  }

  predicate Watched(c: WatchService.Connection, h: Handoff.State) {
    c.Watching? ==> h.receiver.Done?
  }

  /**
   A hand-off runs while its call is being made, and its goroutine may leave later; the call returns
   what its hand-off has come to.
   */
  predicate Enabled(io: Streams, s: Process, step: Step) {
    match step
    case Reflecting(h) =>
      && !io.reflection.OpenFailed? && (s.agent.main.AtReflect? || h.SenderExits?)
      && Handoff.Enabled(Reflection.Reflect(io.reflection), s.reflection, h)
    case Watching(h) =>
      && io.watch.Watching? && (s.agent.worker.AtWatch? || h.SenderExits?)
      && Handoff.Enabled(WatchService.Watch(io.watch.stream), s.watch, h)
    case Acting(act) =>
      && Agent.Enabled(s.agent, act)
      && (act.ReflectReturns? ==>
            && Reflected(io.reflection, s.reflection)
            && act.outcome == Reflection.OutcomeOf(io.reflection, s.reflection))
      && (act.WatchReturns? ==> Watched(io.watch, s.watch))
  }

  function Next(io: Streams, s: Process, step: Step): Process
    requires Enabled(io, s, step)
  {
    match step
    case Reflecting(h) => s.(reflection := Handoff.Next(Reflection.Reflect(io.reflection), s.reflection, h))
    case Watching(h) => s.(watch := Handoff.Next(WatchService.Watch(io.watch.stream), s.watch, h))
    case Acting(act) => s.(agent := Agent.Next(s.agent, act))
  }

  ghost predicate Reaches(io: Streams, s: Process, steps: seq<Step>, s': Process)
    decreases |steps|
  {
    if steps == [] then s == s'
    else Enabled(io, s, steps[0]) && Reaches(io, Next(io, s, steps[0]), steps[1..], s')
  }

  /** The acts of the agent among the steps. */
  function Acts(steps: seq<Step>): seq<Agent.Act> {
    if steps == [] then []
    else (if steps[0].Acting? then [steps[0].act] else []) + Acts(steps[1..])
  }

  /******* What every step keeps *******/

  /** The agent has got past its watch call. */
  predicate PastWatch(a: Agent.Agent) {
    || a.worker.AtUnregister?
    || !a.unregister.Unsent?
  }

  ghost predicate HandoffsInv(io: Streams, s: Process) {
    && (!io.reflection.OpenFailed? ==> Handoff.Inv(Reflection.Reflect(io.reflection), s.reflection))
    && (io.watch.Watching? ==> Handoff.Inv(WatchService.Watch(io.watch.stream), s.watch))
  }

  ghost predicate CallsInv(io: Streams, s: Process) {
    && (!s.agent.main.AtReflect? ==> Reflected(io.reflection, s.reflection))
    && (PastWatch(s.agent) ==> Watched(io.watch, s.watch))
  }

  ghost predicate Inv(io: Streams, s: Process) {
    Agent.Inv(s.agent) && HandoffsInv(io, s) && CallsInv(io, s)
  }

  lemma HandoffKeepsInv(io: Streams, s: Process, step: Step)
    requires HandoffsInv(io, s) && CallsInv(io, s) && Enabled(io, s, step) && !step.Acting?
    ensures HandoffsInv(io, Next(io, s, step)) && CallsInv(io, Next(io, s, step))
  {
    match step
    case Reflecting(h) => Handoff.NextKeepsInv(Reflection.Reflect(io.reflection), s.reflection, h);
    case Watching(h) => Handoff.NextKeepsInv(WatchService.Watch(io.watch.stream), s.watch, h);
  }

  lemma ActKeepsInv(io: Streams, s: Process, act: Agent.Act)
    requires HandoffsInv(io, s) && CallsInv(io, s) && Enabled(io, s, Acting(act))
    ensures HandoffsInv(io, Next(io, s, Acting(act))) && CallsInv(io, Next(io, s, Acting(act)))
  {
  }

  lemma NextKeepsInv(io: Streams, s: Process, step: Step)
    requires Inv(io, s) && Enabled(io, s, step)
    ensures Inv(io, Next(io, s, step))
  {
    match step
    case Acting(act) =>
      ActKeepsInv(io, s, act);
      Agent.NextKeepsInv(s.agent, act);
    case _ => HandoffKeepsInv(io, s, step);
  }

  /** A run of the process keeps the invariant, and its acts are a run of the agent. */
  lemma {:induction false} ReachableInv(io: Streams, s: Process, steps: seq<Step>, s': Process)
    requires Inv(io, s) && Reaches(io, s, steps, s')
    ensures Inv(io, s')
    ensures Agent.Runs(s.agent, Acts(steps)) && Agent.After(s.agent, Acts(steps)) == s'.agent
    decreases |steps|
  {
    if steps == [] {
    } else {
      var next, rest := Next(io, s, steps[0]), Acts(steps[1..]);
      NextKeepsInv(io, s, steps[0]);
      ReachableInv(io, next, steps[1..], s');
      if steps[0].Acting? {
        assert Acts(steps)[0] == steps[0].act && Acts(steps)[1..] == rest;
      } else {
        assert Acts(steps) == rest;
      }
    }
  }

  lemma BeginInv(io: Streams, url: string)
    ensures Inv(io, Begin(url))
  {
    assert Agent.FullTrace([])[..1] == [Agent.Reflect];
  }

  /******* A healthy service *******/

  /** Every event of the watch is a SERVING response or an EOF. */
  ghost predicate Healthy(c: WatchService.Connection) {
    c.Watching? && forall n: nat ::
      c.stream(n).response in {None, Some(WatchService.SERVING)} && c.stream(n).err in {None, Some(EOF)}
  }

  /**
   An agent whose service stays healthy never unregisters, whatever is scheduled, and never returns
   without an error; once its registration is acknowledged it does not return at all.
   */
  lemma HealthyAgentNeverUnregisters(io: Streams, url: string, steps: seq<Step>, s: Process)
    requires Healthy(io.watch) && Reaches(io, Begin(url), steps, s)
    ensures s.agent.unregister.Unsent? && Agent.Unregister !in s.agent.trace && s.agent.main != Agent.Returned(None)
    ensures Agent.AcknowledgedRegister(Acts(steps)) ==> !s.agent.main.Returned?
  {
    BeginInv(io, url);
    ReachableInv(io, Begin(url), steps, s);
    Agent.Acknowledged(Agent.NewAgent(url), Acts(steps));
    HealthyWatchGoesOn(io.watch, s.watch);
    TraceOfUnsent(s.agent);
  }

  lemma HealthyWatchGoesOn(c: WatchService.Connection, h: Handoff.State)
    requires Healthy(c) && Handoff.Inv(WatchService.Watch(c.stream), h)
    ensures !h.receiver.Done?
  {
    var p := WatchService.Watch(c.stream);
    assert forall n: nat :: !p.stops(p.stream(n));
  }

  lemma TraceOfUnsent(a: Agent.Agent)
    requires Agent.Inv(a) && a.unregister.Unsent?
    ensures Agent.Unregister !in a.trace && a.main != Agent.Returned(None)
  {
  }

  /** The acts among an agent's own events. */
  function ActsOf(own: seq<System.Event>): seq<Agent.Act> {
    if own == [] then []
    else (if own[0].Acts? then [own[0].act] else []) + ActsOf(own[1..])
  }

  lemma {:induction false} AloneIsARun(a: Agent.Agent, own: seq<System.Event>)
    requires System.Alone(Some(a), own).Some?
    ensures Agent.Runs(a, ActsOf(own)) && System.Alone(Some(a), own) == Some(Agent.After(a, ActsOf(own)))
    decreases |own|
  {
    if own == [] {
    } else {
      var act, rest := own[0].act, ActsOf(own[1..]);
      AloneIsARun(Agent.Next(a, act), own[1..]);
      assert ActsOf(own)[0] == act && ActsOf(own)[1..] == rest;
    }
  }

  /** The events of the agent are its start and the acts of a run of its process. */
  ghost predicate Behaves(events: seq<System.Event>, id: string, io: Streams, url: string, steps: seq<Step>,
                          s: Process) {
    var own := System.Project(events, id);
    && own != [] && own[0] == System.Start(id, url)
    && ActsOf(own[1..]) == Acts(steps)
    && Reaches(io, Begin(url), steps, s)
  }

  lemma AgentOfProcess(events: seq<System.Event>, id: string, io: Streams, url: string, steps: seq<Step>, s: Process)
    requires System.Runs(System.EMPTY, events) && id in System.After(System.EMPTY, events).agents
    requires Behaves(events, id, io, url, steps, s)
    ensures System.After(System.EMPTY, events).agents[id] == s.agent
  {
    var own := System.Project(events, id);
    System.AgentsRunAlone(System.EMPTY, events, id);
    assert System.Alone(None, own) == System.Alone(Some(Agent.NewAgent(url)), own[1..]);
    AloneIsARun(Agent.NewAgent(url), own[1..]);
    BeginInv(io, url);
    ReachableInv(io, Begin(url), steps, s);
  }

  /**
   A service that stays healthy stays discoverable: once its agent's registration is acknowledged, in
   every state that any run of the system reaches with the agent reading such a watch stream, its url
   is listed for each of its services.
   */
  lemma HealthyServiceStaysListed(events: seq<System.Event>, id: string, handler: string,
                                  io: Streams, url: string, steps: seq<Step>, s: Process)
    requires System.Runs(System.EMPTY, events) && id in System.After(System.EMPTY, events).agents
    requires Behaves(events, id, io, url, steps, s) && Healthy(io.watch)
    requires Agent.PastRegister(s.agent) && handler in s.agent.services
    ensures s.agent.url in Registry.AliveUrls(System.After(System.EMPTY, events).master.table, handler)
  {
    AgentOfProcess(events, id, io, url, steps, s);
    HealthyAgentNeverUnregisters(io, url, steps, s);
    System.WatchedIsDiscoverable(events, id, handler);
  }

  /**
   When the reflection stream cannot be opened, or the request cannot be sent on it, Execute returns no
   other error than that one, and makes no further call.
   */
  lemma {:induction false} FailedReflectionIsReported(io: Streams, url: string, steps: seq<Step>, s: Process,
                                                      err: StreamError)
    requires io.reflection == Reflection.OpenFailed(err) || io.reflection == Reflection.SendFailed(err)
    requires Reaches(io, Begin(url), steps, s)
    ensures s.agent.main.AtReflect? || s.agent.main == Agent.Returned(Some(Agent.ReflectionFailed(err)))
    ensures s.agent.trace == [Agent.Reflect] && s.agent.register.Unsent?
  {
    FailedReflectionStays(io, Begin(url), steps, s, url, err);
  }

  /** The agent before and after its failed reflection. */
  predicate AtFailedReflection(a: Agent.Agent, url: string, err: StreamError) {
    || a == Agent.NewAgent(url)
    || a == Agent.NewAgent(url).(main := Agent.Returned(Some(Agent.ReflectionFailed(err))))
  }

  lemma {:induction false} FailedReflectionStays(io: Streams, s: Process, steps: seq<Step>, s': Process,
                                                 url: string, err: StreamError)
    requires io.reflection == Reflection.OpenFailed(err) || io.reflection == Reflection.SendFailed(err)
    requires AtFailedReflection(s.agent, url, err) && Reaches(io, s, steps, s')
    ensures AtFailedReflection(s'.agent, url, err)
    decreases |steps|
  {
    if steps == [] {
    } else {
      FailedReflectionStays(io, Next(io, s, steps[0]), steps[1..], s', url, err);
    }
  }

  /******* Termination *******/

  /** The reflection stream stops first at m and the watch stream at n, as far as they are read at all. */
  ghost predicate StopAt(io: Streams, m: nat, n: nat) {
    && (!io.reflection.OpenFailed? ==> Handoff.StopsAt(Reflection.Reflect(io.reflection), m))
    && (io.watch.Watching? ==> Handoff.StopsAt(WatchService.Watch(io.watch.stream), n))
  }

  function Measure(s: Process, m: nat, n: nat): int {
    Agent.Measure(s.agent) + Handoff.Measure(s.reflection, m) + Handoff.Measure(s.watch, n)
  }

  /** A hand-off that has not begun, because its call failed at once, or one that runs. */
  ghost predicate MeasuresInv(io: Streams, s: Process) {
    && (io.reflection.OpenFailed? ==> s.reflection == Handoff.INIT)
    && (!io.watch.Watching? ==> s.watch == Handoff.INIT)
  }

  lemma MeasureDecreases(io: Streams, s: Process, step: Step, m: nat, n: nat)
    requires Inv(io, s) && MeasuresInv(io, s) && StopAt(io, m, n) && Enabled(io, s, step)
    ensures MeasuresInv(io, Next(io, s, step))
    ensures Measure(Next(io, s, step), m, n) < Measure(s, m, n)
  {
    match step
    case Reflecting(h) => Handoff.MeasureDecreases(Reflection.Reflect(io.reflection), s.reflection, h, m);
    case Watching(h) => Handoff.MeasureDecreases(WatchService.Watch(io.watch.stream), s.watch, h, n);
    case Acting(act) => ActDecreases(s.agent, act);
  }

  lemma ActDecreases(a: Agent.Agent, act: Agent.Act)
    requires Agent.Inv(a) && Agent.Enabled(a, act)
    ensures Agent.Measure(Agent.Next(a, act)) < Agent.Measure(a)
  {
  }

  lemma MeasureNonNegative(io: Streams, s: Process, m: nat, n: nat)
    requires HandoffsInv(io, s) && MeasuresInv(io, s) && StopAt(io, m, n)
    ensures 0 <= Measure(s, m, n)
  {
    if !io.reflection.OpenFailed? {
      Handoff.ReceivingBounded(Reflection.Reflect(io.reflection), s.reflection, m);
    }
    if io.watch.Watching? {
      Handoff.ReceivingBounded(WatchService.Watch(io.watch.stream), s.watch, n);
    }
  }

  lemma {:induction false} StepsAreBounded(io: Streams, s: Process, steps: seq<Step>, s': Process, m: nat, n: nat)
    requires Inv(io, s) && MeasuresInv(io, s) && StopAt(io, m, n) && Reaches(io, s, steps, s')
    ensures |steps| <= Measure(s, m, n) - Measure(s', m, n) <= Measure(s, m, n)
    decreases |steps|
  {
    if steps == [] {
      MeasureNonNegative(io, s, m, n);
    } else {
      NextKeepsInv(io, s, steps[0]);
      MeasureDecreases(io, s, steps[0], m, n);
      StepsAreBounded(io, Next(io, s, steps[0]), steps[1..], s', m, n);
    }
  }

  /** While Execute is neither over nor blocked, some goroutine can move, whatever the streams hold. */
  lemma Move(io: Streams, s: Process) returns (step: Step)
    requires Inv(io, s) && !Agent.Over(s.agent) && !Agent.Stuck(s.agent)
    ensures Enabled(io, s, step)
  {
    if s.agent.main.AtReflect? {
      if Reflected(io.reflection, s.reflection) {
        step := Acting(Agent.ReflectReturns(Reflection.OutcomeOf(io.reflection, s.reflection)));
      } else {
        var h := Handoff.Move(Reflection.Reflect(io.reflection), s.reflection);
        step := Reflecting(h);
      }
    } else if s.agent.worker.AtWatch? {
      if Watched(io.watch, s.watch) {
        step := Acting(Agent.WatchReturns);
      } else {
        var h := Handoff.Move(WatchService.Watch(io.watch.stream), s.watch);
        step := Watching(h);
      }
    } else {
      var act := Agent.Move(s.agent);
      OtherMove(s.agent, act);
      step := Acting(act);
    }
  }

  lemma OtherMove(a: Agent.Agent, act: Agent.Act)
    requires Agent.Enabled(a, act) && !a.main.AtReflect? && !a.worker.AtWatch?
    ensures !act.ReflectReturns? && !act.WatchReturns?
  {
  }

  /** The streams end their receive loops: a non-EOF event at m, and a non-SERVING response or non-EOF error at n. */
  ghost predicate Terminate(io: Streams, m: nat, n: nat) {
    && (io.reflection.Connected? ==> io.reflection.stream(m).err != Some(EOF))
    && (io.watch.Watching? ==>
          || io.watch.stream(n).response !in {None, Some(WatchService.SERVING)}
          || io.watch.stream(n).err !in {None, Some(EOF)})
  }

  lemma StopsBefore(io: Streams, m: nat, n: nat) returns (m': nat, n': nat)
    requires Terminate(io, m, n)
    ensures m' <= m && n' <= n && StopAt(io, m', n')
  {
    m', n' := m, n;
    if io.reflection.Connected? {
      var p := Reflection.Reflect(io.reflection);
      assert p.stops(p.stream(m));
      m' := Handoff.FirstStopExists(p, m);
    }
    if io.watch.Watching? {
      var p := WatchService.Watch(io.watch.stream);
      WatchService.TerminatesIff(io.watch.stream(n));
      assert p.stops(p.stream(n));
      n' := Handoff.FirstStopExists(p, n);
    }
  }

  /**
   With a non-EOF reflection event at m and a terminating watch event at n, no run of the process, all
   its goroutines counted, has more than m + n + 40 steps, and one that cannot be extended has ended
   Execute, except when it is blocked on quit.
   */
  lemma ProcessEnds(io: Streams, url: string, m: nat, n: nat, steps: seq<Step>, s: Process)
    requires Terminate(io, m, n) && Reaches(io, Begin(url), steps, s)
    ensures |steps| <= m + n + 40
    ensures (forall step :: !Enabled(io, s, step)) ==> Agent.Over(s.agent) || Agent.Stuck(s.agent)
  {
    var m', n' := StopsBefore(io, m, n);
    BeginInv(io, url);
    StepsAreBounded(io, Begin(url), steps, s, m', n');
    ReachableInv(io, Begin(url), steps, s);
    if !Agent.Over(s.agent) && !Agent.Stuck(s.agent) {
      var step := Move(io, s);
    }
  }

  /** A watch hand-off begins with the watch call. */
  ghost predicate WatchInv(s: Process) {
    s.agent.worker.AtWatch? || PastWatch(s.agent) || s.watch == Handoff.INIT
  }

  lemma WatchStep(io: Streams, s: Process, step: Step)
    requires WatchInv(s) && MeasuresInv(io, s) && Enabled(io, s, step)
    requires s.agent.main.AtSpawn? ==> s.agent.worker.NotStarted?
    ensures WatchInv(Next(io, s, step)) && MeasuresInv(io, Next(io, s, step))
  {
  }

  lemma {:induction false} WatchBegins(io: Streams, s: Process, steps: seq<Step>, s': Process)
    requires Inv(io, s) && WatchInv(s) && MeasuresInv(io, s) && Reaches(io, s, steps, s')
    ensures WatchInv(s') && MeasuresInv(io, s')
    decreases |steps|
  {
    if steps == [] {
    } else {
      NextKeepsInv(io, s, steps[0]);
      WatchStep(io, s, steps[0]);
      WatchBegins(io, Next(io, s, steps[0]), steps[1..], s');
    }
  }

  /**
   A run of the process that cannot be extended leaves no goroutine behind, neither the worker of Execute
   nor a sender of either hand-off, even when Execute itself stays blocked on quit.
   */
  lemma NoGoroutineLeft(io: Streams, url: string, steps: seq<Step>, s: Process)
    requires Reaches(io, Begin(url), steps, s) && forall step :: !Enabled(io, s, step)
    ensures s.agent.worker.NotStarted? || s.agent.worker.Exited?
    ensures forall h :: h in [s.reflection, s.watch] ==>
      h == Handoff.INIT || (h.receiver.Done? && (h.sender.NotStarted? || h.sender.Exited?))
  {
    BeginInv(io, url);
    ReachableInv(io, Begin(url), steps, s);
    WatchBegins(io, Begin(url), steps, s);
    if !Agent.Over(s.agent) && !Agent.Stuck(s.agent) {
      var step := Move(io, s);
    }
    assert !Enabled(io, s, Reflecting(Handoff.SenderExits));
    assert !Enabled(io, s, Watching(Handoff.SenderExits));
  }

  /**
   Blocking traced to the stream: a run of the process that cannot be extended has left Execute blocked
   on quit if and only if the registration was acknowledged and the first non-EOF event of the
   reflection stream named no service.
   */
  lemma BlocksIff(io: Streams, url: string, steps: seq<Step>, s: Process)
    requires Reaches(io, Begin(url), steps, s) && forall step :: !Enabled(io, s, step)
    ensures Agent.Stuck(s.agent) <==>
      && Agent.AcknowledgedRegister(Acts(steps))
      && io.reflection.Connected? && Reflection.NamesNothing(io.reflection.stream)
  {
    BeginInv(io, url);
    NamesComeFromReflection(io, Begin(url), steps, s);
    ReachableInv(io, Begin(url), steps, s);
    Agent.Acknowledged(Agent.NewAgent(url), Acts(steps));
    Agent.StuckIsPastRegister(s.agent);
    if Agent.PastRegister(s.agent) {
      NamesOfAgent(io, s);
    }
    if !Agent.Over(s.agent) && !Agent.Stuck(s.agent) {
      var step := Move(io, s);
    }
  }

  lemma NamesOfAgent(io: Streams, s: Process)
    requires HandoffsInv(io, s) && NamesInv(io, s) && Agent.PastRegister(s.agent)
    ensures io.reflection.Connected? && (s.agent.services == [] <==> Reflection.NamesNothing(io.reflection.stream))
  {
    var stream := io.reflection.stream;
    var t := s.reflection.receiver.taken.value;
    Reflection.FirstStopIsFirstNonEof(stream, t.response);
    Reflection.NamesNothingIff(stream, t.response);
  }

  /** An agent past its reflection has the names that its reflection call returned. */
  ghost predicate NamesInv(io: Streams, s: Process) {
    Agent.PastRegister(s.agent) || s.agent.main.AtRegister? || s.agent.main.AwaitRegister? ==>
      && Reflected(io.reflection, s.reflection)
      && Reflection.OutcomeOf(io.reflection, s.reflection) == Reflection.Returned(s.agent.services, None)
  }

  lemma {:induction false} NamesComeFromReflection(io: Streams, s: Process, steps: seq<Step>, s': Process)
    requires Inv(io, s) && NamesInv(io, s) && Reaches(io, s, steps, s')
    ensures NamesInv(io, s')
    decreases |steps|
  {
    if steps == [] {
    } else {
      NextKeepsInv(io, s, steps[0]);
      NamesStep(io, s, steps[0]);
      NamesComeFromReflection(io, Next(io, s, steps[0]), steps[1..], s');
    }
  }

  lemma NamesStep(io: Streams, s: Process, step: Step)
    requires CallsInv(io, s) && NamesInv(io, s) && Enabled(io, s, step)
    ensures NamesInv(io, Next(io, s, step))
  {
  }
}
