/**
 Any number of agents, each with its own instance id, against one master. Events of different agents
 interleave freely; an agent's gRPC call to the master runs as the master's transactions.
 */
module System {
  import opened Common
  import opened Registry
  import Master
  import Agent

  datatype System = System(master: Master.State, agents: map<string, Agent.Agent>)

  /** A new agent starts under a fresh id, or an agent (or the master, for it) acts. */
  datatype Event = Start(id: string, url: string) | Acts(id: string, act: Agent.Act)

  /** A fresh database with no agents. */
  const EMPTY := System(Master.State([], map[]), map[])

  predicate Enabled(s: System, e: Event) {
    match e
    case Start(id, _) => id !in s.agents
    case Acts(id, act) => id in s.agents && Agent.Enabled(s.agents[id], act)
  }

  /** The transaction that an act runs on the master, if it runs one. */
  function StepOf(id: string, a: Agent.Agent, act: Agent.Act): Option<Master.Step> {
    match act
    case RegisterTx(ok) => Some(Master.RegisterTx(a.url, id, a.services, ok))
    case UnregisterRead(ok) => Some(Master.UnregisterRead(id, id, ok))
    case UnregisterWrite(ok) => Some(Master.UnregisterWrite(id, ok))
    case _ => None
  }

  function NextMaster(s: System, e: Event): Master.State
    requires Enabled(s, e)
  {
    match e
    case Start(_, _) => s.master
    case Acts(id, act) =>
      match StepOf(id, s.agents[id], act)
      case Some(step) => Master.Next(s.master, step)
      case None => s.master
  }

  function NextAgent(s: System, e: Event): Agent.Agent
    requires Enabled(s, e)
  {
    match e
    case Start(_, url) => Agent.NewAgent(url)
    case Acts(id, act) => Agent.Next(s.agents[id], act)
  }

  function Next(s: System, e: Event): System
    requires Enabled(s, e)
  {
    System(NextMaster(s, e), s.agents[e.id := NextAgent(s, e)])
  }

  predicate Runs(s: System, events: seq<Event>)
    decreases |events|
  {
    events == [] || (Enabled(s, events[0]) && Runs(Next(s, events[0]), events[1..]))
  }

  function After(s: System, events: seq<Event>): System
    requires Runs(s, events)
    decreases |events|
  {
    if events == [] then s else After(Next(s, events[0]), events[1..])
  }

  /******* What every event keeps *******/

  /** The master has committed the agent's registration and not its unregistration. */
  predicate Listed(a: Agent.Agent) {
    a.register.Committed? && !a.unregister.Committed?
  }

  /** A row was written by an agent, for one of its services, and lives as long as that agent is listed. */
  ghost predicate RowHasOwner(agents: map<string, Agent.Agent>, r: ServiceHandler) {
    && r.instance in agents
    && agents[r.instance].register.Committed?
    && r.service == agents[r.instance].url
    && r.handler in agents[r.instance].services
    && (r.isAlive <==> !agents[r.instance].unregister.Committed?)
  }

  ghost predicate HasRow(t: Table, id: string, handler: string) {
    exists i :: 0 <= i < |t| && t[i].instance == id && t[i].handler == handler
  }

  ghost predicate AgentHasRows(t: Table, id: string, a: Agent.Agent) {
    a.register.Committed? ==> forall h :: h in a.services ==> HasRow(t, id, h)
  }

  /** A pending unregister call will write back every row of its instance. */
  ghost predicate CallIsComplete(t: Table, id: string, c: Master.Call) {
    && c.instance == id
    && forall i :: 0 <= i < |t| && t[i].instance == id ==> t[i].methodId in Ids(c.writes)
  }

  ghost predicate TableInv(m: Master.State, agents: map<string, Agent.Agent>) {
    && (forall i :: 0 <= i < |m.table| ==> RowHasOwner(agents, m.table[i]))
    && (forall id :: id in agents ==> AgentHasRows(m.table, id, agents[id]))
    && (forall id :: id in m.calls <==> id in agents && agents[id].unregister.SnapshotTaken?)
    && (forall id :: id in m.calls ==> CallIsComplete(m.table, id, m.calls[id]))
  }

  ghost predicate AgentsInv(agents: map<string, Agent.Agent>) {
    forall id :: id in agents ==> Agent.Inv(agents[id])
  }

  ghost predicate Inv(s: System) {
    Master.Inv(s.master) && AgentsInv(s.agents) && TableInv(s.master, s.agents)
  }

  /** What no transaction touches stays as it was. */
  lemma LocalKeepsTable(m: Master.State, agents: map<string, Agent.Agent>, id: string, a: Agent.Agent)
    requires TableInv(m, agents)
    requires if id in agents then Agent.SameListing(agents[id], a)
             else !a.register.Committed? && !a.unregister.SnapshotTaken?
    ensures TableInv(m, agents[id := a])
  {
  }

  /** The inserted batch has a row for each service, and the rows there were are still there. */
  lemma InsertKeepsRows(t: Table, id: string, a: Agent.Agent, other: string, b: Agent.Agent)
    requires KeyOrdered(t)
    requires if other == id then b == a else AgentHasRows(t, other, b)
    ensures AgentHasRows(InsertAll(t, Batch(a.url, id, a.services)), other, b)
  {
    var t' := InsertAll(t, Batch(a.url, id, a.services));
    RegisteredRows(t, a.url, id, a.services);
    forall h | b.register.Committed? && h in b.services
      ensures HasRow(t', other, h)
    {
      if other == id {
        var k :| 0 <= k < |a.services| && a.services[k] == h;
        assert t'[|t| + k].handler == h;
      } else {
        assert HasRow(t, other, h);
        var i :| 0 <= i < |t| && t[i].instance == other && t[i].handler == h;
        assert t'[i].instance == other;
      }
    }
  }

  lemma RegisterKeepsTable(m: Master.State, agents: map<string, Agent.Agent>, id: string, a: Agent.Agent)
    requires TableInv(m, agents) && KeyOrdered(m.table)
    requires id in agents && agents[id].register.InFlight? && agents[id].unregister.Unsent?
    requires a == agents[id].(register := Agent.Committed)
    ensures TableInv(Master.Next(m, Master.RegisterTx(a.url, id, a.services, true)), agents[id := a])
  {
    var t, t' := m.table, InsertAll(m.table, Batch(a.url, id, a.services));
    var agents' := agents[id := a];
    RegisteredRows(t, a.url, id, a.services);
    forall i | 0 <= i < |t'|
      ensures RowHasOwner(agents', t'[i])
    {
      if i < |t| {
        assert RowHasOwner(agents, t[i]);
      }
    }
    forall other | other in agents'
      ensures AgentHasRows(t', other, agents'[other])
    {
      InsertKeepsRows(t, id, a, other, agents'[other]);
    }
    forall c | c in m.calls
      ensures CallIsComplete(t', c, m.calls[c])
    {
      assert CallIsComplete(t, c, m.calls[c]);
    }
  }

  lemma ReadKeepsTable(m: Master.State, agents: map<string, Agent.Agent>, id: string, a: Agent.Agent)
    requires TableInv(m, agents) && KeyOrdered(m.table)
    requires id in agents && agents[id].unregister.InFlight?
    requires a == agents[id].(unregister := Agent.SnapshotTaken)
    ensures TableInv(Master.Next(m, Master.UnregisterRead(id, id, true)), agents[id := a])
  {
    var t, agents' := m.table, agents[id := a];
    forall i | 0 <= i < |t|
      ensures RowHasOwner(agents', t[i])
      ensures t[i].instance == id ==> t[i].methodId in Ids(MarkAll(ByInstance(t, id)))
    {
      assert RowHasOwner(agents, t[i]);
      SnapshotIds(t, id, i);
    }
    forall other | other in agents'
      ensures AgentHasRows(t, other, agents'[other])
    {
      assert AgentHasRows(t, other, agents[other]);
    }
  }

  /** The write-back ends the listing of its own instance and of no other. */
  lemma WriteEffect(m: Master.State, id: string)
    requires Master.Inv(m) && id in m.calls && CallIsComplete(m.table, id, m.calls[id])
    ensures Master.Next(m, Master.UnregisterWrite(id, true)).table == MarkInstance(m.table, id)
  {
    var t, t' := m.table, Master.Next(m, Master.UnregisterWrite(id, true)).table;
    Master.WriteOnlyMarks(m, id);
    forall i | 0 <= i < |t|
      ensures t'[i] == MarkInstance(t, id)[i]
    {
    }
  }

  /** Two tables with the same rows up to IsAlive. */
  ghost predicate SameRows(t: Table, t': Table) {
    |t'| == |t| && forall i :: 0 <= i < |t| ==> t'[i].MarkAsNotAlive() == t[i].MarkAsNotAlive()
  }

  lemma SameRowsKeepRows(t: Table, t': Table, id: string, a: Agent.Agent, a': Agent.Agent)
    requires SameRows(t, t') && AgentHasRows(t, id, a)
    requires a'.register == a.register && a'.services == a.services
    ensures AgentHasRows(t', id, a')
  {
  }

  lemma SameRowsKeepCalls(t: Table, t': Table, id: string, c: Master.Call)
    requires SameRows(t, t') && CallIsComplete(t, id, c)
    ensures CallIsComplete(t', id, c)
  {
  }

  lemma WriteKeepsOwners(t: Table, agents: map<string, Agent.Agent>, id: string, a: Agent.Agent, ok: bool)
    requires forall i :: 0 <= i < |t| ==> RowHasOwner(agents, t[i])
    requires id in agents && !agents[id].unregister.Committed?
    requires a == agents[id].(unregister := if ok then Agent.Committed else Agent.Aborted)
    ensures var t' := if ok then MarkInstance(t, id) else t;
      forall i :: 0 <= i < |t'| ==> RowHasOwner(agents[id := a], t'[i])
  {
    var t' := if ok then MarkInstance(t, id) else t;
    forall i | 0 <= i < |t'|
      ensures RowHasOwner(agents[id := a], t'[i])
    {
      assert RowHasOwner(agents, t[i]);
    }
  }

  lemma WriteKeepsTable(m: Master.State, agents: map<string, Agent.Agent>, id: string, a: Agent.Agent, ok: bool)
    requires TableInv(m, agents) && Master.Inv(m)
    requires id in agents && agents[id].unregister.SnapshotTaken?
    requires a == agents[id].(unregister := if ok then Agent.Committed else Agent.Aborted)
    ensures TableInv(Master.Next(m, Master.UnregisterWrite(id, ok)), agents[id := a])
  {
    var m' := Master.Next(m, Master.UnregisterWrite(id, ok));
    var t, t', agents' := m.table, m'.table, agents[id := a];
    WriteEffect(m, id);
    assert t' == if ok then MarkInstance(t, id) else t;
    WriteKeepsOwners(t, agents, id, a, ok);
    forall other | other in agents'
      ensures AgentHasRows(t', other, agents'[other])
    {
      SameRowsKeepRows(t, t', other, agents[other], agents'[other]);
    }
    forall c | c in m'.calls
      ensures CallIsComplete(t', c, m'.calls[c])
    {
      SameRowsKeepCalls(t, t', c, m.calls[c]);
    }
  }

  lemma NextKeepsAgentsInv(s: System, e: Event)
    requires AgentsInv(s.agents) && Enabled(s, e)
    ensures AgentsInv(Next(s, e).agents)
  {
    if e.Acts? {
      Agent.NextKeepsInv(s.agents[e.id], e.act);
    }
  }

  lemma NextKeepsTable(s: System, e: Event)
    requires TableInv(s.master, s.agents) && Master.Inv(s.master) && Enabled(s, e)
    requires e.Acts? ==> Agent.Admissible(s.agents[e.id], e.act)
    ensures TableInv(NextMaster(s, e), s.agents[e.id := NextAgent(s, e)])
  {
    var m, agents, id, a := s.master, s.agents, e.id, NextAgent(s, e);
    match e
    case Start(_, url) => LocalKeepsTable(m, agents, id, a);
    case Acts(_, act) =>
      match act {
        case RegisterTx(true) => RegisterKeepsTable(m, agents, id, a);
        case UnregisterRead(true) => ReadKeepsTable(m, agents, id, a);
        case UnregisterWrite(ok) => WriteKeepsTable(m, agents, id, a, ok);
        case _ => LocalKeepsTable(m, agents, id, a);
      }
  }

  lemma EnabledIsAdmissible(s: System, e: Event)
    requires AgentsInv(s.agents) && Enabled(s, e)
    ensures e.Acts? ==> Agent.Admissible(s.agents[e.id], e.act)
  {
    if e.Acts? {
      Agent.EnabledIsAdmissible(s.agents[e.id], e.act);
    }
  }

  lemma NextKeepsInv(s: System, e: Event)
    requires Inv(s) && Enabled(s, e)
    ensures Inv(Next(s, e))
  {
    EnabledIsAdmissible(s, e);
    NextKeepsAgentsInv(s, e);
    NextKeepsTable(s, e);
    NextKeepsMasterInv(s, e);
  }

  lemma NextKeepsMasterInv(s: System, e: Event)
    requires Master.Inv(s.master) && Enabled(s, e)
    ensures Master.Inv(NextMaster(s, e))
  {
    if e.Acts? && StepOf(e.id, s.agents[e.id], e.act).Some? {
      Master.NextKeepsInv(s.master, StepOf(e.id, s.agents[e.id], e.act).value);
    }
  }

  lemma {:induction false} RunKeepsInv(s: System, events: seq<Event>)
    requires Inv(s) && Runs(s, events)
    ensures Inv(After(s, events))
    decreases |events|
  {
    if events == [] {
    } else {
      NextKeepsInv(s, events[0]);
      RunKeepsInv(Next(s, events[0]), events[1..]);
    }
  }

  /******* The master's part of a run *******/

  /** The transactions of one event, at most one. */
  function OwnSteps(s: System, e: Event): (own: seq<Master.Step>)
    requires Enabled(s, e)
    ensures own == [] ==> NextMaster(s, e) == s.master
    ensures own != [] ==> own == [own[0]] && NextMaster(s, e) == Master.Next(s.master, own[0])
  {
    var step := if e.Acts? then StepOf(e.id, s.agents[e.id], e.act) else None;
    if step.Some? then [step.value] else []
  }

  /** The transactions that a run of the system makes the master execute. */
  function MasterSteps(s: System, events: seq<Event>): seq<Master.Step>
    requires Runs(s, events)
    decreases |events|
  {
    if events == [] then []
    else OwnSteps(s, events[0]) + MasterSteps(Next(s, events[0]), events[1..])
  }

  /** The master of a run of the system does a run of its own, so all that holds of those holds here. */
  lemma {:induction false} MasterRuns(s: System, events: seq<Event>)
    requires Runs(s, events)
    ensures After(s, events).master == Master.Run(s.master, MasterSteps(s, events))
    decreases |events|
  {
    if events == [] {
    } else {
      var s', own := Next(s, events[0]), OwnSteps(s, events[0]);
      var rest := MasterSteps(s', events[1..]);
      MasterRuns(s', events[1..]);
      Master.RunAppend(s.master, own, rest);
      if own == [] {
        assert own + rest == rest;
      } else {
        assert own[..0] == [];
      }
    }
  }

  /** Whatever happens after a reachable state, its rows stay, and a dead one stays dead. */
  lemma RowsStay(events: seq<Event>, more: seq<Event>)
    requires Runs(EMPTY, events) && Runs(After(EMPTY, events), more)
    ensures var t, t' := After(EMPTY, events).master.table, After(After(EMPTY, events), more).master.table;
      |t| <= |t'| && forall i :: 0 <= i < |t| ==> t'[i] in {t[i], t[i].(isAlive := false)}
  {
    RunKeepsInv(EMPTY, events);
    var s := After(EMPTY, events);
    MasterRuns(s, more);
    Master.NoResurrection(s.master, MasterSteps(s, more));
  }

  /******* Refinement: the table is a set of live triples *******/

  datatype Triple = Triple(id: string, url: string, handler: string)

  function Live(t: Table): set<Triple> {
    set r | r in t && r.isAlive :: Triple(r.instance, r.service, r.handler)
  }

  function Triples(id: string, a: Agent.Agent): set<Triple> {
    set h | h in a.services :: Triple(id, a.url, h)
  }

  /** The abstract registry: a committed registration adds its triples, a committed write removes the instance. */
  function AbstractNext(live: set<Triple>, s: System, e: Event): set<Triple>
    requires Enabled(s, e)
  {
    match e
    case Acts(id, RegisterTx(true)) => live + Triples(id, s.agents[id])
    case Acts(id, UnregisterWrite(true)) => set t | t in live && t.id != id
    case _ => live
  }

  function AbstractAfter(live: set<Triple>, s: System, events: seq<Event>): set<Triple>
    requires Runs(s, events)
    decreases |events|
  {
    if events == [] then live
    else AbstractAfter(AbstractNext(live, s, events[0]), Next(s, events[0]), events[1..])
  }

  lemma RegisterRefines(t: Table, id: string, a: Agent.Agent)
    requires KeyOrdered(t)
    ensures Live(InsertAll(t, Batch(a.url, id, a.services))) == Live(t) + Triples(id, a)
  {
    var t' := InsertAll(t, Batch(a.url, id, a.services));
    RegisteredRows(t, a.url, id, a.services);
    forall x | x in Live(t')
      ensures x in Live(t) + Triples(id, a)
    {
      var i :| 0 <= i < |t'| && t'[i].isAlive && x == Triple(t'[i].instance, t'[i].service, t'[i].handler);
      if i < |t| {
        assert t[i] in t;
      } else {
        assert a.services[i - |t|] in a.services;
      }
    }
    forall x | x in Live(t)
      ensures x in Live(t')
    {
      var i :| 0 <= i < |t| && t[i].isAlive && x == Triple(t[i].instance, t[i].service, t[i].handler);
      assert t'[i] in t';
    }
    forall x | x in Triples(id, a)
      ensures x in Live(t')
    {
      var k :| 0 <= k < |a.services| && x == Triple(id, a.url, a.services[k]);
      assert t'[|t| + k] in t';
    }
  }

  lemma MarkInstanceRefines(t: Table, id: string)
    ensures Live(MarkInstance(t, id)) == set x | x in Live(t) && x.id != id
  {
    var t' := MarkInstance(t, id);
    forall x | x in Live(t')
      ensures x in Live(t) && x.id != id
    {
      var i :| 0 <= i < |t'| && t'[i].isAlive && x == Triple(t'[i].instance, t'[i].service, t'[i].handler);
      assert t[i] in t;
    }
    forall x | x in Live(t) && x.id != id
      ensures x in Live(t')
    {
      var i :| 0 <= i < |t| && t[i].isAlive && x == Triple(t[i].instance, t[i].service, t[i].handler);
      assert t'[i] in t';
    }
  }

  lemma NextRefines(s: System, e: Event)
    requires TableInv(s.master, s.agents) && Master.Inv(s.master) && Enabled(s, e)
    ensures Live(NextMaster(s, e).table) == AbstractNext(Live(s.master.table), s, e)
  {
    match e
    case Start(_, _) =>
    case Acts(id, act) =>
      match act {
        case RegisterTx(true) => RegisterRefines(s.master.table, id, s.agents[id]);
        case UnregisterWrite(true) =>
          assert id in s.master.calls;
          WriteEffect(s.master, id);
          MarkInstanceRefines(s.master.table, id);
        case _ =>
      }
  }

  /** Over every interleaving the table refines the set of live triples. */
  lemma {:induction false} RunRefines(s: System, events: seq<Event>)
    requires Inv(s) && Runs(s, events)
    ensures Live(After(s, events).master.table) == AbstractAfter(Live(s.master.table), s, events)
    decreases |events|
  {
    if events == [] {
    } else {
      NextKeepsInv(s, events[0]);
      NextRefines(s, events[0]);
      RunRefines(Next(s, events[0]), events[1..]);
    }
  }

  /** The alive urls of a handler are those of its live triples. */
  lemma AliveUrlsOfLive(t: Table, handler: string)
    ensures AliveUrls(t, handler) == set x | x in Live(t) && x.handler == handler :: x.url
  {
    forall u | u in AliveUrls(t, handler)
      ensures u in set x | x in Live(t) && x.handler == handler :: x.url
    {
      var r :| r in t && r.handler == handler && r.isAlive && r.service == u;
      assert Triple(r.instance, r.service, r.handler) in Live(t);
    }
  }

  /******* What a lookup answers *******/

  /** Some agent whose registration stands offers the handler at the url. */
  ghost predicate Offered(agents: map<string, Agent.Agent>, url: string, handler: string) {
    exists id :: id in agents && Listed(agents[id]) && agents[id].url == url && handler in agents[id].services
  }

  /**
   Reference counting of shared urls: in every reachable state a url is listed for a handler exactly
   when at least one instance registered it with that handler and has not committed its unregister.
   */
  lemma ListedIffOffered(events: seq<Event>, url: string, handler: string)
    requires Runs(EMPTY, events)
    ensures var s := After(EMPTY, events);
      url in AliveUrls(s.master.table, handler) <==> Offered(s.agents, url, handler)
  {
    RunKeepsInv(EMPTY, events);
    var s := After(EMPTY, events);
    AliveIffOffered(s.master, s.agents, url, handler);
  }

  lemma AliveIffOffered(m: Master.State, agents: map<string, Agent.Agent>, url: string, handler: string)
    requires TableInv(m, agents)
    ensures url in AliveUrls(m.table, handler) <==> Offered(agents, url, handler)
  {
  }

  /** Every answer to a lookup, whatever its order, lists exactly the offered urls, each once. */
  lemma LookupAnswers(events: seq<Event>, handler: string, answer: seq<string>)
    requires Runs(EMPTY, events)
    requires IsDistinctAnswer(answer, After(EMPTY, events).master.table, handler)
    ensures NoDuplicates(answer)
    ensures forall u :: u in answer <==> Offered(After(EMPTY, events).agents, u, handler)
  {
    forall u
      ensures u in answer <==> Offered(After(EMPTY, events).agents, u, handler)
    {
      ListedIffOffered(events, u, handler);
    }
  }

  /**
   Watched means discoverable: from the acknowledged registration until the master commits the
   unregister, the agent's url is listed for each of its services, whatever the other agents do.
   */
  lemma WatchedIsDiscoverable(events: seq<Event>, id: string, handler: string)
    requires Runs(EMPTY, events)
    requires id in After(EMPTY, events).agents
    requires var a := After(EMPTY, events).agents[id];
      Agent.PastRegister(a) && !a.unregister.Committed? && handler in a.services
    ensures var s := After(EMPTY, events);
      s.agents[id].url in AliveUrls(s.master.table, handler)
  {
    RunKeepsInv(EMPTY, events);
    var s := After(EMPTY, events);
    Agent.RegisterComesFirst(s.agents[id]);
    AliveIffOffered(s.master, s.agents, s.agents[id].url, handler);
  }

  /** An agent's unregister is atomic at its write, whatever ran since its read. */
  lemma AgentUnregisterIsAtomic(events: seq<Event>, id: string)
    requires Runs(EMPTY, events) && Enabled(After(EMPTY, events), Acts(id, Agent.UnregisterWrite(true)))
    ensures var s := After(EMPTY, events);
      Next(s, Acts(id, Agent.UnregisterWrite(true))).master.table == MarkInstance(s.master.table, id)
  {
    RunKeepsInv(EMPTY, events);
    WriteEffect(After(EMPTY, events).master, id);
  }

  /** An agent in which nothing can move any more stays as it is. */
  lemma {:induction false} QuiescentStays(s: System, events: seq<Event>, id: string)
    requires Runs(s, events) && id in s.agents && Agent.Quiescent(s.agents[id])
    ensures id in After(s, events).agents && After(s, events).agents[id] == s.agents[id]
    decreases |events|
  {
    if events == [] {
    } else {
      assert events[0].id != id;
      QuiescentStays(Next(s, events[0]), events[1..], id);
    }
  }

  /**
   Execute drops the error of the unregister call, and a register call whose reply is lost may still
   commit. Once nothing of an agent can move any more, however its execution ended, each of its triples
   is live for ever if the master committed the registration and not the unregister call, and dead for
   good otherwise.
   */
  lemma ListingIsFinal(events: seq<Event>, more: seq<Event>, id: string, handler: string)
    requires Runs(EMPTY, events) && Runs(After(EMPTY, events), more)
    requires id in After(EMPTY, events).agents
    requires var a := After(EMPTY, events).agents[id];
      Agent.Quiescent(a) && handler in a.services
    ensures var a := After(EMPTY, events).agents[id];
      Triple(id, a.url, handler) in Live(After(After(EMPTY, events), more).master.table) <==> Listed(a)
  {
    var s := After(EMPTY, events);
    var s' := After(s, more);
    RunKeepsInv(EMPTY, events);
    RunKeepsInv(s, more);
    QuiescentStays(s, more, id);
    LiveOfAgents(s'.master, s'.agents);
    var x := Triple(id, s.agents[id].url, handler);
    assert x in Live(s'.master.table) <==> Owns(s'.agents, x);
  }

  /** The acts of an agent as events. */
  function EventsOf(id: string, acts: seq<Agent.Act>): seq<Event> {
    if acts == [] then [] else [Acts(id, acts[0])] + EventsOf(id, acts[1..])
  }

  /** Whatever an agent can do it can do in the system. */
  lemma {:induction false} ActsRun(s: System, id: string, acts: seq<Agent.Act>)
    requires id in s.agents && Agent.Runs(s.agents[id], acts)
    ensures Runs(s, EventsOf(id, acts)) && id in After(s, EventsOf(id, acts)).agents
    ensures After(s, EventsOf(id, acts)).agents[id] == Agent.After(s.agents[id], acts)
    decreases |acts|
  {
    if acts == [] {
    } else {
      ActsRun(Next(s, Acts(id, acts[0])), id, acts[1..]);
      assert EventsOf(id, acts)[1..] == EventsOf(id, acts[1..]);
    }
  }

  /**
   A run on which an execution fails because the reply of its register call is lost, the master commits
   the registration all the same, and the url stays listed whatever happens afterwards.
   */
  lemma LostReplyStaysListed(id: string, url: string, handler: string) returns (events: seq<Event>)
    ensures Runs(EMPTY, events) && id in After(EMPTY, events).agents
    ensures var a := After(EMPTY, events).agents[id];
      a.main == Agent.Returned(Some(Agent.RegisterFailed)) && Agent.Quiescent(a)
    ensures forall more :: Runs(After(EMPTY, events), more) ==>
      url in AliveUrls(After(After(EMPTY, events), more).master.table, handler)
  {
    var acts := Agent.LostReplyFails(url, handler);
    var s := Next(EMPTY, Start(id, url));
    ActsRun(s, id, acts);
    events := [Start(id, url)] + EventsOf(id, acts);
    assert events[1..] == EventsOf(id, acts);
    assert After(EMPTY, events) == After(s, EventsOf(id, acts));
    forall more | Runs(After(EMPTY, events), more)
      ensures url in AliveUrls(After(After(EMPTY, events), more).master.table, handler)
    {
      ListingIsFinal(events, more, id, handler);
      AliveUrlsOfLive(After(After(EMPTY, events), more).master.table, handler);
    }
  }

  /** Removing one instance keeps a url listed exactly if another listed instance shares it. */
  lemma RemovingOneInstance(events: seq<Event>, id: string, url: string, handler: string)
    requires Runs(EMPTY, events) && Enabled(After(EMPTY, events), Acts(id, Agent.UnregisterWrite(true)))
    ensures var s := After(EMPTY, events);
      url in AliveUrls(Next(s, Acts(id, Agent.UnregisterWrite(true))).master.table, handler) <==>
        exists other :: other in s.agents && other != id && Listed(s.agents[other])
          && s.agents[other].url == url && handler in s.agents[other].services
  {
    var s := After(EMPTY, events);
    var e := Acts(id, Agent.UnregisterWrite(true));
    RunKeepsInv(EMPTY, events);
    EnabledIsAdmissible(s, e);
    NextKeepsTable(s, e);
    var agents' := s.agents[id := NextAgent(s, e)];
    AliveIffOffered(NextMaster(s, e), agents', url, handler);
    Agent.RegisterComesFirst(s.agents[id]);
    OthersOffer(s.agents, id, NextAgent(s, e), url, handler);
  }

  lemma OthersOffer(agents: map<string, Agent.Agent>, id: string, a: Agent.Agent, url: string, handler: string)
    requires !Listed(a)
    ensures Offered(agents[id := a], url, handler) <==>
      exists other :: other in agents && other != id && Listed(agents[other])
        && agents[other].url == url && handler in agents[other].services
  {
    var agents' := agents[id := a];
    if Offered(agents', url, handler) {
      var other :| other in agents' && Listed(agents'[other]) && agents'[other].url == url
        && handler in agents'[other].services;
      assert other in agents && other != id;
    }
    forall other | other in agents && other != id && Listed(agents[other])
      ensures agents[other].url == url && handler in agents[other].services ==> Offered(agents', url, handler)
    {
      assert other in agents' && agents'[other] == agents[other];
    }
  }

  /******* Independence of the interleaving *******/

  /** An agent's own history: its start and its acts, in order. */
  function Project(events: seq<Event>, id: string): seq<Event> {
    if events == [] then []
    else (if events[0].id == id then [events[0]] else []) + Project(events[1..], id)
  }

  /** What an agent makes of its own events, with no regard to anyone else's. */
  function Alone(a: Option<Agent.Agent>, own: seq<Event>): Option<Agent.Agent>
    decreases |own|
  {
    if own == [] then a
    else
      match own[0]
      case Start(_, url) => if a.None? then Alone(Some(Agent.NewAgent(url)), own[1..]) else None
      case Acts(_, act) =>
        if a.Some? && Agent.Enabled(a.value, act) then Alone(Some(Agent.Next(a.value, act)), own[1..]) else None
  }

  function Lookup(agents: map<string, Agent.Agent>, id: string): Option<Agent.Agent> {
    if id in agents then Some(agents[id]) else None
  }

  /** No other agent's event influences what an agent does. */
  lemma {:induction false} AgentsRunAlone(s: System, events: seq<Event>, id: string)
    requires Runs(s, events)
    ensures Lookup(After(s, events).agents, id) == Alone(Lookup(s.agents, id), Project(events, id))
    decreases |events|
  {
    if events == [] {
    } else {
      var s' := Next(s, events[0]);
      AgentsRunAlone(s', events[1..], id);
      var own, rest := Project(events, id), Project(events[1..], id);
      if events[0].id == id {
        assert own[0] == events[0] && own[1..] == rest;
      } else {
        assert own == rest;
        assert Lookup(s'.agents, id) == Lookup(s.agents, id);
      }
    }
  }

  /**
   Any two interleavings in which every agent does the same give the same set of live triples and the
   same answer for every handler.
   */
  lemma InterleavingDoesNotMatter(events: seq<Event>, events': seq<Event>)
    requires Runs(EMPTY, events) && Runs(EMPTY, events')
    requires forall id :: Project(events, id) == Project(events', id)
    ensures Live(After(EMPTY, events).master.table) == Live(After(EMPTY, events').master.table)
    ensures forall h ::
      AliveUrls(After(EMPTY, events).master.table, h) == AliveUrls(After(EMPTY, events').master.table, h)
  {
    var s, s' := After(EMPTY, events), After(EMPTY, events');
    forall id
      ensures Lookup(s.agents, id) == Lookup(s'.agents, id)
    {
      AgentsRunAlone(EMPTY, events, id);
      AgentsRunAlone(EMPTY, events', id);
    }
    assert s.agents == s'.agents by {
      assert forall id :: id in s.agents <==> Lookup(s.agents, id).Some?;
      assert forall id :: id in s'.agents <==> Lookup(s'.agents, id).Some?;
      assert s.agents.Keys == s'.agents.Keys;
      forall id | id in s.agents
        ensures s.agents[id] == s'.agents[id]
      {
        assert Lookup(s.agents, id) == Lookup(s'.agents, id);
      }
    }
    RunKeepsInv(EMPTY, events);
    RunKeepsInv(EMPTY, events');
    LiveOfAgents(s.master, s.agents);
    LiveOfAgents(s'.master, s'.agents);
    forall h
      ensures AliveUrls(s.master.table, h) == AliveUrls(s'.master.table, h)
    {
      AliveUrlsOfLive(s.master.table, h);
      AliveUrlsOfLive(s'.master.table, h);
    }
  }

  lemma {:induction false} ProjectAfter(before: seq<Event>, a: seq<Event>, b: seq<Event>, id: string)
    requires Project(a, id) == Project(b, id)
    ensures Project(before + a, id) == Project(before + b, id)
  {
    if before == [] {
      assert before + a == a && before + b == b;
    } else {
      ProjectAfter(before[1..], a, b, id);
      assert (before + a)[1..] == before[1..] + a && (before + b)[1..] == before[1..] + b;
    }
  }

  /** What can happen depends on the agents alone, and so does what becomes of them. */
  lemma {:induction false} RunsByAgents(s: System, s': System, events: seq<Event>)
    requires s.agents == s'.agents && Runs(s, events)
    ensures Runs(s', events) && After(s, events).agents == After(s', events).agents
    decreases |events|
  {
    if events == [] {
    } else {
      RunsByAgents(Next(s, events[0]), Next(s', events[0]), events[1..]);
    }
  }

  lemma {:induction false} RunsAppend(s: System, a: seq<Event>, b: seq<Event>)
    ensures Runs(s, a + b) <==> Runs(s, a) && Runs(After(s, a), b)
    ensures Runs(s, a + b) ==> After(s, a + b) == After(After(s, a), b)
    decreases |a|
  {
    if a == [] {
      assert a + b == b;
    } else {
      assert (a + b)[1..] == a[1..] + b;
      if Enabled(s, a[0]) {
        RunsAppend(Next(s, a[0]), a[1..], b);
      }
    }
  }

  /**
   Neighbouring events of different agents can be swapped in any run: what is left is a run, and the live
   triples and every lookup's answer at its end are the same.
   */
  lemma NeighboursCommute(before: seq<Event>, e: Event, f: Event, rest: seq<Event>)
    requires e.id != f.id && Runs(EMPTY, before + ([e, f] + rest))
    ensures Runs(EMPTY, before + ([f, e] + rest))
    ensures var t, t' := After(EMPTY, before + ([e, f] + rest)).master.table,
                         After(EMPTY, before + ([f, e] + rest)).master.table;
      Live(t) == Live(t') && forall h :: AliveUrls(t, h) == AliveUrls(t', h)
  {
    RunsAppend(EMPTY, before, [e, f] + rest);
    RunsAppend(EMPTY, before, [f, e] + rest);
    SwapRuns(After(EMPTY, before), e, f, rest);
    forall id
      ensures Project(before + ([e, f] + rest), id) == Project(before + ([f, e] + rest), id)
    {
      ProjectSwap(e, f, rest, id);
      ProjectAfter(before, [e, f] + rest, [f, e] + rest, id);
    }
    InterleavingDoesNotMatter(before + ([e, f] + rest), before + ([f, e] + rest));
  }

  lemma SwapRuns(s: System, e: Event, f: Event, rest: seq<Event>)
    requires e.id != f.id && Runs(s, [e, f] + rest)
    ensures Runs(s, [f, e] + rest)
  {
    assert ([e, f] + rest)[1..] == [f] + rest && ([f] + rest)[1..] == rest;
    assert ([f, e] + rest)[1..] == [e] + rest && ([e] + rest)[1..] == rest;
    assert Enabled(s, f) && Enabled(Next(s, f), e);
    var ef, fe := Next(Next(s, e), f), Next(Next(s, f), e);
    assert ef.agents == fe.agents;
    RunsByAgents(ef, fe, rest);
  }

  lemma ProjectSwap(e: Event, f: Event, rest: seq<Event>, id: string)
    requires e.id != f.id
    ensures Project([e, f] + rest, id) == Project([f, e] + rest, id)
  {
    assert ([e, f] + rest)[1..] == [f] + rest && ([f] + rest)[1..] == rest;
    assert ([f, e] + rest)[1..] == [e] + rest && ([e] + rest)[1..] == rest;
  }

  /** The live triples are those of the listed agents. */
  lemma LiveOfAgents(m: Master.State, agents: map<string, Agent.Agent>)
    requires TableInv(m, agents)
    ensures forall x :: x in Live(m.table) <==> Owns(agents, x)
  {
  }

  ghost predicate Owns(agents: map<string, Agent.Agent>, x: Triple) {
    x.id in agents && Listed(agents[x.id]) && x.url == agents[x.id].url && x.handler in agents[x.id].services
  }
}
