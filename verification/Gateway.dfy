/**
 The gateway's request: look the service up, call every url it answers over the cached channel, and
 compose the responses. With the registry of module System this gives the end-to-end results.
 */
module Gateway {
  import opened Common
  import opened Registry
  import opened Merge
  import opened ChannelFactory
  import Repository
  import Agent
  import System

  /** The outcome of one call per url, in the order of the lookup. */
  function CallAll(urls: seq<string>, backend: string -> CallResult): seq<CallResult> {
    seq(|urls|, i requires 0 <= i < |urls| => backend(urls[i]))
  }

  function Reply(urls: seq<string>, backend: string -> CallResult): Response {
    MergeAll(Responses(CallAll(urls, backend)))
  }

  /**
   The last url of the list that answers a field with something decides the field: the results are merged
   in the order of the urls.
   */
  lemma ReplyTakesLast(urls: seq<string>, backend: string -> CallResult, f: Field, i: nat)
    requires i < |urls| && backend(urls[i]).Answered? && backend(urls[i]).response.Get(f) != ""
    requires forall j :: i < j < |urls| ==> backend(urls[j]).CallFailed? || backend(urls[j]).response.Get(f) == ""
    ensures Reply(urls, backend).Get(f) == backend(urls[i]).response.Get(f)
  {
    MergeAllTakesLast(Responses(CallAll(urls, backend)), f, i);
  }

  class CityInformationService {
    const factory: ChannelFactory

    constructor (factory: ChannelFactory)
      ensures this.factory == factory
    {
      this.factory := factory;
    }

    /** A missing list of handlers is an exception; a failed call is an empty response. */
    method GetCityInformation(lookup: Lookup, backend: string -> CallResult)
      returns (reply: Result<SearchResponse, Failure>, called: seq<string>)
      requires factory.Valid()
      modifies factory
      ensures factory.Valid()
      ensures match lookup {
        case LookupFailed => reply == Err(DiscoveryFailed) && called == [] && unchanged(factory)
        case NoResponse => reply == Err(NullHandlers) && called == [] && unchanged(factory)
        case Handlers(urls) =>
          && reply.Ok? && fresh(reply.value) && reply.value.Value() == Reply(urls, backend)
          && called == urls
          && factory.Added(SetOf(urls))
          && forall f: Field, i ::
               && 0 <= i < |urls| && backend(urls[i]).Answered? && backend(urls[i]).response.Get(f) != ""
               && (forall j :: i < j < |urls| ==>
                     backend(urls[j]).CallFailed? || backend(urls[j]).response.Get(f) == "")
               ==> reply.value.Value().Get(f) == backend(urls[i]).response.Get(f)
      }
    {
      called := [];
      if lookup.LookupFailed? {
        return Err(DiscoveryFailed), called;
      }
      if lookup.NoResponse? {
        return Err(NullHandlers), called;
      }
      var channels := factory.Enumerate(lookup.urls);
      var tasks;
      tasks, called := CallChannels(channels, lookup.urls, backend);
      var merged := MergeAllResults(tasks);
      reply := Ok(merged);
      forall f: Field, i |
        && 0 <= i < |called| && backend(called[i]).Answered? && backend(called[i]).response.Get(f) != ""
        && (forall j :: i < j < |called| ==>
              backend(called[j]).CallFailed? || backend(called[j]).response.Get(f) == "")
        ensures Reply(called, backend).Get(f) == backend(called[i]).response.Get(f)
      {
        ReplyTakesLast(called, backend, f, i);
      }
    }

    /** The tasks of the fan-out, in channel order; a call that throws yields a new, empty response. */
    static method CallChannels(channels: seq<Channel>, ghost urls: seq<string>, backend: string -> CallResult)
      returns (tasks: seq<SearchResponse>, called: seq<string>)
      requires |channels| == |urls| && forall i :: 0 <= i < |urls| ==> channels[i].target == urls[i]
      ensures Values(tasks) == Responses(CallAll(urls, backend))
      ensures called == urls
    {
      tasks, called := [], [];
      for k := 0 to |channels|
        invariant called == urls[..k]
        invariant |tasks| == k && forall i :: 0 <= i < k ==> tasks[i].Value() == OrEmpty(backend(urls[i]))
      {
        called := called + [channels[k].target];
        var task := ResponseOf(backend(channels[k].target));
        tasks := tasks + [task];
      }
    }

    static method ResponseOf(result: CallResult) returns (task: SearchResponse)
      ensures fresh(task) && task.Value() == OrEmpty(result)
    {
      task := new SearchResponse();
      match result {
        case Answered(r) =>
          task.nearbyCities, task.population, task.weather := r.nearbyCities, r.population, r.weather;
        case CallFailed =>
      }
    }
  }

  /**
   A request against the running master: it succeeds exactly when neither its lookup's query nor the scan
   of one of the rows fails, and then exactly the alive urls are called, each once.
   */
  method Serve(repo: Repository.ServiceHandlerRepository, gateway: CityInformationService, service: string,
               faults: Repository.ReadFaults, backend: string -> CallResult)
    returns (reply: Result<SearchResponse, Failure>, called: seq<string>)
    requires gateway.factory.Valid()
    modifies gateway.factory
    ensures gateway.factory.Valid()
    ensures reply.Ok? <==>
      !faults.query && forall k :: 0 <= k < |AliveUrls(repo.db.rows, service)| ==> k !in faults.scans
    ensures reply.Ok? ==>
      && fresh(reply.value)
      && IsDistinctAnswer(called, repo.db.rows, service)
      && reply.value.Value() == Reply(called, backend)
      && gateway.factory.Added(AliveUrls(repo.db.rows, service))
    ensures reply.Err? ==> reply.error == DiscoveryFailed && called == [] && unchanged(gateway.factory)
  {
    var answer := repo.GetAliveServices(service, faults);
    var lookup := match answer { case Ok(urls) => Handlers(urls) case Err(_) => LookupFailed };
    reply, called := gateway.GetCityInformation(lookup, backend);
    if answer.Ok? {
      assert SetOf(answer.value) == AliveUrls(repo.db.rows, service);
    }
  }

  /******* End to end *******/

  /** The response to a call of the url sets the field to the value. */
  predicate Sets(backend: string -> CallResult, url: string, f: Field, value: string) {
    backend(url).Answered? && backend(url).response.Get(f) == value && value != ""
  }

  lemma ReplyNonEmptyIff(urls: seq<string>, backend: string -> CallResult, f: Field)
    ensures Reply(urls, backend).Get(f) != "" <==>
      exists u :: u in urls && backend(u).Answered? && backend(u).response.Get(f) != ""
    ensures Reply(urls, backend).Get(f) != "" ==>
      exists u :: u in urls && Sets(backend, u, f, Reply(urls, backend).Get(f))
  {
    var responses := Responses(CallAll(urls, backend));
    MergeAllNonEmptyIff(responses, f);
    if r :| r in responses && r.Get(f) != "" && r.Get(f) == Reply(urls, backend).Get(f) {
      var i :| 0 <= i < |responses| && responses[i] == r;
      assert urls[i] in urls && Sets(backend, urls[i], f, r.Get(f));
    }
    if u :| u in urls && backend(u).Answered? && backend(u).response.Get(f) != "" {
      var i :| 0 <= i < |urls| && urls[i] == u;
      assert responses[i] in responses;
    }
  }

  /**
   In every reachable state of master and agents, for every order in which the lookup may answer: the
   urls it answers are those that a listed instance offers, and a field of their composition is
   non-empty exactly when some such url answers with it.
   */
  lemma EndToEnd(events: seq<System.Event>, service: string, urls: seq<string>, backend: string -> CallResult)
    requires System.Runs(System.EMPTY, events)
    requires IsDistinctAnswer(urls, System.After(System.EMPTY, events).master.table, service)
    ensures var agents := System.After(System.EMPTY, events).agents;
      && NoDuplicates(urls)
      && (forall u :: u in urls <==> System.Offered(agents, u, service))
      && (forall f: Field ::
            Reply(urls, backend).Get(f) != "" <==>
              exists u :: System.Offered(agents, u, service)
                && backend(u).Answered? && backend(u).response.Get(f) != "")
  {
    System.LookupAnswers(events, service, urls);
    forall f: Field {
      ReplyNonEmptyIff(urls, backend, f);
    }
  }

  /**
   The request end to end: when the master is in a state that a run of the agents reaches, the request
   succeeds exactly when its lookup does. The gateway then calls each url that a listed instance offers,
   exactly once however many instances share it, calls nothing else, and a field of the message it
   returns is non-empty exactly when some offered url answers with it. No failed call makes it fail.
   */
  method ServeInReachableState(ghost events: seq<System.Event>, repo: Repository.ServiceHandlerRepository,
                               gateway: CityInformationService, service: string,
                               faults: Repository.ReadFaults, backend: string -> CallResult)
    returns (reply: Result<SearchResponse, Failure>, called: seq<string>)
    requires gateway.factory.Valid()
    requires System.Runs(System.EMPTY, events)
    requires repo.db.rows == System.After(System.EMPTY, events).master.table
    modifies gateway.factory
    ensures gateway.factory.Valid()
    ensures reply.Ok? <==>
      !faults.query && forall k :: 0 <= k < |AliveUrls(repo.db.rows, service)| ==> k !in faults.scans
    ensures reply.Ok? ==>
      && fresh(reply.value)
      && NoDuplicates(called)
      && (forall u :: u in called <==> System.Offered(System.After(System.EMPTY, events).agents, u, service))
      && reply.value.Value() == Reply(called, backend)
      && (forall f: Field ::
            reply.value.Value().Get(f) != "" <==>
              exists u :: System.Offered(System.After(System.EMPTY, events).agents, u, service)
                && backend(u).Answered? && backend(u).response.Get(f) != "")
    ensures reply.Err? ==> reply.error == DiscoveryFailed && called == [] && unchanged(gateway.factory)
  {
    reply, called := Serve(repo, gateway, service, faults, backend);
    if reply.Ok? {
      EndToEnd(events, service, called, backend);
    }
  }

  /**
   A request with the factory that is built for it, whose constructor looks every client's service up
   first, whatever the master answers there. The request succeeds exactly when all these lookups and its
   own do; the first lookup that fails decides the error, and then nothing has been called.
   */
  method ServeRequest(ghost events: seq<System.Event>, repo: Repository.ServiceHandlerRepository,
                      initial: seq<Lookup>, service: string,
                      faults: Repository.ReadFaults, backend: string -> CallResult)
    returns (reply: Result<SearchResponse, Failure>, called: seq<string>)
    requires System.Runs(System.EMPTY, events)
    requires repo.db.rows == System.After(System.EMPTY, events).master.table
    ensures reply.Ok? <==>
      && (forall k :: 0 <= k < |initial| ==> initial[k].Handlers?)
      && !faults.query && (forall k :: 0 <= k < |AliveUrls(repo.db.rows, service)| ==> k !in faults.scans)
    ensures reply.Ok? ==>
      && fresh(reply.value)
      && NoDuplicates(called)
      && (forall u :: u in called <==> System.Offered(System.After(System.EMPTY, events).agents, u, service))
      && reply.value.Value() == Reply(called, backend)
      && (forall f: Field ::
            reply.value.Value().Get(f) != "" <==>
              exists u :: System.Offered(System.After(System.EMPTY, events).agents, u, service)
                && backend(u).Answered? && backend(u).response.Get(f) != "")
    ensures reply.Err? ==> called == []
    ensures reply.Err? ==>
      || (exists k ::
            && 0 <= k < |initial| && (forall j :: 0 <= j < k ==> initial[j].Handlers?)
            && initial[k] == if reply.error.DiscoveryFailed? then LookupFailed else NoResponse)
      || ((forall k :: 0 <= k < |initial| ==> initial[k].Handlers?) && reply.error == DiscoveryFailed)
  {
    var factory := new ChannelFactory();
    var failure := factory.Initialize(initial);
    if failure.Some? {
      return Err(failure.value), [];
    }
    var gateway := new CityInformationService(factory);
    reply, called := ServeInReachableState(events, repo, gateway, service, faults, backend);
  }

  /******* Order of the lookup *******/

  /** Any two urls whose answers both set a field agree on it. */
  ghost predicate BackendsAgree(urls: set<string>, backend: string -> CallResult) {
    forall u, v, f: Field, x, y ::
      u in urls && v in urls && Sets(backend, u, f, x) && Sets(backend, v, f, y) ==> x == y
  }

  lemma AgreeingBackendsAreCompatible(urls: seq<string>, backend: string -> CallResult)
    ensures BackendsAgree(SetOf(urls), backend) <==> Compatible(Responses(CallAll(urls, backend)))
  {
    var responses := Responses(CallAll(urls, backend));
    if BackendsAgree(SetOf(urls), backend) {
      forall a, b, f: Field | a in responses && b in responses && a.Get(f) != "" && b.Get(f) != ""
        ensures a.Get(f) == b.Get(f)
      {
        var i :| 0 <= i < |urls| && responses[i] == a;
        var j :| 0 <= j < |urls| && responses[j] == b;
        assert Sets(backend, urls[i], f, a.Get(f)) && Sets(backend, urls[j], f, b.Get(f));
      }
    }
    if Compatible(responses) {
      forall u, v, f: Field, x, y |
        u in SetOf(urls) && v in SetOf(urls) && Sets(backend, u, f, x) && Sets(backend, v, f, y)
        ensures x == y
      {
        var i :| 0 <= i < |urls| && urls[i] == u;
        var j :| 0 <= j < |urls| && urls[j] == v;
        assert responses[i] in responses && responses[j] in responses;
      }
    }
  }

  /** Two answers with the same urls give the same reply when the backends agree. */
  lemma SameUrlsSameReply(a: seq<string>, b: seq<string>, backend: string -> CallResult)
    requires SetOf(a) == SetOf(b) && BackendsAgree(SetOf(a), backend)
    ensures Reply(a, backend) == Reply(b, backend)
  {
    var ra, rb := Responses(CallAll(a, backend)), Responses(CallAll(b, backend));
    AgreeingBackendsAreCompatible(a, backend);
    forall r
      ensures r in ra <==> r in rb
    {
      if r in ra {
        var i :| 0 <= i < |a| && ra[i] == r;
        assert a[i] in SetOf(b);
        var j :| 0 <= j < |b| && b[j] == a[i];
        assert rb[j] in rb;
      }
      if r in rb {
        var i :| 0 <= i < |b| && rb[i] == r;
        assert b[i] in SetOf(a);
        var j :| 0 <= j < |a| && a[j] == b[i];
        assert ra[j] in ra;
      }
    }
    CompatibleMergesAgree(ra, rb);
  }

  /** An answer with the url at position i moved to the end is an answer too. */
  lemma MovedAnswer(urls: seq<string>, t: Table, service: string, i: nat, backend: string -> CallResult, f: Field)
    returns (moved: seq<string>)
    requires IsDistinctAnswer(urls, t, service) && i < |urls|
    ensures IsDistinctAnswer(moved, t, service)
    ensures forall x :: Sets(backend, urls[i], f, x) ==> Reply(moved, backend).Get(f) == x
  {
    moved := urls[..i] + urls[i + 1..] + [urls[i]];
    forall u
      ensures u in moved <==> u in urls
    {
      assert urls == urls[..i] + [urls[i]] + urls[i + 1..];
    }
    var responses := Responses(CallAll(urls, backend));
    assert Responses(CallAll(moved, backend)) == MovedLast(responses, i);
    MovedLastPermutes(responses, i, f);
  }

  /**
   The lookup leaves the order of its urls open. The reply is the same for every order if and only if
   any two of the alive urls whose answers both set a field agree on it.
   */
  lemma ReplyIndependentOfLookupOrder(t: Table, service: string, urls: seq<string>, backend: string -> CallResult)
    requires IsDistinctAnswer(urls, t, service)
    ensures BackendsAgree(AliveUrls(t, service), backend) <==>
      forall other :: IsDistinctAnswer(other, t, service) ==> Reply(other, backend) == Reply(urls, backend)
  {
    assert SetOf(urls) == AliveUrls(t, service);
    if BackendsAgree(AliveUrls(t, service), backend) {
      forall other | IsDistinctAnswer(other, t, service)
        ensures Reply(other, backend) == Reply(urls, backend)
      {
        assert SetOf(other) == AliveUrls(t, service);
        SameUrlsSameReply(urls, other, backend);
      }
    }
    if forall other :: IsDistinctAnswer(other, t, service) ==> Reply(other, backend) == Reply(urls, backend) {
      forall u, v, f: Field, x, y | u in AliveUrls(t, service) && v in AliveUrls(t, service)
          && Sets(backend, u, f, x) && Sets(backend, v, f, y)
        ensures x == y
      {
        var i :| 0 <= i < |urls| && urls[i] == u;
        var j :| 0 <= j < |urls| && urls[j] == v;
        var last := MovedAnswer(urls, t, service, i, backend, f);
        var last' := MovedAnswer(urls, t, service, j, backend, f);
        assert Reply(last, backend) == Reply(last', backend);
      }
    }
  }

  /** A table, and backends that disagree on the weather, for which the order of the lookup shows. */
  lemma LookupOrderMatters() returns (t: Table, backend: string -> CallResult)
    ensures IsDistinctAnswer(["a", "b"], t, "city") && IsDistinctAnswer(["b", "a"], t, "city")
    ensures Reply(["a", "b"], backend).weather == "b" && Reply(["b", "a"], backend).weather == "a"
  {
    t := [ServiceHandler(1, "a", "i", "city", true), ServiceHandler(2, "b", "j", "city", true)];
    assert t[0] in t && t[1] in t;
    backend := (url: string) => Answered(Response("", "", url));
    ReplyTakesLast(["a", "b"], backend, Weather, 1);
    ReplyTakesLast(["b", "a"], backend, Weather, 1);
  }

  /**
   Two runs in which every agent does the same, interleaved in any way, lead to the same reply whenever
   the backends agree.
   */
  lemma ReplyIndependentOfInterleaving(events: seq<System.Event>, events': seq<System.Event>, service: string,
                                       urls: seq<string>, urls': seq<string>, backend: string -> CallResult)
    requires System.Runs(System.EMPTY, events) && System.Runs(System.EMPTY, events')
    requires forall id :: System.Project(events, id) == System.Project(events', id)
    requires IsDistinctAnswer(urls, System.After(System.EMPTY, events).master.table, service)
    requires IsDistinctAnswer(urls', System.After(System.EMPTY, events').master.table, service)
    requires BackendsAgree(AliveUrls(System.After(System.EMPTY, events).master.table, service), backend)
    ensures Reply(urls, backend) == Reply(urls', backend)
  {
    System.InterleavingDoesNotMatter(events, events');
    assert SetOf(urls) == AliveUrls(System.After(System.EMPTY, events).master.table, service);
    assert SetOf(urls') == AliveUrls(System.After(System.EMPTY, events').master.table, service);
    SameUrlsSameReply(urls, urls', backend);
  }
}
