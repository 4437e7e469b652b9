/** The gateway's channel cache: one channel per handler url, created on first use and never replaced. */
module ChannelFactory {
  import opened Common

  class Channel {
    const target: string

    constructor (target: string)
      ensures this.target == target
    {
      this.target := target;
    }
  }

  /** What the discovery client's lookup of a service returns. */
  datatype Lookup = LookupFailed | NoResponse | Handlers(urls: seq<string>)

  datatype Failure = DiscoveryFailed | NullHandlers

  function SetOf(handlers: seq<string>): set<string> {
    set h | h in handlers
  }

  /** The handlers of the lookups before the first one that fails. */
  function Seen(lookups: seq<Lookup>): set<string> {
    if lookups == [] || !lookups[0].Handlers? then {}
    else SetOf(lookups[0].urls) + Seen(lookups[1..])
  }

  /** A handler is seen exactly if some lookup returns it, and that one and all before it are answered. */
  lemma {:induction false} SeenIff(lookups: seq<Lookup>, h: string)
    ensures h in Seen(lookups) <==>
      exists k :: 0 <= k < |lookups| && (forall j :: 0 <= j <= k ==> lookups[j].Handlers?) && h in lookups[k].urls
  {
    if lookups == [] || !lookups[0].Handlers? {
    } else {
      var rest := lookups[1..];
      SeenIff(rest, h);
      if k :| 0 <= k < |rest| && (forall j :: 0 <= j <= k ==> rest[j].Handlers?) && h in rest[k].urls {
        assert forall j :: 1 <= j <= k + 1 ==> lookups[j] == rest[j - 1];
        assert h in lookups[k + 1].urls;
      }
      if k :| 0 <= k < |lookups| && (forall j :: 0 <= j <= k ==> lookups[j].Handlers?) && h in lookups[k].urls {
        if k > 0 {
          assert forall j :: 0 <= j <= k - 1 ==> rest[j] == lookups[j + 1];
          assert h in rest[k - 1].urls;
        }
      }
    }
  }

  lemma SeenAll(lookups: seq<Lookup>)
    ensures forall h :: h in Seen(lookups) <==>
      exists k :: 0 <= k < |lookups| && (forall j :: 0 <= j <= k ==> lookups[j].Handlers?) && h in lookups[k].urls
  {
    forall h {
      SeenIff(lookups, h);
    }
  }

  class ChannelFactory {
    var instances: map<string, Channel>

    /** The channel under a key leads to that key, so different keys hold different channels. */
    ghost predicate Valid()
      reads this
    {
      forall h :: h in instances ==> instances[h].target == h
    }

    /** Nothing that was cached has been replaced, and exactly these handlers have been added. */
    twostate predicate Added(handlers: set<string>)
      reads this
    {
      && instances.Keys == old(instances).Keys + handlers
      && forall h :: h in old(instances) ==> instances[h] == old(instances)[h]
    }

    constructor ()
      ensures Valid() && instances == map[]
    {
      instances := map[];
    }

    /** Looks every client's service up; a failed lookup ends the initialization with an exception. */
    method Initialize(lookups: seq<Lookup>) returns (err: Option<Failure>)
      requires Valid()
      modifies this
      ensures Valid() && Added(Seen(lookups))
      ensures forall h :: h in old(instances) ==> h in instances && instances[h] == old(instances)[h]
      ensures forall h :: h in instances <==>
        || h in old(instances)
        || exists k :: 0 <= k < |lookups| && (forall j :: 0 <= j <= k ==> lookups[j].Handlers?) && h in lookups[k].urls
      ensures err.None? <==> forall k :: 0 <= k < |lookups| ==> lookups[k].Handlers?
      ensures err.Some? ==> exists k ::
        && 0 <= k < |lookups| && (forall j :: 0 <= j < k ==> lookups[j].Handlers?)
        && lookups[k] == if err.value.DiscoveryFailed? then LookupFailed else NoResponse
    {
      for k := 0 to |lookups|
        invariant Valid()
        invariant forall j :: 0 <= j < k ==> lookups[j].Handlers?
        invariant instances.Keys + Seen(lookups[k..]) == old(instances).Keys + Seen(lookups)
        invariant forall h :: h in old(instances) ==> h in instances && instances[h] == old(instances)[h]
      {
        assert lookups[k..][1..] == lookups[k + 1..];
        match lookups[k] {
          case LookupFailed =>
            SeenAll(lookups);
            return Some(DiscoveryFailed);
          case NoResponse =>
            SeenAll(lookups);
            return Some(NullHandlers);
          case Handlers(urls) => RegisterHandlers(urls);
        }
      }
      SeenAll(lookups);
      err := None;
    }

    method RegisterHandlers(handlers: seq<string>)
      requires Valid()
      modifies this
      ensures Valid() && Added(SetOf(handlers))
      ensures forall h :: h in instances <==> h in old(instances) || h in handlers
      ensures forall h :: h in old(instances) ==> instances[h] == old(instances)[h]
      ensures forall h :: h in instances && h !in old(instances) ==> fresh(instances[h])
    {
      for k := 0 to |handlers|
        invariant Valid()
        invariant instances.Keys == old(instances).Keys + SetOf(handlers[..k])
        invariant forall h :: h in old(instances) ==> h in instances && instances[h] == old(instances)[h]
        invariant forall h :: h in instances && h !in old(instances) ==> fresh(instances[h])
      {
        assert handlers[..k + 1] == handlers[..k] + [handlers[k]];
        if handlers[k] !in instances {
          var channel := new Channel(handlers[k]);
          instances := instances[handlers[k] := channel];
        }
      }
      assert handlers[..|handlers|] == handlers;
    }

    /** The cached channel, or a new one that is cached; the recursion is at most one call deep. */
    method GetChannel(handler: string) returns (channel: Channel)
      requires Valid()
      modifies this
      ensures Valid() && Added({handler})
      ensures channel == instances[handler] && channel.target == handler
      ensures handler !in old(instances) ==> fresh(channel)
      decreases handler !in instances
    {
      if handler in instances {
        channel := instances[handler];
      } else {
        RegisterHandlers([handler]);
        channel := GetChannel(handler);
      }
    }

    /** One enumeration of the lazy sequence that GetChannels returns for a lookup. */
    method Enumerate(handlers: seq<string>) returns (channels: seq<Channel>)
      requires Valid()
      modifies this
      ensures Valid() && Added(SetOf(handlers))
      ensures |channels| == |handlers|
      ensures forall i :: 0 <= i < |handlers| ==>
        channels[i] == instances[handlers[i]] && channels[i].target == handlers[i]
      ensures SetOf(handlers) <= old(instances).Keys ==> instances == old(instances)
    {
      channels := [];
      for k := 0 to |handlers|
        invariant Valid() && |channels| == k
        invariant instances.Keys == old(instances).Keys + SetOf(handlers[..k])
        invariant forall h :: h in old(instances) ==> h in instances && instances[h] == old(instances)[h]
        invariant forall i :: 0 <= i < k ==>
          handlers[i] in instances && channels[i] == instances[handlers[i]] && channels[i].target == handlers[i]
      {
        assert handlers[..k + 1] == handlers[..k] + [handlers[k]];
        var channel := GetChannel(handlers[k]);
        channels := channels + [channel];
      }
      assert handlers[..|handlers|] == handlers;
    }

    /** Enumerating again yields the same channel objects, in the order of the handlers. */
    method EnumerateTwice(handlers: seq<string>) returns (first: seq<Channel>, second: seq<Channel>)
      requires Valid()
      modifies this
      ensures Valid() && Added(SetOf(handlers))
      ensures first == second && |first| == |handlers|
      ensures forall i :: 0 <= i < |handlers| ==>
        first[i] == instances[handlers[i]] && first[i].target == handlers[i]
    {
      first := Enumerate(handlers);
      label once:
      second := Enumerate(handlers);
      assert instances == old@once(instances);
    }

    /**
     Any sequence of lookups: the keys are those seen, an entry is never replaced once it is there, and
     so equal urls get the same channel object throughout.
     */
    method ServeLookups(lookups: seq<seq<string>>) returns (channels: seq<seq<Channel>>)
      requires Valid()
      modifies this
      ensures Valid()
      ensures forall h :: h in instances <==> h in old(instances) || exists k :: 0 <= k < |lookups| && h in lookups[k]
      ensures forall h :: h in old(instances) ==> instances[h] == old(instances)[h]
      ensures |channels| == |lookups|
      ensures forall k :: 0 <= k < |lookups| ==> ServedBy(lookups[k], channels[k])
      ensures forall j, k, x, y ::
        0 <= j < |lookups| && 0 <= k < |lookups| && 0 <= x < |lookups[j]| && 0 <= y < |lookups[k]|
        && lookups[j][x] == lookups[k][y] ==>
          x < |channels[j]| && y < |channels[k]| && channels[j][x] == channels[k][y]
    {
      channels := [];
      for k := 0 to |lookups|
        invariant Valid() && |channels| == k
        invariant forall h :: h in instances <==> h in old(instances) || exists j :: 0 <= j < k && h in lookups[j]
        invariant forall h :: h in old(instances) ==> instances[h] == old(instances)[h]
        invariant forall j :: 0 <= j < k ==> ServedBy(lookups[j], channels[j])
      {
        label before:
        var served := Enumerate(lookups[k]);
        assert forall h :: h in instances <==> h in old@before(instances) || h in lookups[k];
        channels := channels + [served];
      }
    }

    /** The channels of a lookup are those that the cache holds now. */
    ghost predicate ServedBy(urls: seq<string>, channels: seq<Channel>)
      reads this
    {
      |channels| == |urls| && forall i :: 0 <= i < |urls| ==> urls[i] in instances && channels[i] == instances[urls[i]]
    }
  }
}
