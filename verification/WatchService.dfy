/** The health watch of an agent: WatchService returns when the watched service stops serving. */
module WatchService {
  import opened Common
  import opened Handoff

  datatype Status = UNKNOWN | SERVING | NOT_SERVING | SERVICE_UNKNOWN

  /** What one Recv returns: a response, an error, both or neither. */
  datatype Event = Event(response: Option<Status>, err: Option<StreamError>)

  /** The test that ends the receive loop. */
  predicate Terminating(e: Event) {
    || (e.response.Some? && e.response.value != SERVING)
    || (e.err.Some? && e.err.value != EOF)
  }

  lemma TerminatesIff(e: Event)
    ensures Terminating(e) <==> e.response !in {None, Some(SERVING)} || e.err !in {None, Some(EOF)}
  {
    assert e.response.Some? ==> e.response == Some(e.response.value);
    assert e.err.Some? ==> e.err == Some(e.err.value);
  }

  function Watch(stream: nat -> Event): Protocol<Event> {
    Protocol(stream, Terminating, false)
  }

  /** How the call meets its stream: Watch fails at once, or events arrive. */
  datatype Connection = WatchFailed(err: StreamError) | Watching(stream: nat -> Event)

  /** The error WatchService returns: Watch's own, or the one received on the error channel. */
  function ReturnedError(c: Connection, s: State): Option<StreamError>
    requires c.Watching? ==> s.receiver.Done? && s.receiver.taken.Some?
  {
    match c
    case WatchFailed(err) => Some(err)
    case Watching(stream) => stream(s.receiver.taken.value.error).err
  }

  /** A watch that cannot be opened returns the error of the attempt. */
  lemma FailedWatchReturnsItsError(c: Connection, s: State)
    requires c.WatchFailed?
    ensures ReturnedError(c, s) == Some(c.err)
  {
  }

  /**
   Under every schedule there is no send on a closed channel, and a return leaves no send pending and
   hands back exactly the error that came with the first non-SERVING response or non-EOF error; a
   response other than SERVING that comes without an error is thus returned as success.
   */
  lemma ReturnsFirstFailure(stream: nat -> Event, schedule: seq<Step>, s: State)
    requires Reaches(Watch(stream), INIT, schedule, s)
    ensures !SendsOnClosed(s)
    ensures s.receiver.Done? ==>
      && s.receiver.taken.Some?
      && !s.sender.SendingFirst? && !s.sender.SendingSecond? && !s.sender.Receiving?
      && exists n: nat ::
           && (stream(n).response !in {None, Some(SERVING)} || stream(n).err !in {None, Some(EOF)})
           && (forall k :: 0 <= k < n ==>
                 stream(k).response in {None, Some(SERVING)} && stream(k).err in {None, Some(EOF)})
           && ReturnedError(Watching(stream), s) == stream(n).err
  {
    Safety(Watch(stream), schedule, s);
    if s.receiver.Done? {
      var n := s.receiver.taken.value.error;
      assert FirstStop(Watch(stream), n);
      forall k | 0 <= k < n
        ensures stream(k).response in {None, Some(SERVING)} && stream(k).err in {None, Some(EOF)}
      {
        assert !Watch(stream).stops(Watch(stream).stream(k));
      }
    }
  }

  /** WatchService can return exactly when the stream holds a non-SERVING response or a non-EOF error. */
  lemma WatchReturnsIff(stream: nat -> Event)
    ensures CanReturn(Watch(stream)) <==>
      exists n: nat :: stream(n).response !in {None, Some(SERVING)} || stream(n).err !in {None, Some(EOF)}
  {
    var p := Watch(stream);
    ReturnsIff(p);
    if n: nat :| stream(n).response !in {None, Some(SERVING)} || stream(n).err !in {None, Some(EOF)} {
      TerminatesIff(stream(n));
      assert p.stops(p.stream(n));
    }
    if StopsEventually(p) {
      var n: nat :| p.stops(p.stream(n));
      assert stream(n).response !in {None, Some(SERVING)} || stream(n).err !in {None, Some(EOF)};
    }
  }

  /**
   With a non-SERVING response or a non-EOF error at n, no schedule has more than n + 11 steps, and one that cannot be
   extended has returned.
   */
  lemma WatchTerminates(stream: nat -> Event, n: nat, schedule: seq<Step>, s: State)
    requires stream(n).response !in {None, Some(SERVING)} || stream(n).err !in {None, Some(EOF)}
    requires Reaches(Watch(stream), INIT, schedule, s)
    ensures |schedule| <= n + 11
    ensures (forall step :: !Enabled(Watch(stream), s, step)) ==> s.receiver.Done? && s.sender.Exited?
  {
    var p := Watch(stream);
    TerminatesIff(stream(n));
    assert p.stops(p.stream(n));
    var first := FirstStopExists(p, n);
    Bounded(p, INIT, schedule, s, first);
    ReachableInv(p, INIT, schedule, s);
    if !Finished(s) {
      var step := NoDeadlock(p, schedule, s);
    }
  }

  /** A stream of SERVING responses and EOF errors alone keeps the watch receiving for ever. */
  lemma HealthyServiceIsWatchedForever(stream: nat -> Event, schedule: seq<Step>, s: State)
    requires forall n: nat ::
      stream(n).response in {None, Some(SERVING)} && stream(n).err in {None, Some(EOF)}
    requires Reaches(Watch(stream), INIT, schedule, s)
    ensures !s.receiver.Done?
    ensures s != INIT ==> Enabled(Watch(stream), s, Recv)
  {
    var p := Watch(stream);
    forall n: nat
      ensures !p.stops(p.stream(n))
    {
      assert stream(n).response in {None, Some(SERVING)};
    }
    LoopsForever(p, schedule, s);
  }

  /**
   The receive loop on the events that have arrived so far: where it stops, if it has. That is where the
   sender of the hand-off stops.
   */
  method ReceiveLoop(events: seq<Event>, ghost stream: nat -> Event) returns (at: Option<nat>)
    requires forall k: nat :: k < |events| ==> stream(k) == events[k]
    ensures at.Some? ==>
      && at.value < |events|
      && (events[at.value].response !in {None, Some(SERVING)} || events[at.value].err !in {None, Some(EOF)})
      && FirstStop(Watch(stream), at.value)
    ensures forall k :: 0 <= k < (if at.Some? then at.value else |events|) ==>
      events[k].response in {None, Some(SERVING)} && events[k].err in {None, Some(EOF)}
  {
    var k := 0;
    while k < |events|
      invariant 0 <= k <= |events|
      invariant forall j :: 0 <= j < k ==>
        events[j].response in {None, Some(SERVING)} && events[j].err in {None, Some(EOF)}
    {
      var response, err := events[k].response, events[k].err;
      if (response.Some? && response.value != SERVING) || (err.Some? && err.value != EOF) {
        return Some(k);
      }
      k := k + 1;
    }
    at := None;
  }
}
