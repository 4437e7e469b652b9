/** The reflection call of an agent: GetImplementedServices asks the service which services it implements. */
module Reflection {
  import opened Common
  import opened Handoff

  datatype ServiceResponse = ServiceResponse(name: string)

  /** A reflection reply: the list that was asked for, or one of the other message kinds. */
  datatype Reply = ListServices(services: seq<ServiceResponse>) | OtherMessage

  datatype Event = Event(response: Option<Reply>, err: Option<StreamError>)

  /** How the call meets its stream: opening it fails, sending the request fails, or events arrive. */
  datatype Connection =
    | OpenFailed(err: StreamError)
    | SendFailed(err: StreamError)
    | Connected(stream: nat -> Event)

  /** What the call hands to its caller, or a nil dereference. */
  datatype Outcome = Returned(services: seq<string>, err: Option<StreamError>) | Panicked

  predicate Stops(e: Event) {
    e.err != Some(EOF)
  }

  /** Goroutine and channels exist only once the stream is open; a failed send abandons them. */
  function Reflect(c: Connection): Protocol<Event>
    requires !c.OpenFailed?
  {
    match c
    case SendFailed(err) => Protocol((n: nat) => Event(None, Some(err)), Stops, true)
    case Connected(stream) => Protocol(stream, Stops, false)
  }

  function Names(services: seq<ServiceResponse>): seq<string> {
    seq(|services|, i requires 0 <= i < |services| => services[i].name)
  }

  /** What is made of the response and the error that the two channels delivered. */
  function Interpret(response: Option<Reply>, err: Option<StreamError>): Outcome {
    match response
    case None => Returned([], err)
    case Some(ListServices(services)) => Returned(Names(services), None)
    case Some(OtherMessage) => Panicked
  }

  function OutcomeOf(c: Connection, s: State): Outcome
    requires c.Connected? ==> s.receiver.Done? && s.receiver.taken.Some?
  {
    match c
    case OpenFailed(err) => Returned([], Some(err))
    case SendFailed(err) => Returned([], Some(err))
    case Connected(stream) =>
      var t := s.receiver.taken.value;
      Interpret(stream(t.response).response, stream(t.error).err)
  }

  ghost predicate FirstNonEof(stream: nat -> Event, n: nat) {
    stream(n).err != Some(EOF) && forall k :: 0 <= k < n ==> stream(k).err == Some(EOF)
  }

  lemma FirstStopIsFirstNonEof(stream: nat -> Event, n: nat)
    requires FirstStop(Reflect(Connected(stream)), n)
    ensures FirstNonEof(stream, n)
  {
  }

  /**
   Under every schedule, and also when the request could not be sent: no send on a closed channel, no
   send left pending, and the outcome is that of the first non-EOF event alone.
   */
  lemma OutcomeOfFirstEvent(c: Connection, schedule: seq<Step>, s: State)
    requires !c.OpenFailed? && Reaches(Reflect(c), INIT, schedule, s)
    ensures !SendsOnClosed(s)
    ensures s.receiver.Done? ==>
      && !s.sender.SendingFirst? && !s.sender.SendingSecond? && !s.sender.Receiving?
      && match c {
           case SendFailed(err) =>
             s.sender.NotStarted? && s.receiver.taken.None? && OutcomeOf(c, s) == Returned([], Some(err))
           case Connected(stream) =>
             && s.receiver.taken.Some?
             && exists n: nat :: FirstNonEof(stream, n)
                  && OutcomeOf(c, s) == Interpret(stream(n).response, stream(n).err)
         }
  {
    ReachableInv(Reflect(c), INIT, schedule, s);
    Safety(Reflect(c), schedule, s);
    if s.receiver.Done? && c.Connected? {
      FirstStopIsFirstNonEof(c.stream, s.receiver.taken.value.response);
    }
  }

  /** The call can return exactly when some event does not carry EOF; a stream of EOFs is read for ever. */
  lemma ReflectionReturnsIff(stream: nat -> Event)
    ensures CanReturn(Reflect(Connected(stream))) <==> exists n: nat :: stream(n).err != Some(EOF)
  {
    var p := Reflect(Connected(stream));
    ReturnsIff(p);
    if n: nat :| stream(n).err != Some(EOF) {
      assert p.stops(p.stream(n));
    }
    if StopsEventually(p) {
      var n: nat :| p.stops(p.stream(n));
      assert stream(n).err != Some(EOF);
    }
  }

  /**
   With a non-EOF event at n, or after a failed send, no schedule has more than n + 11 steps, and one
   that cannot be extended has returned and left no goroutine behind.
   */
  lemma ReflectionTerminates(c: Connection, n: nat, schedule: seq<Step>, s: State)
    requires !c.OpenFailed? && Reaches(Reflect(c), INIT, schedule, s)
    requires c.Connected? ==> c.stream(n).err != Some(EOF)
    ensures |schedule| <= n + 11
    ensures (forall step :: !Enabled(Reflect(c), s, step)) ==> Finished(s)
  {
    var p := Reflect(c);
    var first := n;
    if c.Connected? {
      assert p.stops(p.stream(n));
      first := FirstStopExists(p, n);
    }
    Bounded(p, INIT, schedule, s, first);
    if !Finished(s) {
      var step := NoDeadlock(p, schedule, s);
    }
  }

  /**
   Exactly when the call succeeds with names, fails, or panics, for the first non-EOF event e. A
   reply that carries neither a response nor an error is reported as success with no services.
   */
  lemma OutcomeCases(e: Event)
    requires e.err != Some(EOF)
    ensures var o := Interpret(e.response, e.err);
      && (o.Panicked? <==> e.response == Some(OtherMessage))
      && (o.Returned? && o.err.Some? <==> e.response.None? && e.err.Some?)
      && (forall names :: o == Returned(names, None) && names != [] <==>
            names != [] && e.response.Some? && e.response.value.ListServices?
            && names == Names(e.response.value.services))
      && (o == Returned([], None) <==>
            e.response == Some(ListServices([])) || (e.response.None? && e.err.None?))
  {
  }

  lemma FirstNonEofIsUnique(stream: nat -> Event, m: nat, n: nat)
    requires FirstNonEof(stream, m) && FirstNonEof(stream, n)
    ensures m == n
  {
  }

  /** The first event that does not carry EOF is the given one. */
  ghost predicate FirstEventIs(stream: nat -> Event, e: Event) {
    exists n: nat :: FirstNonEof(stream, n) && stream(n) == e
  }

  /** The first event that does not carry EOF is an empty list, or neither a response nor an error. */
  ghost predicate NamesNothing(stream: nat -> Event) {
    || FirstEventIs(stream, Event(None, None))
    || exists err :: FirstEventIs(stream, Event(Some(ListServices([])), err))
  }

  /**
   Under every schedule, exactly when the call that returns dereferences nil, hands out names, hands out
   an error, or reports success without a name.
   */
  lemma OutcomeIff(stream: nat -> Event, schedule: seq<Step>, s: State)
    requires Reaches(Reflect(Connected(stream)), INIT, schedule, s) && s.receiver.Done?
    ensures s.receiver.taken.Some?
    ensures var o := OutcomeOf(Connected(stream), s);
      && (o.Panicked? <==> exists err :: FirstEventIs(stream, Event(Some(OtherMessage), err)))
      && (forall names :: names != [] ==> (o == Returned(names, None) <==>
            exists services, err ::
              FirstEventIs(stream, Event(Some(ListServices(services)), err)) && Names(services) == names))
      && (forall err :: o == Returned([], Some(err)) <==> FirstEventIs(stream, Event(None, Some(err))))
      && (o == Returned([], None) <==> NamesNothing(stream))
  {
    var c := Connected(stream);
    OutcomeOfFirstEvent(c, schedule, s);
    var n: nat :| FirstNonEof(stream, n) && OutcomeOf(c, s) == Interpret(stream(n).response, stream(n).err);
    OutcomeCases(stream(n));
    forall e
      ensures FirstEventIs(stream, e) <==> e == stream(n)
    {
      if FirstEventIs(stream, e) {
        var m: nat :| FirstNonEof(stream, m) && stream(m) == e;
        FirstNonEofIsUnique(stream, m, n);
      }
    }
    var e := stream(n);
    assert e == Event(e.response, e.err);
    match e.response {
      case None =>
      case Some(OtherMessage) => assert FirstEventIs(stream, Event(Some(OtherMessage), e.err));
      case Some(ListServices(services)) =>
        assert FirstEventIs(stream, Event(Some(ListServices(services)), e.err));
        assert services == [] <==> Names(services) == [];
    }
  }

  lemma NamesNothingIff(stream: nat -> Event, n: nat)
    requires FirstNonEof(stream, n)
    ensures NamesNothing(stream) <==> Interpret(stream(n).response, stream(n).err) == Returned([], None)
  {
    OutcomeCases(stream(n));
    var e := stream(n);
    assert e == Event(e.response, e.err) && FirstEventIs(stream, e);
    forall other
      ensures FirstEventIs(stream, other) <==> other == e
    {
      if FirstEventIs(stream, other) {
        var m: nat :| FirstNonEof(stream, m) && stream(m) == other;
        FirstNonEofIsUnique(stream, m, n);
      }
    }
  }

  /** Some schedule of the call ends in the nil dereference. */
  ghost predicate CanPanic(stream: nat -> Event) {
    exists schedule, s :: Panics(stream, schedule, s)
  }

  ghost predicate Panics(stream: nat -> Event, schedule: seq<Step>, s: State) {
    && Reaches(Reflect(Connected(stream)), INIT, schedule, s)
    && s.receiver.Done? && s.receiver.taken.Some?
    && OutcomeOf(Connected(stream), s).Panicked?
  }

  /** The call can dereference nil exactly when the first event that does not carry EOF is another message. */
  lemma CanPanicIff(stream: nat -> Event)
    ensures CanPanic(stream) <==> exists err :: FirstEventIs(stream, Event(Some(OtherMessage), err))
  {
    if CanPanic(stream) {
      var schedule, s :| Panics(stream, schedule, s);
      OutcomeIff(stream, schedule, s);
    }
    if err :| FirstEventIs(stream, Event(Some(OtherMessage), err)) {
      var p := Reflect(Connected(stream));
      var m: nat :| FirstNonEof(stream, m) && stream(m) == Event(Some(OtherMessage), err);
      assert p.stops(p.stream(m));
      var n := FirstStopExists(p, m);
      var schedule, s := Completes(p, INIT, n);
      OutcomeIff(stream, schedule, s);
      assert Panics(stream, schedule, s);
    }
  }

  /** A server that answers with another message at once, and a schedule on which the call panics. */
  lemma OtherMessagePanics() returns (stream: nat -> Event, schedule: seq<Step>, s: State)
    ensures forall n: nat :: stream(n) == Event(Some(OtherMessage), None)
    ensures schedule == [Spawn, Work, Recv, HandFirst, HandSecond, CloseSecond, CloseFirst]
    ensures Panics(stream, schedule, s)
  {
    stream := (n: nat) => Event(Some(OtherMessage), None);
    s := State(Leaving, Done(Some(Taken(0, 0))), true, true);
    schedule := PanickingEnd(stream, s);
    var p := Reflect(Connected(stream));
    ReachesCons(p, State(Receiving(0), AwaitFirst, false, false), Recv, schedule, s);
    ReachesCons(p, State(Receiving(0), Working, false, false), Work, [Recv] + schedule, s);
    ReachesCons(p, INIT, Spawn, [Work] + ([Recv] + schedule), s);
    schedule := [Spawn] + ([Work] + ([Recv] + schedule));
  }

  /** The part of that schedule after the message has arrived. */
  lemma PanickingEnd(stream: nat -> Event, s: State) returns (schedule: seq<Step>)
    requires s == State(Leaving, Done(Some(Taken(0, 0))), true, true)
    ensures schedule == [HandFirst, HandSecond, CloseSecond, CloseFirst]
    ensures Reaches(Reflect(Connected(stream)), State(SendingFirst(0), AwaitFirst, false, false), schedule, s)
  {
    var p := Reflect(Connected(stream));
    var taken := Some(Taken(0, 0));
    schedule := [CloseFirst];
    ReachesCons(p, State(Leaving, ClosingFirst(taken), false, true), CloseFirst, [], s);
    ReachesCons(p, State(Leaving, ClosingSecond(taken), false, false), CloseSecond, schedule, s);
    schedule := [CloseSecond] + schedule;
    ReachesCons(p, State(SendingSecond(0), AwaitSecond(0), false, false), HandSecond, schedule, s);
    schedule := [HandSecond] + schedule;
    ReachesCons(p, State(SendingFirst(0), AwaitFirst, false, false), HandFirst, schedule, s);
    schedule := [HandFirst] + schedule;
  }

  /** The loop that collects the service names. */
  method CollectNames(services: seq<ServiceResponse>) returns (names: seq<string>)
    ensures |names| == |services| && forall i :: 0 <= i < |services| ==> names[i] == services[i].name
    ensures names == Names(services)
  {
    names := [];
    for k := 0 to |services|
      invariant |names| == k && forall i :: 0 <= i < k ==> names[i] == services[i].name
    {
      names := names + [services[k].name];
    }
  }
}
