/**
 The two-channel hand-off that WatchService and GetImplementedServices share. A sender goroutine
 receives events until one stops it, then sends the event's response on one unbuffered channel and
 its error on a second one. The receiver takes both and closes both channels on its way out, the
 second channel first, as deferred calls run in reverse order. It also closes them when it gives up
 before the goroutine is started.
 */
module Handoff {
  import opened Common

  /** The events by position, which of them stop the sender, and whether the receiver gives up early. */
  datatype Protocol<!E> = Protocol(stream: nat -> E, stops: E -> bool, abandoned: bool)

  datatype Sender =
    | NotStarted
    | Receiving(next: nat)
    | SendingFirst(at: nat)
    | SendingSecond(at: nat)
    | Leaving
    | Exited

  /** The positions of the events whose response and whose error were taken. */
  datatype Taken = Taken(response: nat, error: nat)

  datatype Receiver =
    | Preparing
    | Working
    | AwaitFirst
    | AwaitSecond(response: nat)
    | ClosingSecond(taken: Option<Taken>)
    | ClosingFirst(taken: Option<Taken>)
    | Done(taken: Option<Taken>)

  datatype State = State(sender: Sender, receiver: Receiver, firstClosed: bool, secondClosed: bool)

  datatype Step =
    | Abandon
    | Spawn
    | Work
    | Recv
    | HandFirst
    | HandSecond
    | SenderExits
    | CloseSecond
    | CloseFirst

  const INIT := State(NotStarted, Preparing, false, false)

  predicate Enabled<E>(p: Protocol<E>, s: State, step: Step) {
    match step
    case Abandon => s.receiver.Preparing? && p.abandoned
    case Spawn => s.receiver.Preparing? && !p.abandoned
    case Work => s.receiver.Working?
    case Recv => s.sender.Receiving?
    case HandFirst => s.sender.SendingFirst? && s.receiver.AwaitFirst? && !s.firstClosed
    case HandSecond => s.sender.SendingSecond? && s.receiver.AwaitSecond? && !s.secondClosed
    case SenderExits => s.sender.Leaving?
    case CloseSecond => s.receiver.ClosingSecond?
    case CloseFirst => s.receiver.ClosingFirst?
  }

  function Next<E>(p: Protocol<E>, s: State, step: Step): State
    requires Enabled(p, s, step)
  {
    match step
    case Abandon => s.(receiver := ClosingSecond(None))
    case Spawn => s.(sender := Receiving(0), receiver := Working)
    case Work => s.(receiver := AwaitFirst)
    case Recv =>
      var n := s.sender.next;
      s.(sender := if p.stops(p.stream(n)) then SendingFirst(n) else Receiving(n + 1))
    case HandFirst => s.(sender := SendingSecond(s.sender.at), receiver := AwaitSecond(s.sender.at))
    case HandSecond =>
      s.(sender := Leaving, receiver := ClosingSecond(Some(Taken(s.receiver.response, s.sender.at))))
    case SenderExits => s.(sender := Exited)
    case CloseSecond => s.(receiver := ClosingFirst(s.receiver.taken), secondClosed := true)
    case CloseFirst => s.(receiver := Done(s.receiver.taken), firstClosed := true)
  }

  /** A schedule that takes s to s', any interleaving of the two goroutines. */
  ghost predicate Reaches<E>(p: Protocol<E>, s: State, schedule: seq<Step>, s': State)
    decreases |schedule|
  {
    if schedule == [] then s == s'
    else Enabled(p, s, schedule[0]) && Reaches(p, Next(p, s, schedule[0]), schedule[1..], s')
  }

  lemma ReachesCons<E>(p: Protocol<E>, s: State, step: Step, schedule: seq<Step>, s': State)
    requires Enabled(p, s, step) && Reaches(p, Next(p, s, step), schedule, s')
    ensures Reaches(p, s, [step] + schedule, s')
  {
    assert ([step] + schedule)[1..] == schedule;
  }

  /** A goroutine stands at a send whose channel is closed: Go panics. */
  predicate SendsOnClosed(s: State) {
    || (s.sender.SendingFirst? && s.firstClosed)
    || (s.sender.SendingSecond? && s.secondClosed)
  }

  /** Both goroutines have nothing left to do. */
  predicate Finished(s: State) {
    s.receiver.Done? && (s.sender.Exited? || s.sender.NotStarted?)
  }

  ghost predicate FirstStop<E>(p: Protocol<E>, n: nat) {
    p.stops(p.stream(n)) && forall k :: 0 <= k < n ==> !p.stops(p.stream(k))
  }

  /** What was taken is nothing after an early exit, and otherwise both halves of the first stopping event. */
  ghost predicate Correct<E>(p: Protocol<E>, taken: Option<Taken>) {
    match taken
    case None => p.abandoned
    case Some(t) => !p.abandoned && t.response == t.error && FirstStop(p, t.response)
  }

  ghost predicate Inv<E>(p: Protocol<E>, s: State) {
    && (!s.sender.NotStarted? ==> !p.abandoned)
    && (match s.sender
        case NotStarted => s.receiver.Preparing? || p.abandoned
        case Receiving(n) =>
          (s.receiver.Working? || s.receiver.AwaitFirst?) && forall k :: 0 <= k < n ==> !p.stops(p.stream(k))
        case SendingFirst(n) => (s.receiver.Working? || s.receiver.AwaitFirst?) && FirstStop(p, n)
        case SendingSecond(n) => s.receiver == AwaitSecond(n) && FirstStop(p, n)
        case Leaving => s.receiver.ClosingSecond? || s.receiver.ClosingFirst? || s.receiver.Done?
        case Exited => s.receiver.ClosingSecond? || s.receiver.ClosingFirst? || s.receiver.Done?)
    && (match s.receiver
        case Preparing => s.sender.NotStarted? && !s.firstClosed && !s.secondClosed
        case Working => !s.sender.NotStarted? && !s.firstClosed && !s.secondClosed
        case AwaitFirst => !s.sender.NotStarted? && !s.firstClosed && !s.secondClosed
        case AwaitSecond(n) => s.sender == SendingSecond(n) && !s.firstClosed && !s.secondClosed
        case ClosingSecond(taken) => Correct(p, taken) && !s.firstClosed && !s.secondClosed
        case ClosingFirst(taken) => Correct(p, taken) && !s.firstClosed && s.secondClosed
        case Done(taken) => Correct(p, taken) && s.firstClosed && s.secondClosed)
  }

  lemma NextKeepsInv<E>(p: Protocol<E>, s: State, step: Step)
    requires Inv(p, s) && Enabled(p, s, step)
    ensures Inv(p, Next(p, s, step))
  {
  }

  lemma {:induction false} ReachableInv<E>(p: Protocol<E>, s: State, schedule: seq<Step>, s': State)
    requires Inv(p, s) && Reaches(p, s, schedule, s')
    ensures Inv(p, s')
    decreases |schedule|
  {
    if schedule == [] {
    } else {
      NextKeepsInv(p, s, schedule[0]);
      ReachableInv(p, Next(p, s, schedule[0]), schedule[1..], s');
    }
  }

  /**
   Under every schedule: no send on a closed channel; once the receiver is done no send is pending,
   both channels are closed, and it holds the response and the error of the same event, the first
   that stops the sender.
   */
  lemma Safety<E>(p: Protocol<E>, schedule: seq<Step>, s: State)
    requires Reaches(p, INIT, schedule, s)
    ensures !SendsOnClosed(s)
    ensures s.sender.SendingFirst? ==> !s.firstClosed
    ensures s.sender.SendingSecond? ==> !s.secondClosed
    ensures s.receiver.Done? ==>
      && (s.sender.NotStarted? || s.sender.Leaving? || s.sender.Exited?)
      && s.firstClosed && s.secondClosed
      && Correct(p, s.receiver.taken)
  {
    ReachableInv(p, INIT, schedule, s);
  }

  /** Under every schedule some goroutine can move until both have finished. */
  lemma NoDeadlock<E>(p: Protocol<E>, schedule: seq<Step>, s: State) returns (step: Step)
    requires Reaches(p, INIT, schedule, s) && !Finished(s)
    ensures Enabled(p, s, step)
  {
    ReachableInv(p, INIT, schedule, s);
    step := Move(p, s);
  }

  lemma Move<E>(p: Protocol<E>, s: State) returns (step: Step)
    requires Inv(p, s) && !Finished(s)
    ensures Enabled(p, s, step)
  {
    match s.receiver
    case Preparing => step := if p.abandoned then Abandon else Spawn;
    case Working => step := Work;
    case AwaitFirst => step := if s.sender.Receiving? then Recv else HandFirst;
    case AwaitSecond(_) => step := HandSecond;
    case ClosingSecond(_) => step := CloseSecond;
    case ClosingFirst(_) => step := CloseFirst;
    case Done(_) => step := SenderExits;
  }

  /** The steps left when the sender stops at event n (or is never started). */
  function Measure(s: State, n: nat): int {
    var sender := match s.sender
      case NotStarted => n + 5
      case Receiving(next) => n - next + 4
      case SendingFirst(_) => 3
      case SendingSecond(_) => 2
      case Leaving => 1
      case Exited => 0;
    var receiver := match s.receiver
      case Preparing => 6
      case Working => 5
      case AwaitFirst => 4
      case AwaitSecond(_) => 3
      case ClosingSecond(_) => 2
      case ClosingFirst(_) => 1
      case Done(_) => 0;
    sender + receiver
  }

  ghost predicate StopsAt<E>(p: Protocol<E>, n: nat) {
    p.abandoned || FirstStop(p, n)
  }

  lemma MeasureDecreases<E>(p: Protocol<E>, s: State, step: Step, n: nat)
    requires Inv(p, s) && Enabled(p, s, step) && StopsAt(p, n)
    ensures 0 <= Measure(Next(p, s, step), n) < Measure(s, n)
  {
  }

  lemma ReceivingBounded<E>(p: Protocol<E>, s: State, n: nat)
    requires Inv(p, s) && StopsAt(p, n)
    ensures s.sender.Receiving? ==> s.sender.next <= n
    ensures 0 <= Measure(s, n)
  {
  }

  /** Every schedule is bounded: it has at most n + 11 steps when the first stopping event is n. */
  lemma {:induction false} Bounded<E>(p: Protocol<E>, s: State, schedule: seq<Step>, s': State, n: nat)
    requires Inv(p, s) && Reaches(p, s, schedule, s') && StopsAt(p, n)
    ensures |schedule| <= Measure(s, n) - Measure(s', n) <= Measure(s, n)
    decreases |schedule|
  {
    ReceivingBounded(p, s, n);
    if schedule == [] {
    } else {
      MeasureDecreases(p, s, schedule[0], n);
      NextKeepsInv(p, s, schedule[0]);
      Bounded(p, Next(p, s, schedule[0]), schedule[1..], s', n);
    }
  }

  /** From every reachable state some schedule finishes, and so does every one that runs to its end. */
  lemma {:induction false} Completes<E>(p: Protocol<E>, s: State, n: nat) returns (schedule: seq<Step>, s': State)
    requires Inv(p, s) && StopsAt(p, n)
    ensures Reaches(p, s, schedule, s') && Finished(s')
    decreases Measure(s, n) + n
  {
    if Finished(s) {
      schedule, s' := [], s;
    } else {
      var step := Move(p, s);
      NextKeepsInv(p, s, step);
      MeasureDecreases(p, s, step, n);
      schedule, s' := Completes(p, Next(p, s, step), n);
      ReachesCons(p, s, step, schedule, s');
      schedule := [step] + schedule;
    }
  }

  /** The event at which a stopping stream stops first. */
  lemma {:induction false} FirstStopExists<E>(p: Protocol<E>, m: nat) returns (n: nat)
    requires p.stops(p.stream(m))
    ensures n <= m && FirstStop(p, n)
  {
    n := 0;
    while !p.stops(p.stream(n))
      invariant 0 <= n <= m
      invariant forall k :: 0 <= k < n ==> !p.stops(p.stream(k))
      decreases m - n
    {
      n := n + 1;
    }
  }

  ghost predicate CanReturn<E>(p: Protocol<E>) {
    exists schedule, s :: Reaches(p, INIT, schedule, s) && s.receiver.Done?
  }

  ghost predicate StopsEventually<E>(p: Protocol<E>) {
    exists n: nat :: p.stops(p.stream(n))
  }

  /** The receiver can return something exactly when some event stops the sender. */
  lemma ReturnsIff<E>(p: Protocol<E>)
    requires !p.abandoned
    ensures CanReturn(p) <==> StopsEventually(p)
  {
    if CanReturn(p) {
      var schedule, s :| Reaches(p, INIT, schedule, s) && s.receiver.Done?;
      Safety(p, schedule, s);
      assert p.stops(p.stream(s.receiver.taken.value.response));
    }
    if StopsEventually(p) {
      var m: nat :| p.stops(p.stream(m));
      var n := FirstStopExists(p, m);
      var schedule, s := Completes(p, INIT, n);
      assert Reaches(p, INIT, schedule, s) && s.receiver.Done?;
    }
  }

  /** When no event stops the sender, every reachable state of a started hand-off is still receiving. */
  lemma LoopsForever<E>(p: Protocol<E>, schedule: seq<Step>, s: State)
    requires !p.abandoned && forall n: nat :: !p.stops(p.stream(n))
    requires Reaches(p, INIT, schedule, s)
    ensures s == INIT || (s.sender.Receiving? && (s.receiver.Working? || s.receiver.AwaitFirst?))
    ensures s != INIT ==> Enabled(p, s, Recv) && Next(p, s, Recv).sender.Receiving?
  {
    ReachableInv(p, INIT, schedule, s);
  }
}
