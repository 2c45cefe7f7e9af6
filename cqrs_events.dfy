/**
 * The event side of the type-keyed dispatcher (events.go): subscriber
 * registration, synchronous fan-out with error aggregation, and the
 * asynchronous delivery channel drained by listener goroutines.
 */
module CqrsEvents {
  import opened Wrappers
  import opened CqrsValues

  /** What one call of a subscriber's `Handle` does: return an error (or nil), or panic. */
  datatype SubscriberOutcome = Handled(err: Option<Error>) | SubscriberPanicked

  /** A value implementing `IEventHandler[TEvent]`: its TEvent and what its Handle does. */
  datatype Subscriber = Subscriber(eventType: TypeKey, handle: Value -> SubscriberOutcome)

  /**
   * What PublishEvent gives its caller: the errors of the subscribers, combined
   * with `multierr.Append` (none is a nil error), or a panic raised by the
   * subscriber at that position, which escapes PublishEvent.
   */
  datatype Publication = Returned(errors: seq<Error>) | Faulted(subscriber: nat)

  /** An `EventDelivery` waiting in the channel; its ctx is not modelled. */
  datatype Delivery = Delivery(eventType: TypeKey, event: Value)

  /** One call of a subscriber's Handle by a listener: the event and the subscriber's position in its list. */
  datatype Invocation = Invocation(event: Value, subscriber: nat)

  /** Where the listeners stand: the deliveries still in the channel, the live listeners, the calls made. */
  datatype Listening = Listening(pending: seq<Delivery>, workers: nat, invoked: seq<Invocation>)

  predicate Panics(subscriber: Subscriber, event: Value)
  {
    subscriber.handle(event).SubscriberPanicked?
  }

  /** The position of the first subscriber that panics on the event, or the list's length if none does. */
  function FirstPanic(subscribers: seq<Subscriber>, event: Value): (k: nat)
    ensures k <= |subscribers|
    ensures forall j :: 0 <= j < k ==> !Panics(subscribers[j], event)
    ensures k < |subscribers| ==> Panics(subscribers[k], event)
  {
    if subscribers == [] then 0
    else if Panics(subscribers[0], event) then 0
    else 1 + FirstPanic(subscribers[1..], event)
  }

  /** The error one call contributes to the combined error. */
  function ErrorOf(outcome: SubscriberOutcome): seq<Error>
  {
    if outcome.Handled? && outcome.err.Some? then [outcome.err.value] else []
  }

  /** The non-nil errors of the subscribers, in subscriber order. */
  function Errors(subscribers: seq<Subscriber>, event: Value): seq<Error>
  {
    if subscribers == [] then []
    else Errors(subscribers[..|subscribers| - 1], event) + ErrorOf(subscribers[|subscribers| - 1].handle(event))
  }

  /** What `PublishEvent[TEvent](ctx, event)` returns for the current subscriber table. */
  function Publish(eventHandlers: map<TypeKey, seq<Subscriber>>, event: Value): Publication
  {
    if event.ty !in eventHandlers then Returned([NoEventHandler(event.ty)])
    else
      var subscribers := eventHandlers[event.ty];
      var k := FirstPanic(subscribers, event);
      if k < |subscribers| then Faulted(k) else Returned(Errors(subscribers, event))
  }

  /** The calls a listener makes for one delivery: every subscriber in order, up to and including the first that panics. */
  function Deliver(subscribers: seq<Subscriber>, event: Value): (calls: seq<Invocation>)
    ensures |calls| == if FirstPanic(subscribers, event) < |subscribers| then FirstPanic(subscribers, event) + 1 else |subscribers|
    ensures forall j :: 0 <= j < |calls| ==> calls[j] == Invocation(event, j)
  {
    var k := FirstPanic(subscribers, event);
    var n := if k < |subscribers| then k + 1 else |subscribers|;
    seq(n, j requires 0 <= j < n => Invocation(event, j))
  }

  /**
   * The listeners draining the channel in FIFO order: a delivery whose type has
   * no subscriber ends the listener that received it (`return`), a panicking
   * subscriber ends the listener, whose deferred recover starts a replacement,
   * so the count of listeners is unchanged; draining stops when the channel is
   * empty or no listener is left.
   */
  function Drain(eventHandlers: map<TypeKey, seq<Subscriber>>, pending: seq<Delivery>, workers: nat): (r: Listening)
    ensures r.pending == [] || r.workers == 0
    ensures r.workers <= workers
    decreases |pending|
  {
    if pending == [] || workers == 0 then Listening(pending, workers, [])
    else
      var delivery := pending[0];
      if delivery.eventType !in eventHandlers then
        Drain(eventHandlers, pending[1..], workers - 1)
      else
        var rest := Drain(eventHandlers, pending[1..], workers);
        Listening(rest.pending, rest.workers, Deliver(eventHandlers[delivery.eventType], delivery.event) + rest.invoked)
  }

  /**
   * The package-level `eventHandlers` table and `eventListener` channel, with
   * the number of running listener goroutines and the calls they have made.
   */
  class EventBus {
    var eventHandlers: map<TypeKey, seq<Subscriber>>
    var deliveries: seq<Delivery>
    var workers: nat
    var invoked: seq<Invocation>

    /** Every subscriber is listed under the type of the event it handles. */
    ghost predicate Valid()
      reads this
    {
      forall t, i :: t in eventHandlers && 0 <= i < |eventHandlers[t]| ==> eventHandlers[t][i].eventType == t
    }

    /** `init()`: no subscriber, an empty channel, no listener yet. */
    constructor ()
      ensures eventHandlers == map[] && deliveries == [] && workers == 0 && invoked == []
      ensures Valid()
    {
      eventHandlers := map[];
      deliveries := [];
      workers := 0;
      invoked := [];
    }

    /** The subscribers of a type, none when the type has no entry. */
    function SubscribersOf(eventType: TypeKey): (subscribers: seq<Subscriber>)
      reads this
      ensures eventType !in eventHandlers ==> subscribers == []
      ensures eventType in eventHandlers ==> subscribers == eventHandlers[eventType]
    {
      if eventType in eventHandlers then eventHandlers[eventType] else []
    }

    /** `RegisterEventSubscriber[TEvent](handler)`: append the handler to TEvent's list (creating it); never fails. */
    method RegisterEventSubscriber(subscriber: Subscriber) returns (err: Option<Error>)
      requires Valid()
      modifies this`eventHandlers
      ensures Valid()
      ensures err == None
      ensures eventHandlers == old(eventHandlers)[subscriber.eventType := old(SubscribersOf(subscriber.eventType)) + [subscriber]]
    {
      if subscriber.eventType !in eventHandlers {
        assert [] + [subscriber] == [subscriber];
        eventHandlers := eventHandlers[subscriber.eventType := [subscriber]];
        return None;
      }
      eventHandlers := eventHandlers[subscriber.eventType := eventHandlers[subscriber.eventType] + [subscriber]];
      return None;
    }

    /**
     * `RegisterEventSubscribers[TEvent](handlers...)`: refuse an empty list,
     * otherwise append every handler, in order, to TEvent's list.
     */
    method RegisterEventSubscribers(eventType: TypeKey, subscribers: seq<Subscriber>) returns (err: Option<Error>)
      requires Valid()
      requires forall i :: 0 <= i < |subscribers| ==> subscribers[i].eventType == eventType
      modifies this`eventHandlers
      ensures Valid()
      ensures subscribers == [] ==> err == Some(NoHandlersProvided) && eventHandlers == old(eventHandlers)
      ensures subscribers != [] ==>
        err == None && eventHandlers == old(eventHandlers)[eventType := old(SubscribersOf(eventType)) + subscribers]
    {
      if |subscribers| <= 0 {
        return Some(NoHandlersProvided);
      }
      ghost var before := SubscribersOf(eventType);
      var i := 0;
      while i < |subscribers|
        invariant 0 <= i <= |subscribers|
        invariant Valid()
        invariant i == 0 ==> eventHandlers == old(eventHandlers)
        invariant i > 0 ==> eventHandlers == old(eventHandlers)[eventType := before + subscribers[..i]]
      {
        ghost var prev := eventHandlers;
        assert SubscribersOf(eventType) == before + subscribers[..i];
        assert subscribers[i].eventType == eventType;
        var _ := RegisterEventSubscriber(subscribers[i]);
        assert eventHandlers == prev[eventType := (before + subscribers[..i]) + [subscribers[i]]];
        assert subscribers[..i + 1] == subscribers[..i] + [subscribers[i]];
        assert (before + subscribers[..i]) + [subscribers[i]] == before + subscribers[..i + 1];
        assert eventHandlers == prev[eventType := before + subscribers[..i + 1]];
        i := i + 1;
      }
      assert subscribers[..i] == subscribers;
      return None;
    }

    /**
     * `PublishEvent[TEvent](ctx, event)`: call every subscriber of the event's
     * runtime type in registration order and combine their errors; a type with
     * no entry is an error; a subscriber's panic escapes to the caller.
     */
    method PublishEvent(event: Value) returns (outcome: Publication)
      ensures outcome == Publish(eventHandlers, event)
    {
      if event.ty !in eventHandlers {
        return Returned([NoEventHandler(event.ty)]);
      }
      var subscribers := eventHandlers[event.ty];
      var errors: seq<Error> := [];
      var i := 0;
      while i < |subscribers|
        invariant 0 <= i <= |subscribers|
        invariant i <= FirstPanic(subscribers, event)
        invariant errors == Errors(subscribers[..i], event)
      {
        var result := subscribers[i].handle(event);
        if result.SubscriberPanicked? {
          return Faulted(i);
        }
        assert subscribers[..i + 1][..i] == subscribers[..i];
        errors := errors + ErrorOf(result);
        i := i + 1;
      }
      assert subscribers[..i] == subscribers;
      return Returned(errors);
    }

    /** `PublishEventAsync[TEvent](ctx, event)`: hand the delivery to the channel; never fails. */
    method PublishEventAsync(event: Value) returns (err: Option<Error>)
      modifies this`deliveries
      ensures err == None
      ensures deliveries == old(deliveries) + [Delivery(event.ty, event)]
    {
      deliveries := deliveries + [Delivery(event.ty, event)];
      return None;
    }

    /** `Listen()`: start one more listener goroutine. */
    method Listen()
      modifies this`workers
      ensures workers == old(workers) + 1
    {
      workers := workers + 1;
    }

    /**
     * The listener goroutines at work until the channel is empty or none is
     * left (the loop of `listen` and its deferred `handleRecover`), one
     * delivery at a time in channel order.
     */
    method Work()
      modifies this`deliveries, this`workers, this`invoked
      ensures var r := Drain(eventHandlers, old(deliveries), old(workers));
        deliveries == r.pending && workers == r.workers && invoked == old(invoked) + r.invoked
    {
      ghost var goal := Drain(eventHandlers, deliveries, workers);
      while deliveries != [] && workers > 0
        invariant Drain(eventHandlers, deliveries, workers).pending == goal.pending
        invariant Drain(eventHandlers, deliveries, workers).workers == goal.workers
        invariant old(invoked) + goal.invoked == invoked + Drain(eventHandlers, deliveries, workers).invoked
        decreases |deliveries|
      {
        var delivery := deliveries[0];
        ghost var step := Drain(eventHandlers, deliveries, workers);
        deliveries := deliveries[1..];
        if delivery.eventType !in eventHandlers {
          workers := workers - 1;
          assert step == Drain(eventHandlers, deliveries, workers);
        } else {
          var calls := Receive(eventHandlers[delivery.eventType], delivery.event);
          ghost var rest := Drain(eventHandlers, deliveries, workers);
          assert step.pending == rest.pending && step.workers == rest.workers;
          assert step.invoked == calls + rest.invoked;
          invoked := invoked + calls;
        }
      }
    }
  }

  /**
   * One delivery received by a listener that finds subscribers: each is called
   * in order with the event; a panic ends the loop for this delivery.
   */
  method Receive(subscribers: seq<Subscriber>, event: Value) returns (calls: seq<Invocation>)
    ensures calls == Deliver(subscribers, event)
  {
    calls := [];
    var i := 0;
    while i < |subscribers|
      invariant 0 <= i <= FirstPanic(subscribers, event)
      invariant calls == Deliver(subscribers, event)[..i]
    {
      calls := calls + [Invocation(event, i)];
      var result := subscribers[i].handle(event);
      if result.SubscriberPanicked? {
        return;
      }
      i := i + 1;
    }
  }

  /** The combined error holds exactly the errors the subscribers returned. */
  lemma {:induction false} ErrorsAreSubscriberErrors(subscribers: seq<Subscriber>, event: Value, err: Error)
    ensures err in Errors(subscribers, event) <==>
      exists i :: 0 <= i < |subscribers| && subscribers[i].handle(event) == Handled(Some(err))
  {
    if subscribers != [] {
      var n := |subscribers| - 1;
      var init := subscribers[..n];
      ErrorsAreSubscriberErrors(init, event, err);
      if exists i :: 0 <= i < |subscribers| && subscribers[i].handle(event) == Handled(Some(err)) {
        var i :| 0 <= i < |subscribers| && subscribers[i].handle(event) == Handled(Some(err));
        if i < n {
          assert init[i] == subscribers[i];
        }
      }
      if err in Errors(init, event) {
        var i :| 0 <= i < |init| && init[i].handle(event) == Handled(Some(err));
        assert subscribers[i] == init[i];
      }
    }
  }

  /** The combined error is nil exactly when every subscriber returned nil (or panicked). */
  lemma {:induction false} NoErrorsIff(subscribers: seq<Subscriber>, event: Value)
    ensures Errors(subscribers, event) == [] <==>
      forall i :: 0 <= i < |subscribers| ==> ErrorOf(subscribers[i].handle(event)) == []
  {
    if subscribers != [] {
      var n := |subscribers| - 1;
      var init := subscribers[..n];
      NoErrorsIff(init, event);
      assert forall i :: 0 <= i < n ==> init[i] == subscribers[i];
    }
  }

  /**
   * PublishEvent returns nil exactly when the event's type has subscribers
   * entries and every subscriber returned nil.
   */
  lemma PublishSucceedsIff(eventHandlers: map<TypeKey, seq<Subscriber>>, event: Value)
    ensures Publish(eventHandlers, event) == Returned([]) <==>
      event.ty in eventHandlers &&
      forall i :: 0 <= i < |eventHandlers[event.ty]| ==> eventHandlers[event.ty][i].handle(event) == Handled(None)
  {
    if event.ty in eventHandlers {
      var subscribers := eventHandlers[event.ty];
      NoErrorsIff(subscribers, event);
      if forall i :: 0 <= i < |subscribers| ==> subscribers[i].handle(event) == Handled(None) {
        assert FirstPanic(subscribers, event) == |subscribers|;
      }
      if Publish(eventHandlers, event) == Returned([]) {
        forall i | 0 <= i < |subscribers| ensures subscribers[i].handle(event) == Handled(None) {
          assert !Panics(subscribers[i], event);
          assert ErrorOf(subscribers[i].handle(event)) == [];
        }
      }
    }
  }

  /**
   * Subscribe, then publish: a subscriber appended to its type's list is called
   * after the earlier ones, so its error comes last in the combined error.
   */
  lemma {:induction false} SubscriberCalledLast(eventHandlers: map<TypeKey, seq<Subscriber>>, subscribers: seq<Subscriber>,
                                                subscriber: Subscriber, event: Value)
    requires event.ty == subscriber.eventType
    requires FirstPanic(subscribers + [subscriber], event) == |subscribers| + 1
    ensures Publish(eventHandlers[subscriber.eventType := subscribers + [subscriber]], event) ==
      Returned(Errors(subscribers, event) + ErrorOf(subscriber.handle(event)))
  {
    var all := subscribers + [subscriber];
    assert all[..|all| - 1] == subscribers;
  }

  /**
   * FIFO: as long as a listener is left, draining two batches of deliveries
   * in a row is draining the first, then the second.
   */
  lemma {:induction false} DrainAppend(eventHandlers: map<TypeKey, seq<Subscriber>>, first: seq<Delivery>, second: seq<Delivery>, workers: nat)
    requires Drain(eventHandlers, first, workers).workers > 0
    ensures var r1 := Drain(eventHandlers, first, workers);
      var r2 := Drain(eventHandlers, second, r1.workers);
      Drain(eventHandlers, first + second, workers) == Listening(r2.pending, r2.workers, r1.invoked + r2.invoked)
    decreases |first|, 1
  {
    if first == [] {
      assert first + second == second;
    } else if first[0].eventType in eventHandlers {
      DrainAppendDelivered(eventHandlers, first, second, workers);
    } else {
      DrainAppendDropped(eventHandlers, first, second, workers);
    }
  }

  /** DrainAppend when the first delivery has subscribers: its calls come first. */
  lemma {:induction false} DrainAppendDelivered(eventHandlers: map<TypeKey, seq<Subscriber>>, first: seq<Delivery>, second: seq<Delivery>, workers: nat)
    requires first != [] && first[0].eventType in eventHandlers
    requires Drain(eventHandlers, first, workers).workers > 0
    ensures var r1 := Drain(eventHandlers, first, workers);
      var r2 := Drain(eventHandlers, second, r1.workers);
      Drain(eventHandlers, first + second, workers) == Listening(r2.pending, r2.workers, r1.invoked + r2.invoked)
    decreases |first|, 0
  {
    var delivery := first[0];
    var calls := Deliver(eventHandlers[delivery.eventType], delivery.event);
    var tail1 := Drain(eventHandlers, first[1..], workers);
    var tail := Drain(eventHandlers, first[1..] + second, workers);
    DrainDelivered(eventHandlers, first, workers);
    AppendUncons(first, second);
    DrainDelivered(eventHandlers, first + second, workers);
    DrainAppend(eventHandlers, first[1..], second, workers);
    var r2 := Drain(eventHandlers, second, tail1.workers);
    ListeningPrepend(calls, tail1.invoked, tail, r2);
  }

  /** Prepending calls to a drain that continues with a second one. */
  lemma ListeningPrepend(calls: seq<Invocation>, firstCalls: seq<Invocation>, tail: Listening, r2: Listening)
    requires tail == Listening(r2.pending, r2.workers, firstCalls + r2.invoked)
    ensures Listening(tail.pending, tail.workers, calls + tail.invoked) ==
      Listening(r2.pending, r2.workers, (calls + firstCalls) + r2.invoked)
  {
    assert calls + (firstCalls + r2.invoked) == (calls + firstCalls) + r2.invoked;
  }

  /** Draining a channel whose first delivery has subscribers: its calls, then the rest drained by the same listeners. */
  lemma DrainDelivered(eventHandlers: map<TypeKey, seq<Subscriber>>, pending: seq<Delivery>, workers: nat)
    requires pending != [] && workers > 0 && pending[0].eventType in eventHandlers
    ensures var rest := Drain(eventHandlers, pending[1..], workers);
      Drain(eventHandlers, pending, workers) ==
        Listening(rest.pending, rest.workers, Deliver(eventHandlers[pending[0].eventType], pending[0].event) + rest.invoked)
  {
  }

  /** DrainAppend when the first delivery has no subscribers: it only ends a listener. */
  lemma {:induction false} DrainAppendDropped(eventHandlers: map<TypeKey, seq<Subscriber>>, first: seq<Delivery>, second: seq<Delivery>, workers: nat)
    requires first != [] && first[0].eventType !in eventHandlers
    requires Drain(eventHandlers, first, workers).workers > 0
    ensures var r1 := Drain(eventHandlers, first, workers);
      var r2 := Drain(eventHandlers, second, r1.workers);
      Drain(eventHandlers, first + second, workers) == Listening(r2.pending, r2.workers, r1.invoked + r2.invoked)
    decreases |first|, 0
  {
    assert Drain(eventHandlers, first, workers) == Drain(eventHandlers, first[1..], workers - 1);
    DrainAppend(eventHandlers, first[1..], second, workers - 1);
    assert Drain(eventHandlers, first + second, workers) == Drain(eventHandlers, first[1..] + second, workers - 1) by {
      AppendUncons(first, second);
    }
  }

  /** The head and tail of a concatenation whose first part is non-empty. */
  lemma AppendUncons<T>(first: seq<T>, second: seq<T>)
    requires first != []
    ensures (first + second)[0] == first[0] && (first + second)[1..] == first[1..] + second
  {
  }

  /** What is left in the channel is a suffix of it: the listeners take deliveries in channel order. */
  lemma {:induction false} DrainLeavesSuffix(eventHandlers: map<TypeKey, seq<Subscriber>>, pending: seq<Delivery>, workers: nat)
    ensures var r := Drain(eventHandlers, pending, workers);
      |r.pending| <= |pending| && r.pending == pending[|pending| - |r.pending|..]
  {
    if pending != [] && workers != 0 {
      var w := if pending[0].eventType in eventHandlers then workers else workers - 1;
      DrainLeavesSuffix(eventHandlers, pending[1..], w);
      var rest := Drain(eventHandlers, pending[1..], w);
      assert Drain(eventHandlers, pending, workers).pending == rest.pending;
      assert pending[1..][|pending| - 1 - |rest.pending|..] == pending[|pending| - |rest.pending|..];
    }
  }

  /**
   * A delivery whose type has no subscriber stops the listener that receives
   * it: with a single listener, the deliveries behind it stay in the channel
   * and nothing is delivered until Listen is called again.
   */
  lemma UnsubscribedStopsListener(eventHandlers: map<TypeKey, seq<Subscriber>>, delivery: Delivery, rest: seq<Delivery>)
    requires delivery.eventType !in eventHandlers
    ensures Drain(eventHandlers, [delivery] + rest, 1) == Listening(rest, 0, [])
  {
    assert ([delivery] + rest)[1..] == rest;
  }

  /**
   * Panic isolation: a subscriber that panics skips the subscribers after it
   * for that delivery, but the recovered listener goes on with the next
   * delivery and its subscribers are called.
   */
  lemma PanicIsolated(eventHandlers: map<TypeKey, seq<Subscriber>>, faulty: Delivery, next: Delivery)
    requires faulty.eventType in eventHandlers
    requires FirstPanic(eventHandlers[faulty.eventType], faulty.event) < |eventHandlers[faulty.eventType]|
    requires next.eventType in eventHandlers
    ensures var r := Drain(eventHandlers, [faulty, next], 1);
      r.workers == 1 && r.pending == [] &&
      r.invoked == Deliver(eventHandlers[faulty.eventType], faulty.event) + Deliver(eventHandlers[next.eventType], next.event)
  {
    var calls := Deliver(eventHandlers[faulty.eventType], faulty.event);
    var nextCalls := Deliver(eventHandlers[next.eventType], next.event);
    assert [faulty, next][1..] == [next];
    assert [next][1..] == [];
    assert Drain(eventHandlers, [], 1) == Listening([], 1, []);
    assert Drain(eventHandlers, [next], 1) == Listening([], 1, nextCalls + []);
    assert Drain(eventHandlers, [faulty, next], 1) == Listening([], 1, calls + (nextCalls + []));
    assert nextCalls + [] == nextCalls;
  }
}
