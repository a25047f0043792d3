/**
 * The synchronous publish/subscribe channel of the game (EventManager.ts).
 *
 * Callbacks are identified by numbers. What the callbacks do when called is an
 * injected script: the n-th call made by the channel consumes the n-th
 * `Reaction`, which lists the events the callback emits and whether it then
 * throws; once the script is used up, callbacks emit nothing and return
 * normally. Calls are recorded in a delivery log. `Date.now()` is the parameter
 * `now` of `Emit`.
 */
module Events {
  import opened Types
  import opened Lists

  /** What one callback call does: the events it emits, in order, then whether it throws. */
  datatype Reaction = Reaction(emits: seq<GameEvent>, throws: bool)

  /** One callback call made by the channel. */
  datatype Delivery = Delivery(listener: nat, event: GameEvent, threw: bool)

  /**
   * One listener array. `generation` tells apart the arrays created for the same
   * event type before and after a `clear()`.
   */
  datatype Registry = Registry(generation: nat, callbacks: seq<nat>)

  /** The closure `subscribe` returns: it remembers the array it was registered in. */
  datatype Unsubscriber = Unsubscriber(eventType: EventType, listener: nat, generation: nat)

  /** The callbacks registered for `t`, in subscription order. */
  function Callbacks(listeners: map<EventType, Registry>, t: EventType): seq<nat> {
    if t in listeners then listeners[t].callbacks else []
  }

  /** The result of calling the callbacks of one event: calls made, events they emitted, script left. */
  datatype Round = Round(deliveries: seq<Delivery>, emitted: seq<GameEvent>, script: seq<Reaction>)

  /** One more callback call within a round: it consumes the next reaction, if any. */
  function Call(r: Round, cb: nat, e: GameEvent): Round {
    if r.script == [] then Round(r.deliveries + [Delivery(cb, e, false)], r.emitted, [])
    else Round(r.deliveries + [Delivery(cb, e, r.script[0].throws)], r.emitted + r.script[0].emits, r.script[1..])
  }

  /**
   * Calling `cbs` in order with `e`. Every callback is called, whether or not an
   * earlier one threw; reactions are consumed one per call.
   */
  function Deliver(cbs: seq<nat>, e: GameEvent, script: seq<Reaction>): (r: Round)
    ensures |r.script| <= |script|
    ensures |script| - |r.script| <= |cbs|
    ensures |r.script| == |script| ==> r.emitted == []
  {
    if cbs == [] then Round([], [], script)
    else Call(Deliver(cbs[..|cbs| - 1], e, script), cbs[|cbs| - 1], e)
  }

  /** Every callback is called once, in order, with the event; without reactions none throws. */
  lemma {:induction false} DeliverCallsEach(cbs: seq<nat>, e: GameEvent, script: seq<Reaction>)
    ensures var r := Deliver(cbs, e, script);
            && |r.deliveries| == |cbs|
            && (forall i :: 0 <= i < |cbs| ==> r.deliveries[i].listener == cbs[i] && r.deliveries[i].event == e)
            && (script == [] ==> r.script == [] && r.emitted == [] && forall i :: 0 <= i < |cbs| ==> !r.deliveries[i].threw)
  {
    if cbs != [] {
      var n := |cbs| - 1;
      DeliverCallsEach(cbs[..n], e, script);
      var before := Deliver(cbs[..n], e, script);
      var r := Deliver(cbs, e, script);
      assert r.deliveries[..n] == before.deliveries;
    }
  }

  /** Delivering to one more callback is one more call. */
  lemma DeliverSnoc(cbs: seq<nat>, i: nat, e: GameEvent, script: seq<Reaction>)
    requires i < |cbs|
    ensures Deliver(cbs[..i + 1], e, script) == Call(Deliver(cbs[..i], e, script), cbs[i], e)
  {
    assert cbs[..i + 1][..i] == cbs[..i];
  }

  /** The calls a drain makes and the script it leaves. */
  datatype Drained = Drained(log: seq<Delivery>, script: seq<Reaction>)

  /**
   * Draining the queue: the head event is delivered to its type's callbacks, the
   * events they emit join the back of the queue, and the rest is drained.
   */
  function Drain(listeners: map<EventType, Registry>, queue: seq<GameEvent>, script: seq<Reaction>): Drained
    decreases |script|, |queue|
  {
    if queue == [] then Drained([], script)
    else
      var r := Deliver(Callbacks(listeners, queue[0].eventType), queue[0], script);
      var rest := Drain(listeners, queue[1..] + r.emitted, r.script);
      Drained(r.deliveries + rest.log, rest.script)
  }

  lemma DrainStep(listeners: map<EventType, Registry>, queue: seq<GameEvent>, script: seq<Reaction>)
    requires queue != []
    ensures var r := Deliver(Callbacks(listeners, queue[0].eventType), queue[0], script);
            var rest := Drain(listeners, queue[1..] + r.emitted, r.script);
            Drain(listeners, queue, script) == Drained(r.deliveries + rest.log, rest.script)
  {
  }

  /** What one delivery round leaves for the rest of the drain, with the calls made so far in front. */
  lemma DrainAdvance(listeners: map<EventType, Registry>, queue: seq<GameEvent>, script: seq<Reaction>, done: seq<Delivery>)
    requires queue != []
    ensures var r := Deliver(Callbacks(listeners, queue[0].eventType), queue[0], script);
            var rest := Drain(listeners, queue[1..] + r.emitted, r.script);
            && done + Drain(listeners, queue, script).log == (done + r.deliveries) + rest.log
            && Drain(listeners, queue, script).script == rest.script
  {
    var r := Deliver(Callbacks(listeners, queue[0].eventType), queue[0], script);
    var rest := Drain(listeners, queue[1..] + r.emitted, r.script);
    DrainStep(listeners, queue, script);
  }

  /**
   * The head event's callbacks are all called, in subscription order, before
   * anything else: events they emit wait behind every event already queued.
   */
  lemma HeadEventFirst(listeners: map<EventType, Registry>, queue: seq<GameEvent>, script: seq<Reaction>)
    requires queue != []
    ensures var cbs := Callbacks(listeners, queue[0].eventType);
            var log := Drain(listeners, queue, script).log;
            && |log| >= |cbs|
            && forall i :: 0 <= i < |cbs| ==> log[i].listener == cbs[i] && log[i].event == queue[0]
  {
    DeliverCallsEach(Callbacks(listeners, queue[0].eventType), queue[0], script);
  }

  /**
   * No queued event is lost, whatever the callbacks throw: each callback of each
   * queued event's type is called with it.
   */
  lemma {:induction false} DrainReachesAll(listeners: map<EventType, Registry>, queue: seq<GameEvent>, script: seq<Reaction>, k: int, j: int)
    requires 0 <= k < |queue| && 0 <= j < |Callbacks(listeners, queue[k].eventType)|
    ensures exists d :: d in Drain(listeners, queue, script).log
                        && d.listener == Callbacks(listeners, queue[k].eventType)[j] && d.event == queue[k]
    decreases |script|, |queue|
  {
    var cbs := Callbacks(listeners, queue[0].eventType);
    var r := Deliver(cbs, queue[0], script);
    var next := queue[1..] + r.emitted;
    var rest := Drain(listeners, next, r.script);
    assert Drain(listeners, queue, script).log == r.deliveries + rest.log;
    DeliverCallsEach(cbs, queue[0], script);
    if k == 0 {
      assert r.deliveries[j] in Drain(listeners, queue, script).log;
    } else {
      assert next[k - 1] == queue[k];
      DrainReachesAll(listeners, next, r.script, k - 1, j);
      var d :| d in rest.log && d.listener == Callbacks(listeners, queue[k].eventType)[j] && d.event == queue[k];
      assert d in Drain(listeners, queue, script).log;
    }
  }

  /** The calls of a drain whose callbacks emit nothing and never throw: each event, in queue order, to each of its callbacks. */
  function Quiet(listeners: map<EventType, Registry>, queue: seq<GameEvent>): seq<Delivery> {
    if queue == [] then []
    else QuietCalls(Callbacks(listeners, queue[0].eventType), queue[0]) + Quiet(listeners, queue[1..])
  }

  function QuietCalls(cbs: seq<nat>, e: GameEvent): (ds: seq<Delivery>)
    ensures |ds| == |cbs|
  {
    if cbs == [] then [] else QuietCalls(cbs[..|cbs| - 1], e) + [Delivery(cbs[|cbs| - 1], e, false)]
  }

  lemma {:induction false} DeliverQuietly(cbs: seq<nat>, e: GameEvent)
    ensures Deliver(cbs, e, []) == Round(QuietCalls(cbs, e), [], [])
  {
    if cbs != [] {
      DeliverQuietly(cbs[..|cbs| - 1], e);
    }
  }

  /**
   * Without reactions the channel is first in, first out: the events are delivered
   * in queue order, each to its callbacks in subscription order.
   */
  lemma {:induction false} QuietDrainIsFifo(listeners: map<EventType, Registry>, queue: seq<GameEvent>)
    ensures Drain(listeners, queue, []) == Drained(Quiet(listeners, queue), [])
    decreases |queue|
  {
    if queue != [] {
      DeliverQuietly(Callbacks(listeners, queue[0].eventType), queue[0]);
      assert queue[1..] + [] == queue[1..];
      QuietDrainIsFifo(listeners, queue[1..]);
    }
  }

  lemma {:induction false} QuietAppend(listeners: map<EventType, Registry>, a: seq<GameEvent>, b: seq<GameEvent>)
    ensures Quiet(listeners, a + b) == Quiet(listeners, a) + Quiet(listeners, b)
  {
    if a != [] {
      assert (a + b)[0] == a[0];
      assert (a + b)[1..] == a[1..] + b;
      QuietAppend(listeners, a[1..], b);
    } else {
      assert a + b == b;
    }
  }

  /** The events a batch emits, stamped with the time of the batch. */
  function Stamped(events: seq<(EventType, Payload)>, now: int): (es: seq<GameEvent>)
    ensures |es| == |events|
  {
    if events == [] then [] else [GameEvent(events[0].0, events[0].1, now)] + Stamped(events[1..], now)
  }

  lemma {:induction false} StampedSnoc(events: seq<(EventType, Payload)>, i: nat, now: int)
    requires i < |events|
    ensures Stamped(events[..i + 1], now) == Stamped(events[..i], now) + [GameEvent(events[i].0, events[i].1, now)]
  {
    var head := GameEvent(events[0].0, events[0].1, now);
    if i == 0 {
      assert events[..1][1..] == [];
    } else {
      assert events[..i + 1][1..] == events[1..][..i];
      assert events[..i][1..] == events[1..][..i - 1];
      StampedSnoc(events[1..], i - 1, now);
    }
  }

  /** Events stamped in two stretches are stamped in one. */
  lemma {:induction false} StampedAppend(a: seq<(EventType, Payload)>, b: seq<(EventType, Payload)>, now: int)
    ensures Stamped(a + b, now) == Stamped(a, now) + Stamped(b, now)
  {
    if a == [] {
      assert a + b == b;
    } else {
      assert (a + b)[0] == a[0];
      assert (a + b)[1..] == a[1..] + b;
      StampedAppend(a[1..], b, now);
    }
  }

  /** `emitBatch`: one complete emit, with its drain, per event, in order. */
  function Batch(listeners: map<EventType, Registry>, events: seq<(EventType, Payload)>, now: int, script: seq<Reaction>): Drained
  {
    if events == [] then Drained([], script)
    else
      var first := Drain(listeners, [GameEvent(events[0].0, events[0].1, now)], script);
      var rest := Batch(listeners, events[1..], now, first.script);
      Drained(first.log + rest.log, rest.script)
  }

  lemma BatchStep(listeners: map<EventType, Registry>, events: seq<(EventType, Payload)>, now: int, script: seq<Reaction>)
    requires events != []
    ensures var first := Drain(listeners, [GameEvent(events[0].0, events[0].1, now)], script);
            var rest := Batch(listeners, events[1..], now, first.script);
            Batch(listeners, events, now, script) == Drained(first.log + rest.log, rest.script)
  {
  }

  /** What one emit of a batch leaves for the rest of it, with the calls made so far in front. */
  lemma BatchAdvance(listeners: map<EventType, Registry>, events: seq<(EventType, Payload)>, now: int, script: seq<Reaction>, done: seq<Delivery>)
    requires events != []
    ensures var first := Drain(listeners, [GameEvent(events[0].0, events[0].1, now)], script);
            var rest := Batch(listeners, events[1..], now, first.script);
            && done + Batch(listeners, events, now, script).log == (done + first.log) + rest.log
            && Batch(listeners, events, now, script).script == rest.script
  {
    BatchStep(listeners, events, now, script);
    var first := Drain(listeners, [GameEvent(events[0].0, events[0].1, now)], script);
    var rest := Batch(listeners, events[1..], now, first.script);
    assert done + (first.log + rest.log) == (done + first.log) + rest.log;
  }

  /** Emitting the events of `a` and then those of `b` is emitting the events of `a + b`. */
  lemma {:induction false} BatchAppend(listeners: map<EventType, Registry>, a: seq<(EventType, Payload)>, b: seq<(EventType, Payload)>, now: int, script: seq<Reaction>)
    ensures var first := Batch(listeners, a, now, script);
            var second := Batch(listeners, b, now, first.script);
            Batch(listeners, a + b, now, script) == Drained(first.log + second.log, second.script)
    decreases |a|
  {
    if a == [] {
      assert a + b == b;
    } else {
      assert (a + b)[0] == a[0];
      assert (a + b)[1..] == a[1..] + b;
      var d := Drain(listeners, [GameEvent(a[0].0, a[0].1, now)], script);
      BatchAppend(listeners, a[1..], b, now, d.script);
    }
  }

  /**
   * Without reactions a batch delivers exactly what queueing all of its events at
   * once would.
   */
  lemma {:induction false} QuietBatchIsOneDrain(listeners: map<EventType, Registry>, events: seq<(EventType, Payload)>, now: int)
    ensures Batch(listeners, events, now, []) == Drain(listeners, Stamped(events, now), [])
  {
    QuietDrainIsFifo(listeners, Stamped(events, now));
    if events != [] {
      var e := GameEvent(events[0].0, events[0].1, now);
      QuietDrainIsFifo(listeners, [e]);
      QuietBatchIsOneDrain(listeners, events[1..], now);
      QuietDrainIsFifo(listeners, Stamped(events[1..], now));
      assert Stamped(events, now) == [e] + Stamped(events[1..], now);
      QuietAppend(listeners, [e], Stamped(events[1..], now));
    }
  }

  /** The registries after `subscribe(t, cb)`, and the generation counter after it. */
  function Subscribed(listeners: map<EventType, Registry>, nextGeneration: nat, t: EventType, cb: nat): (r: (map<EventType, Registry>, nat))
  {
    if t in listeners then (listeners[t := listeners[t].(callbacks := listeners[t].callbacks + [cb])], nextGeneration)
    else (listeners[t := Registry(nextGeneration, [cb])], nextGeneration + 1)
  }

  /** The registries after calling the closure `h`: it splices its own array, which may no longer be registered. */
  function Unsubscribed(listeners: map<EventType, Registry>, h: Unsubscriber): map<EventType, Registry> {
    if h.eventType in listeners && listeners[h.eventType].generation == h.generation
    then listeners[h.eventType := listeners[h.eventType].(callbacks := RemoveFirst(listeners[h.eventType].callbacks, h.listener))]
    else listeners
  }

  /** Every registry is older than the generation counter. */
  ghost predicate Fresh(listeners: map<EventType, Registry>, nextGeneration: nat) {
    forall t :: t in listeners ==> listeners[t].generation < nextGeneration
  }

  /** Subscribing appends to the type's list, touches no other type and keeps every array's generation fresh. */
  lemma SubscribeAppends(listeners: map<EventType, Registry>, nextGeneration: nat, t: EventType, cb: nat)
    requires Fresh(listeners, nextGeneration)
    ensures var after := Subscribed(listeners, nextGeneration, t, cb);
            && Callbacks(after.0, t) == Callbacks(listeners, t) + [cb]
            && (forall u :: u != t ==> Callbacks(after.0, u) == Callbacks(listeners, u))
            && Fresh(after.0, after.1)
  {
  }

  /** The handle of a fresh subscription removes exactly that registration again. */
  lemma SubscribeThenUnsubscribe(listeners: map<EventType, Registry>, nextGeneration: nat, t: EventType, cb: nat)
    requires cb !in Callbacks(listeners, t)
    ensures var after := Subscribed(listeners, nextGeneration, t, cb).0;
            Callbacks(Unsubscribed(after, Unsubscriber(t, cb, after[t].generation)), t) == Callbacks(listeners, t)
  {
    ListsSubscribeThenRemove(Callbacks(listeners, t), cb);
  }

  lemma ListsSubscribeThenRemove(cbs: seq<nat>, cb: nat)
    requires cb !in cbs
    ensures RemoveFirst(cbs + [cb], cb) == cbs
  {
    var xs := cbs + [cb];
    assert IndexOf(xs, cb) == |cbs| by {
      assert xs[|cbs|] == cb;
      assert xs[..|cbs|] == cbs;
    }
    assert xs[..|cbs|] == cbs;
  }

  /** Calling a handle a second time does nothing when its callback was registered once. */
  lemma UnsubscribeTwice(listeners: map<EventType, Registry>, h: Unsubscriber)
    requires multiset(Callbacks(listeners, h.eventType))[h.listener] <= 1
    ensures Unsubscribed(Unsubscribed(listeners, h), h) == Unsubscribed(listeners, h)
  {
    if h.eventType in listeners && listeners[h.eventType].generation == h.generation {
      RemoveFirstTwice(listeners[h.eventType].callbacks, h.listener);
    }
  }

  /**
   * A handle taken before `clear()` never touches the arrays created afterwards,
   * even for the same event type and callback.
   */
  lemma StaleHandleAfterClear(nextGeneration: nat, h: Unsubscriber, t: EventType, cb: nat)
    requires h.generation < nextGeneration
    ensures var after := Subscribed(map[], nextGeneration, t, cb).0;
            Unsubscribed(after, h) == after
  {
  }

  class EventManager {
    var listeners: map<EventType, Registry>
    var eventQueue: seq<GameEvent>
    var isProcessing: bool
    /** Every callback call made so far, oldest first. */
    var log: seq<Delivery>
    /** What the callbacks will do when called next. */
    var script: seq<Reaction>
    /** The generation the next listener array gets. */
    var nextGeneration: nat
    /** Every event emitted from outside a callback, oldest first. */
    ghost var history: seq<GameEvent>

    /** Between two public calls nothing is queued and no drain is running. */
    ghost predicate Valid()
      reads this
    {
      !isProcessing && eventQueue == [] && Fresh(listeners, nextGeneration)
    }

    constructor(script: seq<Reaction>)
      ensures Valid()
      ensures listeners == map[] && log == [] && this.script == script && history == []
    {
      history := [];
      listeners := map[];
      eventQueue := [];
      isProcessing := false;
      log := [];
      this.script := script;
      nextGeneration := 0;
    }

    /** Appends `callback` to the list of `eventType`, creating the list if needed. */
    method Subscribe(eventType: EventType, callback: nat) returns (unsubscribe: Unsubscriber)
      requires Valid()
      modifies this
      ensures Valid()
      ensures (listeners, nextGeneration) == Subscribed(old(listeners), old(nextGeneration), eventType, callback)
      ensures unsubscribe == Unsubscriber(eventType, callback, listeners[eventType].generation)
      ensures log == old(log) && script == old(script) && history == old(history)
    {
      var callbacks: Registry;
      if eventType in listeners {
        callbacks := listeners[eventType];
      } else {
        callbacks := Registry(nextGeneration, []);
        nextGeneration := nextGeneration + 1;
        assert callbacks.callbacks + [callback] == [callback];
      }
      listeners := listeners[eventType := callbacks.(callbacks := callbacks.callbacks + [callback])];
      unsubscribe := Unsubscriber(eventType, callback, callbacks.generation);
    }

    /** Calls the closure `subscribe` returned. */
    method Unsubscribe(unsubscribe: Unsubscriber)
      requires Valid()
      modifies this
      ensures Valid()
      ensures listeners == Unsubscribed(old(listeners), unsubscribe)
      ensures nextGeneration == old(nextGeneration) && log == old(log) && script == old(script)
      ensures history == old(history)
    {
      if unsubscribe.eventType in listeners && listeners[unsubscribe.eventType].generation == unsubscribe.generation {
        var callbacks := listeners[unsubscribe.eventType].callbacks;
        var index := IndexOf(callbacks, unsubscribe.listener);
        if index > -1 {
          listeners := listeners[unsubscribe.eventType := listeners[unsubscribe.eventType].(callbacks := callbacks[..index] + callbacks[index + 1..])];
        }
      }
    }

    /** Queues the event and, since no drain is running, drains the queue. */
    method Emit(eventType: EventType, payload: Payload, now: int)
      requires Valid()
      modifies this
      ensures Valid()
      ensures var d := Drain(listeners, [GameEvent(eventType, payload, now)], old(script));
              log == old(log) + d.log && script == d.script
      ensures listeners == old(listeners) && nextGeneration == old(nextGeneration)
      ensures history == old(history) + [GameEvent(eventType, payload, now)]
    {
      var event := GameEvent(eventType, payload, now);
      history := history + [event];
      eventQueue := eventQueue + [event];
      if !isProcessing {
        ProcessEventQueue();
      }
    }

    /**
     * Delivers queued events, oldest first, until the queue is empty. An emit made
     * by a callback during the drain only appends to the queue.
     */
    method ProcessEventQueue()
      requires !isProcessing
      modifies this
      ensures !isProcessing && eventQueue == []
      ensures var d := Drain(listeners, old(eventQueue), old(script));
              log == old(log) + d.log && script == d.script
      ensures listeners == old(listeners) && nextGeneration == old(nextGeneration) && history == old(history)
    {
      isProcessing := true;
      ghost var total := Drain(listeners, eventQueue, script);
      while eventQueue != []
        invariant isProcessing
        invariant listeners == old(listeners) && nextGeneration == old(nextGeneration) && history == old(history)
        invariant old(log) + total.log == log + Drain(listeners, eventQueue, script).log
        invariant total.script == Drain(listeners, eventQueue, script).script
        decreases |script|, |eventQueue|
      {
        ghost var q, s0, l0 := eventQueue, script, log;
        var event := eventQueue[0];
        eventQueue := eventQueue[1..];
        var callbacks := Callbacks(listeners, event.eventType);
        DeliverEvent(callbacks, event);
        DrainAdvance(listeners, q, s0, l0);
      }
      isProcessing := false;
    }

    /** `callbacks.forEach`: calls each callback with `event`, catching whatever it throws. */
    method DeliverEvent(callbacks: seq<nat>, event: GameEvent)
      requires isProcessing
      modifies this
      ensures isProcessing
      ensures var r := Deliver(callbacks, event, old(script));
              eventQueue == old(eventQueue) + r.emitted && log == old(log) + r.deliveries && script == r.script
      ensures listeners == old(listeners) && nextGeneration == old(nextGeneration) && history == old(history)
    {
      var queue, calls, reactions := eventQueue, log, script;
      for i := 0 to |callbacks|
        modifies {}
        invariant var r := Deliver(callbacks[..i], event, old(script));
                  queue == old(eventQueue) + r.emitted && calls == old(log) + r.deliveries && reactions == r.script
      {
        DeliverSnoc(callbacks, i, event, old(script));
        if reactions != [] {
          var reaction := reactions[0];
          reactions := reactions[1..];
          queue := queue + reaction.emits;
          calls := calls + [Delivery(callbacks[i], event, reaction.throws)];
        } else {
          calls := calls + [Delivery(callbacks[i], event, false)];
        }
      }
      eventQueue, log, script := queue, calls, reactions;
      assert callbacks[..|callbacks|] == callbacks;
    }

    /** Drops every listener array and every queued event. */
    method Clear()
      requires Valid()
      modifies this
      ensures Valid()
      ensures listeners == map[] && eventQueue == []
      ensures nextGeneration == old(nextGeneration) && log == old(log) && script == old(script)
      ensures history == old(history)
    {
      listeners := map[];
      eventQueue := [];
    }

    /** Emits each event of the batch in turn, each drained before the next is emitted. */
    method EmitBatch(events: seq<(EventType, Payload)>, now: int)
      requires Valid()
      modifies this
      ensures Valid()
      ensures var b := Batch(listeners, events, now, old(script));
              log == old(log) + b.log && script == b.script
      ensures listeners == old(listeners) && nextGeneration == old(nextGeneration)
      ensures history == old(history) + Stamped(events, now)
    {
      ghost var total := Batch(listeners, events, now, script);
      for i := 0 to |events|
        invariant Valid()
        invariant listeners == old(listeners) && nextGeneration == old(nextGeneration)
        invariant history == old(history) + Stamped(events[..i], now)
        invariant old(log) + total.log == log + Batch(listeners, events[i..], now, script).log
        invariant total.script == Batch(listeners, events[i..], now, script).script
      {
        EmitAt(events, i, now, old(history), old(log), total);
      }
      assert events[..|events|] == events;
    }

    /** The emit of `events[i]` within a batch, seen as one step through `Batch`. */
    method EmitAt(events: seq<(EventType, Payload)>, i: nat, now: int,
                  ghost h0: seq<GameEvent>, ghost log0: seq<Delivery>, ghost total: Drained)
      requires Valid() && i < |events|
      requires history == h0 + Stamped(events[..i], now)
      requires log0 + total.log == log + Batch(listeners, events[i..], now, script).log
      requires total.script == Batch(listeners, events[i..], now, script).script
      modifies this
      ensures Valid() && listeners == old(listeners) && nextGeneration == old(nextGeneration)
      ensures history == h0 + Stamped(events[..i + 1], now)
      ensures log0 + total.log == log + Batch(listeners, events[i + 1..], now, script).log
      ensures total.script == Batch(listeners, events[i + 1..], now, script).script
    {
      ghost var s0, l0 := script, log;
      assert events[i..][1..] == events[i + 1..];
      Emit(events[i].0, events[i].1, now);
      BatchAdvance(listeners, events[i..], now, s0, l0);
      StampedSnoc(events, i, now);
    }

    /** The length of every registered list, by event type. */
    function GetListenerCounts(): (counts: map<EventType, nat>)
      reads this
      ensures counts.Keys == listeners.Keys
      ensures forall t :: t in counts ==> counts[t] == |Callbacks(listeners, t)|
    {
      map t | t in listeners :: |listeners[t].callbacks|
    }
  }
}
