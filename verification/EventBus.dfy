/** The in-process event bus: each subscriber owns a bounded queue and a slow one loses its own
    oldest events. */
module EventBus {
  import opened Wrappers

  datatype Event = Event(taskId: string, body: string)

  /** What a subscription has been sent so far, split by fate: read by the consumer, evicted, or
      still queued. The order of arrival is kept in sent. */
  datatype Ledger = Ledger(sent: seq<Event>, consumed: seq<Event>, queue: seq<Event>, dropped: nat)

  const EMPTY := Ledger([], [], [], 0)

  predicate Matches(filter: Option<string>, event: Event) {
    filter.None? || event.taskId == filter.value
  }

  /** A queue size of zero or less means no bound. */
  predicate IsFull(maxSize: int, queue: seq<Event>) {
    maxSize > 0 && |queue| >= maxSize
  }

  /** Delivery of one event: a full queue gives up its oldest entry first. */
  function Deliver(maxSize: int, filter: Option<string>, l: Ledger, event: Event): Ledger {
    if !Matches(filter, event) then l
    else if IsFull(maxSize, l.queue) then
      Ledger(l.sent + [event], l.consumed, l.queue[1..] + [event], l.dropped + 1)
    else l.(sent := l.sent + [event], queue := l.queue + [event])
  }

  /** The consumer takes the head of the queue when there is one. */
  function Read(l: Ledger): Ledger {
    if l.queue == [] then l else l.(consumed := l.consumed + [l.queue[0]], queue := l.queue[1..])
  }

  /** Delivery in terms of the queue and the counter: an event of another task changes nothing; otherwise it
      is appended, and only a full queue gives up its first event, one, and counts it. */
  lemma DeliveryIs(maxSize: int, filter: Option<string>, l: Ledger, event: Event)
    ensures var next := Deliver(maxSize, filter, l, event);
      var wanted := filter == None || filter == Some(event.taskId);
      && (!wanted ==> next == l)
      && (wanted && (maxSize <= 0 || |l.queue| < maxSize) ==>
            next.queue == l.queue + [event] && next.dropped == l.dropped)
      && (wanted && maxSize > 0 && |l.queue| >= maxSize ==>
            next.queue == l.queue[1..] + [event] && next.dropped == l.dropped + 1)
      && (wanted ==> next.sent == l.sent + [event])
      && next.consumed == l.consumed
  {
  }

  datatype Operation = Publish(event: Event) | Next

  function Apply(maxSize: int, filter: Option<string>, l: Ledger, op: Operation): Ledger {
    match op
    case Publish(event) => Deliver(maxSize, filter, l, event)
    case Next => Read(l)
  }

  function ApplyAll(maxSize: int, filter: Option<string>, ops: seq<Operation>): Ledger {
    if ops == [] then EMPTY else Apply(maxSize, filter, ApplyAll(maxSize, filter, ops[..|ops| - 1]), ops[|ops| - 1])
  }

  /** The matching events among the published ones, in order. */
  function Published(filter: Option<string>, ops: seq<Operation>): seq<Event> {
    if ops == [] then []
    else
      var last := ops[|ops| - 1];
      Published(filter, ops[..|ops| - 1]) + if last.Publish? && Matches(filter, last.event) then [last.event] else []
  }

  /** The positions, in order of arrival, of the events the consumer has read. */
  ghost predicate ReadInOrder(l: Ledger, positions: seq<nat>) {
    && |positions| == |l.consumed|
    && (forall i :: 0 <= i < |positions| ==>
      positions[i] < |l.sent| - |l.queue| && l.sent[positions[i]] == l.consumed[i])
    && (forall i, j :: 0 <= i < j < |positions| ==> positions[i] < positions[j])
  }

  /** Nothing is lost unaccounted for: sent = consumed + queued + dropped in number, the queue is the
      newest part of what was sent, and it never exceeds its bound. */
  ghost predicate Accounted(maxSize: int, l: Ledger) {
    && |l.sent| == |l.consumed| + |l.queue| + l.dropped
    && l.queue == l.sent[|l.sent| - |l.queue|..]
    && (maxSize > 0 ==> |l.queue| <= maxSize)
    && (exists positions :: ReadInOrder(l, positions))
    && (l.sent != [] && l.queue == [] ==> l.consumed != [] && l.consumed[|l.consumed| - 1] == l.sent[|l.sent| - 1])
  }

  lemma DeliverIsAccounted(maxSize: int, filter: Option<string>, l: Ledger, event: Event)
    requires Accounted(maxSize, l)
    ensures Accounted(maxSize, Deliver(maxSize, filter, l, event))
  {
    var next := Deliver(maxSize, filter, l, event);
    var positions :| ReadInOrder(l, positions);
    if Matches(filter, event) {
      assert next.queue == next.sent[|next.sent| - |next.queue|..];
      assert forall i :: 0 <= i < |l.sent| ==> next.sent[i] == l.sent[i];
      assert ReadInOrder(next, positions);
    }
  }

  lemma ReadIsAccounted(maxSize: int, l: Ledger)
    requires Accounted(maxSize, l)
    ensures Accounted(maxSize, Read(l))
  {
    var next := Read(l);
    var positions :| ReadInOrder(l, positions);
    if l.queue != [] {
      var k := |l.sent| - |l.queue|;
      assert l.queue[0] == l.sent[k];
      assert l.queue[|l.queue| - 1] == l.sent[|l.sent| - 1];
      assert ReadInOrder(next, positions + [k]);
    }
  }

  /** Any history followed by one more publish, on a queue within its bound: what is queued and what has been
      dropped then, and what has been sent, stated by the task the event belongs to. */
  lemma OneMorePublish(maxSize: int, filter: Option<string>, ops: seq<Operation>, event: Event)
    ensures var l, next := ApplyAll(maxSize, filter, ops), ApplyAll(maxSize, filter, ops + [Publish(event)]);
      if filter.Some? && event.taskId != filter.value then next == l
      else if maxSize <= 0 then next.queue == l.queue + [event] && next.dropped == l.dropped
      else
        && |next.queue| == (if |l.queue| < maxSize then |l.queue| + 1 else maxSize)
        && next.queue == (if |l.queue| < maxSize then l.queue else l.queue[1..]) + [event]
        && next.dropped == l.dropped + if |l.queue| < maxSize then 0 else 1
    ensures Published(filter, ops + [Publish(event)])
         == Published(filter, ops) + if filter == None || filter == Some(event.taskId) then [event] else []
  {
    assert (ops + [Publish(event)])[..|ops|] == ops;
    EveryHistoryIsAccounted(maxSize, filter, ops);
    DeliveryIs(maxSize, filter, ApplyAll(maxSize, filter, ops), event);
    hide Deliver;
  }

  /** Any history followed by one more read. */
  lemma OneMoreRead(maxSize: int, filter: Option<string>, ops: seq<Operation>)
    ensures var l, next := ApplyAll(maxSize, filter, ops), ApplyAll(maxSize, filter, ops + [Next]);
      if l.queue == [] then next == l
      else next.consumed == l.consumed + [l.queue[0]] && next.queue == l.queue[1..] && next.dropped == l.dropped
    ensures Published(filter, ops + [Next]) == Published(filter, ops)
  {
    assert (ops + [Next])[..|ops|] == ops;
    assert Published(filter, ops) + [] == Published(filter, ops);
  }

  lemma EmptyIsAccounted(maxSize: int)
    ensures Accounted(maxSize, EMPTY)
  {
    assert ReadInOrder(EMPTY, []);
  }

  lemma SentByOne(maxSize: int, filter: Option<string>, l: Ledger, op: Operation)
    ensures Apply(maxSize, filter, l, op).sent
         == l.sent + if op.Publish? && Matches(filter, op.event) then [op.event] else []
  {
  }

  /** After any mix of publishes and reads the books balance, and what was sent is exactly the
      published events that match. */
  lemma {:induction false} EveryHistoryIsAccounted(maxSize: int, filter: Option<string>, ops: seq<Operation>)
    ensures Accounted(maxSize, ApplyAll(maxSize, filter, ops))
    ensures ApplyAll(maxSize, filter, ops).sent == Published(filter, ops)
  {
    hide Accounted, Deliver, Read, Matches;
    if ops == [] {
      EmptyIsAccounted(maxSize);
    } else {
      EveryHistoryIsAccounted(maxSize, filter, ops[..|ops| - 1]);
      var before := ApplyAll(maxSize, filter, ops[..|ops| - 1]);
      var last := ops[|ops| - 1];
      SentByOne(maxSize, filter, before, last);
      if last.Publish? {
        DeliverIsAccounted(maxSize, filter, before, last.event);
      } else {
        ReadIsAccounted(maxSize, before);
      }
    }
  }

  /** The latest matching event is never lost: it is at the end of the queue or was read last. */
  lemma LatestSurvives(maxSize: int, filter: Option<string>, ops: seq<Operation>)
    requires Published(filter, ops) != []
    ensures var l := ApplyAll(maxSize, filter, ops);
      var sent := Published(filter, ops);
      var latest := sent[|sent| - 1];
      if l.queue != [] then l.queue[|l.queue| - 1] == latest
      else l.consumed != [] && l.consumed[|l.consumed| - 1] == latest
  {
    EveryHistoryIsAccounted(maxSize, filter, ops);
  }

  /** Without a bound, or while the bound was never reached, nothing is dropped. */
  lemma {:induction false} UnboundedDropsNothing(maxSize: int, filter: Option<string>, ops: seq<Operation>)
    requires maxSize <= 0 || |Published(filter, ops)| <= maxSize
    ensures ApplyAll(maxSize, filter, ops).dropped == 0
    ensures ApplyAll(maxSize, filter, ops).consumed + ApplyAll(maxSize, filter, ops).queue == Published(filter, ops)
  {
    if ops != [] {
      UnboundedDropsNothing(maxSize, filter, ops[..|ops| - 1]);
      EveryHistoryIsAccounted(maxSize, filter, ops);
    }
  }

  // ---------- Subscriptions and the bus ----------

  class Subscription {
    const maxSize: int
    const filter: Option<string>
    var queue: seq<Event>
    var dropped: nat
    ghost var ledger: Ledger

    constructor (maxSize: int, filter: Option<string>)
      ensures Valid() && this.maxSize == maxSize && this.filter == filter && ledger == EMPTY
    {
      this.maxSize := maxSize;
      this.filter := filter;
      queue := [];
      dropped := 0;
      ledger := EMPTY;
      EmptyIsAccounted(maxSize);
    }

    /** The queue and the drop counter are those of an accounted history. */
    ghost predicate Valid()
      reads this
    {
      Accounted(maxSize, ledger) && queue == ledger.queue && dropped == ledger.dropped
    }

    method DeliverEvent(event: Event)
      requires Valid()
      modifies this
      ensures Valid() && ledger == Deliver(maxSize, filter, old(ledger), event)
      ensures filter.Some? && event.taskId != filter.value ==> queue == old(queue) && dropped == old(dropped)
      ensures filter.None? || event.taskId == filter.value ==>
        queue == (if maxSize <= 0 || |old(queue)| < maxSize then old(queue) else old(queue)[1..]) + [event]
      ensures filter.None? || event.taskId == filter.value ==>
        dropped == old(dropped) + if maxSize <= 0 || |old(queue)| < maxSize then 0 else 1
    {
      DeliverIsAccounted(maxSize, filter, ledger, event);
      ledger := Deliver(maxSize, filter, ledger, event);
      if !Matches(filter, event) {
        return;
      }
      if IsFull(maxSize, queue) {
        queue := queue[1..];
        queue := queue + [event];
        dropped := dropped + 1;
      } else {
        queue := queue + [event];
      }
    }

    /** The next event for the consumer; it waits while the queue is empty. */
    method Receive() returns (event: Event)
      requires Valid() && queue != []
      modifies this
      ensures Valid() && ledger == Read(old(ledger))
      ensures event == old(queue)[0] && queue == old(queue)[1..] && dropped == old(dropped)
    {
      ReadIsAccounted(maxSize, ledger);
      ledger := Read(ledger);
      event := queue[0];
      queue := queue[1..];
    }
  }

  class Bus {
    const maxQueue: int
    var registry: set<Subscription>

    constructor (maxQueue: int)
      ensures this.maxQueue == maxQueue && registry == {}
    {
      this.maxQueue := maxQueue;
      registry := {};
    }

    /** A new subscription is not registered until its context is entered. */
    method Subscribe(filter: Option<string>) returns (s: Subscription)
      ensures fresh(s) && s.Valid() && s.maxSize == maxQueue && s.filter == filter && s.ledger == EMPTY
    {
      s := new Subscription(maxQueue, filter);
    }

    method Enter(s: Subscription)
      modifies this
      ensures registry == old(registry) + {s}
    {
      registry := registry + {s};
    }

    method Exit(s: Subscription)
      modifies this
      ensures registry == old(registry) - {s}
    {
      registry := registry - {s};
    }

    /** Every registered subscription gets the event once; nobody else is touched. */
    method PublishEvent(event: Event)
      requires forall s :: s in registry ==> s.Valid()
      modifies registry
      ensures registry == old(registry)
      ensures forall s :: s in registry ==>
        s.Valid() && s.ledger == Deliver(s.maxSize, s.filter, old(s.ledger), event)
    {
      hide Accounted, Deliver;
      var rest := registry;
      while rest != {}
        invariant rest <= registry
        invariant forall s :: s in registry ==> s.Valid()
        invariant forall s :: s in rest ==> s.ledger == old(s.ledger)
        invariant forall s :: s in registry - rest ==> s.ledger == Deliver(s.maxSize, s.filter, old(s.ledger), event)
        decreases rest
      {
        var s :| s in rest;
        s.DeliverEvent(event);
        rest := rest - {s};
      }
    }
  }
}
