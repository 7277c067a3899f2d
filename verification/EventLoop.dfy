/** The kernel event queue of kernel/src/event/event_manager.cpp, as atomic steps: any thread, and
    any handler, may raise an event between two steps of the event loop. */
module EventLoop {

  const EVENT_QUEUE_EMPTY: nat := 0x2801da0cf10a2d25
  const EVENT_PROCESSED_EVENT: nat := 0x9bbe5456af663f0f

  /** An event with its f_local_id, the flags META_EVENT and CONSUMED, and its arguments. */
  datatype Event = Event(identifier: nat, id: nat, meta: bool, consumed: bool, arguments: seq<nat>)

  /** Where the loop is: waiting for the queue to fill, about to announce that it is empty, or
      about to call handler number `next` for an event. */
  datatype Phase = Waiting | Announcing | Busy(event: Event, next: nat)

  function Begun(finished: seq<Event>, phase: Phase): seq<Event> {
    if phase.Busy? then finished + [phase.event] else finished
  }

  /** Ids are handed out in queue order without a hole, from 1. */
  predicate Numbered(events: seq<Event>) {
    forall i | 0 <= i < |events| :: events[i].id == i + 1
  }

  function Ordinary(events: seq<Event>): nat {
    if events == [] then 0 else (if events[0].meta then 0 else 1) + Ordinary(events[1..])
  }

  predicate SomeOrdinary(events: seq<Event>, from: nat) {
    exists i | from <= i < |events| :: !events[i].meta
  }

  /** A handler that was called: for the event with this id, number `handler` of its list; and
      whether the event was consumed after it. */
  datatype Call = Call(id: nat, handler: nat, consumed: bool)

  /** The calls made for one event. */
  function CallsWith(calls: seq<Call>, id: nat): seq<Call> {
    if calls == [] then []
    else
      var last := calls[|calls| - 1];
      CallsWith(calls[..|calls| - 1], id) + if last.id == id then [last] else []
  }

  lemma CallsWithAppend(calls: seq<Call>, c: Call, id: nat)
    ensures CallsWith(calls + [c], id) == CallsWith(calls, id) + if c.id == id then [c] else []
  {
    assert (calls + [c])[..|calls|] == calls;
  }

  lemma {:induction false} CallsWithNone(calls: seq<Call>, id: nat)
    requires forall i | 0 <= i < |calls| :: calls[i].id != id
    ensures CallsWith(calls, id) == []
  {
    if calls != [] { CallsWithNone(calls[..|calls| - 1], id); }
  }

  /** How many handlers are registered for an identifier. */
  function CountIn(handlers: map<nat, nat>, identifier: nat): nat {
    if identifier in handlers then handlers[identifier] else 0
  }

  /** Of the n handlers for event `e` the first ones were called in order, each once: all of them,
      or those up to the one after which the event was consumed. */
  predicate Handled(e: Event, n: nat, own: seq<Call>) {
    && |own| <= n && (|own| < n ==> e.consumed && |own| > 0)
    && forall h | 0 <= h < |own| :: own[h] == Call(e.id, h, e.consumed && h == |own| - 1)
  }

  ghost predicate AllHandled(handlers: map<nat, nat>, finished: seq<Event>, calls: seq<Call>) {
    forall i | 0 <= i < |finished| ::
      Handled(finished[i], CountIn(handlers, finished[i].identifier), CallsWith(calls, finished[i].id))
  }

  /** The same for an event whose handler number `next` is the next to be called. */
  predicate HandledUpTo(e: Event, n: nat, next: nat, own: seq<Call>) {
    if next < n then
      |own| == next && (next > 0 ==> !e.consumed) && forall h | 0 <= h < next :: own[h] == Call(e.id, h, false)
    else Handled(e, n, own)
  }

  predicate Handling(handlers: map<nat, nat>, phase: Phase, calls: seq<Call>) {
    phase.Busy? ==> HandledUpTo(phase.event, CountIn(handlers, phase.event.identifier), phase.next, CallsWith(calls, phase.event.id))
  }

  lemma HandledNext(e: Event, n: nat, next: nat, own: seq<Call>, consume: bool)
    requires HandledUpTo(e, n, next, own) && next < n
    ensures var e' := e.(consumed := e.consumed || consume);
            HandledUpTo(e', n, if e'.consumed then n else next + 1, own + [Call(e.id, next, e'.consumed)])
  {
  }

  /** A call for the present event leaves those for the finished ones as they are. */
  lemma CallKeepsHandled(handlers: map<nat, nat>, finished: seq<Event>, calls: seq<Call>, c: Call)
    requires AllHandled(handlers, finished, calls) && Numbered(finished) && c.id == |finished| + 1
    ensures AllHandled(handlers, finished, calls + [c])
  {
    forall i | 0 <= i < |finished|
      ensures Handled(finished[i], CountIn(handlers, finished[i].identifier), CallsWith(calls + [c], finished[i].id))
    {
      CallsWithAppend(calls, c, finished[i].id);
    }
  }

  /** What the events that the loop did not raise itself are, in order: identifier, flag and
      arguments. */
  function Foreign(all: seq<Event>, ours: set<nat>): seq<(nat, bool, seq<nat>)> {
    if all == [] then []
    else
      var last := all[|all| - 1];
      Foreign(all[..|all| - 1], ours) + if |all| in ours then [] else [(last.identifier, last.meta, last.arguments)]
  }

  lemma {:induction false} ForeignSame(all: seq<Event>, ours: set<nat>, all': seq<Event>, ours': set<nat>)
    requires |all| == |all'|
    requires forall j: nat | 1 <= j <= |all| :: j in ours <==> j in ours'
    requires forall i | 0 <= i < |all| :: SameOrigin(all[i], all'[i])
    ensures Foreign(all, ours) == Foreign(all', ours')
    decreases |all|
  {
    if all != [] {
      var n := |all| - 1;
      assert SameOrigin(all[n], all'[n]);
      ForeignSame(all[..n], ours, all'[..n], ours');
    }
  }

  /** The events are as they were, but for the flag CONSUMED, and the new ones are the loop's own. */
  ghost predicate OnlyOwn(all: seq<Event>, ours: set<nat>, all': seq<Event>, ours': set<nat>) {
    && |all| <= |all'|
    && (forall i | 0 <= i < |all| :: SameOrigin(all[i], all'[i]))
    && (forall j: nat | 1 <= j <= |all| :: j in ours <==> j in ours')
    && (forall j: nat | |all| < j <= |all'| :: j in ours')
  }

  predicate SameOrigin(a: Event, b: Event) {
    a.identifier == b.identifier && a.meta == b.meta && a.arguments == b.arguments
  }

  lemma OwnAppended(all: seq<Event>, ours: set<nat>, e: Event)
    ensures OnlyOwn(all, ours, all + [e], ours + {|all| + 1}) && OnlyOwn(all, ours, all, ours)
  {
  }

  /** One event may have been consumed. */
  predicate OneConsumed(all: seq<Event>, all': seq<Event>, k: nat, e: Event) {
    && k < |all| == |all'| && SameOrigin(all[k], e) && all'[k] == e
    && forall i | 0 <= i < |all| && i != k :: all'[i] == all[i]
  }

  lemma OwnConsumed(all: seq<Event>, ours: set<nat>, all': seq<Event>, k: nat, e: Event)
    requires OneConsumed(all, all', k, e)
    ensures OnlyOwn(all, ours, all', ours)
  {
  }

  lemma {:induction false} OnlyOwnForeign(all: seq<Event>, ours: set<nat>, all': seq<Event>, ours': set<nat>)
    requires OnlyOwn(all, ours, all', ours')
    ensures Foreign(all', ours') == Foreign(all, ours)
    decreases |all'|
  {
    if |all'| > |all| {
      OnlyOwnForeign(all, ours, all'[..|all'| - 1], ours');
    } else {
      ForeignSame(all, ours, all', ours');
    }
  }

  lemma ForeignAppend(all: seq<Event>, ours: set<nat>, ours': set<nat>, e: Event)
    requires forall j: nat | 1 <= j <= |all| :: j in ours <==> j in ours'
    ensures Foreign(all + [e], ours')
         == Foreign(all, ours) + if |all| + 1 in ours' then [] else [(e.identifier, e.meta, e.arguments)]
  {
    assert (all + [e])[..|all|] == all;
    ForeignSame(all, ours, all, ours');
  }

  /** Handlers are called in the order of the events and, for one event, of registration. */
  predicate InOrder(calls: seq<Call>) {
    forall i, j | 0 <= i < j < |calls| ::
      calls[i].id < calls[j].id || (calls[i].id == calls[j].id && calls[i].handler < calls[j].handler)
  }

  /** Every call was for an event already finished, or for the present one. */
  predicate CallsUpTo(calls: seq<Call>, id: nat, next: nat) {
    forall i | 0 <= i < |calls| :: calls[i].id < id || (calls[i].id == id && calls[i].handler < next)
  }

  // ----- Notices -----

  /** The meta-event the loop raises when it is done with an event. */
  function NoticeOf(e: Event, id: nat): Event {
    Event(EVENT_PROCESSED_EVENT, id, true, false, [e.identifier, e.id])
  }

  /** Event number `j` of all that were raised tells that `e` has been processed. */
  predicate Tells(all: seq<Event>, j: nat, e: Event) {
    && 1 <= j <= |all| && all[j - 1].identifier == EVENT_PROCESSED_EVENT && all[j - 1].arguments == [e.identifier, e.id]
  }

  /** Of the events in `all` the loop itself raised those with ids in `ours`. The notices among
      them are those in `noticeOf`: one for each finished ordinary event, named by its id. */
  ghost predicate Accounted(all: seq<Event>, ours: set<nat>, finished: seq<Event>, noticeOf: map<nat, nat>) {
    && Numbered(finished)
    && (forall j | j in ours :: 1 <= j <= |all|)
    && (forall i: nat :: i in noticeOf <==> 1 <= i <= |finished| && !finished[i - 1].meta)
    && (forall i | i in noticeOf :: noticeOf[i] in ours && Tells(all, noticeOf[i], finished[i - 1]))
    && (forall j | j in ours && all[j - 1].identifier == EVENT_PROCESSED_EVENT :: j in noticeOf.Values)
  }

  /** An ordinary event with this identifier and id has been finished. */
  predicate Processed(finished: seq<Event>, e: Event) {
    exists i | 0 <= i < |finished| :: !finished[i].meta && finished[i].id == e.id && finished[i].identifier == e.identifier
  }

  /** The events raised by the loop that tell of `e`. */
  ghost function Telling(all: seq<Event>, ours: set<nat>, e: Event): set<nat> {
    set j | j in ours && Tells(all, j, e)
  }

  /** Each finished ordinary event is told of by exactly one event that the loop raised, and of
      nothing else does the loop tell. */
  lemma OneNoticeEach(all: seq<Event>, ours: set<nat>, finished: seq<Event>, noticeOf: map<nat, nat>, e: Event)
    requires Accounted(all, ours, finished, noticeOf)
    ensures |Telling(all, ours, e)| == if Processed(finished, e) then 1 else 0
  {
    var told := Telling(all, ours, e);
    forall j | j in told ensures e.id in noticeOf && j == noticeOf[e.id] && Processed(finished, e) {
      var i :| i in noticeOf && noticeOf[i] == j;
      assert Tells(all, noticeOf[i], finished[i - 1]);
    }
    if Processed(finished, e) {
      var i :| 0 <= i < |finished| && !finished[i].meta && finished[i].id == e.id && finished[i].identifier == e.identifier;
      assert i + 1 in noticeOf && Tells(all, noticeOf[i + 1], finished[i]);
      assert told == {noticeOf[e.id]};
    } else {
      assert told == {};
    }
  }

  lemma AccountedForeign(all: seq<Event>, ours: set<nat>, finished: seq<Event>, noticeOf: map<nat, nat>, e: Event)
    requires Accounted(all, ours, finished, noticeOf)
    ensures Accounted(all + [e], ours, finished, noticeOf)
  {
    forall i | i in noticeOf ensures Tells(all + [e], noticeOf[i], finished[i - 1]) {
      assert Tells(all, noticeOf[i], finished[i - 1]);
    }
  }

  lemma AccountedOwn(all: seq<Event>, ours: set<nat>, finished: seq<Event>, noticeOf: map<nat, nat>, e: Event)
    requires Accounted(all, ours, finished, noticeOf) && e.identifier != EVENT_PROCESSED_EVENT
    ensures Accounted(all + [e], ours + {|all| + 1}, finished, noticeOf)
  {
  }

  lemma AccountedConsumed(all: seq<Event>, ours: set<nat>, finished: seq<Event>, noticeOf: map<nat, nat>, k: nat, e: Event)
    requires Accounted(all, ours, finished, noticeOf) && k < |all|
    requires e.identifier == all[k].identifier && e.arguments == all[k].arguments
    ensures Accounted(all[k := e], ours, finished, noticeOf)
  {
    forall i | i in noticeOf ensures Tells(all[k := e], noticeOf[i], finished[i - 1]) {
      assert Tells(all, noticeOf[i], finished[i - 1]);
    }
  }

  lemma AccountedNotice(all: seq<Event>, ours: set<nat>, finished: seq<Event>, noticeOf: map<nat, nat>, e: Event)
    requires Accounted(all, ours, finished, noticeOf) && !e.meta && e.id == |finished| + 1
    ensures Accounted(all + [NoticeOf(e, |all| + 1)], ours + {|all| + 1}, finished + [e], noticeOf[e.id := |all| + 1])
    ensures e.id !in noticeOf
  {
    var all', ours', finished', noticeOf' :=
      all + [NoticeOf(e, |all| + 1)], ours + {|all| + 1}, finished + [e], noticeOf[e.id := |all| + 1];
    forall i | i in noticeOf' ensures noticeOf'[i] in ours' && Tells(all', noticeOf'[i], finished'[i - 1]) {
      if i != e.id { assert Tells(all, noticeOf[i], finished[i - 1]); }
    }
    forall j | j in ours' && all'[j - 1].identifier == EVENT_PROCESSED_EVENT ensures j in noticeOf'.Values {
      if j in ours {
        var i :| i in noticeOf && noticeOf[i] == j;
        assert i in noticeOf' && noticeOf'[i] == j;
      } else {
        assert e.id in noticeOf' && noticeOf'[e.id] == j;
      }
    }
  }

  // ----- The queue -----

  /** Everything ever raised is finished, being processed or queued, in the order of its ids; the
      flag says whether an ordinary event was begun since the queue was last found empty. */
  predicate QueueOk(finished: seq<Event>, phase: Phase, queue: seq<Event>, nextId: nat, mark: nat, processing: bool) {
    && Numbered(Begun(finished, phase) + queue) && nextId == |Begun(finished, phase) + queue| + 1
    && mark <= |finished| && (processing <==> SomeOrdinary(Begun(finished, phase), mark))
  }

  /** Handlers are called in order, and each event has those it is owed. */
  ghost predicate CallsOk(handlers: map<nat, nat>, finished: seq<Event>, phase: Phase, calls: seq<Call>) {
    && InOrder(calls) && CallsUpTo(calls, |finished| + 1, if phase.Busy? then phase.next else 0)
    && (phase.Busy? ==> phase.next <= CountIn(handlers, phase.event.identifier))
    && AllHandled(handlers, finished, calls) && Handling(handlers, phase, calls)
  }

  lemma PopCalls(handlers: map<nat, nat>, finished: seq<Event>, phase: Phase, calls: seq<Call>, e: Event)
    requires CallsOk(handlers, finished, phase, calls) && !phase.Busy? && e.id == |finished| + 1
    ensures CallsOk(handlers, finished, Busy(e, 0), calls)
  {
    CallsWithNone(calls, |finished| + 1);
  }

  lemma NextCall(handlers: map<nat, nat>, finished: seq<Event>, phase: Phase, calls: seq<Call>, consume: bool)
    requires CallsOk(handlers, finished, phase, calls) && Numbered(finished)
    requires phase.Busy? && phase.event.id == |finished| + 1 && phase.next < CountIn(handlers, phase.event.identifier)
    ensures var e := phase.event.(consumed := phase.event.consumed || consume);
            CallsOk(handlers, finished, Busy(e, if e.consumed then CountIn(handlers, e.identifier) else phase.next + 1),
                    calls + [Call(e.id, phase.next, e.consumed)])
  {
    var e := phase.event.(consumed := phase.event.consumed || consume);
    var call := Call(e.id, phase.next, e.consumed);
    CallsWithAppend(calls, call, e.id);
    CallKeepsHandled(handlers, finished, calls, call);
    HandledNext(phase.event, CountIn(handlers, e.identifier), phase.next, CallsWith(calls, e.id), consume);
  }

  lemma FinishCalls(handlers: map<nat, nat>, finished: seq<Event>, phase: Phase, calls: seq<Call>)
    requires CallsOk(handlers, finished, phase, calls)
    requires phase.Busy? && phase.event.id == |finished| + 1 && phase.next == CountIn(handlers, phase.event.identifier)
    ensures CallsOk(handlers, finished + [phase.event], Waiting, calls)
  {
  }

  lemma NextCallQueue(finished: seq<Event>, phase: Phase, queue: seq<Event>, nextId: nat, mark: nat, processing: bool, e: Event, next: nat)
    requires QueueOk(finished, phase, queue, nextId, mark, processing) && phase.Busy?
    requires e.id == phase.event.id && e.meta == phase.event.meta
    ensures QueueOk(finished, Busy(e, next), queue, nextId, mark, processing)
    ensures Begun(finished, Busy(e, next)) + queue == (Begun(finished, phase) + queue)[|finished| := e]
  {
    var all := Begun(finished, phase) + queue;
    assert all[|finished|] == phase.event;
    assert Begun(finished, Busy(e, next)) + queue == all[|finished| := e];
    SameOrdinary(Begun(finished, phase), Begun(finished, Busy(e, next)), mark);
  }

  /** Everything Valid() says, of the state after a call of the next handler. */
  lemma CallIsValid(handlers: map<nat, nat>, finished: seq<Event>, phase: Phase, queue: seq<Event>, nextId: nat, mark: nat, processing: bool,
                    ours: set<nat>, noticeOf: map<nat, nat>, calls: seq<Call>, consume: bool)
    requires QueueOk(finished, phase, queue, nextId, mark, processing) && CallsOk(handlers, finished, phase, calls)
    requires Accounted(Begun(finished, phase) + queue, ours, finished, noticeOf)
    requires phase.Busy? && phase.next < CountIn(handlers, phase.event.identifier)
    ensures phase.event.id == |finished| + 1
    ensures var e := phase.event.(consumed := phase.event.consumed || consume);
            var phase' := Busy(e, if e.consumed then CountIn(handlers, e.identifier) else phase.next + 1);
            && QueueOk(finished, phase', queue, nextId, mark, processing)
            && CallsOk(handlers, finished, phase', calls + [Call(e.id, phase.next, e.consumed)])
            && Accounted(Begun(finished, phase') + queue, ours, finished, noticeOf)
            && OneConsumed(Begun(finished, phase) + queue, Begun(finished, phase') + queue, |finished|, e)
  {
    var all := Begun(finished, phase) + queue;
    var e := phase.event.(consumed := phase.event.consumed || consume);
    assert all[|finished|] == phase.event;
    NextCall(handlers, finished, phase, calls, consume);
    NextCallQueue(finished, phase, queue, nextId, mark, processing, e, if e.consumed then CountIn(handlers, e.identifier) else phase.next + 1);
    AccountedConsumed(all, ours, finished, noticeOf, |finished|, e);
  }

  lemma PopQueue(finished: seq<Event>, phase: Phase, queue: seq<Event>, nextId: nat, mark: nat, processing: bool)
    requires QueueOk(finished, phase, queue, nextId, mark, processing) && !phase.Busy? && queue != []
    ensures queue[0].id == |finished| + 1
    ensures QueueOk(finished, Busy(queue[0], 0), queue[1..], nextId, mark, processing || !queue[0].meta)
    ensures Begun(finished, Busy(queue[0], 0)) + queue[1..] == Begun(finished, phase) + queue
  {
    assert (Begun(finished, phase) + queue)[|finished|] == queue[0];
    BegunOneMore(finished, queue[0], mark);
    assert Begun(finished, Busy(queue[0], 0)) + queue[1..] == Begun(finished, phase) + queue;
  }

  // ----- Counting -----

  lemma {:induction false} OrdinaryAppend(events: seq<Event>, e: Event)
    ensures Ordinary(events + [e]) == Ordinary(events) + if e.meta then 0 else 1
  {
    if events != [] {
      assert (events + [e])[1..] == events[1..] + [e];
      OrdinaryAppend(events[1..], e);
    } else {
      assert events + [e] == [e];
    }
  }

  /** What other threads, or handlers, do between two steps of the loop; and a step of the loop,
      with whether a handler called in it consumes the event. */
  datatype Action = RaiseEvent(event: Event) | LoopStep(consume: bool)

  function RaisedIn(action: Action): seq<(nat, bool, seq<nat>)> {
    if action.RaiseEvent? then [(action.event.identifier, action.event.meta, action.event.arguments)] else []
  }

  function RaisedBy(actions: seq<Action>): seq<(nat, bool, seq<nat>)> {
    if actions == [] then [] else RaisedBy(actions[..|actions| - 1]) + RaisedIn(actions[|actions| - 1])
  }

  /** The meta-events the loop has yet to raise if nobody else raises anything. */
  function OwedBy(queue: seq<Event>, phase: Phase, processing: bool): nat {
    Ordinary(queue) + (if phase.Busy? && !phase.event.meta then 1 else 0)
    + (if phase.Announcing? then 1 else 0) + (if processing || Ordinary(queue) > 0 then 1 else 0)
  }

  /** What goes down with every step of the loop, most significant first. */
  function RankOf(handlers: map<nat, nat>, queue: seq<Event>, phase: Phase, processing: bool): (nat, nat, nat) {
    (2 * Ordinary(queue) + (if phase.Busy? && !phase.event.meta then 1 else 0)
     + (if phase.Announcing? then 1 else 0) + (if processing then 1 else 0),
     |queue|,
     if phase.Busy? then 2 + ToCall(handlers, phase) else if phase.Waiting? then 1 else 0)
  }

  function ToCall(handlers: map<nat, nat>, phase: Phase): nat
    requires phase.Busy?
  {
    var n := CountIn(handlers, phase.event.identifier);
    if phase.next < n then n - phase.next else 0
  }

  lemma CallRank(handlers: map<nat, nat>, queue: seq<Event>, phase: Phase, phase': Phase, processing: bool)
    requires phase.Busy? && phase'.Busy? && SameOrigin(phase.event, phase'.event)
    requires phase.next < phase'.next && phase.next < CountIn(handlers, phase.event.identifier)
    ensures OwedBy(queue, phase', processing) == OwedBy(queue, phase, processing)
    ensures var a, b := RankOf(handlers, queue, phase', processing), RankOf(handlers, queue, phase, processing);
            a.0 == b.0 && a.1 == b.1 && a.2 < b.2
  {
  }

  class EventManager {
    /** How many handlers are registered for each identifier. */
    const handlers: map<nat, nat>
    var nextId: nat
    var queue: seq<Event>
    var processing: bool
    var phase: Phase
    ghost var finished: seq<Event>
    /** The ids of the events raised by the loop, and the notice of each finished ordinary event. */
    ghost var ours: set<nat>
    ghost var noticeOf: map<nat, nat>
    ghost var calls: seq<Call>
    /** How many events had been begun when the queue was last found empty. */
    ghost var mark: nat

    constructor (handlers: map<nat, nat>)
      ensures Valid() && queue == [] && phase == Waiting && !processing && nextId == 1
    {
      this.handlers := handlers;
      nextId, queue, processing, phase := 1, [], false, Waiting;
      finished, ours, noticeOf, calls, mark := [], {}, map[], [], 0;
    }

    function HandlerCount(identifier: nat): nat {
      CountIn(handlers, identifier)
    }

    ghost function All(): seq<Event>
      reads this
    {
      Begun(finished, phase) + queue
    }

    /** The queue invariant; each finished ordinary event, and nothing else, has had its notice
        among all the events raised; and each event had its handlers called. */
    ghost predicate Valid()
      reads this
    {
      Ordered() && Accounted(All(), ours, finished, noticeOf) && Called()
    }

    ghost predicate Called()
      reads this
    {
      CallsOk(handlers, finished, phase, calls)
    }

    ghost predicate Ordered()
      reads this
    {
      QueueOk(finished, phase, queue, nextId, mark, processing)
    }

    /** raise, and the raising half of raise_wait. */
    method Raise(event: Event)
      requires Valid()
      modifies this`nextId, this`queue
      ensures Valid()
      ensures nextId == old(nextId) + 1 && queue == old(queue) + [event.(id := old(nextId))]
      ensures All() == old(All()) + [event.(id := old(nextId))]
    {
      AccountedForeign(All(), ours, finished, noticeOf, event.(id := nextId));
      Append(event);
    }

    method Append(event: Event)
      requires Ordered()
      modifies this`nextId, this`queue
      ensures Ordered() && All() == old(All()) + [event.(id := old(nextId))]
      ensures nextId == old(nextId) + 1 && queue == old(queue) + [event.(id := old(nextId))]
    {
      assert Begun(finished, phase) + (queue + [event.(id := nextId)]) == All() + [event.(id := nextId)];
      queue := queue + [event.(id := nextId)];
      nextId := nextId + 1;
    }

    /** The loop takes the next event. Its id is the next after those of all finished events. */
    method Pop()
      requires Valid() && phase.Waiting? && queue != []
      modifies this`queue, this`phase, this`processing
      ensures Valid() && queue == old(queue)[1..] && phase == Busy(old(queue)[0], 0)
      ensures phase.event.id == |finished| + 1
      ensures processing == (old(processing) || !phase.event.meta) && All() == old(All())
    {
      PopQueue(finished, phase, queue, nextId, mark, processing);
      var event := queue[0];
      PopCalls(handlers, finished, phase, calls, event);
      queue := queue[1..];
      phase := Busy(event, 0);
      if !event.meta { processing := true; }
    }

    /** The loop calls the next handler. All events with smaller ids are finished. */
    method CallHandler(consume: bool)
      requires Valid() && phase.Busy? && phase.next < HandlerCount(phase.event.identifier)
      modifies this`phase, this`calls
      ensures Valid() && phase.Busy? && OneConsumed(old(All()), All(), |finished|, phase.event)
      ensures calls == old(calls) + [Call(old(phase).event.id, old(phase).next, old(phase).event.consumed || consume)]
      ensures old(phase).event.id == |finished| + 1
      ensures var e := old(phase).event;
              phase == if e.consumed || consume then Busy(e.(consumed := true), HandlerCount(e.identifier)) else Busy(e, old(phase).next + 1)
    {
      CallIsValid(handlers, finished, phase, queue, nextId, mark, processing, ours, noticeOf, calls, consume);
      var event, next := phase.event, phase.next;
      if consume { event := event.(consumed := true); }
      calls := calls + [Call(event.id, next, event.consumed)];
      phase := Busy(event, if event.consumed then HandlerCount(event.identifier) else next + 1);
    }

    /** The loop is done with its event, and raises the notice if it was an ordinary one. */
    method Finish()
      requires Valid() && phase.Busy? && phase.next == HandlerCount(phase.event.identifier)
      modifies this`nextId, this`queue, this`phase, this`finished, this`ours, this`noticeOf
      ensures Valid() && phase == Waiting && finished == old(finished) + [old(phase).event]
      ensures var e := old(phase).event;
              && nextId == old(nextId) + (if e.meta then 0 else 1)
              && queue == old(queue) + (if e.meta then [] else [NoticeOf(e, old(nextId))])
              && All() == old(All()) + (if e.meta then [] else [NoticeOf(e, old(nextId))])
              && ours == old(ours) + (if e.meta then {} else {old(nextId)})
      ensures forall i | i in old(noticeOf) :: i in noticeOf && noticeOf[i] == old(noticeOf)[i]
    {
      var event := phase.event;
      assert All()[|finished|] == event;
      Conclude();
      if !event.meta { Notify(event, old(finished)); }
    }

    method Notify(event: Event, ghost before: seq<Event>)
      requires Ordered() && Called() && finished == before + [event] && Accounted(All(), ours, before, noticeOf)
      requires !event.meta && event.id == |before| + 1
      modifies this`nextId, this`queue, this`ours, this`noticeOf
      ensures Valid() && nextId == old(nextId) + 1 && queue == old(queue) + [NoticeOf(event, old(nextId))]
      ensures All() == old(All()) + [NoticeOf(event, old(nextId))] && ours == old(ours) + {old(nextId)}
      ensures forall i | i in old(noticeOf) :: i in noticeOf && noticeOf[i] == old(noticeOf)[i]
    {
      AccountedNotice(All(), ours, before, noticeOf, event);
      ghost var id := nextId;
      assert NoticeOf(event, 0).(id := id) == NoticeOf(event, id);
      Append(NoticeOf(event, 0));
      Record(ours + {id}, noticeOf[event.id := id]);
    }

    ghost method Record(ours': set<nat>, noticeOf': map<nat, nat>)
      requires Ordered() && Called() && Accounted(All(), ours', finished, noticeOf')
      modifies this`ours, this`noticeOf
      ensures Valid() && ours == ours' && noticeOf == noticeOf'
    {
      ours, noticeOf := ours', noticeOf';
    }

    method Conclude()
      requires Ordered() && Called() && phase.Busy? && phase.next == HandlerCount(phase.event.identifier)
      modifies this`phase, this`finished
      ensures Ordered() && Called() && phase == Waiting && finished == old(finished) + [old(phase).event] && All() == old(All())
    {
      assert All()[|finished|] == phase.event;
      FinishCalls(handlers, finished, phase, calls);
      finished := finished + [phase.event];
      phase := Waiting;
    }

    /** The queue was found empty after an ordinary event: the announcement comes next. */
    method SeeEmpty()
      requires Valid() && phase.Waiting? && queue == [] && processing
      modifies this`processing, this`phase, this`mark
      ensures Valid() && !processing && phase == Announcing && All() == old(All())
    {
      processing := false;
      phase := Announcing;
      mark := |finished|;
    }

    method Announce()
      requires Valid() && phase.Announcing?
      modifies this`nextId, this`queue, this`phase, this`ours
      ensures Valid() && phase == Waiting && nextId == old(nextId) + 1
      ensures All() == old(All()) + [Event(EVENT_QUEUE_EMPTY, old(nextId), true, false, [])] && ours == old(ours) + {old(nextId)}
      ensures queue == old(queue) + [Event(EVENT_QUEUE_EMPTY, old(nextId), true, false, [])]
    {
      phase := Waiting;
      AccountedOwn(All(), ours, finished, noticeOf, Event(EVENT_QUEUE_EMPTY, nextId, true, false, []));
      ours := ours + {nextId};
      Append(Event(EVENT_QUEUE_EMPTY, 0, true, false, []));
    }

    ghost function Owed(): nat
      reads this
    {
      OwedBy(queue, phase, processing)
    }

    ghost function Rank(): (nat, nat, nat)
      reads this
    {
      RankOf(handlers, queue, phase, processing)
    }

    predicate Idle()
      reads this
    {
      phase.Waiting? && queue == [] && !processing
    }

    /** One atomic step of event_loop. At rest it halts; otherwise it raises only what is owed, and
        comes closer to rest. What has happened stays as it was. */
    method Step(consume: bool)
      requires Valid()
      modifies this
      ensures Valid() && HistoryGrows(old(finished), old(noticeOf), old(calls)) && OnlyOwn(old(All()), old(ours), All(), ours)
      ensures nextId + Owed() == old(nextId + Owed())
      ensures old(Idle()) ==> Idle() && queue == old(queue) && finished == old(finished)
      ensures !old(Idle()) ==>
                var a, b := Rank(), old(Rank());
                a.0 < b.0 || (a.0 == b.0 && (a.1 < b.1 || (a.1 == b.1 && a.2 < b.2)))
    {
      match phase
      case Announcing => AnnounceStep();
      case Busy(_, _) => Process(consume);
      case Waiting => WaitStep();
    }

    method AnnounceStep()
      requires Valid() && phase.Announcing?
      modifies this`nextId, this`queue, this`phase, this`ours
      ensures Valid() && OnlyOwn(old(All()), old(ours), All(), ours)
      ensures nextId + Owed() == old(nextId + Owed()) && Rank().0 < old(Rank()).0
    {
      ghost var q := queue;
      OwnAppended(All(), ours, Event(EVENT_QUEUE_EMPTY, nextId, true, false, []));
      Announce();
      OrdinaryAppend(q, queue[|q|]);
    }

    /** The event loop looks at the queue. */
    method WaitStep()
      requires Valid() && phase.Waiting?
      modifies this`queue, this`phase, this`processing, this`mark
      ensures Valid() && All() == old(All())
      ensures nextId + Owed() == old(nextId + Owed())
      ensures old(Idle()) ==> Idle() && queue == old(queue)
      ensures !old(Idle()) ==>
                var a, b := Rank(), old(Rank());
                a.0 < b.0 || (a.0 == b.0 && (a.1 < b.1 || (a.1 == b.1 && a.2 < b.2)))
    {
      if queue != [] { Pop(); } else if processing { SeeEmpty(); }
    }

    method Process(consume: bool)
      requires Valid() && phase.Busy?
      modifies this`phase, this`calls, this`nextId, this`queue, this`finished, this`ours, this`noticeOf
      ensures Valid() && HistoryGrows(old(finished), old(noticeOf), old(calls)) && OnlyOwn(old(All()), old(ours), All(), ours)
      ensures nextId + Owed() == old(nextId + Owed())
      ensures var a, b := Rank(), old(Rank()); a.0 < b.0 || (a.0 == b.0 && a.1 == b.1 && a.2 < b.2)
    {
      if phase.next < HandlerCount(phase.event.identifier) {
        ghost var all := All();
        CallStep(consume);
        OwnConsumed(all, ours, All(), |finished|, phase.event);
      } else {
        FinishStep();
      }
    }

    method CallStep(consume: bool)
      requires Valid() && phase.Busy? && phase.next < HandlerCount(phase.event.identifier)
      modifies this`phase, this`calls
      ensures Valid() && old(calls) <= calls && phase.Busy? && OneConsumed(old(All()), All(), |finished|, phase.event)
      ensures Owed() == old(Owed())
      ensures var a, b := Rank(), old(Rank()); a.0 == b.0 && a.1 == b.1 && a.2 < b.2
    {
      ghost var before := phase;
      CallHandler(consume);
      CallRank(handlers, queue, before, phase, processing);
    }

    method FinishStep()
      requires Valid() && phase.Busy? && phase.next == HandlerCount(phase.event.identifier)
      modifies this`phase, this`nextId, this`queue, this`finished, this`ours, this`noticeOf
      ensures Valid() && HistoryGrows(old(finished), old(noticeOf), calls) && OnlyOwn(old(All()), old(ours), All(), ours)
      ensures nextId + Owed() == old(nextId + Owed())
      ensures var a, b := Rank(), old(Rank()); a.0 < b.0 || (a.0 == b.0 && a.1 == b.1 && a.2 < b.2)
    {
      ghost var q, event, all := queue, phase.event, All();
      BegunOneMore(finished, event, mark);
      OwnAppended(all, ours, NoticeOf(event, nextId));
      Finish();
      if event.meta { assert queue == q; } else { OrdinaryAppend(q, queue[|q|]); }
    }

    ghost predicate HistoryGrows(finished0: seq<Event>, noticeOf0: map<nat, nat>, calls0: seq<Call>)
      reads this
    {
      finished0 <= finished && calls0 <= calls && forall i | i in noticeOf0 :: i in noticeOf && noticeOf[i] == noticeOf0[i]
    }

    /** If nothing else is raised the loop comes to rest, with every event finished, after raising
        one notice for each ordinary event and the announcements. */
    method Drain(consume: nat -> bool)
      requires Valid()
      modifies this
      ensures Valid() && Idle() && |finished| == nextId - 1 && OnlyOwn(old(All()), old(ours), All(), ours)
      ensures nextId == old(nextId + Owed())
      ensures AllHandled(handlers, finished, calls)
    {
      var steps: nat := 0;
      while !Idle()
        invariant Valid() && nextId + Owed() == old(nextId + Owed()) && OnlyOwn(old(All()), old(ours), All(), ours)
        decreases Rank().0, Rank().1, Rank().2
      {
        Step(consume(steps));
        steps := steps + 1;
      }
    }

    method Act(action: Action)
      requires Valid()
      modifies this
      ensures Valid() && HistoryGrows(old(finished), old(noticeOf), old(calls))
      ensures Foreign(All(), ours) == Foreign(old(All()), old(ours)) + RaisedIn(action)
    {
      ghost var all, own := All(), ours;
      match action
      case RaiseEvent(event) =>
        ForeignAppend(all, own, own, event.(id := nextId));
        Raise(event);
      case LoopStep(consume) =>
        Step(consume);
        OnlyOwnForeign(all, own, All(), ours);
    }

    /** Every interleaving: of all the events ever raised, exactly one that the loop raised tells of
        each finished ordinary event, and none of anything else. */
    method Run(actions: seq<Action>)
      requires Valid()
      modifies this
      ensures Valid() && HistoryGrows(old(finished), old(noticeOf), old(calls))
      ensures forall e :: |Telling(All(), ours, e)| == if Processed(finished, e) then 1 else 0
      ensures AllHandled(handlers, finished, calls)
      ensures Raised(Foreign(old(All()), old(ours)), Foreign(All(), ours), actions)
    {
      ghost var before := Foreign(All(), ours);
      for i := 0 to |actions|
        invariant Valid() && HistoryGrows(old(finished), old(noticeOf), old(calls))
        invariant Raised(before, Foreign(All(), ours), actions[..i])
      {
        RaisedOneMore(before, Foreign(All(), ours), actions, i);
        Act(actions[i]);
      }
      assert actions[..|actions|] == actions;
      NoticesExact(All(), ours, finished, noticeOf);
    }
  }

  /** Of the events not raised by the loop the new ones are those of the actions, in order. */
  predicate Raised(before: seq<(nat, bool, seq<nat>)>, after: seq<(nat, bool, seq<nat>)>, actions: seq<Action>) {
    after == before + RaisedBy(actions)
  }

  lemma RaisedOneMore(before: seq<(nat, bool, seq<nat>)>, after: seq<(nat, bool, seq<nat>)>, actions: seq<Action>, i: nat)
    requires i < |actions| && Raised(before, after, actions[..i])
    ensures Raised(before, after + RaisedIn(actions[i]), actions[..i + 1])
  {
    assert actions[..i + 1][..i] == actions[..i];
  }

  lemma NoticesExact(all: seq<Event>, ours: set<nat>, finished: seq<Event>, noticeOf: map<nat, nat>)
    requires Accounted(all, ours, finished, noticeOf)
    ensures forall e :: |Telling(all, ours, e)| == if Processed(finished, e) then 1 else 0
  {
    forall e ensures |Telling(all, ours, e)| == if Processed(finished, e) then 1 else 0 {
      OneNoticeEach(all, ours, finished, noticeOf, e);
    }
  }

  lemma BegunOneMore(finished: seq<Event>, event: Event, mark: nat)
    requires mark <= |finished|
    ensures SomeOrdinary(finished + [event], mark) <==> SomeOrdinary(finished, mark) || !event.meta
  {
    var all := finished + [event];
    if SomeOrdinary(finished, mark) {
      var i :| mark <= i < |finished| && !finished[i].meta;
      assert !all[i].meta;
    }
    if !event.meta { assert !all[|finished|].meta; }
  }

  lemma SameOrdinary(before: seq<Event>, after: seq<Event>, mark: nat)
    requires |before| == |after| && forall i | 0 <= i < |before| :: before[i].meta == after[i].meta
    ensures SomeOrdinary(before, mark) <==> SomeOrdinary(after, mark)
  {
  }
}
