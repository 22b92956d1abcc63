/** A webhook worker: events received from the broker are queued behind one HTTP
    operation in flight, over every interleaving of receptions and completions.

    A step is one critical section under the worker's mutex. The aio is busy while
    an operation is outstanding and until its callback has returned, so a callback
    that goes on to the drain section takes three steps: Complete, Drain, Return.
    Outcomes of allocations and of the network are parameters of the steps. The
    queue is a bounded FIFO (nng_lmq); a failing resize ends the program. */
module WebhookWorker {
  import opened Wrappers

  const INIT_CAP: nat := 16

  /** The command type of a message: as the broker made it, or as set by the worker. */
  datatype Tag = Plain | HttpReq | HttpRes

  datatype Msg = Msg(id: nat, tag: Tag)

  datatype Phase = Idle | InFlight | Draining | Returning

  datatype Event =
    | Receive(id: nat, clientOk: bool)
    | Complete(ok: bool, gotConn: bool, reqOk: bool)
    | Drain(clientOk: bool)
    | Return

  /** `taken`: events taken up for sending, in order; `posted`: events whose request was
      written, in order; `leaked`: events neither queued nor freed; `odd`: a branch of the
      callback that should be unreachable was run. */
  datatype Log = Log(
    accepted: seq<nat>, taken: seq<nat>, posted: seq<nat>, freed: seq<nat>, leaked: seq<nat>, odd: bool)

  datatype Worker = Worker(
    phase: Phase,
    aio: Option<Msg>,
    client: bool, conn: bool, req: bool,
    capacity: nat,
    queue: seq<Msg>,
    log: Log)

  const FRESH := Worker(Idle, None, false, false, false, INIT_CAP, [], Log([], [], [], [], [], false))

  // Steps

  function Free(g: Log, id: nat): Log {
    g.(freed := g.freed + [id])
  }

  function Take(g: Log, id: nat): Log {
    g.(taken := g.taken + [id])
  }

  function Enqueue(w: Worker, id: nat): Worker {
    var cap := if |w.queue| >= w.capacity then w.capacity + w.capacity / 2 else w.capacity;
    if |w.queue| < cap then w.(capacity := cap, queue := w.queue + [Msg(id, Plain)])
    else w.(capacity := cap, log := Free(w.log, id))
  }

  /** Starts connecting for a message, or leaves the worker without a client. */
  function Connect(w: Worker, m: Msg): Worker {
    w.(phase := InFlight, client := true, aio := Some(m))
  }

  /** send_msg for a received event. */
  function OnReceive(w: Worker, id: nat, clientOk: bool): Worker {
    var v := w.(log := w.log.(accepted := w.log.accepted + [id]));
    if v.phase != Idle then Enqueue(v, id)
    else if clientOk then Connect(v.(log := Take(v.log, id)), Msg(id, Plain))
    else v.(log := v.log.(leaked := v.log.leaked + [id]))
  }

  /** The first critical section of http_aio_cb. */
  function OnComplete(w: Worker, ok: bool, gotConn: bool, reqOk: bool): Worker {
    var clear := w.(phase := Draining, aio := None, client := false, conn := false, req := false);
    if w.aio.None? then
      if !ok then clear else w.(phase := Draining, log := w.log.(odd := true))
    else
      var m := w.aio.value;
      var done := clear.(log := Free(w.log, m.id));
      if !ok then done
      else match m.tag
        case HttpReq => done
        case HttpRes => done.(log := done.log.(odd := true))
        case Plain =>
          if !gotConn then w.(phase := Draining, aio := None, conn := false, client := false, log := done.log)
          else if !reqOk then w.(phase := Draining, aio := None, conn := false, client := false, log := done.log)
          else w.(conn := true, req := true, aio := Some(Msg(m.id, HttpReq)),
                  log := w.log.(posted := w.log.posted + [m.id]))
  }

  /** The drain section of http_aio_cb. */
  function OnDrain(w: Worker, clientOk: bool): Worker {
    if w.queue != [] then
      var m := w.queue[0];
      var v := w.(queue := w.queue[1..], log := Take(w.log, m.id));
      if clientOk then Connect(v, m) else v.(phase := Returning, log := Free(v.log, m.id))
    else
      w.(phase := Returning, capacity := Shrunk(w.capacity, |w.queue|))
  }

  /** The attempt to reduce the capacity of a queue of the given length. */
  function Shrunk(capacity: nat, len: nat): nat {
    if len > INIT_CAP * 2 && capacity > len * 2 then capacity / 2 else capacity
  }

  /** One step; a callback section out of its turn cannot occur and changes nothing. */
  function Step(w: Worker, e: Event): Worker {
    match e
    case Receive(id, clientOk) => OnReceive(w, id, clientOk)
    case Complete(ok, gotConn, reqOk) => if w.phase == InFlight then OnComplete(w, ok, gotConn, reqOk) else w
    case Drain(clientOk) => if w.phase == Draining then OnDrain(w, clientOk) else w
    case Return => if w.phase == Returning then w.(phase := Idle) else w
  }

  function Run(w: Worker, events: seq<Event>): Worker
    decreases |events|
  {
    if events == [] then w else Step(Run(w, events[..|events| - 1]), events[|events| - 1])
  }

  lemma RunTwo(w: Worker, es: seq<Event>, a: Event, b: Event)
    ensures Run(w, es + [a, b]) == Step(Step(Run(w, es), a), b)
  {
    var all := es + [a, b];
    assert all[..|es| + 1] == es + [a];
    assert (es + [a])[..|es|] == es;
  }

  // Invariants over every run

  function Ids(ms: seq<Msg>): (s: seq<nat>)
    ensures |s| == |ms| && forall i :: 0 <= i < |ms| ==> s[i] == ms[i].id
  {
    seq(|ms|, i requires 0 <= i < |ms| => ms[i].id)
  }

  function Flying(w: Worker): multiset<nat> {
    if w.aio.Some? then multiset{w.aio.value.id} else multiset{}
  }

  /** What the worker holds in each phase. In particular nothing is held when the
      drain section is entered, and a request goes with a connection. */
  ghost predicate Holds(w: Worker) {
    match w.phase
    case InFlight =>
      && w.client && w.aio.Some?
      && (w.aio.value.tag == Plain ==> !w.conn && !w.req)
      && (w.aio.value.tag != Plain ==> w.aio.value.tag == HttpReq && w.conn && w.req)
    case _ => w.aio.None? && !w.client && !w.conn && !w.req
  }

  ghost predicate Queued(w: Worker) {
    && INIT_CAP <= w.capacity && |w.queue| <= w.capacity
    && forall i :: 0 <= i < |w.queue| ==> w.queue[i].tag == Plain
  }

  /** Every accepted event is queued, in flight, freed or leaked, once. */
  ghost predicate Conserved(w: Worker) {
    multiset(w.log.accepted) ==
      multiset(Ids(w.queue)) + Flying(w) + multiset(w.log.freed) + multiset(w.log.leaked)
  }

  ghost predicate Inv(w: Worker) {
    Holds(w) && Queued(w) && Conserved(w) && !w.log.odd
  }

  lemma IdsSnoc(ms: seq<Msg>, m: Msg)
    ensures Ids(ms + [m]) == Ids(ms) + [m.id]
  {
  }

  lemma IdsHead(ms: seq<Msg>)
    requires ms != []
    ensures Ids(ms) == [ms[0].id] + Ids(ms[1..])
    ensures multiset(Ids(ms)) == multiset{ms[0].id} + multiset(Ids(ms[1..]))
  {
    assert Ids(ms) == [ms[0].id] + Ids(ms[1..]);
  }

  lemma EnqueueKeeps(w: Worker, id: nat)
    requires Inv(w) && w.phase != Idle
    ensures Inv(Enqueue(w.(log := w.log.(accepted := w.log.accepted + [id])), id))
  {
    IdsSnoc(w.queue, Msg(id, Plain));
    assert multiset(Ids(w.queue) + [id]) == multiset(Ids(w.queue)) + multiset{id};
    assert multiset(w.log.accepted + [id]) == multiset(w.log.accepted) + multiset{id};
  }

  lemma ReceiveKeeps(w: Worker, id: nat, clientOk: bool)
    requires Inv(w)
    ensures Inv(OnReceive(w, id, clientOk))
  {
    if w.phase != Idle {
      EnqueueKeeps(w, id);
    } else {
      assert multiset(w.log.accepted + [id]) == multiset(w.log.accepted) + multiset{id};
      assert multiset(w.log.leaked + [id]) == multiset(w.log.leaked) + multiset{id};
    }
  }

  lemma CompleteKeeps(w: Worker, ok: bool, gotConn: bool, reqOk: bool)
    requires Inv(w) && w.phase == InFlight
    ensures Inv(OnComplete(w, ok, gotConn, reqOk))
  {
  }

  lemma DrainKeeps(w: Worker, clientOk: bool)
    requires Inv(w) && w.phase == Draining
    ensures Inv(OnDrain(w, clientOk))
  {
    if w.queue != [] {
      var r := OnDrain(w, clientOk);
      assert Holds(r) && Queued(r);
      TakeConserves(w, r);
    }
  }

  lemma TakeConserves(w: Worker, r: Worker)
    requires Conserved(w) && w.queue != [] && w.aio.None?
    requires r.queue == w.queue[1..] && r.log.accepted == w.log.accepted && r.log.leaked == w.log.leaked
    requires || (r.aio == Some(w.queue[0]) && r.log.freed == w.log.freed)
             || (r.aio.None? && r.log.freed == w.log.freed + [w.queue[0].id])
    ensures Conserved(r)
  {
    IdsHead(w.queue);
  }

  lemma StepKeeps(w: Worker, e: Event)
    requires Inv(w)
    ensures Inv(Step(w, e))
  {
    match e
    case Receive(id, clientOk) => ReceiveKeeps(w, id, clientOk);
    case Complete(ok, gotConn, reqOk) =>
      if w.phase == InFlight {
        CompleteKeeps(w, ok, gotConn, reqOk);
      }
    case Drain(clientOk) =>
      if w.phase == Draining {
        DrainKeeps(w, clientOk);
      }
    case Return =>
  }

  /** Every run keeps the invariant: in particular the branches for an absent message
      and for CMD_HTTPRES are unreachable. */
  lemma {:induction false} RunKeeps(events: seq<Event>)
    ensures Inv(Run(FRESH, events))
    decreases |events|
  {
    if events != [] {
      RunKeeps(events[..|events| - 1]);
      StepKeeps(Run(FRESH, events[..|events| - 1]), events[|events| - 1]);
    }
  }

  /** An event accepted once is in exactly one place, once. */
  lemma ExactlyOnePlace(events: seq<Event>, id: nat)
    requires multiset(Run(FRESH, events).log.accepted)[id] == 1
    ensures var w := Run(FRESH, events);
      multiset(Ids(w.queue))[id] + Flying(w)[id] + multiset(w.log.freed)[id] + multiset(w.log.leaked)[id] == 1
  {
    RunKeeps(events);
  }

  /** Events leak exactly by receptions of an idle worker that gets no client. */
  lemma LeaksIff(w: Worker, e: Event)
    requires Inv(w)
    ensures Step(w, e).log.leaked != w.log.leaked <==> e.Receive? && w.phase == Idle && !e.clientOk
  {
  }

  /** Event i of the run is received by an idle worker that gets no client. */
  ghost predicate LeaksAt(events: seq<Event>, i: int) {
    && 0 <= i < |events| && events[i].Receive? && !events[i].clientOk
    && Run(FRESH, events[..i]).phase == Idle
  }

  /** So a run leaks an event exactly when some event reaches an idle worker without a
      client. */
  lemma {:induction false} RunLeaksIff(events: seq<Event>)
    ensures Run(FRESH, events).log.leaked != [] <==> exists i :: LeaksAt(events, i)
    decreases |events|
  {
    if events != [] {
      var n := |events| - 1;
      var before, e := events[..n], events[n];
      RunLeaksIff(before);
      RunKeeps(before);
      LeaksIff(Run(FRESH, before), e);
      LeaksOnlyGrow(Run(FRESH, before), e);
      forall i | 0 <= i < n ensures LeaksAt(events, i) <==> LeaksAt(before, i) {
        assert before[..i] == events[..i];
      }
      if exists i :: LeaksAt(before, i) {
        var i :| LeaksAt(before, i);
        assert LeaksAt(events, i);
      }
      assert LeaksAt(events, n) <==> e.Receive? && !e.clientOk && Run(FRESH, before).phase == Idle;
      if i :| LeaksAt(events, i) && i != n {
        assert LeaksAt(before, i);
      }
    }
  }

  lemma LeaksOnlyGrow(w: Worker, e: Event)
    ensures w.log.leaked <= Step(w, e).log.leaked
  {
    if e.Receive? && w.phase == Idle && !e.clientOk {
      assert Step(w, e).log.leaked == w.log.leaked + [e.id];
    } else {
      assert Step(w, e).log.leaked == w.log.leaked;
    }
  }

  /** In particular the first event ever received leaks if it gets no client. */
  lemma LeakingRun(id: nat)
    ensures Run(FRESH, [Receive(id, false)]).log.leaked == [id]
  {
    assert [Receive(id, false)][..0] == [];
  }

  lemma StepCapacity(w: Worker, e: Event)
    ensures Step(w, e).capacity >= w.capacity
  {
  }

  /** The queue capacity never decreases: the shrink test sees only empty queues. */
  lemma {:induction false} CapacityNeverShrinks(w: Worker, events: seq<Event>)
    ensures Run(w, events).capacity >= w.capacity
    decreases |events|
  {
    if events != [] {
      CapacityNeverShrinks(w, events[..|events| - 1]);
      StepCapacity(Run(w, events[..|events| - 1]), events[|events| - 1]);
    }
  }

  /** In every run the capacity is the initial one or at most half as large again as the
      number of events received: it grows only when the queue is full, by half. */
  lemma {:induction false} CapacityBound(events: seq<Event>)
    ensures var w := Run(FRESH, events);
      w.capacity == INIT_CAP || 2 * w.capacity <= 3 * |w.log.accepted|
    decreases |events|
  {
    if events != [] {
      var before, e := events[..|events| - 1], events[|events| - 1];
      CapacityBound(before);
      RunKeeps(before);
      CapacityStep(Run(FRESH, before), e);
    }
  }

  lemma CapacityStep(w: Worker, e: Event)
    requires Inv(w)
    ensures var r := Step(w, e);
      && |r.log.accepted| >= |w.log.accepted|
      && (r.capacity == w.capacity || 2 * r.capacity <= 3 * |r.log.accepted|)
  {
    assert |w.queue| == |Ids(w.queue)| == |multiset(Ids(w.queue))| <= |multiset(w.log.accepted)| == |w.log.accepted|;
  }

  // What becomes of an event

  /** The completion of a connection that succeeded, up to the written request. */
  predicate Connects(w: Worker, e: Event) {
    && e == Complete(true, true, true)
    && w.phase == InFlight && w.aio.Some? && w.aio.value.tag == Plain
  }

  /** A request is written exactly when a connection was made and its request could be
      had; the event then stays in flight, with the connection and the request. */
  lemma PostsIff(w: Worker, e: Event)
    requires Inv(w)
    ensures Step(w, e).log.posted == w.log.posted + (if Connects(w, e) then [w.aio.value.id] else [])
    ensures Connects(w, e) ==>
      var r := Step(w, e);
      r.phase == InFlight && r.conn && r.req && r.client && r.aio == Some(Msg(w.aio.value.id, HttpReq))
      && r.log.freed == w.log.freed
  {
  }

  /** The step fails the event: an operation, connection or request for it, or a client. */
  predicate Fails(w: Worker, e: Event, id: nat) {
    || (e.Complete? && w.phase == InFlight && w.aio.Some? && w.aio.value.id == id
        && !(e.ok && (w.aio.value.tag == HttpReq || (e.gotConn && e.reqOk))))
    || (e.Drain? && w.phase == Draining && w.queue != [] && w.queue[0].id == id && !e.clientOk)
  }

  /** The step is the completion of the event's written request. */
  predicate Finishes(w: Worker, e: Event, id: nat) {
    e.Complete? && e.ok && w.phase == InFlight && w.aio == Some(Msg(id, HttpReq))
  }

  /** A step frees at most one event: the one that it fails, or whose request it
      completes. In particular no put into the queue is ever refused. */
  lemma FreesIff(w: Worker, e: Event)
    requires Inv(w)
    ensures w.log.freed <= Step(w, e).log.freed
    ensures forall id :: Step(w, e).log.freed == w.log.freed + [id] <==> Fails(w, e, id) || Finishes(w, e, id)
    ensures Step(w, e).log.freed == w.log.freed || exists id :: Step(w, e).log.freed == w.log.freed + [id]
  {
    if e.Complete? && w.phase == InFlight {
      FreesInFlight(w, e);
    } else if e.Drain? && w.phase == Draining && w.queue != [] && !e.clientOk {
      assert Step(w, e).log.freed == w.log.freed + [w.queue[0].id];
      OneMore(w.log.freed, w.queue[0].id);
    } else {
      assert Step(w, e).log.freed == w.log.freed;
    }
  }

  lemma FreesInFlight(w: Worker, e: Event)
    requires Inv(w) && e.Complete? && w.phase == InFlight
    ensures Step(w, e).log.freed == if Connects(w, e) then w.log.freed else w.log.freed + [w.aio.value.id]
    ensures forall id :: Step(w, e).log.freed == w.log.freed + [id] <==> Fails(w, e, id) || Finishes(w, e, id)
  {
    OneMore(w.log.freed, w.aio.value.id);
  }

  lemma OneMore(s: seq<nat>, id: nat)
    ensures forall x :: s + [id] == s + [x] <==> x == id
  {
    forall x | s + [id] == s + [x] ensures x == id {
      assert (s + [id])[|s|] == (s + [x])[|s|];
    }
  }

  ghost predicate PostedInFlight(w: Worker) {
    w.aio.Some? && w.aio.value.tag == HttpReq ==> w.aio.value.id in w.log.posted
  }

  lemma {:induction false} RequestsArePosted(events: seq<Event>)
    ensures PostedInFlight(Run(FRESH, events))
    decreases |events|
  {
    if events != [] {
      var before, e := events[..|events| - 1], events[|events| - 1];
      RequestsArePosted(before);
      RunKeeps(before);
      PostsIff(Run(FRESH, before), e);
    }
  }

  /** Event number i of the run fails the given one. */
  ghost predicate FailsAt(events: seq<Event>, i: int, id: nat) {
    0 <= i < |events| && Fails(Run(FRESH, events[..i]), events[i], id)
  }

  /** In every run an event that is freed has had its request written, or something failed
      for it. */
  lemma {:induction false} FreedIsPostedOrFailed(events: seq<Event>, id: nat)
    requires id in Run(FRESH, events).log.freed
    ensures id in Run(FRESH, events).log.posted || exists i :: FailsAt(events, i, id)
    decreases |events|
  {
    if events != [] {
      var n := |events| - 1;
      var before, e, w := events[..n], events[n], Run(FRESH, events[..n]);
      RunKeeps(before);
      PostsIff(w, e);
      FreesIff(w, e);
      RequestsArePosted(before);
      if id in w.log.freed {
        FreedIsPostedOrFailed(before, id);
        if i :| FailsAt(before, i, id) {
          assert before[..i] == events[..i];
          assert FailsAt(events, i, id);
        }
      } else {
        assert Step(w, e).log.freed == w.log.freed + [id];
        if Fails(w, e, id) {
          assert FailsAt(events, n, id);
        }
      }
    }
  }

  /** Everything succeeds: clients, operations, connections and requests. */
  predicate Succeeds(e: Event) {
    match e
    case Receive(_, clientOk) => clientOk
    case Complete(ok, gotConn, reqOk) => ok && gotConn && reqOk
    case Drain(clientOk) => clientOk
    case Return => true
  }

  /** The event in flight whose request is, or is not yet, written. */
  function FlyingAs(w: Worker, tag: Tag): seq<nat> {
    if w.aio.Some? && w.aio.value.tag == tag then [w.aio.value.id] else []
  }

  /** In a run in which everything succeeds every event taken up is posted exactly once,
      in that order, and freed behind it, save the one in flight. */
  lemma {:induction false} SuccessPostsAll(events: seq<Event>)
    requires forall i :: 0 <= i < |events| ==> Succeeds(events[i])
    ensures var w := Run(FRESH, events);
      && w.log.taken == w.log.posted + FlyingAs(w, Plain)
      && w.log.posted == w.log.freed + FlyingAs(w, HttpReq)
      && w.log.leaked == []
    decreases |events|
  {
    if events != [] {
      var before, e := events[..|events| - 1], events[|events| - 1];
      SuccessPostsAll(before);
      RunKeeps(before);
      SuccessStep(Run(FRESH, before), e);
    }
  }

  lemma SuccessStep(w: Worker, e: Event)
    requires Inv(w) && Succeeds(e) && w.log.leaked == []
    requires w.log.taken == w.log.posted + FlyingAs(w, Plain)
    requires w.log.posted == w.log.freed + FlyingAs(w, HttpReq)
    ensures var r := Step(w, e);
      && r.log.taken == r.log.posted + FlyingAs(r, Plain)
      && r.log.posted == r.log.freed + FlyingAs(r, HttpReq)
      && r.log.leaked == []
  {
  }

  // Order

  /** Events taken up, followed by those queued, are the events that did not leak,
      in the order of their reception. */
  ghost predicate InOrder(w: Worker, kept: seq<nat>) {
    w.log.taken + Ids(w.queue) == kept
  }

  function KeptAfter(w: Worker, kept: seq<nat>, e: Event): seq<nat> {
    if e.Receive? && (w.phase != Idle || e.clientOk) then kept + [e.id] else kept
  }

  /** A step keeps the order exactly when it is not the reception, by an idle worker
      whose queue is not empty, of an event that can be sent at once. */
  lemma OrderKeptIff(w: Worker, kept: seq<nat>, e: Event)
    requires Inv(w) && InOrder(w, kept)
    requires e.Receive? ==> e.id !in Ids(w.queue)
    ensures InOrder(Step(w, e), KeptAfter(w, kept, e))
      <==> !(e.Receive? && w.phase == Idle && w.queue != [] && e.clientOk)
  {
    match e
    case Receive(id, clientOk) => OrderOfReceive(w, kept, id, clientOk);
    case Drain(clientOk) =>
      if w.queue != [] {
        OrderOfDrain(w.log.taken, w.queue);
      }
    case _ =>
  }

  lemma OrderOfReceive(w: Worker, kept: seq<nat>, id: nat, clientOk: bool)
    requires Inv(w) && InOrder(w, kept) && id !in Ids(w.queue)
    ensures InOrder(OnReceive(w, id, clientOk), KeptAfter(w, kept, Receive(id, clientOk)))
      <==> !(w.phase == Idle && w.queue != [] && clientOk)
  {
    IdsSnoc(w.queue, Msg(id, Plain));
    if w.phase == Idle && clientOk {
      Overtake(w.log.taken, Ids(w.queue), id);
    } else if w.phase != Idle {
      assert w.log.taken + (Ids(w.queue) + [id]) == (w.log.taken + Ids(w.queue)) + [id];
    }
  }

  lemma OrderOfDrain(taken: seq<nat>, queue: seq<Msg>)
    requires queue != []
    ensures (taken + [queue[0].id]) + Ids(queue[1..]) == taken + Ids(queue)
  {
    IdsHead(queue);
  }

  lemma Overtake(taken: seq<nat>, queued: seq<nat>, id: nat)
    requires id !in queued
    ensures (taken + [id]) + queued == (taken + queued) + [id] <==> queued == []
  {
    if queued != [] {
      assert ((taken + [id]) + queued)[|taken|] == id;
      assert ((taken + queued) + [id])[|taken|] == queued[0];
    }
  }

  /** The events of a run that did not leak, in the order of their reception. */
  function Kept(events: seq<Event>): seq<nat>
    decreases |events|
  {
    if events == [] then []
    else
      var before := events[..|events| - 1];
      KeptAfter(Run(FRESH, before), Kept(before), events[|events| - 1])
  }

  /** Order of arrival after every prefix of the run. */
  ghost predicate AlwaysInOrder(events: seq<Event>)
    decreases |events|
  {
    InOrder(Run(FRESH, events), Kept(events)) && (events == [] || AlwaysInOrder(events[..|events| - 1]))
  }

  /** No event is sent at once by an idle worker whose queue is not empty. */
  predicate NeverOvertakes(events: seq<Event>)
    decreases |events|
  {
    events == [] ||
    (var before, e := events[..|events| - 1], events[|events| - 1];
     var w := Run(FRESH, before);
     NeverOvertakes(before) && !(e.Receive? && w.phase == Idle && w.queue != [] && e.clientOk))
  }

  /** Each event is received once. */
  predicate DistinctEvents(events: seq<Event>)
    decreases |events|
  {
    events == [] ||
    (var before, e := events[..|events| - 1], events[|events| - 1];
     DistinctEvents(before) && (e.Receive? ==> e.id !in Run(FRESH, before).log.accepted))
  }

  /** Events are taken up in the order of their arrival throughout a run exactly when the
      run never sends one at once past a queue. */
  lemma {:induction false} AlwaysInOrderIff(events: seq<Event>)
    requires DistinctEvents(events)
    ensures AlwaysInOrder(events) <==> NeverOvertakes(events)
    decreases |events|
  {
    if events != [] {
      var before, e := events[..|events| - 1], events[|events| - 1];
      AlwaysInOrderIff(before);
      RunKeeps(before);
      var w := Run(FRESH, before);
      if AlwaysInOrder(before) {
        if e.Receive? {
          NotQueued(w, e.id);
        }
        OrderKeptIff(w, Kept(before), e);
      }
    }
  }

  lemma NotQueued(w: Worker, id: nat)
    requires Conserved(w) && id !in w.log.accepted
    ensures id !in Ids(w.queue)
  {
    assert multiset(w.log.accepted)[id] == 0;
  }

  /** Such a state is reached: an event received while the callback returns stays in
      the queue of an idle worker, and the next event overtakes it. */
  lemma OvertakingRun()
    ensures var stranded := Run(FRESH, [Receive(1, true), Complete(true, true, true), Complete(true, true, true),
        Drain(true), Receive(2, true), Return]);
      && stranded.phase == Idle && Ids(stranded.queue) == [2]
      && Step(stranded, Receive(3, true)).log.taken == [1, 3]
  {
    var a, b := Receive(1, true), Complete(true, true, true);
    RunOfSix(FRESH, a, b, b, Drain(true), Receive(2, true), Return);
    var w := Step(Step(Step(Step(FRESH, a), b), b), Drain(true));
    assert w.phase == Returning && w.queue == [] && w.log.taken == [1] && w.capacity == INIT_CAP;
    IdsSnoc([], Msg(2, Plain));
  }

  lemma RunOfSix(w: Worker, a: Event, b: Event, c: Event, d: Event, e: Event, f: Event)
    ensures Run(w, [a, b, c, d, e, f]) == Step(Step(Step(Step(Step(Step(w, a), b), c), d), e), f)
  {
    RunTwo(w, [], a, b);
    RunTwo(w, [a, b], c, d);
    RunTwo(w, [a, b, c, d], e, f);
    assert [] + [a, b] == [a, b] && [a, b] + [c, d] == [a, b, c, d];
    assert [a, b, c, d] + [e, f] == [a, b, c, d, e, f];
  }

  // Failures do not strand events

  /** The same events n times over. */
  function Repeated(es: seq<Event>, n: nat): seq<Event> {
    if n == 0 then [] else Repeated(es, n - 1) + es
  }

  function Rounds(w: Worker, es: seq<Event>, n: nat): Worker {
    if n == 0 then w else Run(Rounds(w, es, n - 1), es)
  }

  lemma {:induction false} RunAppend(w: Worker, a: seq<Event>, b: seq<Event>)
    ensures Run(w, a + b) == Run(Run(w, a), b)
    decreases |b|
  {
    if b == [] {
      assert a + b == a;
    } else {
      RunAppend(w, a, b[..|b| - 1]);
      assert (a + b)[..|a + b| - 1] == a + b[..|b| - 1];
    }
  }

  lemma {:induction false} RunRepeated(w: Worker, es: seq<Event>, n: nat)
    ensures Run(w, Repeated(es, n)) == Rounds(w, es, n)
    decreases n
  {
    if n > 0 {
      RunRepeated(w, es, n - 1);
      RunAppend(w, Repeated(es, n - 1), es);
    }
  }

  /** An operation that fails, and its drain section. */
  const FAILURE := [Complete(false, false, false), Drain(true)]

  lemma FailureTakesNext(w: Worker)
    requires w.phase == InFlight && w.aio.Some? && w.queue != []
    ensures Run(w, FAILURE).phase == InFlight && Run(w, FAILURE).aio == Some(w.queue[0])
    ensures Run(w, FAILURE).queue == w.queue[1..]
    ensures Run(w, FAILURE).log.taken == w.log.taken + [w.queue[0].id]
    ensures Run(w, FAILURE).log.freed == w.log.freed + [w.aio.value.id]
  {
  }

  /** What n failures do to a worker with at least n events queued. */
  ghost predicate TookTurns(w: Worker, n: nat, r: Worker)
    requires w.aio.Some? && n <= |w.queue|
  {
    && r.phase == InFlight && r.aio.Some? && r.aio.value.id == AllHeld(w)[n]
    && r.queue == w.queue[n..]
    && r.log.taken == w.log.taken + Ids(w.queue[..n])
    && r.log.freed == w.log.freed + AllHeld(w)[..n]
  }

  /** The event in flight and those queued behind it. */
  function AllHeld(w: Worker): (ids: seq<nat>)
    requires w.aio.Some?
    ensures |ids| == |w.queue| + 1
  {
    [w.aio.value.id] + Ids(w.queue)
  }

  lemma TookOneMore(w: Worker, n: nat, r: Worker, s: Worker)
    requires w.aio.Some? && n < |w.queue| && TookTurns(w, n, r)
    requires s.phase == InFlight && s.aio == Some(r.queue[0]) && s.queue == r.queue[1..]
    requires s.log.taken == r.log.taken + [r.queue[0].id] && s.log.freed == r.log.freed + [r.aio.value.id]
    ensures TookTurns(w, n + 1, s)
  {
    assert AllHeld(w)[..n + 1] == AllHeld(w)[..n] + [AllHeld(w)[n]];
    assert AllHeld(w)[n + 1] == w.queue[n].id;
    assert w.queue[n..][1..] == w.queue[n + 1..];
    assert w.queue[..n + 1] == w.queue[..n] + [w.queue[n]];
    IdsSnoc(w.queue[..n], w.queue[n]);
  }

  /** While the receiver stays unreachable, every failure frees its event and takes
      up the next one. */
  lemma {:induction false} FailuresTakeTurns(w: Worker, n: nat)
    requires w.phase == InFlight && w.aio.Some? && n <= |w.queue|
    ensures TookTurns(w, n, Rounds(w, FAILURE, n))
    decreases n
  {
    if n > 0 {
      FailuresTakeTurns(w, n - 1);
      var r := Rounds(w, FAILURE, n - 1);
      FailureTakesNext(r);
      TookOneMore(w, n - 1, r, Run(r, FAILURE));
    } else {
      assert w.queue[..0] == [] && w.queue[0..] == w.queue;
    }
  }

  lemma LastFailure(w: Worker)
    requires w.phase == InFlight && w.aio.Some? && w.queue == []
    ensures Run(w, FAILURE).phase == Returning && Run(w, FAILURE).queue == []
    ensures Run(w, FAILURE).log.taken == w.log.taken
    ensures Run(w, FAILURE).log.freed == w.log.freed + [w.aio.value.id]
  {
  }

  /** One failure more than there are queued events takes up and frees every event
      held, in order. */
  lemma FailuresEmptyQueue(w: Worker)
    requires w.phase == InFlight && w.aio.Some?
    ensures var r := Run(w, Repeated(FAILURE, |w.queue| + 1));
      && r.phase == Returning && r.queue == []
      && r.log.taken == w.log.taken + Ids(w.queue)
      && r.log.freed == w.log.freed + AllHeld(w)
  {
    var n := |w.queue|;
    FailuresTakeTurns(w, n);
    LastFailure(Rounds(w, FAILURE, n));
    RunRepeated(w, FAILURE, n + 1);
    assert w.queue[..n] == w.queue;
    assert AllHeld(w)[..n] + [AllHeld(w)[n]] == AllHeld(w);
  }

  /** A connection and a request that succeed, and the drain section. */
  const SUCCESS := [Complete(true, true, true), Complete(true, true, true), Drain(true)]

  /** What n successes do to a worker with at least n events queued. */
  ghost predicate PostedTurns(w: Worker, n: nat, r: Worker)
    requires w.aio.Some? && n <= |w.queue|
  {
    && r.phase == InFlight && r.aio.Some? && r.aio.value == (if n == 0 then w.aio.value else w.queue[n - 1])
    && r.queue == w.queue[n..]
    && r.log.posted == w.log.posted + AllHeld(w)[..n]
    && r.log.freed == w.log.freed + AllHeld(w)[..n]
  }

  lemma SuccessTakesNext(w: Worker)
    requires w.phase == InFlight && w.aio.Some? && w.aio.value.tag == Plain
    ensures var r := Run(w, SUCCESS);
      && r.log.posted == w.log.posted + [w.aio.value.id] && r.log.freed == w.log.freed + [w.aio.value.id]
      && (if w.queue == [] then r.phase == Returning && r.queue == []
          else r.phase == InFlight && r.aio == Some(w.queue[0]) && r.queue == w.queue[1..])
  {
    RunOfThree(w, Complete(true, true, true), Complete(true, true, true), Drain(true));
    var v := Step(Step(w, Complete(true, true, true)), Complete(true, true, true));
    assert v.phase == Draining && v.queue == w.queue && v.log.posted == w.log.posted + [w.aio.value.id];
  }

  lemma RunOfThree(w: Worker, a: Event, b: Event, c: Event)
    ensures Run(w, [a, b, c]) == Step(Step(Step(w, a), b), c)
  {
    RunTwo(w, [a], b, c);
    assert [a] + [b, c] == [a, b, c] && [a][..0] == [];
  }

  lemma PostedOneMore(w: Worker, n: nat, r: Worker, s: Worker)
    requires w.aio.Some? && n < |w.queue| && PostedTurns(w, n, r)
    requires s.phase == InFlight && s.aio == Some(r.queue[0]) && s.queue == r.queue[1..]
    requires s.log.posted == r.log.posted + [r.aio.value.id] && s.log.freed == r.log.freed + [r.aio.value.id]
    ensures PostedTurns(w, n + 1, s)
  {
    assert w.queue[n..][1..] == w.queue[n + 1..];
    assert r.aio.value.id == AllHeld(w)[n];
    assert AllHeld(w)[..n + 1] == AllHeld(w)[..n] + [AllHeld(w)[n]];
  }

  lemma {:induction false} SuccessesTakeTurns(w: Worker, n: nat)
    requires Inv(w) && w.phase == InFlight && w.aio.value.tag == Plain && n <= |w.queue|
    ensures PostedTurns(w, n, Rounds(w, SUCCESS, n))
    decreases n
  {
    if n > 0 {
      SuccessesTakeTurns(w, n - 1);
      var r := Rounds(w, SUCCESS, n - 1);
      SuccessTakesNext(r);
      PostedOneMore(w, n - 1, r, Run(r, SUCCESS));
    } else {
      assert w.queue[0..] == w.queue;
    }
  }

  /** As many successes as there are events held post and free exactly these, in order,
      and empty the queue. */
  lemma SuccessesEmptyQueue(w: Worker)
    requires Inv(w) && w.phase == InFlight && w.aio.value.tag == Plain
    ensures var r := Run(w, Repeated(SUCCESS, |w.queue| + 1));
      && r.phase == Returning && r.queue == []
      && r.log.posted == w.log.posted + AllHeld(w) && r.log.freed == w.log.freed + AllHeld(w)
  {
    var n := |w.queue|;
    RunRepeated(w, SUCCESS, n + 1);
    SuccessesTakeTurns(w, n);
    var r := Rounds(w, SUCCESS, n);
    SuccessTakesNext(r);
    HeldLast(w);
    LastTurn(w.log.posted, AllHeld(w));
    LastTurn(w.log.freed, AllHeld(w));
  }

  lemma HeldLast(w: Worker)
    requires w.aio.Some?
    ensures var n := |w.queue|; AllHeld(w)[n] == (if n == 0 then w.aio.value else w.queue[n - 1]).id
  {
  }

  lemma LastTurn(done: seq<nat>, held: seq<nat>)
    requires held != []
    ensures (done + held[..|held| - 1]) + [held[|held| - 1]] == done + held
  {
  }

  // The worker as the callbacks update it

  class HookWork {
    var phase: Phase
    var httpAio: Option<Msg>
    var client: bool
    var conn: bool
    var req: bool
    var capacity: nat
    var lmq: seq<Msg>
    ghost var log: Log

    /** The worker as a value. It starts fresh and every method below moves it by a
        step, so the invariant holds of it throughout. */
    ghost function View(): Worker
      reads this
    {
      Worker(phase, httpAio, client, conn, req, capacity, lmq, log)
    }

    constructor ()
      ensures View() == FRESH
    {
      phase, httpAio, client, conn, req := Idle, None, false, false, false;
      capacity, lmq := INIT_CAP, [];
      log := Log([], [], [], [], [], false);
    }

    /** send_msg, called by hook_work_cb with the message received. */
    method SendMsg(id: nat, clientOk: bool)
      modifies this
      ensures View() == Step(old(View()), Receive(id, clientOk))
    {
      ghost var next := OnReceive(View(), id, clientOk);
      if phase != Idle {
        if |lmq| >= capacity {
          capacity := capacity + capacity / 2;
        }
        if |lmq| < capacity {
          lmq := lmq + [Msg(id, Plain)];
        }
      } else if clientOk {
        client := true;
        httpAio := Some(Msg(id, Plain));
        phase := InFlight;
      }
      log := next.log;
    }

    /** http_aio_cb up to the drain section, or to the start of the request. */
    method HttpAioCb(ok: bool, gotConn: bool, reqOk: bool)
      requires phase == InFlight
      modifies this
      ensures View() == Step(old(View()), Complete(ok, gotConn, reqOk))
    {
      ghost var next := OnComplete(View(), ok, gotConn, reqOk);
      if !ok {
        httpAio := None;
        conn := false;
        req := false;
        client := false;
        phase := Draining;
      } else {
        var msg := httpAio;
        httpAio := None;
        match msg {
          case Some(m) =>
            if m.tag == HttpReq || m.tag == HttpRes {
              conn := false;
              req := false;
              client := false;
              phase := Draining;
            } else {
              conn := gotConn;
              if !conn {
                client := false;
                phase := Draining;
              } else if !reqOk {
                conn := false;
                client := false;
                phase := Draining;
              } else {
                req := true;
                httpAio := Some(Msg(m.id, HttpReq));
              }
            }
          case None =>
            phase := Draining;
        }
      }
      log := next.log;
    }

    /** The drain section of http_aio_cb. */
    method DrainQueue(clientOk: bool)
      requires phase == Draining
      modifies this
      ensures View() == Step(old(View()), Drain(clientOk))
    {
      ghost var next := OnDrain(View(), clientOk);
      if |lmq| != 0 {
        var m := lmq[0];
        lmq := lmq[1..];
        if !clientOk {
          phase := Returning;
        } else {
          client := true;
          httpAio := Some(m);
          phase := InFlight;
        }
      } else {
        TryShrink(|lmq|);
        phase := Returning;
      }
      log := next.log;
    }

    method TryShrink(len: nat)
      modifies this`capacity
      ensures capacity == Shrunk(old(capacity), len)
    {
      if len > INIT_CAP * 2 {
        if capacity > len * 2 {
          capacity := capacity / 2;
        }
      }
    }

    method CallbackReturns()
      requires phase == Returning
      modifies this
      ensures View() == Step(old(View()), Return)
    {
      phase := Idle;
    }
  }
}
