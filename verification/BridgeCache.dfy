/** The retry cache of a bridge node: what happens to a publish that is forwarded
    to a remote broker, over every interleaving of publishes, send completions,
    resend completions and connection changes.

    Each step is one critical section under the node's mutex. An aio counts as busy
    from the start of its operation until its callback has run. The cache is a
    bounded FIFO queue (nng_lmq): a put fails only when the queue is full, a get
    only when it is empty. */
module BridgeCache {
  import opened Wrappers
  import opened Arith

  datatype Publish = Publish(topic: string, payload: seq<Byte>, dup: bool, qos: nat, retain: nat)

  /** One entry of the forwards list; None stands for NO_RETAIN, NO_QOS and absent affixes. */
  datatype Forward = Forward(
    localTopic: string, remoteTopic: string,
    prefix: Option<string>, suffix: Option<string>,
    retain: Option<nat>, qos: Option<nat>)

  /** Topic matching and topic rewriting, which live in the message library. */
  datatype Topics = Topics(matches: (string, string) -> bool, rewrite: (Forward, string) -> string)

  datatype Event =
    | Offer(ctx: nat, msg: Publish)
    | SendDone(ctx: nat)
    | ResendDone
    | Connection(up: bool)

  /** What happened to the messages so far. `cached`: every message put into the
      cache; `exits[i]`: whether the i-th message to leave it was resent or evicted;
      `done` and `acked`: messages whose direct send, or resend, has completed. */
  datatype Log = Log(
    offered: seq<Publish>, direct: seq<Publish>, dropped: seq<Publish>,
    cached: seq<Publish>, exits: seq<bool>, resent: seq<Publish>, evicted: seq<Publish>,
    done: seq<Publish>, acked: seq<Publish>)

  datatype Node = Node(
    capacity: nat,
    connected: bool,
    busy: bool,
    resend: Option<Publish>,
    sends: seq<Option<Publish>>,
    cache: seq<Publish>,
    log: Log)

  function Fresh(capacity: nat, contexts: nat): Node {
    Node(capacity, false, false, None, seq(contexts, _ => None), [],
         Log([], [], [], [], [], [], [], [], []))
  }

  // Steps

  function Evict(n: Node): Node
    requires n.cache != []
  {
    n.(cache := n.cache[1..], log := n.log.(evicted := n.log.evicted + [n.cache[0]], exits := n.log.exits + [false]))
  }

  function CachePut(n: Node, m: Publish): Node {
    n.(cache := n.cache + [m], log := n.log.(cached := n.log.cached + [m], offered := n.log.offered + [m]))
  }

  function Drop(n: Node, m: Publish): Node {
    n.(log := n.log.(dropped := n.log.dropped + [m], offered := n.log.offered + [m]))
  }

  function SendDirect(n: Node, ctx: nat, m: Publish): Node
    requires ctx < |n.sends|
  {
    n.(sends := n.sends[ctx := Some(m)], log := n.log.(direct := n.log.direct + [m], offered := n.log.offered + [m]))
  }

  /** Moves the oldest cached message, if any, to the resend aio. */
  function StartResend(n: Node): Node {
    if n.cache == [] then n
    else n.(cache := n.cache[1..], resend := Some(n.cache[0]), busy := true,
            log := n.log.(resent := n.log.resent + [n.cache[0]], exits := n.log.exits + [true]))
  }

  /** The send, cache or drop decision for one forwarded message. */
  function OfferTo(n: Node, ctx: nat, m: Publish): Node
    requires n.capacity > 0 && ctx < |n.sends|
  {
    if n.sends[ctx].Some? || !n.connected then
      if m.qos == 0 then Drop(n, m)
      else CachePut(if |n.cache| >= n.capacity then Evict(n) else n, m)
    else SendDirect(n, ctx, m)
  }

  /** One step. A completion of an aio that is idle cannot occur and changes nothing. */
  function Step(n: Node, e: Event): Node
    requires n.capacity > 0
  {
    match e
    case Offer(ctx, m) => if ctx < |n.sends| then OfferTo(n, ctx, m) else n
    case SendDone(ctx) =>
      if ctx < |n.sends| && n.sends[ctx].Some? then
        var idle := n.(sends := n.sends[ctx := None], log := n.log.(done := n.log.done + [n.sends[ctx].value]));
        if !idle.busy then StartResend(idle) else idle
      else n
    case ResendDone =>
      if n.resend.Some? then
        StartResend(n.(busy := false, resend := None, log := n.log.(acked := n.log.acked + [n.resend.value])))
      else n
    case Connection(up) => n.(connected := up)
  }

  function Run(n: Node, events: seq<Event>): (r: Node)
    requires n.capacity > 0
    ensures r.capacity == n.capacity && |r.sends| == |n.sends|
    decreases |events|
  {
    if events == [] then n else Step(Run(n, events[..|events| - 1]), events[|events| - 1])
  }

  lemma RunSnoc(n: Node, events: seq<Event>, e: Event)
    requires n.capacity > 0
    ensures Run(n, events + [e]) == Step(Run(n, events), e)
  {
    assert (events + [e])[..|events|] == events;
  }

  // Invariants over every run

  /** Among the first |exits| messages, those that left in the given way, in order. */
  function LeftAs(ms: seq<Publish>, exits: seq<bool>, way: bool): seq<Publish>
    requires |exits| <= |ms|
  {
    if exits == [] then []
    else
      var k := |exits| - 1;
      LeftAs(ms, exits[..k], way) + (if exits[k] == way then [ms[k]] else [])
  }

  ghost predicate Inv(n: Node) {
    && (n.busy <==> n.resend.Some?)
    && |n.cache| <= n.capacity
    && CacheIsSuffix(n.cache, n.log)
    && Conserved(n.log)
  }

  /** The cache is a suffix of what was put into it; everything before has left,
      resent or evicted, in the order it came. */
  ghost predicate CacheIsSuffix(cache: seq<Publish>, g: Log) {
    && |g.exits| + |cache| == |g.cached|
    && cache == g.cached[|g.exits|..]
    && g.resent == LeftAs(g.cached, g.exits, true)
    && g.evicted == LeftAs(g.cached, g.exits, false)
  }

  /** Every message offered was sent at once, dropped with QoS 0, or cached with QoS above 0. */
  ghost predicate Conserved(g: Log) {
    && multiset(g.offered) == multiset(g.direct) + multiset(g.dropped) + multiset(g.cached)
    && (forall i :: 0 <= i < |g.cached| ==> g.cached[i].qos > 0)
    && (forall i :: 0 <= i < |g.dropped| ==> g.dropped[i].qos == 0)
  }

  lemma {:induction false} LeftAsPrefix(ms: seq<Publish>, m: Publish, exits: seq<bool>, way: bool)
    requires |exits| <= |ms|
    ensures LeftAs(ms + [m], exits, way) == LeftAs(ms, exits, way)
  {
    if exits != [] {
      LeftAsPrefix(ms, m, exits[..|exits| - 1], way);
    }
  }

  lemma LeftAsSnoc(ms: seq<Publish>, exits: seq<bool>, exit: bool, way: bool)
    requires |exits| < |ms|
    ensures LeftAs(ms, exits + [exit], way) == LeftAs(ms, exits, way) + (if exit == way then [ms[|exits|]] else [])
  {
    assert (exits + [exit])[..|exits|] == exits;
  }

  lemma SuffixAfterEvict(cache: seq<Publish>, g: Log)
    requires CacheIsSuffix(cache, g) && cache != []
    ensures CacheIsSuffix(cache[1..], g.(evicted := g.evicted + [cache[0]], exits := g.exits + [false]))
  {
    LeftAsSnoc(g.cached, g.exits, false, true);
    LeftAsSnoc(g.cached, g.exits, false, false);
  }

  lemma SuffixAfterResend(cache: seq<Publish>, g: Log)
    requires CacheIsSuffix(cache, g) && cache != []
    ensures CacheIsSuffix(cache[1..], g.(resent := g.resent + [cache[0]], exits := g.exits + [true]))
  {
    LeftAsSnoc(g.cached, g.exits, true, true);
    LeftAsSnoc(g.cached, g.exits, true, false);
  }

  lemma SuffixAfterPut(cache: seq<Publish>, g: Log, m: Publish)
    requires CacheIsSuffix(cache, g)
    ensures CacheIsSuffix(cache + [m], g.(cached := g.cached + [m], offered := g.offered + [m]))
  {
    LeftAsPrefix(g.cached, m, g.exits, true);
    LeftAsPrefix(g.cached, m, g.exits, false);
  }

  lemma EvictKeeps(n: Node)
    requires Inv(n) && n.cache != []
    ensures Inv(Evict(n))
  {
    SuffixAfterEvict(n.cache, n.log);
  }

  lemma CachePutKeeps(n: Node, m: Publish)
    requires Inv(n) && |n.cache| < n.capacity && m.qos > 0
    ensures Inv(CachePut(n, m))
  {
    SuffixAfterPut(n.cache, n.log, m);
  }

  lemma DropKeeps(n: Node, m: Publish)
    requires Inv(n) && m.qos == 0
    ensures Inv(Drop(n, m))
  {
    assert CacheIsSuffix(n.cache, Drop(n, m).log);
  }

  lemma SendDirectKeeps(n: Node, ctx: nat, m: Publish)
    requires Inv(n) && ctx < |n.sends|
    ensures Inv(SendDirect(n, ctx, m))
  {
    assert CacheIsSuffix(n.cache, SendDirect(n, ctx, m).log);
  }

  lemma OfferKeeps(n: Node, ctx: nat, m: Publish)
    requires Inv(n) && n.capacity > 0 && ctx < |n.sends|
    ensures Inv(OfferTo(n, ctx, m))
  {
    if n.sends[ctx].None? && n.connected {
      SendDirectKeeps(n, ctx, m);
    } else if m.qos == 0 {
      DropKeeps(n, m);
    } else if |n.cache| >= n.capacity {
      EvictKeeps(n);
      CachePutKeeps(Evict(n), m);
    } else {
      CachePutKeeps(n, m);
    }
  }

  lemma StartResendKeeps(n: Node)
    requires Inv(n) && !n.busy
    ensures Inv(StartResend(n))
  {
    if n.cache != [] {
      SuffixAfterResend(n.cache, n.log);
    }
  }

  lemma StepKeeps(n: Node, e: Event)
    requires Inv(n) && n.capacity > 0
    ensures Inv(Step(n, e))
  {
    match e
    case Offer(ctx, m) =>
      if ctx < |n.sends| {
        OfferKeeps(n, ctx, m);
      }
    case SendDone(ctx) =>
      if ctx < |n.sends| && n.sends[ctx].Some? {
        var idle := n.(sends := n.sends[ctx := None], log := n.log.(done := n.log.done + [n.sends[ctx].value]));
        assert CacheIsSuffix(n.cache, idle.log);
        if !n.busy {
          StartResendKeeps(idle);
        }
      }
    case ResendDone =>
      if n.resend.Some? {
        var idle := n.(busy := false, resend := None, log := n.log.(acked := n.log.acked + [n.resend.value]));
        assert CacheIsSuffix(n.cache, idle.log);
        StartResendKeeps(idle);
      }
    case Connection(up) =>
  }

  /** Every run from a fresh node keeps the invariant. */
  lemma {:induction false} RunKeeps(capacity: nat, contexts: nat, events: seq<Event>)
    requires capacity > 0
    ensures Inv(Run(Fresh(capacity, contexts), events))
    decreases |events|
  {
    if events != [] {
      RunKeeps(capacity, contexts, events[..|events| - 1]);
      StepKeeps(Run(Fresh(capacity, contexts), events[..|events| - 1]), events[|events| - 1]);
    }
  }

  // What is in flight

  function Count(ms: seq<Publish>, m: Publish): nat {
    if ms == [] then 0 else Count(ms[..|ms| - 1], m) + (if ms[|ms| - 1] == m then 1 else 0)
  }

  /** How often the message is on the aios. */
  function Flying(sends: seq<Option<Publish>>, m: Publish): nat {
    if sends == [] then 0
    else Flying(sends[..|sends| - 1], m) + (if sends[|sends| - 1] == Some(m) then 1 else 0)
  }

  lemma CountSnoc(ms: seq<Publish>, x: Publish, m: Publish)
    ensures Count(ms + [x], m) == Count(ms, m) + (if x == m then 1 else 0)
  {
    assert (ms + [x])[..|ms|] == ms;
  }

  lemma {:induction false} FlyingUpdate(sends: seq<Option<Publish>>, ctx: nat, x: Option<Publish>, m: Publish)
    requires ctx < |sends|
    ensures Flying(sends[ctx := x], m) + (if sends[ctx] == Some(m) then 1 else 0) ==
      Flying(sends, m) + (if x == Some(m) then 1 else 0)
  {
    var k := |sends| - 1;
    if ctx == k {
      assert sends[ctx := x][..k] == sends[..k];
    } else {
      FlyingUpdate(sends[..k], ctx, x, m);
      assert sends[ctx := x][..k] == sends[..k][ctx := x];
    }
  }

  lemma {:induction false} NothingFlies(sends: seq<Option<Publish>>, m: Publish)
    requires forall i :: 0 <= i < |sends| ==> sends[i].None?
    ensures Flying(sends, m) == 0
  {
    if sends != [] {
      NothingFlies(sends[..|sends| - 1], m);
    }
  }

  /** Resends are made one at a time and in order. */
  ghost predicate ResendsAccounted(n: Node) {
    n.log.resent == n.log.acked + (if n.resend.Some? then [n.resend.value] else [])
  }

  /** The message, as often as it was sent directly, is on an aio or has completed. */
  ghost predicate SendsAccounted(n: Node, m: Publish) {
    Count(n.log.direct, m) == Count(n.log.done, m) + Flying(n.sends, m)
  }

  lemma StepAccountsResends(n: Node, e: Event)
    requires Inv(n) && n.capacity > 0 && ResendsAccounted(n)
    ensures ResendsAccounted(Step(n, e))
  {
  }

  lemma StepAccountsSends(n: Node, e: Event, m: Publish)
    requires n.capacity > 0 && SendsAccounted(n, m)
    ensures SendsAccounted(Step(n, e), m)
  {
    SendsDirectIff(n, e);
    CompletesIff(n, e);
    if Completes(n, e) {
      FlyingUpdate(n.sends, e.ctx, None, m);
      CountSnoc(n.log.done, n.sends[e.ctx].value, m);
    } else if Step(n, e).log.direct != n.log.direct {
      FlyingUpdate(n.sends, e.ctx, Some(e.msg), m);
      CountSnoc(n.log.direct, e.msg, m);
    }
  }

  /** The event completes the send on a context's aio. */
  predicate Completes(n: Node, e: Event) {
    e.SendDone? && e.ctx < |n.sends| && n.sends[e.ctx].Some?
  }

  /** A send completes exactly by the completion of its aio, which is then idle. */
  lemma CompletesIff(n: Node, e: Event)
    requires n.capacity > 0
    ensures Step(n, e).log.done == n.log.done + (if Completes(n, e) then [n.sends[e.ctx].value] else [])
    ensures Completes(n, e) ==> Step(n, e).sends == n.sends[e.ctx := None] && Step(n, e).log.direct == n.log.direct
    ensures !Completes(n, e) && Step(n, e).log.direct == n.log.direct ==> Step(n, e).sends == n.sends
  {
    if e.Offer? && e.ctx < |n.sends| && n.sends[e.ctx].None? && n.connected {
      assert Step(n, e).log.direct[|n.log.direct|] == e.msg;
    }
  }

  /** In every run resends are made one at a time and in order, and each message sent
      directly is on an aio or has completed, as often as it was sent. */
  lemma {:induction false} RunAccounts(capacity: nat, contexts: nat, events: seq<Event>, m: Publish)
    requires capacity > 0
    ensures var n := Run(Fresh(capacity, contexts), events); ResendsAccounted(n) && SendsAccounted(n, m)
    decreases |events|
  {
    if events != [] {
      var before := events[..|events| - 1];
      RunAccounts(capacity, contexts, before, m);
      RunKeeps(capacity, contexts, before);
      StepAccountsResends(Run(Fresh(capacity, contexts), before), events[|events| - 1]);
      StepAccountsSends(Run(Fresh(capacity, contexts), before), events[|events| - 1], m);
    } else {
      NothingFlies(Fresh(capacity, contexts).sends, m);
    }
  }

  /** A message is sent directly exactly when it is offered to an idle aio of a connected
      node; it is then on that aio. */
  lemma SendsDirectIff(n: Node, e: Event)
    requires n.capacity > 0
    ensures Step(n, e).log.direct != n.log.direct <==>
      e.Offer? && e.ctx < |n.sends| && n.sends[e.ctx].None? && n.connected
    ensures Step(n, e).log.direct != n.log.direct ==>
      Step(n, e).log.direct == n.log.direct + [e.msg] && Step(n, e).sends == n.sends[e.ctx := Some(e.msg)]
  {
  }

  /** The last connection change of a run. */
  function LastConnection(events: seq<Event>): bool
    decreases |events|
  {
    if events == [] then false
    else if events[|events| - 1].Connection? then events[|events| - 1].up
    else LastConnection(events[..|events| - 1])
  }

  /** A node takes itself to be connected as the last connection change told it. */
  lemma {:induction false} ConnectedIs(capacity: nat, contexts: nat, events: seq<Event>)
    requires capacity > 0
    ensures Run(Fresh(capacity, contexts), events).connected == LastConnection(events)
    decreases |events|
  {
    if events != [] {
      ConnectedIs(capacity, contexts, events[..|events| - 1]);
    }
  }

  /** The messages offered to a context, in order. */
  function Offered(events: seq<Event>, contexts: nat): seq<Publish>
    decreases |events|
  {
    if events == [] then []
    else
      var e := events[|events| - 1];
      Offered(events[..|events| - 1], contexts) + (if e.Offer? && e.ctx < contexts then [e.msg] else [])
  }

  /** While the bridge has never been connected nothing is sent: exactly the messages
      above QoS 0 are cached, and exactly those of QoS 0 dropped, in order. */
  lemma {:induction false} DisconnectedRun(capacity: nat, contexts: nat, events: seq<Event>)
    requires capacity > 0 && forall i :: 0 <= i < |events| ==> events[i] != Connection(true)
    ensures var n := Run(Fresh(capacity, contexts), events);
      && !n.connected && n.resend.None? && !n.busy && n.sends == Fresh(capacity, contexts).sends
      && n.log.direct == [] && n.log.resent == []
      && n.log.cached == OfQos(Offered(events, contexts), true)
      && n.log.dropped == OfQos(Offered(events, contexts), false)
    decreases |events|
  {
    if events != [] {
      var before, e := events[..|events| - 1], events[|events| - 1];
      DisconnectedRun(capacity, contexts, before);
      var n := Run(Fresh(capacity, contexts), before);
      if e.Offer? && e.ctx < contexts {
        OfferDisconnected(n, e.ctx, e.msg);
        OfQosAppend(Offered(before, contexts), e.msg, true);
        OfQosAppend(Offered(before, contexts), e.msg, false);
      } else {
        assert Step(n, e).(connected := false) == n;
        assert Offered(before, contexts) + [] == Offered(before, contexts);
      }
    }
  }

  lemma OfferDisconnected(n: Node, ctx: nat, m: Publish)
    requires n.capacity > 0 && ctx < |n.sends| && !n.connected
    ensures var r := OfferTo(n, ctx, m);
      && !r.connected && r.resend == n.resend && r.busy == n.busy && r.sends == n.sends
      && r.log.direct == n.log.direct && r.log.resent == n.log.resent
      && r.log.dropped == n.log.dropped + (if m.qos == 0 then [m] else [])
      && r.log.cached == n.log.cached + (if m.qos > 0 then [m] else [])
  {
  }

  lemma OfQosAppend(ms: seq<Publish>, m: Publish, reliable: bool)
    ensures OfQos(ms + [m], reliable) == OfQos(ms, reliable) + (if (m.qos > 0) == reliable then [m] else [])
  {
    assert (ms + [m])[..|ms|] == ms;
  }

  /** A cached message is given up only as the oldest of a full cache, to make
      room for a newer message with QoS above 0 that cannot be sent. */
  lemma EvictsOnlyOldestOfFull(n: Node, e: Event)
    requires Inv(n) && n.capacity > 0
    ensures Step(n, e).log.evicted == n.log.evicted
      || (&& |n.cache| == n.capacity && (e.Offer? ==> e.ctx < |n.sends|)
          && Step(n, e).log.evicted == n.log.evicted + [n.cache[0]]
          && e.Offer? && e.msg.qos > 0
          && (n.sends[e.ctx].Some? || !n.connected)
          && Step(n, e).cache == n.cache[1..] + [e.msg])
  {
  }

  /** The messages above QoS 0 among those offered. */
  function Reliable(events: seq<Event>): nat
    decreases |events|
  {
    if events == [] then 0
    else
      var e := events[|events| - 1];
      Reliable(events[..|events| - 1]) + (if e.Offer? && e.msg.qos > 0 then 1 else 0)
  }

  lemma StepCaches(n: Node, e: Event)
    requires Inv(n) && n.capacity > 0
    ensures |n.cache| <= |n.log.cached|
    ensures |Step(n, e).log.cached| <= |n.log.cached| + (if e.Offer? && e.msg.qos > 0 then 1 else 0)
  {
  }

  /** Nothing is lost from the cache in a run that offers no more messages above
      QoS 0 than the cache can hold, however the callbacks interleave. */
  lemma {:induction false} NothingEvicted(capacity: nat, contexts: nat, events: seq<Event>)
    requires capacity > 0
    ensures |Run(Fresh(capacity, contexts), events).log.cached| <= Reliable(events)
    ensures Reliable(events) <= capacity ==> Run(Fresh(capacity, contexts), events).log.evicted == []
    decreases |events|
  {
    if events != [] {
      var before, e := events[..|events| - 1], events[|events| - 1];
      NothingEvicted(capacity, contexts, before);
      RunKeeps(capacity, contexts, before);
      var n := Run(Fresh(capacity, contexts), before);
      StepCaches(n, e);
      EvictsOnlyOldestOfFull(n, e);
    }
  }

  /** After any run that ends with a completion the cache is empty or a resend is under
      way. */
  lemma CallbackResumesResending(capacity: nat, contexts: nat, events: seq<Event>, e: Event)
    requires capacity > 0
    requires var n := Run(Fresh(capacity, contexts), events);
      (e.ResendDone? && n.resend.Some?) || (e.SendDone? && e.ctx < |n.sends| && n.sends[e.ctx].Some?)
    ensures var r := Run(Fresh(capacity, contexts), events + [e]); r.cache == [] || r.resend.Some?
  {
    RunKeeps(capacity, contexts, events);
    RunSnoc(Fresh(capacity, contexts), events, e);
  }

  /** With no further publishes, as many resend completions as there are cached
      messages resend exactly these, in order, and one more leaves the node idle. */
  lemma {:induction false} ResendsDrainCache(n: Node, events: seq<Event>)
    requires Inv(n) && n.capacity > 0 && n.busy
    requires |events| == |n.cache| + 1
    requires forall i :: 0 <= i < |events| ==> events[i] == ResendDone
    ensures var r := Run(n, events);
      r.log.resent == n.log.resent + n.cache && r.cache == [] && !r.busy
  {
    ResendsInOrder(n, events[..|n.cache|]);
  }

  lemma {:induction false} ResendsInOrder(n: Node, events: seq<Event>)
    requires Inv(n) && n.capacity > 0 && n.busy
    requires |events| <= |n.cache|
    requires forall i :: 0 <= i < |events| ==> events[i] == ResendDone
    ensures var r := Run(n, events);
      r.log.resent == n.log.resent + n.cache[..|events|] && r.cache == n.cache[|events|..] && r.busy && r.resend.Some?
    decreases |events|
  {
    var k := |events|;
    if k > 0 {
      ResendsInOrder(n, events[..k - 1]);
      assert n.cache[k - 1..][1..] == n.cache[k..];
      assert n.cache[..k] == n.cache[..k - 1] + [n.cache[k - 1]];
    }
  }

  // What a publish turns into

  function AddAffixes(f: Forward, topic: string): string {
    (if f.prefix.Some? then f.prefix.value else "") + topic + (if f.suffix.Some? then f.suffix.value else "")
  }

  function ForwardedBy(t: Topics, f: Forward, p: Publish): Publish {
    var topic := if f.remoteTopic != "" then t.rewrite(f, p.topic) else p.topic;
    Publish(AddAffixes(f, topic), p.payload, p.dup,
            if f.qos.Some? then f.qos.value else p.qos,
            if f.retain.Some? then f.retain.value else p.retain)
  }

  /** The messages that a publish is forwarded as, in the order of the forwards list. */
  function Forwarded(t: Topics, fs: seq<Forward>, p: Publish): seq<Publish> {
    if fs == [] then []
    else
      var f := fs[|fs| - 1];
      Forwarded(t, fs[..|fs| - 1], p) + (if t.matches(f.localTopic, p.topic) then [ForwardedBy(t, f, p)] else [])
  }

  predicate IsSystemTopic(topic: string) {
    |topic| > 4 && topic[..4] == "$SYS"
  }

  /** The topics that are never forwarded are "$SYS" with something behind it. */
  lemma SystemTopicIff(topic: string)
    ensures IsSystemTopic(topic) <==> exists rest: string :: rest != "" && topic == "$SYS" + rest
  {
    if IsSystemTopic(topic) {
      assert topic == "$SYS" + topic[4..];
    }
  }

  /** An entry that forwards as it is changes nothing; one with affixes and overrides puts
      the prefix in front and the suffix behind, and replaces QoS and retain. */
  lemma ForwardedFields(t: Topics, p: Publish, local: string, a: string, b: string, qos: nat, retain: nat)
    ensures ForwardedBy(t, Forward(local, "", None, None, None, None), p) == p
    ensures ForwardedBy(t, Forward(local, "", Some(a), Some(b), Some(retain), Some(qos)), p) ==
      Publish(a + p.topic + b, p.payload, p.dup, qos, retain)
    ensures forall remote: string :: remote != "" ==>
      var f := Forward(local, remote, Some(a), Some(b), None, None);
      ForwardedBy(t, f, p) == Publish(a + t.rewrite(f, p.topic) + b, p.payload, p.dup, p.qos, p.retain)
  {
    assert "" + p.topic + "" == p.topic;
  }

  /** Forwarding follows the forwards list: entry by entry, matching entries only. */
  lemma {:induction false} ForwardedAppend(t: Topics, fs: seq<Forward>, gs: seq<Forward>, p: Publish)
    ensures Forwarded(t, fs + gs, p) == Forwarded(t, fs, p) + Forwarded(t, gs, p)
    decreases |gs|
  {
    if gs == [] {
      assert fs + gs == fs;
      assert Forwarded(t, fs, p) + [] == Forwarded(t, fs, p);
    } else {
      var k, f := |gs| - 1, gs[|gs| - 1];
      ForwardedAppend(t, fs, gs[..k], p);
      assert (fs + gs)[..|fs| + k] == fs + gs[..k] && (fs + gs)[|fs| + k] == f;
      var more := if t.matches(f.localTopic, p.topic) then [ForwardedBy(t, f, p)] else [];
      AppendAssoc(Forwarded(t, fs, p), Forwarded(t, gs[..k], p), more);
    }
  }

  lemma AppendAssoc(a: seq<Publish>, b: seq<Publish>, c: seq<Publish>)
    ensures (a + b) + c == a + (b + c)
  {
  }

  lemma ForwardedOne(t: Topics, f: Forward, p: Publish)
    ensures Forwarded(t, [f], p) == if t.matches(f.localTopic, p.topic) then [ForwardedBy(t, f, p)] else []
  {
    assert [f][..0] == [];
  }

  function Offers(ctx: nat, ms: seq<Publish>): seq<Event> {
    seq(|ms|, i requires 0 <= i < |ms| => Offer(ctx, ms[i]))
  }

  /** The messages with, or without, a QoS above 0. */
  function OfQos(ms: seq<Publish>, reliable: bool): seq<Publish> {
    if ms == [] then []
    else
      var k := |ms| - 1;
      OfQos(ms[..k], reliable) + (if (ms[k].qos > 0) == reliable then [ms[k]] else [])
  }

  /** Of a publish to a connected node whose context aio is idle, the first forwarded
      message is sent at once and all others find the aio busy: those with QoS 0 are
      dropped and those above are cached, in order. */
  lemma {:induction false} OnlyFirstIsSentDirectly(n: Node, ctx: nat, ms: seq<Publish>)
    requires n.capacity > 0 && ctx < |n.sends| && ms != []
    requires n.connected && n.sends[ctx].None?
    ensures var r := Run(n, Offers(ctx, ms));
      && r.log.direct == n.log.direct + [ms[0]] && r.sends == n.sends[ctx := Some(ms[0])] && r.connected
      && r.log.dropped == n.log.dropped + OfQos(ms[1..], false)
      && r.log.cached == n.log.cached + OfQos(ms[1..], true)
    decreases |ms|
  {
    var k := |ms| - 1;
    if k > 0 {
      OnlyFirstIsSentDirectly(n, ctx, ms[..k]);
      OfQosSnoc(ms, true);
      OfQosSnoc(ms, false);
      RunOffersSnoc(n, ctx, ms);
      OfferToBusy(Run(n, Offers(ctx, ms[..k])), ctx, ms[k]);
    } else {
      assert ms[1..] == [] && Offers(ctx, ms) == [Offer(ctx, ms[0])];
      RunSnoc(n, [], Offer(ctx, ms[0]));
    }
  }

  lemma OfQosSnoc(ms: seq<Publish>, reliable: bool)
    requires |ms| > 1
    ensures var k := |ms| - 1;
      OfQos(ms[1..], reliable) ==
        OfQos(ms[..k][1..], reliable) + (if (ms[k].qos > 0) == reliable then [ms[k]] else [])
  {
    var k := |ms| - 1;
    assert ms[1..][..k - 1] == ms[..k][1..] && ms[1..][k - 1] == ms[k];
  }

  lemma RunOffersSnoc(n: Node, ctx: nat, ms: seq<Publish>)
    requires n.capacity > 0 && ms != []
    ensures var k := |ms| - 1;
      Run(n, Offers(ctx, ms)) == Step(Run(n, Offers(ctx, ms[..k])), Offer(ctx, ms[k]))
  {
    var k := |ms| - 1;
    assert ms == ms[..k] + [ms[k]];
    OffersSnoc(ctx, ms[..k], ms[k]);
    RunSnoc(n, Offers(ctx, ms[..k]), Offer(ctx, ms[k]));
  }

  lemma OfferToBusy(n: Node, ctx: nat, m: Publish)
    requires n.capacity > 0 && ctx < |n.sends| && n.sends[ctx].Some?
    ensures var r := OfferTo(n, ctx, m);
      && r.log.direct == n.log.direct && r.sends == n.sends && r.connected == n.connected
      && r.log.dropped == n.log.dropped + (if m.qos == 0 then [m] else [])
      && r.log.cached == n.log.cached + (if m.qos > 0 then [m] else [])
  {
  }

  // The node as the callbacks update it

  class BridgeNode {
    const topics: Topics
    const forwards: seq<Forward>
    const capacity: nat
    var enable: bool
    var connected: bool
    var busy: bool
    var resendAio: Option<Publish>
    var bridgeAio: seq<Option<Publish>>
    var ctxMsgs: seq<Publish>
    ghost var log: Log

    ghost predicate Valid()
      reads this
    {
      0 < capacity && |ctxMsgs| <= capacity
    }

    /** The node as a value. It starts as a fresh node and every method below moves
        it by steps, so the invariant holds of it throughout. */
    ghost function View(): Node
      reads this
    {
      Node(capacity, connected, busy, resendAio, bridgeAio, ctxMsgs, log)
    }

    constructor (topics: Topics, forwards: seq<Forward>, capacity: nat, contexts: nat)
      requires capacity > 0
      ensures Valid() && View() == Fresh(capacity, contexts)
    {
      this.topics := topics;
      this.forwards := forwards;
      this.capacity := capacity;
      enable := true;
      connected := false;
      busy := false;
      resendAio := None;
      bridgeAio := seq(contexts, _ => None);
      ctxMsgs := [];
      log := Log([], [], [], [], [], [], [], [], []);
    }

    method LmqGet() returns (m: Option<Publish>)
      modifies this`ctxMsgs
      ensures old(ctxMsgs) == [] ==> m == None && ctxMsgs == []
      ensures old(ctxMsgs) != [] ==> m == Some(old(ctxMsgs)[0]) && ctxMsgs == old(ctxMsgs)[1..]
    {
      if ctxMsgs == [] {
        m := None;
      } else {
        m := Some(ctxMsgs[0]);
        ctxMsgs := ctxMsgs[1..];
      }
    }

    method LmqPut(m: Publish) returns (rv: int)
      modifies this`ctxMsgs
      ensures old(|ctxMsgs|) < capacity ==> rv == 0 && ctxMsgs == old(ctxMsgs) + [m]
      ensures old(|ctxMsgs|) >= capacity ==> rv != 0 && ctxMsgs == old(ctxMsgs)
    {
      if |ctxMsgs| < capacity {
        ctxMsgs := ctxMsgs + [m];
        rv := 0;
      } else {
        rv := -1;
      }
    }

    /** Caching, with the oldest message given up for room. The failing put is never
        reached: room has just been made. */
    method CacheMsg(m: Publish)
      requires capacity > 0 && |ctxMsgs| <= capacity
      modifies this`ctxMsgs
      ensures ctxMsgs == (if old(|ctxMsgs|) == capacity then old(ctxMsgs)[1..] else old(ctxMsgs)) + [m]
    {
      if |ctxMsgs| >= capacity {
        var _ := LmqGet();
      }
      var rv := LmqPut(m);
      assert rv == 0;
    }

    /** The decision of bridge_pub_handler for one forwarded message. */
    method Place(ctx: nat, m: Publish)
      requires 0 < capacity && |ctxMsgs| <= capacity && ctx < |bridgeAio|
      modifies this`ctxMsgs, this`bridgeAio
      ensures ctxMsgs == OfferTo(old(View()), ctx, m).cache
      ensures bridgeAio == OfferTo(old(View()), ctx, m).sends
    {
      if bridgeAio[ctx].Some? || !connected {
        if m.qos == 0 {
        } else {
          CacheMsg(m);
        }
      } else {
        bridgeAio := bridgeAio[ctx := Some(m)];
      }
    }

    method OfferMsg(ctx: nat, m: Publish)
      requires Valid() && ctx < |bridgeAio|
      modifies this
      ensures Valid() && View() == OfferTo(old(View()), ctx, m)
      ensures enable == old(enable)
    {
      OfferFrame(View(), ctx, m);
      ghost var next := OfferTo(View(), ctx, m);
      Place(ctx, m);
      log := next.log;
    }

    /** bridge_pub_handler for one node. */
    method PubHandler(ctx: nat, p: Publish)
      requires Valid() && ctx < |bridgeAio|
      modifies this
      ensures Valid()
      ensures View() == Run(old(View()), Offers(ctx,
        if IsSystemTopic(p.topic) || !enable then [] else Forwarded(topics, forwards, p)))
    {
      if |p.topic| > 4 && p.topic[..4] == "$SYS" {
        return;
      }
      if enable {
        assert Offers(ctx, Forwarded(topics, [], p)) == [];
        for i := 0 to |forwards|
          invariant Valid() && ctx < |bridgeAio| && enable == old(enable)
          invariant View() == Run(old(View()), Offers(ctx, Forwarded(topics, forwards[..i], p)))
        {
          var f := forwards[i];
          ghost var before := Forwarded(topics, forwards[..i], p);
          assert forwards[..i + 1][..i] == forwards[..i];
          if topics.matches(f.localTopic, p.topic) {
            var m := Compose(f, p);
            OffersSnoc(ctx, before, m);
            RunSnoc(old(View()), Offers(ctx, before), Offer(ctx, m));
            OfferMsg(ctx, m);
          } else {
            assert Forwarded(topics, forwards[..i + 1], p) == before;
          }
        }
        assert forwards[..|forwards|] == forwards;
      }
    }

    /** Topic rewriting, affixes and the overrides of a forwards entry. */
    method Compose(f: Forward, p: Publish) returns (m: Publish)
      ensures m == ForwardedBy(topics, f, p)
    {
      var topic := p.topic;
      if |f.remoteTopic| != 0 {
        topic := topics.rewrite(f, topic);
      }
      ghost var inner := topic;
      if f.prefix.Some? {
        topic := f.prefix.value + topic;
      }
      if f.suffix.Some? {
        topic := topic + f.suffix.value;
      }
      assert topic == AddAffixes(f, inner);
      var retain := if f.retain.None? then p.retain else f.retain.value;
      var qos := if f.qos.None? then p.qos else f.qos.value;
      m := Publish(topic, p.payload, p.dup, qos, retain);
    }

    /** bridge_send_cb, run when the aio of a context completes. */
    method SendCb(ctx: nat)
      requires Valid() && ctx < |bridgeAio| && bridgeAio[ctx].Some?
      modifies this
      ensures Valid() && View() == Step(old(View()), SendDone(ctx))
    {
      ghost var next := Step(View(), SendDone(ctx));
      bridgeAio := bridgeAio[ctx := None];
      if !busy {
        var m := LmqGet();
        if m.Some? {
          resendAio := m;
          busy := true;
        }
      }
      log := next.log;
    }

    /** bridge_resend_cb, run when the resend aio completes. */
    method ResendCb()
      requires Valid() && resendAio.Some?
      modifies this
      ensures Valid() && View() == Step(old(View()), ResendDone)
    {
      ghost var next := Step(View(), ResendDone);
      resendAio := None;
      busy := false;
      var m := LmqGet();
      if m.Some? {
        resendAio := m;
        busy := true;
      } else {
        busy := false;
      }
      log := next.log;
    }

    /** The connect and disconnect callbacks. */
    method SetConnected(up: bool)
      requires Valid()
      modifies this
      ensures Valid() && View() == Step(old(View()), Connection(up))
    {
      connected := up;
    }
  }

  lemma OfferFrame(n: Node, ctx: nat, m: Publish)
    requires n.capacity > 0 && ctx < |n.sends| && |n.cache| <= n.capacity
    ensures var r := OfferTo(n, ctx, m);
      && r.capacity == n.capacity && r.connected == n.connected && r.busy == n.busy
      && r.resend == n.resend && |r.cache| <= n.capacity
  {
  }

  lemma OffersSnoc(ctx: nat, ms: seq<Publish>, m: Publish)
    ensures Offers(ctx, ms + [m]) == Offers(ctx, ms) + [Offer(ctx, m)]
    ensures Offers(ctx, ms + [m])[..|ms|] == Offers(ctx, ms)
  {
  }
}
