/** Topic aliases of MQTT 5.0: a PUBLISH with a topic and an alias binds the alias,
    one with an alias alone is resolved through the binding of its own pipe. */
module TopicAlias {
  import opened Wrappers

  /** A decoded PUBLISH on its way through handle_pub, or the end of a connection.
      An empty topic stands for an absent one. `authOk` and `aclOk` are the verdicts
      of HTTP authentication and of the access control list. */
  datatype Event =
    | Publish(pipe: nat, v5: bool, topic: string, alias: Option<nat>, authOk: bool, aclOk: bool)
    | Disconnect(pipe: nat)

  datatype Reason = NotAuthorized | TopicAliasInvalid | ProtocolError | TopicFilterInvalid | Denied

  datatype Outcome = Resolved(topic: string) | Rejected(reason: Reason)

  type Table = map<(nat, nat), string>

  predicate InRange(alias: nat, max: nat) {
    0 < alias <= max
  }

  /** The topic that a publish stands for, before access control. */
  function Resolve(t: Table, max: nat, e: Event): Outcome
    requires e.Publish?
  {
    if !e.authOk then Rejected(NotAuthorized)
    else if e.v5 && e.alias.Some? then
      if !InRange(e.alias.value, max) then Rejected(TopicAliasInvalid)
      else if e.topic != "" then Resolved(e.topic)
      else if (e.pipe, e.alias.value) in t then Resolved(t[(e.pipe, e.alias.value)])
      else Rejected(TopicAliasInvalid)
    else if e.topic == "" then Rejected(if e.v5 then ProtocolError else TopicFilterInvalid)
    else Resolved(e.topic)
  }

  function Handle(t: Table, max: nat, e: Event): Outcome
    requires e.Publish?
  {
    var r := Resolve(t, max, e);
    if r.Resolved? && !e.aclOk then Rejected(Denied) else r
  }

  /** The publish binds the alias on its pipe. Access control has no say in this: the
      binding is made before it is asked. */
  predicate Sets(e: Event, max: nat, pipe: nat, alias: nat) {
    && e.Publish? && e.pipe == pipe && e.v5 && e.alias == Some(alias)
    && e.authOk && InRange(alias, max) && e.topic != ""
  }

  function Step(t: Table, max: nat, e: Event): Table {
    match e
    case Publish(pipe, _, topic, alias, _, _) =>
      if alias.Some? && Sets(e, max, pipe, alias.value) then t[(pipe, alias.value) := topic] else t
    case Disconnect(pipe) => map k | k in t && k.0 != pipe :: t[k]
  }

  function Run(max: nat, history: seq<Event>): Table {
    if history == [] then map[]
    else Step(Run(max, history[..|history| - 1]), max, history[|history| - 1])
  }

  /** Event k is the latest to bind the alias on the pipe, and the pipe has not been
      disconnected since. */
  ghost predicate IsLatest(h: seq<Event>, max: nat, pipe: nat, alias: nat, k: int) {
    && 0 <= k < |h|
    && Sets(h[k], max, pipe, alias)
    && forall i :: k < i < |h| ==> !Sets(h[i], max, pipe, alias) && h[i] != Disconnect(pipe)
  }

  lemma LatestOfPrefix(h: seq<Event>, max: nat, pipe: nat, alias: nat, k: int)
    requires h != [] && k != |h| - 1
    ensures IsLatest(h, max, pipe, alias, k) <==>
      && IsLatest(h[..|h| - 1], max, pipe, alias, k)
      && !Sets(h[|h| - 1], max, pipe, alias) && h[|h| - 1] != Disconnect(pipe)
  {
    var init := h[..|h| - 1];
    assert forall i :: 0 <= i < |init| ==> init[i] == h[i];
    if IsLatest(h, max, pipe, alias, k) {
      forall i | k < i < |init| ensures !Sets(init[i], max, pipe, alias) && init[i] != Disconnect(pipe) {
        assert init[i] == h[i];
      }
    }
    if IsLatest(init, max, pipe, alias, k) && !Sets(h[|h| - 1], max, pipe, alias) && h[|h| - 1] != Disconnect(pipe) {
      forall i | k < i < |h| ensures !Sets(h[i], max, pipe, alias) && h[i] != Disconnect(pipe) {
        assert i < |init| ==> init[i] == h[i];
      }
    }
  }

  /** The table holds, for each pipe and alias, the topic of the latest binding since
      the pipe's last disconnect, and nothing else; aliases are in range. */
  lemma {:induction false} TableHoldsLatest(h: seq<Event>, max: nat, pipe: nat, alias: nat)
    ensures (pipe, alias) in Run(max, h) <==> exists k :: IsLatest(h, max, pipe, alias, k)
    ensures forall k :: IsLatest(h, max, pipe, alias, k) ==>
      (pipe, alias) in Run(max, h) && Run(max, h)[(pipe, alias)] == h[k].topic
    ensures (pipe, alias) in Run(max, h) ==> InRange(alias, max) && Run(max, h)[(pipe, alias)] != ""
  {
    if h != [] {
      var n := |h| - 1;
      TableHoldsLatest(h[..n], max, pipe, alias);
      forall k | k != n ensures IsLatest(h, max, pipe, alias, k) <==>
        IsLatest(h[..n], max, pipe, alias, k) && !Sets(h[n], max, pipe, alias) && h[n] != Disconnect(pipe)
      {
        LatestOfPrefix(h, max, pipe, alias, k);
      }
      if Sets(h[n], max, pipe, alias) {
        assert IsLatest(h, max, pipe, alias, n);
      } else if h[n] != Disconnect(pipe) {
        KeepsOthers(Run(max, h[..n]), max, h[n], pipe, alias);
        if (pipe, alias) in Run(max, h) {
          var k :| IsLatest(h[..n], max, pipe, alias, k);
          assert IsLatest(h, max, pipe, alias, k);
        }
      }
    }
  }

  lemma KeepsOthers(t: Table, max: nat, e: Event, pipe: nat, alias: nat)
    requires !Sets(e, max, pipe, alias) && e != Disconnect(pipe)
    ensures (pipe, alias) in Step(t, max, e) <==> (pipe, alias) in t
    ensures (pipe, alias) in t ==> Step(t, max, e)[(pipe, alias)] == t[(pipe, alias)]
  {
  }

  /** A publish that carries an alias and no topic. */
  predicate AliasOnly(e: Event) {
    e.Publish? && e.v5 && e.topic == "" && e.alias.Some? && e.authOk
  }

  /** After any history, a publish that carries an alias alone stands for the topic of
      the latest binding on its own pipe since that pipe's last disconnect; it is
      rejected exactly when there is none or when access control refuses that topic. */
  lemma {:induction false} AliasOnlyPublish(h: seq<Event>, max: nat, e: Event)
    requires AliasOnly(e)
    ensures forall k :: IsLatest(h, max, e.pipe, e.alias.value, k) ==>
      Handle(Run(max, h), max, e) == if e.aclOk then Resolved(h[k].topic) else Rejected(Denied)
    ensures !(exists k :: IsLatest(h, max, e.pipe, e.alias.value, k)) ==>
      Handle(Run(max, h), max, e) == Rejected(TopicAliasInvalid)
  {
    TableHoldsLatest(h, max, e.pipe, e.alias.value);
  }

  /** A publish with a topic stands for that topic, whatever was bound before; one with
      neither topic nor alias is rejected, with the reason of its version. */
  lemma TopicPublish(t: Table, max: nat, e: Event)
    requires e.Publish? && e.authOk && (e.v5 && e.alias.Some? ==> 0 < e.alias.value <= max)
    ensures e.topic != "" ==> Handle(t, max, e) == if e.aclOk then Resolved(e.topic) else Rejected(Denied)
    ensures e.topic == "" && !(e.v5 && e.alias.Some?) ==>
      Handle(t, max, e) == Rejected(if e.v5 then ProtocolError else TopicFilterInvalid)
  {
  }

  /** Nothing is bound by a publish that is not authenticated, is of an older version,
      carries no alias or carries no topic. */
  lemma NoBinding(t: Table, max: nat, e: Event)
    requires e.Publish? && (!e.authOk || !e.v5 || e.alias.None? || e.topic == "")
    ensures Step(t, max, e) == t && (!e.authOk ==> Handle(t, max, e) == Rejected(NotAuthorized))
  {
  }

  /** An alias outside 1 to the maximum is refused before anything is bound. */
  lemma AliasOutOfRange(t: Table, max: nat, e: Event)
    requires e.Publish? && e.authOk && e.v5 && e.alias.Some? && (e.alias.value == 0 || e.alias.value > max)
    ensures Handle(t, max, e) == Rejected(TopicAliasInvalid) && Step(t, max, e) == t
  {
  }

  // Bindings made by publishes that access control refuses

  /** The event without its alias if it is a publish that access control refuses. */
  function Unbound(e: Event): Event {
    if e.Publish? && !e.aclOk then e.(alias := None) else e
  }

  /** The history in which refused publishes bind nothing. */
  function Accepted(h: seq<Event>): (r: seq<Event>)
    ensures |r| == |h| && forall i :: 0 <= i < |h| ==> r[i] == Unbound(h[i])
  {
    seq(|h|, i requires 0 <= i < |h| => Unbound(h[i]))
  }

  /** Event k is the latest accepted publish to bind the alias on the pipe, and the pipe
      has not been disconnected since. */
  ghost predicate IsLatestAccepted(h: seq<Event>, max: nat, pipe: nat, alias: nat, k: int) {
    && 0 <= k < |h|
    && Sets(h[k], max, pipe, alias) && h[k].aclOk
    && forall i :: k < i < |h| ==> !(Sets(h[i], max, pipe, alias) && h[i].aclOk) && h[i] != Disconnect(pipe)
  }

  lemma LatestOfAccepted(h: seq<Event>, max: nat, pipe: nat, alias: nat, k: int)
    ensures IsLatest(Accepted(h), max, pipe, alias, k) <==> IsLatestAccepted(h, max, pipe, alias, k)
  {
    var r := Accepted(h);
    forall i | 0 <= i < |h|
      ensures Sets(r[i], max, pipe, alias) <==> Sets(h[i], max, pipe, alias) && h[i].aclOk
      ensures r[i] == Disconnect(pipe) <==> h[i] == Disconnect(pipe)
    {
      assert r[i] == Unbound(h[i]);
    }
  }

  lemma LatestIsOne(h: seq<Event>, max: nat, pipe: nat, alias: nat, j: int, k: int)
    requires IsLatest(h, max, pipe, alias, j) && IsLatest(h, max, pipe, alias, k)
    ensures j == k
  {
  }

  /** The last binding since the disconnect, if there is one, was accepted or repeats
      the topic of the latest accepted one. */
  ghost predicate LastBindingIsSound(h: seq<Event>, max: nat, pipe: nat, alias: nat) {
    forall j :: IsLatest(h, max, pipe, alias, j) && !h[j].aclOk ==>
      exists k :: IsLatestAccepted(h, max, pipe, alias, k) && h[k].topic == h[j].topic
  }

  /** An alias stands for what it would stand for if refused publishes bound nothing,
      exactly when the last binding of it is sound. */
  lemma AcceptedBindingIff(h: seq<Event>, max: nat, e: Event)
    requires AliasOnly(e)
    ensures Resolve(Run(max, h), max, e) == Resolve(Run(max, Accepted(h)), max, e) <==>
      LastBindingIsSound(h, max, e.pipe, e.alias.value)
  {
    var r, p, a := Accepted(h), e.pipe, e.alias.value;
    TableHoldsLatest(h, max, p, a);
    TableHoldsLatest(r, max, p, a);
    forall k ensures IsLatest(r, max, p, a, k) <==> IsLatestAccepted(h, max, p, a, k) {
      LatestOfAccepted(h, max, p, a, k);
    }
    if j :| IsLatest(h, max, p, a, j) {
      forall i | IsLatest(h, max, p, a, i) ensures i == j {
        LatestIsOne(h, max, p, a, i, j);
      }
      if h[j].aclOk {
        assert IsLatestAccepted(h, max, p, a, j);
        assert r[j].topic == h[j].topic;
      } else if k :| IsLatestAccepted(h, max, p, a, k) {
        assert r[k].topic == h[k].topic;
        forall i | IsLatestAccepted(h, max, p, a, i) ensures i == k {
          LatestIsOne(r, max, p, a, i, k);
        }
      }
    } else if k :| IsLatestAccepted(h, max, p, a, k) {
      LatestExists(h, max, p, a, k);
    }
  }

  /** Behind any binding that no disconnect follows there is a latest one. */
  lemma {:induction false} LatestExists(h: seq<Event>, max: nat, pipe: nat, alias: nat, k: int)
    requires 0 <= k < |h| && Sets(h[k], max, pipe, alias)
    requires forall i :: k < i < |h| ==> h[i] != Disconnect(pipe)
    ensures exists j :: IsLatest(h, max, pipe, alias, j)
    decreases |h| - k
  {
    if i :| k < i < |h| && Sets(h[i], max, pipe, alias) {
      LatestExists(h, max, pipe, alias, i);
    } else {
      assert IsLatest(h, max, pipe, alias, k);
    }
  }

  /** A publish refused by access control takes an alias over from an accepted one. */
  lemma DeniedPublishBinds(max: nat, pipe: nat, first: string, second: string, alias: nat)
    requires InRange(alias, max) && first != "" && second != ""
    ensures var a := Publish(pipe, true, first, Some(alias), true, true);
      var b := Publish(pipe, true, second, Some(alias), true, false);
      && Handle(Run(max, []), max, a) == Resolved(first)
      && Handle(Run(max, [a]), max, b) == Rejected(Denied)
      && Handle(Run(max, [a, b]), max, Publish(pipe, true, "", Some(alias), true, true)) == Resolved(second)
  {
    var a := Publish(pipe, true, first, Some(alias), true, true);
    var b := Publish(pipe, true, second, Some(alias), true, false);
    assert [a, b][..1] == [a];
  }

  /** What one pipe does leaves the bindings of the others alone. */
  lemma {:induction false} PipesAreSeparate(h: seq<Event>, max: nat, pipe: nat, alias: nat)
    ensures var own := OfPipe(h, pipe);
      && ((pipe, alias) in Run(max, h) <==> (pipe, alias) in Run(max, own))
      && ((pipe, alias) in Run(max, h) ==> Run(max, h)[(pipe, alias)] == Run(max, own)[(pipe, alias)])
  {
    if h != [] {
      var n := |h| - 1;
      PipesAreSeparate(h[..n], max, pipe, alias);
      var own := OfPipe(h[..n], pipe);
      if h[n].pipe == pipe {
        assert OfPipe(h, pipe)[..|own|] == own;
      } else {
        assert OfPipe(h, pipe) == own;
        KeepsOthers(Run(max, h[..n]), max, h[n], pipe, alias);
      }
    }
  }

  function OfPipe(h: seq<Event>, pipe: nat): seq<Event> {
    if h == [] then []
    else OfPipe(h[..|h| - 1], pipe) + (if h[|h| - 1].pipe == pipe then [h[|h| - 1]] else [])
  }

  // The table as handle_pub and the disconnect event update it

  class AliasTable {
    const maxAlias: nat
    var pairs: Table

    constructor (maxAlias: nat)
      ensures this.maxAlias == maxAlias && pairs == Run(maxAlias, [])
    {
      this.maxAlias := maxAlias;
      pairs := map[];
    }

    /** The part of handle_pub between decoding and the search for receivers. */
    method HandlePub(e: Event) returns (outcome: Outcome)
      requires e.Publish?
      modifies this
      ensures outcome == Handle(old(pairs), maxAlias, e)
      ensures pairs == Step(old(pairs), maxAlias, e)
    {
      if !e.authOk {
        return Rejected(NotAuthorized);
      }
      var topic := e.topic;
      if e.v5 {
        if e.alias.Some? {
          var alias := e.alias.value;
          if alias == 0 || alias > maxAlias {
            return Rejected(TopicAliasInvalid);
          }
          if |topic| > 0 {
            pairs := pairs[(e.pipe, alias) := topic];
          } else if (e.pipe, alias) in pairs {
            topic := pairs[(e.pipe, alias)];
          } else {
            return Rejected(TopicAliasInvalid);
          }
        } else if |topic| == 0 {
          return Rejected(ProtocolError);
        }
      } else if |topic| == 0 {
        return Rejected(TopicFilterInvalid);
      }
      if !e.aclOk {
        return Rejected(Denied);
      }
      outcome := Resolved(topic);
    }

    /** dbhash_del_atpair_queue, called when a connection ends. */
    method DeleteQueue(pipe: nat)
      modifies this
      ensures pairs == Step(old(pairs), maxAlias, Disconnect(pipe))
    {
      pairs := map k | k in pairs && k.0 != pipe :: pairs[k];
    }
  }
}
