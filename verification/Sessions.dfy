/** Subscriptions are kept twice: in the topic tree, from topics to pipes, and in a
    hash from each pipe to its list of topics. Both are containers of the storage
    library: the tree a set of (topic, pipe) pairs, the hash a map to lists where
    inserting appends and deleting removes the first occurrence. */
module Sessions {
  type Topic = string
  type Pipe = nat

  datatype Store = Store(tree: set<(Topic, Pipe)>, lists: map<Pipe, seq<Topic>>)

  const EMPTY := Store({}, map[])

  datatype Event =
    | Preset(pipe: Pipe, topics: seq<Topic>)
    | Subscribe(pipe: Pipe, topic: Topic)
    | Unsubscribe(pipe: Pipe, topic: Topic)
    | Disconnect(pipe: Pipe)

  function ListOf(s: Store, p: Pipe): seq<Topic> {
    if p in s.lists then s.lists[p] else []
  }

  /** Removes the first occurrence. */
  function Without(ts: seq<Topic>, t: Topic): seq<Topic> {
    if ts == [] then [] else if ts[0] == t then ts[1..] else [ts[0]] + Without(ts[1..], t)
  }

  // Steps

  function Insert(s: Store, p: Pipe, t: Topic): Store {
    Store(s.tree + {(t, p)}, s.lists[p := ListOf(s, p) + [t]])
  }

  function OnSubscribe(s: Store, p: Pipe, t: Topic): Store {
    if t in ListOf(s, p) then s else Insert(s, p, t)
  }

  function OnUnsubscribe(s: Store, p: Pipe, t: Topic): Store {
    Store(s.tree - {(t, p)}, if p in s.lists then s.lists[p := Without(s.lists[p], t)] else s.lists)
  }

  function InsertAll(s: Store, p: Pipe, ts: seq<Topic>): Store {
    if ts == [] then s else Insert(InsertAll(s, p, ts[..|ts| - 1]), p, ts[|ts| - 1])
  }

  function Pairs(ts: seq<Topic>, p: Pipe): set<(Topic, Pipe)> {
    set t | t in ts :: (t, p)
  }

  function OnDisconnect(s: Store, p: Pipe): Store {
    if p in s.lists then Store(s.tree - Pairs(s.lists[p], p), s.lists - {p}) else s
  }

  function Step(s: Store, e: Event): Store {
    match e
    case Preset(p, ts) => InsertAll(s, p, ts)
    case Subscribe(p, t) => OnSubscribe(s, p, t)
    case Unsubscribe(p, t) => OnUnsubscribe(s, p, t)
    case Disconnect(p) => OnDisconnect(s, p)
  }

  function Run(s: Store, events: seq<Event>): Store
    decreases |events|
  {
    if events == [] then s else Step(Run(s, events[..|events| - 1]), events[|events| - 1])
  }

  // Invariants

  ghost predicate NoDup(ts: seq<Topic>) {
    forall i, j :: 0 <= i < j < |ts| ==> ts[i] != ts[j]
  }

  /** A pipe is in the tree under a topic exactly when the topic is in its list. */
  ghost predicate Inverse(s: Store) {
    forall t: Topic, p: Pipe :: (t, p) in s.tree <==> t in ListOf(s, p)
  }

  ghost predicate DupFree(s: Store) {
    forall p :: p in s.lists ==> NoDup(s.lists[p])
  }

  /** The half that every run keeps: the tree names only what is listed. */
  ghost predicate Covered(s: Store) {
    forall t: Topic, p: Pipe :: (t, p) in s.tree ==> t in ListOf(s, p)
  }

  lemma {:induction false} WithoutMembers(ts: seq<Topic>, t: Topic, u: Topic)
    ensures u != t ==> (u in Without(ts, t) <==> u in ts)
    ensures u in Without(ts, t) ==> u in ts
    ensures |Without(ts, t)| <= |ts|
  {
    if ts != [] {
      WithoutMembers(ts[1..], t, u);
      assert ts == [ts[0]] + ts[1..];
    }
  }

  lemma {:induction false} WithoutNoDup(ts: seq<Topic>, t: Topic)
    requires NoDup(ts)
    ensures t !in Without(ts, t) && NoDup(Without(ts, t))
  {
    if ts != [] {
      var rest := ts[1..];
      WithoutNoDup(rest, t);
      if ts[0] != t {
        WithoutMembers(rest, t, ts[0]);
        forall i, j | 0 <= i < j < |Without(ts, t)| ensures Without(ts, t)[i] != Without(ts, t)[j] {
          if i == 0 {
            assert Without(ts, t)[j] in Without(rest, t);
          }
        }
      } else {
        forall i | 0 <= i < |rest| ensures rest[i] != t {
          assert rest[i] == ts[i + 1];
        }
      }
    }
  }

  lemma ListOfInsert(s: Store, p: Pipe, t: Topic, q: Pipe)
    ensures ListOf(Insert(s, p, t), q) == if q == p then ListOf(s, p) + [t] else ListOf(s, q)
  {
  }

  lemma InsertKeepsInverse(s: Store, p: Pipe, t: Topic)
    requires Inverse(s)
    ensures Inverse(Insert(s, p, t))
  {
    var r := Insert(s, p, t);
    forall u: Topic, q: Pipe ensures (u, q) in r.tree <==> u in ListOf(r, q) {
      ListOfInsert(s, p, t, q);
      assert (u, q) in s.tree <==> u in ListOf(s, q);
    }
  }

  lemma InsertDupFreeIff(s: Store, p: Pipe, t: Topic)
    requires DupFree(s)
    ensures DupFree(Insert(s, p, t)) <==> t !in ListOf(s, p)
  {
    var r := Insert(s, p, t);
    var was := ListOf(s, p);
    assert NoDup(was);
    if t in was {
      var i :| 0 <= i < |was| && was[i] == t;
      assert r.lists[p][i] == r.lists[p][|was|];
    } else {
      forall q | q in r.lists ensures NoDup(r.lists[q]) {
        if q == p {
          forall i, j | 0 <= i < j < |r.lists[p]| ensures r.lists[p][i] != r.lists[p][j] {
            assert r.lists[p][i] in was;
          }
        }
      }
    }
  }

  lemma UnsubscribeKeeps(s: Store, p: Pipe, t: Topic)
    requires Inverse(s) && DupFree(s)
    ensures Inverse(OnUnsubscribe(s, p, t)) && DupFree(OnUnsubscribe(s, p, t))
  {
    var r := OnUnsubscribe(s, p, t);
    if p in s.lists {
      WithoutNoDup(s.lists[p], t);
    }
    forall u: Topic, q: Pipe ensures (u, q) in r.tree <==> u in ListOf(r, q) {
      WithoutMembers(ListOf(s, p), t, u);
      assert (u, q) in s.tree <==> u in ListOf(s, q);
    }
  }

  lemma {:induction false} WithoutOne(ts: seq<Topic>, t: Topic)
    ensures t in Without(ts, t) <==> multiset(ts)[t] > 1
  {
    if ts != [] {
      assert ts == [ts[0]] + ts[1..];
      WithoutOne(ts[1..], t);
    }
  }

  /** An unsubscribe keeps tree and lists inverse exactly when the topic is listed at most
      once. */
  lemma UnsubscribeKeepsIff(s: Store, p: Pipe, t: Topic)
    requires Inverse(s)
    ensures Inverse(OnUnsubscribe(s, p, t)) <==> multiset(ListOf(s, p))[t] <= 1
  {
    var r := OnUnsubscribe(s, p, t);
    WithoutOne(ListOf(s, p), t);
    assert ListOf(r, p) == Without(ListOf(s, p), t);
    if multiset(ListOf(s, p))[t] <= 1 {
      forall u: Topic, q: Pipe ensures (u, q) in r.tree <==> u in ListOf(r, q) {
        WithoutMembers(ListOf(s, p), t, u);
        assert (u, q) in s.tree <==> u in ListOf(s, q);
      }
    } else {
      assert (t, p) !in r.tree && t in ListOf(r, p);
    }
  }

  lemma {:induction false} InsertAllKeepsInverse(s: Store, p: Pipe, ts: seq<Topic>)
    requires Inverse(s)
    ensures Inverse(InsertAll(s, p, ts))
  {
    if ts != [] {
      InsertAllKeepsInverse(s, p, ts[..|ts| - 1]);
      InsertKeepsInverse(InsertAll(s, p, ts[..|ts| - 1]), p, ts[|ts| - 1]);
    }
  }

  lemma DisconnectKeepsInverse(s: Store, p: Pipe)
    requires Inverse(s)
    ensures Inverse(OnDisconnect(s, p))
  {
    var r := OnDisconnect(s, p);
    forall u: Topic, q: Pipe ensures (u, q) in r.tree <==> u in ListOf(r, q) {
      assert (u, q) in s.tree <==> u in ListOf(s, q);
    }
  }

  /** The event does not unsubscribe a topic that is listed twice. */
  predicate Harmless(s: Store, e: Event) {
    e.Unsubscribe? ==> multiset(ListOf(s, e.pipe))[e.topic] <= 1
  }

  /** No event of the run unsubscribes a topic that is listed twice at that time. */
  predicate AlwaysHarmless(events: seq<Event>)
    decreases |events|
  {
    events == [] ||
    (AlwaysHarmless(events[..|events| - 1]) && Harmless(Run(EMPTY, events[..|events| - 1]), events[|events| - 1]))
  }

  /** Tree and lists are inverse after every prefix of the run. */
  ghost predicate AlwaysInverse(events: seq<Event>)
    decreases |events|
  {
    Inverse(Run(EMPTY, events)) && (events == [] || AlwaysInverse(events[..|events| - 1]))
  }

  /** Tree and lists are inverse throughout a run, preset sessions of any kind included,
      exactly when it never unsubscribes a topic that is listed twice. */
  lemma {:induction false} AlwaysInverseIff(events: seq<Event>)
    ensures AlwaysInverse(events) <==> AlwaysHarmless(events)
    decreases |events|
  {
    if events != [] {
      var before, e := events[..|events| - 1], events[|events| - 1];
      AlwaysInverseIff(before);
      if AlwaysInverse(before) {
        StepInverseIff(Run(EMPTY, before), e);
      }
    }
  }

  /** The event subscribes the pipe to the topic. */
  predicate Adds(e: Event, p: Pipe, t: Topic) {
    e == Subscribe(p, t) || (e.Preset? && e.pipe == p && t in e.topics)
  }

  /** The event ends the subscription. */
  predicate Removes(e: Event, p: Pipe, t: Topic) {
    e == Unsubscribe(p, t) || e == Disconnect(p)
  }

  /** Event k subscribes the pipe to the topic, and nothing behind it ends that. */
  ghost predicate Subscribed(events: seq<Event>, p: Pipe, t: Topic, k: int) {
    && 0 <= k < |events| && Adds(events[k], p, t)
    && forall i :: k < i < |events| ==> !Removes(events[i], p, t)
  }

  lemma {:induction false} InsertAllAdds(s: Store, p: Pipe, ts: seq<Topic>, t: Topic, q: Pipe)
    ensures (t, q) in InsertAll(s, p, ts).tree <==> (t, q) in s.tree || (q == p && t in ts)
  {
    if ts != [] {
      InsertAllAdds(s, p, ts[..|ts| - 1], t, q);
      assert ts == ts[..|ts| - 1] + [ts[|ts| - 1]];
    }
  }

  /** What one event does to one entry of the tree. */
  lemma StepEntry(s: Store, e: Event, p: Pipe, t: Topic)
    requires Inverse(s)
    ensures (t, p) in Step(s, e).tree <==> Adds(e, p, t) || ((t, p) in s.tree && !Removes(e, p, t))
  {
    assert (t, p) in s.tree <==> t in ListOf(s, p);
    match e
    case Preset(q, ts) => InsertAllAdds(s, q, ts, t, p);
    case Subscribe(q, u) => assert (u, q) in s.tree <==> u in ListOf(s, q);
    case _ =>
  }

  lemma SubscribedSnoc(events: seq<Event>, p: Pipe, t: Topic)
    requires events != []
    ensures var n := |events| - 1;
      (exists k :: Subscribed(events, p, t, k)) <==>
        Adds(events[n], p, t)
        || ((exists k :: Subscribed(events[..n], p, t, k)) && !Removes(events[n], p, t))
  {
    var n := |events| - 1;
    var before := events[..n];
    if Adds(events[n], p, t) {
      assert Subscribed(events, p, t, n);
    }
    if k :| Subscribed(events, p, t, k) {
      if k < n {
        assert before[k] == events[k];
        assert forall i :: k < i < n ==> before[i] == events[i];
        assert Subscribed(before, p, t, k);
        assert !Removes(events[n], p, t);
      }
    }
    if !Removes(events[n], p, t) {
      if k :| Subscribed(before, p, t, k) {
        assert forall i :: k < i < n ==> before[i] == events[i];
        assert Subscribed(events, p, t, k);
      }
    }
  }

  /** The tree names a pipe under a topic exactly when the pipe subscribed to it, by a
      packet or a preset session, and has neither unsubscribed from it nor gone since; so
      no event about another topic or pipe matters. */
  lemma {:induction false} TreeHoldsSubscribed(events: seq<Event>, p: Pipe, t: Topic)
    requires AlwaysHarmless(events)
    ensures (t, p) in Run(EMPTY, events).tree <==> exists k :: Subscribed(events, p, t, k)
    ensures t in ListOf(Run(EMPTY, events), p) <==> exists k :: Subscribed(events, p, t, k)
    decreases |events|
  {
    AlwaysInverseIff(events);
    if events != [] {
      var n := |events| - 1;
      TreeHoldsSubscribed(events[..n], p, t);
      AlwaysInverseIff(events[..n]);
      StepEntry(Run(EMPTY, events[..n]), events[n], p, t);
      SubscribedSnoc(events, p, t);
    }
    assert (t, p) in Run(EMPTY, events).tree <==> t in ListOf(Run(EMPTY, events), p);
  }

  lemma StepInverseIff(s: Store, e: Event)
    requires Inverse(s)
    ensures Inverse(Step(s, e)) <==> Harmless(s, e)
  {
    match e
    case Preset(p, ts) => InsertAllKeepsInverse(s, p, ts);
    case Subscribe(p, t) => InsertKeepsInverse(s, p, t);
    case Unsubscribe(p, t) => UnsubscribeKeepsIff(s, p, t);
    case Disconnect(p) => DisconnectKeepsInverse(s, p);
  }

  lemma DisconnectKeeps(s: Store, p: Pipe)
    requires Inverse(s) && DupFree(s)
    ensures Inverse(OnDisconnect(s, p)) && DupFree(OnDisconnect(s, p))
  {
    var r := OnDisconnect(s, p);
    forall u: Topic, q: Pipe ensures (u, q) in r.tree <==> u in ListOf(r, q) {
      assert (u, q) in s.tree <==> u in ListOf(s, q);
    }
  }

  /** Loading a preset session keeps lists free of duplicates exactly when its topics
      are distinct and not listed yet. */
  lemma {:induction false} PresetKeepsIff(s: Store, p: Pipe, ts: seq<Topic>)
    requires Inverse(s) && DupFree(s)
    ensures Inverse(InsertAll(s, p, ts))
    ensures ListOf(InsertAll(s, p, ts), p) == ListOf(s, p) + ts
    ensures DupFree(InsertAll(s, p, ts)) <==> NoDup(ListOf(s, p) + ts)
  {
    if ts != [] {
      var k := |ts| - 1;
      var mid, t := InsertAll(s, p, ts[..k]), ts[k];
      PresetKeepsIff(s, p, ts[..k]);
      InsertKeepsInverse(mid, p, t);
      ListOfInsert(mid, p, t, p);
      assert ts == ts[..k] + [t];
      var all, front := ListOf(s, p) + ts, ListOf(s, p) + ts[..k];
      assert all == front + [t];
      if DupFree(mid) {
        InsertDupFreeIff(mid, p, t);
        NoDupSnoc(front, t);
      } else {
        NotDupFreeStays(mid, p, t);
        assert !NoDup(all) by { NoDupSnoc(front, t); }
      }
    } else {
      assert ListOf(s, p) + ts == ListOf(s, p);
    }
  }

  lemma NoDupSnoc(ts: seq<Topic>, t: Topic)
    ensures NoDup(ts + [t]) <==> NoDup(ts) && t !in ts
  {
    var all := ts + [t];
    if NoDup(all) {
      forall i | 0 <= i < |ts| ensures ts[i] != t {
        assert all[i] != all[|ts|];
      }
      forall i, j | 0 <= i < j < |ts| ensures ts[i] != ts[j] {
        assert all[i] != all[j];
      }
    }
  }

  lemma NotDupFreeStays(s: Store, p: Pipe, t: Topic)
    requires !DupFree(s)
    ensures !DupFree(Insert(s, p, t))
  {
    var q :| q in s.lists && !NoDup(s.lists[q]);
    if q == p {
      NoDupSnoc(s.lists[p], t);
    }
    assert !NoDup(Insert(s, p, t).lists[q]);
  }

  /** The presets of a run add distinct topics that the pipe does not list yet. */
  ghost predicate PresetsDistinct(events: seq<Event>) {
    forall k :: 0 <= k < |events| && events[k].Preset? ==>
      NoDup(ListOf(Run(EMPTY, events[..k]), events[k].pipe) + events[k].topics)
  }

  lemma PresetsDistinctPrefix(events: seq<Event>)
    requires events != [] && PresetsDistinct(events)
    ensures PresetsDistinct(events[..|events| - 1])
  {
    var init := events[..|events| - 1];
    forall k | 0 <= k < |init| && init[k].Preset?
      ensures NoDup(ListOf(Run(EMPTY, init[..k]), init[k].pipe) + init[k].topics)
    {
      assert init[..k] == events[..k] && init[k] == events[k];
    }
  }

  /** Over every run with distinct presets, tree and lists are exact inverses. */
  lemma {:induction false} RunKeepsInverse(events: seq<Event>)
    requires PresetsDistinct(events)
    ensures Inverse(Run(EMPTY, events)) && DupFree(Run(EMPTY, events))
    decreases |events|
  {
    if events != [] {
      PresetsDistinctPrefix(events);
      RunKeepsInverse(events[..|events| - 1]);
      var s, e := Run(EMPTY, events[..|events| - 1]), events[|events| - 1];
      match e
      case Preset(p, ts) => PresetKeepsIff(s, p, ts);
      case Subscribe(p, t) =>
        InsertKeepsInverse(s, p, t);
        InsertDupFreeIff(s, p, t);
      case Unsubscribe(p, t) => UnsubscribeKeeps(s, p, t);
      case Disconnect(p) => DisconnectKeeps(s, p);
    }
  }

  /** Runs with distinct presets are harmless. */
  lemma {:induction false} DistinctIsHarmless(events: seq<Event>)
    requires PresetsDistinct(events)
    ensures AlwaysInverse(events) && AlwaysHarmless(events)
    decreases |events|
  {
    RunKeepsInverse(events);
    if events != [] {
      PresetsDistinctPrefix(events);
      DistinctIsHarmless(events[..|events| - 1]);
    }
    AlwaysInverseIff(events);
  }

  lemma {:induction false} InsertAllCovered(s: Store, p: Pipe, ts: seq<Topic>)
    requires Covered(s)
    ensures Covered(InsertAll(s, p, ts))
  {
    if ts != [] {
      InsertAllCovered(s, p, ts[..|ts| - 1]);
      InsertCovered(InsertAll(s, p, ts[..|ts| - 1]), p, ts[|ts| - 1]);
    }
  }

  lemma InsertCovered(s: Store, p: Pipe, t: Topic)
    requires Covered(s)
    ensures Covered(Insert(s, p, t))
  {
    var r := Insert(s, p, t);
    forall u: Topic, q: Pipe | (u, q) in r.tree ensures u in ListOf(r, q) {
      ListOfInsert(s, p, t, q);
    }
  }

  lemma UnsubscribeCovered(s: Store, p: Pipe, t: Topic)
    requires Covered(s)
    ensures Covered(OnUnsubscribe(s, p, t))
  {
    var r := OnUnsubscribe(s, p, t);
    forall u: Topic, q: Pipe | (u, q) in r.tree ensures u in ListOf(r, q) {
      WithoutMembers(ListOf(s, p), t, u);
    }
  }

  lemma {:induction false} RunCovered(events: seq<Event>)
    ensures Covered(Run(EMPTY, events))
    decreases |events|
  {
    if events != [] {
      RunCovered(events[..|events| - 1]);
      var s, e := Run(EMPTY, events[..|events| - 1]), events[|events| - 1];
      match e
      case Preset(p, ts) => InsertAllCovered(s, p, ts);
      case Subscribe(p, t) => InsertCovered(s, p, t);
      case Unsubscribe(p, t) => UnsubscribeCovered(s, p, t);
      case Disconnect(p) =>
    }
  }

  /** After a disconnect no tree entry names the pipe, whatever happened before. */
  lemma DisconnectForgets(events: seq<Event>, p: Pipe, t: Topic)
    ensures (t, p) !in Run(EMPTY, events + [Disconnect(p)]).tree
    ensures p !in Run(EMPTY, events + [Disconnect(p)]).lists
  {
    RunCovered(events);
    assert (events + [Disconnect(p)])[..|events|] == events;
  }

  /** Why presets need distinct topics: with a repeated one, an unsubscribe leaves a
      stale list entry, and subscribing again does not reach the tree. */
  lemma RepeatedPreset(p: Pipe, t: Topic)
    ensures var s := InsertAll(EMPTY, p, [t, t]);
      var again := OnSubscribe(OnUnsubscribe(s, p, t), p, t);
      t in ListOf(again, p) && (t, p) !in again.tree
  {
    assert [t, t][..1] == [t] && [t][..0] == [];
    var one := InsertAll(EMPTY, p, [t]);
    assert one == Insert(InsertAll(EMPTY, p, []), p, t) && [] + [t] == [t];
    var s := InsertAll(EMPTY, p, [t, t]);
    assert s == Insert(one, p, t);
    assert s.lists[p] == [t, t];
    assert Without([t, t], t) == [t];
  }

  // The store as the handlers update it

  class SessionStore {
    var tree: set<(Topic, Pipe)>
    var hash: map<Pipe, seq<Topic>>

    ghost function View(): Store
      reads this
    {
      Store(tree, hash)
    }

    constructor ()
      ensures View() == EMPTY
    {
      tree, hash := {}, map[];
    }

    method HashInsert(p: Pipe, t: Topic)
      modifies this`hash
      ensures hash == old(hash)[p := ListOf(old(View()), p) + [t]]
    {
      if p in hash {
        hash := hash[p := hash[p] + [t]];
      } else {
        hash := hash[p := [t]];
        assert [] + [t] == [t];
      }
    }

    /** One filter of sub_ctx_handle: new topics go to the tree and to the list. */
    method SubscribeTopic(p: Pipe, t: Topic) returns (existed: bool)
      modifies this
      ensures existed <==> t in ListOf(old(View()), p)
      ensures View() == Step(old(View()), Subscribe(p, t))
    {
      existed := p in hash && t in hash[p];
      if !existed {
        tree := tree + {(t, p)};
        HashInsert(p, t);
      }
    }

    /** sub_ctx_del, as unsub_ctx_handle calls it. */
    method SubCtxDel(p: Pipe, t: Topic)
      modifies this
      ensures View() == Step(old(View()), Unsubscribe(p, t))
    {
      tree := tree - {(t, p)};
      if p in hash {
        hash := hash[p := Without(hash[p], t)];
      }
    }

    /** unsub_ctx_handle: empty topics are skipped. */
    method UnsubCtxHandle(p: Pipe, topics: seq<Topic>)
      modifies this
      ensures View() == Run(old(View()), Unsubscribes(p, topics))
    {
      for i := 0 to |topics|
        invariant View() == Run(old(View()), Unsubscribes(p, topics[..i]))
      {
        assert topics[..i + 1][..i] == topics[..i];
        ghost var es := Unsubscribes(p, topics[..i]);
        if |topics[i]| == 0 {
          assert es + [] == es;
        } else {
          SubCtxDel(p, topics[i]);
          assert (es + [Unsubscribe(p, topics[i])])[..|es|] == es;
        }
      }
      assert topics[..|topics|] == topics;
    }

    /** destroy_sub_client, guarded by dbhash_check_id as at its call. */
    method DestroySubClient(p: Pipe)
      modifies this
      ensures View() == Step(old(View()), Disconnect(p))
    {
      if p in hash {
        var list := hash[p];
        for i := 0 to |list|
          invariant hash == old(hash) && tree == old(tree) - Pairs(list[..i], p)
        {
          assert list[..i + 1] == list[..i] + [list[i]];
          assert Pairs(list[..i + 1], p) == Pairs(list[..i], p) + {(list[i], p)};
          tree := tree - {(list[i], p)};
        }
        assert list[..|list|] == list;
        hash := hash - {p};
      }
    }

    /** The topics of one preset session, loaded when the broker starts. */
    method LoadPreset(p: Pipe, topics: seq<Topic>)
      modifies this
      ensures View() == Step(old(View()), Preset(p, topics))
    {
      for i := 0 to |topics|
        invariant View() == InsertAll(old(View()), p, topics[..i])
      {
        assert topics[..i + 1][..i] == topics[..i];
        tree := tree + {(topics[i], p)};
        HashInsert(p, topics[i]);
      }
      assert topics[..|topics|] == topics;
    }
  }

  function Unsubscribes(p: Pipe, topics: seq<Topic>): seq<Event> {
    if topics == [] then []
    else
      var k := |topics| - 1;
      Unsubscribes(p, topics[..k]) + (if topics[k] == "" then [] else [Unsubscribe(p, topics[k])])
  }

  /** An UNSUBSCRIBE takes out of the tree exactly the entries of its pipe under its
      topics, other than an empty one. */
  lemma {:induction false} UnsubscribesRemove(s: Store, p: Pipe, topics: seq<Topic>, t: Topic, q: Pipe)
    ensures (t, q) in Run(s, Unsubscribes(p, topics)).tree <==>
      (t, q) in s.tree && !(q == p && t != "" && t in topics)
  {
    if topics != [] {
      var k := |topics| - 1;
      UnsubscribesRemove(s, p, topics[..k], t, q);
      InSnoc(topics, t);
      var es := Unsubscribes(p, topics[..k]);
      if topics[k] == "" {
        assert es + [] == es;
      } else {
        RunUnsubscribe(s, es, p, topics[k], t, q);
      }
    }
  }

  lemma InSnoc(ts: seq<Topic>, t: Topic)
    requires ts != []
    ensures t in ts <==> t in ts[..|ts| - 1] || t == ts[|ts| - 1]
  {
  }

  lemma RunUnsubscribe(s: Store, es: seq<Event>, p: Pipe, u: Topic, t: Topic, q: Pipe)
    ensures (t, q) in Run(s, es + [Unsubscribe(p, u)]).tree <==> (t, q) in Run(s, es).tree && !(q == p && t == u)
  {
    assert (es + [Unsubscribe(p, u)])[..|es|] == es;
  }
}
