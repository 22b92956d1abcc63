/** Retained messages: what the table holds after any history of publishes, and what
    one SUBSCRIBE collects from it. In-memory store only. */
module Retained {
  import opened Wrappers
  import opened Arith
  import opened Sessions

  /** The MQTT version of the publisher; `Unknown` is any other value. */
  datatype Version = V31 | V311 | V5 | Unknown

  /** A PUBLISH as handle_pub_retain sees it. `decodes`: the copy encoded for a
      client older than version 5 can be decoded again. */
  datatype Pub = Pub(topic: Topic, retain: bool, payload: seq<Byte>, version: Version, decodes: bool)

  datatype Msg = Msg(topic: Topic, payload: seq<Byte>, version: Version)

  type Table = map<Topic, Msg>

  function Copy(p: Pub): Msg {
    Msg(p.topic, p.payload, p.version)
  }

  predicate Lost(p: Pub) {
    p.payload != [] && (p.version == V311 || p.version == V31) && !p.decodes
  }

  // The table over every history of publishes

  function OnPublish(t: Table, p: Pub): Table {
    if !p.retain || Lost(p) then t
    else if p.payload == [] then t - {p.topic}
    else t[p.topic := Copy(p)]
  }

  function Run(t: Table, pubs: seq<Pub>): Table {
    if pubs == [] then t else OnPublish(Run(t, pubs[..|pubs| - 1]), pubs[|pubs| - 1])
  }

  /** k is the last retain-flagged publish to the topic whose copy was not lost. */
  ghost predicate IsLast(pubs: seq<Pub>, topic: Topic, k: int) {
    && 0 <= k < |pubs|
    && Counts(pubs[k], topic)
    && forall i :: k < i < |pubs| ==> !Counts(pubs[i], topic)
  }

  predicate Counts(p: Pub, topic: Topic) {
    p.retain && p.topic == topic && !Lost(p)
  }

  /** The table holds for a topic the last retain-flagged publish to it, and nothing
      when that one had an empty payload or there was none. */
  lemma {:induction false} TableHoldsLast(pubs: seq<Pub>, topic: Topic)
    ensures topic in Run(map[], pubs) <==> exists k :: IsLast(pubs, topic, k) && pubs[k].payload != []
    ensures forall k :: IsLast(pubs, topic, k) && pubs[k].payload != [] ==>
      topic in Run(map[], pubs) && Run(map[], pubs)[topic] == Copy(pubs[k])
  {
    if pubs != [] {
      var n := |pubs| - 1;
      var init, p := pubs[..n], pubs[n];
      TableHoldsLast(init, topic);
      if Counts(p, topic) {
        assert IsLast(pubs, topic, n);
        forall k | IsLast(pubs, topic, k) ensures k == n {
        }
      } else {
        forall k ensures IsLast(pubs, topic, k) <==> IsLast(init, topic, k) {
          LastOfPrefix(pubs, topic, k);
        }
        if topic in Run(map[], pubs) {
          var k :| IsLast(init, topic, k) && init[k].payload != [];
          assert IsLast(pubs, topic, k) && pubs[k].payload != [];
        }
      }
    }
  }

  /** k is the last retain-flagged publish to the topic, its copy lost or not. */
  ghost predicate IsLastFlagged(pubs: seq<Pub>, topic: Topic, k: int) {
    && 0 <= k < |pubs|
    && pubs[k].retain && pubs[k].topic == topic
    && forall i :: k < i < |pubs| ==> !(pubs[i].retain && pubs[i].topic == topic)
  }

  /** The table holds what the last retain-flagged publish asked for exactly when its
      copy was not lost, or the last copy that was not lost is the same. */
  lemma LastFlaggedIff(pubs: seq<Pub>, topic: Topic, k: int)
    requires IsLastFlagged(pubs, topic, k)
    ensures var t := Run(map[], pubs);
      (if pubs[k].payload == [] then topic !in t else topic in t && t[topic] == Copy(pubs[k])) <==>
        !Lost(pubs[k]) || exists j :: IsLast(pubs, topic, j) && Copy(pubs[j]) == Copy(pubs[k])
  {
    TableHoldsLast(pubs, topic);
    if !Lost(pubs[k]) {
      assert IsLast(pubs, topic, k);
      forall j | IsLast(pubs, topic, j) ensures j == k {
      }
    }
  }

  /** A message whose copy cannot be decoded leaves the one before it in the table. */
  lemma LostRetained(topic: Topic, first: seq<Byte>, second: seq<Byte>)
    requires first != [] && second != []
    ensures var a := Pub(topic, true, first, V311, true);
      var b := Pub(topic, true, second, V311, false);
      Run(map[], [a, b]) == map[topic := Msg(topic, first, V311)]
  {
    var a := Pub(topic, true, first, V311, true);
    var b := Pub(topic, true, second, V311, false);
    assert [a, b][..1] == [a] && [a][..0] == [];
    assert Run(map[], [a]) == map[topic := Copy(a)];
  }

  /** Only a publisher older than version 5 can lose a retained message. */
  lemma OnlyOldVersionsLose(t: Table, p: Pub)
    requires p.retain && p.payload != []
    ensures OnPublish(t, p) == t[p.topic := Msg(p.topic, p.payload, p.version)]
      || ((p.version == V31 || p.version == V311) && !p.decodes && OnPublish(t, p) == t)
  {
  }

  lemma LastOfPrefix(pubs: seq<Pub>, topic: Topic, k: int)
    requires pubs != [] && !Counts(pubs[|pubs| - 1], topic)
    ensures IsLast(pubs, topic, k) <==> IsLast(pubs[..|pubs| - 1], topic, k)
  {
    var init := pubs[..|pubs| - 1];
    assert forall i :: 0 <= i < |init| ==> init[i] == pubs[i];
    if IsLast(init, topic, k) {
      forall i | k < i < |pubs| ensures !Counts(pubs[i], topic) {
        if i < |init| {
          assert init[i] == pubs[i];
        }
      }
    }
    if IsLast(pubs, topic, k) {
      forall i | k < i < |init| ensures !Counts(init[i], topic) {
        assert init[i] == pubs[i];
      }
    }
  }

  class RetainTable {
    var table: Table
    ghost var inserted: nat
    ghost var freed: nat

    /** Every copy put into the table is still there or was freed, once. */
    ghost predicate Valid()
      reads this
    {
      inserted == |table| + freed
    }

    constructor ()
      ensures Valid() && table == map[]
    {
      table, inserted, freed := map[], 0, 0;
    }

    /** handle_pub_retain */
    method HandlePubRetain(p: Pub)
      requires Valid()
      modifies this
      ensures Valid()
      ensures table == OnPublish(old(table), p)
    {
      if p.retain {
        var oldRet: Option<Msg> := None;
        if |p.payload| > 0 {
          var ret := Msg(p.topic, p.payload, p.version);
          if p.version == V311 || p.version == V31 {
            if !p.decodes {
              return;
            }
          }
          if p.topic in table {
            oldRet := Some(table[p.topic]);
            assert table[p.topic := ret].Keys == table.Keys;
          } else {
            assert table[p.topic := ret].Keys == table.Keys + {p.topic};
          }
          assert |table[p.topic := ret]| == |table[p.topic := ret].Keys| && |table| == |table.Keys|;
          table := table[p.topic := ret];
          inserted := inserted + 1;
        } else {
          assert |table| == |table.Keys|;
          if p.topic in table {
            oldRet := Some(table[p.topic]);
            assert (table - {p.topic}).Keys == table.Keys - {p.topic};
          } else {
            assert (table - {p.topic}).Keys == table.Keys;
          }
          table := table - {p.topic};
          assert |table| == |table.Keys|;
        }
        if oldRet.Some? {
          freed := freed + 1;
        }
      }
    }
  }

  // Collection by one SUBSCRIBE

  /** The search for retained messages: NULL or a vector, in which entries may be NULL. */
  type Find = (Table, Topic) -> Option<seq<Option<Msg>>>

  /** One filter of the packet; a filter without a topic is skipped. */
  datatype Filter = Filter(topic: Option<Topic>, retainHandling: nat, permitted: bool)

  function NonNull(v: seq<Option<Msg>>): seq<Msg> {
    if v == [] then []
    else NonNull(v[..|v| - 1]) + (if v[|v| - 1].Some? then [v[|v| - 1].value] else [])
  }

  predicate Applies(f: Filter) {
    f.topic.Some? && f.permitted
  }

  function StoreAfter(s: Store, p: Pipe, fs: seq<Filter>): Store {
    if fs == [] then s
    else
      var k := |fs| - 1;
      var before := StoreAfter(s, p, fs[..k]);
      if Applies(fs[k]) then OnSubscribe(before, p, fs[k].topic.value) else before
  }

  /** Retain handling 0 always sends, 1 sends for a topic not subscribed before. */
  predicate Sends(s: Store, p: Pipe, f: Filter)
    requires f.topic.Some?
  {
    f.retainHandling == 0 || (f.retainHandling == 1 && f.topic.value !in ListOf(s, p))
  }

  function Matches(find: Find, t: Table, topic: Topic): seq<Msg> {
    var v := find(t, topic);
    if v.Some? then NonNull(v.value) else []
  }

  /** The matches of the permitted filters that ask for retained messages, in order.
      A filter counts as subscribed before also when it is repeated in the packet. */
  function Collected(find: Find, t: Table, s: Store, p: Pipe, fs: seq<Filter>): seq<Msg> {
    if fs == [] then []
    else
      var k := |fs| - 1;
      var f := fs[k];
      Collected(find, t, s, p, fs[..k]) +
      (if Applies(f) && Sends(StoreAfter(s, p, fs[..k]), p, f) then Matches(find, t, f.topic.value) else [])
  }

  // What a packet collects, from its filters alone

  /** A permitted filter among the first k has the topic. */
  predicate Asked(fs: seq<Filter>, k: nat, t: Topic)
    requires k <= |fs|
  {
    exists j :: 0 <= j < k && fs[j].permitted && fs[j].topic == Some(t)
  }

  /** Filter k wants retained messages: always with retain handling 0; with 1 when the
      pipe did not list the topic before the packet and no filter before asks for it;
      never with 2. */
  predicate Wants(known: seq<Topic>, fs: seq<Filter>, k: nat)
    requires k < |fs|
  {
    && fs[k].permitted && fs[k].topic.Some?
    && (|| fs[k].retainHandling == 0
        || (fs[k].retainHandling == 1 && fs[k].topic.value !in known && !Asked(fs, k, fs[k].topic.value)))
  }

  /** The matches of the first k filters that want them, in order. */
  function Wanted(find: Find, t: Table, known: seq<Topic>, fs: seq<Filter>, k: nat): seq<Msg>
    requires k <= |fs|
  {
    if k == 0 then []
    else
      Wanted(find, t, known, fs, k - 1) +
      (if Wants(known, fs, k - 1) then Matches(find, t, fs[k - 1].topic.value) else [])
  }

  /** The topics of the first k filters that are new to the pipe, in order. */
  function NewTopics(known: seq<Topic>, fs: seq<Filter>, k: nat): seq<Topic>
    requires k <= |fs|
  {
    if k == 0 then []
    else
      NewTopics(known, fs, k - 1) +
      (if fs[k - 1].permitted && fs[k - 1].topic.Some? && fs[k - 1].topic.value !in known
          && !Asked(fs, k - 1, fs[k - 1].topic.value)
       then [fs[k - 1].topic.value] else [])
  }

  lemma {:induction false} NewTopicsAre(known: seq<Topic>, fs: seq<Filter>, k: nat, t: Topic)
    requires k <= |fs|
    ensures t in NewTopics(known, fs, k) <==> t !in known && Asked(fs, k, t)
  {
    if k > 0 {
      NewTopicsAre(known, fs, k - 1, t);
      AskedNext(fs, k - 1, t);
    }
  }

  lemma AskedNext(fs: seq<Filter>, k: nat, t: Topic)
    requires k < |fs|
    ensures Asked(fs, k + 1, t) <==> Asked(fs, k, t) || (fs[k].permitted && fs[k].topic == Some(t))
  {
  }

  /** The pipe's list after a packet is its list before, followed by the new topics; the
      lists of other pipes stay, and the tree gains exactly the new topics. */
  lemma {:induction false} StoreAfterIs(s: Store, p: Pipe, fs: seq<Filter>, k: nat)
    requires k <= |fs|
    ensures ListOf(StoreAfter(s, p, fs[..k]), p) == ListOf(s, p) + NewTopics(ListOf(s, p), fs, k)
    ensures forall q: Pipe :: q != p ==> ListOf(StoreAfter(s, p, fs[..k]), q) == ListOf(s, q)
    ensures StoreAfter(s, p, fs[..k]).tree == s.tree + Pairs(NewTopics(ListOf(s, p), fs, k), p)
  {
    if k > 0 {
      StoreAfterIs(s, p, fs, k - 1);
      assert fs[..k][..k - 1] == fs[..k - 1] && fs[..k][k - 1] == fs[k - 1];
      if Applies(fs[k - 1]) {
        StoreAfterOne(StoreAfter(s, p, fs[..k - 1]), s, p, fs, k - 1);
      }
    }
  }

  lemma StoreAfterOne(m: Store, s: Store, p: Pipe, fs: seq<Filter>, k: nat)
    requires k < |fs| && Applies(fs[k])
    requires ListOf(m, p) == ListOf(s, p) + NewTopics(ListOf(s, p), fs, k)
    requires forall q: Pipe :: q != p ==> ListOf(m, q) == ListOf(s, q)
    requires m.tree == s.tree + Pairs(NewTopics(ListOf(s, p), fs, k), p)
    ensures var r, t := OnSubscribe(m, p, fs[k].topic.value), fs[k].topic.value;
      && ListOf(r, p) == ListOf(s, p) + NewTopics(ListOf(s, p), fs, k + 1)
      && (forall q: Pipe :: q != p ==> ListOf(r, q) == ListOf(s, q))
      && r.tree == s.tree + Pairs(NewTopics(ListOf(s, p), fs, k + 1), p)
  {
    var known, t := ListOf(s, p), fs[k].topic.value;
    var before := NewTopics(known, fs, k);
    NewTopicsAre(known, fs, k, t);
    if t in ListOf(m, p) {
      assert NewTopics(known, fs, k + 1) == before + [];
      assert before + [] == before;
    } else {
      assert NewTopics(known, fs, k + 1) == before + [t];
      assert (known + before) + [t] == known + (before + [t]);
      assert Pairs(before + [t], p) == Pairs(before, p) + {(t, p)};
    }
  }

  /** What a packet collects are the matches of the filters that want them, in order. */
  lemma {:induction false} CollectedIs(find: Find, t: Table, s: Store, p: Pipe, fs: seq<Filter>, k: nat)
    requires k <= |fs|
    ensures Collected(find, t, s, p, fs[..k]) == Wanted(find, t, ListOf(s, p), fs, k)
  {
    if k > 0 {
      CollectedIs(find, t, s, p, fs, k - 1);
      StoreAfterIs(s, p, fs, k - 1);
      assert fs[..k][..k - 1] == fs[..k - 1] && fs[..k][k - 1] == fs[k - 1];
      if Applies(fs[k - 1]) {
        NewTopicsAre(ListOf(s, p), fs, k - 1, fs[k - 1].topic.value);
      }
    }
  }

  /** The filters of a packet that apply are subscriptions, one after the other. */
  lemma {:induction false} StoreAfterIsRun(s: Store, p: Pipe, fs: seq<Filter>)
    ensures StoreAfter(s, p, fs) == Sessions.Run(s, Subscribes(p, fs))
  {
    if fs != [] {
      var k := |fs| - 1;
      StoreAfterIsRun(s, p, fs[..k]);
      var es := Subscribes(p, fs[..k]);
      if Applies(fs[k]) {
        assert (es + [Subscribe(p, fs[k].topic.value)])[..|es|] == es;
      } else {
        assert es + [] == es;
      }
    }
  }

  function Subscribes(p: Pipe, fs: seq<Filter>): seq<Sessions.Event> {
    if fs == [] then []
    else
      var k := |fs| - 1;
      Subscribes(p, fs[..k]) + (if Applies(fs[k]) then [Subscribe(p, fs[k].topic.value)] else [])
  }

  /** A growable vector on the heap; `live` until it is freed or moved. */
  class Vector {
    var elems: seq<Option<Msg>>
    ghost var live: bool

    constructor (elems: seq<Option<Msg>>)
      ensures this.elems == elems && live
    {
      this.elems, live := elems, true;
    }

    /** cvector_push_back: the vector may move, and the old one is then dead. */
    method PushBack(x: Option<Msg>) returns (v: Vector)
      requires live
      modifies this
      ensures v.live && v.elems == old(elems) + [x]
      ensures v == this || fresh(v)
    {
      var room: bool := *;
      if room {
        elems := elems + [x];
        v := this;
      } else {
        v := new Vector(elems + [x]);
        live := false;
      }
    }

    method Free()
      requires live
      modifies this
      ensures !live
    {
      live := false;
    }
  }

  /** The messages of a vector that may be NULL. */
  ghost function Held(v: Vector?): seq<Msg>
    reads v
  {
    if v == null then [] else NonNull(v.elems)
  }

  lemma NonNullSnoc(v: seq<Option<Msg>>, x: Option<Msg>)
    ensures NonNull(v + [x]) == NonNull(v) + (if x.Some? then [x.value] else [])
  {
    assert (v + [x])[..|v|] == v;
  }

  lemma SnocAssoc(a: seq<Msg>, b: seq<Msg>, x: Msg)
    ensures (a + b) + [x] == a + (b + [x])
  {
  }

  /** Appends the entries of one vector that are not NULL to another one. */
  method AppendAll(target: Vector, source: Vector) returns (v: Vector)
    requires target != source && target.live && source.live
    modifies target
    ensures v != source && v.live && source.live
    ensures v == target || fresh(v)
    ensures Held(v) == old(Held(target)) + Held(source)
    ensures source.elems == old(source.elems)
  {
    v := target;
    ghost var elems := source.elems;
    assert elems[..0] == [];
    for i := 0 to |source.elems|
      invariant source.elems == elems && source.live
      invariant v != source && v.live && (v == target || fresh(v))
      invariant NonNull(v.elems) == old(NonNull(target.elems)) + NonNull(elems[..i])
    {
      assert elems[..i + 1] == elems[..i] + [elems[i]];
      NonNullSnoc(elems[..i], elems[i]);
      if source.elems[i].Some? {
        NonNullSnoc(v.elems, elems[i]);
        SnocAssoc(old(NonNull(target.elems)), NonNull(elems[..i]), elems[i].value);
        v := v.PushBack(source.elems[i]);
      }
    }
    assert elems[..|elems|] == elems;
  }

  /** sub_ctx_handle. `find` searches the retained table; `rejected` is the verdict of
      HTTP authentication on the whole packet. The vector found for one filter may
      become the result itself: it is then neither appended to itself nor freed. */
  method SubCtxHandle(store: SessionStore, find: Find, table: Table, p: Pipe, fs: seq<Filter>, rejected: bool)
    returns (msgRet: Vector?)
    modifies store
    ensures var applied := if rejected then [] else fs;
      && store.View() == StoreAfter(old(store.View()), p, applied)
      && Held(msgRet) == Wanted(find, table, ListOf(old(store.View()), p), applied, |applied|)
    ensures msgRet != null ==> fresh(msgRet) && msgRet.live
  {
    msgRet := null;
    var retain: Vector? := null;
    if rejected {
      return;
    }
    ghost var s := store.View();
    for i := 0 to |fs|
      invariant store.View() == StoreAfter(s, p, fs[..i])
      invariant Held(msgRet) == Collected(find, table, s, p, fs[..i])
      invariant msgRet != null ==> fresh(msgRet) && msgRet.live
      invariant retain == null || retain == msgRet
    {
      var f := fs[i];
      assert fs[..i + 1][..i] == fs[..i];
      if f.topic.Some? && f.permitted {
        var existed := store.SubscribeTopic(p, f.topic.value);
        if f.retainHandling == 0 || (f.retainHandling == 1 && !existed) {
          retain := FindRetain(find, table, f.topic.value);
        }
        msgRet, retain := Merge(msgRet, retain);
      }
    }
    assert fs[..|fs|] == fs;
    CollectedIs(find, table, s, p, fs, |fs|);
  }

  method FindRetain(find: Find, table: Table, topic: Topic) returns (v: Vector?)
    ensures Held(v) == Matches(find, table, topic)
    ensures v != null ==> fresh(v) && v.live
  {
    var found := find(table, topic);
    if found.Some? {
      v := new Vector(found.value);
    } else {
      v := null;
    }
  }

  /** The end of one round of sub_ctx_handle: `retain` is NULL, the result itself, or
      a vector just found. */
  method Merge(msgRet: Vector?, retain: Vector?) returns (result: Vector?, left: Vector?)
    requires msgRet != null ==> msgRet.live
    requires retain != null ==> retain.live
    modifies msgRet, retain
    ensures result != null ==> result.live && (result == msgRet || result == retain || fresh(result))
    ensures left == null || left == result
    ensures Held(result) == (if retain == msgRet then old(Held(msgRet)) else old(Held(msgRet)) + old(Held(retain)))
  {
    result, left := if msgRet == null then retain else msgRet, retain;
    if retain != null && result != retain {
      result := AppendAll(result, retain);
    }
    if left != result {
      if left != null {
        left.Free();
      }
      left := null;
    }
  }
}
