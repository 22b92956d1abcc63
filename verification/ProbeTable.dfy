/** The slot array of the bounded-probe hash table, as a value: which entries it
    stores, where a key may sit, and how one slot update changes both. */
module ProbeTable {
  import opened Arith

  type Key = seq<Byte>
  type Value = x: int | 0 <= x < TWO_32
  type Hash = Key -> nat

  datatype Slot = Slot(key: Key, value: Value, inUse: bool)

  /** A slot as `calloc` and `memset` leave it. */
  const BLANK := Slot([], 0, false)

  /** Number of slots probed for one key (HASHMAP_MAX_CHAIN_LENGTH). */
  const MAX_CHAIN: nat := 8

  /** The i-th slot probed for a key in a table of n slots; probes wrap around. */
  function Probe(hash: Hash, key: Key, n: nat, i: nat): (p: nat)
    requires n > 0
    ensures p < n
  {
    (hash(key) % n + i) % n
  }

  /** The slot after p, wrapping around. */
  function Next(p: nat, n: nat): (q: nat)
    requires p < n
    ensures q < n
  {
    if p + 1 == n then 0 else p + 1
  }

  /** The step of every probing loop. */
  method Advance(p: nat, n: nat) returns (q: nat)
    requires p < n
    ensures q == Next(p, n)
  {
    q := (p + 1) % n;
    DivModUnique(p + 1, n, if p + 1 == n then 1 else 0, Next(p, n));
  }

  lemma NextProbe(hash: Hash, key: Key, n: nat, i: nat)
    requires n > 0
    ensures Next(Probe(hash, key, n, i), n) == Probe(hash, key, n, i + 1)
  {
    var p := Probe(hash, key, n, i);
    ModStep(hash(key) % n + i, n);
    DivModUnique(p + 1, n, if p + 1 == n then 1 else 0, Next(p, n));
  }

  lemma FirstProbe(hash: Hash, key: Key, n: nat)
    requires n > 0
    ensures Probe(hash, key, n, 0) == hash(key) % n
  {
    DivModUnique(hash(key) % n, n, 0, hash(key) % n);
  }

  ghost predicate InWindow(hash: Hash, key: Key, n: nat, p: nat)
    requires n > 0
  {
    exists i: nat :: i < MAX_CHAIN && Probe(hash, key, n, i) == p
  }

  /** Every stored key sits within its probe window. */
  ghost predicate Placed(hash: Hash, s: seq<Slot>) {
    forall p :: 0 <= p < |s| && s[p].inUse ==> InWindow(hash, s[p].key, |s|, p)
  }

  ghost predicate Unique(s: seq<Slot>) {
    forall p, q :: 0 <= p < q < |s| && s[p].inUse && s[q].inUse ==> s[p].key != s[q].key
  }

  function CountInUse(s: seq<Slot>): (c: nat)
    ensures c <= |s|
  {
    if s == [] then 0
    else CountInUse(s[..|s| - 1]) + (if s[|s| - 1].inUse then 1 else 0)
  }

  /** The finite map a table stores. */
  ghost function Entries(s: seq<Slot>): map<Key, Value> {
    if s == [] then map[]
    else
      var m := Entries(s[..|s| - 1]);
      var e := s[|s| - 1];
      if e.inUse then m[e.key := e.value] else m
  }

  ghost predicate Holds(s: seq<Slot>, k: Key, p: int) {
    0 <= p < |s| && s[p].inUse && s[p].key == k
  }

  /** Every in-use slot agrees with m, and every key of m has its slot. */
  ghost predicate Represents(s: seq<Slot>, m: map<Key, Value>) {
    && (forall p :: 0 <= p < |s| && s[p].inUse ==> s[p].key in m && m[s[p].key] == s[p].value)
    && (forall k :: k in m ==> exists p :: Holds(s, k, p))
  }

  lemma RepresentsExtend(s: seq<Slot>, m: map<Key, Value>)
    requires s != [] && Unique(s)
    requires Represents(s[..|s| - 1], m)
    ensures var e := s[|s| - 1]; Represents(s, if e.inUse then m[e.key := e.value] else m)
    ensures s[|s| - 1].inUse ==> s[|s| - 1].key !in m
  {
    var t, e := s[..|s| - 1], s[|s| - 1];
    var m' := if e.inUse then m[e.key := e.value] else m;
    forall p ensures e.inUse ==> !Holds(t, e.key, p) {
      assert 0 <= p < |t| ==> t[p] == s[p];
    }
    forall p | 0 <= p < |s| && s[p].inUse ensures s[p].key in m' && m'[s[p].key] == s[p].value {
      if p < |t| {
        assert t[p] == s[p];
      }
    }
    forall k | k in m' ensures exists p :: Holds(s, k, p) {
      if k in m {
        var p :| Holds(t, k, p);
        assert Holds(s, k, p);
      } else {
        assert Holds(s, k, |s| - 1);
      }
    }
  }

  /** With unique keys, the stored map is exactly what the in-use slots say and
      it has as many entries as there are in-use slots. */
  lemma {:induction false} EntriesAreSlots(s: seq<Slot>)
    requires Unique(s)
    ensures Represents(s, Entries(s))
    ensures |Entries(s)| == CountInUse(s)
  {
    if s != [] {
      var t := s[..|s| - 1];
      EntriesAreSlots(t);
      RepresentsExtend(s, Entries(t));
    }
  }

  /** A table represents one map only. */
  lemma RepresentsOne(s: seq<Slot>, m: map<Key, Value>, m': map<Key, Value>)
    requires Represents(s, m) && Represents(s, m')
    ensures m == m'
  {
    forall k | k in m ensures k in m' && m'[k] == m[k] {
      var p :| Holds(s, k, p);
      assert s[p].inUse;
    }
    forall k | k in m' ensures k in m {
      var p :| Holds(s, k, p);
      assert s[p].inUse;
    }
  }

  lemma {:induction false} CountUpdate(s: seq<Slot>, p: nat, e: Slot)
    requires p < |s|
    ensures CountInUse(s[p := e]) == CountInUse(s) - (if s[p].inUse then 1 else 0) + (if e.inUse then 1 else 0)
  {
    var t := s[..|s| - 1];
    if p < |s| - 1 {
      assert s[p := e][..|s| - 1] == t[p := e];
      CountUpdate(t, p, e);
    } else {
      assert s[p := e][..|s| - 1] == t;
    }
  }

  lemma {:induction false} BlankTable(s: seq<Slot>)
    requires forall p :: 0 <= p < |s| ==> !s[p].inUse
    ensures Entries(s) == map[] && CountInUse(s) == 0
  {
    if s != [] {
      BlankTable(s[..|s| - 1]);
    }
  }

  /** A table with a count below its length has a free slot, and conversely. */
  lemma {:induction false} FullIffAllInUse(s: seq<Slot>)
    ensures CountInUse(s) == |s| <==> forall p :: 0 <= p < |s| ==> s[p].inUse
  {
    if s != [] {
      var t := s[..|s| - 1];
      FullIffAllInUse(t);
      assert forall p :: 0 <= p < |t| ==> t[p] == s[p];
    }
  }

  /** Storing a pair in a slot that is free, for an absent key, or that already
      holds the key, is a map update. */
  lemma StoreSlot(hash: Hash, s: seq<Slot>, p: nat, k: Key, v: Value)
    requires Unique(s) && Placed(hash, s)
    requires p < |s| && InWindow(hash, k, |s|, p)
    requires if s[p].inUse then s[p].key == k else k !in Entries(s)
    ensures Unique(s[p := Slot(k, v, true)]) && Placed(hash, s[p := Slot(k, v, true)])
    ensures Entries(s[p := Slot(k, v, true)]) == Entries(s)[k := v]
  {
    var t := s[p := Slot(k, v, true)];
    EntriesAreSlots(s);
    forall q | 0 <= q < |s| && q != p && s[q].inUse ensures s[q].key != k {
      assert s[q].key in Entries(s);
    }
    assert Unique(t);
    var m := Entries(s)[k := v];
    forall x | x in m ensures exists q :: Holds(t, x, q) {
      if x == k {
        assert Holds(t, x, p);
      } else {
        var q :| Holds(s, x, q);
        assert Holds(t, x, q);
      }
    }
    EntriesAreSlots(t);
    RepresentsOne(t, m, Entries(t));
  }

  lemma RepresentsErase(s: seq<Slot>, m: map<Key, Value>, p: nat)
    requires Unique(s) && Represents(s, m)
    requires p < |s| && s[p].inUse
    ensures Represents(s[p := BLANK], m - {s[p].key})
  {
    var t, k := s[p := BLANK], s[p].key;
    forall q | 0 <= q < |t| && t[q].inUse ensures t[q].key in m - {k} && m[t[q].key] == t[q].value {
      assert t[q] == s[q] && q != p;
    }
    forall x | x in m - {k} ensures exists q :: Holds(t, x, q) {
      var q :| Holds(s, x, q);
      assert Holds(t, x, q);
    }
  }

  /** Blanking the slot of a key removes exactly that key. */
  lemma EraseSlot(hash: Hash, s: seq<Slot>, p: nat)
    requires Unique(s) && Placed(hash, s)
    requires p < |s| && s[p].inUse
    ensures Unique(s[p := BLANK]) && Placed(hash, s[p := BLANK])
    ensures s[p].key in Entries(s) && Entries(s)[s[p].key] == s[p].value
    ensures Entries(s[p := BLANK]) == Entries(s) - {s[p].key}
  {
    EntriesAreSlots(s);
    RepresentsErase(s, Entries(s), p);
    EntriesAreSlots(s[p := BLANK]);
    RepresentsOne(s[p := BLANK], Entries(s) - {s[p].key}, Entries(s[p := BLANK]));
  }

  /** A slot of the window that holds the key gives its value. */
  lemma FoundInWindow(s: seq<Slot>, k: Key, p: nat)
    requires Unique(s) && Holds(s, k, p)
    ensures k in Entries(s) && Entries(s)[k] == s[p].value
  {
    EntriesAreSlots(s);
  }

  /** A stored key is found by looking at its window alone, although removals
      leave no tombstones. */
  lemma WindowDecides(hash: Hash, s: seq<Slot>, k: Key)
    requires |s| > 0 && Unique(s) && Placed(hash, s)
    ensures k in Entries(s) <==> exists i: nat :: i < MAX_CHAIN && Holds(s, k, Probe(hash, k, |s|, i))
  {
    EntriesAreSlots(s);
    if k in Entries(s) {
      var p :| Holds(s, k, p);
      assert InWindow(hash, k, |s|, p);
    }
  }
}
