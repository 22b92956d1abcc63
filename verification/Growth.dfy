/** Putting into the bounded-probe table and growing it, as functions on slot arrays: what
    one put does, growths inside growths included.

    A put asks for larger and larger tables, each size at most once, so what the allocator
    answers during one put is a function of the size. */
module Growth {
  import opened Wrappers
  import opened Arith
  import opened ProbeTable

  /** Whether `calloc` grants a table of so many slots. */
  type Memory = nat -> bool

  datatype Outcome = Outcome(table: seq<Slot>, ok: bool)

  /** `stop`: the first slot that was not moved, or the number of slots. */
  datatype Moved = Moved(table: seq<Slot>, stop: nat)

  ghost predicate Sized(n: nat) {
    0 < n < TWO_32 && IsPow2(n)
  }

  ghost predicate Table(hash: Hash, s: seq<Slot>) {
    Sized(|s|) && Unique(s) && Placed(hash, s)
  }

  function Blanks(n: nat): (s: seq<Slot>)
    ensures |s| == n && forall p :: 0 <= p < n ==> s[p] == BLANK
  {
    seq(n, _ => BLANK)
  }

  lemma BlanksAreTable(hash: Hash, n: nat)
    requires Sized(n)
    ensures Table(hash, Blanks(n)) && Entries(Blanks(n)) == map[] && CountInUse(Blanks(n)) == 0
  {
    BlankTable(Blanks(n));
  }

  // The slot for a key

  /** The first probe from the i-th on that holds the key, or MAX_CHAIN. */
  ghost function FirstHolding(hash: Hash, s: seq<Slot>, k: Key, i: nat): (r: nat)
    requires |s| > 0 && i <= MAX_CHAIN
    ensures i <= r <= MAX_CHAIN
    decreases MAX_CHAIN - i
  {
    if i == MAX_CHAIN || Holds(s, k, Probe(hash, k, |s|, i)) then i else FirstHolding(hash, s, k, i + 1)
  }

  /** The first probe from the i-th on that is free, or MAX_CHAIN. */
  ghost function FirstFree(hash: Hash, s: seq<Slot>, k: Key, i: nat): (r: nat)
    requires |s| > 0 && i <= MAX_CHAIN
    ensures i <= r <= MAX_CHAIN
    decreases MAX_CHAIN - i
  {
    if i == MAX_CHAIN || !s[Probe(hash, k, |s|, i)].inUse then i else FirstFree(hash, s, k, i + 1)
  }

  lemma {:induction false} FirstHoldingIs(hash: Hash, s: seq<Slot>, k: Key, i: nat)
    requires |s| > 0 && i <= MAX_CHAIN
    ensures var r := FirstHolding(hash, s, k, i);
      && (r < MAX_CHAIN ==> Holds(s, k, Probe(hash, k, |s|, r)))
      && forall j: nat :: i <= j < r ==> !Holds(s, k, Probe(hash, k, |s|, j))
    decreases MAX_CHAIN - i
  {
    if i < MAX_CHAIN && !Holds(s, k, Probe(hash, k, |s|, i)) {
      FirstHoldingIs(hash, s, k, i + 1);
    }
  }

  lemma {:induction false} FirstFreeIs(hash: Hash, s: seq<Slot>, k: Key, i: nat)
    requires |s| > 0 && i <= MAX_CHAIN
    ensures var r := FirstFree(hash, s, k, i);
      && (r < MAX_CHAIN ==> !s[Probe(hash, k, |s|, r)].inUse)
      && forall j: nat :: i <= j < r ==> s[Probe(hash, k, |s|, j)].inUse
    decreases MAX_CHAIN - i
  {
    if i < MAX_CHAIN && s[Probe(hash, k, |s|, i)].inUse {
      FirstFreeIs(hash, s, k, i + 1);
    }
  }

  /** hashmap_hash_helper: the slot that holds the key, or else the first free one. */
  ghost function FindSlot(hash: Hash, s: seq<Slot>, k: Key): (r: Option<nat>)
    requires |s| > 0
    ensures r.Some? ==> r.value < |s|
  {
    var i, j := FirstHolding(hash, s, k, 0), FirstFree(hash, s, k, 0);
    if CountInUse(s) >= |s| then None
    else if i < MAX_CHAIN then Some(Probe(hash, k, |s|, i))
    else if j < MAX_CHAIN then Some(Probe(hash, k, |s|, j))
    else None
  }

  /** The slot is free or already holds the key. */
  ghost predicate Usable(s: seq<Slot>, key: Key, p: nat) {
    p < |s| && (!s[p].inUse || s[p].key == key)
  }

  /** The table is not full and the window of the key has a usable slot. */
  ghost predicate HasRoom(hash: Hash, s: seq<Slot>, k: Key)
    requires |s| > 0
  {
    CountInUse(s) < |s| && exists i: nat :: i < MAX_CHAIN && Usable(s, k, Probe(hash, k, |s|, i))
  }

  lemma FindSlotMeans(hash: Hash, s: seq<Slot>, k: Key)
    requires |s| > 0 && Unique(s) && Placed(hash, s)
    ensures var r := FindSlot(hash, s, k);
      && (r.Some? <==> HasRoom(hash, s, k))
      && (r.Some? ==> InWindow(hash, k, |s|, r.value))
      && (r.Some? ==> if s[r.value].inUse then s[r.value].key == k else k !in Entries(s))
  {
    var i, j := FirstHolding(hash, s, k, 0), FirstFree(hash, s, k, 0);
    FirstHoldingIs(hash, s, k, 0);
    FirstFreeIs(hash, s, k, 0);
    WindowDecides(hash, s, k);
    if i < MAX_CHAIN {
      assert Usable(s, k, Probe(hash, k, |s|, i));
    } else if j < MAX_CHAIN {
      assert Usable(s, k, Probe(hash, k, |s|, j));
    }
  }

  // Clearing

  /** s with its in-use slots below `stop` blanked; unused slots keep what they hold. */
  ghost function Cleared(s: seq<Slot>, stop: nat): (r: seq<Slot>)
    requires stop <= |s|
    ensures |r| == |s|
    ensures forall p :: 0 <= p < |s| ==> r[p] == if p < stop && s[p].inUse then BLANK else s[p]
  {
    seq(|s|, p requires 0 <= p < |s| => if p < stop && s[p].inUse then BLANK else s[p])
  }

  /** The slots from i on are untouched by the clearing of those below. */
  lemma ClearedNext(s: seq<Slot>, i: nat)
    requires i < |s|
    ensures Cleared(s, i)[i] == s[i]
    ensures Cleared(s, i + 1) == if s[i].inUse then Cleared(s, i)[i := BLANK] else Cleared(s, i)
  {
  }

  ghost predicate SubMap(m: map<Key, Value>, n: map<Key, Value>) {
    forall k :: k in m ==> k in n && n[k] == m[k]
  }

  lemma ClearedIsTable(hash: Hash, s: seq<Slot>, stop: nat)
    requires Table(hash, s) && stop <= |s|
    ensures Table(hash, Cleared(s, stop))
  {
    var t := Cleared(s, stop);
    forall p | 0 <= p < |t| && t[p].inUse ensures InWindow(hash, t[p].key, |t|, p) {
      assert t[p] == s[p];
    }
  }

  lemma ClearedIsSubMap(s: seq<Slot>, stop: nat)
    requires stop <= |s| && Unique(s) && Unique(Cleared(s, stop))
    ensures SubMap(Entries(Cleared(s, stop)), Entries(s))
  {
    var t := Cleared(s, stop);
    EntriesAreSlots(s);
    EntriesAreSlots(t);
    forall k | k in Entries(t) ensures k in Entries(s) && Entries(s)[k] == Entries(t)[k] {
      var p :| Holds(t, k, p);
      assert s[p] == t[p];
    }
  }

  // Putting and growing

  /** No table of twice n slots can be had. */
  predicate Refused(mem: Memory, n: nat) {
    2 * n % TWO_32 == 0 || !mem(2 * n % TWO_32)
  }

  /** hashmap_put */
  ghost function PutIn(hash: Hash, mem: Memory, s: seq<Slot>, k: Key, v: Value): (r: Outcome)
    requires Sized(|s|)
    ensures Sized(|r.table|) && |r.table| >= |s|
    decreases TWO_32 - |s|, 1, 0
  {
    var p := FindSlot(hash, s, k);
    if p.Some? then Outcome(s[p.value := Slot(k, v, true)], true)
    else
      var g := Grow(hash, mem, s);
      if g.ok then PutIn(hash, mem, g.table, k, v) else g
  }

  /** hashmap_rehash_helper */
  ghost function Grow(hash: Hash, mem: Memory, s: seq<Slot>): (r: Outcome)
    requires Sized(|s|)
    ensures Sized(|r.table|)
    ensures if r.ok then |r.table| >= 2 * |s| else |r.table| == |s|
    decreases TWO_32 - |s|, 0, 0
  {
    DoubleWraps(|s|);
    if Refused(mem, |s|) then Outcome(s, false)
    else
      var m := MoveAll(hash, mem, s, 0, Blanks(2 * |s|));
      if m.stop == |s| then Outcome(m.table, true) else Outcome(Cleared(s, m.stop), false)
  }

  /** hashmap_iterate_pairs with hashmap_rehash_iterator, from slot i on into t. */
  ghost function MoveAll(hash: Hash, mem: Memory, s: seq<Slot>, i: nat, t: seq<Slot>): (r: Moved)
    requires i <= |s| && Sized(|t|)
    ensures Sized(|r.table|) && |r.table| >= |t| && i <= r.stop <= |s|
    decreases TWO_32 - |t|, 2, |s| - i
  {
    if i == |s| then Moved(t, i)
    else if !s[i].inUse then MoveAll(hash, mem, s, i + 1, t)
    else
      var r := PutIn(hash, mem, t, s[i].key, s[i].value);
      if r.ok then MoveAll(hash, mem, s, i + 1, r.table) else Moved(r.table, i)
  }

  // What they keep

  /** Entries moved and entries left are disjoint and together make up the whole. */
  ghost predicate Split(whole: map<Key, Value>, moved: map<Key, Value>, left: map<Key, Value>) {
    moved.Keys !! left.Keys && moved + left == whole
  }

  lemma MoveEntry(whole: map<Key, Value>, moved: map<Key, Value>, left: map<Key, Value>, k: Key)
    requires Split(whole, moved, left) && k in left
    ensures Split(whole, moved[k := left[k]], left - {k})
  {
    assert moved[k := left[k]] + (left - {k}) == moved + left;
  }

  /** A put that succeeds updates the map; one that fails changes no value and adds no
      key. */
  lemma {:induction false} PutKeeps(hash: Hash, mem: Memory, s: seq<Slot>, k: Key, v: Value)
    requires Table(hash, s)
    ensures var r := PutIn(hash, mem, s, k, v);
      && Table(hash, r.table)
      && (if r.ok then Entries(r.table) == Entries(s)[k := v] else SubMap(Entries(r.table), Entries(s)))
      && (FindSlot(hash, s, k).None? && r.ok ==> |r.table| >= 2 * |s|)
    decreases TWO_32 - |s|, 1, 0
  {
    var p := FindSlot(hash, s, k);
    if p.Some? {
      FindSlotMeans(hash, s, k);
      StoreSlot(hash, s, p.value, k, v);
    } else {
      var g := Grow(hash, mem, s);
      GrowKeeps(hash, mem, s);
      if g.ok {
        PutKeeps(hash, mem, g.table, k, v);
      }
    }
  }

  /** Growth that succeeds keeps the map. */
  lemma {:induction false} GrowKeeps(hash: Hash, mem: Memory, s: seq<Slot>)
    requires Table(hash, s)
    ensures var r := Grow(hash, mem, s);
      && Table(hash, r.table)
      && (if r.ok then Entries(r.table) == Entries(s) else SubMap(Entries(r.table), Entries(s)))
    decreases TWO_32 - |s|, 0, 0
  {
    DoubleWraps(|s|);
    if !Refused(mem, |s|) {
      var t := Blanks(2 * |s|);
      var m := MoveAll(hash, mem, s, 0, t);
      BlanksAreTable(hash, 2 * |s|);
      assert Cleared(s, 0) == s;
      assert map[] + Entries(s) == Entries(s);
      MoveKeeps(hash, mem, s, 0, t);
      ClearedIsTable(hash, s, m.stop);
      ClearedIsSubMap(s, m.stop);
    }
  }

  lemma MoveOneKeeps(hash: Hash, s: seq<Slot>, i: nat, t: seq<Slot>, r: seq<Slot>)
    requires i < |s| && Table(hash, s) && s[i].inUse
    requires Split(Entries(s), Entries(t), Entries(Cleared(s, i)))
    requires Entries(r) == Entries(t)[s[i].key := s[i].value]
    ensures Split(Entries(s), Entries(r), Entries(Cleared(s, i + 1)))
  {
    ClearedNext(s, i);
    ClearedIsTable(hash, s, i);
    EraseSlot(hash, Cleared(s, i), i);
    MoveEntry(Entries(s), Entries(t), Entries(Cleared(s, i)), s[i].key);
  }

  lemma NothingLeft(s: seq<Slot>, t: seq<Slot>)
    requires Split(Entries(s), Entries(t), Entries(Cleared(s, |s|)))
    ensures Entries(t) == Entries(s)
  {
    BlankTable(Cleared(s, |s|));
    assert Entries(t) + map[] == Entries(t);
  }

  /** At every point of the move the entries moved and the entries left are disjoint and
      together are the original map. */
  lemma {:induction false} MoveKeeps(hash: Hash, mem: Memory, s: seq<Slot>, i: nat, t: seq<Slot>)
    requires i <= |s| && Table(hash, s) && Table(hash, t)
    requires Split(Entries(s), Entries(t), Entries(Cleared(s, i)))
    ensures var r := MoveAll(hash, mem, s, i, t);
      && Table(hash, r.table)
      && (r.stop == |s| ==> Entries(r.table) == Entries(s))
    decreases TWO_32 - |t|, 2, |s| - i
  {
    if i == |s| {
      NothingLeft(s, t);
    } else {
      if !s[i].inUse {
        ClearedNext(s, i);
        MoveKeeps(hash, mem, s, i + 1, t);
      } else {
        var r := PutIn(hash, mem, t, s[i].key, s[i].value);
        PutKeeps(hash, mem, t, s[i].key, s[i].value);
        if r.ok {
          MoveOneKeeps(hash, s, i, t, r.table);
          MoveKeeps(hash, mem, s, i + 1, r.table);
        }
      }
    }
  }
}
