/** The broker's hash map: open addressing with a probe window of eight slots and
    growth by rehashing into a table twice as large.

    `hash` is any function of the key bytes; only its value modulo the table size
    is used, as in the source. What `calloc` answers is a parameter of each call. */
module HashMap {
  import opened Wrappers
  import opened Arith
  import opened ProbeTable
  import opened Growth

  class HashMap {
    const hash: Hash
    var tableSize: nat
    var size: nat
    var data: array<Slot>

    ghost predicate Valid()
      reads this, data
    {
      && data.Length == tableSize
      && Table(hash, data[..])
      && size == CountInUse(data[..])
    }

    ghost function Contents(): map<Key, Value>
      reads this, data
    {
      Entries(data[..])
    }

    constructor (hash: Hash, tableSize: nat)
      requires Sized(tableSize)
      ensures Valid() && fresh(data)
      ensures this.hash == hash && this.tableSize == tableSize
      ensures data[..] == Blanks(tableSize) && Contents() == map[]
    {
      this.hash := hash;
      this.tableSize := tableSize;
      size := 0;
      data := new Slot[tableSize](_ => BLANK);
      new;
      BlanksAreTable(hash, tableSize);
      assert data[..] == Blanks(tableSize);
    }

    /** hashmap_create: succeeds exactly for a power of two for which there is memory. */
    static method Create(hash: Hash, initialSize: nat, mem: Memory) returns (rv: int, m: HashMap?)
      requires initialSize < TWO_32
      ensures rv == 0 <==> m != null
      ensures rv == 0 <==> initialSize > 0 && IsPow2(initialSize) && mem(initialSize)
      ensures m != null ==> fresh(m) && fresh(m.data) && m.Valid() && m.hash == hash
      ensures m != null ==> m.tableSize == initialSize && m.data[..] == Blanks(initialSize) && m.Contents() == map[]
    {
      if initialSize > 0 {
        MaskTest(initialSize);
      }
      if 0 == initialSize || 0 != BitAnd(initialSize, initialSize - 1) {
        return 1, null;
      }
      if !mem(initialSize) {
        return 1, null;
      }
      m := new HashMap(hash, initialSize);
      rv := 0;
    }

    /** hashmap_hash_helper: a slot for the key in a table that is not full, if
        and only if the window has one. */
    method HashHelper(key: Key) returns (found: bool, index: nat)
      requires Valid()
      ensures FindSlot(hash, data[..], key) == if found then Some(index) else None
      ensures found <==> HasRoom(hash, data[..], key)
      ensures found ==> index < tableSize && InWindow(hash, key, tableSize, index)
      ensures found ==> if data[index].inUse then data[index].key == key else key !in Contents()
    {
      FindSlotMeans(hash, data[..], key);
      index := 0;
      if size >= tableSize {
        return false, index;
      }
      var start := hash(key) % tableSize;
      FirstProbe(hash, key, tableSize);
      var totalInUse;
      found, index, totalInUse := ProbeForKey(key, start);
      if found {
        return;
      }
      if MAX_CHAIN > totalInUse {
        index := ProbeForFree(key, start);
        found := true;
      }
    }

    /** The first probe of hashmap_hash_helper: looks for the key and counts the slots in
        use. */
    method ProbeForKey(key: Key, start: nat) returns (found: bool, index: nat, totalInUse: nat)
      requires data.Length == tableSize > 0 && start == Probe(hash, key, tableSize, 0)
      ensures found <==> FirstHolding(hash, data[..], key, 0) < MAX_CHAIN
      ensures found ==> index == Probe(hash, key, tableSize, FirstHolding(hash, data[..], key, 0))
      ensures !found ==> (totalInUse < MAX_CHAIN <==> FirstFree(hash, data[..], key, 0) < MAX_CHAIN)
    {
      var curr := start;
      totalInUse := 0;
      for i := 0 to MAX_CHAIN
        invariant curr == Probe(hash, key, tableSize, i)
        invariant totalInUse <= i
        invariant totalInUse == i ==> FirstFree(hash, data[..], key, 0) == FirstFree(hash, data[..], key, i)
        invariant totalInUse < i ==> FirstFree(hash, data[..], key, 0) < i
        invariant FirstHolding(hash, data[..], key, 0) == FirstHolding(hash, data[..], key, i)
      {
        totalInUse := totalInUse + if data[curr].inUse then 1 else 0;
        if data[curr].inUse && data[curr].key == key {
          assert Holds(data[..], key, curr);
          return true, curr, totalInUse;
        }
        assert !Holds(data[..], key, curr);
        NextProbe(hash, key, tableSize, i);
        curr := Advance(curr, tableSize);
      }
      return false, 0, totalInUse;
    }

    /** The second probe, made when the window has a free slot. */
    method ProbeForFree(key: Key, start: nat) returns (index: nat)
      requires data.Length == tableSize > 0 && start == Probe(hash, key, tableSize, 0)
      requires FirstFree(hash, data[..], key, 0) < MAX_CHAIN
      ensures index == Probe(hash, key, tableSize, FirstFree(hash, data[..], key, 0))
    {
      var curr := start;
      for i := 0 to MAX_CHAIN
        invariant curr == Probe(hash, key, tableSize, i)
        invariant FirstFree(hash, data[..], key, 0) == FirstFree(hash, data[..], key, i)
      {
        if !data[curr].inUse {
          return curr;
        }
        NextProbe(hash, key, tableSize, i);
        curr := Advance(curr, tableSize);
      }
      assert false;
    }

    /** hashmap_put: on success the map is updated at the key; a failed put stores
        nothing and, through a growth that stopped half way, may have dropped
        other entries, but never changed one. */
    method Put(key: Key, value: Value, mem: Memory) returns (rv: int)
      requires Valid()
      modifies this, data
      ensures Valid() && (data == old(data) || fresh(data))
      ensures rv == 0 || rv == 1
      ensures PutIn(hash, mem, old(data[..]), key, value) == Outcome(data[..], rv == 0)
      ensures tableSize >= old(tableSize)
      ensures rv == 0 ==> Contents() == old(Contents())[key := value]
      ensures rv == 1 ==> SubMap(Contents(), old(Contents()))
      // growth happens only when the key has no usable slot
      ensures HasRoom(hash, old(data[..]), key) ==> rv == 0 && data == old(data) && tableSize == old(tableSize)
      ensures !HasRoom(hash, old(data[..]), key) && rv == 0 ==> tableSize >= 2 * old(tableSize)
      decreases TWO_32 - tableSize, 1
    {
      ghost var before := data[..];
      PutKeeps(hash, mem, before, key, value);
      FindSlotMeans(hash, before, key);
      var found: bool, index: nat := HashHelper(key);
      while !found
        invariant Valid() && (data == old(data) || fresh(data))
        invariant tableSize >= old(tableSize)
        invariant PutIn(hash, mem, data[..], key, value) == PutIn(hash, mem, before, key, value)
        invariant FindSlot(hash, data[..], key) == if found then Some(index) else None
        invariant HasRoom(hash, before, key) ==> found && data == old(data) && tableSize == old(tableSize)
        decreases TWO_32 - tableSize, !found
      {
        var flag, _ := RehashHelper(mem);
        if flag != 0 {
          return 1;
        }
        found, index := HashHelper(key);
      }
      Store(index, key, value);
      rv := 0;
    }

    /** The data of a slot set, and the count bumped if it was not in use. */
    method Store(index: nat, key: Key, value: Value)
      requires Valid() && FindSlot(hash, data[..], key) == Some(index)
      modifies this`size, data
      ensures Valid()
      ensures data[..] == old(data[..])[index := Slot(key, value, true)]
    {
      ghost var before := data[..];
      FindSlotMeans(hash, before, key);
      StoreSlot(hash, before, index, key, value);
      CountUpdate(before, index, Slot(key, value, true));
      if !data[index].inUse {
        size := size + 1;
      }
      data[index] := Slot(key, value, true);
      assert data[..] == before[index := Slot(key, value, true)];
    }

    /** hashmap_rehash_helper: growth keeps the map. When it fails the slots below
        `stop` are gone and all others are as they were. */
    method RehashHelper(mem: Memory) returns (rv: int, ghost stop: nat)
      requires Valid()
      modifies this, data
      ensures Valid() && (data == old(data) || fresh(data))
      ensures Grow(hash, mem, old(data[..])) == Outcome(data[..], rv == 0)
      ensures rv == 0 ==> Contents() == old(Contents())
      ensures rv == 0 ==> tableSize >= 2 * old(tableSize)
      ensures rv != 0 ==> data == old(data) && tableSize == old(tableSize) && stop <= tableSize
      ensures rv != 0 ==> data[..] == Cleared(old(data[..]), stop)
      ensures rv != 0 ==> SubMap(Contents(), old(Contents()))
      decreases TWO_32 - tableSize, 0
    {
      GrowKeeps(hash, mem, data[..]);
      stop := 0;
      assert Cleared(data[..], 0) == data[..];
      DoubleWraps(tableSize);
      var newSize := 2 * tableSize % TWO_32;
      var flag, newHash := Create(hash, newSize, mem);
      if flag != 0 {
        return flag, stop;
      }
      flag, stop := IteratePairs(newHash, mem);
      if flag != 0 {
        return flag, stop;
      }
      tableSize := newHash.tableSize;
      size := newHash.size;
      data := newHash.data;
      rv := 0;
    }

    /** hashmap_iterate_pairs with hashmap_rehash_iterator as its callback: moves
        entries one by one into the new table. */
    method IteratePairs(newHash: HashMap, mem: Memory) returns (rv: int, ghost stop: nat)
      requires Valid() && newHash.Valid()
      requires newHash != this && newHash.data != data
      requires newHash.hash == hash && newHash.tableSize > tableSize
      modifies this, data, newHash, newHash.data
      ensures Valid() && newHash.Valid()
      ensures data == old(data) && tableSize == old(tableSize)
      ensures newHash.data == old(newHash.data) || fresh(newHash.data)
      ensures newHash.tableSize >= old(newHash.tableSize)
      ensures stop <= tableSize && (rv == 0 <==> stop == tableSize) && (rv == 0 || rv == 1)
      ensures MoveAll(hash, mem, old(data[..]), 0, old(newHash.data[..])) == Moved(newHash.data[..], stop)
      ensures data[..] == Cleared(old(data[..]), stop)
      decreases TWO_32 - newHash.tableSize, 2
    {
      ghost var original := data[..];
      ghost var result := MoveAll(hash, mem, original, 0, newHash.data[..]);
      assert data[..] == Cleared(original, 0);
      for i := 0 to tableSize
        invariant Valid() && newHash.Valid()
        invariant data == old(data) && tableSize == old(tableSize)
        invariant newHash.data == old(newHash.data) || fresh(newHash.data)
        invariant newHash.tableSize >= old(newHash.tableSize)
        invariant data[..] == Cleared(original, i)
        invariant MoveAll(hash, mem, original, i, newHash.data[..]) == result
      {
        ClearedNext(original, i);
        if data[i].inUse {
          var e := data[i];
          var temp := newHash.Put(e.key, e.value, mem);
          if 0 < temp {
            return 1, i;
          }
          Blank(i);
        }
      }
      return 0, tableSize;
    }

    /** The `memset` of one in-use slot, with the count kept in step. */
    method Blank(p: nat)
      requires Valid() && p < tableSize && data[p].inUse
      modifies this`size, data
      ensures Valid()
      ensures data[..] == old(data[..])[p := BLANK]
      ensures Contents() == old(Contents()) - {old(data[p].key)}
    {
      ghost var before := data[..];
      EraseSlot(hash, before, p);
      CountUpdate(before, p, BLANK);
      data[p] := BLANK;
      size := size - 1;
      assert data[..] == before[p := BLANK];
    }

    /** hashmap_get */
    method Get(key: Key) returns (value: Value)
      requires Valid()
      ensures value == Lookup(Contents(), key)
    {
      var curr := hash(key) % tableSize;
      FirstProbe(hash, key, tableSize);
      for i := 0 to MAX_CHAIN
        invariant curr == Probe(hash, key, tableSize, i)
        invariant forall j: nat :: j < i ==> !Holds(data[..], key, Probe(hash, key, tableSize, j))
      {
        if data[curr].inUse {
          if data[curr].key == key {
            FoundInWindow(data[..], key, curr);
            return data[curr].value;
          }
        }
        NextProbe(hash, key, tableSize, i);
        curr := Advance(curr, tableSize);
      }
      WindowDecides(hash, data[..], key);
      value := 0;
    }

    /** hashmap_remove */
    method Remove(key: Key) returns (rv: int)
      requires Valid()
      modifies this, data
      ensures Valid() && data == old(data) && tableSize == old(tableSize)
      ensures rv == (if key in old(Contents()) then 0 else 1)
      ensures Contents() == old(Contents()) - {key}
    {
      var curr := hash(key) % tableSize;
      FirstProbe(hash, key, tableSize);
      for i := 0 to MAX_CHAIN
        invariant Valid() && data == old(data) && tableSize == old(tableSize)
        invariant data[..] == old(data[..])
        invariant curr == Probe(hash, key, tableSize, i)
        invariant forall j: nat :: j < i ==> !Holds(data[..], key, Probe(hash, key, tableSize, j))
      {
        if data[curr].inUse {
          if data[curr].key == key {
            FoundInWindow(data[..], key, curr);
            Blank(curr);
            return 0;
          }
        }
        NextProbe(hash, key, tableSize, i);
        curr := Advance(curr, tableSize);
      }
      WindowDecides(hash, data[..], key);
      rv := 1;
    }

    /** hashmap_num_entries */
    method NumEntries() returns (n: nat)
      requires Valid()
      ensures n == |Contents()| <= tableSize
    {
      EntriesAreSlots(data[..]);
      n := size;
    }

    /** Every history of calls, up to the first put that fails, gives the results
        that the same history gives on a plain finite map. `mem(i, n)`: whether a table
        of n slots can be had during the i-th call. */
    method Replay(ops: seq<Op>, mem: (nat, nat) -> bool) returns (results: seq<nat>)
      requires Valid()
      modifies this, data
      ensures Valid()
      ensures |results| <= |ops|
      ensures results == Reference(old(Contents()), ops[..|results|]).0
      ensures |results| == |ops| ==> Contents() == Reference(old(Contents()), ops).1
      ensures |results| < |ops| ==> ops[|results|].PutOp?
    {
      results := [];
      while |results| < |ops|
        invariant Valid() && (data == old(data) || fresh(data))
        invariant |results| <= |ops|
        invariant Reference(old(Contents()), ops[..|results|]) == (results, Contents())
      {
        ghost var done := ops[..|results|];
        ghost var now := Contents();
        var op := ops[|results|];
        assert ops[..|results| + 1] == done + [op];
        var r: nat;
        match op {
          case PutOp(k, v) =>
            var call := |results|;
            var rv := Put(k, v, (n: nat) => mem(call, n));
            if rv != 0 {
              return;
            }
            r := 0;
          case GetOp(k) =>
            r := Get(k);
          case RemoveOp(k) =>
            r := Remove(k);
        }
        assert Apply(now, op) == (r, Contents());
        ReferenceSnoc(old(Contents()), done, op);
        results := results + [r];
      }
      assert ops[..|results|] == ops;
    }
  }

  function Lookup(m: map<Key, Value>, k: Key): Value {
    if k in m then m[k] else 0
  }

  datatype Op = PutOp(key: Key, value: Value) | GetOp(key: Key) | RemoveOp(key: Key)

  ghost function Apply(m: map<Key, Value>, op: Op): (nat, map<Key, Value>) {
    match op
    case PutOp(k, v) => (0, m[k := v])
    case GetOp(k) => (Lookup(m, k), m)
    case RemoveOp(k) => (if k in m then 0 else 1, m - {k})
  }

  /** Results and final map of a history of calls on a plain finite map. */
  ghost function Reference(m: map<Key, Value>, ops: seq<Op>): (seq<nat>, map<Key, Value>)
    decreases ops
  {
    if ops == [] then ([], m)
    else
      var step := Apply(m, ops[0]);
      var rest := Reference(step.1, ops[1..]);
      ([step.0] + rest.0, rest.1)
  }

  lemma {:induction false} ReferenceSnoc(m: map<Key, Value>, ops: seq<Op>, op: Op)
    ensures var before := Reference(m, ops);
      var step := Apply(before.1, op);
      Reference(m, ops + [op]) == (before.0 + [step.0], step.1)
    decreases ops
  {
    if ops == [] {
      assert ops + [op] == [op] && [op][1..] == [];
      var step := Apply(m, op);
      assert Reference(m, [op]) == ([step.0] + [], step.1);
      assert [step.0] + [] == [] + [step.0];
    } else {
      assert (ops + [op])[1..] == ops[1..] + [op];
      var first := Apply(m, ops[0]);
      ReferenceSnoc(first.1, ops[1..], op);
      var rest := Reference(first.1, ops[1..]);
      assert (ops + [op])[0] == ops[0];
      assert [first.0] + (rest.0 + [Apply(rest.1, op).0]) == [first.0] + rest.0 + [Apply(rest.1, op).0];
    }
  }
}
