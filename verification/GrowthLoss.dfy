/** When a put that fails loses entries: growth moves entries out of the table one by one,
    and those already moved are gone when a later one finds no place. */
module GrowthLoss {
  import opened Wrappers
  import opened Arith
  import opened ProbeTable
  import opened Growth

  /** Some key of s is not in t. */
  ghost predicate Loses(s: seq<Slot>, t: seq<Slot>) {
    exists k :: k in Entries(s) && k !in Entries(t)
  }

  ghost predicate InUseBelow(s: seq<Slot>, from: nat, stop: nat) {
    exists p :: from <= p < stop <= |s| && s[p].inUse
  }

  /** Clearing loses an entry exactly when it clears a slot in use. */
  lemma ClearedLosesIff(s: seq<Slot>, stop: nat)
    requires Unique(s) && stop <= |s|
    ensures Loses(s, Cleared(s, stop)) <==> InUseBelow(s, 0, stop)
  {
    var t := Cleared(s, stop);
    EntriesAreSlots(s);
    EntriesAreSlots(t);
    if p :| 0 <= p < stop && s[p].inUse {
      forall q ensures !Holds(t, s[p].key, q) {
        assert 0 <= q < |t| && t[q].inUse ==> t[q] == s[q] && q != p;
      }
      assert s[p].key in Entries(s) && s[p].key !in Entries(t);
    } else {
      assert t == s;
    }
  }

  /** The first entry always finds a place in the new table. */
  lemma FirstFits(hash: Hash, n: nat, k: Key)
    requires Sized(n)
    ensures FindSlot(hash, Blanks(n), k).Some?
  {
    BlanksAreTable(hash, n);
    assert FirstFree(hash, Blanks(n), k, 0) == 0;
  }

  lemma {:induction false} StopsBehindFirst(hash: Hash, mem: Memory, s: seq<Slot>, i: nat, n: nat)
    requires i <= |s| && Sized(n)
    ensures var r := MoveAll(hash, mem, s, i, Blanks(n)); r.stop < |s| ==> InUseBelow(s, i, r.stop)
    decreases |s| - i
  {
    if i < |s| {
      if s[i].inUse {
        FirstFits(hash, n, s[i].key);
      } else {
        StopsBehindFirst(hash, mem, s, i + 1, n);
      }
    }
  }

  /** A growth that fails loses entries exactly when the larger table was granted. */
  lemma GrowLosesIff(hash: Hash, mem: Memory, s: seq<Slot>)
    requires Table(hash, s) && !Grow(hash, mem, s).ok
    ensures Loses(s, Grow(hash, mem, s).table) <==> !Refused(mem, |s|)
  {
    DoubleWraps(|s|);
    if !Refused(mem, |s|) {
      var m := MoveAll(hash, mem, s, 0, Blanks(2 * |s|));
      StopsBehindFirst(hash, mem, s, 0, 2 * |s|);
      ClearedLosesIff(s, m.stop);
    }
  }

  /** The table that could not be grown any further, for a put that fails. */
  ghost function LastTable(hash: Hash, mem: Memory, s: seq<Slot>): (r: seq<Slot>)
    requires Sized(|s|)
    decreases TWO_32 - |s|
  {
    var g := Grow(hash, mem, s);
    if g.ok then LastTable(hash, mem, g.table) else s
  }

  /** A put that fails loses entries exactly when the last table it asked for was
      granted. */
  lemma {:induction false} PutLosesIff(hash: Hash, mem: Memory, s: seq<Slot>, k: Key, v: Value)
    requires Table(hash, s) && !PutIn(hash, mem, s, k, v).ok
    ensures Loses(s, PutIn(hash, mem, s, k, v).table) <==> !Refused(mem, |LastTable(hash, mem, s)|)
    decreases TWO_32 - |s|
  {
    var g := Grow(hash, mem, s);
    GrowKeeps(hash, mem, s);
    if g.ok {
      PutLosesIff(hash, mem, g.table, k, v);
    } else {
      GrowLosesIff(hash, mem, s);
    }
  }

  // Tables whose entries fit into the doubled one as they come

  /** The entries of s from slot i on, put into t in the order of their slots without
      growing it; None when one of them has no room. */
  ghost function Fitted(hash: Hash, s: seq<Slot>, i: nat, t: seq<Slot>): (r: Option<seq<Slot>>)
    requires i <= |s| && |t| > 0
    ensures r.Some? ==> |r.value| == |t|
    decreases |s| - i
  {
    if i == |s| then Some(t)
    else if !s[i].inUse then Fitted(hash, s, i + 1, t)
    else
      var p := FindSlot(hash, t, s[i].key);
      if p.None? then None else Fitted(hash, s, i + 1, t[p.value := Slot(s[i].key, s[i].value, true)])
  }

  /** Entries that fit are all moved; of entries that do not, some are not, when the new
      table cannot grow either. */
  lemma {:induction false} FittedMoves(hash: Hash, mem: Memory, s: seq<Slot>, i: nat, t: seq<Slot>)
    requires i <= |s| && Sized(|t|)
    ensures var f := Fitted(hash, s, i, t);
      && (f.Some? ==> MoveAll(hash, mem, s, i, t) == Moved(f.value, |s|))
      && (f.None? && Refused(mem, |t|) ==> MoveAll(hash, mem, s, i, t).stop < |s|)
    decreases |s| - i
  {
    if i < |s| {
      var e := s[i];
      if !e.inUse {
        FittedMoves(hash, mem, s, i + 1, t);
      } else {
        var p := FindSlot(hash, t, e.key);
        if p.Some? {
          FittedMoves(hash, mem, s, i + 1, t[p.value := Slot(e.key, e.value, true)]);
        } else if Refused(mem, |t|) {
          assert PutIn(hash, mem, t, e.key, e.value) == Grow(hash, mem, t) == Outcome(t, false);
        }
      }
    }
  }

  /** Whatever the allocator does about larger sizes: when all entries fit into the
      doubled table in the order of their slots and the key then has room, the put
      succeeds and so loses nothing. */
  lemma FittingPutSucceeds(hash: Hash, mem: Memory, s: seq<Slot>, k: Key, v: Value)
    requires Table(hash, s) && !Refused(mem, |s|)
    requires var f := Fitted(hash, s, 0, Blanks(2 * |s|)); f.Some? && FindSlot(hash, f.value, k).Some?
    ensures PutIn(hash, mem, s, k, v).ok
  {
    DoubleWraps(|s|);
    FittedMoves(hash, mem, s, 0, Blanks(2 * |s|));
  }

  /** With memory for one doubling at most: a put loses entries exactly when the key has no
      room, the doubled table is granted and the entries do not fit into it in the order
      of their slots. */
  lemma OneDoublingLosesIff(hash: Hash, mem: Memory, s: seq<Slot>, k: Key, v: Value)
    requires Table(hash, s) && (Refused(mem, |s|) || Refused(mem, 2 * |s|))
    ensures Loses(s, PutIn(hash, mem, s, k, v).table) <==>
      && !HasRoom(hash, s, k)
      && !Refused(mem, |s|)
      && Fitted(hash, s, 0, Blanks(2 * |s|)).None?
  {
    DoubleWraps(|s|);
    FindSlotMeans(hash, s, k);
    PutKeeps(hash, mem, s, k, v);
    if !HasRoom(hash, s, k) {
      GrowKeeps(hash, mem, s);
      if !Refused(mem, |s|) {
        FittedMoves(hash, mem, s, 0, Blanks(2 * |s|));
      }
      var g := Grow(hash, mem, s);
      if g.ok {
        assert Grow(hash, mem, g.table) == Outcome(g.table, false);
      } else {
        GrowLosesIff(hash, mem, s);
      }
    }
  }

  // An input that loses entries under every allocator

  /** Keys of one byte below 8 all start at slot 8, all others at slot 9. */
  const SKEWED: Hash := (k: Key) => if |k| == 1 && k[0] < 8 then 8 else 9

  function KeyOf(i: nat): Key
    requires i < 256
  {
    [i]
  }

  lemma FindsFree(hash: Hash, s: seq<Slot>, k: Key, j: nat)
    requires |s| > 0 && j < MAX_CHAIN && !s[Probe(hash, k, |s|, j)].inUse
    requires forall i: nat :: i < j ==> s[Probe(hash, k, |s|, i)].inUse
    requires forall p :: 0 <= p < |s| && s[p].inUse ==> s[p].key != k
    ensures FindSlot(hash, s, k) == Some(Probe(hash, k, |s|, j))
  {
    FullIffAllInUse(s);
    var i, f := FirstHolding(hash, s, k, 0), FirstFree(hash, s, k, 0);
    FirstHoldingIs(hash, s, k, 0);
    FirstFreeIs(hash, s, k, 0);
    assert i == MAX_CHAIN;
    assert f == j;
  }

  lemma FindsNone(hash: Hash, s: seq<Slot>, k: Key)
    requires |s| > 0
    requires forall i: nat :: i < MAX_CHAIN ==> s[Probe(hash, k, |s|, i)].inUse && s[Probe(hash, k, |s|, i)].key != k
    ensures FindSlot(hash, s, k).None?
  {
    var i, f := FirstHolding(hash, s, k, 0), FirstFree(hash, s, k, 0);
    FirstHoldingIs(hash, s, k, 0);
    FirstFreeIs(hash, s, k, 0);
    assert i == MAX_CHAIN && f == MAX_CHAIN;
  }

  /** The keys in the order in which the first growth places them from slot 8 on. */
  function Order(j: nat): Key
    requires j < 10
  {
    if j == 0 then KeyOf(0) else if j == 1 then KeyOf(8) else KeyOf(j - 1)
  }

  /** A table of n slots with the first m of these keys in the slots from 8 on. */
  function Filled(n: nat, m: nat): (s: seq<Slot>)
    requires 16 <= n && m <= 8
    ensures |s| == n
    ensures forall p :: 0 <= p < n ==> s[p] == if 8 <= p < 8 + m then Slot(Order(p - 8), 0, true) else BLANK
  {
    seq(n, p requires 0 <= p < n => if 8 <= p < 8 + m then Slot(Order(p - 8), 0, true) else BLANK)
  }

  lemma LargeProbe(k: Key, n: nat, i: nat)
    requires n >= 32 && i < MAX_CHAIN
    ensures Probe(SKEWED, k, n, i) == SKEWED(k) + i
  {
    DivModUnique(SKEWED(k), n, 0, SKEWED(k));
    DivModUnique(SKEWED(k) + i, n, 0, SKEWED(k) + i);
  }

  lemma FilledFinds(n: nat, m: nat)
    requires n >= 32 && m < 8
    ensures FindSlot(SKEWED, Filled(n, m), Order(m)) == Some(8 + m)
    ensures Filled(n, m)[8 + m := Slot(Order(m), 0, true)] == Filled(n, m + 1)
  {
    var s, k := Filled(n, m), Order(m);
    var j := 8 + m - SKEWED(k);
    forall i: nat | i < MAX_CHAIN ensures Probe(SKEWED, k, n, i) == SKEWED(k) + i {
      LargeProbe(k, n, i);
    }
    FindsFree(SKEWED, s, k, j);
  }

  lemma FilledIsStuck(n: nat)
    requires n >= 32
    ensures FindSlot(SKEWED, Filled(n, 8), KeyOf(7)).None?
  {
    forall i: nat | i < MAX_CHAIN ensures Probe(SKEWED, KeyOf(7), n, i) == 8 + i {
      LargeProbe(KeyOf(7), n, i);
    }
    FindsNone(SKEWED, Filled(n, 8), KeyOf(7));
  }

  /** How many of the keys have been moved when slot i is reached. */
  function Reached(i: nat): (m: nat)
    ensures m <= 8
  {
    if i <= 8 then 0 else if i <= 16 then i - 8 else 8
  }

  /** Growing such a table reproduces it. */
  lemma {:induction false} FilledMoves(mem: Memory, n: nat, i: nat)
    requires 32 <= n && Sized(2 * n) && i <= n
    ensures MoveAll(SKEWED, mem, Filled(n, 8), i, Filled(2 * n, Reached(i))) == Moved(Filled(2 * n, 8), n)
    decreases n - i
  {
    if i < n {
      FilledMoves(mem, n, i + 1);
      if 8 <= i < 16 {
        FilledFinds(2 * n, i - 8);
      }
    }
  }

  /** So the next key never finds room, however large the table becomes. */
  lemma {:induction false} NeverFits(mem: Memory, n: nat)
    requires 32 <= n && Sized(n)
    ensures !PutIn(SKEWED, mem, Filled(n, 8), KeyOf(7), 0).ok
    decreases TWO_32 - n
  {
    FilledIsStuck(n);
    DoubleWraps(n);
    if !Refused(mem, n) {
      assert Filled(2 * n, 0) == Blanks(2 * n);
      FilledMoves(mem, n, 0);
      NeverFits(mem, 2 * n);
    }
  }

  /** Sixteen slots: keys 0 to 7 in slots 8 to 15, and key 8, which wrapped around. */
  const WRAPPED: seq<Slot> := Wrapped(8)[0 := Slot(KeyOf(8), 0, true)]

  function Wrapped(m: nat): (s: seq<Slot>)
    requires m <= 8
    ensures |s| == 16
    ensures forall p :: 0 <= p < 16 ==> s[p] == if 8 <= p < 8 + m then Slot(KeyOf(p - 8), 0, true) else BLANK
  {
    seq(16, p requires 0 <= p < 16 => if 8 <= p < 8 + m then Slot(KeyOf(p - 8), 0, true) else BLANK)
  }

  lemma SmallProbe(k: Key, i: nat)
    requires i < MAX_CHAIN
    ensures Probe(SKEWED, k, 16, i) == if SKEWED(k) + i < 16 then SKEWED(k) + i else SKEWED(k) + i - 16
  {
  }

  /** The keys 0 to i - 1 put one after the other, each with value 0. */
  ghost function PutFirst(mem: Memory, s: seq<Slot>, i: nat): Outcome
    requires Sized(|s|) && i <= 256
  {
    if i == 0 then Outcome(s, true)
    else
      var r := PutFirst(mem, s, i - 1);
      if r.ok && Sized(|r.table|) then PutIn(SKEWED, mem, r.table, KeyOf(i - 1), 0) else r
  }

  lemma {:induction false} WrappedIsReached(mem: Memory, m: nat)
    requires m <= 8 && Sized(16)
    ensures PutFirst(mem, Blanks(16), m) == Outcome(Wrapped(m), true)
  {
    if m > 0 {
      WrappedIsReached(mem, m - 1);
      var s, k := Wrapped(m - 1), KeyOf(m - 1);
      forall i: nat | i < MAX_CHAIN ensures Probe(SKEWED, k, 16, i) == 8 + i {
        SmallProbe(k, i);
      }
      FindsFree(SKEWED, s, k, m - 1);
      assert s[8 + (m - 1) := Slot(k, 0, true)] == Wrapped(m);
    } else {
      assert Wrapped(0) == Blanks(16);
    }
  }

  /** Nine puts into a new table of sixteen slots lead there. */
  lemma LosingTableIsReached(mem: Memory)
    ensures Sized(16) && PutFirst(mem, Blanks(16), 9) == Outcome(WRAPPED, true)
  {
    SizedPowers();
    WrappedIsReached(mem, 8);
    var s, k := Wrapped(8), KeyOf(8);
    forall i: nat | i < MAX_CHAIN ensures Probe(SKEWED, k, 16, i) == if i < 7 then 9 + i else 0 {
      SmallProbe(k, i);
    }
    FindsFree(SKEWED, s, k, 7);
  }

  lemma SizedPowers()
    ensures Sized(16) && Sized(32)
  {
    assert Pow(2, 4) == 16 by { assert Pow(2, 3) == 8 by { assert Pow(2, 2) == 4; } }
    assert Pow(2, 5) == 32;
  }

  /** The move of that table stops at its last slot. */
  lemma {:induction false} WrappedMoves(mem: Memory, i: nat)
    requires 9 <= i <= 15 && Sized(32)
    ensures MoveAll(SKEWED, mem, WRAPPED, i, Filled(32, i - 7)).stop == 15
    decreases 15 - i
  {
    if i == 15 {
      NeverFits(mem, 32);
    } else {
      FilledFinds(32, i - 7);
      WrappedMoves(mem, i + 1);
    }
  }

  lemma {:induction false} SkipFree(mem: Memory, t: seq<Slot>, i: nat)
    requires 1 <= i <= 8 && Sized(|t|)
    ensures MoveAll(SKEWED, mem, WRAPPED, i, t) == MoveAll(SKEWED, mem, WRAPPED, 8, t)
    decreases 8 - i
  {
    if i < 8 {
      SkipFree(mem, t, i + 1);
    }
  }

  lemma MoveOne(mem: Memory, s: seq<Slot>, i: nat, t: seq<Slot>, p: nat)
    requires i < |s| && s[i].inUse && Sized(|t|) && FindSlot(SKEWED, t, s[i].key) == Some(p)
    ensures MoveAll(SKEWED, mem, s, i, t) ==
      MoveAll(SKEWED, mem, s, i + 1, t[p := Slot(s[i].key, s[i].value, true)])
  {
  }

  lemma WrappedMoveStops(mem: Memory)
    requires Sized(32)
    ensures MoveAll(SKEWED, mem, WRAPPED, 0, Blanks(32)).stop == 15
  {
    var t := Blanks(32)[9 := Slot(KeyOf(8), 0, true)];
    LargeProbe(KeyOf(8), 32, 0);
    FindsFree(SKEWED, Blanks(32), KeyOf(8), 0);
    MoveOne(mem, WRAPPED, 0, Blanks(32), 9);
    SkipFree(mem, t, 1);
    LargeProbe(KeyOf(0), 32, 0);
    FindsFree(SKEWED, t, KeyOf(0), 0);
    MoveOne(mem, WRAPPED, 8, t, 8);
    assert t[8 := Slot(KeyOf(0), 0, true)] == Filled(32, 2);
    WrappedMoves(mem, 9);
  }

  /** Putting a tenth key there fails under every allocator, and unless the table of 32
      slots is refused at once, eight of the nine entries are gone. */
  lemma EightOfNineLost(mem: Memory, v: Value)
    requires mem(32)
    ensures Sized(16)
    ensures PutIn(SKEWED, mem, WRAPPED, KeyOf(9), v) == Outcome(Cleared(WRAPPED, 15), false)
    ensures forall i :: 0 <= i <= 8 ==> KeyOf(i) in Entries(WRAPPED)
    ensures forall i :: 0 <= i <= 8 ==> (KeyOf(i) in Entries(Cleared(WRAPPED, 15)) <==> i == 7)
  {
    SizedPowers();
    forall i: nat | i < MAX_CHAIN ensures Probe(SKEWED, KeyOf(9), 16, i) == if i < 7 then 9 + i else 0 {
      SmallProbe(KeyOf(9), i);
    }
    FindsNone(SKEWED, WRAPPED, KeyOf(9));
    WrappedMoveStops(mem);
    LostKeys();
  }

  lemma WrappedSlots(p: nat)
    requires p < 16
    ensures WRAPPED[p] ==
      if p == 0 then Slot(KeyOf(8), 0, true) else if p < 8 then BLANK else Slot(KeyOf(p - 8), 0, true)
  {
  }

  lemma WrappedIsUnique()
    ensures Unique(WRAPPED)
  {
    forall p, q | 0 <= p < q < |WRAPPED| && WRAPPED[p].inUse && WRAPPED[q].inUse
      ensures WRAPPED[p].key != WRAPPED[q].key
    {
      WrappedSlots(p);
      WrappedSlots(q);
    }
  }

  /** Clearing below a slot in use keeps its key, and loses the key of a slot below. */
  lemma KeyOfSlot(s: seq<Slot>, p: nat, stop: nat)
    requires Unique(s) && p < |s| && s[p].inUse && stop <= |s|
    ensures s[p].key in Entries(s)
    ensures s[p].key in Entries(Cleared(s, stop)) <==> p >= stop
  {
    var t := Cleared(s, stop);
    EntriesAreSlots(s);
    EntriesAreSlots(t);
    if p >= stop {
      assert Holds(t, s[p].key, p);
    }
    forall q | Holds(t, s[p].key, q) ensures q == p >= stop {
      assert t[q] == s[q];
    }
  }

  lemma LostKeys()
    ensures forall i :: 0 <= i <= 8 ==> KeyOf(i) in Entries(WRAPPED)
    ensures forall i :: 0 <= i <= 8 ==> (KeyOf(i) in Entries(Cleared(WRAPPED, 15)) <==> i == 7)
  {
    WrappedIsUnique();
    forall i | 0 <= i <= 8
      ensures KeyOf(i) in Entries(WRAPPED) && (KeyOf(i) in Entries(Cleared(WRAPPED, 15)) <==> i == 7)
    {
      var p := if i == 8 then 0 else 8 + i;
      WrappedSlots(p);
      KeyOfSlot(WRAPPED, p, 15);
    }
  }
}
