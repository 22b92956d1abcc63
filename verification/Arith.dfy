/** Bytes, powers and the few facts about `%` that the modules share. */
module Arith {
  type Byte = x: int | 0 <= x < 256

  const TWO_32: nat := 0x1_0000_0000

  function Pow(b: nat, e: nat): (r: nat)
    ensures b > 0 ==> r > 0
  {
    if e == 0 then 1 else b * Pow(b, e - 1)
  }

  lemma {:induction false} PowAdd(b: nat, m: nat, n: nat)
    ensures Pow(b, m + n) == Pow(b, m) * Pow(b, n)
  {
    if m > 0 {
      PowAdd(b, m - 1, n);
      assert Pow(b, m + n) == b * Pow(b, m - 1 + n);
      MulAssoc(b, Pow(b, m - 1), Pow(b, n));
    }
  }

  lemma {:induction false} PowMul(b: nat, m: nat, n: nat)
    ensures Pow(b, m * n) == Pow(Pow(b, m), n)
  {
    if n > 0 {
      PowMul(b, m, n - 1);
      assert m * n == m + m * (n - 1);
      PowAdd(b, m, m * (n - 1));
    } else {
      assert m * n == 0;
    }
  }

  lemma PowSwap(b: nat, m: nat, n: nat)
    ensures Pow(Pow(b, m), n) == Pow(Pow(b, n), m)
  {
    PowMul(b, m, n);
    PowMul(b, n, m);
    assert m * n == n * m;
  }

  lemma {:induction false} PowBaseMonotone(a: nat, b: nat, n: nat)
    requires a <= b
    ensures Pow(a, n) <= Pow(b, n)
  {
    if n > 0 {
      PowBaseMonotone(a, b, n - 1);
      MulMonotone(a, b, Pow(a, n - 1), Pow(b, n - 1));
    }
  }

  lemma {:induction false} PowBaseStrict(a: nat, b: nat, n: nat)
    requires a < b && n > 0
    ensures Pow(a, n) < Pow(b, n)
  {
    PowBaseMonotone(a, b, n - 1);
    var x, y := Pow(a, n - 1), Pow(b, n - 1);
    MulMonotone(a, a, x, y);
    MulMonotone(a + 1, b, y, y);
    assert (a + 1) * y == a * y + y;
  }

  lemma {:induction false} PowExpMonotone(b: nat, m: nat, n: nat)
    requires b > 0 && m <= n
    ensures Pow(b, m) <= Pow(b, n)
  {
    PowAdd(b, n - m, m);
    MulMonotone(1, Pow(b, n - m), Pow(b, m), Pow(b, m));
  }

  /** A strict comparison of powers compares the exponents. */
  lemma PowExpStrict(b: nat, m: nat, n: nat)
    requires b > 0 && Pow(b, m) < Pow(b, n)
    ensures m < n
  {
    if n <= m {
      PowExpMonotone(b, n, m);
    }
  }

  lemma MulAssoc(a: int, b: int, c: int)
    ensures a * (b * c) == (a * b) * c
  {
  }

  lemma MulNat(a: nat, b: nat)
    ensures a * b >= 0
  {
  }

  lemma MulMonotone(a: nat, b: nat, c: nat, d: nat)
    requires a <= b && c <= d
    ensures a * c <= b * d
  {
    assert a * c <= b * c by { assert (b - a) * c >= 0; }
    assert b * c <= b * d by { assert b * (d - c) >= 0; }
  }

  /** Quotient and remainder are determined by the defining equation. */
  lemma DivModUnique(x: int, n: int, q: int, r: int)
    requires n > 0 && x == q * n + r && 0 <= r < n
    ensures x / n == q && x % n == r
  {
    var d := q - x / n;
    assert d * n == x % n - r by {
      assert x == (x / n) * n + x % n;
      assert d * n == q * n - (x / n) * n;
    }
    MulAtLeast(d, n);
  }

  lemma MulAtLeast(d: int, n: int)
    requires n > 0
    ensures d >= 1 ==> d * n >= n
    ensures d <= -1 ==> d * n <= -n
  {
    if d >= 1 {
      assert (d - 1) * n >= 0;
    } else if d <= -1 {
      assert (-d - 1) * n >= 0;
    }
  }

  /** Stepping a wrapped index is wrapping the stepped one. */
  lemma ModStep(a: nat, n: nat)
    requires n > 0
    ensures (a % n + 1) % n == (a + 1) % n
  {
    var q, r := a / n, a % n;
    assert a == q * n + r;
    if r + 1 < n {
      DivModUnique(a + 1, n, q, r + 1);
      DivModUnique(r + 1, n, 0, r + 1);
    } else {
      assert (q + 1) * n == q * n + n;
      DivModUnique(a + 1, n, q + 1, 0);
      DivModUnique(r + 1, n, 1, 0);
    }
  }

  /** The unsigned bitwise conjunction of C. */
  function BitAnd(a: nat, b: nat): (r: nat)
    ensures r <= a && r <= b
  {
    if a == 0 || b == 0 then 0
    else 2 * BitAnd(a / 2, b / 2) + (if a % 2 == 1 && b % 2 == 1 then 1 else 0)
  }

  lemma {:induction false} BitAndSelf(a: nat)
    ensures BitAnd(a, a) == a
  {
    if a > 0 {
      BitAndSelf(a / 2);
    }
  }

  ghost predicate IsPow2(n: nat) {
    exists k: nat :: n == Pow(2, k)
  }

  /** The mask test `n & (n - 1)` accepts exactly the powers of two. */
  lemma {:induction false} MaskTest(n: nat)
    requires n > 0
    ensures BitAnd(n, n - 1) == 0 <==> IsPow2(n)
  {
    if n == 1 {
      assert n == Pow(2, 0);
    } else if n % 2 == 0 {
      MaskTest(n / 2);
      assert (n - 1) / 2 == n / 2 - 1;
      assert BitAnd(n, n - 1) == 2 * BitAnd(n / 2, n / 2 - 1);
      if IsPow2(n / 2) {
        var k: nat :| n / 2 == Pow(2, k);
        assert n == Pow(2, k + 1);
      }
      if IsPow2(n) {
        var k: nat :| n == Pow(2, k);
        assert n / 2 == Pow(2, k - 1);
      }
    } else {
      BitAndSelf(n / 2);
      forall k: nat ensures n != Pow(2, k) {
        assert k > 0 ==> Pow(2, k) % 2 == 0;
      }
    }
  }

  /** Doubling a power of two below 2^32 in 32 bits either doubles it or yields 0. */
  lemma DoubleWraps(n: nat)
    requires IsPow2(n) && n < TWO_32
    ensures 2 * n % TWO_32 == (if n == 0x8000_0000 then 0 else 2 * n)
    ensures n <= 0x8000_0000
    ensures IsPow2(2 * n)
  {
    var k: nat :| n == Pow(2, k);
    assert 2 * n == Pow(2, k + 1);
    Pow2Table();
    if k >= 32 {
      PowExpMonotone(2, 32, k);
    } else {
      PowExpMonotone(2, k, 31);
    }
    if n < 0x8000_0000 {
      DivModUnique(2 * n, TWO_32, 0, 2 * n);
    }
  }

  lemma Pow2Table()
    ensures Pow(2, 31) == 0x8000_0000
    ensures Pow(2, 32) == TWO_32
  {
    assert Pow(2, 8) == 256;
    PowAdd(2, 8, 8);
    PowAdd(2, 16, 16);
  }
}
