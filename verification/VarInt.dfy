/** The Remaining Length field: seven bits per byte, least significant group first,
    the top bit set on every byte but the last; at most four bytes are read. */
module VarInt {
  import opened Wrappers
  import opened Arith

  const LIMIT: nat := 0x1000_0000

  function Encoded(n: nat): (s: seq<Byte>)
    ensures |s| > 0
  {
    if n < 128 then [n] else [n % 128 + 128] + Encoded(n / 128)
  }

  /** Value and number of bytes of the field at the start of s, reading at most
      `fuel` bytes; None when s ends before the field does. A field that goes on
      after the last byte read is cut there. */
  function Read(s: seq<Byte>, fuel: nat): (r: Option<(nat, nat)>)
    ensures r.Some? ==> r.value.1 <= fuel && r.value.1 <= |s|
  {
    if fuel == 0 then Some((0, 0))
    else if s == [] then None
    else if s[0] < 128 then Some((s[0], 1))
    else
      var rest := Read(s[1..], fuel - 1);
      if rest.None? then None else Some((s[0] - 128 + 128 * rest.value.0, rest.value.1 + 1))
  }

  function Decoded(s: seq<Byte>): Option<(nat, nat)> {
    Read(s, 4)
  }

  function Pow128(k: nat): (r: nat)
    ensures r > 0
  {
    if k == 0 then 1 else 128 * Pow128(k - 1)
  }

  /** Reading back gives the number modulo 128^fuel, whatever follows. */
  lemma {:induction false} ReadEncoded(n: nat, rest: seq<Byte>, fuel: nat)
    ensures var r := Read(Encoded(n) + rest, fuel);
      && r.Some?
      && r.value.0 == n % Pow128(fuel)
      && (fuel > 0 && n < Pow128(fuel) ==> r.value.1 == |Encoded(n)|)
    decreases fuel
  {
    var s := Encoded(n) + rest;
    if fuel > 0 {
      var p := Pow128(fuel - 1);
      if n < 128 {
        assert s[0] == n;
        DivModUnique(n, 128 * p, 0, n);
      } else {
        assert s[0] == n % 128 + 128;
        assert s[1..] == Encoded(n / 128) + rest;
        ReadEncoded(n / 128, rest, fuel - 1);
        SplitMod(n, p);
      }
    } else {
      DivModUnique(n, 1, n, 0);
    }
  }

  /** Byte i holds the i-th group of seven bits, from the low end, and its top bit tells
      that another byte follows. */
  lemma {:induction false} EncodedBytes(n: nat, i: nat)
    requires i < |Encoded(n)|
    ensures Encoded(n)[i] % 128 == n / Pow128(i) % 128
    ensures Encoded(n)[i] >= 128 <==> i < |Encoded(n)| - 1
    decreases i
  {
    if i > 0 {
      EncodedBytes(n / 128, i - 1);
      DivTwice(n, Pow128(i - 1));
    } else {
      DivModUnique(n, 1, n, 0);
    }
  }

  lemma DivTwice(n: nat, p: nat)
    requires p > 0
    ensures n / 128 / p == n / (128 * p)
  {
    var q := n / 128;
    var a, b := q / p, q % p;
    assert n == 128 * q + n % 128 && q == a * p + b;
    assert 128 * (a * p) == a * (128 * p);
    DivModUnique(n, 128 * p, a, n % 128 + 128 * b);
  }

  lemma SplitMod(n: nat, p: nat)
    requires p > 0
    ensures n % (128 * p) == n % 128 + 128 * (n / 128 % p)
    ensures n < 128 * p ==> n / 128 < p
  {
    var q := n / 128;
    var a, b := q / p, q % p;
    assert q == a * p + b;
    assert n == 128 * q + n % 128;
    assert 128 * (a * p) == a * (128 * p);
    DivModUnique(n, 128 * p, a, n % 128 + 128 * b);
    if q >= p {
      MulMonotone(128, 128, p, q);
    }
  }

  /** The field round trips, with whatever follows it, exactly below 2^28. */
  lemma RoundTripIff(n: nat, rest: seq<Byte>)
    ensures Decoded(Encoded(n) + rest) == Some((n, |Encoded(n)|)) <==> n < LIMIT
    ensures n < LIMIT ==> |Encoded(n)| <= 4
  {
    assert Pow128(4) == LIMIT;
    ReadEncoded(n, rest, 4);
    if n < LIMIT {
      DivModUnique(n, LIMIT, 0, n);
    }
  }

  /** The loop of `_send`. */
  method Put(n: nat) returns (varint: seq<Byte>)
    ensures varint == Encoded(n)
  {
    varint := [];
    var rem := n;
    while true
      invariant varint + Encoded(rem) == Encoded(n)
      decreases rem
    {
      var d := rem % 128;
      ghost var before := rem;
      rem := rem / 128;
      if rem != 0 {
        assert varint + ([d + 128] + Encoded(rem)) == (varint + [d + 128]) + Encoded(rem);
        varint := varint + [d + 128];
      } else {
        assert Encoded(before) == [d];
        varint := varint + [d];
        break;
      }
    }
  }

  /** The loop of `recv_pkt` over the bytes received; None when they run out. */
  method Get(s: seq<Byte>) returns (r: Option<(nat, nat)>)
    ensures r == Decoded(s)
  {
    var rem: nat, mult: nat, i := 0, 1, 0;
    while i < 4
      invariant 0 <= i <= 4 && i <= |s|
      invariant Combine(rem, mult, i, Read(s[i..], 4 - i)) == Decoded(s)
    {
      if i >= |s| {
        return None;
      }
      var b := s[i];
      assert s[i..][0] == b && s[i..][1..] == s[i + 1..];
      var low: int := if b < 128 then b else b - 128;
      CombineStep(rem, mult, i, low, Read(s[i + 1..], 3 - i));
      if b < 128 {
        CombineLast(rem, mult, i, low);
        return Some((rem + low * mult, i + 1));
      }
      rem := rem + low * mult;
      mult := mult * 128;
      i := i + 1;
    }
    assert mult * 0 == 0;
    r := Some((rem, i));
  }

  /** A field whose first i bytes gave rem, continued by what the rest gives. */
  ghost function Combine(rem: nat, mult: nat, i: nat, rest: Option<(nat, nat)>): Option<(nat, nat)> {
    if rest.None? then None
    else
      MulNat(mult, rest.value.0);
      Some((rem + mult * rest.value.0, i + rest.value.1))
  }

  lemma CombineLast(rem: nat, mult: nat, i: nat, low: nat)
    ensures low * mult >= 0
    ensures Combine(rem, mult, i, Some((low, 1))) == Some((rem + low * mult, i + 1))
  {
    MulNat(low, mult);
    assert mult * low == low * mult;
  }

  lemma CombineStep(rem: nat, mult: nat, i: nat, low: nat, rest: Option<(nat, nat)>)
    ensures low * mult >= 0
    ensures Combine(rem, mult, i, if rest.None? then None else Some((low + 128 * rest.value.0, rest.value.1 + 1)))
         == Combine(rem + low * mult, mult * 128, i + 1, rest)
  {
    MulNat(low, mult);
    if rest.Some? {
      var v := rest.value.0;
      assert mult * (low + 128 * v) == low * mult + mult * 128 * v;
    }
  }
}
