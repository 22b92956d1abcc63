/** Positional numerals: the value of a digit sequence and the canonical digits
    of a number, most significant digit first. */
module Digits {
  import opened Arith

  function Value(s: seq<int>, b: nat): int {
    if s == [] then 0 else Value(s[..|s| - 1], b) * b + s[|s| - 1]
  }

  ghost predicate IsNumeral(s: seq<int>, b: nat) {
    forall i :: 0 <= i < |s| ==> 0 <= s[i] < b
  }

  /** The digits of v without leading zeros; none for zero. */
  function ToDigits(v: nat, b: nat): (s: seq<int>)
    requires b >= 2
    ensures IsNumeral(s, b)
    decreases v
  {
    if v == 0 then [] else
      assert v / b < v by { DivShrinks(v, b); }
      ToDigits(v / b, b) + [v % b]
  }

  function LeadingZeros(s: seq<int>): (z: nat)
    ensures z <= |s|
    ensures forall i :: 0 <= i < z ==> s[i] == 0
    ensures z < |s| ==> s[z] != 0
  {
    if s == [] || s[0] != 0 then 0 else 1 + LeadingZeros(s[1..])
  }

  lemma DivShrinks(v: nat, b: nat)
    requires v > 0 && b >= 2
    ensures v / b < v
  {
    var q := v / b;
    assert v == q * b + v % b;
    if q >= v {
      MulMonotone(v, q, 2, b);
    }
  }

  lemma ValueSnoc(s: seq<int>, d: int, b: nat)
    ensures Value(s + [d], b) == Value(s, b) * b + d
  {
    assert (s + [d])[..|s|] == s;
  }

  /** Leading zeros do not count. */
  lemma {:induction false} ValueSkipsZeros(s: seq<int>, z: nat, b: nat)
    requires z <= |s| && forall i :: 0 <= i < z ==> s[i] == 0
    ensures Value(s, b) == Value(s[z..], b)
  {
    if z == |s| {
      ValueOfZeros(s, b);
    } else {
      var t := s[..|s| - 1];
      ValueSkipsZeros(t, z, b);
      assert s[z..] == t[z..] + [s[|s| - 1]];
      ValueSnoc(t[z..], s[|s| - 1], b);
    }
  }

  lemma {:induction false} ValueOfZeros(s: seq<int>, b: nat)
    requires forall i :: 0 <= i < |s| ==> s[i] == 0
    ensures Value(s, b) == 0
  {
    if s != [] {
      ValueOfZeros(s[..|s| - 1], b);
    }
  }

  lemma {:induction false} ValueBounds(s: seq<int>, b: nat)
    requires b >= 2 && IsNumeral(s, b)
    ensures 0 <= Value(s, b) < Pow(b, |s|)
    ensures s != [] && s[0] != 0 ==> Pow(b, |s| - 1) <= Value(s, b)
  {
    if s != [] {
      var t := s[..|s| - 1];
      ValueBounds(t, b);
      HornerBounds(Value(t, b), Pow(b, |t|), b, s[|s| - 1]);
      if t != [] && s[0] != 0 {
        assert t[0] == s[0];
        HornerLower(Value(t, b), Pow(b, |t| - 1), b, s[|s| - 1]);
      }
    }
  }

  lemma HornerBounds(x: nat, bound: nat, b: nat, d: nat)
    requires x < bound && d < b
    ensures 0 <= x * b + d < b * bound
  {
    MulMonotone(x + 1, bound, b, b);
    assert (x + 1) * b == x * b + b;
  }

  lemma HornerLower(x: nat, bound: nat, b: nat, d: nat)
    requires bound <= x
    ensures b * bound <= x * b + d
  {
    MulMonotone(bound, x, b, b);
  }

  /** The digits of a number have its value and do not start with zero. */
  lemma {:induction false} ToDigitsValue(v: nat, b: nat)
    requires b >= 2
    ensures Value(ToDigits(v, b), b) == v
    ensures v > 0 ==> ToDigits(v, b) != [] && ToDigits(v, b)[0] != 0
    decreases v
  {
    if v > 0 {
      DivShrinks(v, b);
      var q, r := v / b, v % b;
      assert v == q * b + r;
      ToDigitsValue(q, b);
      ValueSnoc(ToDigits(q, b), r, b);
      if q > 0 {
        assert ToDigits(v, b)[0] == ToDigits(q, b)[0];
      } else {
        assert ToDigits(v, b) == [r];
      }
    }
  }

  /** Every numeral without leading zeros is the canonical one of its value. */
  lemma {:induction false} ToDigitsOfValue(s: seq<int>, b: nat)
    requires b >= 2 && IsNumeral(s, b)
    requires s == [] || s[0] != 0
    ensures Value(s, b) >= 0 && ToDigits(Value(s, b), b) == s
  {
    ValueBounds(s, b);
    if s != [] {
      var t, d := s[..|s| - 1], s[|s| - 1];
      ToDigitsOfValue(t, b);
      DivModUnique(Value(s, b), b, Value(t, b), d);
      assert s == t + [d];
      assert Pow(b, |s| - 1) > 0;
    }
  }
}
