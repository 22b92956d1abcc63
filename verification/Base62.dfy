/** Base62 text of webhook payloads: repeated in-place division of the payload,
    read as a big integer, by 62. */
module Base62 {
  import opened Arith
  import opened Digits
  import VarInt

  const DECIMAL: string := "0123456789"
  const UPPER: string := "ABCDEFGHIJKLMNOPQRSTUVWXYZ"
  const LOWER: string := "abcdefghijklmnopqrstuvwxyz"

  /** The character of a base 62 digit. */
  function Symbol(d: int): char
    requires 0 <= d < 62
  {
    if d < 10 then ('0' as int + d) as char
    else if d < 36 then ('A' as int + d - 10) as char
    else ('a' as int + d - 36) as char
  }

  /** Symbol is indexing into the encoder's alphabet. */
  lemma SymbolIsAlphabet(d: int)
    requires 0 <= d < 62
    ensures (DECIMAL + UPPER + LOWER)[d] == Symbol(d)
  {
    if d < 10 {
      assert DECIMAL[d] == Symbol(d);
    } else if d < 36 {
      assert UPPER[d - 10] == Symbol(d);
    } else {
      assert LOWER[d - 36] == Symbol(d);
    }
  }

  /** BASE62_ENCODE_OUT_SIZE, computed in 32-bit unsigned arithmetic. */
  function OutSize(n: nat): nat {
    n * 135 % TWO_32 / 100 + 4
  }

  // Reference encoding

  function Chars(digits: seq<int>): (s: string)
    requires IsNumeral(digits, 62)
    ensures |s| == |digits|
    ensures forall i :: 0 <= i < |s| ==> s[i] == Symbol(digits[i])
  {
    if digits == [] then "" else Chars(digits[..|digits| - 1]) + [Symbol(digits[|digits| - 1])]
  }

  /** The number in base 62, without leading zeros. */
  function Numeral(v: nat): string {
    Chars(ToDigits(v, 62))
  }

  function Zeros(n: nat): (s: string)
    ensures |s| == n && forall i :: 0 <= i < n ==> s[i] == '0'
  {
    seq(n, _ => '0')
  }

  /** One '0' for each leading zero byte, then the value of the bytes in base 62. */
  function Encoded(input: seq<Byte>): string {
    ValueBounds(input, 256);
    Zeros(LeadingZeros(input)) + Numeral(Value(input, 256))
  }

  function Reversed(s: string): (r: string)
    ensures |r| == |s|
    ensures forall i :: 0 <= i < |s| ==> r[i] == s[|s| - 1 - i]
  {
    seq(|s|, i requires 0 <= i < |s| => s[|s| - 1 - i])
  }

  // Decoding

  function DigitOf(c: char): (d: int)
    ensures 0 <= d < 62
  {
    if '0' <= c <= '9' then c as int - '0' as int
    else if 'A' <= c <= 'Z' then c as int - 'A' as int + 10
    else if 'a' <= c <= 'z' then c as int - 'a' as int + 36
    else 0
  }

  function DigitsOf(s: string): (d: seq<int>)
    ensures |d| == |s| && IsNumeral(d, 62)
    ensures forall i :: 0 <= i < |s| ==> d[i] == DigitOf(s[i])
  {
    seq(|s|, i requires 0 <= i < |s| => DigitOf(s[i]))
  }

  /** One zero byte for each leading '0', then the value of the text in base 256. */
  function Decoded(text: string): seq<int> {
    var d := DigitsOf(text);
    ValueBounds(d, 62);
    ZeroDigits(LeadingZeros(d)) + ToDigits(Value(d, 62), 256)
  }

  lemma SymbolDigit(d: int)
    requires 0 <= d < 62
    ensures DigitOf(Symbol(d)) == d
  {
  }

  lemma DigitsOfChars(digits: seq<int>)
    requires IsNumeral(digits, 62)
    ensures DigitsOf(Chars(digits)) == digits
  {
    forall i | 0 <= i < |digits| ensures DigitOf(Chars(digits)[i]) == digits[i] {
      SymbolDigit(digits[i]);
    }
  }

  function ZeroDigits(n: nat): (s: seq<int>)
    ensures |s| == n && forall i :: 0 <= i < n ==> s[i] == 0
  {
    if n == 0 then [] else [0] + ZeroDigits(n - 1)
  }

  /** The digits of the text: as many zeros as leading zero bytes, then the
      canonical digits of the value. */
  lemma DigitsOfEncoded(input: seq<Byte>)
    ensures Value(input, 256) >= 0
    ensures DigitsOf(Encoded(input)) == ZeroDigits(LeadingZeros(input)) + ToDigits(Value(input, 256), 62)
  {
    ValueBounds(input, 256);
    DigitsOfChars(ToDigits(Value(input, 256), 62));
  }

  lemma {:induction false} LeadingZerosIs(s: seq<int>, z: nat)
    requires z <= |s| && forall i :: 0 <= i < z ==> s[i] == 0
    requires z < |s| ==> s[z] != 0
    ensures LeadingZeros(s) == z
  {
    if z > 0 {
      LeadingZerosIs(s[1..], z - 1);
    }
  }

  lemma LeadingZerosPadded(z: nat, digits: seq<int>)
    requires digits == [] || digits[0] != 0
    ensures LeadingZeros(ZeroDigits(z) + digits) == z
    ensures forall b: nat :: Value(ZeroDigits(z) + digits, b) == Value(digits, b)
  {
    var s := ZeroDigits(z) + digits;
    LeadingZerosIs(s, z);
    assert s[z..] == digits;
    forall b: nat ensures Value(s, b) == Value(digits, b) {
      ValueSkipsZeros(s, z, b);
    }
  }

  /** The text read in base 62 has the value of the input read in base 256, and
      starts with as many zero digits as the input has leading zero bytes. */
  lemma EncodedValue(input: seq<Byte>)
    ensures Value(DigitsOf(Encoded(input)), 62) == Value(input, 256) >= 0
    ensures LeadingZeros(DigitsOf(Encoded(input))) == LeadingZeros(input)
  {
    DigitsOfEncoded(input);
    ToDigitsValue(Value(input, 256), 62);
    LeadingZerosPadded(LeadingZeros(input), ToDigits(Value(input, 256), 62));
  }

  lemma {:induction false} SplitZeros(s: seq<int>)
    ensures ZeroDigits(LeadingZeros(s)) + s[LeadingZeros(s)..] == s
  {
    if s != [] && s[0] == 0 {
      SplitZeros(s[1..]);
      assert s[1..][LeadingZeros(s) - 1..] == s[LeadingZeros(s)..];
    }
  }

  lemma StripZeros(s: seq<int>, b: nat)
    requires b >= 2 && IsNumeral(s, b)
    ensures Value(s, b) >= 0
    ensures ToDigits(Value(s, b), b) == s[LeadingZeros(s)..]
  {
    ValueSkipsZeros(s, LeadingZeros(s), b);
    ToDigitsOfValue(s[LeadingZeros(s)..], b);
  }

  /** Decoding recovers every input. */
  lemma DecodedEncoded(input: seq<Byte>)
    ensures Decoded(Encoded(input)) == input
  {
    EncodedValue(input);
    SplitZeros(input);
    StripZeros(input, 256);
  }

  // The size of the output buffer

  lemma TwentyBytesInTwentySevenDigits()
    ensures Pow(256, 20) < Pow(62, 27)
  {
    assert Pow(256, 4) == 0x1_0000_0000;
    PowMul(256, 4, 5);
    assert Pow(0x1_0000_0000, 5) == 0x1_0000_0000_0000_0000_0000_0000_0000_0000_0000_0000;
    assert Pow(62, 3) == 238328;
    PowMul(62, 3, 9);
    assert Pow(238328, 3) == 13537086546263552;
    PowMul(238328, 3, 3);
    assert Pow(13537086546263552, 3) == 13537086546263552 * 13537086546263552 * 13537086546263552;
  }

  lemma RaiseLess(a: nat, j: nat, p: nat, y: nat)
    requires p > 0 && Pow(a, j) < y
    ensures Pow(a, j * p) < Pow(y, p)
  {
    PowMul(a, j, p);
    PowBaseStrict(Pow(a, j), y, p);
  }

  lemma RaiseAtMost(b: nat, m: nat, p: nat, w: nat)
    requires Pow(b, p) <= w
    ensures Pow(Pow(b, m), p) <= Pow(w, m)
  {
    PowSwap(b, m, p);
    PowBaseMonotone(Pow(b, p), w, m);
  }

  /** If p digits in base b fit in q digits in base a, then so in proportion. */
  lemma ProportionalLength(a: nat, b: nat, p: nat, q: nat, j: nat, m: nat)
    requires a > 0 && p > 0
    requires Pow(b, p) <= Pow(a, q) && Pow(a, j) < Pow(b, m)
    ensures j * p < q * m
  {
    var y, w := Pow(b, m), Pow(a, q);
    MulNat(j, p);
    MulNat(q, m);
    var left, right := j * p, q * m;
    assert Pow(a, left) < Pow(y, p) by { RaiseLess(a, j, p, y); }
    assert Pow(y, p) <= Pow(w, m) by { RaiseAtMost(b, m, p, w); }
    assert Pow(w, m) == Pow(a, right) by { PowMul(a, q, m); }
    PowExpStrict(a, left, right);
  }

  /** m bytes without a leading zero take at least m and at most 27m/20 + 1 digits. */
  lemma NumeralLength(s: seq<int>)
    requires IsNumeral(s, 256) && s != [] && s[0] != 0
    ensures Value(s, 256) > 0
    ensures |s| <= |Numeral(Value(s, 256))|
    ensures 20 * (|Numeral(Value(s, 256))| - 1) < 27 * |s|
  {
    var m := |s|;
    ValueBounds(s, 256);
    var low: nat := Pow(256, m - 1);
    var v := Value(s, 256);
    assert 0 < low <= v;
    var digits := ToDigits(v, 62);
    ToDigitsValue(v, 62);
    ValueBounds(digits, 62);
    TwentyBytesInTwentySevenDigits();
    ProportionalLength(62, 256, 20, 27, |digits| - 1, m);
    PowBaseMonotone(62, 256, m - 1);
    PowExpStrict(62, m - 1, |digits|);
  }

  lemma EncodedLength(input: seq<Byte>)
    ensures |input| <= |Encoded(input)|
    ensures |Encoded(input)| <= 135 * |input| / 100 + 1
  {
    var z := LeadingZeros(input);
    ValueBounds(input, 256);
    ValueSkipsZeros(input, z, 256);
    if z < |input| {
      NumeralLength(input[z..]);
    }
  }

  /** Text and terminator fit the buffer that the caller allocates exactly when the
      32-bit product in the size macro does not wrap around. */
  lemma FitsIffNoWrap(input: seq<Byte>)
    requires |input| < TWO_32
    ensures |Encoded(input)| + 1 <= OutSize(|input|) <==> 135 * |input| < TWO_32
  {
    var n := |input|;
    EncodedLength(input);
    if 135 * n < TWO_32 {
      DivModUnique(n * 135, TWO_32, 0, n * 135);
    } else {
      WrappedSize(n);
    }
  }

  /** The longest payload whose text fits. */
  const LONGEST: nat := 31_814_572

  /** Of the payloads that an MQTT packet can carry, those longer than LONGEST overrun. */
  lemma ReceivableFitsIff(input: seq<Byte>)
    requires |input| < VarInt.LIMIT
    ensures |Encoded(input)| + 1 <= OutSize(|input|) <==> |input| <= LONGEST
  {
    FitsIffNoWrap(input);
  }

  lemma WrappedSize(n: nat)
    requires TWO_32 <= 135 * n
    ensures OutSize(n) <= n
  {
    var r := n * 135 % TWO_32;
    if n < 2 * TWO_32 / 135 {
      DivModUnique(n * 135, TWO_32, 1, n * 135 - TWO_32);
    }
  }

  // The encoder

  /** One column of the long division. */
  lemma DivideColumn(dividend: seq<int>, quotient: seq<int>, r: nat, b: int, q: int, rest: nat)
    requires Value(quotient, 256) * 62 + r == Value(dividend, 256)
    requires q * 62 + rest == r * 256 + b
    ensures Value(quotient + [q], 256) * 62 + rest == Value(dividend + [b], 256)
  {
    ValueSnoc(quotient, q, 256);
    ValueSnoc(dividend, b, 256);
  }

  /** One byte divided, with the remainder of the bytes before it. */
  method DivideByte(b: Byte, remainder: nat) returns (q: Byte, rest: nat)
    requires remainder < 62
    ensures rest < 62 && q * 62 + rest == remainder * 256 + b
  {
    var dividend := remainder * 256 + b;
    q := dividend / 62;
    rest := dividend % 62;
  }

  /** One division of the big integer tmp[start..] by 62, in place. */
  method DivideBy62(tmp: array<Byte>, start: nat) returns (remainder: nat)
    requires start <= tmp.Length
    modifies tmp
    ensures remainder < 62
    ensures forall k :: 0 <= k < start ==> tmp[k] == old(tmp[k])
    ensures Value(tmp[start..], 256) * 62 + remainder == Value(old(tmp[start..]), 256)
  {
    remainder := 0;
    ghost var was := tmp[..];
    ghost var quotients: seq<int>, bytes: seq<int> := [], [];
    for i := start to tmp.Length
      invariant remainder < 62
      invariant forall k :: 0 <= k < start || i <= k < tmp.Length ==> tmp[k] == was[k]
      invariant tmp[start..i] == quotients && was[start..i] == bytes
      invariant Value(quotients, 256) * 62 + remainder == Value(bytes, 256)
    {
      var q: Byte, rest := DivideByte(tmp[i], remainder);
      DivideColumn(bytes, quotients, remainder, tmp[i], q, rest);
      bytes := bytes + [tmp[i]];
      quotients := quotients + [q];
      tmp[i] := q;
      remainder := rest;
    }
    assert was[start..] == bytes && tmp[start..] == quotients;
  }

  /** Exchanges the first n characters end for end. */
  method ReversePrefix(out: array<char>, n: nat)
    requires n <= out.Length
    modifies out
    ensures out[..n] == Reversed(old(out[..n]))
    ensures forall j :: n <= j < out.Length ==> out[j] == old(out[j])
  {
    for i := 0 to n / 2
      invariant forall k :: 0 <= k < i ==> out[k] == old(out[n - 1 - k]) && out[n - 1 - k] == old(out[k])
      invariant forall k :: i <= k < n - i ==> out[k] == old(out[k])
      invariant forall k :: n <= k < out.Length ==> out[k] == old(out[k])
    {
      out[i], out[n - 1 - i] := out[n - 1 - i], out[i];
    }
    forall k | 0 <= k < n ensures out[k] == old(out[n - 1 - k]) {
      if k >= n / 2 && n - 1 - k < n / 2 {
        assert out[n - 1 - (n - 1 - k)] == old(out[n - 1 - k]);
      }
    }
  }

  /** The digits of tmp[start..], least significant first. */
  method EmitDigits(tmp: array<Byte>, zeros: nat, out: array<char>) returns (n: nat)
    requires zeros <= tmp.Length && (zeros < tmp.Length ==> tmp[zeros] != 0)
    requires Value(tmp[zeros..], 256) >= 0 && |Numeral(Value(tmp[zeros..], 256))| <= out.Length
    modifies tmp, out
    ensures n <= out.Length && Reversed(out[..n]) == Numeral(old(Value(tmp[zeros..], 256)))
    ensures forall j :: n <= j < out.Length ==> out[j] == old(out[j])
  {
    ghost var v0 := Value(tmp[zeros..], 256);
    n := 0;
    var start := zeros;
    while start < tmp.Length
      invariant start <= tmp.Length && (start < tmp.Length ==> tmp[start] != 0)
      invariant n <= |Numeral(v0)|
      invariant Value(tmp[start..], 256) >= 0
      invariant Numeral(v0) == Numeral(Value(tmp[start..], 256)) + Reversed(out[..n])
      invariant forall j :: n <= j < out.Length ==> out[j] == old(out[j])
      decreases Value(tmp[start..], 256)
    {
      ghost var v := Value(tmp[start..], 256);
      FirstBytePositive(tmp[start..]);
      NumeralStep(v);
      var remainder := DivideBy62(tmp, start);
      ghost var q := Value(tmp[start..], 256);
      DivModUnique(v, 62, q, remainder);
      ghost var before := out[..n];
      out[n] := Symbol(remainder);
      n := n + 1;
      assert out[..n] == before + [Symbol(remainder)];
      EmitOne(Numeral(q), Symbol(remainder), before);
      start := SkipZeros(tmp, start);
    }
  }

  lemma FirstBytePositive(s: seq<Byte>)
    requires s != [] && s[0] != 0
    ensures Value(s, 256) > 0
  {
    ValueBounds(s, 256);
    assert Pow(256, |s| - 1) > 0;
  }

  method SkipZeros(tmp: array<Byte>, from: nat) returns (start: nat)
    requires from <= tmp.Length
    ensures from <= start <= tmp.Length && (start < tmp.Length ==> tmp[start] != 0)
    ensures forall i :: from <= i < start ==> tmp[i] == 0
    ensures Value(tmp[start..], 256) == Value(tmp[from..], 256)
  {
    start := from;
    while start < tmp.Length && tmp[start] == 0
      invariant from <= start <= tmp.Length
      invariant forall i :: from <= i < start ==> tmp[i] == 0
    {
      start := start + 1;
    }
    ValueSkipsZeros(tmp[from..], start - from, 256);
    assert tmp[from..][start - from..] == tmp[start..];
  }

  method PadZeros(out: array<char>, k: nat, zeros: nat) returns (n: nat)
    requires k + zeros <= out.Length
    modifies out
    ensures n == k + zeros
    ensures out[..n] == old(out[..k]) + Zeros(zeros)
    ensures forall j :: n <= j < out.Length ==> out[j] == old(out[j])
  {
    n := k;
    for i := 0 to zeros
      invariant n == k + i
      invariant forall j :: 0 <= j < out.Length ==> out[j] == if k <= j < n then '0' else old(out[j])
    {
      out[n] := Symbol(0);
      n := n + 1;
    }
  }

  /** Leading zeros, most significant digit first, and the terminator. */
  method Finish(out: array<char>, k: nat, zeros: nat) returns (n: nat)
    requires k + zeros < out.Length
    modifies out
    ensures n == k + zeros
    ensures out[..n] == Zeros(zeros) + Reversed(old(out[..k]))
    ensures out[n] == '\0'
    ensures forall j :: n < j < out.Length ==> out[j] == old(out[j])
  {
    n := PadZeros(out, k, zeros);
    ReversedZeros(old(out[..k]), zeros);
    ReversePrefix(out, n);
    ghost var text := out[..n];
    out[n] := '\0';
    assert out[..n] == text;
  }

  /** base62_encode. `gotMemory` is the outcome of allocating the scratch copy. */
  method Encode(input: seq<Byte>, out: array?<char>, gotMemory: bool) returns (n: nat)
    requires out != null ==> |Encoded(input)| < out.Length
    modifies out
    ensures input == [] || out == null || !gotMemory ==> n == 0
    ensures out != null && n == 0 ==> out[..] == old(out[..])
    ensures input != [] && out != null && gotMemory ==>
      && n == |Encoded(input)|
      && out[..n] == Encoded(input)
      && out[n] == '\0'
      && forall j :: n < j < out.Length ==> out[j] == old(out[j])
  {
    if |input| == 0 || out == null || !gotMemory {
      return 0;
    }
    ghost var v0 := Value(input, 256);
    ValueBounds(input, 256);
    EncodedLength(input);
    var tmp := new Byte[|input|](i requires 0 <= i < |input| => input[i]);
    assert tmp[..] == input && tmp[0..] == input;
    var zeros := SkipZeros(tmp, 0);
    LeadingZerosIs(input, zeros);
    n := EmitDigits(tmp, zeros, out);
    n := Finish(out, n, zeros);
  }

  lemma EmitOne(front: string, c: char, emitted: string)
    ensures front + [c] + Reversed(emitted) == front + Reversed(emitted + [c])
  {
  }

  lemma NumeralStep(v: nat)
    requires v > 0
    ensures Numeral(v) == Numeral(v / 62) + [Symbol(v % 62)]
    ensures v / 62 < v
  {
    var d := ToDigits(v, 62);
    assert d[..|d| - 1] == ToDigits(v / 62, 62);
  }

  lemma ReversedZeros(s: string, n: nat)
    ensures Reversed(s + Zeros(n)) == Zeros(n) + Reversed(s)
  {
  }
}
