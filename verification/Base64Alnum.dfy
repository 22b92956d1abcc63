/** Unpadded, alphanumeric base64 of webhook payloads: a bit accumulator that takes
    in eight bits at a time and gives out six. */
module Base64Alnum {
  import opened Arith
  import Base62
  import VarInt

  type Bit = x: int | 0 <= x < 2

  /** BASE64_NO_PADDING_ENCODE_OUT_SIZE, computed in 32-bit unsigned arithmetic. */
  function OutSize(n: nat): nat {
    n * 8 % TWO_32 / 6 + 2
  }

  // Reference encoding: section 4 of RFC 4648 on bit strings

  /** The w low bits of v, most significant first. */
  function Bits(v: nat, w: nat): (s: seq<Bit>)
    ensures |s| == w
  {
    if w == 0 then [] else Bits(v / 2, w - 1) + [v % 2]
  }

  function Number(s: seq<Bit>): nat {
    if s == [] then 0 else 2 * Number(s[..|s| - 1]) + s[|s| - 1]
  }

  function BitString(input: seq<Byte>): (s: seq<Bit>)
    ensures |s| == 8 * |input|
  {
    if input == [] then [] else Bits(input[0], 8) + BitString(input[1..])
  }

  /** The first six bits, filled up with zeros. */
  function FirstGroup(bits: seq<Bit>): (g: seq<Bit>)
    ensures |g| == 6
  {
    if |bits| < 6 then bits + Bits(0, 6 - |bits|) else bits[..6]
  }

  function AfterGroup(bits: seq<Bit>): seq<Bit> {
    if |bits| < 6 then [] else bits[6..]
  }

  /** Successive groups of six bits, the last one filled up with zeros. */
  function Groups(bits: seq<Bit>): (g: seq<int>)
    ensures |g| == (|bits| + 5) / 6
    decreases |bits|
  {
    if bits == [] then []
    else [Number(FirstGroup(bits))] + Groups(AfterGroup(bits))
  }

  /** The base64 alphabet. */
  function Letter(g: int): char {
    if g < 0 then '/'
    else if g < 26 then ('A' as int + g) as char
    else if g < 52 then ('a' as int + g - 26) as char
    else if g < 62 then ('0' as int + g - 52) as char
    else if g == 62 then '+' else '/'
  }

  /** Letter is indexing into the encoder's table. */
  lemma LetterIsTable(g: int)
    requires 0 <= g < 64
    ensures (Base62.UPPER + Base62.LOWER + Base62.DECIMAL + "+/")[g] == Letter(g)
  {
    if g < 26 {
      assert Base62.UPPER[g] == Letter(g);
    } else if g < 52 {
      assert Base62.LOWER[g - 26] == Letter(g);
    } else if g < 62 {
      assert Base62.DECIMAL[g - 52] == Letter(g);
    }
  }

  /** set_char: the two letters that are not alphanumeric become 'A' and 'B'. */
  function Alnum(c: char): char {
    if c == '+' then 'A' else if c == '/' then 'B' else c
  }

  function Text(groups: seq<int>): (s: string)
    ensures |s| == |groups|
    ensures forall i :: 0 <= i < |s| ==> s[i] == Alnum(Letter(groups[i]))
  {
    seq(|groups|, i requires 0 <= i < |groups| => Alnum(Letter(groups[i])))
  }

  function Encoded(input: seq<Byte>): string {
    Text(Groups(BitString(input)))
  }

  predicate IsAlnum(c: char) {
    'A' <= c <= 'Z' || 'a' <= c <= 'z' || '0' <= c <= '9'
  }

  /** The output is alphanumeric and has ceil(4n/3) characters. */
  lemma EncodedShape(input: seq<Byte>)
    ensures |Encoded(input)| == (4 * |input| + 2) / 3
    ensures forall i :: 0 <= i < |Encoded(input)| ==> IsAlnum(Encoded(input)[i])
  {
    assert |BitString(input)| == 8 * |input|;
  }

  /** It fits the buffer that the caller allocates exactly when the 32-bit product
      in the size macro does not wrap around. */
  lemma FitsIffNoWrap(input: seq<Byte>)
    requires |input| < TWO_32
    ensures |Encoded(input)| <= OutSize(|input|) <==> 8 * |input| < TWO_32
  {
    EncodedShape(input);
  }

  /** So it fits for every payload that an MQTT packet can carry. */
  lemma ReceivableFits(input: seq<Byte>)
    requires |input| < VarInt.LIMIT
    ensures |Encoded(input)| <= OutSize(|input|)
  {
    FitsIffNoWrap(input);
  }

  // Shifts and masks

  /** v >> p */
  function Shr(v: nat, p: nat): nat {
    if p == 0 then v else Shr(v / 2, p - 1)
  }

  /** v << p */
  function Shl(v: nat, p: nat): nat
    decreases p
  {
    if p == 0 then v else Shl(2 * v, p - 1)
  }

  /** v & ((1 << p) - 1) */
  function Low(v: nat, p: nat): nat {
    if p == 0 then 0 else 2 * Low(v / 2, p - 1) + v % 2
  }

  /** Nothing is left above p bits exactly for the numbers below 2^p. */
  lemma {:induction false} ShrZero(v: nat, p: nat)
    ensures Shr(v, p) == 0 <==> v < Pow(2, p)
  {
    if p > 0 {
      ShrZero(v / 2, p - 1);
    }
  }

  lemma {:induction false} LowFits(v: nat, p: nat)
    ensures Shr(Low(v, p), p) == 0
  {
    if p > 0 {
      LowFits(v / 2, p - 1);
    }
  }

  lemma {:induction false} ShrTwice(v: nat, p: nat, q: nat)
    ensures Shr(Shr(v, p), q) == Shr(v, p + q)
  {
    if p > 0 {
      ShrTwice(v / 2, p - 1, q);
    }
  }

  lemma SixBitsFit(g: nat)
    requires Shr(g, 6) == 0
    ensures g < 64
  {
    assert Pow(2, 6) == 64;
    ShrZero(g, 6);
  }

  /** A bit field splits at every position. */
  lemma {:induction false} BitsSplit(v: nat, w: nat, p: nat)
    ensures Bits(v, w + p) == Bits(Shr(v, p), w) + Bits(Low(v, p), p)
  {
    if p > 0 {
      BitsSplit(v / 2, w, p - 1);
      assert Low(v, p) / 2 == Low(v / 2, p - 1) && Low(v, p) % 2 == v % 2;
    }
  }

  lemma {:induction false} BitsShifted(v: nat, w: nat, p: nat)
    ensures Bits(Shl(v, p), w + p) == Bits(v, w) + Bits(0, p)
    decreases p
  {
    if p > 0 {
      BitsShifted(2 * v, w + 1, p - 1);
      assert Bits(2 * v, w + 1) == Bits(v, w) + [0];
      ZeroBits(p - 1);
    }
  }

  lemma {:induction false} ZeroBits(p: nat)
    ensures [0] + Bits(0, p) == Bits(0, p + 1)
  {
    if p > 0 {
      ZeroBits(p - 1);
    }
  }

  lemma {:induction false} ShlFits(v: nat, w: nat, p: nat)
    requires Shr(v, w) == 0
    ensures Shr(Shl(v, p), w + p) == 0
    decreases p
  {
    if p > 0 {
      assert Shr(2 * v, w + 1) == Shr(v, w);
      ShlFits(2 * v, w + 1, p - 1);
    }
  }

  lemma {:induction false} BitsNumber(v: nat, w: nat)
    requires Shr(v, w) == 0
    ensures Number(Bits(v, w)) == v
  {
    if w > 0 {
      BitsNumber(v / 2, w - 1);
      assert Bits(v, w)[..w - 1] == Bits(v / 2, w - 1);
    }
  }

  lemma {:induction false} NumberBits(s: seq<Bit>)
    ensures Bits(Number(s), |s|) == s
  {
    if s != [] {
      NumberBits(s[..|s| - 1]);
    }
  }

  /** Taking in a byte: (val << 8) | b. */
  lemma TakeByte(val: nat, pos: nat, b: Byte)
    requires Shr(val, pos) == 0
    ensures Shr(val * 256 + b, pos + 8) == 0
    ensures Bits(val * 256 + b, pos + 8) == Bits(val, pos) + Bits(b, 8)
  {
    var v := val * 256 + b;
    assert Shr(v, 8) == val && Low(v, 8) == b by { OctetParts(val, b); }
    ShrTwice(v, 8, pos);
    BitsSplit(v, pos, 8);
  }

  lemma OctetParts(val: nat, b: Byte)
    ensures Shr(val * 256 + b, 8) == val && Low(val * 256 + b, 8) == b
  {
    var v, high, low := val * 256 + b, b / 16, b % 16;
    HighNibble(val, b);
    NibbleParts(v);
    NibbleParts(val * 16 + high);
    ShrTwice(v, 4, 4);
    LowSplit(v, 4, 4);
    ShlNibble(high);
  }

  lemma HighNibble(val: nat, b: Byte)
    ensures (val * 256 + b) / 16 == val * 16 + b / 16 && (val * 256 + b) % 16 == b % 16
    ensures (val * 16 + b / 16) / 16 == val && (val * 16 + b / 16) % 16 == b / 16
  {
    DivModUnique(val * 256 + b, 16, val * 16 + b / 16, b % 16);
    DivModUnique(val * 16 + b / 16, 16, val, b / 16);
  }

  lemma ShlNibble(v: nat)
    ensures Shl(v, 2) == 4 * v && Shl(v, 4) == 16 * v
  {
    assert Shl(2 * v, 1) == 4 * v;
    assert Shl(2 * (4 * v), 1) == 16 * v;
  }

  lemma NibbleParts(v: nat)
    ensures Shr(v, 4) == v / 16 && Low(v, 4) == v % 16
  {
    PairParts(v);
    PairParts(v / 4);
    ShrTwice(v, 2, 2);
    LowSplit(v, 2, 2);
    ShlNibble(v / 4 % 4);
  }

  lemma PairParts(v: nat)
    ensures Shr(v, 2) == v / 4 && Low(v, 2) == v % 4
  {
    assert Shr(v / 2, 1) == v / 2 / 2;
    assert Low(v / 2, 1) == v / 2 % 2;
  }

  /** A low field splits; its upper part is counted in units of 2^p. */
  lemma {:induction false} LowSplit(v: nat, p: nat, q: nat)
    ensures Low(v, p + q) == Shl(Low(Shr(v, p), q), p) + Low(v, p)
  {
    if p > 0 {
      LowSplit(v / 2, p - 1, q);
      ShlDouble(Low(Shr(v / 2, p - 1), q), p - 1);
    }
  }

  lemma {:induction false} ShlDouble(v: nat, p: nat)
    ensures Shl(v, p + 1) == 2 * Shl(v, p)
    decreases p
  {
    if p > 0 {
      ShlDouble(2 * v, p - 1);
    }
  }

  lemma TakenByte(held: seq<Bit>, rest: seq<Byte>)
    requires rest != []
    ensures held + BitString(rest) == (held + Bits(rest[0], 8)) + BitString(rest[1..])
  {
  }

  lemma GroupOfBits(g: nat, rest: seq<Bit>)
    requires g < 64
    ensures Groups(Bits(g, 6) + rest) == [g] + Groups(rest)
  {
    assert Pow(2, 6) == 64;
    ShrZero(g, 6);
    BitsNumber(g, 6);
    var all := Bits(g, 6) + rest;
    assert FirstGroup(all) == Bits(g, 6) && AfterGroup(all) == rest;
  }

  lemma GroupBound(val: nat, pos: nat)
    requires pos >= 6 && Shr(val, pos) == 0
    ensures Shr(val, pos - 6) < 64
  {
    ShrTwice(val, pos - 6, 6);
    SixBitsFit(Shr(val, pos - 6));
  }

  /** Giving out the six leading bits: val >> (pos - 6). */
  lemma GiveGroup(val: nat, pos: nat, rest: seq<Bit>)
    requires pos >= 6 && Shr(val, pos) == 0
    ensures Shr(val, pos - 6) < 64
    ensures Groups(Bits(val, pos) + rest) == [Shr(val, pos - 6)] + Groups(Bits(Low(val, pos - 6), pos - 6) + rest)
  {
    var g, low := Shr(val, pos - 6), Bits(Low(val, pos - 6), pos - 6);
    GroupBound(val, pos);
    BitsSplit(val, 6, pos - 6);
    assert Bits(val, pos) + rest == Bits(g, 6) + (low + rest);
    GroupOfBits(g, low + rest);
  }

  lemma NumberIs(s: seq<Bit>, v: nat)
    requires Bits(v, |s|) == s && Shr(v, |s|) == 0
    ensures Number(s) == v
  {
    BitsNumber(v, |s|);
  }

  lemma LastGroup(bits: seq<Bit>)
    requires 0 < |bits| < 6
    ensures Groups(bits) == [Number(bits + Bits(0, 6 - |bits|))]
  {
    assert Groups([]) == [];
  }

  lemma LastBound(val: nat, pos: nat)
    requires pos < 6 && Shr(val, pos) == 0
    ensures Shl(val, 6 - pos) < 64
  {
    ShlFits(val, pos, 6 - pos);
    SixBitsFit(Shl(val, 6 - pos));
  }

  /** Giving out what is left, filled up with zeros: val << (6 - pos). */
  lemma GiveLast(val: nat, pos: nat)
    requires 0 < pos < 6 && Shr(val, pos) == 0
    ensures Groups(Bits(val, pos)) == [Shl(val, 6 - pos)]
  {
    var p := 6 - pos;
    LastGroup(Bits(val, pos));
    BitsShifted(val, pos, p);
    ShlFits(val, pos, p);
    NumberIs(Bits(val, pos) + Bits(0, p), Shl(val, p));
  }

  // The encoder

  method SetChar(out: array<char>, index: nat, c: char) returns (next: nat)
    requires index < out.Length
    modifies out
    ensures next == index + 1
    ensures out[index] == Alnum(c)
    ensures forall k :: 0 <= k < out.Length && k != index ==> out[k] == old(out[k])
  {
    next := index;
    match c {
      case '+' => out[next] := 'A';
      case '/' => out[next] := 'B';
      case _ => out[next] := c;
    }
    next := next + 1;
  }

  /** The groups the accumulator gives out from a state onwards. */
  ghost function Given(val: nat, pos: nat, rest: seq<Byte>): seq<int>
    decreases |rest|, pos
  {
    if pos >= 6 then [Shr(val, pos - 6)] + Given(Low(val, pos - 6), pos - 6, rest)
    else if rest != [] then Given(val * 256 + rest[0], pos + 8, rest[1..])
    else if pos > 0 then [Shl(val, 6 - pos)]
    else []
  }

  /** They are the groups of the bits held and the bits to come. */
  lemma {:induction false} GivenIsGroups(val: nat, pos: nat, rest: seq<Byte>)
    requires Shr(val, pos) == 0
    ensures Given(val, pos, rest) == Groups(Bits(val, pos) + BitString(rest))
    decreases |rest|, pos
  {
    if pos >= 6 {
      GiveGroup(val, pos, BitString(rest));
      LowFits(val, pos - 6);
      GivenIsGroups(Low(val, pos - 6), pos - 6, rest);
    } else if rest != [] {
      TakeByte(val, pos, rest[0]);
      TakenByte(Bits(val, pos), rest);
      GivenIsGroups(val * 256 + rest[0], pos + 8, rest[1..]);
    } else {
      assert Bits(val, pos) + [] == Bits(val, pos);
      if pos > 0 {
        GiveLast(val, pos);
      }
    }
  }

  /** base64_no_padding_encode. The accumulator never holds more than pos bits. */
  method Encode(input: seq<Byte>, out: array<char>) returns (j: nat)
    requires |Encoded(input)| <= out.Length
    modifies out
    ensures j == |Encoded(input)| && out[..j] == Encoded(input)
    ensures forall k :: j <= k < out.Length ==> out[k] == old(out[k])
  {
    var pos: nat, val: nat := 0, 0;
    j := 0;
    ghost var given: seq<int> := [];
    ghost var all := Given(0, 0, input);
    assert all == Groups(BitString(input)) by {
      GivenIsGroups(0, 0, input);
      assert Bits(0, 0) + BitString(input) == BitString(input);
    }
    assert input[0..] == input;
    for i := 0 to |input|
      invariant pos < 6 && Shr(val, pos) == 0
      invariant given + Given(val, pos, input[i..]) == all
      invariant j == |given| <= |all| && out[..j] == Text(given)
      invariant forall k :: j <= k < out.Length ==> out[k] == old(out[k])
    {
      TakeByte(val, pos, input[i]);
      assert input[i..][0] == input[i] && input[i..][1..] == input[i + 1..];
      val := val * 256 + input[i];
      pos := pos + 8;
      val, pos, j, given := GiveGroups(val, pos, out, j, given, input[i + 1..], all);
    }
    if pos > 0 {
      LastBound(val, pos);
      j, given := Give(out, j, Shl(val, 6 - pos), given, [], all);
    }
    assert given + [] == given;
  }

  /** The inner loop: gives out groups while six bits are held. */
  method GiveGroups(v: nat, p: nat, out: array<char>, i: nat,
                    ghost before: seq<int>, ghost rest: seq<Byte>, ghost all: seq<int>)
    returns (val: nat, pos: nat, j: nat, ghost given: seq<int>)
    requires Shr(v, p) == 0 && before + Given(v, p, rest) == all
    requires i == |before| <= |all| <= out.Length && out[..i] == Text(before)
    modifies out
    ensures pos < 6 && Shr(val, pos) == 0 && given + Given(val, pos, rest) == all
    ensures i <= j == |given| <= |all| && out[..j] == Text(given)
    ensures forall k :: j <= k < out.Length ==> out[k] == old(out[k])
  {
    val, pos, j, given := v, p, i, before;
    while pos > 5
      invariant Shr(val, pos) == 0 && given + Given(val, pos, rest) == all
      invariant i <= j == |given| <= |all| && out[..j] == Text(given)
      invariant forall k :: j <= k < out.Length ==> out[k] == old(out[k])
    {
      GroupBound(val, pos);
      LowFits(val, pos - 6);
      pos := pos - 6;
      j, given := Give(out, j, Shr(val, pos), given, Given(Low(val, pos), pos, rest), all);
      val := Low(val, pos);
    }
  }

  /** Appends the letter of one group to the text. */
  method Give(out: array<char>, j: nat, g: nat, ghost given: seq<int>, ghost rest: seq<int>, ghost all: seq<int>)
    returns (next: nat, ghost given': seq<int>)
    requires g < 64 && given + ([g] + rest) == all
    requires j == |given| && |all| <= out.Length && out[..j] == Text(given)
    modifies out
    ensures next == j + 1 <= |all| && given' == given + [g] && given' + rest == all
    ensures out[..next] == Text(given')
    ensures forall k :: next <= k < out.Length ==> out[k] == old(out[k])
  {
    next := SetChar(out, j, Letter(g));
    given' := given + [g];
  }

  // What a base64 decoder makes of the text

  function GroupOf(c: char): int {
    if 'A' <= c <= 'Z' then c as int - 'A' as int
    else if 'a' <= c <= 'z' then c as int - 'a' as int + 26
    else if '0' <= c <= '9' then c as int - '0' as int + 52
    else if c == '+' then 62 else 63
  }

  function BitsOfText(text: string): (s: seq<Bit>)
    ensures |s| == 6 * |text|
  {
    if text == [] then [] else Bits(GroupOf(text[0]), 6) + BitsOfText(text[1..])
  }

  /** Whole bytes of a bit string; leftover bits are dropped. */
  function Bytes(bits: seq<Bit>): (b: seq<int>)
    ensures |b| == |bits| / 8
  {
    if |bits| < 8 then [] else [Number(bits[..8])] + Bytes(bits[8..])
  }

  function Decoded(text: string): seq<int> {
    Bytes(BitsOfText(text))
  }

  lemma {:induction false} BytesOfBitString(input: seq<Byte>, fill: seq<Bit>)
    requires |fill| < 8
    ensures Bytes(BitString(input) + fill) == input
  {
    if input != [] {
      var bits := BitString(input) + fill;
      assert bits[..8] == Bits(input[0], 8);
      assert bits[8..] == BitString(input[1..]) + fill;
      assert Pow(2, 8) == 256;
      ShrZero(input[0], 8);
      BitsNumber(input[0], 8);
      BytesOfBitString(input[1..], fill);
    }
  }

  lemma {:induction false} BitStringOfBytes(bits: seq<Bit>, input: seq<Byte>)
    requires Bytes(bits) == input
    ensures |BitString(input)| <= |bits| && BitString(input) == bits[..|BitString(input)|]
  {
    if input != [] {
      NumberBits(bits[..8]);
      assert Bytes(bits)[1..] == Bytes(bits[8..]);
      BitStringOfBytes(bits[8..], input[1..]);
      assert bits == bits[..8] + bits[8..];
    }
  }

  /** The letter of a group is read back, unless the group is 62 or 63. */
  lemma ReadBack(g: int)
    requires 0 <= g < 64
    ensures GroupOf(Alnum(Letter(g))) == if g < 62 then g else g - 62
  {
  }

  lemma TextTail(bits: seq<Bit>)
    requires bits != []
    ensures Text(Groups(bits))[0] == Alnum(Letter(Number(FirstGroup(bits))))
    ensures Text(Groups(bits))[1..] == Text(Groups(AfterGroup(bits)))
  {
    assert Groups(bits)[1..] == Groups(AfterGroup(bits));
  }

  lemma {:induction false} NumberFits(s: seq<Bit>)
    ensures Shr(Number(s), |s|) == 0
  {
    if s != [] {
      NumberFits(s[..|s| - 1]);
    }
  }

  /** What a decoder reads for the first group of a bit string. */
  lemma FirstRead(bits: seq<Bit>)
    requires bits != [] && Groups(bits)[0] < 62
    ensures BitsOfText(Text(Groups(bits))) == FirstGroup(bits) + BitsOfText(Text(Groups(AfterGroup(bits))))
  {
    var first := FirstGroup(bits);
    TextTail(bits);
    ReadBack(Number(first));
    NumberBits(first);
  }

  lemma TailBelow(bits: seq<Bit>)
    requires |bits| >= 6 && forall i :: 0 <= i < |Groups(bits)| ==> Groups(bits)[i] < 62
    ensures forall i :: 0 <= i < |Groups(bits[6..])| ==> Groups(bits[6..])[i] < 62
  {
    forall i | 0 <= i < |Groups(bits[6..])| ensures Groups(bits[6..])[i] < 62 {
      assert Groups(bits)[i + 1] == Groups(bits[6..])[i];
    }
  }

  lemma LastRead(bits: seq<Bit>)
    requires 0 < |bits| < 6 && Groups(bits)[0] < 62
    ensures BitsOfText(Text(Groups(bits))) == bits + Bits(0, 6 - |bits|)
  {
    FirstRead(bits);
    var after := Text(Groups([]));
    assert after == [];
    assert BitsOfText(after) == [];
  }

  /** When no group is 62 or 63, a decoder reads the bits that went in. */
  lemma {:induction false} BitsOfGroups(bits: seq<Bit>) returns (fill: nat)
    requires forall i :: 0 <= i < |Groups(bits)| ==> Groups(bits)[i] < 62
    ensures fill < 6 && BitsOfText(Text(Groups(bits))) == bits + Bits(0, fill)
    decreases |bits|
  {
    if bits == [] {
      fill := 0;
    } else if |bits| < 6 {
      LastRead(bits);
      fill := 6 - |bits|;
    } else {
      FirstRead(bits);
      TailBelow(bits);
      fill := BitsOfGroups(bits[6..]);
      Rejoin(bits, 6, Bits(0, fill));
    }
  }

  lemma Rejoin(s: seq<Bit>, n: nat, t: seq<Bit>)
    requires n <= |s|
    ensures s[..n] + (s[n..] + t) == s + t
  {
  }

  lemma LeadingBit(s: seq<Bit>)
    requires |s| == 6 && Number(s) >= 62
    ensures s[0] == 1 && Number(s) < 64
  {
    NumberFits(s);
    SixBitsFit(Number(s));
    BitsSplit(Number(s), 1, 5);
    NumberBits(s);
    ShrFive(Number(s));
    assert Bits(1, 1) == [1];
  }

  lemma ShrFive(v: nat)
    requires 62 <= v < 64
    ensures Shr(v, 5) == 1
  {
    NibbleParts(v);
    ShrTwice(v, 4, 1);
    assert Shr(v / 16, 1) == v / 32;
  }

  lemma FoldedBits(g: int)
    requires 62 <= g < 64
    ensures Bits(GroupOf(Alnum(Letter(g))), 6)[0] == 0
  {
    ReadBack(g);
    var v := g - 62;
    BitsSplit(v, 1, 5);
    NibbleParts(v);
    ShrTwice(v, 4, 1);
    assert Shr(0, 1) == 0 && Bits(0, 1) == [0];
  }

  lemma LostFirstBit(bits: seq<Bit>)
    requires bits != [] && Groups(bits)[0] >= 62
    ensures bits[0] == 1 && BitsOfText(Text(Groups(bits)))[0] == 0
  {
    var first := FirstGroup(bits);
    LeadingBit(first);
    TextTail(bits);
    FoldedBits(Number(first));
  }

  lemma BitsOfTail(text: string, i: nat)
    requires text != [] && 6 <= i < 6 * |text|
    ensures BitsOfText(text)[i] == BitsOfText(text[1..])[i - 6]
  {
    AppendAt(Bits(GroupOf(text[0]), 6), BitsOfText(text[1..]), i);
  }

  lemma AppendAt(a: seq<Bit>, b: seq<Bit>, i: nat)
    requires |a| <= i < |a| + |b|
    ensures (a + b)[i] == b[i - |a|]
  {
  }

  lemma SuffixAt(s: seq<Bit>, n: nat, i: nat)
    requires n + i < |s|
    ensures s[n..][i] == s[n + i]
  {
  }

  /** A group of 62 or 63 turns its leading bit from 1 into 0. */
  lemma {:induction false} LostBit(bits: seq<Bit>, k: nat)
    requires k < |Groups(bits)| && Groups(bits)[k] >= 62
    ensures 6 * k < |bits| && bits[6 * k] == 1
    ensures BitsOfText(Text(Groups(bits)))[6 * k] == 0
  {
    if k == 0 {
      LostFirstBit(bits);
    } else {
      var rest := AfterGroup(bits);
      assert Groups(rest)[k - 1] == Groups(bits)[k];
      LostBit(rest, k - 1);
      SuffixAt(bits, 6, 6 * (k - 1));
      TextTail(bits);
      BitsOfTail(Text(Groups(bits)), 6 * k);
    }
  }

  /** A base64 decoder recovers the payload exactly when no group of six bits is 62
      or 63, the two that set_char folds onto 'A' and 'B'. */
  lemma RecoversIff(input: seq<Byte>)
    ensures Decoded(Encoded(input)) == input
      <==> forall i :: 0 <= i < |Groups(BitString(input))| ==> Groups(BitString(input))[i] < 62
  {
    var bits := BitString(input);
    var groups := Groups(bits);
    if forall i :: 0 <= i < |groups| ==> groups[i] < 62 {
      var fill := BitsOfGroups(bits);
      BytesOfBitString(input, Bits(0, fill));
    } else {
      var k :| 0 <= k < |groups| && groups[k] >= 62;
      LostBit(bits, k);
      NotRecovered(BitsOfText(Text(groups)), input, 6 * k);
    }
  }

  lemma NotRecovered(seen: seq<Bit>, input: seq<Byte>, p: nat)
    requires p < |BitString(input)| && p < |seen| && seen[p] != BitString(input)[p]
    ensures Bytes(seen) != input
  {
    if Bytes(seen) == input {
      BitStringOfBytes(seen, input);
    }
  }

  lemma OneByte(b: Byte)
    ensures Groups(BitString([b])) == [b / 4, b % 4 * 16]
  {
    GivenIsGroups(0, 0, [b]);
    assert Bits(0, 0) + BitString([b]) == BitString([b]);
    assert Given(0, 0, [b]) == Given(b, 8, []);
    PairParts(b);
    ShlNibble(b % 4);
  }

  lemma TextOfOne(b: Byte)
    ensures Encoded([b]) == [Alnum(Letter(b / 4)), Alnum(Letter(b % 4 * 16))]
  {
    OneByte(b);
  }

  /** Payloads that share one text. */
  lemma Collision(b: Byte)
    requires b < 4
    ensures Encoded([b]) == Encoded([b + 0xF8])
  {
    TextOfOne(b);
    TextOfOne(b + 0xF8);
  }
}
