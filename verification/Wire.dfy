/** Fields of MQTT packets: 16-bit numbers, length-prefixed strings, property blocks. */
module Wire {
  import opened Wrappers
  import opened Arith
  import VarInt

  type U16 = x: int | 0 <= x < 0x1_0000

  /** A byte string that a 16-bit length prefix can announce. */
  type Str = s: seq<Byte> | |s| < 0x1_0000 witness []

  /** The check of UTF-8 strings, which the message library makes. */
  type Utf8 = seq<Byte> -> bool

  function PutU16(n: U16): (s: seq<Byte>)
    ensures |s| == 2
  {
    [n / 256, n % 256]
  }

  function GetU16(s: seq<Byte>, pos: nat): U16
    requires pos + 2 <= |s|
  {
    (s[pos] as int) * 256 + s[pos + 1]
  }

  predicate IsString(utf8: Utf8, t: seq<Byte>) {
    |t| < 0x1_0000 && (t == [] || utf8(t))
  }

  function PutString(t: seq<Byte>): seq<Byte>
    requires |t| < 0x1_0000
  {
    PutU16(|t|) + t
  }

  /** copyn_utf8_str: the string at pos and the position after it, when its length
      prefix and its bytes lie within s and it is valid. */
  function GetString(utf8: Utf8, s: seq<Byte>, pos: nat): (r: Option<(seq<Byte>, nat)>)
    requires pos <= |s|
    ensures r.Some? ==> pos + 2 <= r.value.1 <= |s| && r.value.1 == pos + 2 + |r.value.0|
    ensures r.Some? ==> IsString(utf8, r.value.0)
  {
    if |s| - pos < 2 then None
    else
      var n := GetU16(s, pos);
      if n > |s| - pos - 2 then None
      else
        var t := s[pos + 2..pos + 2 + n];
        if n > 0 && !utf8(t) then None else Some((t, pos + 2 + n))
  }

  /** Numbers are written with the high byte first. */
  lemma NetworkOrder(n: U16, s: seq<Byte>)
    requires |s| >= 2
    ensures PutU16(n)[0] as int * 256 + PutU16(n)[1] == n
    ensures GetU16(s, 0) == s[0] as int * 256 + s[1]
  {
  }

  lemma U16RoundTrip(pre: seq<Byte>, n: U16, post: seq<Byte>)
    ensures GetU16(pre + PutU16(n) + post, |pre|) == n
  {
    var s := pre + PutU16(n) + post;
    assert s[|pre|] == n / 256 && s[|pre| + 1] == n % 256;
  }

  /** Reading a string that was put at a position gives it back. */
  lemma StringRoundTrip(utf8: Utf8, pre: seq<Byte>, t: seq<Byte>, post: seq<Byte>)
    requires IsString(utf8, t)
    ensures GetString(utf8, pre + PutString(t) + post, |pre|) == Some((t, |pre| + 2 + |t|))
  {
    var s := pre + PutString(t) + post;
    assert s == pre + PutU16(|t|) + (t + post);
    U16RoundTrip(pre, |t|, t + post);
    assert s[|pre| + 2..|pre| + 2 + |t|] == t;
  }

  lemma PutGetU16(s: seq<Byte>, pos: nat)
    requires pos + 2 <= |s|
    ensures PutU16(GetU16(s, pos)) == s[pos..pos + 2]
  {
  }

  /** A string that was read is, put again, the bytes it was read from. */
  lemma PutGetString(utf8: Utf8, s: seq<Byte>, pos: nat)
    requires pos <= |s| && GetString(utf8, s, pos).Some?
    ensures var (t, next) := GetString(utf8, s, pos).value; PutString(t) == s[pos..next]
  {
    PutGetU16(s, pos);
    var n := GetU16(s, pos);
    assert s[pos..pos + 2 + n] == s[pos..pos + 2] + s[pos + 2..pos + 2 + n];
  }

  /** The variable byte integer at the start of s and the number of its bytes: one
      to four, the last of them below 128. */
  function GetVarInt(s: seq<Byte>): (r: Option<(nat, nat)>)
    ensures r.Some? ==> 1 <= r.value.1 <= |s|
  {
    var v := VarInt.Decoded(s);
    if v.None? || v.value.1 == 0 || s[v.value.1 - 1] >= 128 then None else Some(v.value)
  }

  lemma {:induction false} EncodedLastByte(n: nat)
    ensures VarInt.Encoded(n)[|VarInt.Encoded(n)| - 1] < 128
  {
    if n >= 128 {
      EncodedLastByte(n / 128);
    }
  }

  lemma VarIntRoundTrip(n: nat, rest: seq<Byte>)
    requires n < VarInt.LIMIT
    ensures GetVarInt(VarInt.Encoded(n) + rest) == Some((n, |VarInt.Encoded(n)|))
  {
    VarInt.RoundTripIff(n, rest);
    EncodedLastByte(n);
  }

  /** A property block: its length as a variable byte integer, then its bytes. */
  function PutProps(props: seq<Byte>): seq<Byte> {
    VarInt.Encoded(|props|) + props
  }

  function GetProps(s: seq<Byte>, pos: nat): (r: Option<(seq<Byte>, nat)>)
    requires pos <= |s|
    ensures r.Some? ==> pos <= r.value.1 <= |s|
  {
    var v := GetVarInt(s[pos..]);
    if v.None? || pos + v.value.1 + v.value.0 > |s| then None
    else
      var start := pos + v.value.1;
      Some((s[start..start + v.value.0], start + v.value.0))
  }

  lemma PropsRoundTrip(pre: seq<Byte>, props: seq<Byte>, post: seq<Byte>)
    requires |props| < VarInt.LIMIT
    ensures GetProps(pre + PutProps(props) + post, |pre|) == Some((props, |pre| + |PutProps(props)|))
  {
    var s := pre + PutProps(props) + post;
    var len := VarInt.Encoded(|props|);
    assert s[|pre|..] == len + (props + post);
    VarIntRoundTrip(|props|, props + post);
    assert s[|pre| + |len|..|pre| + |len| + |props|] == props;
  }

  /** The part of a byte string before its first NUL. */
  function CString(s: seq<Byte>): (r: seq<Byte>)
    ensures |r| <= |s|
  {
    if s == [] || s[0] == 0 then [] else [s[0]] + CString(s[1..])
  }

  /** A byte string without NUL is its own C string. */
  lemma {:induction false} WithoutNul(s: seq<Byte>)
    requires 0 !in s
    ensures CString(s) == s
  {
    if s != [] {
      WithoutNul(s[1..]);
    }
  }
}
