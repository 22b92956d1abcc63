/** Substitution of the client's identifier and user name in the topics of access
    control rules. Strings are C strings: no NUL inside. */
module Placeholder {
  import opened Wrappers
  import opened Arith

  const TWO_64: nat := 0x1_0000_0000_0000_0000

  const CLIENTID: string := "${clientid}"
  const USERNAME: string := "${username}"

  predicate OccursAt(s: string, pat: string, i: int) {
    0 <= i && i + |pat| <= |s| && s[i..i + |pat|] == pat
  }

  /** strstr: the leftmost occurrence at or after p. */
  function StrStr(s: string, pat: string, p: nat): (r: Option<nat>)
    requires p <= |s|
    ensures r.Some? ==> p <= r.value && r.value + |pat| <= |s|
    decreases |s| - p
  {
    if OccursAt(s, pat, p) then Some(p)
    else if p == |s| then None
    else StrStr(s, pat, p + 1)
  }

  lemma {:induction false} StrStrIsLeftmost(s: string, pat: string, p: nat)
    requires p <= |s|
    ensures var r := StrStr(s, pat, p);
      && (r.Some? ==> OccursAt(s, pat, r.value) && forall i :: p <= i < r.value ==> !OccursAt(s, pat, i))
      && (r.None? ==> forall i :: p <= i ==> !OccursAt(s, pat, i))
    decreases |s| - p
  {
    if !OccursAt(s, pat, p) && p < |s| {
      StrStrIsLeftmost(s, pat, p + 1);
    }
  }

  /** The pieces of s from p on, cut at the leftmost non-overlapping occurrences. */
  function Split(s: string, pat: string, p: nat): (ps: seq<string>)
    requires pat != "" && p <= |s|
    ensures ps != []
    decreases |s| - p
  {
    var k := StrStr(s, pat, p);
    if k.None? then [s[p..]] else [s[p..k.value]] + Split(s, pat, k.value + |pat|)
  }

  function Join(ps: seq<string>, sep: string): string {
    if ps == [] then "" else if |ps| == 1 then ps[0] else ps[0] + sep + Join(ps[1..], sep)
  }

  /** The string from p on with every occurrence replaced, as the scans find them. */
  function Replaced(s: string, pat: string, rep: string, p: nat): string
    requires pat != "" && p <= |s|
    decreases |s| - p
  {
    var k := StrStr(s, pat, p);
    if k.None? then s[p..] else s[p..k.value] + rep + Replaced(s, pat, rep, k.value + |pat|)
  }

  /** Replacing is cutting at the placeholder and joining with the replacement. */
  lemma {:induction false} ReplacedIsJoined(s: string, pat: string, rep: string, p: nat)
    requires pat != "" && p <= |s|
    ensures Replaced(s, pat, rep, p) == Join(Split(s, pat, p), rep)
    decreases |s| - p
  {
    var k := StrStr(s, pat, p);
    if k.Some? {
      ReplacedIsJoined(s, pat, rep, k.value + |pat|);
      assert Split(s, pat, p)[1..] == Split(s, pat, k.value + |pat|);
    }
  }

  lemma {:induction false} ReplacedByItself(s: string, pat: string, p: nat)
    requires pat != "" && p <= |s|
    ensures Replaced(s, pat, pat, p) == s[p..]
    decreases |s| - p
  {
    var k := StrStr(s, pat, p);
    if k.Some? {
      var next := k.value + |pat|;
      assert s[k.value..next] == pat by { StrStrIsLeftmost(s, pat, p); }
      ReplacedByItself(s, pat, next);
      CutInThree(s, p, k.value, next);
    }
  }

  /** The pieces, joined with the placeholder itself, are the original. */
  lemma SplitLosesNothing(s: string, pat: string)
    requires pat != ""
    ensures Join(Split(s, pat, 0), pat) == s
  {
    ReplacedIsJoined(s, pat, pat, 0);
    ReplacedByItself(s, pat, 0);
  }

  lemma CutInThree(s: string, a: nat, b: nat, c: nat)
    requires a <= b <= c <= |s|
    ensures s[a..] == s[a..b] + s[b..c] + s[c..]
  {
  }

  /** No piece holds the placeholder. */
  lemma {:induction false} PiecesAreFree(s: string, pat: string, p: nat)
    requires pat != "" && p <= |s|
    ensures forall i :: 0 <= i < |Split(s, pat, p)| ==> forall j :: !OccursAt(Split(s, pat, p)[i], pat, j)
    decreases |s| - p
  {
    var ps, k := Split(s, pat, p), StrStr(s, pat, p);
    var end := if k.None? then |s| else k.value;
    StrStrIsLeftmost(s, pat, p);
    assert ps[0] == s[p..end];
    forall j ensures !OccursAt(ps[0], pat, j) {
      PieceFree(s, pat, p, end, j);
    }
    if k.Some? {
      PiecesAreFree(s, pat, k.value + |pat|);
      assert ps[1..] == Split(s, pat, k.value + |pat|);
      forall i | 0 <= i < |ps| ensures forall j :: !OccursAt(ps[i], pat, j) {
        if i > 0 {
          assert ps[i] == Split(s, pat, k.value + |pat|)[i - 1];
        }
      }
    }
  }

  lemma PieceFree(s: string, pat: string, p: nat, end: nat, j: int)
    requires p <= end <= |s| && forall i :: p <= i < end ==> !OccursAt(s, pat, i)
    requires pat != ""
    ensures !OccursAt(s[p..end], pat, j)
  {
    if 0 <= j && j + |pat| <= end - p {
      SliceOfSlice(s, p, end, j, j + |pat|);
      assert !OccursAt(s, pat, p + j);
    }
  }

  lemma SliceOfSlice(s: string, a: nat, b: nat, i: nat, j: nat)
    requires a <= b <= |s| && i <= j <= b - a
    ensures s[a..b][i..j] == s[a + i..a + j]
  {
    var t := s[a..b];
    forall k | 0 <= k < j - i ensures t[i..j][k] == s[a + i..a + j][k] {
      assert t[i + k] == s[a + i + k];
    }
  }

  /** Without an occurrence nothing changes. */
  lemma NothingToReplace(s: string, pat: string, rep: string)
    requires pat != "" && StrStr(s, pat, 0).None?
    ensures Replaced(s, pat, rep, 0) == s
  {
    assert s[0..] == s;
  }

  // The code

  /** Addition and subtraction of size_t. */
  function AddWrap(a: nat, b: nat): nat
    requires a < TWO_64 && b < TWO_64
  {
    if a + b < TWO_64 then a + b else a + b - TWO_64
  }

  function SubWrap(a: nat, b: nat): nat
    requires a < TWO_64 && b < TWO_64
  {
    if a >= b then a - b else a - b + TWO_64
  }

  /** The counting scan: the length of the result, in wrapping 64-bit arithmetic. */
  method CountLength(origin: string, pat: string, rep: string) returns (resultLen: nat)
    requires pat != "" && |origin| < TWO_64 && |rep| < TWO_64 && |pat| < TWO_64
    requires |Replaced(origin, pat, rep, 0)| < TWO_64
    ensures resultLen == |Replaced(origin, pat, rep, 0)|
  {
    resultLen := |origin|;
    var p := 0;
    ReplacedLengthIs(origin, pat, rep, 0);
    ghost var exact, left: int := |origin|, ReplacedLength(origin, pat, rep, 0);
    ghost var whole := left;
    while true
      invariant 0 <= p <= |origin| && resultLen == exact % TWO_64
      invariant left == ReplacedLength(origin, pat, rep, p)
      invariant whole - left == exact - (|origin| - p)
      decreases |origin| - p
    {
      var next := StrStr(origin, pat, p);
      if next.None? {
        break;
      }
      exact := WrapStep(resultLen, exact, |rep|, |pat|);
      resultLen := AddWrap(resultLen, SubWrap(|rep|, |pat|));
      p := next.value + |pat|;
      left := ReplacedLength(origin, pat, rep, p);
    }
  }

  /** The length of the string from p on after replacement. */
  ghost function ReplacedLength(s: string, pat: string, rep: string, p: nat): nat
    requires pat != "" && p <= |s|
    decreases |s| - p
  {
    var k := StrStr(s, pat, p);
    if k.None? then |s| - p else k.value - p + |rep| + ReplacedLength(s, pat, rep, k.value + |pat|)
  }

  lemma {:induction false} ReplacedLengthIs(s: string, pat: string, rep: string, p: nat)
    requires pat != "" && p <= |s|
    ensures ReplacedLength(s, pat, rep, p) == |Replaced(s, pat, rep, p)|
    decreases |s| - p
  {
    var k := StrStr(s, pat, p);
    if k.Some? {
      ReplacedLengthIs(s, pat, rep, k.value + |pat|);
    }
  }

  lemma WrapStep(a: nat, exact: int, b: nat, c: nat) returns (sum: int)
    requires a == exact % TWO_64 && b < TWO_64 && c < TWO_64
    ensures sum == exact + b - c && AddWrap(a, SubWrap(b, c)) == sum % TWO_64
  {
    sum := exact + b - c;
  }

  /** replace_placeholder: the copying scan finds the same occurrences as the counting
      scan, fills the buffer exactly and ends it with NUL. */
  method ReplacePlaceholder(origin: string, pat: string, rep: string) returns (result: array<char>)
    requires pat != "" && |origin| < TWO_64 && |rep| < TWO_64 && |pat| < TWO_64
    requires |Replaced(origin, pat, rep, 0)| < TWO_64
    ensures fresh(result)
    ensures result[..] == Replaced(origin, pat, rep, 0) + ['\0']
  {
    var resultLen := CountLength(origin, pat, rep);
    result := new char[resultLen + 1];
    var current, p := 0, 0;
    ghost var all, done, rest := Replaced(origin, pat, rep, 0), "", Replaced(origin, pat, rep, 0);
    while true
      invariant 0 <= p <= |origin| && 0 <= current == |done| <= resultLen
      invariant rest == Replaced(origin, pat, rep, p)
      invariant result[..current] == done && done + rest == all
      decreases |origin| - p
    {
      var next := StrStr(origin, pat, p);
      if next.None? {
        break;
      }
      var segment := origin[p..next.value];
      p := next.value + |pat|;
      assert rest == segment + rep + Replaced(origin, pat, rep, p);
      rest := Replaced(origin, pat, rep, p);
      Regroup(done, segment, rep, rest);
      current := CopyTwo(result, current, segment, rep);
      done := done + segment + rep;
    }
    Regroup(done, origin[p..], "", "");
    current := CopyTwo(result, current, origin[p..], "");
    assert result[..] == result[..current] + [result[current]];
  }

  lemma Regroup(done: string, segment: string, rep: string, rest: string)
    ensures done + (segment + rep + rest) == (done + segment + rep) + rest
    ensures |done + (segment + rep + rest)| == |done| + |segment| + |rep| + |rest|
    ensures done + segment + "" == done + segment
  {
  }

  /** Appends a segment and a replacement, and a NUL after them. */
  method CopyTwo(buf: array<char>, at: nat, segment: string, rep: string) returns (next: nat)
    requires at + |segment| + |rep| < buf.Length
    modifies buf
    ensures next == at + |segment| + |rep|
    ensures buf[..next] == old(buf[..at]) + segment + rep && buf[next] == '\0'
  {
    next := Copy(buf, at, segment);
    next := Copy(buf, next, rep);
    ghost var done := buf[..next];
    buf[next] := '\0';
    assert buf[..next] == done;
  }

  /** memcpy of a string into the buffer at a position. */
  method Copy(buf: array<char>, at: nat, s: string) returns (next: nat)
    requires at + |s| <= buf.Length
    modifies buf
    ensures next == at + |s|
    ensures buf[..next] == old(buf[..at]) + s
  {
    for i := 0 to |s|
      invariant forall j :: 0 <= j < at ==> buf[j] == old(buf[j])
      invariant forall j :: 0 <= j < i ==> buf[at + j] == s[j]
    {
      buf[at + i] := s[i];
    }
    next := at + |s|;
    assert buf[at..next] == s;
    assert buf[..next] == buf[..at] + buf[at..next];
  }

  // Topics of rules

  datatype Client = Client(username: Option<string>, clientid: Option<string>, ip: Option<string>)

  function Substitute(topic: string, pat: string, value: Option<string>): string
    requires pat != ""
  {
    if value.Some? then Replaced(topic, pat, value.value, 0) else topic
  }

  /** The topic of a rule for a client: first the identifier is put in, then, in the
      result, the user name. */
  function ForClient(topic: string, c: Client): string {
    Substitute(Substitute(topic, CLIENTID, c.clientid), USERNAME, c.username)
  }

  ghost predicate SmallEnough(topic: string, c: Client) {
    var t := Substitute(topic, CLIENTID, c.clientid);
    && |topic| < TWO_64 && |t| < TWO_64 && |ForClient(topic, c)| < TWO_64
    && (c.clientid.Some? ==> |c.clientid.value| < TWO_64)
    && (c.username.Some? ==> |c.username.value| < TWO_64)
  }

  /** replace_topic for a topic that is not NULL. */
  method ReplaceTopic(origin: string, c: Client) returns (topic: string)
    requires SmallEnough(origin, c)
    ensures topic == ForClient(origin, c)
  {
    topic := origin;
    if c.clientid.Some? {
      if StrStr(topic, CLIENTID, 0).Some? {
        var buf := ReplacePlaceholder(topic, CLIENTID, c.clientid.value);
        topic := buf[..buf.Length - 1];
      } else {
        NothingToReplace(topic, CLIENTID, c.clientid.value);
      }
    }
    assert topic == Substitute(origin, CLIENTID, c.clientid);
    if c.username.Some? {
      if StrStr(topic, USERNAME, 0).Some? {
        var buf := ReplacePlaceholder(topic, USERNAME, c.username.value);
        topic := buf[..buf.Length - 1];
      } else {
        NothingToReplace(topic, USERNAME, c.username.value);
      }
    }
  }
}
