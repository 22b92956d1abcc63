/** Substituting the client identifier and then the user name, compared with substituting
    both at once: the second pass also sees what the first one put in. */
module Substitution {
  import opened Wrappers
  import opened Placeholder

  /** A placeholder that cannot overlap itself or another one: its only '$' is its first
      character. */
  predicate Marker(pat: string) {
    pat != "" && pat[0] == '$' && forall j :: 0 < j < |pat| ==> pat[j] != '$'
  }

  lemma Markers()
    ensures Marker(CLIENTID) && Marker(USERNAME)
  {
  }

  // One pass, character by character

  function Greedy(t: string, pat: string, rep: string): string
    requires pat != ""
  {
    if t == "" then ""
    else if OccursAt(t, pat, 0) then rep + Greedy(t[|pat|..], pat, rep)
    else [t[0]] + Greedy(t[1..], pat, rep)
  }

  lemma OccursInSuffix(s: string, pat: string, p: nat, i: nat)
    requires p <= |s|
    ensures OccursAt(s[p..], pat, i) <==> OccursAt(s, pat, p + i)
  {
    if p + i + |pat| <= |s| {
      assert s[p..][i..i + |pat|] == s[p + i..p + i + |pat|];
    }
  }

  lemma {:induction false} ReplacedIsGreedy(s: string, pat: string, rep: string, p: nat)
    requires pat != "" && p <= |s|
    ensures Replaced(s, pat, rep, p) == Greedy(s[p..], pat, rep)
    decreases |s| - p
  {
    OccursInSuffix(s, pat, p, 0);
    if OccursAt(s, pat, p) {
      ReplacedIsGreedy(s, pat, rep, p + |pat|);
      assert s[p..][|pat|..] == s[p + |pat|..];
      ReplacedHere(s, pat, rep, p);
    } else if p < |s| {
      ReplacedIsGreedy(s, pat, rep, p + 1);
      assert s[p..][1..] == s[p + 1..];
      ReplacedStep(s, pat, rep, p);
    }
  }

  lemma ReplacedHere(s: string, pat: string, rep: string, p: nat)
    requires pat != "" && p <= |s| && OccursAt(s, pat, p)
    ensures Replaced(s, pat, rep, p) == rep + Replaced(s, pat, rep, p + |pat|)
  {
    assert StrStr(s, pat, p) == Some(p);
    assert s[p..p] + rep == rep;
  }

  lemma ReplacedStep(s: string, pat: string, rep: string, p: nat)
    requires pat != "" && p < |s| && !OccursAt(s, pat, p)
    ensures Replaced(s, pat, rep, p) == [s[p]] + Replaced(s, pat, rep, p + 1)
  {
    var k := StrStr(s, pat, p);
    assert k == StrStr(s, pat, p + 1);
    if k.Some? {
      assert s[p..k.value] == [s[p]] + s[p + 1..k.value];
    } else {
      assert s[p..] == [s[p]] + s[p + 1..];
    }
  }

  lemma {:induction false} GreedySkip(t: string, pat: string, rep: string, n: nat)
    requires pat != "" && n <= |t| && forall j :: 0 <= j < n ==> !OccursAt(t, pat, j)
    ensures Greedy(t, pat, rep) == t[..n] + Greedy(t[n..], pat, rep)
    decreases n
  {
    if n == 0 {
      assert t[0..] == t;
    } else {
      forall j | 0 <= j < n - 1 ensures !OccursAt(t[1..], pat, j) {
        OccursInSuffix(t, pat, 1, j);
      }
      GreedySkip(t[1..], pat, rep, n - 1);
      assert t[1..][n - 1..] == t[n..];
      assert t[..n] == [t[0]] + t[1..][..n - 1];
    }
  }

  // Both at once

  /** The text with each a replaced by id and each b by user, in one pass. */
  function Both(t: string, a: string, b: string, id: string, user: string): string
    requires a != "" && b != ""
  {
    if t == "" then ""
    else if OccursAt(t, a, 0) then id + Both(t[|a|..], a, b, id, user)
    else if OccursAt(t, b, 0) then user + Both(t[|b|..], a, b, id, user)
    else [t[0]] + Both(t[1..], a, b, id, user)
  }

  function Unmarked(n: nat): (m: seq<bool>)
    ensures |m| == n && forall i :: 0 <= i < n ==> !m[i]
  {
    seq(n, _ => false)
  }

  /** Where, in the text with a replaced, the b of the original stand. */
  function Marks(t: string, a: string, b: string, id: string): seq<bool>
    requires a != "" && b != ""
  {
    if t == "" then []
    else if OccursAt(t, a, 0) then Unmarked(|id|) + Marks(t[|a|..], a, b, id)
    else if OccursAt(t, b, 0) then [true] + Unmarked(|b| - 1) + Marks(t[|b|..], a, b, id)
    else [false] + Marks(t[1..], a, b, id)
  }

  lemma {:induction false} MarksLength(t: string, a: string, b: string, id: string)
    requires a != "" && b != ""
    ensures |Marks(t, a, b, id)| == |Both(t, a, b, id, b)|
  {
    if t != "" {
      if OccursAt(t, a, 0) {
        MarksLength(t[|a|..], a, b, id);
      } else if OccursAt(t, b, 0) {
        MarksLength(t[|b|..], a, b, id);
      } else {
        MarksLength(t[1..], a, b, id);
      }
    }
  }

  /** The text between the two passes: a replaced, b as it was. */
  lemma {:induction false} MiddleText(t: string, a: string, b: string, id: string)
    requires Marker(a) && Marker(b)
    ensures Greedy(t, a, id) == Both(t, a, b, id, b)
  {
    if t != "" {
      if OccursAt(t, a, 0) {
        MiddleText(t[|a|..], a, b, id);
      } else if OccursAt(t, b, 0) {
        MiddleText(t[|b|..], a, b, id);
        forall j | 0 <= j < |b| ensures !OccursAt(t, a, j) {
          if j > 0 {
            NoOverlap(t, b, a, j);
          }
        }
        GreedySkip(t, a, id, |b|);
      } else {
        MiddleText(t[1..], a, b, id);
      }
    }
  }

  lemma NoOverlap(t: string, b: string, c: string, j: nat)
    requires Marker(b) && Marker(c) && OccursAt(t, b, 0) && 0 < j < |b|
    ensures !OccursAt(t, c, j)
  {
    assert t[..|b|][j] == b[j];
    StartsWithDollar(t, c, j);
  }

  lemma StartsWithDollar(t: string, c: string, j: int)
    requires Marker(c)
    ensures OccursAt(t, c, j) ==> t[j] == '$'
  {
    if OccursAt(t, c, j) {
      assert t[j] == t[j..j + |c|][0];
    }
  }

  lemma OccursBehind(x: string, y: string, pat: string, j: nat)
    ensures OccursAt(x + y, pat, |x| + j) <==> OccursAt(y, pat, j)
  {
    OccursInSuffix(x + y, pat, |x|, j);
    assert (x + y)[|x|..] == y;
  }

  /** Every mark is on an occurrence. */
  ghost predicate Sound(t: string, m: seq<bool>, b: string) {
    |m| == |t| && forall i :: 0 <= i < |m| && m[i] ==> OccursAt(t, b, i)
  }

  lemma SoundBehind(x: string, t: string, n: seq<bool>, m: seq<bool>, b: string)
    requires Sound(t, m, b) && |n| == |x|
    requires forall i :: 0 <= i < |n| && n[i] ==> OccursAt(x + t, b, i)
    ensures Sound(x + t, n + m, b)
  {
    forall i | 0 <= i < |n + m| && (n + m)[i] ensures OccursAt(x + t, b, i) {
      if i >= |n| {
        assert m[i - |n|];
        OccursBehind(x, t, b, i - |n|);
      } else {
        assert n[i];
      }
    }
  }

  lemma {:induction false} MarksAreSound(t: string, a: string, b: string, id: string)
    requires a != "" && b != ""
    ensures Sound(Both(t, a, b, id, b), Marks(t, a, b, id), b)
  {
    if t != "" {
      if OccursAt(t, a, 0) {
        var rest := t[|a|..];
        MarksAreSound(rest, a, b, id);
        SoundBehind(id, Both(rest, a, b, id, b), Unmarked(|id|), Marks(rest, a, b, id), b);
      } else if OccursAt(t, b, 0) {
        var rest := t[|b|..];
        MarksAreSound(rest, a, b, id);
        var tail := Both(rest, a, b, id, b);
        assert (b + tail)[0..|b|] == b;
        SoundBehind(b, tail, [true] + Unmarked(|b| - 1), Marks(rest, a, b, id), b);
      } else {
        MarksAreSound(t[1..], a, b, id);
        SoundBehind([t[0]], Both(t[1..], a, b, id, b), [false], Marks(t[1..], a, b, id), b);
      }
    }
  }

  // Replacing what is marked

  /** The text with b replaced where it is marked. */
  function Marked(t: string, m: seq<bool>, b: string, user: string): string
    requires |t| == |m| && b != ""
  {
    if t == "" then ""
    else if m[0] && |b| <= |t| then user + Marked(t[|b|..], m[|b|..], b, user)
    else [t[0]] + Marked(t[1..], m[1..], b, user)
  }

  lemma {:induction false} MarkedSkip(t: string, m: seq<bool>, b: string, user: string, n: nat)
    requires |t| == |m| && b != "" && n <= |t| && forall j :: 0 <= j < n ==> !m[j]
    ensures Marked(t, m, b, user) == t[..n] + Marked(t[n..], m[n..], b, user)
    decreases n
  {
    if n == 0 {
      assert t[0..] == t && m[0..] == m;
    } else {
      MarkedSkip(t[1..], m[1..], b, user, n - 1);
      assert t[1..][n - 1..] == t[n..] && m[1..][n - 1..] == m[n..];
      assert t[..n] == [t[0]] + t[1..][..n - 1];
    }
  }

  lemma {:induction false} BothIsMarked(t: string, a: string, b: string, id: string, user: string)
    requires a != "" && b != "" && |Marks(t, a, b, id)| == |Both(t, a, b, id, b)|
    ensures Both(t, a, b, id, user) == Marked(Both(t, a, b, id, b), Marks(t, a, b, id), b, user)
  {
    if t != "" {
      var text, m := Both(t, a, b, id, b), Marks(t, a, b, id);
      if OccursAt(t, a, 0) {
        BothIsMarked(t[|a|..], a, b, id, user);
        MarkedSkip(text, m, b, user, |id|);
        assert text[..|id|] == id && text[|id|..] == Both(t[|a|..], a, b, id, b);
        assert m[|id|..] == Marks(t[|a|..], a, b, id);
      } else if OccursAt(t, b, 0) {
        BothIsMarked(t[|b|..], a, b, id, user);
        assert text[|b|..] == Both(t[|b|..], a, b, id, b) && m[|b|..] == Marks(t[|b|..], a, b, id);
      } else {
        BothIsMarked(t[1..], a, b, id, user);
        assert text[1..] == Both(t[1..], a, b, id, b) && m[1..] == Marks(t[1..], a, b, id);
      }
    }
  }

  // All occurrences against the marked ones

  /** An occurrence that is not marked. */
  ghost predicate Stray(t: string, m: seq<bool>, b: string)
    requires |t| == |m|
  {
    exists i :: 0 <= i < |m| && OccursAt(t, b, i) && !m[i]
  }

  lemma StrayBehind(t: string, m: seq<bool>, b: string, n: nat)
    requires |t| == |m| && n <= |t|
    requires forall i :: 0 <= i < n && OccursAt(t, b, i) ==> m[i]
    ensures Stray(t, m, b) <==> Stray(t[n..], m[n..], b)
  {
    if Stray(t, m, b) {
      var i :| 0 <= i < |m| && OccursAt(t, b, i) && !m[i];
      OccursInSuffix(t, b, n, i - n);
      assert m[n..][i - n] == m[i];
    }
    if Stray(t[n..], m[n..], b) {
      var i :| 0 <= i < |m[n..]| && OccursAt(t[n..], b, i) && !m[n..][i];
      OccursInSuffix(t, b, n, i);
      assert m[n + i] == m[n..][i];
    }
  }

  lemma SoundSuffix(t: string, m: seq<bool>, b: string, n: nat)
    requires Sound(t, m, b) && n <= |t|
    ensures Sound(t[n..], m[n..], b)
  {
    forall i | 0 <= i < |m[n..]| && m[n..][i] ensures OccursAt(t[n..], b, i) {
      assert m[n + i];
      OccursInSuffix(t, b, n, i);
    }
  }

  /** How replacing all occurrences compares with replacing the marked ones. */
  ghost predicate Compared(all: string, marked: string, b: string, user: string, stray: bool) {
    && (|user| == |b| ==> |all| == |marked|)
    && (|user| > |b| ==> |all| >= |marked| && (stray ==> |all| > |marked|))
    && (|user| < |b| ==> |all| <= |marked| && (stray ==> |all| < |marked|))
    && (all == marked <==> user == b || !stray)
  }

  lemma SameHead(head: string, all: string, marked: string, b: string, user: string, stray: bool)
    requires Compared(all, marked, b, user, stray)
    ensures Compared(head + all, head + marked, b, user, stray)
  {
    if head + all == head + marked {
      assert all == (head + all)[|head|..];
      assert marked == (head + marked)[|head|..];
    }
  }

  lemma StrayHead(all: string, marked: string, b: string, user: string, stray: bool)
    requires Compared(all, marked, b, user, stray)
    ensures Compared(user + all, b + marked, b, user, true)
  {
    if user + all == b + marked && |user| == |b| {
      assert user == (user + all)[..|user|];
      assert b == (b + marked)[..|b|];
    }
  }

  lemma {:induction false} Compare(t: string, m: seq<bool>, b: string, user: string)
    requires Marker(b) && Sound(t, m, b)
    ensures Compared(Greedy(t, b, user), Marked(t, m, b, user), b, user, Stray(t, m, b))
  {
    if t != "" {
      if OccursAt(t, b, 0) {
        var n := |b|;
        SoundSuffix(t, m, b, n);
        Compare(t[n..], m[n..], b, user);
        var all, marked := Greedy(t[n..], b, user), Marked(t[n..], m[n..], b, user);
        forall j | 0 < j < n ensures !OccursAt(t, b, j) {
          NoOverlap(t, b, b, j);
        }
        if m[0] {
          StrayBehind(t, m, b, n);
          SameHead(user, all, marked, b, user, Stray(t, m, b));
        } else {
          MarkedSkip(t, m, b, user, n);
          StrayHead(all, marked, b, user, Stray(t[n..], m[n..], b));
          assert Stray(t, m, b);
        }
      } else {
        SoundSuffix(t, m, b, 1);
        Compare(t[1..], m[1..], b, user);
        StrayBehind(t, m, b, 1);
        SameHead([t[0]], Greedy(t[1..], b, user), Marked(t[1..], m[1..], b, user), b, user, Stray(t, m, b));
      }
    }
  }

  // The topic of a rule

  function ValueOr(v: Option<string>, pat: string): string {
    if v.Some? then v.value else pat
  }

  /** Both placeholders of the rule's topic replaced at once; one that the client has no
      value for stays. */
  function Simultaneous(topic: string, c: Client): string {
    Both(topic, CLIENTID, USERNAME, ValueOr(c.clientid, CLIENTID), ValueOr(c.username, USERNAME))
  }

  /** The user name placeholder occurs, once the identifier is put in, only where the
      rule's topic has it: neither within an identifier nor across its ends. */
  ghost predicate OnlyOriginal(topic: string, c: Client) {
    var text := Substitute(topic, CLIENTID, c.clientid);
    var m := Marks(topic, CLIENTID, USERNAME, ValueOr(c.clientid, CLIENTID));
    forall i :: OccursAt(text, USERNAME, i) ==> i < |m| && m[i]
  }

  lemma SubstituteIsGreedy(t: string, pat: string, v: Option<string>)
    requires pat != ""
    ensures Substitute(t, pat, v) == Greedy(t, pat, ValueOr(v, pat))
  {
    ReplacedIsGreedy(t, pat, ValueOr(v, pat), 0);
    assert t[0..] == t;
    if v.None? {
      ReplacedByItself(t, pat, 0);
    }
  }

  /** The topic of a rule for a client is its simultaneous substitution exactly when no
      user name placeholder arises from an identifier, or the user name is that very
      placeholder, or the client has none. */
  lemma SubstitutedOnceIff(topic: string, c: Client)
    ensures ForClient(topic, c) == Simultaneous(topic, c) <==>
      c.username.None? || c.username == Some(USERNAME) || OnlyOriginal(topic, c)
  {
    Markers();
    ComparePasses(topic, CLIENTID, USERNAME, ValueOr(c.clientid, CLIENTID), ValueOr(c.username, USERNAME));
    SubstituteIsGreedy(topic, CLIENTID, c.clientid);
    SubstituteIsGreedy(Substitute(topic, CLIENTID, c.clientid), USERNAME, c.username);
  }

  lemma ComparePasses(t: string, a: string, b: string, id: string, user: string)
    requires Marker(a) && Marker(b)
    ensures var m, text := Marks(t, a, b, id), Greedy(t, a, id);
      Greedy(text, b, user) == Both(t, a, b, id, user) <==>
        user == b || forall i :: OccursAt(text, b, i) ==> i < |m| && m[i]
  {
    var m, text := Marks(t, a, b, id), Greedy(t, a, id);
    MiddleText(t, a, b, id);
    MarksLength(t, a, b, id);
    MarksAreSound(t, a, b, id);
    BothIsMarked(t, a, b, id, user);
    Compare(text, m, b, user);
  }

  // Identifiers that are safe in every topic

  /** No '$' in it, and a first character that the placeholder does not have. */
  predicate Plain(id: string, b: string) {
    id != "" && id[0] !in b && '$' !in id
  }

  lemma {:induction false} PlainHasNoStray(t: string, a: string, b: string, id: string, i: nat)
    requires Marker(a) && Marker(b) && Plain(id, b)
    requires OccursAt(Both(t, a, b, id, b), b, i)
    ensures i < |Marks(t, a, b, id)| && Marks(t, a, b, id)[i]
    decreases |t|
  {
    var text := Both(t, a, b, id, b);
    assert text[i] == '$' by { assert text[i..i + |b|][0] == b[0]; }
    if OccursAt(t, a, 0) {
      var rest := Both(t[|a|..], a, b, id, b);
      if i >= |id| {
        OccursBehind(id, rest, b, i - |id|);
        PlainHasNoStray(t[|a|..], a, b, id, i - |id|);
      }
    } else if OccursAt(t, b, 0) {
      var rest := Both(t[|b|..], a, b, id, b);
      if i >= |b| {
        OccursBehind(b, rest, b, i - |b|);
        PlainHasNoStray(t[|b|..], a, b, id, i - |b|);
      }
    } else {
      if i > 0 {
        OccursBehind([t[0]], Both(t[1..], a, b, id, b), b, i - 1);
        PlainHasNoStray(t[1..], a, b, id, i - 1);
      } else {
        PlainStart(t, a, b, id);
      }
    }
  }

  /** The placeholder starts the text only if it starts the original. */
  lemma PlainStart(t: string, a: string, b: string, id: string)
    requires Marker(a) && Marker(b) && Plain(id, b) && !OccursAt(t, a, 0)
    requires OccursAt(Both(t, a, b, id, b), b, 0)
    ensures OccursAt(t, b, 0)
  {
    var text := Both(t, a, b, id, b);
    MiddleText(t, a, b, id);
    StrStrIsLeftmost(t, a, 0);
    var k := StrStr(t, a, 0);
    var q := if k.Some? then k.value else |t|;
    GreedySkip(t, a, id, q);
    assert text == t[..q] + Greedy(t[q..], a, id);
    if q >= |b| {
      assert t[..|b|] == text[..|b|];
    } else if k.Some? {
      OccursInSuffix(t, a, q, 0);
      PlainGap(t[..q], id, Greedy(t[q..][|a|..], a, id), b);
    }
  }

  lemma PlainGap(front: string, id: string, rest: string, b: string)
    requires id != "" && id[0] !in b && |front| < |b|
    ensures !OccursAt(front + (id + rest), b, 0)
  {
    var text := front + (id + rest);
    assert text[|front|] == id[0];
    assert b[|front|] in b;
  }

  /** For a client with such an identifier no topic is substituted twice. */
  lemma PlainIdentifier(topic: string, c: Client)
    requires c.clientid.Some? && Plain(c.clientid.value, USERNAME)
    ensures ForClient(topic, c) == Simultaneous(topic, c)
  {
    Markers();
    var text, id := Substitute(topic, CLIENTID, c.clientid), c.clientid.value;
    SubstituteIsGreedy(topic, CLIENTID, c.clientid);
    MiddleText(topic, CLIENTID, USERNAME, id);
    forall i | OccursAt(text, USERNAME, i)
      ensures i < |Marks(topic, CLIENTID, USERNAME, id)| && Marks(topic, CLIENTID, USERNAME, id)[i]
    {
      PlainHasNoStray(topic, CLIENTID, USERNAME, id, i);
    }
    SubstitutedOnceIff(topic, c);
  }

  /** An identifier that itself reads as the user name placeholder is substituted a
      second time. */
  lemma SubstitutedTwice(user: string)
    requires user != USERNAME
    ensures var c := Client(Some(user), Some(USERNAME), None);
      ForClient(CLIENTID, c) == user && Simultaneous(CLIENTID, c) == USERNAME
  {
    WholePattern(CLIENTID, USERNAME);
    WholePattern(USERNAME, user);
    BothOfFirst(CLIENTID, USERNAME, USERNAME, user);
  }

  lemma BothOfFirst(a: string, b: string, id: string, user: string)
    requires a != "" && b != ""
    ensures Both(a, a, b, id, user) == id
  {
    assert OccursAt(a, a, 0) && a[|a|..] == "";
  }

  lemma WholePattern(pat: string, rep: string)
    requires pat != ""
    ensures Replaced(pat, pat, rep, 0) == rep
  {
    assert OccursAt(pat, pat, 0);
    assert Replaced(pat, pat, rep, |pat|) == "";
  }
}
