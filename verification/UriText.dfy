/** Writing URIs of the REST interface, as the inverse of parsing them. */
module UriText {
  import opened Wrappers
  import opened Placeholder
  import opened Uri

  // Cutting what was joined

  lemma StrStrIs(s: string, pat: string, p: nat, k: nat)
    requires p <= k <= |s| && OccursAt(s, pat, k)
    requires forall i :: p <= i < k ==> !OccursAt(s, pat, i)
    ensures StrStr(s, pat, p) == Some(k)
  {
    StrStrIsLeftmost(s, pat, p);
  }

  lemma StrStrNone(s: string, pat: string, p: nat)
    requires p <= |s| && forall i :: p <= i <= |s| ==> !OccursAt(s, pat, i)
    ensures StrStr(s, pat, p) == None
  {
    StrStrIsLeftmost(s, pat, p);
  }

  lemma CharAt(s: string, c: char, i: int)
    ensures OccursAt(s, [c], i) <==> 0 <= i < |s| && s[i] == c
  {
    if 0 <= i < |s| {
      assert s[i..i + 1] == [s[i]];
    }
  }

  /** The first c behind p, when the text from p on is a part without it, c and more. */
  lemma NextChar(s: string, p: nat, part: string, c: char, more: string)
    requires p <= |s| && s[p..] == part + ([c] + more) && c !in part
    ensures StrStr(s, [c], p) == Some(p + |part|)
    ensures s[p..p + |part|] == part && s[p + |part| + 1..] == more
  {
    var t := s[p..];
    forall i | p <= i < p + |part| ensures !OccursAt(s, [c], i) {
      CharAt(s, c, i);
      assert s[i] == t[i - p] == part[i - p];
    }
    CharAt(s, c, p + |part|);
    assert s[p + |part|] == t[|part|] == c;
    StrStrIs(s, [c], p, p + |part|);
    assert s[p..p + |part|] == t[..|part|];
    assert s[p + |part| + 1..] == t[|part| + 1..];
  }

  lemma NoNextChar(s: string, p: nat, c: char)
    requires p <= |s| && c !in s[p..]
    ensures StrStr(s, [c], p) == None
  {
    forall i | p <= i <= |s| ensures !OccursAt(s, [c], i) {
      CharAt(s, c, i);
      if i < |s| {
        assert s[i] == s[p..][i - p];
      }
    }
    StrStrNone(s, [c], p);
  }

  /** Texts without the separator, joined with it and cut at it, are what they were. */
  lemma {:induction false} SplitOfJoin(s: string, p: nat, ps: seq<string>, c: char)
    requires ps != [] && forall i :: 0 <= i < |ps| ==> c !in ps[i]
    requires p <= |s| && s[p..] == Join(ps, [c])
    ensures Split(s, [c], p) == ps
    decreases |ps|
  {
    if |ps| == 1 {
      NoNextChar(s, p, c);
    } else {
      var rest := Join(ps[1..], [c]);
      assert Join(ps, [c]) == ps[0] + ([c] + rest);
      NextChar(s, p, ps[0], c, rest);
      SplitOfJoin(s, p + |ps[0]| + 1, ps[1..], c);
      assert ps == [ps[0]] + ps[1..];
    }
  }

  // The query

  predicate Plain(p: Param) {
    p.key != "" && p.value != "" && '=' !in p.key && '&' !in p.key && '&' !in p.value
  }

  function PairText(p: Param): string {
    p.key + ['='] + p.value
  }

  function PairTexts(ps: seq<Param>): (ts: seq<string>)
    ensures |ts| == |ps| && forall i :: 0 <= i < |ps| ==> ts[i] == PairText(ps[i])
  {
    seq(|ps|, i requires 0 <= i < |ps| => PairText(ps[i]))
  }

  function QueryText(ps: seq<Param>): string {
    Join(PairTexts(ps), ['&'])
  }

  lemma {:induction false} ParamsOfPairs(ps: seq<Param>)
    requires forall i :: 0 <= i < |ps| ==> Plain(ps[i])
    ensures ParamsOf(PairTexts(ps)) == ps
  {
    if ps != [] {
      var k := |ps| - 1;
      ParamsOfPairs(ps[..k]);
      assert PairTexts(ps)[..k] == PairTexts(ps[..k]);
      ParamOfIff(PairText(ps[k]), ps[k].key, ps[k].value);
    }
  }

  /** Parameters written as a query are read back, all of them and in order. */
  lemma QueryRoundTrip(ps: seq<Param>)
    requires forall i :: 0 <= i < |ps| ==> Plain(ps[i])
    ensures ParamsOf(Pieces(QueryText(ps))) == ps
  {
    if ps == [] {
      ShortQueryHasNoParams(QueryText(ps));
    } else {
      var s := QueryText(ps);
      assert s[0..] == s;
      SplitOfJoin(s, 0, PairTexts(ps), '&');
      ParamsOfPairs(ps);
    }
  }

  // The path and the whole URI

  predicate PlainText(t: string) {
    t != "" && '/' !in t && '?' !in t
  }

  function PathText(texts: seq<string>): string {
    Join([""] + texts, ['/'])
  }

  /** Texts written as a path are read back as nodes behind the empty one in front of the
      first slash. */
  lemma PathRoundTrip(texts: seq<string>)
    requires texts != [] && forall i :: 0 <= i < |texts| ==> PlainText(texts[i])
    ensures NodesOf(PathText(texts)) == Marked([""] + texts)
  {
    var all := [""] + texts;
    assert PathText(texts)[0..] == PathText(texts);
    SplitOfJoin(PathText(texts), 0, all, '/');
    assert Parts(PathText(texts)) == all;
    assert all[|all| - 1] == texts[|texts| - 1] != "";
  }

  lemma {:induction false} JoinLacks(ps: seq<string>, sep: char, c: char)
    requires c != sep && forall i :: 0 <= i < |ps| ==> c !in ps[i]
    ensures c !in Join(ps, [sep])
  {
    if |ps| > 1 {
      JoinLacks(ps[1..], sep, c);
    }
  }

  function UriOf(texts: seq<string>, ps: seq<Param>): string {
    ROOT + PathText(texts) + ['?'] + QueryText(ps)
  }

  lemma ParsedAt(uri: string, k: nat, tail: string)
    requires StrStr(uri, "?", 0) == Some(k) && uri != ROOT && uri != ROOT + "/"
    requires AfterRoot(uri[..k]) == Some(tail)
    ensures Parsed(uri) == Content(NodesOf(tail), ParamsOf(Pieces(uri[k + 1..])))
  {
  }

  lemma AfterRootIs(root: string, tail: string)
    requires root == ROOT
    ensures AfterRoot(root + tail) == Some(tail)
  {
    var path := root + tail;
    assert path[0..|root|] == root && path[|root|..] == tail;
    StrStrIs(path, ROOT, 0, 0);
  }

  lemma ParsedParts(tail: string, query: string)
    requires '?' !in tail
    ensures Parsed(ROOT + tail + ['?'] + query) == Content(NodesOf(tail), ParamsOf(Pieces(query)))
  {
    var path := ROOT + tail;
    var uri := path + ['?'] + query;
    assert uri[0..] == path + (['?'] + query);
    NextChar(uri, 0, path, '?', query);
    AfterRootIs(ROOT, tail);
    NotRoot(uri, |path|);
    assert uri[..|path|] == path;
    ParsedAt(uri, |path|, tail);
  }

  lemma NotRoot(uri: string, k: nat)
    requires k < |uri| && uri[k] == '?'
    ensures uri != ROOT && uri != ROOT + "/"
  {
  }

  /** A URI written from a path and parameters is parsed into these. */
  lemma UriRoundTrip(texts: seq<string>, ps: seq<Param>)
    requires texts != [] && forall i :: 0 <= i < |texts| ==> PlainText(texts[i])
    requires forall i :: 0 <= i < |ps| ==> Plain(ps[i])
    ensures Parsed(UriOf(texts, ps)) == Content(Marked([""] + texts), ps)
  {
    JoinLacks([""] + texts, '/', '?');
    ParsedParts(PathText(texts), QueryText(ps));
    PathRoundTrip(texts);
    QueryRoundTrip(ps);
  }
}
