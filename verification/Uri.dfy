/** URIs of the REST interface: the path below the root as a list of nodes, and the
    query as a list of parameters. */
module Uri {
  import opened Wrappers
  import opened Placeholder

  const ROOT: string := "/api/v4"

  datatype Node = Node(text: string, end: bool)

  datatype Param = Param(key: string, value: string)

  datatype Content = Content(nodes: seq<Node>, params: seq<Param>)

  // Path

  /** The texts between slashes. */
  function Parts(s: string): (ps: seq<string>)
    ensures ps != []
  {
    Split(s, "/", 0)
  }

  /** Nodes from texts: the last one is marked. */
  function Marked(texts: seq<string>): (ns: seq<Node>)
    ensures |ns| == |texts|
    ensures forall i :: 0 <= i < |ns| ==> ns[i] == Node(texts[i], i == |ns| - 1)
  {
    seq(|texts|, i requires 0 <= i < |texts| => Node(texts[i], i == |texts| - 1))
  }

  /** The nodes of the path after the root: none without a slash; a trailing slash
      makes no node of its own. */
  function NodesOf(tail: string): seq<Node> {
    var ps := Parts(tail);
    var n := |ps|;
    if n == 1 then [] else Marked(if ps[n - 1] == "" then ps[..n - 1] else ps)
  }

  function Texts(ns: seq<Node>): (ts: seq<string>)
    ensures |ts| == |ns| && forall i :: 0 <= i < |ns| ==> ts[i] == ns[i].text
  {
    seq(|ns|, i requires 0 <= i < |ns| => ns[i].text)
  }

  predicate HasSlash(s: string) {
    StrStr(s, "/", 0).Some?
  }

  predicate EndsWithSlash(s: string) {
    s != "" && s[|s| - 1] == '/'
  }

  lemma {:induction false} JoinSnoc(ps: seq<string>, last: string, sep: string)
    requires ps != []
    ensures Join(ps + [last], sep) == Join(ps, sep) + sep + last
  {
    if |ps| == 1 {
      assert (ps + [last])[1..] == [last];
    } else {
      assert (ps + [last])[1..] == ps[1..] + [last];
      JoinSnoc(ps[1..], last, sep);
    }
  }

  lemma PartsCount(s: string)
    ensures |Parts(s)| == 1 <==> !HasSlash(s)
  {
  }

  lemma SlashAt(s: string, i: int)
    ensures OccursAt(s, "/", i) <==> 0 <= i < |s| && s[i] == '/'
  {
    if 0 <= i < |s| {
      assert s[i..i + 1] == [s[i]];
    }
  }

  lemma PartsAreSlashFree(s: string, i: int)
    requires 0 <= i < |Parts(s)|
    ensures '/' !in Parts(s)[i]
  {
    PiecesAreFree(s, "/", 0);
    var p := Parts(s)[i];
    forall j | 0 <= j < |p| ensures p[j] != '/' {
      SlashAt(p, j);
      assert !OccursAt(p, "/", j);
    }
  }

  lemma LastPartEmptyIff(s: string)
    requires HasSlash(s)
    ensures var ps := Parts(s); ps[|ps| - 1] == "" <==> EndsWithSlash(s)
    ensures s != ""
  {
    var ps := Parts(s);
    var n := |ps|;
    PartsCount(s);
    SplitLosesNothing(s, "/");
    assert ps == ps[..n - 1] + [ps[n - 1]];
    JoinSnoc(ps[..n - 1], ps[n - 1], "/");
    PartsAreSlashFree(s, n - 1);
    var front := Join(ps[..n - 1], "/");
    assert s == front + "/" + ps[n - 1];
    if ps[n - 1] != "" {
      assert s[|s| - 1] == ps[n - 1][|ps[n - 1]| - 1];
    }
  }

  /** Nothing of the path is lost: the nodes joined with '/', and the trailing '/' if
      there is one, are the path after the root. */
  lemma NodesRejoin(tail: string)
    requires HasSlash(tail)
    ensures NodesOf(tail) != []
    ensures Join(Texts(NodesOf(tail)), "/") + (if EndsWithSlash(tail) then "/" else "") == tail
  {
    var ps := Parts(tail);
    var n := |ps|;
    PartsCount(tail);
    SplitLosesNothing(tail, "/");
    LastPartEmptyIff(tail);
    if ps[n - 1] == "" {
      assert ps == ps[..n - 1] + [""];
      JoinSnoc(ps[..n - 1], "", "/");
      assert Texts(NodesOf(tail)) == ps[..n - 1];
    } else {
      assert Texts(NodesOf(tail)) == ps;
    }
  }

  /** No node holds a '/', and only the last is marked as the end. */
  lemma NodesWellFormed(tail: string, i: int)
    requires 0 <= i < |NodesOf(tail)|
    ensures '/' !in NodesOf(tail)[i].text
    ensures NodesOf(tail)[i].end <==> i == |NodesOf(tail)| - 1
  {
    PartsAreSlashFree(tail, i);
  }

  // Query

  /** The pieces between ampersands. */
  function Pieces(s: string): seq<string> {
    Split(s, "&", 0)
  }

  /** The parameter of a piece: key and value around its first '=', neither empty. */
  function ParamOf(piece: string): Option<Param> {
    var eq := StrStr(piece, "=", 0);
    if eq.None? || eq.value == 0 || eq.value + 1 == |piece| then None
    else Some(Param(piece[..eq.value], piece[eq.value + 1..]))
  }

  function ParamsOf(pieces: seq<string>): seq<Param> {
    if pieces == [] then []
    else
      var p := ParamOf(pieces[|pieces| - 1]);
      ParamsOf(pieces[..|pieces| - 1]) + (if p.Some? then [p.value] else [])
  }

  /** A piece gives the parameter (k, v) exactly when it is k=v with both not empty and
      no '=' in k. */
  lemma ParamOfIff(piece: string, k: string, v: string)
    ensures ParamOf(piece) == Some(Param(k, v)) <==>
      k != "" && v != "" && '=' !in k && piece == k + ['='] + v
  {
    StrStrIsLeftmost(piece, "=", 0);
    var eq := StrStr(piece, "=", 0);
    if ParamOf(piece) == Some(Param(k, v)) {
      EqualsAt(piece, eq.value);
      assert piece == piece[..eq.value] + [piece[eq.value]] + piece[eq.value + 1..];
      forall j | 0 <= j < |k| ensures k[j] != '=' {
        EqualsAt(piece, j);
        assert !OccursAt(piece, "=", j);
      }
    }
    if k != "" && v != "" && '=' !in k && piece == k + ['='] + v {
      EqualsAt(piece, |k|);
      assert piece[|k|] == '=';
      forall j | 0 <= j < |k| ensures !OccursAt(piece, "=", j) {
        EqualsAt(piece, j);
        assert piece[j] == k[j];
      }
      assert eq == Some(|k|);
      assert piece[..|k|] == k && piece[|k| + 1..] == v;
    }
  }

  lemma EqualsAt(s: string, i: int)
    ensures OccursAt(s, "=", i) <==> 0 <= i < |s| && s[i] == '='
  {
    if 0 <= i < |s| {
      assert s[i..i + 1] == [s[i]];
    }
  }

  /** Pieces of a text are no longer than it. */
  lemma {:induction false} PiecesShort(s: string, p: nat)
    requires p <= |s|
    ensures forall i :: 0 <= i < |Split(s, "&", p)| ==> |Split(s, "&", p)[i]| <= |s|
    decreases |s| - p
  {
    var k := StrStr(s, "&", p);
    if k.Some? {
      PiecesShort(s, k.value + 1);
    }
  }

  lemma {:induction false} NoParams(pieces: seq<string>)
    requires forall i :: 0 <= i < |pieces| ==> |pieces[i]| < 3
    ensures ParamsOf(pieces) == []
  {
    if pieces != [] {
      NoParams(pieces[..|pieces| - 1]);
    }
  }

  /** The length guard drops no parameter: a query of fewer than three characters has
      none. */
  lemma ShortQueryHasNoParams(query: string)
    requires |query| < 3
    ensures ParamsOf(Pieces(query)) == []
  {
    PiecesShort(query, 0);
    NoParams(Pieces(query));
  }

  // The URI

  function AfterRoot(path: string): Option<string> {
    var at := StrStr(path, ROOT, 0);
    if at.None? then None else Some(path[at.value + |ROOT|..])
  }

  /** Nodes of the path before the first '?', parameters of the query after it. */
  function Parsed(uri: string): Content {
    if uri == ROOT || uri == ROOT + "/" then Content([], [])
    else
      var q := StrStr(uri, "?", 0);
      var path := if q.Some? then uri[..q.value] else uri;
      var tail := AfterRoot(path);
      Content(if tail.Some? then NodesOf(tail.value) else [],
              if q.Some? then ParamsOf(Pieces(uri[q.value + 1..])) else [])
  }

  // The code

  /** uri_parse_tree */
  method UriParseTree(path: string) returns (nodes: seq<Node>)
    ensures nodes == (var tail := AfterRoot(path); if tail.Some? then NodesOf(tail.value) else [])
  {
    nodes := [];
    var at := StrStr(path, ROOT, 0);
    if at.Some? {
      nodes := SplitPath(path[at.value + |ROOT|..]);
    }
  }

  lemma PartsStep(s: string, p: nat, at: nat)
    requires p <= |s| && StrStr(s, "/", p) == Some(at)
    ensures Split(s, "/", p) == [s[p..at]] + Split(s, "/", at + 1)
  {
  }

  lemma PartsEnd(s: string, p: nat)
    requires p <= |s| && StrStr(s, "/", p) == None
    ensures Split(s, "/", p) == [s[p..]]
  {
  }

  /** The nodes of a path from its parts before the last slash and what follows it. */
  lemma NodesFromParts(tail: string, before: seq<string>, last: string)
    requires Parts(tail) == before + [last]
    ensures NodesOf(tail) == if before == [] then [] else Marked(if last == "" then before else before + [last])
  {
    PartsCount(tail);
    assert (before + [last])[..|before|] == before;
  }

  /** The loop of uri_parse_tree over the slashes, and its end. */
  method SplitPath(tail: string) returns (nodes: seq<Node>)
    ensures nodes == NodesOf(tail)
  {
    nodes := [];
    var p := 0;
    ghost var before: seq<string> := [];
    ghost var rest := Parts(tail);
    while true
      invariant 0 <= p <= |tail| && rest == Split(tail, "/", p)
      invariant before + rest == Parts(tail) && Texts(nodes) == before
      invariant forall i :: 0 <= i < |nodes| ==> !nodes[i].end
      decreases |tail| - p
    {
      var ret := StrStr(tail, "/", p);
      if ret.None? {
        break;
      }
      PartsStep(tail, p, ret.value);
      var sub := Node(tail[p..ret.value], false);
      p := ret.value + 1;
      MoveHead(before, sub.text, Split(tail, "/", p));
      rest := Split(tail, "/", p);
      before := before + [sub.text];
      nodes := nodes + [sub];
    }
    PartsEnd(tail, p);
    NodesFromParts(tail, before, tail[p..]);
    nodes := MarkLast(nodes, tail[p..]);
  }

  lemma MoveHead(before: seq<string>, text: string, rest: seq<string>)
    ensures before + ([text] + rest) == (before + [text]) + rest
  {
  }

  /** The end of uri_parse_tree: the rest after the last slash, if any, is the last
      node; otherwise the last node found is marked. */
  method MarkLast(before: seq<Node>, last: string) returns (nodes: seq<Node>)
    requires forall i :: 0 <= i < |before| ==> !before[i].end
    ensures nodes == if before == [] then [] else Marked(if last == "" then Texts(before) else Texts(before) + [last])
  {
    nodes := before;
    if |nodes| > 0 {
      if |last| > 0 {
        nodes := nodes + [Node(last, true)];
      } else {
        var k := |nodes| - 1;
        nodes := nodes[k := nodes[k].(end := true)];
      }
    }
  }

  /** uri_param_parse: pieces first, then the parameters among them. */
  method UriParamParse(query: string) returns (params: seq<Param>)
    ensures params == ParamsOf(Pieces(query))
  {
    var kv := SplitQuery(query);
    if kv == [] {
      return [];
    }
    params := [];
    for i := 0 to |kv|
      invariant params == ParamsOf(kv[..i])
    {
      assert kv[..i + 1][..i] == kv[..i];
      var eq := StrStr(kv[i], "=", 0);
      if eq.None? || eq.value == 0 || eq.value + 1 == |kv[i]| {
        assert params + [] == params;
        continue;
      }
      params := params + [Param(kv[i][..eq.value], kv[i][eq.value + 1..])];
    }
    assert kv[..|kv|] == kv;
  }

  /** The pieces; none at all for a query with neither '&' nor '='. */
  method SplitQuery(query: string) returns (kv: seq<string>)
    ensures kv == Pieces(query) || (kv == [] && ParamsOf(Pieces(query)) == [])
  {
    kv := [];
    var p := 0;
    ghost var rest := Pieces(query);
    assert kv + rest == Pieces(query);
    while true
      invariant 0 <= p <= |query| && rest == Split(query, "&", p)
      invariant kv + rest == Pieces(query)
      invariant kv == [] ==> p == 0
      decreases |query| - p
    {
      var ret := StrStr(query, "&", p);
      if ret.None? {
        break;
      }
      var piece := query[p..ret.value];
      p := ret.value + 1;
      assert rest == [piece] + Split(query, "&", p);
      assert kv + ([piece] + Split(query, "&", p)) == (kv + [piece]) + Split(query, "&", p);
      rest := Split(query, "&", p);
      kv := kv + [piece];
    }
    assert rest == [query[p..]];
    if |kv| > 0 || StrStr(query[p..], "=", 0).Some? {
      kv := kv + [query[p..]];
    } else {
      assert query[p..] == query && Pieces(query) == [query];
      assert ParamOf(query) == None;
      assert [query][..0] == [];
    }
  }

  /** uri_parse */
  method UriParse(uri: string) returns (c: Content)
    ensures c == Parsed(uri)
  {
    if uri == ROOT || uri == ROOT + "/" {
      return Content([], []);
    }
    var params: seq<Param> := [];
    var path := uri;
    var q := StrStr(uri, "?", 0);
    if q.Some? {
      var query := uri[q.value + 1..];
      if |query| >= 3 {
        params := UriParamParse(query);
      } else {
        ShortQueryHasNoParams(query);
      }
      path := uri[..q.value];
    }
    var nodes := UriParseTree(path);
    c := Content(nodes, params);
  }
}
