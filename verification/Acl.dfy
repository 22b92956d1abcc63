/** Access control: the rule list is searched for the first rule that applies to a
    client, an action and a topic. */
module Acl {
  import opened Wrappers
  import opened Placeholder

  datatype Action = Any | Pub | Sub

  datatype Content = All | Single(value: string) | OtherContent

  datatype Kind = Username | ClientId | IpAddr | OtherKind

  datatype SubRule = SubRule(kind: Kind, content: Content)

  /** Whom a rule is about. */
  datatype Subject =
    | One(kind: Kind, content: Content)
    | And(subs: seq<SubRule>)
    | Or(subs: seq<SubRule>)
    | Everyone
    | OtherSubject

  /** A NULL among the topics is None. */
  datatype Rule = Rule(allow: bool, action: Action, subject: Subject, topics: seq<Option<string>>)

  /** What is asked, and the topic matching of the message library. */
  datatype Request = Request(action: Action, client: Client, topic: string, filter: (string, string) -> bool)

  // Reference: the first rule that applies decides

  function Attribute(c: Client, k: Kind): Option<string> {
    match k
    case Username => c.username
    case ClientId => c.clientid
    case IpAddr => c.ip
    case OtherKind => None
  }

  /** match_rule_content_str */
  predicate ContentMatches(ct: Content, s: Option<string>) {
    match ct
    case All => true
    case Single(v) => s == Some(v)
    case OtherContent => false
  }

  predicate SubMatches(sub: SubRule, c: Client) {
    ContentMatches(sub.content, Attribute(c, sub.kind))
  }

  /** Every sub-rule of a known kind matches. */
  predicate Conjunction(subs: seq<SubRule>, c: Client) {
    forall i :: 0 <= i < |subs| ==> subs[i].kind == OtherKind || SubMatches(subs[i], c)
  }

  /** Some sub-rule of a known kind matches. */
  predicate Disjunction(subs: seq<SubRule>, c: Client) {
    exists i :: 0 <= i < |subs| && subs[i].kind != OtherKind && SubMatches(subs[i], c)
  }

  predicate SubjectMatches(s: Subject, c: Client) {
    match s
    case One(k, ct) => k != OtherKind && ContentMatches(ct, Attribute(c, k))
    case And(subs) => Conjunction(subs, c)
    case Or(subs) => Disjunction(subs, c)
    case Everyone => true
    case OtherSubject => false
  }

  predicate TopicHits(ruleTopic: string, q: Request) {
    if |ruleTopic| > 1 && ruleTopic[0] == '@' then ruleTopic[1..] == q.topic
    else q.filter(ruleTopic, q.topic)
  }

  /** Some topic of the rule hits, looking no further than the first NULL. */
  predicate SomeTopicHits(topics: seq<Option<string>>, q: Request) {
    topics != [] && topics[0].Some? &&
    (TopicHits(ForClient(topics[0].value, q.client), q) || SomeTopicHits(topics[1..], q))
  }

  predicate TopicsMatch(topics: seq<Option<string>>, q: Request) {
    topics == [] || SomeTopicHits(topics, q)
  }

  predicate Concerns(r: Rule, q: Request) {
    r.action == Any || r.action == q.action
  }

  predicate Applies(r: Rule, q: Request) {
    Concerns(r, q) && SubjectMatches(r.subject, q.client) && TopicsMatch(r.topics, q)
  }

  /** Verdict of the first rule that applies. */
  function FirstMatch(rules: seq<Rule>, q: Request): Option<bool> {
    if rules == [] then None
    else if Applies(rules[0], q) then Some(rules[0].allow)
    else FirstMatch(rules[1..], q)
  }

  function Verdict(v: Option<bool>, allowNoMatch: bool): bool {
    if v.Some? then v.value else allowNoMatch
  }

  // What the code computes

  /** A conjunction that concerns the request and fails. */
  predicate Fails(r: Rule, q: Request) {
    Concerns(r, q) && r.subject.And? && !Conjunction(r.subject.subs, q.client)
  }

  /** The rules without the conjunctions that come after a failing conjunction. */
  function Purged(rules: seq<Rule>, q: Request, failed: bool): seq<Rule> {
    if rules == [] then []
    else
      (if failed && rules[0].subject.And? then [] else [rules[0]])
      + Purged(rules[1..], q, failed || Fails(rules[0], q))
  }

  /** The rule decides, given whether a conjunction failed before. */
  predicate Decides(r: Rule, q: Request, failed: bool) {
    Applies(r, q) && !(failed && r.subject.And?)
  }

  function Computed(rules: seq<Rule>, q: Request, failed: bool): Option<bool> {
    if rules == [] then None
    else if Decides(rules[0], q, failed) then Some(rules[0].allow)
    else Computed(rules[1..], q, failed || Fails(rules[0], q))
  }

  /** The code is first-match evaluation of the purged rule list. */
  lemma {:induction false} ComputedIsPurgedFirstMatch(rules: seq<Rule>, q: Request, failed: bool)
    ensures Computed(rules, q, failed) == FirstMatch(Purged(rules, q, failed), q)
  {
    if rules != [] {
      var failed' := failed || Fails(rules[0], q);
      ComputedIsPurgedFirstMatch(rules[1..], q, failed');
      var rest := Purged(rules[1..], q, failed');
      if failed && rules[0].subject.And? {
        assert [] + rest == rest;
      } else {
        assert ([rules[0]] + rest)[1..] == rest;
      }
    }
  }

  /** Hence plain first-match evaluation when no conjunction fails, or none follows. */
  lemma {:induction false} NothingPurged(rules: seq<Rule>, q: Request, failed: bool)
    requires failed ==> forall i :: 0 <= i < |rules| ==> !rules[i].subject.And?
    requires !failed ==> forall i, j :: 0 <= i < j < |rules| && Fails(rules[i], q) ==> !rules[j].subject.And?
    ensures Purged(rules, q, failed) == rules
  {
    if rules != [] {
      var rest := rules[1..];
      forall j | 0 <= j < |rest| && (failed || Fails(rules[0], q)) ensures !rest[j].subject.And? {
        assert rest[j] == rules[j + 1];
      }
      NothingPurged(rest, q, failed || Fails(rules[0], q));
    }
  }

  /** Index of the first rule that applies, or the number of rules. */
  function FirstIndex(rules: seq<Rule>, q: Request): (k: nat)
    ensures k <= |rules|
    ensures k < |rules| ==> Applies(rules[k], q)
  {
    if rules == [] || Applies(rules[0], q) then 0 else 1 + FirstIndex(rules[1..], q)
  }

  predicate SomeFails(rules: seq<Rule>, q: Request) {
    exists i :: 0 <= i < |rules| && Fails(rules[i], q)
  }

  /** The code skips the first applying rule when that is a conjunction after a
      failing one, and goes on behind it. */
  lemma {:induction false} ComputedAtFirst(rules: seq<Rule>, q: Request, failed: bool)
    ensures var k := FirstIndex(rules, q);
      Computed(rules, q, failed) ==
        if k == |rules| then None
        else if (failed || SomeFails(rules[..k], q)) && rules[k].subject.And? then Computed(rules[k + 1..], q, true)
        else Some(rules[k].allow)
  {
    if rules != [] && !Applies(rules[0], q) {
      var k, rest := FirstIndex(rules, q), rules[1..];
      ComputedAtFirst(rest, q, failed || Fails(rules[0], q));
      SomeFailsCons(rules, q, k);
      if k < |rules| {
        assert rest[k - 1] == rules[k] && rest[k..] == rules[k + 1..];
      }
    }
  }

  lemma SomeFailsCons(rules: seq<Rule>, q: Request, k: nat)
    requires 0 < k <= |rules|
    ensures SomeFails(rules[..k], q) <==> Fails(rules[0], q) || SomeFails(rules[1..][..k - 1], q)
  {
    var front, rest := rules[..k], rules[1..][..k - 1];
    assert front == [rules[0]] + rest;
    if SomeFails(front, q) && !Fails(rules[0], q) {
      var i :| 0 <= i < |front| && Fails(front[i], q);
      assert rest[i - 1] == front[i];
    }
    if SomeFails(rest, q) {
      var i :| 0 <= i < |rest| && Fails(rest[i], q);
      assert front[i + 1] == rest[i];
    }
    if Fails(rules[0], q) {
      assert front[0] == rules[0];
    }
  }

  lemma {:induction false} FirstMatchAtIndex(rules: seq<Rule>, q: Request)
    ensures var k := FirstIndex(rules, q);
      FirstMatch(rules, q) == if k == |rules| then None else Some(rules[k].allow)
  {
    if rules != [] && !Applies(rules[0], q) {
      FirstMatchAtIndex(rules[1..], q);
    }
  }

  /** The rules that are not conjunctions. */
  function Simple(rules: seq<Rule>): seq<Rule> {
    if rules == [] then []
    else (if rules[0].subject.And? then [] else [rules[0]]) + Simple(rules[1..])
  }

  /** Behind a failing conjunction no conjunction is left. */
  lemma {:induction false} PurgedIsSimple(rules: seq<Rule>, q: Request)
    ensures Purged(rules, q, true) == Simple(rules)
  {
    if rules != [] {
      PurgedIsSimple(rules[1..], q);
    }
  }

  /** What auth_acl answers. */
  function Answer(rules: seq<Rule>, q: Request, allowNoMatch: bool): bool {
    Verdict(FirstMatch(Purged(rules, q, false), q), allowNoMatch)
  }

  /** The answer is that of plain first-match exactly when the first applying rule is
      not a conjunction behind a failing one, or the simple rules behind it, or in
      their silence the default, say the same as it. */
  lemma AgreesIff(rules: seq<Rule>, q: Request, allowNoMatch: bool)
    ensures var k := FirstIndex(rules, q);
      Answer(rules, q, allowNoMatch) == Verdict(FirstMatch(rules, q), allowNoMatch) <==>
        || k == |rules|
        || !rules[k].subject.And?
        || !SomeFails(rules[..k], q)
        || Verdict(FirstMatch(Simple(rules[k + 1..]), q), allowNoMatch) == rules[k].allow
  {
    var k := FirstIndex(rules, q);
    ComputedIsPurgedFirstMatch(rules, q, false);
    ComputedAtFirst(rules, q, false);
    FirstMatchAtIndex(rules, q);
    if k < |rules| {
      ComputedIsPurgedFirstMatch(rules[k + 1..], q, true);
      PurgedIsSimple(rules[k + 1..], q);
    }
  }

  /** Two conjunctions of which the second applies and allows: the code answers as if
      there were no rule at all. */
  lemma SkippedConjunction(q: Request, other: string, allowNoMatch: bool)
    requires q.client.username != Some(other)
    ensures var rules := [Rule(false, Any, And([SubRule(Username, Single(other))]), []), Rule(true, Any, And([]), [])];
      Verdict(FirstMatch(rules, q), allowNoMatch) && Answer(rules, q, allowNoMatch) == allowNoMatch
  {
    var subs := [SubRule(Username, Single(other))];
    var r0, r1 := Rule(false, Any, And(subs), []), Rule(true, Any, And([]), []);
    assert !SubMatches(subs[0], q.client);
    assert !Conjunction(subs, q.client) && Conjunction([], q.client);
    assert Fails(r0, q) && !Applies(r0, q) && Applies(r1, q);
    assert [r0, r1][1..] == [r1] && [r1][1..] == [];
    assert Computed([r1], q, true) == Computed([], q, true);
    ComputedIsPurgedFirstMatch([r0, r1], q, false);
  }

  /** With one rule the answer is what it says, if it applies, or the default. */
  lemma SingleRule(r: Rule, q: Request, allowNoMatch: bool)
    ensures Answer([r], q, allowNoMatch) == if Applies(r, q) then r.allow else allowNoMatch
  {
    assert [r][1..] == [];
    ComputedIsPurgedFirstMatch([r], q, false);
    assert Computed([r], q, false) == if Applies(r, q) then Some(r.allow) else None;
  }

  /** A rule about a user name, a client identifier or an address applies exactly to the
      clients that have it. */
  lemma AttributeRules(q: Request, v: string, allow: bool, allowNoMatch: bool)
    ensures Answer([Rule(allow, Any, One(Username, Single(v)), [])], q, allowNoMatch) ==
      if q.client.username == Some(v) then allow else allowNoMatch
    ensures Answer([Rule(allow, Any, One(ClientId, Single(v)), [])], q, allowNoMatch) ==
      if q.client.clientid == Some(v) then allow else allowNoMatch
    ensures Answer([Rule(allow, Any, One(IpAddr, Single(v)), [])], q, allowNoMatch) ==
      if q.client.ip == Some(v) then allow else allowNoMatch
  {
    SingleRule(Rule(allow, Any, One(Username, Single(v)), []), q, allowNoMatch);
    SingleRule(Rule(allow, Any, One(ClientId, Single(v)), []), q, allowNoMatch);
    SingleRule(Rule(allow, Any, One(IpAddr, Single(v)), []), q, allowNoMatch);
  }

  /** A rule for one action does not concern the other; a topic behind '@' is compared as
      it is, any other is matched as a filter. */
  lemma TopicRules(q: Request, t: string, allow: bool, allowNoMatch: bool)
    requires q.client.username.None? && q.client.clientid.None? && t != "" && t[0] != '@'
    requires q.action == Pub
    ensures Answer([Rule(allow, Sub, Everyone, [])], q, allowNoMatch) == allowNoMatch
    ensures Answer([Rule(allow, Pub, Everyone, [])], q, allowNoMatch) == allow
    ensures Answer([Rule(allow, Any, Everyone, [Some("@" + t)])], q, allowNoMatch) ==
      if q.topic == t then allow else allowNoMatch
    ensures Answer([Rule(allow, Any, Everyone, [Some(t)])], q, allowNoMatch) ==
      if q.filter(t, q.topic) then allow else allowNoMatch
  {
    SingleRule(Rule(allow, Sub, Everyone, []), q, allowNoMatch);
    SingleRule(Rule(allow, Pub, Everyone, []), q, allowNoMatch);
    SingleRule(Rule(allow, Any, Everyone, [Some("@" + t)]), q, allowNoMatch);
    SingleRule(Rule(allow, Any, Everyone, [Some(t)]), q, allowNoMatch);
    OneTopic("@" + t, q);
    OneTopic(t, q);
    assert ("@" + t)[1..] == t;
  }

  /** A conjunction applies exactly when all its sub-rules of a known kind do, a
      disjunction exactly when one of them does. */
  lemma CompoundRules(q: Request, u: string, c: string, x: Content, allow: bool, allowNoMatch: bool)
    ensures var subs := [SubRule(Username, Single(u)), SubRule(OtherKind, x), SubRule(ClientId, Single(c))];
      && Answer([Rule(allow, Any, And(subs), [])], q, allowNoMatch) ==
         (if q.client.username == Some(u) && q.client.clientid == Some(c) then allow else allowNoMatch)
      && Answer([Rule(allow, Any, Or(subs), [])], q, allowNoMatch) ==
         (if q.client.username == Some(u) || q.client.clientid == Some(c) then allow else allowNoMatch)
  {
    var subs := [SubRule(Username, Single(u)), SubRule(OtherKind, x), SubRule(ClientId, Single(c))];
    SingleRule(Rule(allow, Any, And(subs), []), q, allowNoMatch);
    SingleRule(Rule(allow, Any, Or(subs), []), q, allowNoMatch);
    assert Conjunction(subs, q.client) <==> SubMatches(subs[0], q.client) && SubMatches(subs[2], q.client);
    assert Disjunction(subs, q.client) <==> SubMatches(subs[0], q.client) || SubMatches(subs[2], q.client);
  }

  /** Content that matches everyone, and content of no known kind. */
  lemma ContentRules(q: Request, k: Kind, allow: bool, allowNoMatch: bool)
    requires k != OtherKind
    ensures Answer([Rule(allow, Any, One(k, All), [])], q, allowNoMatch) == allow
    ensures Answer([Rule(allow, Any, One(k, OtherContent), [])], q, allowNoMatch) == allowNoMatch
    ensures Answer([Rule(allow, Any, OtherSubject, [])], q, allowNoMatch) == allowNoMatch
  {
    SingleRule(Rule(allow, Any, One(k, All), []), q, allowNoMatch);
    SingleRule(Rule(allow, Any, One(k, OtherContent), []), q, allowNoMatch);
    SingleRule(Rule(allow, Any, OtherSubject, []), q, allowNoMatch);
  }

  /** The topics behind a NULL are not looked at. */
  lemma NullTopicStops(q: Request, ts: seq<Option<string>>, allow: bool, allowNoMatch: bool)
    ensures Answer([Rule(allow, Any, Everyone, [None] + ts)], q, allowNoMatch) == allowNoMatch
  {
    SingleRule(Rule(allow, Any, Everyone, [None] + ts), q, allowNoMatch);
    assert ([None] + ts)[0] == None;
  }

  lemma OneTopic(t: string, q: Request)
    requires q.client.username.None? && q.client.clientid.None?
    ensures SomeTopicHits([Some(t)], q) == TopicHits(t, q)
  {
    assert [Some(t)][1..] == [];
  }

  // The code

  method AndLoop(subs: seq<SubRule>, c: Client, before: bool) returns (subMatch: bool)
    ensures subMatch == (before && Conjunction(subs, c))
  {
    subMatch := before;
    for j := 0 to |subs|
      invariant subMatch == (before && Conjunction(subs[..j], c)) && (subMatch || j == 0)
    {
      assert subs[..j + 1] == subs[..j] + [subs[j]];
      if subs[j].kind != OtherKind && !SubMatches(subs[j], c) {
        subMatch := false;
      }
      if !subMatch {
        assert before ==> !Conjunction(subs, c);
        return;
      }
    }
    assert subs[..|subs|] == subs;
  }

  method OrLoop(subs: seq<SubRule>, c: Client) returns (match': bool)
    ensures match' == Disjunction(subs, c)
  {
    match' := false;
    for j := 0 to |subs|
      invariant !match' && forall i :: 0 <= i < j ==> subs[i].kind == OtherKind || !SubMatches(subs[i], c)
    {
      if subs[j].kind != OtherKind {
        match' := match' || SubMatches(subs[j], c);
      }
      if match' {
        return;
      }
    }
  }

  ghost predicate AllSmall(topics: seq<Option<string>>, c: Client) {
    forall j :: 0 <= j < |topics| && topics[j].Some? ==> SmallEnough(topics[j].value, c)
  }

  method TopicLoop(topics: seq<Option<string>>, q: Request) returns (found: bool)
    requires AllSmall(topics, q.client)
    ensures found == SomeTopicHits(topics, q)
  {
    found := false;
    var j := 0;
    assert topics[0..] == topics;
    while j < |topics| && !found
      invariant 0 <= j <= |topics|
      invariant SomeTopicHits(topics, q) == (found || SomeTopicHits(topics[j..], q))
    {
      if topics[j].None? {
        return;
      }
      assert topics[j..][1..] == topics[j + 1..];
      var ruleTopic := ReplaceTopic(topics[j].value, q.client);
      if |ruleTopic| > 1 && ruleTopic[0] == '@' {
        if ruleTopic[1..] == q.topic {
          found := true;
        }
      } else if q.filter(ruleTopic, q.topic) {
        found := true;
      }
      if found {
        return;
      }
      j := j + 1;
    }
  }

  /** auth_acl. At the start of each round `match` is false, and `subMatch` tells that
      no conjunction has failed: it is never set again. */
  method AuthAcl(rules: seq<Rule>, q: Request, allowNoMatch: bool) returns (permitted: bool)
    requires forall i :: 0 <= i < |rules| ==> AllSmall(rules[i].topics, q.client)
    ensures permitted == Answer(rules, q, allowNoMatch)
  {
    ComputedIsPurgedFirstMatch(rules, q, false);
    var matched, subMatch, result := false, true, false;
    assert rules[0..] == rules;
    var i := 0;
    while i < |rules|
      invariant 0 <= i <= |rules| && !matched && !result
      invariant Computed(rules[i..], q, !subMatch) == Computed(rules, q, false)
    {
      var rule := rules[i];
      assert rules[i..][0] == rule && rules[i..][1..] == rules[i + 1..];
      i := i + 1;
      if rule.action != Any && rule.action != q.action {
        continue;
      }
      match rule.subject {
        case One(kind, content) =>
          matched := kind != OtherKind && ContentMatches(content, Attribute(q.client, kind));
        case And(subs) =>
          subMatch := AndLoop(subs, q.client, subMatch);
          if subMatch {
            matched := true;
          }
        case Or(subs) =>
          matched := OrLoop(subs, q.client);
        case Everyone =>
          matched := true;
        case OtherSubject =>
      }
      if !matched {
        continue;
      }
      if |rule.topics| > 0 {
        var found := TopicLoop(rule.topics, q);
        if !found {
          matched := false;
          continue;
        }
      }
      result := if rule.allow then matched else !matched;
      break;
    }
    if matched {
      permitted := result;
    } else {
      permitted := if allowNoMatch then true else result;
    }
  }
}
