/** SUBSCRIBE packets are decoded into a list of topic filters with their options,
    and answered by a SUBACK with one code for each. */
module SubscribeCodec {
  import opened Wrappers
  import opened Arith
  import opened Wire
  import VarInt

  datatype Error = ProtocolError | UnspecifiedError

  /** A topic_node: the filter and its options byte. */
  datatype Node = Node(topic: Str, options: Byte)

  datatype Packet = Packet(packetId: U16, props: seq<Byte>, nodes: seq<Node>)

  datatype Config = Config(v5: bool, utf8: Utf8, propsOk: seq<Byte> -> bool)

  const SLASH: Byte := 0x2F
  const PLUS: Byte := 0x2B
  const HASH: Byte := 0x23

  /** "$share/" */
  const SHARE: seq<Byte> := [0x24, 0x73, 0x68, 0x61, 0x72, 0x65, 0x2F]

  function Qos(n: Node): Byte { n.options % 4 }
  predicate NoLocal(n: Node) { n.options / 4 % 2 == 1 }
  function RetainHandling(n: Node): Byte { n.options / 16 }

  // Shared subscriptions

  /** strchr, as an offset. */
  function Find(s: seq<Byte>, b: Byte): (r: Option<nat>)
    ensures r.Some? ==> r.value < |s| && s[r.value] == b && b !in s[..r.value]
    ensures r.None? ==> b !in s
  {
    if s == [] then None
    else if s[0] == b then Some(0)
    else
      var r := Find(s[1..], b);
      if r.None? then None
      else
        assert s[..r.value + 1] == [s[0]] + s[1..][..r.value];
        Some(r.value + 1)
  }

  predicate IsShared(topic: seq<Byte>) {
    |CString(topic)| >= 7 && CString(topic)[..7] == SHARE
  }

  /** The checks on a shared filter, on its C string. */
  predicate SharedOk(topic: seq<Byte>)
    requires IsShared(topic)
  {
    var rest := CString(topic)[7..];
    var end := Find(rest, SLASH);
    && |topic| > 8
    && end.Some? && end.value != 0 && end.value + 1 < |rest|
    && HASH !in rest[..end.value] && PLUS !in rest[..end.value]
  }

  ghost predicate IsShareName(name: seq<Byte>) {
    name != [] && SLASH !in name && PLUS !in name && HASH !in name
  }

  lemma {:induction false} FindAt(s: seq<Byte>, b: Byte, k: nat)
    requires k < |s| && s[k] == b && b !in s[..k]
    ensures Find(s, b) == Some(k)
  {
    if k > 0 {
      assert s[0] == s[..k][0];
      assert s[..k][1..] == s[1..][..k - 1];
      FindAt(s[1..], b, k - 1);
    }
  }

  lemma SharedParts(topic: seq<Byte>) returns (name: seq<Byte>, filter: seq<Byte>)
    requires CString(topic) == topic && IsShared(topic) && SharedOk(topic)
    ensures IsShareName(name) && filter != [] && topic == Shared(name, filter)
  {
    var rest := topic[7..];
    var e := Find(rest, SLASH).value;
    name, filter := rest[..e], rest[e + 1..];
    assert rest == name + [SLASH] + filter;
    assert topic == topic[..7] + rest;
  }

  lemma SharedAccepted(topic: seq<Byte>, name: seq<Byte>, filter: seq<Byte>)
    requires CString(topic) == topic && IsShareName(name) && filter != [] && topic == Shared(name, filter)
    ensures IsShared(topic) && SharedOk(topic)
  {
    var rest := topic[7..];
    assert rest == name + [SLASH] + filter;
    assert rest[..|name|] == name;
    FindAt(rest, SLASH, |name|);
  }

  /** An accepted shared filter is "$share/", a share name without '/', '+' and '#',
      a '/', and a filter that is not empty; and every such filter is accepted. */
  lemma SharedOkIff(topic: seq<Byte>)
    requires CString(topic) == topic && IsShared(topic)
    ensures SharedOk(topic) <==>
      exists name, filter :: IsShareName(name) && filter != [] && topic == Shared(name, filter)
  {
    if SharedOk(topic) {
      var name, filter := SharedParts(topic);
    }
    if name, filter :| IsShareName(name) && filter != [] && topic == Shared(name, filter) {
      SharedAccepted(topic, name, filter);
    }
  }

  function Shared(name: seq<Byte>, filter: seq<Byte>): seq<Byte> {
    SHARE + name + [SLASH] + filter
  }

  // The list of filters

  /** A filter and options that the decoder takes. */
  predicate Acceptable(c: Config, n: Node) {
    && n.topic != [] && IsString(c.utf8, n.topic)
    && RetainHandling(n) <= 2
    && (IsShared(n.topic) ==> !(c.v5 && NoLocal(n)) && SharedOk(n.topic))
  }

  /** What the decoder takes, in terms of the bytes: retain handling, the upper four bits
      of the options, at most 2; and for a shared filter, its form and, in version 5, the
      no-local bit clear. */
  lemma AcceptableIff(c: Config, n: Node)
    requires CString(n.topic) == n.topic
    ensures Acceptable(c, n) <==>
      && n.topic != [] && IsString(c.utf8, n.topic) && n.options < 48
      && (|n.topic| >= 7 && n.topic[..7] == SHARE ==>
          && !(c.v5 && n.options / 4 % 2 == 1)
          && exists name, filter :: IsShareName(name) && filter != [] && n.topic == Shared(name, filter))
  {
    if IsShared(n.topic) {
      SharedOkIff(n.topic);
    }
  }

  ghost predicate AllAcceptable(c: Config, ns: seq<Node>) {
    forall i :: 0 <= i < |ns| ==> Acceptable(c, ns[i])
  }

  function EncodedNode(n: Node): seq<Byte> {
    PutString(n.topic) + [n.options]
  }

  function EncodedNodes(ns: seq<Node>): seq<Byte> {
    if ns == [] then [] else EncodedNode(ns[0]) + EncodedNodes(ns[1..])
  }

  /** One filter with its options at pos. */
  function DecodedNode(c: Config, s: seq<Byte>, pos: nat): (r: Result<(Node, nat), Error>)
    requires pos <= |s|
    ensures r.Ok? ==> pos < r.value.1 <= |s|
  {
    var topic := GetString(c.utf8, s, pos);
    if topic.None? || topic.value.0 == [] then Err(if c.v5 then ProtocolError else UnspecifiedError)
    else if topic.value.1 >= |s| then Err(ProtocolError)
    else
      var n := Node(topic.value.0, s[topic.value.1]);
      if Acceptable(c, n) then Ok((n, topic.value.1 + 1)) else Err(ProtocolError)
  }

  /** All filters from pos to the end. */
  function DecodedNodes(c: Config, s: seq<Byte>, pos: nat): Result<seq<Node>, Error>
    requires pos <= |s|
    decreases |s| - pos
  {
    if pos == |s| then Ok([])
    else
      var first := DecodedNode(c, s, pos);
      if first.Err? then Err(first.error)
      else
        var rest := DecodedNodes(c, s, first.value.1);
        if rest.Err? then rest else Ok([first.value.0] + rest.value)
  }

  lemma NodeRoundTrip(c: Config, s: seq<Byte>, pre: seq<Byte>, n: Node, rest: seq<Byte>)
    requires Acceptable(c, n) && s == pre + EncodedNode(n) + rest
    ensures DecodedNode(c, s, |pre|) == Ok((n, |pre| + |EncodedNode(n)|))
  {
    assert s == pre + PutString(n.topic) + ([n.options] + rest);
    StringRoundTrip(c.utf8, pre, n.topic, [n.options] + rest);
    assert s[|pre| + 2 + |n.topic|] == n.options;
  }

  lemma DecodedCons(c: Config, s: seq<Byte>, pos: nat, n: Node, next: nat, ns: seq<Node>)
    requires pos < |s| && next <= |s|
    requires DecodedNode(c, s, pos) == Ok((n, next)) && DecodedNodes(c, s, next) == Ok(ns)
    ensures DecodedNodes(c, s, pos) == Ok([n] + ns)
  {
  }

  lemma NodeAt(c: Config, s: seq<Byte>, pos: nat, n: Node, rest: seq<Byte>) returns (next: nat)
    requires pos <= |s| && s[pos..] == EncodedNode(n) + rest && Acceptable(c, n)
    ensures pos < next <= |s| && s[next..] == rest
    ensures forall ns :: DecodedNodes(c, s, next) == Ok(ns) ==> DecodedNodes(c, s, pos) == Ok([n] + ns)
  {
    var pre := s[..pos];
    next := pos + |EncodedNode(n)|;
    assert s == pre + s[pos..];
    assert s == pre + EncodedNode(n) + rest;
    NodeRoundTrip(c, s, pre, n, rest);
    forall ns | DecodedNodes(c, s, next) == Ok(ns) ensures DecodedNodes(c, s, pos) == Ok([n] + ns) {
      DecodedCons(c, s, pos, n, next, ns);
    }
  }

  lemma TailAcceptable(c: Config, ns: seq<Node>)
    requires ns != [] && AllAcceptable(c, ns)
    ensures AllAcceptable(c, ns[1..]) && Acceptable(c, ns[0])
  {
    forall i | 0 <= i < |ns[1..]| ensures Acceptable(c, ns[1..][i]) {
      assert ns[1..][i] == ns[i + 1];
    }
  }

  /** Decoding recovers every list of acceptable filters, in order. */
  lemma {:induction false} NodesRoundTrip(c: Config, s: seq<Byte>, pos: nat, ns: seq<Node>)
    requires AllAcceptable(c, ns)
    requires pos <= |s| && s[pos..] == EncodedNodes(ns)
    ensures DecodedNodes(c, s, pos) == Ok(ns)
    decreases |ns|
  {
    if ns != [] {
      var n, tail := ns[0], ns[1..];
      TailAcceptable(c, ns);
      var next := NodeAt(c, s, pos, n, EncodedNodes(tail));
      NodesRoundTrip(c, s, next, tail);
      assert ns == [n] + tail;
    }
  }

  lemma NodeBack(c: Config, s: seq<Byte>, pos: nat)
    requires pos <= |s| && DecodedNode(c, s, pos).Ok?
    ensures var (n, next) := DecodedNode(c, s, pos).value;
      Acceptable(c, n) && EncodedNode(n) == s[pos..next]
  {
    PutGetString(c.utf8, s, pos);
    var (n, next) := DecodedNode(c, s, pos).value;
    assert s[pos..next] == s[pos..next - 1] + [s[next - 1]];
  }

  /** A list that was decoded is acceptable and encodes to the bytes it came from. */
  lemma {:induction false} DecodedNodesAreAll(c: Config, s: seq<Byte>, pos: nat)
    requires pos <= |s| && DecodedNodes(c, s, pos).Ok?
    ensures var ns := DecodedNodes(c, s, pos).value;
      AllAcceptable(c, ns) && EncodedNodes(ns) == s[pos..]
    decreases |s| - pos
  {
    if pos < |s| {
      var (n, next) := DecodedNode(c, s, pos).value;
      DecodedNodesAreAll(c, s, next);
      NodeBack(c, s, pos);
      var ns := DecodedNodes(c, s, pos).value;
      assert ns[0] == n && ns[1..] == DecodedNodes(c, s, next).value;
      assert s[pos..] == s[pos..next] + s[next..];
    }
  }

  // The packet

  /** The node that is left when the payload holds no filter. */
  const NO_FILTER := Node([], 0)

  function DecodedPayload(c: Config, s: seq<Byte>): Result<seq<Node>, Error> {
    if s == [] then Ok([NO_FILTER]) else DecodedNodes(c, s, 0)
  }

  function Decoded(c: Config, body: seq<Byte>): Result<Packet, Error>
    requires |body| >= 2
  {
    var id := GetU16(body, 0);
    if id == 0 then Err(ProtocolError)
    else if !c.v5 then
      var nodes := DecodedPayload(c, body[2..]);
      if nodes.Err? then Err(nodes.error) else Ok(Packet(id, [], nodes.value))
    else
      var props := GetProps(body, 2);
      if props.None? || !c.propsOk(props.value.0) then Err(ProtocolError)
      else
        var nodes := DecodedPayload(c, body[props.value.1..]);
        if nodes.Err? then Err(nodes.error) else Ok(Packet(id, props.value.0, nodes.value))
  }

  function Encoded(v5: bool, p: Packet): (s: seq<Byte>)
    ensures |s| >= 2
  {
    PutU16(p.packetId) + (if v5 then PutProps(p.props) else []) + EncodedNodes(p.nodes)
  }

  /** A packet whose identifier, properties and filters the decoder takes. */
  ghost predicate WellFormed(c: Config, p: Packet) {
    && p.packetId != 0 && AllAcceptable(c, p.nodes)
    && if c.v5 then c.propsOk(p.props) && |p.props| < VarInt.LIMIT else p.props == []
  }

  /** A well-formed SUBSCRIBE is always accepted, and decoded to what it was encoded from
      exactly when it holds a filter; otherwise one empty filter appears. */
  lemma RoundTripIff(c: Config, p: Packet)
    requires WellFormed(c, p)
    ensures Decoded(c, Encoded(c.v5, p)) == Ok(if p.nodes != [] then p else p.(nodes := [NO_FILTER]))
    ensures Decoded(c, Encoded(c.v5, p)) == Ok(p) <==> p.nodes != []
  {
    if p.nodes != [] {
      PayloadRoundTrip(c, p.nodes);
    }
    FieldsRoundTrip(c.v5, p, EncodedNodes(p.nodes));
  }

  /** Conversely, whatever is decoded has an identifier, properties that pass their check,
      and acceptable filters or none. */
  lemma DecodedIsWellFormed(c: Config, body: seq<Byte>)
    requires |body| >= 2 && Decoded(c, body).Ok?
    ensures var p := Decoded(c, body).value;
      && p.packetId == body[0] as int * 256 + body[1] && p.packetId != 0
      && (if c.v5 then c.propsOk(p.props) else p.props == [])
      && (p.nodes == [NO_FILTER] || AllAcceptable(c, p.nodes))
  {
    var start := if c.v5 then GetProps(body, 2).value.1 else 2;
    if body[start..] != [] {
      DecodedNodesAreAll(c, body[start..], 0);
    }
  }

  /** A filter that cannot be read, or is empty, fails the packet with an error that
      depends on the version. */
  lemma UnreadableFilter(c: Config, s: seq<Byte>)
    requires s != [] && (GetString(c.utf8, s, 0).None? || GetString(c.utf8, s, 0).value.0 == [])
    ensures DecodedPayload(c, s) == Err(if c.v5 then ProtocolError else UnspecifiedError)
  {
  }

  lemma PayloadRoundTrip(c: Config, ns: seq<Node>)
    requires AllAcceptable(c, ns) && ns != []
    ensures DecodedPayload(c, EncodedNodes(ns)) == Ok(ns)
  {
    var s := EncodedNodes(ns);
    assert s[0..] == s;
    NodesRoundTrip(c, s, 0, ns);
  }

  lemma FieldsRoundTrip(v5: bool, p: Packet, payload: seq<Byte>)
    requires |p.props| < VarInt.LIMIT
    ensures var props := if v5 then PutProps(p.props) else [];
      var body := PutU16(p.packetId) + props + payload;
      && GetU16(body, 0) == p.packetId
      && body[2 + |props|..] == payload
      && (v5 ==> GetProps(body, 2) == Some((p.props, 2 + |props|)))
  {
    var props := if v5 then PutProps(p.props) else [];
    var body := PutU16(p.packetId) + props + payload;
    assert body == [] + PutU16(p.packetId) + (props + payload);
    U16RoundTrip([], p.packetId, props + payload);
    if v5 {
      PropsRoundTrip(PutU16(p.packetId), p.props, payload);
    }
  }

  // SUBACK

  /** Reason code of a filter: the granted QoS unless another code was set. */
  const GRANTED_QOS_2: Byte := 2

  function AckCode(n: Node, reason: Byte): Byte {
    if reason == GRANTED_QOS_2 then Qos(n) else reason
  }

  function AckCodes(ns: seq<Node>, reasons: seq<Byte>): (s: seq<Byte>)
    requires |ns| == |reasons|
    ensures |s| == |ns|
    ensures forall i :: 0 <= i < |ns| ==> s[i] == AckCode(ns[i], reasons[i])
  {
    seq(|ns|, i requires 0 <= i < |ns| => AckCode(ns[i], reasons[i]))
  }

  /** What sub_ctx_handle makes of the filters: `rejected` is the verdict of HTTP
      authentication on the whole packet, `allowed` that of access control on a filter,
      and `refusal` the code set for a filter that is refused. */
  datatype Verdicts = Verdicts(rejected: bool, allowed: Str -> bool, refusal: Byte)

  predicate Granted(n: Node, v: Verdicts) {
    !v.rejected && (n == NO_FILTER || v.allowed(n.topic))
  }

  function Reasons(ns: seq<Node>, v: Verdicts): (r: seq<Byte>)
    ensures |r| == |ns|
    ensures forall i :: 0 <= i < |ns| ==> r[i] == if Granted(ns[i], v) then GRANTED_QOS_2 else v.refusal
  {
    seq(|ns|, i requires 0 <= i < |ns| => if Granted(ns[i], v) then GRANTED_QOS_2 else v.refusal)
  }

  /** The codes of the SUBACK are one for each filter of the SUBSCRIBE it answers, in the
      same order: the QoS asked for if the filter is granted, the refusal if not. */
  lemma AckAnswersSubscribe(c: Config, p: Packet, v: Verdicts)
    requires WellFormed(c, p) && p.nodes != [] && v.refusal != GRANTED_QOS_2
    ensures var q := Decoded(c, Encoded(c.v5, p));
      && q.Ok?
      && var codes := AckCodes(q.value.nodes, Reasons(q.value.nodes, v));
         && |codes| == |p.nodes|
         && forall i :: 0 <= i < |p.nodes| ==>
           codes[i] == if v.rejected || !v.allowed(p.nodes[i].topic) then v.refusal else p.nodes[i].options % 4
  {
    RoundTripIff(c, p);
    forall i | 0 <= i < |p.nodes| ensures p.nodes[i] != NO_FILTER {
      assert Acceptable(c, p.nodes[i]);
    }
  }

  /** A SUBSCRIBE without any filter is accepted and gets one code, for QoS 0 unless the
      packet is rejected as a whole. */
  lemma EmptyListIsAcked(c: Config, p: Packet, v: Verdicts)
    requires WellFormed(c, p) && p.nodes == [] && v.refusal != GRANTED_QOS_2
    ensures var q := Decoded(c, Encoded(c.v5, p));
      && q.Ok?
      && AckCodes(q.value.nodes, Reasons(q.value.nodes, v)) == [if v.rejected then v.refusal else 0]
  {
    RoundTripIff(c, p);
  }

  // The handlers

  /** The checks that decode_sub_msg makes on one shared filter. */
  method CheckShared(c: Config, n: Node) returns (ok: bool)
    requires IsShared(n.topic)
    ensures ok <==> !(c.v5 && NoLocal(n)) && SharedOk(n.topic)
  {
    if c.v5 && NoLocal(n) {
      return false;
    }
    if |n.topic| <= 8 {
      return false;
    }
    var rest := CString(n.topic)[7..];
    var nameEnd := Find(rest, SLASH);
    if nameEnd.None? || nameEnd.value == 0 || nameEnd.value + 1 == |rest| {
      return false;
    }
    var mark1 := Find(rest, HASH);
    var mark2 := Find(rest, PLUS);
    ghost var name := rest[..nameEnd.value];
    MarkInName(rest, HASH, nameEnd.value);
    MarkInName(rest, PLUS, nameEnd.value);
    if (mark1.Some? && nameEnd.value > mark1.value) || (mark2.Some? && nameEnd.value > mark2.value) {
      return false;
    }
    ok := true;
  }

  lemma MarkInName(rest: seq<Byte>, b: Byte, end: nat)
    requires end <= |rest|
    ensures b in rest[..end] <==> Find(rest, b).Some? && Find(rest, b).value < end
  {
    var r := Find(rest, b);
    if r.Some? {
      var k := r.value;
      if k < end {
        assert rest[..end][k] == b;
      } else {
        assert rest[..end] == rest[..k][..end];
      }
    } else {
      assert rest == rest[..end] + rest[end..];
    }
  }

  /** decode_sub_msg. The list grows by one node a round, and the position in the
      payload strictly advances. */
  method Decode(c: Config, body: seq<Byte>) returns (r: Result<Packet, Error>)
    requires |body| >= 2
    ensures r == Decoded(c, body)
  {
    var packetId := GetU16(body, 0);
    if packetId == 0 {
      return Err(ProtocolError);
    }
    var bpos := 2;
    var props: seq<Byte> := [];
    if c.v5 {
      var block := GetProps(body, bpos);
      if block.None? || !c.propsOk(block.value.0) {
        return Err(ProtocolError);
      }
      props, bpos := block.value.0, block.value.1;
    }
    var nodes := DecodePayload(c, body[bpos..]);
    if nodes.Err? {
      return Err(nodes.error);
    }
    r := Ok(Packet(packetId, props, nodes.value));
  }

  method DecodePayload(c: Config, payload: seq<Byte>) returns (r: Result<seq<Node>, Error>)
    ensures r == DecodedPayload(c, payload)
  {
    var nodes: seq<Node> := [];
    var ppos := 0;
    PrependNone(DecodedNodes(c, payload, 0));
    while true
      invariant 0 <= ppos <= |payload| && (ppos == |payload| ==> payload == [] && nodes == [])
      invariant payload != [] ==> Prepend(nodes, DecodedNodes(c, payload, ppos)) == DecodedNodes(c, payload, 0)
      decreases |payload| - ppos
    {
      if ppos >= |payload| {
        nodes := [NO_FILTER];
        break;
      }
      var topic := GetString(c.utf8, payload, ppos);
      if topic.None? || |topic.value.0| < 1 {
        return Err(if c.v5 then ProtocolError else UnspecifiedError);
      }
      ghost var start := ppos;
      ppos := topic.value.1;
      if ppos >= |payload| {
        return Err(ProtocolError);
      }
      var tn := Node(topic.value.0, payload[ppos]);
      if RetainHandling(tn) > 2 {
        return Err(ProtocolError);
      }
      ppos := ppos + 1;
      if IsShared(tn.topic) {
        var ok := CheckShared(c, tn);
        if !ok {
          return Err(ProtocolError);
        }
      }
      assert DecodedNode(c, payload, start) == Ok((tn, ppos));
      PrependStep(nodes, tn, DecodedNodes(c, payload, ppos));
      nodes := nodes + [tn];
      assert nodes + [] == nodes;
      if ppos >= |payload| {
        break;
      }
    }
    r := Ok(nodes);
  }

  ghost function Prepend(ns: seq<Node>, r: Result<seq<Node>, Error>): Result<seq<Node>, Error> {
    if r.Err? then r else Ok(ns + r.value)
  }

  lemma PrependNone(r: Result<seq<Node>, Error>)
    ensures Prepend([], r) == r
  {
    if r.Ok? {
      assert [] + r.value == r.value;
    }
  }

  lemma PrependStep(ns: seq<Node>, n: Node, rest: Result<seq<Node>, Error>)
    ensures Prepend(ns, if rest.Err? then rest else Ok([n] + rest.value)) == Prepend(ns + [n], rest)
  {
    if rest.Ok? {
      assert ns + ([n] + rest.value) == (ns + [n]) + rest.value;
    }
  }

  const PACKET_IDENTIFIER_IN_USE: Byte := 0x91
  const UNSPECIFIED_ERROR: Byte := 0x80

  /** encode_suback_msg: one code for each filter; a packet without identifier, or
      without filters, has a code of its own. */
  method EncodeSuback(v5: bool, p: Packet, reasons: seq<Byte>) returns (header: seq<Byte>, body: seq<Byte>)
    requires |reasons| == |p.nodes|
    ensures body == PutU16(p.packetId) + (if v5 then [0] else [])
      + (if p.packetId == 0 then [PACKET_IDENTIFIER_IN_USE] else []) + AckCodes(p.nodes, reasons)
      + (if p.packetId != 0 && p.nodes == [] then [UNSPECIFIED_ERROR] else [])
    ensures header == [0x90] + VarInt.Encoded(|body|)
  {
    body := PutU16(p.packetId);
    if v5 {
      body := body + [0];
    }
    if p.packetId == 0 {
      body := body + [PACKET_IDENTIFIER_IN_USE];
    }
    ghost var front := body;
    for i := 0 to |p.nodes|
      invariant body == front + AckCodes(p.nodes[..i], reasons[..i])
    {
      var code := if reasons[i] == GRANTED_QOS_2 then Qos(p.nodes[i]) else reasons[i];
      assert AckCodes(p.nodes[..i + 1], reasons[..i + 1]) == AckCodes(p.nodes[..i], reasons[..i]) + [code];
      body := body + [code];
    }
    assert p.nodes[..|p.nodes|] == p.nodes && reasons[..|p.nodes|] == reasons;
    if p.nodes == [] && p.packetId != 0 {
      body := body + [UNSPECIFIED_ERROR];
    }
    var len := VarInt.Put(|body|);
    header := [0x90] + len;
  }
}
