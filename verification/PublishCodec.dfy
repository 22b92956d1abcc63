/** PUBLISH packets: encode_pub_message and decode_pub_message, for MQTT 3.1.1 and
    5.0. Property blocks are kept as bytes; their contents are checked by `propsOk`. */
module PublishCodec {
  import opened Wrappers
  import opened Arith
  import opened Wire
  import VarInt

  datatype Error = ProtocolError | BadTopic | NotPublish

  datatype Packet = Packet(
    retain: bool, qos: nat, dup: bool,
    topic: seq<Byte>, packetId: U16, props: seq<Byte>, payload: seq<Byte>)

  /** A message as it travels: the fixed header and the rest. */
  datatype Message = Message(header: seq<Byte>, body: seq<Byte>)

  /** What the decoder relies on: version, UTF-8 check, property check. */
  datatype Config = Config(v5: bool, utf8: Utf8, propsOk: seq<Byte> -> bool)

  // Encoding

  /** The first byte of the fixed header: packet type 3 and the flags. */
  function Flags(p: Packet): Byte
    requires p.qos < 4
  {
    0x30 + (if p.dup then 8 else 0) + 2 * p.qos + (if p.retain then 1 else 0)
  }

  /** Topic name: nothing at all is written for an empty one. */
  function TopicField(p: Packet): seq<Byte>
    requires |p.topic| < 0x1_0000
  {
    if p.topic == [] then [] else PutString(p.topic)
  }

  function IdField(p: Packet): seq<Byte> {
    if p.qos > 0 then PutU16(p.packetId) else []
  }

  function PropsField(v5: bool, p: Packet): seq<Byte> {
    if v5 then PutProps(p.props) else []
  }

  function Body(v5: bool, p: Packet): seq<Byte>
    requires |p.topic| < 0x1_0000
  {
    TopicField(p) + IdField(p) + PropsField(v5, p) + p.payload
  }

  function Encoded(v5: bool, p: Packet): Message
    requires p.qos < 4 && |p.topic| < 0x1_0000
  {
    Message([Flags(p)] + VarInt.Encoded(|Body(v5, p)|), Body(v5, p))
  }

  /** Where the fields of a PUBLISH with a topic are: length and bytes of the topic, the
      identifier above QoS 0, and the payload at the end. */
  lemma Layout(v5: bool, p: Packet)
    requires p.qos < 4 && 0 < |p.topic| < 0x1_0000
    ensures var b, n := Encoded(v5, p).body, |p.topic|;
      && |b| >= 2 + n + |p.payload| && b[0] as int * 256 + b[1] == n && b[2..2 + n] == p.topic
      && (p.qos > 0 ==> |b| >= 4 + n && b[2 + n] as int * 256 + b[3 + n] == p.packetId)
      && b[|b| - |p.payload|..] == p.payload
  {
    var b, n := Body(v5, p), |p.topic|;
    NetworkOrder(n, PutU16(n));
    NetworkOrder(p.packetId, PutU16(p.packetId));
    assert b == PutU16(n) + p.topic + IdField(p) + PropsField(v5, p) + p.payload;
    FivePieces(PutU16(n), p.topic, IdField(p), PropsField(v5, p), p.payload);
  }

  lemma FivePieces(h: seq<Byte>, t: seq<Byte>, i: seq<Byte>, x: seq<Byte>, y: seq<Byte>)
    ensures var b := h + t + i + x + y;
      && b[..|h|] == h && b[|h|..|h| + |t|] == t
      && b[|h| + |t|..|h| + |t| + |i|] == i && b[|b| - |y|..] == y
      && (forall k :: 0 <= k < |h| ==> b[k] == h[k])
      && (forall k :: 0 <= k < |i| ==> b[|h| + |t| + k] == i[k])
  {
  }

  // Decoding

  /** Wildcard characters in a topic name read as a C string. */
  predicate HasWildcard(topic: seq<Byte>) {
    0x2B in CString(topic) || 0x23 in CString(topic)
  }

  function DecodedId(qos: nat, body: seq<Byte>, pos: nat): (r: Result<(U16, nat), Error>)
    requires pos <= |body|
    ensures r.Ok? ==> r.value.1 <= |body|
  {
    if qos == 0 then Ok((0, pos))
    else if pos + 2 > |body| then Err(ProtocolError)
    else Ok((GetU16(body, pos), pos + 2))
  }

  function DecodedProps(c: Config, body: seq<Byte>, pos: nat): (r: Result<(seq<Byte>, nat), Error>)
    requires pos <= |body|
    ensures r.Ok? ==> r.value.1 <= |body|
  {
    if !c.v5 then Ok(([], pos))
    else
      var props := GetProps(body, pos);
      if props.None? || !c.propsOk(props.value.0) then Err(ProtocolError) else Ok(props.value)
  }

  /** Everything after the fixed header. */
  function DecodedBody(c: Config, flags: Byte, body: seq<Byte>): Result<Packet, Error> {
    var topic := GetString(c.utf8, body, 0);
    if topic.None? then Err(BadTopic)
    else if HasWildcard(topic.value.0) then Err(ProtocolError)
    else
      var qos := flags / 2 % 4;
      var id := DecodedId(qos, body, topic.value.1);
      if id.Err? then Err(id.error)
      else
        var props := DecodedProps(c, body, id.value.1);
        if props.Err? then Err(props.error)
        else Ok(Packet(flags % 2 == 1, qos, flags / 8 % 2 == 1, topic.value.0, id.value.0,
                       props.value.0, body[props.value.1..]))
  }

  function Decoded(c: Config, m: Message): Result<Packet, Error> {
    if m.header == [] then Err(ProtocolError)
    else
      var len := GetVarInt(m.header[1..]);
      if len.None? || len.value.0 > |m.body| then Err(ProtocolError)
      else if m.header[0] / 16 != 3 then Err(NotPublish)
      else DecodedBody(c, m.header[0], m.body)
  }

  // Round trips

  /** Packets that the encoder can represent. */
  ghost predicate Encodable(c: Config, p: Packet) {
    && p.qos < 4
    && IsString(c.utf8, p.topic) && !HasWildcard(p.topic)
    && (p.qos == 0 ==> p.packetId == 0)
    && (if c.v5 then c.propsOk(p.props) else p.props == [])
    && |Body(c.v5, p)| < VarInt.LIMIT
  }

  lemma IdRoundTrip(p: Packet, pre: seq<Byte>, post: seq<Byte>)
    requires p.qos == 0 ==> p.packetId == 0
    ensures DecodedId(p.qos, pre + IdField(p) + post, |pre|) == Ok((p.packetId, |pre| + |IdField(p)|))
  {
    if p.qos > 0 {
      U16RoundTrip(pre, p.packetId, post);
    }
  }

  lemma PropsFieldRoundTrip(c: Config, p: Packet, pre: seq<Byte>, post: seq<Byte>)
    requires if c.v5 then c.propsOk(p.props) else p.props == []
    requires |p.props| < VarInt.LIMIT
    ensures DecodedProps(c, pre + PropsField(c.v5, p) + post, |pre|) == Ok((p.props, |pre| + |PropsField(c.v5, p)|))
  {
    if c.v5 {
      PropsRoundTrip(pre, p.props, post);
    }
  }

  lemma FlagsRoundTrip(p: Packet)
    requires p.qos < 4
    ensures Flags(p) / 16 == 3 && Flags(p) / 2 % 4 == p.qos
    ensures (Flags(p) % 2 == 1) == p.retain && (Flags(p) / 8 % 2 == 1) == p.dup
  {
  }

  /** The body as it is read: each field with what precedes and what follows it. */
  lemma BodySplits(v5: bool, p: Packet)
    requires 0 < |p.topic| < 0x1_0000
    ensures var t, i, x, y := TopicField(p), IdField(p), PropsField(v5, p), p.payload;
      && Body(v5, p) == [] + PutString(p.topic) + (i + x + y)
      && Body(v5, p) == t + i + (x + y)
      && Body(v5, p) == (t + i) + x + y
      && Body(v5, p)[|t + i| + |x|..] == y
  {
  }

  lemma BodyRoundTrip(c: Config, p: Packet)
    requires Encodable(c, p) && p.topic != []
    ensures DecodedBody(c, Flags(p), Body(c.v5, p)) == Ok(p)
  {
    FlagsRoundTrip(p);
    BodySplits(c.v5, p);
    var t, i, x, y := TopicField(p), IdField(p), PropsField(c.v5, p), p.payload;
    StringRoundTrip(c.utf8, [], p.topic, i + x + y);
    IdRoundTrip(p, t, x + y);
    PropsFieldRoundTrip(c, p, t + i, y);
  }

  lemma HeaderRoundTrip(c: Config, p: Packet)
    requires Encodable(c, p)
    ensures var m := Encoded(c.v5, p);
      && m.header != [] && m.header[0] == Flags(p)
      && GetVarInt(m.header[1..]) == Some((|m.body|, |m.header| - 1))
  {
    var m := Encoded(c.v5, p);
    var len := VarInt.Encoded(|m.body|);
    assert m.header[1..] == len && len + [] == len;
    VarIntRoundTrip(|m.body|, []);
  }

  /** Decoding an encoded PUBLISH gives the packet back exactly when its topic name
      is not empty. */
  lemma RoundTripIff(c: Config, p: Packet)
    requires Encodable(c, p)
    ensures Decoded(c, Encoded(c.v5, p)) == Ok(p) <==> p.topic != []
  {
    HeaderRoundTrip(c, p);
    FlagsRoundTrip(p);
    if p.topic != [] {
      BodyRoundTrip(c, p);
    } else {
      EmptyTopicLost(c, p);
    }
  }

  /** Whatever is decoded as a PUBLISH announces no more than there is, carries the flags
      of its first byte, a valid topic without wildcards, an identifier only above QoS 0
      and properties that pass their check. */
  lemma DecodedIsWellFormed(c: Config, m: Message)
    requires Decoded(c, m).Ok?
    ensures var p := Decoded(c, m).value;
      && m.header != [] && m.header[0] / 16 == 3
      && GetVarInt(m.header[1..]).Some? && GetVarInt(m.header[1..]).value.0 <= |m.body|
      && p.qos == m.header[0] / 2 % 4 && p.retain == (m.header[0] % 2 == 1) && p.dup == (m.header[0] / 8 % 2 == 1)
      && IsString(c.utf8, p.topic)
      && (0 !in p.topic ==> 0x2B !in p.topic && 0x23 !in p.topic)
      && (p.qos == 0 ==> p.packetId == 0)
      && (if c.v5 then c.propsOk(p.props) else p.props == [])
  {
    var p := Decoded(c, m).value;
    if 0 !in p.topic {
      WithoutNul(p.topic);
    }
  }

  /** A topic with a wildcard is refused. */
  lemma WildcardRefused(c: Config, m: Message)
    requires m.header != [] && m.header[0] / 16 == 3
    requires GetVarInt(m.header[1..]).Some? && GetVarInt(m.header[1..]).value.0 <= |m.body|
    requires var t := GetString(c.utf8, m.body, 0);
      t.Some? && 0 !in t.value.0 && (0x2B in t.value.0 || 0x23 in t.value.0)
    ensures Decoded(c, m) == Err(ProtocolError)
  {
    WithoutNul(GetString(c.utf8, m.body, 0).value.0);
  }

  lemma EmptyTopicLost(c: Config, p: Packet)
    requires Encodable(c, p) && p.topic == []
    ensures DecodedBody(c, Flags(p), Body(c.v5, p)) != Ok(p)
  {
    var body := Body(c.v5, p);
    if DecodedBody(c, Flags(p), body) == Ok(p) {
      LengthOfDecoded(c, Flags(p), body);
    }
  }

  /** The bytes that the fields of a decoded packet take up, at least. */
  lemma LengthOfDecoded(c: Config, flags: Byte, body: seq<Byte>)
    requires DecodedBody(c, flags, body).Ok?
    ensures var p := DecodedBody(c, flags, body).value;
      |body| >= 2 + |p.topic| + |IdField(p)| + |PropsField(c.v5, p)| + |p.payload|
  {
    var topic := GetString(c.utf8, body, 0).value;
    var id := DecodedId(flags / 2 % 4, body, topic.1).value;
    if c.v5 {
      ReadLength(body[id.1..], 4);
    }
  }

  /** No length field is shorter than the encoder's. */
  lemma {:induction false} ReadLength(s: seq<Byte>, fuel: nat)
    requires VarInt.Read(s, fuel).Some? && fuel > 0
    ensures var r := VarInt.Read(s, fuel).value; |VarInt.Encoded(r.0)| <= r.1
    decreases fuel
  {
    if s[0] >= 128 && fuel > 1 {
      ReadLength(s[1..], fuel - 1);
      var rest := VarInt.Read(s[1..], fuel - 1).value;
      var n := s[0] - 128 + 128 * rest.0;
      assert n / 128 == rest.0;
    }
  }

  /** Where the property block of a decoded message starts. */
  function PropsStart(c: Config, m: Message): (pos: nat)
    requires Decoded(c, m).Ok?
    ensures pos <= |m.body|
  {
    DecodedId(m.header[0] / 2 % 4, m.body, GetString(c.utf8, m.body, 0).value.1).value.1
  }

  /** The length of the property block is written in the shortest form. */
  predicate ShortestProps(c: Config, m: Message)
    requires Decoded(c, m).Ok? && c.v5
  {
    GetVarInt(m.body[PropsStart(c, m)..]).value.1 == |VarInt.Encoded(|Decoded(c, m).value.props|)|
  }

  lemma TopicAndIdBack(c: Config, m: Message)
    requires Decoded(c, m).Ok? && Decoded(c, m).value.topic != []
    ensures var p := Decoded(c, m).value;
      && |p.topic| < 0x1_0000 && p.qos == m.header[0] / 2 % 4
      && TopicField(p) + IdField(p) == m.body[..PropsStart(c, m)]
  {
    var p, body := Decoded(c, m).value, m.body;
    var topic := GetString(c.utf8, body, 0).value;
    PutGetString(c.utf8, body, 0);
    if p.qos > 0 {
      PutGetU16(body, topic.1);
    }
    assert body[..PropsStart(c, m)] == body[0..topic.1] + body[topic.1..PropsStart(c, m)];
  }

  lemma PropsBackIff(s: seq<Byte>, props: seq<Byte>, payload: seq<Byte>)
    requires GetProps(s, 0).Some? && GetProps(s, 0).value.0 == props && s[GetProps(s, 0).value.1..] == payload
    ensures PutProps(props) + payload == s <==> GetVarInt(s).value.1 == |VarInt.Encoded(|props|)|
  {
    assert s[0..] == s;
    var n := GetVarInt(s).value.1;
    assert s == s[..n] + (props + payload);
    if n == |VarInt.Encoded(|props|)| {
      ShortestIsUnique(s, 4);
    }
  }

  lemma PropsAtOffset(s: seq<Byte>, pos: nat)
    requires pos <= |s| && GetProps(s, pos).Some?
    ensures GetProps(s[pos..], 0) == Some((GetProps(s, pos).value.0, GetProps(s, pos).value.1 - pos))
    ensures s[pos..][GetProps(s, pos).value.1 - pos..] == s[GetProps(s, pos).value.1..]
  {
    var t := s[pos..];
    assert t[0..] == t;
    var len := GetVarInt(t).value;
    assert t[len.1..len.1 + len.0] == s[pos + len.1..pos + len.1 + len.0];
  }

  /** What follows the identifier, encoded again. */
  lemma TailBackV5(c: Config, m: Message)
    requires Decoded(c, m).Ok? && c.v5
    ensures var p := Decoded(c, m).value;
      PropsField(true, p) + p.payload == m.body[PropsStart(c, m)..] <==> ShortestProps(c, m)
  {
    var p, pos := Decoded(c, m).value, PropsStart(c, m);
    PropsAtOffset(m.body, pos);
    PropsBackIff(m.body[pos..], p.props, p.payload);
  }

  lemma TailBackV3(c: Config, m: Message)
    requires Decoded(c, m).Ok? && !c.v5
    ensures var p := Decoded(c, m).value; PropsField(false, p) + p.payload == m.body[PropsStart(c, m)..]
  {
  }

  /** Re-encoding what was decoded keeps the first header byte. */
  lemma FlagsKept(c: Config, m: Message)
    requires Decoded(c, m).Ok?
    ensures var p := Decoded(c, m).value; p.qos < 4 && Flags(p) == m.header[0]
  {
    FlagsBack(m.header[0]);
  }

  lemma BodyFromParts(v5: bool, p: Packet, front: seq<Byte>, tail: seq<Byte>)
    requires |p.topic| < 0x1_0000 && TopicField(p) + IdField(p) == front
    ensures Body(v5, p) == front + tail <==> PropsField(v5, p) + p.payload == tail
  {
    assert Body(v5, p) == front + (PropsField(v5, p) + p.payload);
    SameTail(front, PropsField(v5, p) + p.payload, tail);
  }

  /** Re-encoding what was decoded: a forwarded message keeps its body byte for byte
      exactly when the length of its property block, if it has one, is in shortest
      form; so always in version 3.1.1. The flags are kept too. */
  lemma ReencodeIff(c: Config, m: Message)
    requires Decoded(c, m).Ok? && Decoded(c, m).value.topic != []
    ensures var p := Decoded(c, m).value;
      && p.qos < 4 && |p.topic| < 0x1_0000
      && Flags(p) == m.header[0]
      && (Encoded(c.v5, p).body == m.body <==> (c.v5 ==> ShortestProps(c, m)))
  {
    var p, pos := Decoded(c, m).value, PropsStart(c, m);
    FlagsKept(c, m);
    TopicAndIdBack(c, m);
    BodyFromParts(c.v5, p, m.body[..pos], m.body[pos..]);
    assert m.body == m.body[..pos] + m.body[pos..];
    if c.v5 {
      TailBackV5(c, m);
    } else {
      TailBackV3(c, m);
    }
  }

  lemma SameTail(front: seq<Byte>, a: seq<Byte>, b: seq<Byte>)
    ensures front + a == front + b <==> a == b
  {
    if front + a == front + b {
      assert a == (front + a)[|front|..] && b == (front + b)[|front|..];
    }
  }

  lemma FlagsBack(flags: Byte)
    requires flags / 16 == 3
    ensures flags ==
      0x30 + (if flags / 8 % 2 == 1 then 8 else 0) + 2 * (flags / 2 % 4) + (if flags % 2 == 1 then 1 else 0)
  {
  }

  /** A length field as short as possible is the encoder's. */
  lemma {:induction false} ShortestIsUnique(s: seq<Byte>, fuel: nat)
    requires VarInt.Read(s, fuel).Some? && fuel > 0
    requires var r := VarInt.Read(s, fuel).value; r.1 > 0 && s[r.1 - 1] < 128 && |VarInt.Encoded(r.0)| == r.1
    ensures var r := VarInt.Read(s, fuel).value; s[..r.1] == VarInt.Encoded(r.0)
    decreases fuel
  {
    var r := VarInt.Read(s, fuel).value;
    if s[0] >= 128 {
      var rest := VarInt.Read(s[1..], fuel - 1).value;
      assert r.0 / 128 == rest.0;
      assert fuel > 1;
      ReadLength(s[1..], fuel - 1);
      ShortestIsUnique(s[1..], fuel - 1);
      assert s[..r.1] == [s[0]] + s[1..][..rest.1];
    }
  }

  // The encoder and the decoder

  /** encode_pub_message for a PUBLISH: fields are appended to the body, the header is
      completed once the length is known. */
  method Encode(v5: bool, p: Packet) returns (m: Message)
    requires p.qos < 4 && |p.topic| < 0x1_0000
    ensures m == Encoded(v5, p)
  {
    var header: seq<Byte> := [0x30 + (if p.dup then 8 else 0) + 2 * p.qos + (if p.retain then 1 else 0)];
    var body: seq<Byte> := [];
    if |p.topic| > 0 {
      body := body + PutU16(|p.topic|);
      body := body + p.topic;
    }
    assert body == TopicField(p);
    if p.qos > 0 {
      body := body + PutU16(p.packetId);
    }
    assert body == TopicField(p) + IdField(p);
    if v5 {
      var len := VarInt.Put(|p.props|);
      body := body + (len + p.props);
    }
    assert body == TopicField(p) + IdField(p) + PropsField(v5, p);
    if |p.payload| > 0 {
      body := body + p.payload;
    }
    assert body == Body(v5, p);
    var remaining := VarInt.Put(|body|);
    m := Message(header + remaining, body);
  }

  /** decode_pub_message for a PUBLISH: `pos` moves through the body. */
  method Decode(c: Config, m: Message) returns (r: Result<Packet, Error>)
    ensures r == Decoded(c, m)
  {
    if |m.header| == 0 {
      return Err(ProtocolError);
    }
    var len := GetVarInt(m.header[1..]);
    if len.None? || len.value.0 > |m.body| {
      return Err(ProtocolError);
    }
    var flags := m.header[0];
    if flags / 16 != 3 {
      return Err(NotPublish);
    }
    var pos := 0;
    var topic := GetString(c.utf8, m.body, pos);
    if topic.None? {
      return Err(BadTopic);
    }
    pos := topic.value.1;
    if HasWildcard(topic.value.0) {
      return Err(ProtocolError);
    }
    var qos, packetId: U16 := flags / 2 % 4, 0;
    if qos > 0 {
      if pos + 2 > |m.body| {
        return Err(ProtocolError);
      }
      packetId := GetU16(m.body, pos);
      pos := pos + 2;
    }
    var props: seq<Byte> := [];
    if c.v5 {
      var block := GetProps(m.body, pos);
      if block.None? || !c.propsOk(block.value.0) {
        return Err(ProtocolError);
      }
      props := block.value.0;
      pos := block.value.1;
    }
    r := Ok(Packet(flags % 2 == 1, qos, flags / 8 % 2 == 1, topic.value.0, packetId, props, m.body[pos..]));
  }
}
