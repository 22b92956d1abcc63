/** The life of one broker context: the state machine of server_cb and what it does
    to the decoded PUBLISH packet and the list of receivers that a context holds.

    What the network, the decoders and the checks answer is given by the input of
    each callback. Builds with plugins or iceoryx are not modelled; failures that
    end the program are not steps. */
module BrokerContext {
  import opened Wrappers

  datatype State = INIT | RECV | WAIT | SEND | END | CLOSE

  datatype Proto = Broker | MqttBridge | AwsBridge | HttpServer | NngBridge

  datatype Cmd = Subscribe | Unsubscribe | Publish | Connack | DisconnectEv | Other

  /** The answers handle_pub gets, in the order it asks. */
  datatype Checks = Checks(
    decodeOk: bool, isPublishPacket: bool, authOk: bool, aliasOk: bool, topicOk: bool, aclOk: bool,
    clients: bool, sharedClients: bool)

  datatype Input = Input(
    aioOk: bool, shut: bool, hasMsg: bool,
    publishType: bool, connackType: bool,
    decodable: bool,
    cmd: Cmd,
    checks: Checks,
    subscribed: bool, retained: nat,
    will: bool, willEncoded: bool,
    hooks: bool)

  /** `packet`: the PUBLISH packet owned; packets are numbered as they are allocated.
      `infos`: the pointer to the receiver list is not NULL; lists are counted.
      `publishMsg`: the packet type of the current message is PUBLISH. */
  datatype Ctx = Ctx(
    state: State, proto: Proto, flag: Cmd, codeOk: bool, publishMsg: bool,
    packet: Option<nat>, packets: nat, freed: seq<nat>,
    infos: bool, lists: nat, listsFreed: nat)

  function Fresh(proto: Proto): Ctx {
    Ctx(INIT, proto, Other, true, false, None, 0, [], false, 0, 0)
  }

  // Ownership

  function AllocPacket(c: Ctx): Ctx {
    c.(packet := Some(c.packets), packets := c.packets + 1)
  }

  function FreePacket(c: Ctx): Ctx {
    if c.packet.Some? then c.(packet := None, freed := c.freed + [c.packet.value]) else c
  }

  /** cvector_free: the pointer keeps its value. */
  function FreeList(c: Ctx): Ctx {
    if c.infos then c.(listsFreed := c.listsFreed + 1) else c
  }

  function DropList(c: Ctx): Ctx {
    FreeList(c).(infos := false)
  }

  function Release(c: Ctx): Ctx {
    DropList(FreePacket(c))
  }

  /** foreach_client: makes the list when there is none yet. */
  function AddReceivers(c: Ctx): Ctx {
    if c.infos then c else c.(infos := true, lists := c.lists + 1)
  }

  predicate Accepted(c: Ctx, k: Checks, isEvent: bool) {
    && (c.proto != MqttBridge || isEvent ==> k.decodeOk)
    && k.isPublishPacket && k.authOk && k.aliasOk && k.topicOk
    && (isEvent || k.aclOk)
  }

  /** handle_pub: the context after it, and whether it returns SUCCESS. */
  function HandlePub(c: Ctx, k: Checks, isEvent: bool): (Ctx, bool) {
    var b := c.(infos := false);
    var d := if c.proto != MqttBridge || isEvent then AllocPacket(b) else b;
    if Accepted(c, k, isEvent) then
      var e := if k.clients then AddReceivers(d) else d;
      (if k.sharedClients then AddReceivers(e) else e, true)
    else (d, false)
  }

  // Callbacks

  /** One retained message sent to a new subscriber: its packet is made and freed. */
  function SendRetained(c: Ctx, n: nat): Ctx {
    if n == 0 then c else Release(AllocPacket(SendRetained(c, n - 1)))
  }

  function OnSubscribe(c: Ctx, i: Input): Ctx {
    var d := if i.subscribed then c else c.(codeOk := false);
    if !d.codeOk then d.(state := CLOSE) else SendRetained(d, i.retained).(state := SEND)
  }

  function OnPublish(c: Ctx, i: Input): Ctx {
    var (d, ok) := HandlePub(c, i.checks, false);
    var e := d.(codeOk := ok);
    if c.proto == HttpServer || c.proto == AwsBridge then e.(state := if ok then WAIT else SEND)
    else if ok then e.(state := WAIT)
    else if c.proto != Broker then e.(state := SEND)
    else FreeList(FreePacket(e)).(state := CLOSE)
  }

  function OnEvent(c: Ctx, i: Input): Ctx {
    HandlePub(c, i.checks, true).0.(flag := Publish, publishMsg := true)
  }

  function OnDisconnect(c: Ctx, i: Input): Ctx {
    var d := OnEvent(c, i);
    if c.proto != MqttBridge && i.will then d.(state := END) else d.(state := WAIT)
  }

  function Dispatch(c: Ctx, i: Input, cmd: Cmd): Ctx {
    var d := c.(flag := cmd, publishMsg := i.publishType);
    match cmd
    case Subscribe => OnSubscribe(d, i)
    case Unsubscribe => d.(state := SEND)
    case Publish => OnPublish(d, i)
    case Connack => OnEvent(d, i).(state := WAIT)
    case DisconnectEv => OnDisconnect(d, i)
    case Other => d.(state := WAIT)
  }

  function OnRecv(c: Ctx, i: Input): Ctx {
    if !i.aioOk && (c.proto == Broker || !i.shut || !i.hasMsg) then c
    else match c.proto
      case MqttBridge =>
        if i.connackType then Dispatch(c, i, i.cmd)
        else if i.publishType then Dispatch(if i.aioOk then AllocPacket(c) else c, i, i.cmd)
        else c
      case HttpServer => if i.decodable then Dispatch(c, i, Publish) else c
      case AwsBridge => if i.decodable then Dispatch(c, i, Publish) else c
      case NngBridge => if i.decodable then Dispatch(c, i, i.cmd) else c
      case Broker => Dispatch(c, i, i.cmd)
  }

  function OnWait(c: Ctx, i: Input): Ctx {
    if !c.publishMsg then c.(state := RECV)
    else if i.hooks then c.(state := SEND)
    else Release(c).(state := RECV)
  }

  function OnSend(c: Ctx): Ctx {
    Release(c).(state := RECV, flag := Other)
  }

  function OnEnd(c: Ctx, i: Input): Ctx {
    if !c.publishMsg then c
    else
      var d := Release(c);
      if i.will && i.willEncoded then HandlePub(d, i.checks, false).0.(flag := Publish, state := WAIT)
      else d.(state := RECV)
  }

  function Step(c: Ctx, i: Input): Ctx {
    match c.state
    case INIT => c.(state := RECV)
    case RECV => OnRecv(c, i)
    case WAIT => OnWait(c, i)
    case SEND => OnSend(c)
    case END => OnEnd(c, i)
    case CLOSE => c.(state := RECV, codeOk := true)
  }

  function Run(c: Ctx, inputs: seq<Input>): Ctx
    decreases |inputs|
  {
    if inputs == [] then c else Step(Run(c, inputs[..|inputs| - 1]), inputs[|inputs| - 1])
  }

  // Invariant over every run whose messages carry a command that fits their type

  /** The command of a message fits its packet type: a PUBLISH packet is a publish
      or the event of a disconnect, and nothing else is; on a bridge the event is
      what comes with the shutdown of the connection. */
  predicate Agrees(proto: Proto, i: Input) {
    && (i.publishType <==> i.cmd == Publish || i.cmd == DisconnectEv)
    && (proto == HttpServer || proto == AwsBridge ==> i.publishType)
    && (proto == MqttBridge ==>
        && (i.publishType ==> (i.aioOk <==> i.cmd == Publish))
        && (i.connackType ==> i.cmd == Connack))
  }

  predicate AllAgree(proto: Proto, inputs: seq<Input>) {
    forall k :: 0 <= k < |inputs| ==> Agrees(proto, inputs[k])
  }

  function UpTo(n: nat): (s: seq<nat>)
    ensures |s| == n
  {
    if n == 0 then [] else UpTo(n - 1) + [n - 1]
  }

  /** Every packet ever allocated was freed once, in order, save the one held; every
      receiver list was freed once, save the one held. */
  ghost predicate Accounted(c: Ctx) {
    && c.freed + (if c.packet.Some? then [c.packet.value] else []) == UpTo(c.packets)
    && c.lists == c.listsFreed + (if c.infos then 1 else 0)
  }

  ghost predicate Empty(c: Ctx) {
    c.packet.None? && !c.infos
  }

  /** Nothing is held while waiting for a message; a message that WAIT or END will
      encode has its packet. */
  ghost predicate Held(c: Ctx) {
    match c.state
    case INIT => Empty(c)
    case RECV => Empty(c)
    case CLOSE => Empty(c)
    case WAIT => if c.publishMsg then c.packet.Some? else Empty(c)
    case END => c.publishMsg && c.packet.Some? && c.proto != MqttBridge
    case SEND => true
  }

  ghost predicate Inv(c: Ctx) {
    && Accounted(c) && Held(c)
    && (c.proto == Broker && c.state != CLOSE ==> c.codeOk)
  }

  lemma AllocAccounted(c: Ctx)
    requires Accounted(c) && c.packet.None?
    ensures Accounted(AllocPacket(c))
  {
  }

  lemma ReleaseAccounted(c: Ctx)
    requires Accounted(c)
    ensures Accounted(Release(c)) && Empty(Release(c))
    ensures Accounted(FreePacket(c)) && FreePacket(c).packet.None?
  {
  }

  /** handle_pub on a context that holds nothing, or on a bridge its decoded packet:
      it leaves a packet, and no receiver list unless it succeeds. */
  lemma HandlePubHolds(c: Ctx, k: Checks, isEvent: bool)
    requires Accounted(c) && !c.infos
    requires c.packet.Some? <==> c.proto == MqttBridge && !isEvent
    ensures var (d, ok) := HandlePub(c, k, isEvent);
      && Accounted(d) && d.packet.Some?
      && (!ok ==> !d.infos)
      && d.proto == c.proto && d.state == c.state && d.codeOk == c.codeOk && d.publishMsg == c.publishMsg
  {
    if c.packet.None? {
      AllocAccounted(c);
    }
  }

  lemma {:induction false} RetainedAccounted(c: Ctx, n: nat)
    requires Accounted(c) && Empty(c)
    ensures var d := SendRetained(c, n);
      Accounted(d) && Empty(d) && d.proto == c.proto && d.codeOk == c.codeOk && d.packets == c.packets + n
  {
    if n > 0 {
      RetainedAccounted(c, n - 1);
      var d := SendRetained(c, n - 1);
      AllocAccounted(d);
      ReleaseAccounted(AllocPacket(d));
    }
  }

  lemma PublishKeeps(c: Ctx, i: Input)
    requires Accounted(c) && !c.infos && c.publishMsg
    requires c.packet.Some? <==> c.proto == MqttBridge
    ensures Inv(OnPublish(c, i))
  {
    HandlePubHolds(c, i.checks, false);
    var (d, ok) := HandlePub(c, i.checks, false);
    ReleaseAccounted(d.(codeOk := ok));
  }

  lemma EventKeeps(c: Ctx, i: Input)
    requires Accounted(c) && Empty(c) && (c.proto == Broker ==> c.codeOk)
    ensures Inv(OnEvent(c, i).(state := WAIT)) && Inv(OnDisconnect(c, i))
  {
    HandlePubHolds(c, i.checks, true);
  }

  lemma DispatchKeeps(c: Ctx, i: Input, cmd: Cmd)
    requires Accounted(c) && !c.infos && (c.proto == Broker ==> c.codeOk)
    requires c.packet.Some? <==> c.proto == MqttBridge && cmd == Publish
    requires cmd == Publish ==> i.publishType
    requires cmd == Other ==> !i.publishType
    ensures Inv(Dispatch(c, i, cmd))
  {
    var d := c.(flag := cmd, publishMsg := i.publishType);
    match cmd
    case Subscribe => RetainedAccounted(d, i.retained);
    case Publish => PublishKeeps(d, i);
    case Connack => EventKeeps(d, i);
    case DisconnectEv => EventKeeps(d, i);
    case _ =>
  }

  lemma RecvKeeps(c: Ctx, i: Input)
    requires Inv(c) && c.state == RECV && Agrees(c.proto, i)
    ensures Inv(OnRecv(c, i))
  {
    AllocAccounted(c);
    if !i.aioOk && (c.proto == Broker || !i.shut || !i.hasMsg) {
    } else {
      match c.proto
      case MqttBridge =>
        if i.connackType {
          DispatchKeeps(c, i, i.cmd);
        } else if i.publishType {
          DispatchKeeps(if i.aioOk then AllocPacket(c) else c, i, i.cmd);
        }
      case HttpServer => DispatchKeeps(c, i, Publish);
      case AwsBridge => DispatchKeeps(c, i, Publish);
      case NngBridge => DispatchKeeps(c, i, i.cmd);
      case Broker => DispatchKeeps(c, i, i.cmd);
    }
  }

  lemma StepKeeps(c: Ctx, i: Input)
    requires Inv(c) && Agrees(c.proto, i)
    ensures Inv(Step(c, i)) && Step(c, i).proto == c.proto
  {
    ReleaseAccounted(c);
    match c.state
    case RECV =>
      RecvKeeps(c, i);
      ProtoFixed(c, i);
    case END => HandlePubHolds(Release(c), i.checks, false);
    case _ =>
  }

  lemma {:induction false} RetainedFixed(c: Ctx, n: nat)
    ensures SendRetained(c, n).proto == c.proto
  {
    if n > 0 {
      RetainedFixed(c, n - 1);
    }
  }

  lemma DispatchFixed(c: Ctx, i: Input, cmd: Cmd)
    ensures Dispatch(c, i, cmd).proto == c.proto
  {
    var d := c.(flag := cmd, publishMsg := i.publishType);
    match cmd
    case Subscribe => RetainedFixed(if i.subscribed then d else d.(codeOk := false), i.retained);
    case Publish => HandlePubFixed(d, i.checks, false);
    case Connack => HandlePubFixed(d, i.checks, true);
    case DisconnectEv => HandlePubFixed(d, i.checks, true);
    case _ =>
  }

  lemma HandlePubFixed(c: Ctx, k: Checks, isEvent: bool)
    ensures HandlePub(c, k, isEvent).0.proto == c.proto
  {
  }

  lemma ProtoFixed(c: Ctx, i: Input)
    ensures OnRecv(c, i).proto == c.proto
  {
    DispatchFixed(c, i, i.cmd);
    DispatchFixed(c, i, Publish);
    DispatchFixed(AllocPacket(c), i, i.cmd);
  }

  /** Over every run, each PUBLISH packet is freed exactly once, and whenever the
      context waits for a message it holds neither a packet nor a receiver list. */
  lemma {:induction false} RunKeeps(proto: Proto, inputs: seq<Input>)
    requires AllAgree(proto, inputs)
    ensures var c := Run(Fresh(proto), inputs); Inv(c) && c.proto == proto
    decreases |inputs|
  {
    if inputs != [] {
      RunKeeps(proto, inputs[..|inputs| - 1]);
      StepKeeps(Run(Fresh(proto), inputs[..|inputs| - 1]), inputs[|inputs| - 1]);
    }
  }

  /** In RECV the packets freed are all the packets there ever were. */
  lemma AllFreedInRecv(proto: Proto, inputs: seq<Input>)
    requires AllAgree(proto, inputs) && Run(Fresh(proto), inputs).state == RECV
    ensures var c := Run(Fresh(proto), inputs);
      c.packet.None? && !c.infos && c.freed == UpTo(c.packets) && c.lists == c.listsFreed
  {
    RunKeeps(proto, inputs);
  }

  /** Without the agreement the packet of a message in WAIT is freed on the way back
      to RECV exactly when the message has type PUBLISH. */
  lemma WaitFreesIff(c: Ctx, i: Input)
    requires c.state == WAIT && c.packet.Some? && !i.hooks
    ensures OnWait(c, i).state == RECV
    ensures OnWait(c, i).packet.None? <==> c.publishMsg
  {
  }

  /** A message that carries the command of a publish but another packet type: its
      packet is still held in RECV, and the next publish overwrites it. */
  lemma DisagreeingRun(i: Input, j: Input)
    requires i.aioOk && i.cmd == Publish && !i.publishType && Accepted(Fresh(Broker), i.checks, false)
    requires j.aioOk && j.cmd == Publish
    ensures var c := Run(Fresh(Broker), [i, i, i]);
      && c.state == RECV && c.packet == Some(0) && c.freed == []
      && var d := Run(Fresh(Broker), [i, i, i, j]);
         d.packets == 2 && 0 !in d.freed && d.packet != Some(0)
  {
    var r := Fresh(Broker).(state := RECV);
    RunOfFour(Fresh(Broker), i, j);
    MislabelledPublish(r, i);
    UnfreedPublish(Step(Step(r, i), i), j);
  }

  lemma RunOfFour(c: Ctx, i: Input, j: Input)
    ensures Run(c, [i, i, i]) == Step(Step(Step(c, i), i), i)
    ensures Run(c, [i, i, i, j]) == Step(Step(Step(Step(c, i), i), i), j)
  {
    RunSnoc(c, [], i);
    RunSnoc(c, [i], i);
    RunSnoc(c, [i, i], i);
    RunSnoc(c, [i, i, i], j);
    assert [] + [i] == [i] && [i] + [i] == [i, i] && [i, i] + [i] == [i, i, i] && [i, i, i] + [j] == [i, i, i, j];
  }

  lemma MislabelledPublish(c: Ctx, i: Input)
    requires c.proto == Broker && c.state == RECV && i.aioOk && i.cmd == Publish && !i.publishType
    requires Accepted(c, i.checks, false)
    ensures var w := Step(c, i);
      && w.state == WAIT && w.packet == Some(c.packets) && w.packets == c.packets + 1 && w.freed == c.freed
      && Step(w, i) == w.(state := RECV)
  {
  }

  lemma UnfreedPublish(c: Ctx, j: Input)
    requires c.proto == Broker && c.state == RECV && j.aioOk && j.cmd == Publish
    requires c.packet.Some? && c.packet.value < c.packets
    ensures var d := Step(c, j);
      && d.packets == c.packets + 1 && d.packet != c.packet
      && (d.freed == c.freed || d.freed == c.freed + [c.packets])
  {
    var b := c.(flag := Publish, publishMsg := j.publishType);
    assert Step(c, j) == OnPublish(b, j);
    HandlePubReplaces(b, j.checks);
  }

  lemma HandlePubReplaces(c: Ctx, k: Checks)
    requires c.proto == Broker
    ensures var d := HandlePub(c, k, false).0;
      d.proto == Broker && d.packet == Some(c.packets) && d.packets == c.packets + 1 && d.freed == c.freed
  {
  }

  lemma RunSnoc(c: Ctx, inputs: seq<Input>, i: Input)
    ensures Run(c, inputs + [i]) == Step(Run(c, inputs), i)
  {
    assert (inputs + [i])[..|inputs|] == inputs;
  }

  /** A broker context closes the connection on a SUBSCRIBE exactly when that very
      SUBSCRIBE fails, whatever failed before; otherwise every retained message gets a
      packet, which is freed. */
  lemma SubscribeClosesIff(inputs: seq<Input>, i: Input)
    requires AllAgree(Broker, inputs) && Run(Fresh(Broker), inputs).state == RECV
    requires i.cmd == Subscribe && i.aioOk
    ensures var c := Run(Fresh(Broker), inputs); var r := Step(c, i);
      && r.state == (if i.subscribed then SEND else CLOSE)
      && r.packets == c.packets + (if i.subscribed then i.retained else 0) && r.freed == UpTo(r.packets)
  {
    RunKeeps(Broker, inputs);
    var c := Run(Fresh(Broker), inputs);
    RetainedAccounted(c.(flag := Subscribe, publishMsg := i.publishType), i.retained);
  }

  // What a message leads to, after any run

  /** All that handle_pub asks about a publish of a client. */
  predicate AllPass(k: Checks) {
    k.decodeOk && k.isPublishPacket && k.authOk && k.aliasOk && k.topicOk && k.aclOk
  }

  predicate HasReceivers(k: Checks) {
    k.clients || k.sharedClients
  }

  /** A publish is let through exactly when every check passes; its receivers are then
      listed if there are any. Otherwise the connection is closed, the packet freed and
      no list made. */
  lemma PublishGoesOnIff(inputs: seq<Input>, i: Input)
    requires AllAgree(Broker, inputs) && Run(Fresh(Broker), inputs).state == RECV
    requires i.cmd == Publish && i.aioOk
    ensures var c := Run(Fresh(Broker), inputs); var r := Step(c, i);
      && r.state == (if AllPass(i.checks) then WAIT else CLOSE)
      && r.packets == c.packets + 1
      && (AllPass(i.checks) ==>
          && r.packet == Some(c.packets) && r.freed == c.freed
          && r.infos == HasReceivers(i.checks) && r.lists == c.lists + (if r.infos then 1 else 0))
      && (!AllPass(i.checks) ==>
          r.packet.None? && r.freed == c.freed + [c.packets] && !r.infos && r.lists == c.lists)
  {
    RunKeeps(Broker, inputs);
    var c := Run(Fresh(Broker), inputs);
    var b := c.(flag := Publish, publishMsg := i.publishType);
    assert Step(c, i) == OnPublish(b, i);
    HandlePubOutcome(b, i.checks, false);
  }

  /** What handle_pub makes of its checks. On a bridge the packet of a publish has been
      decoded before; an event is not subject to access control. */
  lemma HandlePubOutcome(c: Ctx, k: Checks, isEvent: bool)
    requires !c.infos
    ensures var (d, ok) := HandlePub(c, k, isEvent);
      && ok == AllPass(k.(decodeOk := k.decodeOk || (c.proto == MqttBridge && !isEvent), aclOk := k.aclOk || isEvent))
      && d.infos == (ok && HasReceivers(k)) && d.lists == c.lists + (if d.infos then 1 else 0)
      && d.freed == c.freed && d.listsFreed == c.listsFreed && d.proto == c.proto
      && (if c.proto == MqttBridge && !isEvent then d.packet == c.packet && d.packets == c.packets
          else d.packet == Some(c.packets) && d.packets == c.packets + 1)
  {
  }

  /** On the other kinds of context a publish that is refused goes to SEND, which frees
      its packet; none is closed. */
  lemma OtherPublishGoesOnIff(proto: Proto, inputs: seq<Input>, i: Input)
    requires proto != Broker && AllAgree(proto, inputs) && Run(Fresh(proto), inputs).state == RECV
    requires i.cmd == Publish && i.aioOk && i.decodable && i.publishType && !i.connackType
    ensures var c := Run(Fresh(proto), inputs); var r := Step(c, i);
      var passes := AllPass(i.checks.(decodeOk := i.checks.decodeOk || proto == MqttBridge));
      && r.state == (if passes then WAIT else SEND)
      && r.packet == Some(c.packets) && r.packets == c.packets + 1 && r.freed == c.freed
      && r.infos == (passes && HasReceivers(i.checks)) && r.lists == c.lists + (if r.infos then 1 else 0)
  {
    RunKeeps(proto, inputs);
    var b := RecvPublish(Run(Fresh(proto), inputs), i);
    HandlePubOutcome(b, i.checks, false);
  }

  lemma RecvPublish(c: Ctx, i: Input) returns (b: Ctx)
    requires c.proto != Broker && c.state == RECV
    requires i.cmd == Publish && i.aioOk && i.decodable && i.publishType && !i.connackType
    ensures Step(c, i) == OnPublish(b, i)
    ensures b == (if c.proto == MqttBridge then AllocPacket(c) else c).(flag := Publish, publishMsg := true)
  {
    b := (if c.proto == MqttBridge then AllocPacket(c) else c).(flag := Publish, publishMsg := true);
  }

  /** The event of a connection or of its end is published without access control, and
      goes on whatever the checks say; a will message comes after the latter. */
  lemma EventGoesOn(proto: Proto, inputs: seq<Input>, i: Input)
    requires AllAgree(proto, inputs) && Run(Fresh(proto), inputs).state == RECV
    requires proto == Broker || proto == NngBridge
    requires (i.cmd == Connack || i.cmd == DisconnectEv) && i.aioOk && i.decodable
    ensures var c := Run(Fresh(proto), inputs); var r := Step(c, i);
      var passes := AllPass(i.checks.(aclOk := true));
      && r.state == (if i.cmd == DisconnectEv && i.will then END else WAIT)
      && r.packet == Some(c.packets) && r.freed == c.freed
      && r.infos == (passes && HasReceivers(i.checks)) && r.lists == c.lists + (if r.infos then 1 else 0)
  {
    RunKeeps(proto, inputs);
    var c := Run(Fresh(proto), inputs);
    var b := c.(flag := i.cmd, publishMsg := i.publishType);
    HandlePubOutcome(b, i.checks, true);
  }

  /** The context has a message to work on. */
  predicate Acts(proto: Proto, i: Input) {
    && (i.aioOk || (proto != Broker && i.shut && i.hasMsg))
    && (match proto
        case Broker => true
        case MqttBridge => i.connackType || i.publishType
        case _ => i.decodable)
  }

  /** After any run a context leaves RECV exactly when it has a message to work on, and
      is unchanged otherwise. */
  lemma LeavesRecvIff(proto: Proto, inputs: seq<Input>, i: Input)
    requires AllAgree(proto, inputs) && Run(Fresh(proto), inputs).state == RECV
    ensures var c := Run(Fresh(proto), inputs);
      (Step(c, i).state != RECV <==> Acts(proto, i)) && (!Acts(proto, i) ==> Step(c, i) == c)
  {
    RunKeeps(proto, inputs);
    var c := Run(Fresh(proto), inputs);
    DispatchLeavesRecv(c, i, i.cmd);
    DispatchLeavesRecv(c, i, Publish);
    DispatchLeavesRecv(AllocPacket(c), i, i.cmd);
  }

  lemma DispatchLeavesRecv(c: Ctx, i: Input, cmd: Cmd)
    ensures Dispatch(c, i, cmd).state != RECV
  {
  }

  /** After any run, an UNSUBSCRIBE is answered and any other command waits, without a
      packet; and what is sent or closed leads back to RECV. */
  lemma OtherCommands(inputs: seq<Input>, i: Input)
    requires AllAgree(Broker, inputs)
    ensures var c := Run(Fresh(Broker), inputs); var r := Step(c, i);
      && (c.state == RECV && i.aioOk && i.cmd == Unsubscribe ==> r.state == SEND && r.packets == c.packets)
      && (c.state == RECV && i.aioOk && i.cmd == Other ==> r.state == WAIT && r.packets == c.packets)
      && (c.state == INIT || c.state == SEND || c.state == CLOSE ==>
          r.state == RECV && r.packet.None? && r.freed == UpTo(c.packets))
  {
    RunKeeps(Broker, inputs);
    ReleaseAccounted(Run(Fresh(Broker), inputs));
  }

  /** After any run, WAIT keeps the packet for the hooks or frees it. */
  lemma WaitGoesOn(proto: Proto, inputs: seq<Input>, i: Input)
    requires AllAgree(proto, inputs) && Run(Fresh(proto), inputs).state == WAIT
    ensures var c := Run(Fresh(proto), inputs); var r := Step(c, i);
      if c.packet.Some? && i.hooks then r == c.(state := SEND)
      else r.state == RECV && r.packet.None? && !r.infos && r.freed == UpTo(r.packets) && r.packets == c.packets
  {
    RunKeeps(proto, inputs);
    ReleaseAccounted(Run(Fresh(proto), inputs));
  }

  /** After any run, END frees the packet of the event and publishes the will message,
      with access control, exactly when there is one that can be encoded. */
  lemma WillIsPublishedIff(proto: Proto, inputs: seq<Input>, i: Input)
    requires AllAgree(proto, inputs) && Run(Fresh(proto), inputs).state == END
    ensures var c := Run(Fresh(proto), inputs); var r := Step(c, i);
      && r.freed == UpTo(c.packets)
      && (if i.will && i.willEncoded then
            && r.state == WAIT && r.packet == Some(c.packets)
            && r.infos == (AllPass(i.checks) && HasReceivers(i.checks))
          else r.state == RECV && r.packet.None? && !r.infos)
  {
    RunKeeps(proto, inputs);
    var c := Run(Fresh(proto), inputs);
    ReleaseAccounted(c);
    HandlePubOutcome(Release(c), i.checks, false);
  }

  // The context as server_cb updates it

  class Work {
    const proto: Proto
    var state: State
    var flag: Cmd
    var codeOk: bool
    var publishMsg: bool
    var pubPacket: Option<nat>
    var msgInfos: bool
    ghost var packets: nat
    ghost var freed: seq<nat>
    ghost var lists: nat
    ghost var listsFreed: nat

    /** The context as a value; it starts fresh and every callback moves it by a step. */
    ghost function View(): Ctx
      reads this
    {
      Ctx(state, proto, flag, codeOk, publishMsg, pubPacket, packets, freed, msgInfos, lists, listsFreed)
    }

    constructor (proto: Proto)
      ensures View() == Fresh(proto)
    {
      this.proto := proto;
      state, flag, codeOk, publishMsg := INIT, Other, true, false;
      pubPacket, msgInfos := None, false;
      packets, freed, lists, listsFreed := 0, [], 0, 0;
    }

    method NewPacket(number: nat)
      requires number == packets
      modifies this`pubPacket, this`packets
      ensures View() == AllocPacket(old(View()))
    {
      pubPacket := Some(number);
      packets := packets + 1;
    }

    /** free_pub_packet, with the pointer set to NULL as every caller does. */
    method FreePubPacket()
      modifies this`pubPacket, this`freed
      ensures View() == FreePacket(old(View()))
    {
      if pubPacket.Some? {
        freed := freed + [pubPacket.value];
        pubPacket := None;
      }
    }

    method FreeMsgInfos()
      modifies this`listsFreed
      ensures View() == FreeList(old(View()))
    {
      if msgInfos {
        listsFreed := listsFreed + 1;
      }
    }

    method ReleaseBoth()
      modifies this
      ensures View() == Release(old(View()))
    {
      FreePubPacket();
      FreeMsgInfos();
      msgInfos := false;
    }

    method ForeachClient()
      modifies this`msgInfos, this`lists
      ensures View() == AddReceivers(old(View()))
    {
      if !msgInfos {
        lists := lists + 1;
      }
      msgInfos := true;
    }

    method DoHandlePub(k: Checks, isEvent: bool, number: nat) returns (ok: bool)
      requires number == packets
      modifies this
      ensures (View(), ok) == HandlePub(old(View()), k, isEvent)
    {
      msgInfos := false;
      if proto != MqttBridge || isEvent {
        NewPacket(number);
        if !k.decodeOk {
          return false;
        }
      }
      if !k.isPublishPacket {
        return false;
      }
      if !k.authOk {
        return false;
      }
      if !k.aliasOk {
        return false;
      }
      if !k.topicOk {
        return false;
      }
      if !isEvent {
        if !k.aclOk {
          return false;
        }
      }
      if k.clients {
        ForeachClient();
      }
      if k.sharedClients {
        ForeachClient();
      }
      ok := true;
    }

    method DoSubscribe(i: Input, number: nat)
      requires number == packets
      modifies this
      ensures View() == OnSubscribe(old(View()), i)
    {
      if !i.subscribed {
        codeOk := false;
      }
      if !codeOk {
        state := CLOSE;
        return;
      }
      ghost var before := View();
      var next := number;
      for n := 0 to i.retained
        invariant View() == SendRetained(before, n) && next == packets
      {
        NewPacket(next);
        next := next + 1;
        ReleaseBoth();
      }
      state := SEND;
    }

    method DoPublish(i: Input, number: nat)
      requires number == packets
      modifies this
      ensures View() == OnPublish(old(View()), i)
    {
      codeOk := DoHandlePub(i.checks, false, number);
      if proto == HttpServer || proto == AwsBridge {
        if codeOk {
          state := WAIT;
        } else {
          state := SEND;
        }
        return;
      }
      if !codeOk {
        if proto != Broker {
          state := SEND;
          return;
        }
        state := CLOSE;
        FreePubPacket();
        FreeMsgInfos();
        return;
      }
      state := WAIT;
    }

    method DoDispatch(i: Input, cmd: Cmd, number: nat)
      requires number == packets
      modifies this
      ensures View() == Dispatch(old(View()), i, cmd)
    {
      flag := cmd;
      publishMsg := i.publishType;
      match cmd {
        case Subscribe => DoSubscribe(i, number);
        case Unsubscribe => state := SEND;
        case Publish => DoPublish(i, number);
        case Connack =>
          var _ := DoHandlePub(i.checks, true, number);
          publishMsg := true;
          flag := Publish;
          state := WAIT;
        case DisconnectEv =>
          var _ := DoHandlePub(i.checks, true, number);
          publishMsg := true;
          flag := Publish;
          if proto != MqttBridge && i.will {
            state := END;
          } else {
            state := WAIT;
          }
        case Other => state := WAIT;
      }
    }

    method Recv(i: Input, number: nat)
      requires number == packets
      modifies this
      ensures View() == OnRecv(old(View()), i)
    {
      if !i.aioOk {
        if proto == Broker || !i.shut || !i.hasMsg {
          return;
        }
      }
      if proto == MqttBridge {
        if i.connackType {
          DoDispatch(i, i.cmd, number);
        } else if i.publishType {
          if i.aioOk {
            NewPacket(number);
            DoDispatch(i, i.cmd, number + 1);
          } else {
            DoDispatch(i, i.cmd, number);
          }
        }
      } else if proto == HttpServer || proto == AwsBridge {
        if i.decodable {
          DoDispatch(i, Publish, number);
        }
      } else if proto == NngBridge {
        if i.decodable {
          DoDispatch(i, i.cmd, number);
        }
      } else {
        DoDispatch(i, i.cmd, number);
      }
    }

    method Wait(i: Input)
      modifies this
      ensures View() == OnWait(old(View()), i)
    {
      if !publishMsg {
        state := RECV;
      } else if i.hooks {
        state := SEND;
      } else {
        ReleaseBoth();
        state := RECV;
      }
    }

    method End(i: Input, number: nat)
      requires number == packets
      modifies this
      ensures View() == OnEnd(old(View()), i)
    {
      if publishMsg {
        ReleaseBoth();
        if i.will && i.willEncoded {
          var _ := DoHandlePub(i.checks, false, number);
          flag := Publish;
          state := WAIT;
        } else {
          state := RECV;
        }
      }
    }

    /** server_cb. `number` names the next packet to be allocated. */
    method ServerCb(i: Input, number: nat)
      requires number == packets
      modifies this
      ensures View() == Step(old(View()), i)
    {
      match state {
        case INIT =>
          state := RECV;
        case RECV =>
          Recv(i, number);
        case WAIT =>
          Wait(i);
        case SEND =>
          ReleaseBoth();
          state := RECV;
          flag := Other;
        case END =>
          End(i, number);
        case CLOSE =>
          codeOk := true;
          state := RECV;
      }
    }
  }
}
