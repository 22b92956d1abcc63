# NanoMQ in Dafny

NanoMQ is an MQTT broker. This project models the parts of it where state, arithmetic and
ownership meet, and proves what they keep over every input and every run:

- the hash table that grows by rehashing into itself (`ProbeTable`, `Growth`, `GrowthLoss`, `HashMap`);
- the two text encodings of webhook payloads (`Digits`, `Base62`, `Base64Alnum`);
- the retry cache of a bridge and the queue of a webhook worker, as state machines over all
  interleavings of their callbacks (`BridgeCache`, `WebhookWorker`);
- the life of a broker context and of the packets and receiver lists it owns (`BrokerContext`);
- the two indexes of subscriptions, the table of retained messages and the table of topic
  aliases, over all histories (`Sessions`, `Retained`, `TopicAlias`);
- the PUBLISH and SUBSCRIBE codecs down to the variable byte integer (`VarInt`, `Wire`,
  `PublishCodec`, `SubscribeCodec`);
- access control and its topic placeholders (`Acl`, `Placeholder`, `Substitution`);
- the SQL text composed for a rule and the parsing of request URIs (`SqlClause`, `Uri`,
  `UriText`).

`Arith` holds the arithmetic used, `Wrappers` the types for absent values and errors.
`dafny verify dfyconfig.toml` checks the whole project.

Code that changes state is a class or a method with loops. A state machine has a step function
on values, theorems about every run of that function, and a class whose methods are proved to
take exactly these steps. Callers' inputs that come from the network, from an allocator, from a
clock or from a library are parameters.

The account of packets over every run of a broker context (`BrokerContext.RunKeeps`) takes the
command of a message to fit its packet type; `BrokerContext.DisagreeingRun` shows why.

Where the code departs from what it promises, the model follows the code, a lemma gives an
input, and another lemma says exactly when the promise is met:

- a put whose growth stops half way loses entries (`GrowthLoss.EightOfNineLost`): exactly when
  the last table asked for was granted (`GrowthLoss.PutLosesIff`), which with memory for one
  doubling means that the entries do not fit in slot order (`GrowthLoss.OneDoublingLosesIff`);
- the text of a payload above 31,814,572 bytes overruns its base62 buffer
  (`Base62.ReceivableFitsIff`);
- the base64 variant is not injective (`Base64Alnum.Collision`, `Base64Alnum.RecoversIff`);
- a webhook event can overtake an earlier one (`WebhookWorker.OvertakingRun`,
  `WebhookWorker.AlwaysInOrderIff`) and leaks without a client (`WebhookWorker.LeakingRun`,
  `WebhookWorker.RunLeaksIff`);
- a preset session that repeats a topic breaks the agreement of the two indexes
  (`Sessions.RepeatedPreset`, `Sessions.AlwaysInverseIff`);
- a retained message can be lost behind an older one (`Retained.LostRetained`,
  `Retained.LastFlaggedIff`);
- a publish that access control refuses takes an alias over
  (`TopicAlias.DeniedPublishBinds`, `TopicAlias.AcceptedBindingIff`);
- an empty topic is not read back (`PublishCodec.EmptyTopicLost`, `PublishCodec.RoundTripIff`),
  and an empty SUBSCRIBE is acknowledged (`SubscribeCodec.EmptyListIsAcked`,
  `SubscribeCodec.RoundTripIff`);
- access control is not first-match once a conjunction has failed (`Acl.SkippedConjunction`,
  `Acl.AgreesIff`);
- a placeholder can be substituted twice (`Substitution.SubstitutedTwice`,
  `Substitution.SubstitutedOnceIff`);
- values are escaped with backslashes, which SQLite does not undo
  (`SqlClause.QuoteEndsLiteral`, `SqlClause.SqliteReadsBackIff`).

## Model

| member | source | states |
|---|---|---|
| HashMap.HashMap.Create | nanomq/hashmap.c:134-151 | Succeeds exactly for a power of two for which there is memory, and then gives an empty map of that size. |
| HashMap.HashMap.HashHelper | nanomq/hashmap.c:369-415 | A slot is found exactly when the table is not full and the window of eight probes has a free slot or one with the key: the slot of the key if it is stored anywhere, otherwise the first free one. |
| HashMap.HashMap.ProbeForKey | nanomq/hashmap.c:380-397 | The first probe finds the key if the window holds it, and its count tells whether a slot is free. |
| HashMap.HashMap.ProbeForFree | nanomq/hashmap.c:399-412 | The second probe finds the first free slot of the window. |
| Growth.FindSlotMeans | nanomq/hashmap.c:369-415 | A slot is given if and only if there is room; it lies in the window and holds the key, or is free while the key is stored nowhere. |
| HashMap.HashMap.Put | nanomq/hashmap.c:153-177 | Table and result are those of the growth model for every allocator; success is the map update at the key and needs no growth when there is room; a failure changes no value and adds no key. |
| HashMap.HashMap.Store | nanomq/hashmap.c:164-174 | The slot is set and the counter stays the number of slots in use. |
| Growth.PutKeeps | nanomq/hashmap.c:153-177 | Through any nesting of growths, a put that succeeds is the map update, one that fails gives a part of the map, and uniqueness and placement are kept. |
| Growth.GrowKeeps | nanomq/hashmap.c:430-455 | A growth that succeeds keeps the map, one that fails a part of it. |
| Growth.MoveKeeps | nanomq/hashmap.c:230-257 | While entries move one by one, those moved and those left are disjoint and together are the original map, so a move that ends has moved all. |
| GrowthLoss.GrowLosesIff | nanomq/hashmap.c:430-455 | A growth that fails loses entries if and only if the doubled table was granted. |
| GrowthLoss.PutLosesIff | nanomq/hashmap.c:153-177 | For every allocator, a put that fails loses entries if and only if the last table it asked for was granted. |
| GrowthLoss.OneDoublingLosesIff | nanomq/hashmap.c:153-177 | With memory for at most one doubling, a put loses entries if and only if the key has no room, the doubled table is granted and the entries do not fit into it in slot order. |
| GrowthLoss.FittingPutSucceeds | nanomq/hashmap.c:153-177 | When the entries fit in slot order and the key then has room, the put succeeds whatever the allocator answers later. |
| GrowthLoss.NeverFits | nanomq/hashmap.c:430-455 | Eight keys of one window keep a ninth out however large the table becomes. |
| GrowthLoss.LosingTableIsReached | nanomq/hashmap.c:153-177 | Nine puts into a new table of 16 slots reach the table of the next row. |
| GrowthLoss.EightOfNineLost | nanomq/hashmap.c:153-177 | There, under every allocator that grants 32 slots, one more put fails and eight of the nine entries are gone. |
| HashMap.HashMap.RehashHelper | nanomq/hashmap.c:430-455 | Growth at least doubles the table and keeps the map; a failed growth blanks exactly the slots below the one that could not be moved. |
| HashMap.HashMap.IteratePairs | nanomq/hashmap.c:230-257 | Entries move one by one in slot order into the new table, until one cannot be put; the slots visited are blank and the others as they were. |
| HashMap.HashMap.Blank | nanomq/hashmap.c:214-218 | Clearing one slot removes exactly its key and keeps count and placement. |
| HashMap.HashMap.Get | nanomq/hashmap.c:179-200 | Looks a key up in the map: its value, or absent. |
| HashMap.HashMap.Remove | nanomq/hashmap.c:202-228 | Removes exactly the key and reports whether it was there. |
| HashMap.HashMap.NumEntries | nanomq/hashmap.c:264-266 | The size counter is the number of entries of the map and at most the table size. |
| HashMap.HashMap.Replay | nanomq/hashmap.c:153-228 | Every history of put, get and remove under any allocator, up to the first failing put, returns what a plain finite map returns and ends in the same map. |
| ProbeTable.EntriesAreSlots | nanomq/hashmap.c:153-177 | With unique keys the map stored is exactly what the slots in use say, and it has as many entries as slots in use. |
| ProbeTable.StoreSlot | nanomq/hashmap.c:164-176 | Storing into a free slot of the window for an absent key, or over the key itself, is a map update and keeps uniqueness and placement. |
| ProbeTable.EraseSlot | nanomq/hashmap.c:211-225 | Blanking a slot removes exactly its key and keeps uniqueness and placement of all others. |
| ProbeTable.WindowDecides | nanomq/hashmap.c:186-196 | A key is stored if and only if one of the eight slots of its window holds it, although removal leaves no tombstones. |
| ProbeTable.FullIffAllInUse | nanomq/hashmap.c:375-378 | The counter equals the table size exactly when no slot is free. |
| Arith.MaskTest | nanomq/hashmap.c:141-143 | The mask test accepts exactly the powers of two. |
| Arith.DoubleWraps | nanomq/hashmap.c:431-440 | Doubling the table size in 32 bits doubles it or gives 0, which is then refused. |
| Base62.DivideBy62 | nanomq/webhook_post.c:124-131 | One in-place pass divides the big integer by 62: quotient times 62 plus remainder is the old value. |
| Base62.SkipZeros | nanomq/webhook_post.c:136-139 | Skips exactly the leading zero bytes and keeps the value. |
| Base62.EmitDigits | nanomq/webhook_post.c:119-140 | Repeated division emits the canonical base 62 numeral of the value, least significant digit first. |
| Base62.PadZeros | nanomq/webhook_post.c:142-146 | Appends one zero digit for each leading zero byte. |
| Base62.ReversePrefix | nanomq/webhook_post.c:148-153 | Exchanging end for end reverses the digits and leaves the rest of the buffer. |
| Base62.Finish | nanomq/webhook_post.c:142-158 | The text is the zero digits, then the numeral from its most significant digit, then the terminator. |
| Base62.Encode | nanomq/webhook_post.c:91-159 | Writes the reference text and terminator, or nothing and 0 for empty input, missing output or no memory. |
| Base62.EncodedValue | nanomq/webhook_post.c:91-159 | The text read in base 62 has the value of the input read in base 256 and keeps the number of leading zeros. |
| Base62.DecodedEncoded | nanomq/webhook_post.c:91-159 | A decoder recovers every input, leading zero bytes included, so the encoding is injective. |
| Base62.ProportionalLength | nanomq/webhook_post.c:28-30 | If p digits of one base fit q digits of another, then any lengths compare in that proportion. |
| Base62.TwentyBytesInTwentySevenDigits | nanomq/webhook_post.c:28-30 | Twenty bytes fit in 27 base 62 digits, the fact behind the factor 1.35. |
| Base62.NumeralLength | nanomq/webhook_post.c:28-30 | m bytes without a leading zero take at least m and fewer than 1.35m + 1 digits. |
| Base62.EncodedLength | nanomq/webhook_post.c:28-30 | The text is at least as long as the input and at most 1.35 times as long plus one. |
| Base62.FitsIffNoWrap | nanomq/webhook_post.c:28-30 | Text and terminator fit the buffer of the size macro exactly when its 32-bit product does not wrap around. |
| Base62.ReceivableFitsIff | nanomq/webhook_post.c:28-30 | Of the payloads that an MQTT packet can carry, exactly those of at most 31,814,572 bytes fit. |
| Digits.ToDigitsValue | nanomq/webhook_post.c:122-140 | The canonical numeral of a number has that value and no leading zero. |
| Digits.ToDigitsOfValue | nanomq/webhook_post.c:122-140 | Every numeral without leading zeros is the canonical one of its value. |
| Base64Alnum.SetChar | nanomq/webhook_post.c:63-88 | Writes a letter of the table with '+' and '/' folded onto 'A' and 'B', and advances by one. |
| Base64Alnum.GiveGroup | nanomq/webhook_post.c:173-177 | Shifting the accumulator gives the next six bits, and masking leaves the bits still held. |
| Base64Alnum.GiveLast | nanomq/webhook_post.c:179-182 | The rest is filled up with zero bits on the right. |
| Base64Alnum.GivenIsGroups | nanomq/webhook_post.c:170-182 | What the accumulator gives out are the six-bit groups of the concatenated bits. |
| Base64Alnum.GiveGroups | nanomq/webhook_post.c:173-177 | The inner loop gives out groups until fewer than six bits are held. |
| Base64Alnum.Encode | nanomq/webhook_post.c:161-184 | Writes the letters of the six-bit groups of the input's bits and nothing behind them; the accumulator never holds more bits than it counts. |
| Base64Alnum.EncodedShape | nanomq/webhook_post.c:161-184 | The text is alphanumeric and has ceil(4n/3) characters. |
| Base64Alnum.FitsIffNoWrap | nanomq/webhook_post.c:26 | The text fits the buffer of the size macro exactly when its 32-bit product does not wrap around. |
| Base64Alnum.ReceivableFits | nanomq/webhook_post.c:26 | Every payload that an MQTT packet can carry fits. |
| Base64Alnum.BitsOfGroups | nanomq/webhook_post.c:161-184 | When no group is 62 or 63 a decoder reads the bits that went in. |
| Base64Alnum.LostBit | nanomq/webhook_post.c:63-88 | A group of 62 or 63 turns its leading bit from 1 into 0. |
| Base64Alnum.RecoversIff | nanomq/webhook_post.c:63-184 | A decoder recovers the payload if and only if no six-bit group of it is 62 or 63. |
| Base64Alnum.Collision | nanomq/webhook_post.c:63-184 | Pairs of payloads with the same text. |
| BridgeCache.StepKeeps | nanomq/bridge.c:1431-1477 | Every publish, completion or connection change keeps the cache bounded, in order and conserved, and the busy flag in step with the resend aio. |
| BridgeCache.RunKeeps | nanomq/bridge.c:1431-1477 | In every run each forwarded message is sent directly, dropped, cached, resent or evicted, once; the cache is what remains, in order, of what was put into it. |
| BridgeCache.RunAccounts | nanomq/bridge.c:1431-1477 | In every run resends are made one at a time and in order, and each message sent directly is on its aio or has completed, as often as it was sent. |
| BridgeCache.SendsDirectIff | nanomq/bridge.c:1888-1921 | A message is sent directly if and only if it is offered to an idle aio of a connected node. |
| BridgeCache.CompletesIff | nanomq/bridge.c:1431-1453 | A direct send completes if and only if its aio does, which is then idle. |
| BridgeCache.DisconnectedRun | nanomq/bridge.c:1888-1921 | In every run without a connection nothing is sent or resent: exactly the messages above QoS 0 are cached and those of QoS 0 dropped, in order. |
| BridgeCache.ConnectedIs | nanomq/bridge.c:1118-1182 | After every run the node is connected exactly if the last connection change said so. |
| BridgeCache.EvictsOnlyOldestOfFull | nanomq/bridge.c:1888-1912 | A cached message is given up only as the oldest of a full cache and only for a newer message above QoS 0 that cannot be sent. |
| BridgeCache.NothingEvicted | nanomq/bridge.c:1888-1912 | In every run that offers no more messages above QoS 0 than the cache holds, none is evicted, however callbacks and disconnections interleave. |
| BridgeCache.CallbackResumesResending | nanomq/bridge.c:1431-1477 | After any run that ends with a completion the cache is empty or a resend is under way. |
| BridgeCache.ResendsInOrder | nanomq/bridge.c:1455-1477 | Successive resend completions resend the cached messages in the order they were cached. |
| BridgeCache.ResendsDrainCache | nanomq/bridge.c:1455-1477 | As many completions as cached messages resend exactly these, and one more leaves the node idle. |
| BridgeCache.OnlyFirstIsSentDirectly | nanomq/bridge.c:1822-1921 | Of all messages forwarded for one publish only the first goes out at once; those behind it with QoS 0 are dropped and those above are cached, in order. |
| BridgeCache.BridgeNode.LmqGet | nanomq/bridge.c:1444-1451 | Takes the oldest cached message, if any. |
| BridgeCache.BridgeNode.LmqPut | nanomq/bridge.c:1905-1911 | Appends unless the cache is full. |
| BridgeCache.BridgeNode.CacheMsg | nanomq/bridge.c:1897-1912 | Caching gives up the oldest message exactly when the cache is full, and then always succeeds. |
| BridgeCache.BridgeNode.Place | nanomq/bridge.c:1888-1921 | Cache and aio are as the send, cache or drop decision leaves them. |
| BridgeCache.BridgeNode.OfferMsg | nanomq/bridge.c:1888-1921 | One forwarded message is one step of the state machine. |
| BridgeCache.BridgeNode.PubHandler | nanomq/bridge.c:1803-1929 | A publish is offered once for each matching forwards entry, in order; a disabled node and a topic under $SYS get none. |
| BridgeCache.BridgeNode.Compose | nanomq/bridge.c:1837-1880 | Rewriting, prefix, suffix and the QoS and retain overrides, in that order. |
| BridgeCache.ForwardedFields | nanomq/bridge.c:1837-1880 | Which part of a forwarded message comes from the publish, from the rewritten topic, from the affixes and from the overrides. |
| BridgeCache.ForwardedAppend | nanomq/bridge.c:1822-1836 | The forwards list is followed entry by entry. |
| BridgeCache.ForwardedOne | nanomq/bridge.c:1822-1836 | An entry forwards once if its filter matches, and not at all otherwise. |
| BridgeCache.SystemTopicIff | nanomq/bridge.c:1811-1815 | Exactly the topics that continue $SYS are never forwarded. |
| BridgeCache.BridgeNode.SendCb | nanomq/bridge.c:1431-1453 | The completion of a context's aio is one step of the state machine. |
| BridgeCache.BridgeNode.ResendCb | nanomq/bridge.c:1455-1477 | The completion of the resend aio is one step of the state machine. |
| BridgeCache.BridgeNode.SetConnected | nanomq/bridge.c:1118-1182 | A connection change sets the flag and nothing else. |
| WebhookWorker.StepKeeps | nanomq/webhook_inproc.c:56-275 | Every step keeps what the worker may hold in each phase and conserves the events. |
| WebhookWorker.RunKeeps | nanomq/webhook_inproc.c:56-275 | In every run the callback never meets an absent message or a response command. |
| WebhookWorker.ExactlyOnePlace | nanomq/webhook_inproc.c:56-275 | An event accepted once is queued, in flight, freed or leaked: in exactly one place, once. |
| WebhookWorker.PostsIff | nanomq/webhook_inproc.c:195-232 | A request is written if and only if a connection was made and its request could be had; the event then stays in flight with both. |
| WebhookWorker.FreesIff | nanomq/webhook_inproc.c:56-275 | A step frees an event if and only if it fails it or completes its written request; no put is refused. |
| WebhookWorker.FreedIsPostedOrFailed | nanomq/webhook_inproc.c:56-275 | In every run an event freed had its request written, or an operation, connection, request or client failed for it. |
| WebhookWorker.SuccessPostsAll | nanomq/webhook_inproc.c:56-275 | In a run in which everything succeeds the events taken up are posted once each, in that order, and freed behind it. |
| WebhookWorker.SuccessesEmptyQueue | nanomq/webhook_inproc.c:104-275 | As many successes as there are events held post and free exactly these, in order, and empty the queue. |
| WebhookWorker.CapacityBound | nanomq/webhook_inproc.c:74-81 | In every run the capacity is the initial one or at most half as large again as the number of events received. |
| WebhookWorker.LeaksIff | nanomq/webhook_inproc.c:86-101 | An event leaks exactly when it reaches an idle worker that gets no client. |
| WebhookWorker.RunLeaksIff | nanomq/webhook_inproc.c:56-101 | A run leaks an event if and only if some event reaches an idle worker that gets no client. |
| WebhookWorker.LeakingRun | nanomq/webhook_inproc.c:86-101 | A run that leaks its first event. |
| WebhookWorker.CapacityNeverShrinks | nanomq/webhook_inproc.c:264-274 | In every run the capacity never decreases, because the attempt to shrink sees only empty queues. |
| WebhookWorker.OrderKeptIff | nanomq/webhook_inproc.c:56-101 | A step keeps the order of arrival exactly when it is not a reception sent at once by an idle worker with a non-empty queue. |
| WebhookWorker.AlwaysInOrderIff | nanomq/webhook_inproc.c:56-275 | Throughout a run of distinct events they are taken up in order of arrival if and only if none is sent at once by an idle worker with a non-empty queue. |
| WebhookWorker.OvertakingRun | nanomq/webhook_inproc.c:56-275 | A run that reaches such a state, in which a later event is sent first. |
| WebhookWorker.FailuresTakeTurns | nanomq/webhook_inproc.c:104-275 | While every operation fails, each failure frees the event in flight and takes up the next one: the events freed are those held, in order. |
| WebhookWorker.FailuresEmptyQueue | nanomq/webhook_inproc.c:104-275 | One failure more than there are queued events frees exactly the events held, in order. |
| WebhookWorker.HookWork.SendMsg | nanomq/webhook_inproc.c:56-101 | A reception is one step of the state machine. |
| WebhookWorker.HookWork.HttpAioCb | nanomq/webhook_inproc.c:104-244 | The first section of the callback, with each of its failures, is one step of the state machine. |
| WebhookWorker.HookWork.DrainQueue | nanomq/webhook_inproc.c:245-275 | The drain section is one step of the state machine. |
| BrokerContext.HandlePubHolds | nanomq/pub_handler.c:1599-1756 | From a context that holds nothing, or a decoded packet on a bridge, the context then holds a packet, and a receiver list only on success. |
| BrokerContext.StepKeeps | nanomq/apps/broker.c:211-826 | Every callback keeps the account of packets and lists and what each state may hold. |
| BrokerContext.RunKeeps | nanomq/apps/broker.c:211-826 | In every run no PUBLISH packet is freed twice or lost, and a context that waits for a message holds neither a packet nor a list. |
| BrokerContext.AllFreedInRecv | nanomq/apps/broker.c:721-805 | In RECV the packets freed are all the packets ever allocated, each once. |
| BrokerContext.WaitFreesIff | nanomq/apps/broker.c:574-668 | From WAIT to RECV the packet is freed exactly when the message has type PUBLISH; the agreement of packet and type is thus what the run invariant must supply. |
| BrokerContext.DisagreeingRun | nanomq/apps/broker.c:476-668 | A run whose message has the command of a publish but another type holds its packet in RECV, and the next publish overwrites it unfreed. |
| BrokerContext.SubscribeClosesIff | nanomq/apps/broker.c:356-448 | After any run a broker context closes the connection on a SUBSCRIBE exactly when that SUBSCRIBE fails; otherwise each retained message gets a packet that is freed. |
| BrokerContext.PublishGoesOnIff | nanomq/apps/broker.c:476-515 | After any run a publish goes on if and only if it decodes, is a PUBLISH, is authenticated, has a usable alias and topic and is permitted; it lists receivers if there are any. Otherwise the connection is closed, the packet freed and no list made. |
| BrokerContext.HandlePubOutcome | nanomq/pub_handler.c:1599-1756 | Which checks decide for a client, a bridge and an event, and when a receiver list is made. |
| BrokerContext.OtherPublishGoesOnIff | nanomq/apps/broker.c:483-505 | On the other kinds of context a publish goes on under the same checks, and a refused one goes to SEND with its packet. |
| BrokerContext.EventGoesOn | nanomq/apps/broker.c:516-573 | The event of a connection or of its end goes on without access control, and to the will message if there is one. |
| BrokerContext.LeavesRecvIff | nanomq/apps/broker.c:240-356 | After any run a context leaves RECV if and only if it has a message to work on, and is unchanged otherwise. |
| BrokerContext.OtherCommands | nanomq/apps/broker.c:449-475 | An UNSUBSCRIBE is answered and other commands wait without a packet; what is sent or closed leads back to RECV with every packet freed. |
| BrokerContext.WaitGoesOn | nanomq/apps/broker.c:574-668 | After any run WAIT keeps the packet for the hooks, or frees it on the way to RECV. |
| BrokerContext.WillIsPublishedIff | nanomq/apps/broker.c:721-805 | After any run END frees the packet and publishes the will message, under all checks, if and only if there is one that can be encoded. |
| BrokerContext.Work.DoHandlePub | nanomq/pub_handler.c:1599-1756 | Checks in the order of the code; the packet and list left are those of the model. |
| BrokerContext.Work.ForeachClient | nanomq/pub_handler.c:98-133 | A receiver list is made only when there is none. |
| BrokerContext.Work.DoSubscribe | nanomq/apps/broker.c:356-448 | The state after a SUBSCRIBE, with the packet of every retained message sent made and freed. |
| BrokerContext.Work.DoPublish | nanomq/apps/broker.c:476-515 | The state after a PUBLISH, with its clean-up on refusal. |
| BrokerContext.Work.DoDispatch | nanomq/apps/broker.c:356-573 | The branch for each command. |
| BrokerContext.Work.Recv | nanomq/apps/broker.c:240-573 | RECV is one step of the state machine, for each kind of context. |
| BrokerContext.Work.Wait | nanomq/apps/broker.c:574-668 | WAIT is one step of the state machine. |
| BrokerContext.Work.End | nanomq/apps/broker.c:721-805 | END is one step of the state machine. |
| BrokerContext.Work.ServerCb | nanomq/apps/broker.c:211-826 | Every callback is one step of the state machine. |
| Sessions.RunKeepsInverse | nanomq/sub_handler.c:374-473 | In every run with distinct preset topics, tree and per-client lists are exact inverses and no list repeats a topic. |
| Sessions.TreeHoldsSubscribed | nanomq/sub_handler.c:374-473 | After every run that never unsubscribes a topic listed twice, tree and list name a client under a topic if and only if the client subscribed to it, by packet or preset, and neither unsubscribed from it nor left since. |
| Sessions.DistinctIsHarmless | nanomq/apps/broker.c:1307-1314 | Runs with distinct preset topics are such runs. |
| Sessions.RunCovered | nanomq/sub_handler.c:374-473 | In every run, repeated presets included, each tree entry is in its client's list. |
| Sessions.DisconnectForgets | nanomq/sub_handler.c:449-473 | After a disconnect no tree entry names the client, whatever happened before. |
| Sessions.PresetKeepsIff | nanomq/apps/broker.c:1307-1314 | Loading a preset session keeps lists free of repetition exactly when its topics are distinct and not listed yet. |
| Sessions.UnsubscribeKeepsIff | nanomq/sub_handler.c:439-447 | An unsubscribe keeps tree and lists inverse if and only if the topic is listed at most once. |
| Sessions.AlwaysInverseIff | nanomq/sub_handler.c:374-473 | Tree and lists are inverse throughout a run if and only if it never unsubscribes a topic listed twice at that time. |
| Sessions.RepeatedPreset | nanomq/apps/broker.c:1307-1314 | With a repeated topic an unsubscribe leaves a stale list entry, and subscribing again does not reach the tree. |
| Sessions.SessionStore.SubscribeTopic | nanomq/sub_handler.c:374-380 | A new topic goes to tree and list, a known one to neither. |
| Sessions.SessionStore.SubCtxDel | nanomq/sub_handler.c:439-447 | An unsubscribe removes the topic from tree and list. |
| Sessions.SessionStore.UnsubCtxHandle | nanomq/unsub_handler.c:185-231 | Unsubscribes every topic of the packet that is not empty, in order. |
| Sessions.UnsubscribesRemove | nanomq/unsub_handler.c:185-231 | An UNSUBSCRIBE removes from the tree exactly the entries of its client under its topics, other than an empty one. |
| Sessions.SessionStore.DestroySubClient | nanomq/apps/broker.c:550-552 | A disconnect removes every listed topic from the tree, then the list. |
| Sessions.SessionStore.LoadPreset | nanomq/apps/broker.c:1307-1314 | Inserts every preset topic without looking for it first. |
| Retained.TableHoldsLast | nanomq/pub_handler.c:1776-1820 | After every history the table holds for a topic exactly the last retain-flagged publish to it whose copy could be decoded, and nothing if that one was empty or there was none. |
| Retained.LastFlaggedIff | nanomq/pub_handler.c:1776-1820 | The table holds what the last retain-flagged publish asked for if and only if its copy was not lost or the last one not lost is the same. |
| Retained.LostRetained | nanomq/pub_handler.c:1776-1820 | A history whose last retained message is lost behind an older one. |
| Retained.OnlyOldVersionsLose | nanomq/pub_handler.c:1776-1820 | A retained message is stored as published, unless the publisher is older than version 5 and the copy cannot be decoded. |
| Retained.RetainTable.HandlePubRetain | nanomq/pub_handler.c:1776-1820 | One publish updates the table as specified. |
| Retained.Vector.PushBack | nanomq/sub_handler.c:417 | Appending may move the vector; only the returned one may be used afterwards. |
| Retained.AppendAll | nanomq/sub_handler.c:410-418 | Appends the entries that are not NULL, in order, and leaves the source as it was. |
| Retained.FindRetain | nanomq/sub_handler.c:406-408 | The vector holds the retained messages matching the filter. |
| Retained.Merge | nanomq/sub_handler.c:409-426 | A vector found for a filter becomes the result or is appended to it and freed; the result is never appended to itself nor freed. |
| Retained.SubCtxHandle | nanomq/sub_handler.c:288-437 | The retained messages to send are the matches, in order, of the permitted filters with retain handling 0, or 1 and a topic neither listed before nor asked for earlier in the packet; no vector is used after being freed. |
| Retained.CollectedIs | nanomq/sub_handler.c:343-430 | What the loop collects filter by filter depends on the list before the packet and on the filters alone. |
| Retained.StoreAfterIs | nanomq/sub_handler.c:374-380 | The list after a packet is the list before and the new topics, in order; the tree gains exactly these and other clients keep their lists. |
| Retained.StoreAfterIsRun | nanomq/sub_handler.c:343-380 | The permitted filters of a packet are subscriptions one after the other, so the laws over runs hold of packets. |
| TopicAlias.TableHoldsLatest | nanomq/pub_handler.c:1651-1700 | After every history the table maps each connection and alias to the latest topic bound since the connection's last disconnect, within the alias maximum, and holds nothing else. |
| TopicAlias.AliasOnlyPublish | nanomq/pub_handler.c:1634-1728 | A publish with an alias alone is handled as one to that latest topic, and rejected exactly when there is none or access control refuses it. |
| TopicAlias.TopicPublish | nanomq/pub_handler.c:1696-1728 | A publish with a topic is handled as one to that topic whatever was bound; one with neither topic nor alias is rejected with the reason of its version. |
| TopicAlias.AliasOutOfRange | nanomq/pub_handler.c:1658-1674 | An alias that is 0 or above the maximum is refused and binds nothing. |
| TopicAlias.NoBinding | nanomq/pub_handler.c:1634-1700 | Nothing is bound without authentication, version 5, an alias and a topic. |
| TopicAlias.PipesAreSeparate | nanomq/pub_handler.c:1651-1700 | The bindings of a connection depend on its own events alone. |
| TopicAlias.DeniedPublishBinds | nanomq/pub_handler.c:1651-1728 | A run in which a refused publish takes the alias over from an accepted one. |
| TopicAlias.AcceptedBindingIff | nanomq/pub_handler.c:1651-1728 | An alias stands for what it would if refused publishes bound nothing, if and only if its last binding since the disconnect was accepted or repeats the topic of the latest accepted one. |
| TopicAlias.AliasTable.HandlePub | nanomq/pub_handler.c:1634-1728 | Outcome and table after one publish, with the error of each check. |
| TopicAlias.AliasTable.DeleteQueue | nanomq/apps/broker.c:553-554 | A disconnect removes the bindings of the connection and no others. |
| VarInt.Put | demo/nanomq_zephyr_qemu_x86/mqtt_accept.py:76-89 | The loop writes the base 128 digits, least significant first, with the continuation bit on all but the last. |
| VarInt.Get | demo/nanomq_zephyr_qemu_x86/mqtt_accept.py:103-129 | The loop reads at most four bytes and multiplies out their low seven bits. |
| VarInt.ReadEncoded | demo/nanomq_zephyr_qemu_x86/mqtt_accept.py:76-129 | Reading k bytes of an encoded number gives it modulo 128^k, whatever follows. |
| VarInt.EncodedBytes | demo/nanomq_zephyr_qemu_x86/mqtt_accept.py:76-89 | Byte i holds the i-th group of seven bits from the low end, and its top bit tells that another follows. |
| VarInt.RoundTripIff | demo/nanomq_zephyr_qemu_x86/mqtt_accept.py:76-129 | A number round trips exactly below 2^28, and then takes at most four bytes. |
| Wire.StringRoundTrip | nanomq/pub_handler.c:2105-2113 | A length-prefixed string is read back from any position. |
| Wire.PutGetString | nanomq/pub_handler.c:2105-2113 | A string that was read is, written again, the bytes it was read from. |
| Wire.NetworkOrder | nanomq/pub_handler.c:1929-1943 | Numbers have their high byte first. |
| Wire.VarIntRoundTrip | nanomq/sub_handler.c:66-76 | A property length below 2^28 is read back. |
| Wire.PropsRoundTrip | nanomq/pub_handler.c:2157-2192 | A property block is read back from any position. |
| PublishCodec.Encode | nanomq/pub_handler.c:1898-2013 | Appends topic, identifier above QoS 0, properties in version 5 and payload, and then completes the header with their length. |
| PublishCodec.Decode | nanomq/pub_handler.c:2068-2210 | Reads the fields of a PUBLISH with the error of each check. |
| PublishCodec.Layout | nanomq/pub_handler.c:1919-2013 | Where topic length, topic, identifier and payload stand in an encoded PUBLISH. |
| PublishCodec.FlagsRoundTrip | nanomq/pub_handler.c:1920-1924 | Which bits of the first byte are packet type, duplicate, QoS and retain. |
| PublishCodec.DecodedIsWellFormed | nanomq/pub_handler.c:2068-2210 | Whatever is decoded has a length that fits, the flags of its first byte, a valid topic without wildcards, an identifier only above QoS 0 and properties that pass. |
| PublishCodec.WildcardRefused | nanomq/pub_handler.c:2115-2133 | A topic with a wildcard is a protocol error. |
| PublishCodec.RoundTripIff | nanomq/pub_handler.c:1898-2210 | Decoding an encoded PUBLISH gives it back exactly when its topic is not empty. |
| PublishCodec.EmptyTopicLost | nanomq/pub_handler.c:1927-1938 | With an empty topic the topic field is left out and the packet is not read back. |
| PublishCodec.ReencodeIff | nanomq/pub_handler.c:1898-2210 | Re-encoding a decoded message gives its flags and, exactly when the length of its property block is in shortest form, its body byte for byte; always so in version 3.1.1. |
| SubscribeCodec.SharedOkIff | nanomq/sub_handler.c:147-177 | A shared filter is accepted if and only if it is $share/, a name without '/', '+' and '#', a '/' and a filter that is not empty. |
| SubscribeCodec.AcceptableIff | nanomq/sub_handler.c:109-177 | Which filters and options are taken, in terms of their bytes. |
| SubscribeCodec.CheckShared | nanomq/sub_handler.c:147-177 | The pointer searches decide exactly that, and no-local is refused in version 5. |
| SubscribeCodec.NodesRoundTrip | nanomq/sub_handler.c:99-190 | Every list of acceptable filters is decoded, in order. |
| SubscribeCodec.DecodedNodesAreAll | nanomq/sub_handler.c:99-190 | Whatever is decoded is acceptable and is exactly the bytes of the payload. |
| SubscribeCodec.RoundTripIff | nanomq/sub_handler.c:36-191 | Every well-formed SUBSCRIBE is accepted, and decoded to what was encoded if and only if it holds a filter. |
| SubscribeCodec.DecodedIsWellFormed | nanomq/sub_handler.c:36-191 | Whatever is decoded has an identifier that is not 0, properties that pass and acceptable filters or none. |
| SubscribeCodec.UnreadableFilter | nanomq/sub_handler.c:111-130 | A filter that cannot be read or is empty fails the packet with the error of its version. |
| SubscribeCodec.Decode | nanomq/sub_handler.c:36-191 | Identifier, properties and payload are read with the error of each check. |
| SubscribeCodec.DecodePayload | nanomq/sub_handler.c:99-190 | The loop grows the list by one filter a round and strictly advances. |
| SubscribeCodec.EncodeSuback | nanomq/sub_handler.c:199-284 | The SUBACK holds the identifier, an empty property block in version 5, the codes of the filters and the codes for a missing identifier or filter, under a header with their length. |
| SubscribeCodec.AckAnswersSubscribe | nanomq/sub_handler.c:239-371 | One code for each filter of the SUBSCRIBE answered, in its order: the QoS asked for if authentication and access control grant the filter, the refusal if not. |
| SubscribeCodec.EmptyListIsAcked | nanomq/sub_handler.c:99-260 | A SUBSCRIBE without filters is accepted in every version and gets one code. |
| Placeholder.StrStrIsLeftmost | nanomq/acl_handler.c:31-35 | The search gives the leftmost occurrence, and none only if there is none. |
| Placeholder.ReplacedIsJoined | nanomq/acl_handler.c:23-61 | Replacing is cutting at the leftmost non-overlapping occurrences and joining with the replacement. |
| Placeholder.SplitLosesNothing | nanomq/acl_handler.c:23-61 | The pieces joined with the placeholder are the original. |
| Placeholder.PiecesAreFree | nanomq/acl_handler.c:23-61 | No piece holds the placeholder, so every occurrence is replaced. |
| Placeholder.CountLength | nanomq/acl_handler.c:26-35 | The counting scan in wrapping 64-bit arithmetic gives the length of the result, also when the replacement is shorter. |
| Placeholder.ReplacePlaceholder | nanomq/acl_handler.c:23-61 | The buffer is filled exactly with the result and ends with NUL. |
| Placeholder.ReplaceTopic | nanomq/acl_handler.c:63-89 | Client identifier, then user name, are substituted where the client has them. |
| Substitution.SubstitutedOnceIff | nanomq/acl_handler.c:63-89 | The two passes give the simultaneous substitution of both placeholders if and only if the user name placeholder occurs in between only where the topic had it, or the user name is absent or that placeholder. |
| Substitution.PlainIdentifier | nanomq/acl_handler.c:63-89 | So for every topic, when the identifier has no dollar sign and starts with a character that the placeholder does not have. |
| Substitution.SubstitutedTwice | nanomq/acl_handler.c:63-89 | An identifier that reads as the user name placeholder is substituted again. |
| Acl.ComputedIsPurgedFirstMatch | nanomq/acl_handler.c:91-272 | The code is first-match evaluation of the rule list without the conjunctions behind a failing one. |
| Acl.NothingPurged | nanomq/acl_handler.c:91-272 | It is plain first-match evaluation when no conjunction fails before another. |
| Acl.ComputedAtFirst | nanomq/acl_handler.c:100-263 | What the code answers in terms of the first rule that applies: that rule's verdict, or that of the rules behind it. |
| Acl.AgreesIff | nanomq/acl_handler.c:91-272 | The answer is that of first-match if and only if the first applying rule is no conjunction behind a failing one, or the other rules behind it, or else the default, say the same. |
| Acl.SkippedConjunction | nanomq/acl_handler.c:100-174 | Two rules of which the second applies and allows, while the answer is the default. |
| Acl.AndLoop | nanomq/acl_handler.c:125-174 | The flag stays set only if it was set and all sub-rules hold. |
| Acl.OrLoop | nanomq/acl_handler.c:176-213 | The flag is set if and only if some sub-rule holds. |
| Acl.TopicLoop | nanomq/acl_handler.c:227-258 | Found if and only if some topic of the rule matches after substitution. |
| Acl.AuthAcl | nanomq/acl_handler.c:91-272 | Permitted as first-match on the purged list says, with the configured answer when no rule applies. |
| Acl.SingleRule | nanomq/acl_handler.c:103-272 | With one rule the answer is its own if it applies, and the default otherwise. |
| Acl.AttributeRules | nanomq/acl_handler.c:111-124 | A rule about a user name, an identifier or an address applies exactly to the clients that have it. |
| Acl.CompoundRules | nanomq/acl_handler.c:125-213 | A conjunction applies exactly when all its sub-rules of a known kind do, a disjunction when one does. |
| Acl.ContentRules | nanomq/acl_handler.c:10-21 | Content for everyone always matches, unknown content and unknown rule types never do. |
| Acl.TopicRules | nanomq/acl_handler.c:107-258 | A rule for one action does not concern the other; a topic behind @ is compared, any other is matched. |
| Acl.NullTopicStops | nanomq/acl_handler.c:232-235 | The topics behind a NULL are not looked at. |
| SqlClause.SBuf.Ensure | nanomq/pub_handler.c:683-699 | Growing keeps the text and makes room; a buffer with room is not grown; the bytes copied by all growths are at most final minus initial capacity. |
| SqlClause.SBuf.Append | nanomq/pub_handler.c:701-708 | The text is extended by the string. |
| SqlClause.SBuf.AppendF | nanomq/pub_handler.c:710-731 | The text is extended by the whole formatted text, also when the first buffer cuts it off. |
| SqlClause.SBuf.CloseAtLastComma | nanomq/pub_handler.c:1178-1184 | The last comma becomes a closing parenthesis, if there is one. |
| SqlClause.SqlEscape | nanomq/pub_handler.c:733-748 | The escaped text and its terminator fit twice the length plus one. |
| SqlClause.EscapedReadsBack | nanomq/pub_handler.c:733-748 | In a dialect with backslash escapes an escaped value is read back whole and ends at its own closing quote. |
| SqlClause.SqliteReadsBackIff | nanomq/pub_handler.c:733-748 | SQLite, which the statement goes to, reads a value back if and only if it holds neither a quote nor a backslash. |
| SqlClause.QuoteEndsLiteral | nanomq/pub_handler.c:733-748 | A quote within a value ends the literal there. |
| SqlClause.ClosingSeparated | nanomq/pub_handler.c:1178-1184 | Closing at the last comma replaces just the trailing separator, also when values hold commas. |
| SqlClause.FillCells | nanomq/pub_handler.c:948-1122 | The temporary buffers hold the columns and escaped values of one field. |
| SqlClause.PrintField | nanomq/pub_handler.c:965-1053 | The text of one field, escaped through the buffer of the escaping code. |
| SqlClause.PrintPicked | nanomq/pub_handler.c:1079-1095 | The text of a value picked out of the payload. |
| SqlClause.FieldsReadBack | nanomq/pub_handler.c:966-1053 | The text of each field reads back as that field of the message, and NULL stands for an absent user name or password. |
| SqlClause.DecimalReadsBack | nanomq/pub_handler.c:968-985 | Printed numbers read back. |
| SqlClause.WholeCells | nanomq/pub_handler.c:963-1053 | A rule that wants every field and names none has the eight default columns in order, each with its field. |
| SqlClause.FieldIsOptional | nanomq/pub_handler.c:948-966 | A field not wanted has no cell; a name of its own replaces the default column. |
| SqlClause.ItemsReadBack | nanomq/pub_handler.c:1058-1098 | Of the values picked from the payload those stored and named have a cell, in order, that reads back. |
| SqlClause.FillItems | nanomq/pub_handler.c:1055-1099 | The payload fields present in the message, in order, columns and values in step. |
| SqlClause.ComposeClause | nanomq/pub_handler.c:948-1122 | One field extends both lists by the same cells. |
| SqlClause.ComposeAll | nanomq/pub_handler.c:1129-1173 | The nine fields give two lists of equal length in the same order. |
| SqlClause.CloseBoth | nanomq/pub_handler.c:1178-1184 | Both lists are closed if and only if there is a cell. |
| SqlClause.BuildInsert | nanomq/pub_handler.c:1124-1208 | The statement inserts exactly the cells of the rule, and there is none when there are no cells. |
| SqlClause.InsertText | nanomq/pub_handler.c:1132-1190 | What the statement of two cells looks like, character for character. |
| Uri.UriParseTree | nanomq/rest_api.c:417-473 | The nodes of the path behind the first occurrence of the API root; none without it or without a further '/'. |
| Uri.SplitPath | nanomq/rest_api.c:427-447 | The scan gives the texts between slashes. |
| Uri.MarkLast | nanomq/rest_api.c:448-468 | The last node, and no other, is marked as the end. |
| Uri.NodesRejoin | nanomq/rest_api.c:417-473 | The nodes joined with '/', and a trailing '/', are the path. |
| Uri.NodesWellFormed | nanomq/rest_api.c:417-473 | No node holds a '/', and only the last is the end. |
| Uri.UriParamParse | nanomq/rest_api.c:490-600 | The parameters are those of the pieces between '&', in order. |
| Uri.SplitQuery | nanomq/rest_api.c:500-530 | The pieces, or none when no piece gives a parameter. |
| Uri.ParamOfIff | nanomq/rest_api.c:535-561 | A piece gives (k, v) if and only if it is k=v with both not empty and no '=' in k. |
| Uri.ShortQueryHasNoParams | nanomq/rest_api.c:617-650 | The guard on the length of the query drops no parameter. |
| Uri.UriParse | nanomq/rest_api.c:617-650 | Path nodes and parameters of the whole URI. |
| UriText.SplitOfJoin | nanomq/rest_api.c:500-515 | Texts without the separator, joined with it and cut at it, are what they were. |
| UriText.QueryRoundTrip | nanomq/rest_api.c:490-600 | Parameters written as a query are read back, all and in order. |
| UriText.PathRoundTrip | nanomq/rest_api.c:417-473 | Texts written as a path are read back as nodes. |
| UriText.UriRoundTrip | nanomq/rest_api.c:617-650 | A URI written from a path and parameters is parsed into these. |

## Left out

- Hash function: an arbitrary function of the key's bytes, so CRC-32 and its mixing are not modelled; what the allocator grants is any function of the size, for each call.
- Key memory: keys are byte strings; that callers keep the memory behind a stored key alive is not modelled.
- Libraries: the topic tree, the hash of client lists, bounded queues and vectors enter through their contracts; topic matching, topic rewriting, UTF-8 validity and the contents of property blocks are parameters.
- BridgeCache.BridgeNode.PubHandler: models one of the nodes that a publish goes to, which are independent, and does not copy properties.
- Bridge: hybrid and QUIC bridges, reloading and a node without a cache; the cache holds at least one message.
- Webhook: the JSON text and its event filter, and the HTTP exchange itself; a reception always carries a message.
- Broker context: reference counts of connection parameters and messages, builds with plugins or iceoryx, failures that end the program.
- BrokerContext.Work.ServerCb: says which packets and lists are owned, not the bytes sent.
- Sessions: QoS and other options stored with a subscription; shared subscriptions use the same two calls.
- Retained messages: the SQLite store behind them, and why a copy cannot be decoded.
- PublishCodec.Decode: a topic or identifier that cannot be read is an error here; the code's own test of an unsigned length never fails and leaves that to the library reader. Packets other than PUBLISH, which the code passes through, are one error case.
- SubscribeCodec.Decode: needs the two bytes of the identifier; the code reads them without looking at the length. The options byte is laid out as QoS, no-local, retain-as-published and retain handling from its low end.
- Wire.VarIntRoundTrip: a length that does not end within four bytes is a protocol error.
- SqlClause.BuildInsert: for the rule that the code reads, at an index applied twice by caller and callee; executing the statement, altering tables and the first-time flags are not modelled, nor overflow of buffer capacities.
- Placeholder.ReplacePlaceholder: texts are shorter than 2^64 and hold no NUL.
- Uri: percent decoding does not take place in the code and there is none here.
- REST handlers, configuration, command line, process control, database clients and the MQTT client applications are not modelled.
