# gmqtt broker core: a Dafny model

The repository is an in-memory MQTT v5 broker written in Go. This project models the parts of it
where state, recursion and arithmetic decide whether messages arrive, and proves what those parts
keep: the byte ring between a connection and its processor, the framing on top of it, the
PUBLISH, SUBSCRIBE and SUBACK codecs, the subscription tries, the retained-message trie, the
acknowledgement queue and the QoS 2 receive handshake, the packet identifier limiter, the
two-generation map and the offline queue.

Objects that the source updates in place are classes here, with the source's fields; every method
is proved against a definition on values (a tree, a queue, a byte string), and the main results
are lemmas about those definitions, for every input and every history.

| file | models |
|---|---|
| `Bits`, `Common` | Go's bit operations on naturals, masks and powers of two; shared types |
| `RingWindow`, `ByteRing` | `buffer.go`, one party at a time: a bounded byte queue |
| `RingSteps` | `buffer.go`, producer and consumer interleaved, one atomic load or store at a time |
| `VarInt`, `Wire`, `Props`, `SlotCodec`, `Header`, `IdFront` | variable byte integers, length-prefixed bytes, property sections, fixed header |
| `Publish` / `PublishMessage`, `Subscribe` / `SubscribeMessage`, `Suback` / `SubackMessage` | the byte-level definition of a packet with its round trip / the message object with its encoders and decoder |
| `Layout` | the bytes of the three packets in the terms of MQTT Version 5.0, independently of the codec's definitions |
| `Framing` | `peekMessageSize`, `peekMessage` and the reading side of the processor loop, on the ring |
| `TopicLevels` | `nextTopicLevel`, and the matching relation against section 4.7 of MQTT Version 5.0 |
| `TopicTree` | insertion and pruning removal on a tree of levels, shared by the three tries |
| `SubTrie` / `SubNodes`, `RetainTrie` / `RetainNodes`, `ShareTrie` / `ShareNodes` | definitions and histories / the mutable nodes |
| `RetainMessage` | how a node takes in a retained message: encoding it and decoding it into the object it already has |
| `TopicManager` | dispatch to the ordinary and the shared tries |
| `AckQueue`, `Qos2` | the ack queue; QoS 2 receiving over any history of packets |
| `PacketIds`, `SafeMap`, `OfflineStore` | identifier limiter and bitmap; the two maps; the offline queue |

## Reading the model

- A call that would wait on a condition variable returns `Blocked` (or, in `RingSteps`, has no step
  to take). Out-of-range indexing and slicing in the source is the outcome `Panic`.
- Properties of a packet are a list of slots. The source repeats the same few lines per property;
  here `SlotCodec.PutSlot` and `SlotCodec.TakeSlot` are those lines, and the list is the order of
  the properties in the packet.
- The value of the global packet identifier counter, the members picked at random from a share
  group, and the order in which maps are visited are inputs or are left open; the results hold for
  all of them.
- Subscribers are opaque values that can be compared. In the source one that is a function never
  equals another one. Retained messages and the messages of the QoS 2 handshake are the messages of
  the codec; the ack queue itself treats what its encoder leaves in the buffer as opaque bytes.
- What is left in a buffer that is reused, and in a message object whose decoder has failed, is
  arbitrary (`junk` and `spoilt` in `RetainTrie.Op`): the results hold whatever it is.
- The integers of the source are bounded here where it matters: `byte`, `uint16` and `uint32` are
  types, truncating conversions and shifts are written out. Sequence numbers of the ring are
  unbounded.

## Where the code does not do what it or the standard says

Each of these is stated as an exact condition or a concrete counterexample.

- The PUBLISH, SUBSCRIBE and SUBACK decoders do not use the property length to find the end of the
  properties. A payload that starts with the identifier of the last property present, or of one
  that may follow it, is eaten (`Publish.PublishRoundTrip`, `Subscribe.SubscribeRoundTrip`).
- PUBLISH writes a subscription identifier only below 168435455; the standard allows up to
  268435455.
- `Encode` of a PUBLISH ignores a user property that is too long and reports success; the packet is
  shorter than its header says (`Publish.LengthExact`, `Publish.CutPacketRefused`). `EncodeToBuf`
  reports the error.
- A packet larger than the ring is never read, even if the configured maximum allows it: the
  connection stops (`Framing.FrameRead`).
- A level that starts with `$` is refused wherever it stands, although the standard allows it
  everywhere; a wildcard followed by `$`, as in `+$x`, is taken for an ordinary level, which the
  standard forbids (`TopicLevels.LegalExactly`).
- Empty levels and a trailing `/` are not matched as the standard says
  (`TopicLevels.NameMatchedStandardly`, `TopicLevels.FilterMatchesStandardly`).
- A subscription whose filter turns out malformed after its first levels leaves empty nodes behind
  (`SubTrie.StepLive`).
- Retaining a message reuses the message object of the node, and the decoder assigns only the
  properties that are in the packet. What an earlier message had set and the new one leaves out
  survives, the packet identifier at QoS 0 included (`RetainMessage.KeptExactly`,
  `RetainMessage.ContentTypeStays`, `RetainTrie.LatestExactly`).
- Removing a retained message also loses the messages of those topics above it under which the tree
  has no nodes except on the way to it (`RetainTrie.EraseExact`, `RetainTrie.ParentLost`,
  `RetainTrie.LatestExactly`).
- A retained message that cannot be stored because its name turns out malformed after its first
  levels, or because it cannot be encoded, can leave empty nodes behind (`RetainTrie.StepLive`).
- A packet identifier that is used again after its PUBCOMP, while the earlier message is still held
  back by an older one, is taken for a retransmission and the new message is lost. So is a message
  that cannot be encoded, for example one without payload that comes with a topic alias: PUBREC is
  sent all the same (`Qos2.StandardExactly`, `Qos2.ReuseDropped`, `Qos2.UnencodableDropped`).
- An ack queue asked to hold 0 messages gets a ring without cells, which doubling cannot help
  (`AckQueue.Queue.constructor`).
- In `insert` of the ack queue the test for DUP is inverted: a retransmission without the flag is
  accepted silently, one with the flag is an error (`AckQueue.Queue.Insert`).
- The receiving loop reports 0 bytes when it ends for want of room, whatever it has queued
  (`ByteRing.Ring.ReadFrom`).
- For limits 65528 to 65533 the bitmap of the identifier limiter has no bits
  (`PacketIds.BitmapReaches`); marking an identifier that is already marked, or is out of range,
  makes the counter wrong (`PacketIds.Limiter.MarkUsedLocked`).

## Main results

- Ring, in every interleaving: `RingSteps.NothingLost`, `RingSteps.NoUnreadByteOverwritten`,
  `RingSteps.WritePublishes`, `RingSteps.ReadConsumes`.
- Framing, for any cutting of the stream into deliveries and turns: `Framing.CutAnywhere`,
  `Framing.StreamRecovered`, `Framing.EnoughTurns`, `Framing.FrameRead`; and for any bytes at
  all `Framing.NextConsumes`.
- Codec, with exact conditions: `Props.SlotsReuse`, `Publish.PublishReuse`,
  `Publish.PublishRoundTrip`, `Subscribe.SubscribeRoundTrip`, `Suback.SubackRoundTrip`,
  `VarInt.PrefixFree`; what the bytes mean: `Layout.PublishLaidOut`, `Layout.SubscribeLaidOut`,
  `Layout.SubackLaidOut`, `Subscribe.OptionsRead`.
- Topic matching: `TopicLevels.TrieMatchesStandard`, `TopicLevels.NameMatchedStandardly`,
  `TopicLevels.FilterMatchesStandardly`, `TopicLevels.LegalExactly`.
- Subscriptions, after any history: `SubTrie.RunRepresents`, `SubTrie.DeliveredExactly`,
  `SubTrie.DeliveredPerStandard`, carried out by `SubNodes.SNode.SMatch`.
- Shared subscriptions, after any history: `ShareTrie.ShRunRepresents`, `ShareTrie.SharedDelivery`.
- Retained messages, over all runs of insertions and removals: `RetainTrie.StepRepresents`,
  `RetainTrie.RetainedExactly`, `RetainTrie.LatestExactly`, `RetainTrie.QueryExactly`,
  `RetainTrie.RetainedDuality`, resting on `RetainMessage.KeptExactly`.
- Ack queue and QoS 2, over any history: `AckQueue.FirstInFirstOut`, `AckQueue.ReleasedExactly`,
  `AckQueue.WholeExchange`, `Qos2.ForwardedExactly`, `Qos2.StandardExactly`, `Qos2.OnceAndInOrder`.
- Packet identifiers: `PacketIds.Limiter.FindFree`, `PacketIds.Limiter.PollPacketIDs`,
  `PacketIds.PolledDistinct`.
- `SafeMap.RunCalls`, `OfflineStore.SnapshotCleared` and `OfflineStore.ClearedExactly`.

The other rows below are the steps these results are made of, or state what one operation does.

## Model

| member | source | states |
|---|---|---|
| `Bits.MaskIsMod` | broker/impl/session/mem_ackqueue.go:291-294 | `n & (2^k - 1)` is `n mod 2^k`, for every n and k |
| `Bits.PowerOfTwoTest` | broker/impl/session/mem_ackqueue.go:308-311 | `n != 0 && n & (n-1) == 0` holds exactly for the powers of two |
| `Bits.RoundUpIsLeast` | broker/impl/session/mem_ackqueue.go:313-324 | the smearing cascade yields the least power of two that is at least n, for every n up to 2^62 |
| `ByteRing.RingCopy` | broker/core/service/v1/buffer.go:603-619 | a source no longer than the ring ends up at (start+i) mod size, byte by byte, and no other cell changes; the copy terminates |
| `ByteRing.NewBuffer` | broker/core/service/v1/buffer.go:71-100 | accepts 0 (default size) and the powers of two from two read blocks on, nothing else; the ring starts empty |
| `ByteRing.Ring.constructor` | broker/core/service/v1/buffer.go:88-99 | an empty ring of that size |
| `ByteRing.Ring.WaitForWriteSpace` | broker/core/service/v1/buffer.go:514-593 | grants the room exactly when the unread bytes and the new ones fit, although the cached gate may lag behind the consumer |
| `ByteRing.Ring.Write` | broker/core/service/v1/buffer.go:293-315 | appends all of p to the queue or reports why not and changes nothing |
| `ByteRing.Ring.WriteWait` | broker/core/service/v1/buffer.go:482-494 | the granted stretch starts at the write position and lies in free cells; says when it is cut by the end of the ring |
| `ByteRing.Ring.WriteCommit` | broker/core/service/v1/buffer.go:496-511 | publishes n cells and nothing else |
| `ByteRing.Ring.WriteMessage` | broker/core/service/v1/operator.go:379-411 | with room for the computed length, encoding in place and committing, or through a scratch buffer when wrapped, both append exactly what the encoder wrote; an encoder that fails leaves the queue as it was |
| `ByteRing.Ring.Read` | broker/core/service/v1/buffer.go:200-291 | hands out a non-empty prefix of the queue, removes exactly that, touches no other byte of the target |
| `ByteRing.Ring.ReadPeek` | broker/core/service/v1/buffer.go:325-387 | a prefix of the queue, contiguous even if the cells wrap, nothing removed; says when it is short |
| `ByteRing.Ring.ReadWait` | broker/core/service/v1/buffer.go:392-440 | exactly the first n bytes of the queue, or the reason why not |
| `ByteRing.Ring.ReadCommit` | broker/core/service/v1/buffer.go:446-476 | drops exactly n bytes, only if they are there |
| `ByteRing.Ring.ReadFrom` | broker/core/service/v1/buffer.go:126-160 | what arrives is queued in order: from each call as much as it delivers, up to a read block, the end of the ring and what is left, until a call fails or less than a read block is free; the number returned is exact except that it is 0 when the loop ends for want of room; when the loop ends the ring is closed |
| `ByteRing.Ring.ReceiveSome` | broker/core/service/v1/buffer.go:136-155 | one call of the source: exactly how many bytes it queues, and when there is no room for it |
| `ByteRing.AllReceived` | broker/core/service/v1/buffer.go:126-160 | if no call comes back empty-handed and the loop does not end, everything is queued, or at least a byte a call |
| `ByteRing.WhyReceivingEnds` | broker/core/service/v1/buffer.go:126-160 | why the loop ends, and that it never queues more than there is room for |
| `RingSteps.AlwaysInOrder` | broker/core/service/v1/buffer.go:293-315 | every reachable state of any interleaving satisfies the invariant over cursors, gate, granted room and history |
| `RingSteps.NothingLost` | broker/core/service/v1/buffer.go:200-291 | in every interleaving: gate <= cseq <= pseq <= cseq + size, and consumed bytes followed by the unread window are the published bytes |
| `RingSteps.NoUnreadByteOverwritten` | broker/core/service/v1/buffer.go:514-593 | no store the producer can take lands on a cell between cseq and pseq, however stale its gate |
| `RingSteps.ReadsAreWhole` | broker/core/service/v1/buffer.go:392-440 | what the consumer has fetched so far is a prefix of the unread bytes, while the producer goes on storing |
| `RingSteps.RoomIsFound` | broker/core/service/v1/buffer.go:514-593 | a producer waiting for room has a step to take exactly when there is room |
| `RingSteps.WritePublishes` | broker/core/service/v1/buffer.go:293-315 | a write that is carried out, with any consumer steps in between, publishes exactly the bytes stored and advances pseq by their number |
| `RingSteps.ReadConsumes` | broker/core/service/v1/buffer.go:392-476 | a read of n bytes that is carried out, with any producer steps in between, consumes exactly the n oldest unread bytes and advances cseq by n |
| `RingSteps.OthersPublishNothing` | broker/core/service/v1/buffer.go:293-315 | bytes stored and given up are never published, bytes fetched and abandoned never consumed |
| `RingSteps.WriteIsOpen` | broker/core/service/v1/buffer.go:514-593 | in every reachable state an idle producer can carry out the write of anything there is room for |
| `RingSteps.ReadIsOpen` | broker/core/service/v1/buffer.go:392-440 | and an idle consumer the read of any number of unread bytes |
| `VarInt.LbEncode` | broker/core/message/util.go:22-43 | below 2^28 the scratch buffer of four bytes suffices and holds the standard encoding |
| `VarInt.LbDecode` | broker/core/message/util.go:47-68 | the value and length of the groups read, malformed at a fifth byte, in uint32 arithmetic |
| `SlotCodec.Buf.PutUvarint` | broker/core/message/message.go:429-438 | writes the same bytes as lbEncode and returns their number |
| `VarInt.VarBytesFit` | broker/core/message/header.go:260-275 | the encoding has exactly the length that msglen counts |
| `VarInt.LbRoundTrip` | broker/core/message/util.go:47-68 | reading an encoding back gives the number and leaves whatever follows |
| `VarInt.UvarintRoundTrip` | broker/core/message/header.go:242-245 | so does binary.Uvarint |
| `VarInt.PrefixFree` | broker/core/message/util.go:22-43 | no encoding is the beginning of another: section 1.5.5 of MQTT Version 5.0 |
| `VarInt.VarBytesTable` | broker/core/message/util.go:22-43 | the bytes for each range of table 1-1 in section 1.5.5 of MQTT Version 5.0 |
| `VarInt.ReadersAgree` | broker/core/message/util.go:45-68 | lbDecode succeeds exactly when binary.Uvarint does within four bytes, with the same value and length |
| `Wire.WriteLPBytes` | broker/core/message/message.go:366-388 | length prefix and bytes at the position, nothing else changed; too long and too little room are told apart |
| `Wire.ReadLPBytes` | broker/core/message/message.go:346-363 | the bytes behind a big-endian length and where they end, exactly if there are as many; or which check fails |
| `SlotCodec.Buf.WriteLPBytes` | broker/core/message/message.go:390-407 | the same bytes appended to a buffer |
| `SlotCodec.Buf.PutUint16` | broker/core/message/message.go:420-427 | the two shifted bytes are the big-endian form |
| `SlotCodec.Buf.PutUint32` | broker/core/message/message.go:409-418 | the four shifted bytes are the big-endian form |
| `Wire.DecodeUserProperty` | broker/core/message/util.go:176-197 | the whole run of name/value pairs and where it ends |
| `Wire.WriteUserProperty` | broker/core/message/util.go:199-227 | pairs written in place; stops at the first string that is too long, with the exact bytes written up to there |
| `SlotCodec.Buf.WriteUserProperty` | broker/core/message/util.go:229-252 | the same bytes appended to a buffer, also when it has to stop |
| `Wire.BuildUserPropertyLen` | broker/core/message/util.go:254-268 | the sum over the pairs, a missing last value counted as empty |
| `Props.PairsLength` | broker/core/message/util.go:199-268 | the counted length is the length written exactly when no string is too long |
| `Props.PairsBack` | broker/core/message/util.go:176-227 | user properties come back exactly when none lacks its value or is too long and no further one follows |
| `Props.SlotsReuse` | broker/core/message/publish.go:275-351 | into a decoder that already holds values, a property section is read back, and reading stops right behind it, if and only if no slot is followed by its own identifier, no user property lacks its value, and what is not written is held already |
| `Props.SlotsRoundTrip` | broker/core/message/publish.go:275-351 | a property section is read back, and reading stops right behind it, if and only if every value can be read back and no slot is followed by its own identifier |
| `Props.SlotsOnlyBack` | broker/core/message/subscribe.go:368-388 | where no slot accepts an explicit zero, getting all values back already implies that |
| `Props.ClearMeans` | broker/core/message/publish.go:275-351 | that condition spelled out: the next byte is not the identifier of the last slot written or of one after it |
| `Props.SlotsLength` | broker/core/message/publish.go:571-612 | the length counted beforehand is the length written, exactly when no user property is too long |
| `SlotCodec.PutSlot` | broker/core/message/publish.go:419-476 | one property in place: nothing when unset; a text that is too long is an error, a user property is cut off silently |
| `SlotCodec.Buf.PutSlot` | broker/core/message/publish.go:523-566 | one property into a buffer, where a user property that is too long is an error |
| `SlotCodec.TakeSlot` | broker/core/message/publish.go:275-351 | one property read: identifier, value, zero check, second occurrence, in this order |
| `Header.HeadReads` | broker/core/message/header.go:213-258 | an encoded header decodes to its flags and length exactly when the type matches, the flags are legal, the length is not 0 and the body is there |
| `Header.Fixed.Encode` | broker/core/message/header.go:167-191 | first byte and remaining length in place, or the reason why not |
| `Header.Fixed.EncodeToBuf` | broker/core/message/header.go:193-208 | the same bytes appended |
| `Header.Fixed.Decode` | broker/core/message/header.go:213-258 | type, flags, QoS and remaining length checked in this order |
| `Header.Fixed.Msglen` | broker/core/message/header.go:260-275 | the length of the encoded header |
| `Header.Fixed.SetRemainingLength` | broker/core/message/header.go:122-131 | stores up to 268435455, otherwise changes nothing |
| `Header.Fixed.EnsurePacketId` | broker/core/message/header.go:138-165 | an identifier is assigned exactly when none is there, as `AssignedMeans` says |
| `Header.AssignedMeans` | broker/core/message/header.go:138-165 | an identifier that is missing or 0 is replaced by the two bytes of the next one, unless that is 0; any other stays |
| `Publish.PublishReuse` | broker/core/message/publish.go:242-361 | decoding an encoded PUBLISH into an object that has been used leaves the message merged with what the object held, and that is the message itself if and only if whatever its packet does not carry is the same in the object |
| `Publish.PublishRoundTrip` | broker/core/message/publish.go:242-361 | decoding an encoded PUBLISH gives back every field if and only if the stated condition on the message holds, and then uses exactly the encoded bytes, whatever follows |
| `Publish.LengthExact` | broker/core/message/publish.go:571-623 | the computed length is the length written, exactly when no user property is too long and an identifier goes with the QoS |
| `Publish.CutPacketRefused` | broker/core/message/publish.go:456-457 | a PUBLISH cut off by a user property that is too long is refused by the decoder |
| `PublishMessage.PublishMessage.constructor` | broker/core/message/publish.go:38-43 | the message the round trip starts from |
| `PublishMessage.PublishMessage.Build` | broker/core/message/publish.go:571-618 | property length and remaining length of the message |
| `PublishMessage.PublishMessage.Len` | broker/core/message/publish.go:228-240 | the length of the whole packet |
| `PublishMessage.PublishMessage.Encode` | broker/core/message/publish.go:363-480 | which messages are refused and why; otherwise the packet at the start of dst, nothing behind it changed, and only the packet identifier of the message changed |
| `PublishMessage.PublishMessage.EncodeToBuf` | broker/core/message/publish.go:482-569 | the same bytes appended to the buffer |
| `PublishMessage.PublishMessage.Decode` | broker/core/message/publish.go:242-361 | every field, the property length and the number of bytes used, or the error, for any bytes and any earlier contents of the message |
| `Subscribe.OptionsRoundTrip` | broker/core/message/subscribe.go:397-409 | the options of a filter come back exactly when all of them are legal |
| `Subscribe.BitFields` | broker/core/message/subscribe.go:397-409 | the masks and shifts of the decoder read four separate fields |
| `Subscribe.OptionBits` | broker/core/message/subscribe.go:482-488 | in the byte written, bits 0 and 1 are the QoS, bit 2 no local, bit 3 retain as published, bits 4 and 5 retain handling |
| `Subscribe.OptionsRead` | broker/core/message/subscribe.go:397-409 | which option bytes behind a filter are accepted, and which bits each of the four fields is read from |
| `Subscribe.SubscribeRoundTrip` | broker/core/message/subscribe.go:347-422 | decoding an encoded SUBSCRIBE gives back every field if and only if the stated condition holds, and then uses exactly the encoded bytes |
| `Subscribe.TopicsBack` | broker/core/message/subscribe.go:386-413 | the filter loop ends exactly behind the last filter and restores all of them in order |
| `Subscribe.BodyLength` | broker/core/message/subscribe.go:547-564 | the computed remaining length is the length written |
| `SubscribeMessage.SubscribeMessage.AddTopicAll` | broker/core/message/subscribe.go:178-219 | a new filter is appended with its options, a known one only gets the new QoS, an illegal one changes nothing |
| `SubscribeMessage.SubscribeMessage.Build` | broker/core/message/subscribe.go:547-564 | property length and remaining length of the message |
| `SubscribeMessage.SubscribeMessage.Len` | broker/core/message/subscribe.go:333-345 | the length of the whole packet |
| `SubscribeMessage.SubscribeMessage.EncodeOptions` | broker/core/message/subscribe.go:482-488 | each field in its own bits of the byte, and the byte the definition says |
| `SubscribeMessage.SubscribeMessage.Encode` | broker/core/message/subscribe.go:424-493 | refusals, and otherwise the packet at the start of dst, nothing behind it changed |
| `SubscribeMessage.SubscribeMessage.EncodeToBuf` | broker/core/message/subscribe.go:495-545 | the same bytes appended to the buffer |
| `SubscribeMessage.SubscribeMessage.DecodeTopics` | broker/core/message/subscribe.go:386-413 | the loop terminates and appends exactly the filters read to the five slices |
| `SubscribeMessage.SubscribeMessage.Decode` | broker/core/message/subscribe.go:347-422 | every field and the number of bytes used, or the error, for any bytes and any earlier contents |
| `Suback.SubackRoundTrip` | broker/core/message/suback.go:118-172 | decoding an encoded SUBACK gives back every field exactly when there is a reason code, a packet identifier, legal flags and no user property without a value: no legal code is taken for a property |
| `Layout.PublishLaidOut` | broker/core/message/publish.go:363-480 | the bytes of any PUBLISH by section 3.3 of MQTT Version 5.0: big-endian lengths, the packet identifier exactly with QoS above 0, each property behind its identifier in the order written |
| `Layout.SubscribeLaidOut` | broker/core/message/subscribe.go:424-493 | the bytes of any SUBSCRIBE by section 3.8 |
| `Layout.SubackLaidOut` | broker/core/message/suback.go:174-234 | the bytes of any SUBACK by section 3.9 |
| `Layout.PublishRefused` | broker/core/message/publish.go:363-378 | which PUBLISH messages are not refused |
| `Layout.SubscribeRefused` | broker/core/message/subscribe.go:424-493 | which SUBSCRIBE messages are not refused |
| `Layout.PairsStop` | broker/core/message/util.go:199-227 | how much of the user properties has been written when a string is too long |
| `Layout.FirstBits` | broker/core/message/publish.go:181-183 | the type is in bits 4 to 7 of the first byte, the QoS of a PUBLISH in bits 1 and 2 |
| `Layout.FirstByte` | broker/core/message/header.go:213-240 | which first bytes the decoder accepts for each of the three types |
| `Layout.TwiceRefused` | broker/core/message/publish.go:275-351 | a property that comes twice in a row is a protocol error |
| `Layout.ZeroAliasRefused` | broker/core/message/publish.go:291-297 | a topic alias of 0 is a protocol error |
| `Layout.EmptyRefused` | broker/core/message/publish.go:303-351 | so are an empty response topic, correlation data or content type and a subscription identifier of 0 |
| `Layout.WildcardRefused` | broker/core/message/publish.go:298-302 | a topic with a wildcard and no alias does not come back |
| `Suback.BodyLength` | broker/core/message/suback.go:284-306 | the computed remaining length is the length written |
| `SubackMessage.SubackMessage.CodesValid` | broker/core/message/suback.go:183-187 | true exactly when every code is one of the twelve legal ones |
| `SubackMessage.SubackMessage.Build` | broker/core/message/suback.go:284-300 | property length and remaining length of the message |
| `SubackMessage.SubackMessage.Encode` | broker/core/message/suback.go:174-234 | refusals, and otherwise the packet at the start of dst; a missing identifier is written as zero |
| `SubackMessage.SubackMessage.EncodeToBuf` | broker/core/message/suback.go:236-282 | the same bytes appended to the buffer |
| `SubackMessage.SubackMessage.Decode` | broker/core/message/suback.go:118-172 | every field and the number of bytes used, or the error, for any bytes and any earlier contents |
| `IdFront.FrontBack` | broker/core/message/subscribe.go:347-368 | header, packet identifier and property length are read back, whatever follows; a property length that exceeds the packet is refused |
| `IdFront.DecodeFront` | broker/core/message/suback.go:118-136 | header, identifier and property length, with the check that the properties are there |
| `Framing.PeekMessageSize` | broker/core/service/v1/operator.go:214-263 | type and size read from the least number of bytes that holds the header, nothing taken out of the ring |
| `Framing.SizeOfFrame` | broker/core/service/v1/operator.go:214-263 | once the header is there the size is exact, whatever follows it or is still missing: no byte behind the header is waited for |
| `Framing.SizeOfPart` | broker/core/service/v1/operator.go:214-263 | a header that is not complete is waited for, never misread |
| `Framing.PeekMessage` | broker/core/service/v1/operator.go:267-305 | decodes exactly the bytes of the packet and takes out of the ring those it has decoded; on any failure nothing is taken out |
| `Framing.FrameRead` | broker/core/service/v1/operator.go:214-305 | a packet that survives its round trip is read off the front of any stream if and only if it is no larger than the ring and the configured maximum |
| `Framing.FramePart` | broker/core/service/v1/operator.go:214-305 | an incomplete packet is neither read nor refused |
| `Framing.NextConsumes` | broker/core/service/v1/operator.go:267-305 | whatever bytes arrive, a packet that is accepted takes out exactly the frame that its header announces, so the boundaries of the stream cannot be lost |
| `Framing.Process` | broker/core/service/v1/process.go:46-91 | the processor loop takes everything that can be read and is no larger than the configured maximum, in order, terminates, and says why |
| `Framing.StreamRecovered` | broker/core/service/v1/operator.go:214-305 | a concatenation of packets is cut exactly at their boundaries: they come out in order, and reading goes on with what follows |
| `Framing.NextStable` | broker/core/service/v1/operator.go:214-305 | a turn that does not have to wait does the same whatever arrives behind |
| `Framing.CutAnywhere` | broker/core/service/v1/process.go:46-91 | however any byte stream is cut into deliveries and wherever the processor's turns fall between them, the packets read so far and those still to be read are the packets of the whole stream |
| `Framing.FullNeverWaits` | broker/core/service/v1/operator.go:214-305 | the processor never waits on a full ring |
| `Framing.AllPacketsRead` | broker/core/service/v1/process.go:46-91 | when packets that fit the ring have arrived in whatever pieces and the processor has nothing left to do, exactly these packets have been read |
| `Framing.TurnsRead` | broker/core/service/v1/process.go:46-91 | whatever bytes have arrived, k turns read the next k packets that are complete, or all there are |
| `Framing.EnoughTurns` | broker/core/service/v1/process.go:46-91 | as many turns as packets have arrived read all of them, wherever the earlier turns fell |
| `TopicLevels.NextTopicLevel` | broker/impl/topic/topic.go:576-631 | the scanning loop yields the first level and the remainder, or the error, of the definition on values |
| `TopicLevels.ParseIsNormalisedSplit` | broker/impl/topic/topic.go:576-631 | repeated scanning succeeds exactly on legal topics and then gives the levels between the slashes, empty ones but the last turned into `+`, a trailing empty one dropped |
| `TopicLevels.LegalExactly` | broker/impl/topic/topic.go:576-631 | the scanner accepts a topic exactly when no level starts with `$` and every level is one that section 4.7 of MQTT Version 5.0 allows in a filter, or a wildcard followed by `$` |
| `TopicLevels.SplitJoin` | broker/impl/topic/topic.go:576-631 | splitting undoes joining |
| `TopicLevels.TrieMatchesStandard` | broker/impl/topic/topic.go:367-412 | on filters and names without empty levels or `$`, the relation of the trie is that of section 4.7 of MQTT Version 5.0 |
| `TopicLevels.TopicsMatchedStandardly` | broker/impl/topic/topic.go:367-412 | the same for topic strings |
| `TopicLevels.NameMatchedStandardly` | broker/impl/topic/topic.go:367-412 | a name is matched as the standard says by every such filter, if and only if it does not end with an empty level |
| `TopicLevels.FilterMatchesStandardly` | broker/impl/topic/topic.go:367-412 | a filter matches all such names as the standard says, if and only if it has no empty level |
| `TopicTree.OwnAtGraft` | broker/impl/topic/topic.go:239-277 | insertion changes the contents of the node at its path only |
| `TopicTree.OwnAtCut` | broker/impl/topic/topic.go:281-333 | removal changes the node at its path, and empties at most nodes on the way that it prunes |
| `TopicTree.CutFails` | broker/impl/topic/topic.go:281-333 | removal fails exactly for a bad topic, a missing node, or contents that refuse |
| `TopicTree.CutKeepsLive` | broker/impl/topic/topic.go:281-333 | pruning keeps every non-root node leading to contents |
| `TopicTree.GraftLive` | broker/impl/topic/topic.go:239-277 | insertion keeps that exactly when it gets to the end of the topic or was on known nodes |
| `TopicTree.LiveHasContent` | broker/impl/topic/topic.go:281-333 | in such a tree a node with children leads to a subscriber |
| `SubTrie.SubscribeUpdates` | broker/impl/topic/topic.go:239-277 | one subscription changes one entry: re-subscribing overwrites the options |
| `SubTrie.UnsubscribeUpdates` | broker/impl/topic/topic.go:281-333 | one removal fails exactly when there is nothing to remove and otherwise removes exactly its entry |
| `SubTrie.RunRepresents` | broker/impl/topic/topic.go:239-333 | after any history the trie represents the map (filter levels, subscriber) to latest options |
| `SubTrie.RunIsLive` | broker/impl/topic/topic.go:281-333 | with valid filters, every non-root node leads to a subscriber |
| `SubTrie.StepLive` | broker/impl/topic/topic.go:239-277 | a call keeps that exactly unless it is a subscription whose filter turns out malformed on new nodes |
| `SubTrie.MatchExact` | broker/impl/topic/topic.go:367-412 | matching counts every entry once if its filter covers the name, and nothing else |
| `SubTrie.MatchSucceeds` | broker/impl/topic/topic.go:367-412 | matching a well-formed name never fails |
| `SubTrie.DeliveredExactly` | broker/impl/topic/topic.go:367-412 | after any history, a publish reaches each current entry whose filter covers the name exactly once, with its latest options |
| `SubTrie.DeliveredPerStandard` | broker/impl/topic/topic.go:367-412 | on regular filters and names, these are the entries that section 4.7 of MQTT Version 5.0 selects |
| `SubNodes.SNode.SInsert` | broker/impl/topic/topic.go:239-277 | the mutable nodes carry out the insertion on the tree they represent |
| `SubNodes.SNode.SRemove` | broker/impl/topic/topic.go:281-333 | ... the removal with pruning; an error changes nothing |
| `SubNodes.SNode.SMatch` | broker/impl/topic/topic.go:367-412 | ... the match, whatever the order in which children are visited; each subscriber with the options granted, at the lower of the two QoS levels |
| `SubNodes.SNode.MatchQos` | broker/impl/topic/topic.go:640-663 | appends each subscriber once, with the options granted at the lower of the published and the granted QoS |
| `RetainMessage.KeptExactly` | broker/impl/topic/topic.go:434-457 | a message is held as it was given exactly when it can be written and read back and every field that its packet does not carry is the same in the message held before |
| `RetainMessage.KeptMerged` | broker/impl/topic/topic.go:448-455 | in general the message merged with the one held before is held |
| `RetainMessage.ContentTypeStays` | broker/impl/topic/topic.go:448-455 | two messages on one topic: the content type of the first stays with the second |
| `RetainMessage.Absorb` | broker/impl/topic/topic.go:434-457 | encoding into a buffer of the computed length and decoding into the reused object do what the definition says, errors included |
| `RetainTrie.EraseExact` | broker/impl/topic/topic.go:482-519 | after a removal a topic has its message exactly unless it is the one removed or a parent swept away with it |
| `RetainTrie.EraseNodes` | broker/impl/topic/topic.go:508-518 | and the nodes that are left are exactly those not swept away |
| `RetainTrie.EraseMirrors` | broker/impl/topic/topic.go:482-519 | a removal fails exactly when the tree has no node at its topic, and otherwise does to the tree what it does to the paths and the map |
| `RetainTrie.ErasedBare` | broker/impl/topic/topic.go:508-518 | a removal leaves a bare tree exactly when the path was its only branch |
| `RetainTrie.SweptIsGone` | broker/impl/topic/topic.go:508-518 | as long as the nodes of the tree are the topics retained and those above them, the retained topics tell which parents a removal sweeps away: those under which nothing is retained except on the way to the topic removed |
| `RetainTrie.StepRepresents` | broker/impl/topic/topic.go:186-207 | any call, done, stopped or refused, changes the nodes of the tree and what they hold as it changes the set of known paths and the flat map |
| `RetainTrie.LiveIsTight` | broker/impl/topic/topic.go:508-518 | every node of the tree leads to a message exactly when the known paths are the topics retained and those above them |
| `RetainTrie.StepLive` | broker/impl/topic/topic.go:186-207 | one call keeps every node leading to a message exactly unless it is an insertion that stops on new nodes |
| `RetainTrie.ParentLost` | broker/impl/topic/topic.go:508-518 | a run of three calls, retaining on a and on a/b and removing a/b: the message of a is lost |
| `RetainTrie.RetainedDuality` | broker/impl/topic/topic.go:524-572 | a query returns a retained topic exactly when publishing on it would reach a subscriber at the query filter |
| `RetainTrie.RetainedExactly` | broker/impl/topic/topic.go:432-519 | after any run of insertions and removals, failed ones included, the tree holds exactly what the flat map says |
| `RetainTrie.LatestExactly` | broker/impl/topic/topic.go:186-207 | every topic has its latest message until it is removed, throughout a run, if and only if every message is intact over the one it replaces and no removal sweeps another topic away, which the history alone tells |
| `RetainTrie.SweepSeen` | broker/impl/topic/topic.go:508-518 | after a run in which no insertion stops on new nodes, a removal takes another topic with it exactly if all that is retained under that topic is on the way to the one removed |
| `RetainTrie.QueryExactly` | broker/impl/topic/topic.go:524-572 | after any run a query returns exactly what is held for the topics that its filter covers |
| `RetainTrie.QueryLatest` | broker/impl/topic/topic.go:524-572 | and that is the latest message of each topic not removed since, if the run meets the condition of `LatestExactly` |
| `RetainNodes.RNode.Retain` | broker/impl/topic/topic.go:186-207 | one call on the mutable nodes is one step of the run; the error is reported exactly as the definition says; when the database fails the tree is left alone |
| `RetainNodes.RNode.RInsert` | broker/impl/topic/topic.go:432-479 | the mutable nodes carry out the insertion, with the codec's own message objects; the error is that of the name, of the encoder or of the decoder |
| `RetainNodes.RNode.RRemove` | broker/impl/topic/topic.go:482-519 | ... the removal; an error changes nothing |
| `RetainNodes.RNode.AllRetained` | broker/impl/topic/topic.go:564-572 | every message of the subtree exactly once |
| `RetainNodes.RNode.RMatch` | broker/impl/topic/topic.go:524-562 | every due message exactly once |
| `ShareTrie.JoinUpdates` | broker/impl/topic/share/mem_share_topic.go:145-194 | one subscription changes one membership |
| `ShareTrie.LeaveUpdates` | broker/impl/topic/share/mem_share_topic.go:196-264 | one removal fails exactly when there is nothing to remove and otherwise removes exactly what it names |
| `ShareTrie.ShRunRepresents` | broker/impl/topic/share/mem_share_topic.go:145-264 | after any history the trie represents the map (filter, group, member) to QoS |
| `ShareTrie.SharedDelivery` | broker/impl/topic/share/mem_share_topic.go:294-337 | after any history, a group is served exactly when its filter covers the name, it is the one asked for and it still has a member: section 4.8.2 of MQTT Version 5.0 |
| `ShareNodes.ShNode.SInsert` | broker/impl/topic/share/mem_share_topic.go:145-194 | the mutable nodes carry out the insertion |
| `ShareNodes.ShNode.SRemove` | broker/impl/topic/share/mem_share_topic.go:196-264 | ... the removal; an error changes nothing |
| `ShareNodes.ShNode.PickOne` | broker/impl/topic/share/mem_share_topic.go:593-625 | one current member of the group, whichever the random choice, with the lower QoS |
| `ShareNodes.ShNode.SMatch` | broker/impl/topic/share/mem_share_topic.go:294-337 | one pick for each group that is due, none for the others, at the lower of the two QoS levels |
| `TopicManager.ScanShareName` | broker/impl/topic/topic.go:71-85 | finds where the share name ends, exactly if it does |
| `TopicManager.Dispatch` | broker/impl/topic/topic.go:54-106 | which trie a topic goes to, and with what name and filter |
| `TopicManager.OneShareName` | broker/impl/topic/topic.go:71-94 | a shared topic splits in one way only |
| `TopicManager.SysTopicRefused` | broker/impl/topic/topic.go:576-631 | a topic that starts with `$` never gets past the level scanner |
| `TopicManager.MemTopic.Subscribe` | broker/impl/topic/topic.go:54-106 | exactly one of the tries changes, and how; refused calls change nothing; a malformed share filter is refused, and a `$sys/` filter is passed on without its prefix |
| `TopicManager.MemTopic.Unsubscribe` | broker/impl/topic/topic.go:108-143 | the same for removal |
| `TopicManager.MemTopic.Subscribers` | broker/impl/topic/topic.go:145-180 | which results each kind of request gets from the two tries, at which QoS |
| `AckQueue.Queue.constructor` | broker/impl/session/mem_ackqueue.go:53-69 | the size is the least power of two that holds n, or 0 for 0 |
| `AckQueue.Queue.Increment` | broker/impl/session/mem_ackqueue.go:303-306 | one step round the ring |
| `AckQueue.Queue.Insert` | broker/impl/session/mem_ackqueue.go:189-234 | appends a message with a new identifier that can be encoded, leaves the queue alone otherwise, and fails exactly if it cannot be encoded or as the inverted DUP test says |
| `AckQueue.Queue.RemoveHead` | broker/impl/session/mem_ackqueue.go:236-250 | drops the oldest entry and its index |
| `AckQueue.Queue.Grow` | broker/impl/session/mem_ackqueue.go:252-278 | doubles the ring and changes nothing about the queue or its index |
| `AckQueue.Queue.Wait` | broker/impl/session/mem_ackqueue.go:93-124 | exactly which messages are queued, and how |
| `AckQueue.Queue.Ack` | broker/impl/session/mem_ackqueue.go:126-161 | records an acknowledgement on the entry with that identifier, if there is one, and fails exactly for other types or if it is there and cannot be encoded |
| `AckQueue.Queue.Acked` | broker/impl/session/mem_ackqueue.go:163-187 | returns and removes exactly the longest completed prefix, after a finished ping |
| `AckQueue.IdsBounded` | broker/impl/session/mem_ackqueue.go:189-234 | the queue never holds more than 65536 entries, so growing is always possible |
| `AckQueue.FirstInFirstOut` | broker/impl/session/mem_ackqueue.go:93-278 | over any run of calls: inserted keys are the released ones followed by the waiting ones, and identifiers stay distinct |
| `AckQueue.ReleasedWereComplete` | broker/impl/session/mem_ackqueue.go:163-187 | everything released had its final acknowledgement |
| `AckQueue.StatesRecorded` | broker/impl/session/mem_ackqueue.go:126-161 | after any run each waiting entry has the type of the last acknowledgement that came for its identifier since it entered |
| `AckQueue.ReleasedExactly` | broker/impl/session/mem_ackqueue.go:163-187 | after any run Acked releases the entries up to the first one whose last acknowledgement is missing or is PUBREC, and no others |
| `AckQueue.ExchangeEnds` | broker/impl/session/mem_ackqueue.go:163-187 | PUBACK, PUBREL, PUBCOMP, SUBACK and UNSUBACK release the oldest entry, PUBREC does not |
| `AckQueue.WholeExchange` | broker/impl/session/mem_ackqueue.go:93-187 | a QoS 1 PUBLISH waits for its PUBACK, a QoS 2 one for PUBCOMP or PUBREL, SUBSCRIBE for SUBACK, UNSUBSCRIBE for UNSUBACK, and then comes out as it went in, with its answer |
| `AckQueue.OthersDoNotWait` | broker/impl/session/mem_ackqueue.go:93-124 | a QoS 0 PUBLISH and all other packets do not enter the queue |
| `Qos2.Receiver.ProcessPublish` | broker/core/service/v1/process.go:486-497 | queue the message if it can be encoded, and answer PUBREC in any case |
| `Qos2.Receiver.ProcessPubrel` | broker/core/service/v1/process.go:203-216 | mark the message, hand on what is complete, answer PUBCOMP |
| `Qos2.Receiver.ProcessAcked` | broker/core/service/v1/process.go:335-388 | decodes and hands on the completed prefix in order, skipping what cannot be decoded |
| `Qos2.Conservation` | broker/core/service/v1/process.go:335-388 | over any packet history: first arrivals, with their release marks, are the messages taken followed by those in the queue |
| `Qos2.ForwardedExactly` | broker/core/service/v1/process.go:335-388 | taken and handed on are exactly the first arrivals up to the first one without a PUBREL, in arrival order, each once |
| `Qos2.HandedOnAsSent` | broker/core/service/v1/process.go:335-352 | what is handed on is the message sent, if its packet survives its round trip |
| `Qos2.HeadUnreleased` | broker/core/service/v1/process.go:335-388 | nothing that could be forwarded is held back |
| `Qos2.AllAnswered` | broker/core/service/v1/process.go:203-216 | every PUBLISH is answered by PUBREC and every PUBREL by PUBCOMP, in order |
| `Qos2.StandardExactly` | broker/core/service/v1/process.go:486-497 | messages count as new exactly as section 4.3.3 of MQTT Version 5.0 says, if and only if, by the history alone, no identifier is used again while its released message is held back and no new message fails to encode |
| `Qos2.ExactlyOnce` | broker/core/service/v1/process.go:335-388 | after such a history the messages handed on are, in arrival order, the first arrivals of section 4.3.3 of MQTT Version 5.0 up to the first one not released |
| `Qos2.OnceAndInOrder` | broker/core/service/v1/process.go:335-388 | and if their packets survive their round trip, they are the messages that were sent, each once and in order |
| `Qos2.ReuseDropped` | broker/core/service/v1/process.go:486-497 | a history of four packets in which a new message is lost |
| `Qos2.UnencodableDropped` | broker/impl/session/mem_ackqueue.go:207-209 | a message that cannot be encoded is answered and lost |
| `PacketIds.BitmapReaches` | util/pkid/bitmap.go:13-21 | the bitmap covers the limit exactly for limits outside 65528 to 65533 |
| `PacketIds.Bitmap.constructor` | util/pkid/bitmap.go:13-21 | the empty set |
| `PacketIds.Bitmap.Set` | util/pkid/bitmap.go:28-42 | adds or removes exactly that element |
| `PacketIds.Bitmap.Get` | util/pkid/bitmap.go:45-53 | membership |
| `PacketIds.Limiter.constructor` | util/pkid/pkid_set_limiter.go:32-41 | the counter is right and all identifiers are reachable exactly for limits outside 65528 to 65533; a poll for up to the limit ends for every limit |
| `PacketIds.Limiter.FindFree` | util/pkid/pkid_set_limiter.go:88-94 | whenever some identifier is free, the inner scan terminates and stops at the next free one in cyclic order |
| `PacketIds.Limiter.PollPacketIDs` | util/pkid/pkid_set_limiter.go:74-106 | the lesser of what is asked and what the counter leaves, each the next free identifier in cyclic order from the cursor; the identifiers in use grow by those polled as far as the bitmap reaches; a counter that was right stays right |
| `PacketIds.Limiter.SoundCanPoll` | util/pkid/pkid_set_limiter.go:74-106 | with a right counter every poll ends: as many identifiers are free as the counter leaves |
| `PacketIds.Limiter.ReleaseLocked` | util/pkid/pkid_set_limiter.go:116-121 | frees one identifier and counts down if it was in use; a counter that was right stays right |
| `PacketIds.Limiter.BatchRelease` | util/pkid/pkid_set_limiter.go:123-132 | frees exactly these identifiers and counts down by as many as were in use, repetitions not counted; a counter that was right stays right |
| `PacketIds.Limiter.MarkUsedLocked` | util/pkid/pkid_set_limiter.go:134-137 | keeps the counter right exactly for a free identifier within the limit |
| `PacketIds.NextFreeUnique` | util/pkid/pkid_set_limiter.go:88-94 | there is only one next free identifier |
| `PacketIds.NextFreeMeans` | util/pkid/pkid_set_limiter.go:88-94 | the next free identifier is the first one from the cursor upwards, or else from 1 |
| `PacketIds.FreshPolls` | util/pkid/pkid_set_limiter.go:74-106 | a limiter that has just been made hands out 1, 2, 3 and so on |
| `PacketIds.PolledDistinct` | util/pkid/pkid_set_limiter.go:74-106 | where the bitmap reaches the limit, polled identifiers are distinct, within the limit and were free |
| `PacketIds.PolledUnique` | util/pkid/pkid_set_limiter.go:74-106 | what a poll returns is determined by the state |
| `SafeMap.SafeMap.Del` | util/collection/safe_map.go:45-74 | removes exactly the key, whatever generation it is in and whatever migrates; a generation worn by 10000 deletions and below 1000 entries is folded away |
| `SafeMap.SafeMap.RetireOld` | util/collection/safe_map.go:57-65 | moving the younger generation over loses nothing |
| `SafeMap.SafeMap.RetireNew` | util/collection/safe_map.go:66-72 | nor does folding it back |
| `SafeMap.SafeMap.Get` | util/collection/safe_map.go:77-87 | looks up the one abstract map |
| `SafeMap.SafeMap.Set` | util/collection/safe_map.go:95-112 | updates the one abstract map; the key lives in the generation that the number of deletions selects |
| `SafeMap.SafeMap.GetOrSet` | util/collection/safe_map.go:114-143 | an existing value is kept and returned |
| `SafeMap.SafeMap.Size` | util/collection/safe_map.go:154-159 | the number of keys |
| `SafeMap.SafeMap.Range` | util/collection/safe_map.go:161-179 | visits each key once with its value, and all of them unless stopped |
| `SafeMap.RunCalls` | util/collection/safe_map.go:31-159 | any sequence of calls leaves the map that a plain map would be |
| `OfflineStore.Offline.Store` | broker/impl/store/mem_session.go:253-262 | appends, unless 1000 messages are there |
| `OfflineStore.Offline.GetAll` | broker/impl/store/mem_session.go:264-283 | all messages in order and their identifiers as decimal strings |
| `OfflineStore.Offline.ClearById` | broker/impl/store/mem_session.go:290-311 | walks the list and lets each message use up the first identifier that names it |
| `OfflineStore.ClearedExactly` | broker/impl/store/mem_session.go:290-311 | for any list of names: a message goes exactly if fewer earlier messages share its identifier than the list names it times; the others stay in order |
| `OfflineStore.ItoaInjective` | broker/impl/store/mem_session.go:276-280 | different packet identifiers have different strings |
| `OfflineStore.ItoaReads` | broker/impl/store/mem_session.go:276-280 | the string is the number in decimal digits, without a leading zero |
| `OfflineStore.SnapshotCleared` | broker/impl/store/mem_session.go:290-311 | clearing by the identifiers of an earlier snapshot removes exactly the snapshot; everything stored since stays, in order, even if identifiers repeat |
| `OfflineStore.UnnamedKept` | broker/impl/store/mem_session.go:290-311 | a message whose identifier is not named stays |

## Left out

- Sockets, websockets, goroutine startup, timeouts, logging, configuration, cron, pools, middleware, authentication, clustering: plumbing around the core.
- Closing a ring while a party waits, wake-ups and condition variables: waiting is an outcome or a step that is not enabled; only safety is stated.
- Overflow of the 64-bit sequence numbers of the ring: not modelled.
- CONNECT, CONNACK, DISCONNECT, AUTH, PUBACK-family, UNSUBSCRIBE and PING codecs: long and repetitive; the framing model stops at them with `OtherType`.
- The `dirty` flag and `dbuf`: only the encoders that build the packet are modelled, not the shortcut that copies an undisturbed one.
- RetainMessage.Absorb: the node keeps a message value, not an object shared with those who have asked for it; in the source a later insertion, or the change of QoS while a retained message is sent, shows in the objects a query has returned.
- RetainNodes.RNode.Retain: what the database stores; only whether it fails.
- Framing.Process: the flow control at the head of the loop, the DISCONNECT it writes when a packet is too large, and what is done with each packet.
- Topic alias tables, quota counters, session take-over and expiry: not part of this model.
- The system-topic trie: a near copy; the dispatcher answers `AskSys` where the source would ask it. The retained tree of the shared trie is a near copy as well.
- OnComplete callbacks of the ack queue: plumbing.
- SafeMap.SafeMap.GetOrSet: when another goroutine sets the key between the look-up and taking the lock, the source returns with the mutex still locked (util/collection/safe_map.go:119-126); calls are taken one at a time here, so those two returns are not reached.
- Locks of SafeMap and of the stores, and the per-client tables around the offline queue: calls are taken one at a time.
- ReadLPBytes: a length prefix that exceeds what follows by one or two bytes makes the source slice into spare capacity; what it reads there is not modelled and counts as `Panic`.
- PublishMessage.PublishMessage.Encode: requires a packet of at most 268435455 bytes behind the header; beyond that the source keeps the remaining length of an earlier call, which is not modelled. The same holds for the other encoders and length computations.
- PublishMessage.PublishMessage.Decode: after an error, nothing is said about the fields and the returned count, which callers discard. The same holds for the other decoders.
- PacketIds.Limiter.PollPacketIDs: when a wrong counter leaves more than there are free identifiers the scan of the source never ends; then nothing is said.
- Header.Fixed.Decode: only for the three packet types modelled, all of which must have a body.
- PublishMessage.PublishMessage.Build: the repeated blocks for the properties are split over helper methods, and fields of one packet are grouped; the header is an object of its own.
- SubscribeMessage.SubscribeMessage.Encode: assumes what the setters keep (QoS below 3, flags 0 or 1); a retain-handling value is arbitrary, as its setter does not check it.
- ShareNodes.ShNode.SInsert: a group is a value in the map of the node, not a slice shared with other holders.
- OfflineStore.Offline.ClearById: the linked list is a sequence; the array of identifiers that it blanks is an array.
- Qos2.Receiver.ProcessPublish: authentication, topic aliases and write errors of the replies are left out; a reply is recorded as sent. A QoS 2 PUBLISH with an alias and an empty payload is one of those whose encoder fails: it never enters the queue.
- Qos2.Receiver.ProcessAcked: the PUBREL kept with a message has been decoded before it was stored, so decoding it again is taken to succeed; errors of handing a message on are not modelled.
- TopicManager.MemTopic.Subscribers: what the caller passes in its result slices is overwritten in the source; here new result objects are returned.
- RingSteps: bytes are stored and fetched one by one; tearing within a byte and the memory model of Go below sequentially consistent atomics are not modelled.
