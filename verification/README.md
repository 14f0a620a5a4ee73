# Verified model of the HTTP sniffer

The sniffer captures TCP traffic, puts each flow's segments in order, files flows in a hash table, pairs
requests with responses, counts them, and sends the numbers to a collector as length-prefixed
Protocol Buffers messages. This project models three parts of it and proves what they are for.

**The wire codec** (`c-http-sniffer/src/protobuf-c.c`, `server.c`), after the encoding chapter of the Protocol
Buffers documentation ("Base 128 Varints", "Message Structure", "Signed Integers", "Packed Repeated Fields", "Last
One Wins"). `Schema` holds descriptors and messages; `Encoding` and `Decoding` are the reference encoder and
decoder. `Varint`, `Packing`, `PackBuffer` and `Sizes` are the three encoders of the source, loop by loop over byte
arrays, with the length prefixes patched in place; `Unpacking` is the two-pass decoder with its doubling slabs and
exactly sized arrays. `Layout` says, field by field, what stands on the wire, and `Reading` and `Unions` what
decoding makes of any octets; `RoundTrip` proves that decoding inverts encoding, `Merging` and `MergeLaw` what
merging means for concatenated encodings. `Receiving` is the length reader of the socket side.

**Flows**. `TcpSegments` says what reordering does to the stored segments and proves order, coverage and agreement
with the byte stream over whole runs; `TcpOrder` is the linked-list code, proved to do just that. `FlowTable`,
`FlowHashTable` and `FlowQueue` are the doubly linked bucket chains, the table over them and the queue of finished flows,
with the conservation of flows as an invariant of every operation; `Demultiplexing` proves over whole runs that every connection
gets just its own packets. `Matching` and `Pairing` are the pairing of requests with responses, which runs again and again over a
growing flow while pairs are reported and deleted; `PairingRuns` is about whole runs of it.

**Numbers**. `Clients` is the counting hash table and the bounded list of frequent clients, `Rates` the request and error
rates per tick and per interval, `IpText` the address text. `Lists`, `Bytes`, `PacketTypes` and `Options` are shared helpers.

Conventions. Sequence numbers are plain integers (the order of RFC 793, section 3.3, without wrap-around). Shifts and masks on
unsigned words are division and remainder; or-ing disjoint bits is addition. Doubles are exact reals. A lock-protected call is one
step, and so is one run of the one-second timer. Clock readings, capture times and what the event filters decide are parameters. A
function that the code realises by a loop over mutable state is accompanied by a method with that loop, proved equal to it.

Where the code does not do what its name or comment suggests, the code is modelled and the exact condition is proved:

* A varint length is received right only below 2^31 (`Receiving.DecodesExactlyBelow31Bits`).
* A segment below the first stored one, or strictly inside one that follows a gap, leaves the list out of order
  (`TcpSegments.InsertKeepsOrder`). A kept packet with SYN that starts where an island starts is trimmed to a payload length
  of -1, and that is the only way a kept payload is miscounted (`TcpSegments.RunCarries`).
* Scrubbing with a timeout of -1, meant to clear the table, moves nothing (`FlowHashTable.MinusOneScrubsNothing`).
* A response that acknowledges a request is missed when a listed request before it has a higher number, or a pending response
  before it a higher acknowledgement (`Matching.MissedExactlyWhen`). Responses are tried only when a new request was found in the
  same pass (`Matching.AnsweredExactlyWhen`), and an unanswered pair leaves the list together with a reported pair behind it
  (`Matching.LeavesExactlyWhen`).
* Without unions, merging two decoded messages differs from decoding their concatenation exactly when the earlier one has unknown
  fields or some field does not agree: a required field that the later part does not name and the earlier one sets to other than
  its default, a required sub-message not absorbed by the later one, or an empty bytes value on one side (`MergeLaw.ConcatMerges`).
* In a union the two also differ, namely exactly when the later part leaves the union alone and the earlier one sets an empty
  bytes value (`Unions.ConcatMergesUnion`).
* Merging fails exactly when a union is set in neither message, at some level (`MergeLaw.MergesExactly`); so a singular
  sub-message with an unset union decodes once but not twice (`MergeLaw.SubMessageTwiceExactly`).
* Prefix and declared length are added in 32 bits, which the reference decoder agrees with exactly up to 2^32
  (`Unpacking.TotalAgrees`).

## Model

| member | source | states |
|---|---|---|
| `Varint.EncodeVarint` | c-http-sniffer/src/server.c:27-38 | the byte loop writes the base-128 form of any 64-bit value, at most 10 bytes, and touches nothing else |
| `Varint.ValueEncode` | c-http-sniffer/src/server.c:27-38 | the base-128 form stands for its number, and only its last byte has the high bit clear |
| `Varint.EncodeAt` | c-http-sniffer/src/server.c:27-38 | octet k of the base-128 form is the 7-bit group number k, with the high bit set except on the last; there are just as many groups as the number needs |
| `Varint.Pack32` | c-http-sniffer/src/protobuf-c.c:778-804 | the unrolled 32-bit encoder writes the same bytes as the plain loop |
| `Varint.Pack64` | c-http-sniffer/src/protobuf-c.c:860-886 | the encoder split into two 32-bit halves writes the same bytes as the plain loop |
| `Varint.SplitEncode` | c-http-sniffer/src/protobuf-c.c:860-886 | the four low groups and the seam byte of the halves continue to the base-128 form of the whole |
| `Varint.PackInt32` | c-http-sniffer/src/protobuf-c.c:815-834 | a signed value is written as the varint of its 64-bit sign extension |
| `Varint.NegativeIsSignExtended` | c-http-sniffer/src/protobuf-c.c:815-834 | the ten fixed bytes of a negative value are the varint of its sign extension |
| `Varint.Size32Correct` | c-http-sniffer/src/protobuf-c.c:262-279 | the threshold ladder gives the length of the 32-bit varint |
| `Varint.Size64Correct` | c-http-sniffer/src/protobuf-c.c:348-371 | the 64-bit ladder, which falls back to the 32-bit one, gives the length of the varint |
| `Varint.SizeInt32Correct` | c-http-sniffer/src/protobuf-c.c:287-304 | the signed ladder gives the length of what is packed, ten for negatives |
| `Varint.ScanVarint` | c-http-sniffer/src/protobuf-c.c:2719-2730 | finds the first byte below 128 within ten bytes, or reports none |
| `Varint.ParseUint32` | c-http-sniffer/src/protobuf-c.c:2389-2405 | gives the number modulo 2^32, although the fifth byte is shifted unmasked |
| `Varint.ParseUint64` | c-http-sniffer/src/protobuf-c.c:2437-2455 | gives the number modulo 2^64, short inputs by way of the 32-bit parser |
| `Varint.RoundTrip` | c-http-sniffer/src/protobuf-c.c:2719-2730 | scanning and parsing a packed number, with any bytes behind it, gives it back at 64 and at 32 bits |
| `Varint.ZigZag32Bijection` | c-http-sniffer/src/protobuf-c.c:314-325 | zigzag maps the 32-bit integers one to one onto the 32-bit words: 2n for n from 0 up, -2n - 1 below |
| `Varint.ZigZag64Bijection` | c-http-sniffer/src/protobuf-c.c:379-390 | the same for 64 bits |
| `Receiving.DecodeVarint` | c-http-sniffer/src/server.c:10-23 | the receive loop computes the received value, undefined where an int shift overflows, the part so far where bytes run out |
| `Receiving.ReceivesAny` | c-http-sniffer/src/server.c:10-23 | of any bytes: up to five, ending with the first below 128 or with the input, that stand for a number below 2^31 give that number; for all others a shift overflows |
| `Receiving.DecodesExactlyBelow31Bits` | c-http-sniffer/src/server.c:10-38 | a sent varint is received back exactly when it is below 2^31, whatever follows |
| `RangeLookup.IntRangeLookup` | c-http-sniffer/src/protobuf-c.c:2025-2058 | the binary search over id ranges finds the field with a tag, and -1 exactly when there is none |
| `Packing.TagPack` | c-http-sniffer/src/protobuf-c.c:1069-1079 | writes the varint of the id shifted up by three with the wire type or-ed into the first byte |
| `Packing.PrefixedMessagePack` | c-http-sniffer/src/protobuf-c.c:1040-1052 | packing at a one-byte guess and moving leaves the true length followed by the encoded message |
| `Packing.BackPatch` | c-http-sniffer/src/protobuf-c.c:1040-1052 | moving a packed body up and writing the prefix in front equals writing both in order |
| `Packing.GuessShortByAtMostOne` | c-http-sniffer/src/protobuf-c.c:1436-1443 | a payload at most ten times the minimum needs at most one length byte more than guessed |
| `Packing.PackedBounds` | c-http-sniffer/src/protobuf-c.c:1374-1380 | a packed payload is between the minimum size and ten bytes per element, exactly the minimum for fixed widths |
| `Packing.PackedFieldPack` | c-http-sniffer/src/protobuf-c.c:1362-1445 | the guessed, patched and moved packed field is tag, length, payload; the assertion on the guess holds |
| `Packing.RequiredFieldPack` | c-http-sniffer/src/protobuf-c.c:1090-1145 | writes tag and value of every type, null strings and messages as empty ones |
| `Packing.EachFieldPack` | c-http-sniffer/src/protobuf-c.c:1446-1458 | an unpacked repeated field is its elements one after the other |
| `Packing.UnknownFieldPack` | c-http-sniffer/src/protobuf-c.c:1461-1470 | an unknown field is written with its own tag, wire type and bytes |
| `Packing.MessagePack` | c-http-sniffer/src/protobuf-c.c:1472-1523 | packs any well-typed message to its encoding, fields in order, then unknown fields, at any nesting |
| `PackBuffer.SimpleBuffer.Append` | c-http-sniffer/src/protobuf-c.c:188-216 | the doubling buffer holds what it held and the appended bytes |
| `PackBuffer.PackedFieldPack` | c-http-sniffer/src/protobuf-c.c:1910-1944 | the packed field computed length first appends the same tag, length, payload |
| `PackBuffer.MessagePack` | c-http-sniffer/src/protobuf-c.c:1961-2013 | appends the encoding of the message and counts its bytes |
| `Sizes.MessageSize` | c-http-sniffer/src/protobuf-c.c:709-755 | the size computed without packing is the length of the encoding |
| `Sizes.RepeatedFieldSize` | c-http-sniffer/src/protobuf-c.c:612-690 | the same for repeated fields, packed or not |
| `Sizes.PackThreeWays` | c-http-sniffer/src/protobuf-c.c:709-2013 | an array of the computed size is filled exactly by packing, with the bytes that the buffer gets, from any initial capacity above 0 |
| `Layout.EncodingLayout` | c-http-sniffer/src/protobuf-c.c:1472-1523 | any well-typed message is sent as members in the order of the field numbers and its unknown fields behind them: no member for an unset optional field, one for a set or required one, one for each unpacked element, one for all packed elements if there are any; tags, wire codes and octets written out for each type |
| `Layout.WireLayout` | c-http-sniffer/src/protobuf-c.c:3075-3214 | so the members that scanning finds in the octets of a conforming message are laid out like that |
| `Layout.WireNeeded` | c-http-sniffer/src/protobuf-c.c:2489-2620 | a value other than a boolean is refused under any other wire code than that of its type |
| `Encoding.LittleEndianAt` | c-http-sniffer/src/protobuf-c.c:917-955 | octet k of a fixed-width number holds its bits from 8k on |
| `RoundTrip.MessageRoundTrip` | c-http-sniffer/src/protobuf-c.c:3013-3286 | decoding the encoding of any conforming message succeeds and gives the same message, unknown fields in order |
| `RoundTrip.ScanAllEncoded` | c-http-sniffer/src/protobuf-c.c:3075-3214 | scanning encoded members gives back just those members |
| `RoundTrip.PackedRoundTrip` | c-http-sniffer/src/protobuf-c.c:2733-2858 | parsing a packed payload gives back its elements |
| `RoundTrip.ValueRoundTrip` | c-http-sniffer/src/protobuf-c.c:2489-2620 | parsing the member of one value gives it back, for every type and nesting |
| `RoundTrip.PackedAccepted` | c-http-sniffer/src/protobuf-c.c:2904-2911 | a packed member adds its elements to a repeated number, whether or not the field is declared packed |
| `RoundTrip.ElementAccepted` | c-http-sniffer/src/protobuf-c.c:2912-2916 | and so does a member with a single element |
| `RoundTrip.RequiredMissing` | c-http-sniffer/src/protobuf-c.c:3219-3249 | a message without a member for some required field that has no default is refused |
| `Reading.NumberRead` | c-http-sniffer/src/protobuf-c.c:2389-2487 | what the octets of any numeric member stand for, by type: a remainder of the varint in range of the type, a zigzag word unfolded, little-endian octets, or whether any of the seven-bit groups is not 0 |
| `Reading.PackedBools` | c-http-sniffer/src/protobuf-c.c:2733-2858 | packed booleans are accepted exactly when each octet is 0 or 1, and are those octets |
| `Reading.LastOneWins` | c-http-sniffer/src/protobuf-c.c:2489-2620 | a singular field that is no message and in no union has the value of the last member that names it, or its default, or is unset |
| `Reading.UnknownKept` | c-http-sniffer/src/protobuf-c.c:2870-2886 | the unknown fields of a decoded message are just the members whose tags no field has, in the order they came |
| `Unions.DecodedUnion` | c-http-sniffer/src/protobuf-c.c:2623-2680 | after decoding, a union member is set exactly when it is the one named last of its union, and holds the value sent then |
| `Unions.AtMostOneSet` | c-http-sniffer/src/protobuf-c.c:2623-2680 | so at most one member of a union is set |
| `Unpacking.ParseTagAndWiretype` | c-http-sniffer/src/protobuf-c.c:2066-2098 | splits the first varint of up to five bytes into tag and wire type, or reports none |
| `Unpacking.ScanLengthPrefixedData` | c-http-sniffer/src/protobuf-c.c:2108-2134 | prefix and total length, added in 32 bits; zero when the prefix is unfinished or the data too short |
| `Unpacking.TotalAgrees` | c-http-sniffer/src/protobuf-c.c:2129-2133 | that total is the reference decoder's exactly when prefix and declared length together are at most 2^32 |
| `Unpacking.WrappedTotal` | c-http-sniffer/src/protobuf-c.c:2129-2133 | five octets whose total wraps to 1 |
| `Unpacking.Slabs.Push` | c-http-sniffer/src/protobuf-c.c:3169-3186 | the doubling slabs hold the scanned members in order, and refuse exactly beyond their capacity |
| `Unpacking.CountPackedElements` | c-http-sniffer/src/protobuf-c.c:2345-2386 | the count of the first pass by element size or by terminating bytes |
| `Unpacking.CountExact` | c-http-sniffer/src/protobuf-c.c:2137-2144 | where parsing a packed payload succeeds it yields just as many elements as were counted |
| `Unpacking.SetRequired` | c-http-sniffer/src/protobuf-c.c:3006-3010 | sets the bit of one required field in the bitmap and no other |
| `Unpacking.Draft.PutOneof` | c-http-sniffer/src/protobuf-c.c:2623-2680 | storing a union member clears the one that was set |
| `Unpacking.Draft.ParsePackedRepeated` | c-http-sniffer/src/protobuf-c.c:2733-2858 | appends the parsed elements in place, never beyond the counted room |
| `Unpacking.ScanPass` | c-http-sniffer/src/protobuf-c.c:3075-3214 | where no declared length and its prefix exceed 2^32 together, the first pass collects all members in wire order, or fails only where decoding fails |
| `Unpacking.ParsePass` | c-http-sniffer/src/protobuf-c.c:3266-3279 | the second pass visits the slabs in wire order; on success every member once and every array exactly full, on failure a prefix |
| `Unpacking.Unpack` | c-http-sniffer/src/protobuf-c.c:3013-3286 | where no declared length and its prefix exceed 2^32 together, both passes decode every input, and reject it, as the reference decoder does |
| `Merging.MergeMessages` | c-http-sniffer/src/protobuf-c.c:2163-2334 | the field loop, recursive over sub-messages, computes the merge |
| `MergeLaw.MergeTotal` | c-http-sniffer/src/protobuf-c.c:2163-2334 | without unions merging always succeeds |
| `MergeLaw.MergeAssociative` | c-http-sniffer/src/protobuf-c.c:2163-2334 | without unions merging is associative |
| `MergeLaw.DecodeShaped` | c-http-sniffer/src/protobuf-c.c:3013-3286 | whatever is decoded has the shape that merging needs |
| `MergeLaw.ScanConcat` | c-http-sniffer/src/protobuf-c.c:3075-3214 | scanning a concatenation concatenates the members |
| `MergeLaw.AbsorbedExactly` | c-http-sniffer/src/protobuf-c.c:2163-2334 | without unions merging changes nothing in the later message exactly when the earlier one has no repeated elements and sets nothing optional that the later one leaves unset, at any level |
| `MergeLaw.ConcatJoins` | c-http-sniffer/src/protobuf-c.c:2588-2617 | decoding a concatenation joins the two decoded messages field by field; what the later part does not name keeps its earlier value |
| `MergeLaw.ConcatMerges` | c-http-sniffer/src/protobuf-c.c:2588-2617 | without unions, decoding a concatenation equals merging exactly when the earlier message has no unknown fields and every field agrees |
| `MergeLaw.ConcatSlotExactly` | c-http-sniffer/src/protobuf-c.c:2588-2617 | and each single field of the two is the same exactly when that field agrees |
| `MergeLaw.ConcatMergesPlainly` | c-http-sniffer/src/protobuf-c.c:2588-2617 | for scalars, strings, optional sub-messages and repeated fields: exactly when there are no earlier unknown fields and each required field is named later or has its default earlier |
| `MergeLaw.RequiredDefaultLost` | c-http-sniffer/src/protobuf-c.c:2163-2334 | a required field other than a sub-message comes out the same exactly when the later part names it or its earlier value is the default |
| `MergeLaw.RequiredOneLost` | c-http-sniffer/src/protobuf-c.c:2163-2334 | at an input: a required integer with default 0, sent as 1 and then not at all, is 1 when decoded and 0 when merged |
| `MergeLaw.MergesExactly` | c-http-sniffer/src/protobuf-c.c:2233-2252 | merging succeeds exactly when every union is set in one of the two messages, and so in all sub-messages that both set |
| `Unions.MergedUnion` | c-http-sniffer/src/protobuf-c.c:2233-2252 | merging takes a union from the later message if that sets it, else from the earlier; an empty bytes value counts as unset |
| `Unions.ConcatUnion` | c-http-sniffer/src/protobuf-c.c:2623-2680 | decoding a concatenation gives a union as the later part sets it, or else as the earlier part does |
| `Unions.ConcatMergesUnion` | c-http-sniffer/src/protobuf-c.c:2233-2252 | and merging the two gives the same, exactly unless the later part leaves the union alone and the earlier one sets an empty bytes value |
| `MergeLaw.SubMessageAgainExactly` | c-http-sniffer/src/protobuf-c.c:2588-2617 | a sub-message behind an earlier one is accepted exactly when it decodes and can be merged with it |
| `MergeLaw.SubMessageTwiceExactly` | c-http-sniffer/src/protobuf-c.c:2588-2617 | the same sub-message sent twice is accepted exactly when it is once and the field is repeated or in a union, or the sub-message has each of its unions set, at every level |
| `MergeLaw.EmptySubMessageTwice` | c-http-sniffer/src/protobuf-c.c:2588-2617 | with a union inside, the two octets of an empty sub-message decode once but not twice |
| `TcpOrder.SeqRecord.constructor` | c-http-sniffer/src/order.c:48-70 | the record of a packet starts at its number and covers its payload, and one number more for SYN or FIN; it has the flags, and the payload exactly when recognised and without FIN |
| `TcpOrder.Lane.ContSeq` | c-http-sniffer/src/tcp.c:14-20 | walks to the last record of the unbroken run |
| `TcpOrder.Lane.Insert` | c-http-sniffer/src/tcp.c:25-140 | the list code leaves exactly the records, the last-inserted record and the result of the specified insertion |
| `TcpOrder.Order.TcpOrder` | c-http-sniffer/src/tcp.c:25-140 | only the direction of the segment changes, as specified |
| `TcpOrder.Order.TcpOrderAll` | c-http-sniffer/src/tcp.c:25-140 | over a whole run, however the directions are interleaved, each list is what its own segments make of it one after the other |
| `TcpSegments.InsertKeepsOrder` | c-http-sniffer/src/tcp.c:44-138 | a call leaves the list sorted and disjoint exactly when the segment starts at or above the head and not strictly inside an island |
| `TcpSegments.InsertShape` | c-http-sniffer/src/tcp.c:73-138 | such a segment is dropped whole or added, trimmed, at the one place where it fits, and the last-inserted record is in the list |
| `TcpSegments.InsertKeepsPacket` | c-http-sniffer/src/tcp.c:73-138 | a call leaves the list alone or adds exactly one record, which has the flags of the segment and, exactly if the segment had one, its packet, with the captured bytes that belong to the numbers it kept |
| `TcpSegments.InsertCoverage` | c-http-sniffer/src/tcp.c:73-138 | no covered byte is lost, and exactly the segment's bytes below the next gap-separated record are gained |
| `TcpSegments.RefusedExactly` | c-http-sniffer/src/tcp.c:74-78 | a segment is refused exactly when all its bytes are stored and it does not start at an island |
| `TcpSegments.ResendChangesNothing` | c-http-sniffer/src/tcp.c:74-78 | re-sending stored bytes, from wherever they start, never changes what is covered |
| `TcpSegments.HintIrrelevant` | c-http-sniffer/src/tcp.c:45-72 | the short cut through the last-inserted record never changes the resulting list |
| `TcpSegments.InsertCarries` | c-http-sniffer/src/tcp.c:80-134 | after any trims every kept payload has the length of its record, one less behind a SYN, and holds the stream bytes of its record, exactly unless a SYN record starts at an island |
| `TcpSegments.FromPacketCarries` | c-http-sniffer/src/order.c:48-70 | the record made of a packet whose payload agrees with the stream agrees with it, SYN or not |
| `TcpSegments.SynAtIslandMiscounts` | c-http-sniffer/src/tcp.c:118-134 | such a SYN record of five bytes is stored empty with a length of -1 |
| `TcpSegments.RunSpellsStream` | c-http-sniffer/src/tcp.c:14-20 | an unbroken run of kept payloads, with no SYN but in front, read end to end, is a piece of the stream |
| `TcpSegments.RunKeeps` | c-http-sniffer/src/tcp.c:25-140 | over any run of welcome arrivals the list stays ordered, loses nothing and covers only what arrived |
| `TcpSegments.RunCoverage` | c-http-sniffer/src/tcp.c:25-140 | and a byte is covered exactly when some arrival held it below the next record behind a gap at that time |
| `TcpSegments.RunCarries` | c-http-sniffer/src/tcp.c:25-140 | and its payloads agree with the stream exactly when no SYN record started at an island |
| `TcpSegments.RunKeepsPackets` | c-http-sniffer/src/tcp.c:25-140 | over any run every record is what is left of one arrival, packet and flags included, and every arrival that was stored is still there |
| `TcpSegments.ArrivalOrderIrrelevant` | c-http-sniffer/src/tcp.c:25-140 | disjoint segments, the lowest first, give one sorted list in whatever order they arrive |
| `FlowQueue.Queue.Enq` | c-http-sniffer/src/queue.cpp:11-29 | what waits is what waited and the new element behind it |
| `FlowQueue.Queue.Deq` | c-http-sniffer/src/queue.cpp:31-53 | the element that waited longest leaves; none from an empty queue |
| `FlowTable.Bucket.Append` | c-http-sniffer/src/flowHashTable.cpp:30-41 | the flow is last in a well-formed doubly linked chain |
| `FlowTable.Bucket.Unlink` | c-http-sniffer/src/flowHashTable.cpp:52-71 | just that flow leaves the chain, which stays doubly linked, whether it was first, last, inner or alone |
| `FlowTable.Bucket.Find` | c-http-sniffer/src/flowHashTable.cpp:81-94 | finds a flow of the chain with the socket, or there is none |
| `FlowTable.Flow.CalPacket` | c-http-sniffer/src/flow.cpp:89-113 | counts a packet and its payload for its direction; the counters stay the sums over the packets counted |
| `FlowTable.ConnectionStaysTogether` | c-http-sniffer/src/flowHashTable.cpp:102-157 | once a packet is filed, every later one of the connection, either way, goes to the same flow with the matching direction |
| `FlowTable.RouteKeepsOneWay` | c-http-sniffer/src/flowHashTable.cpp:102-157 | filing never puts a socket beside its distinct reverse |
| `FlowHashTable.Table.Create` | c-http-sniffer/src/flowHashTable.cpp:16-46 | a new flow joins the right chain; no socket occurs twice or beside its reverse; the count stays the sum of the chain counts |
| `FlowHashTable.Table.Remove` | c-http-sniffer/src/flowHashTable.cpp:49-72 | just that flow leaves its chain, the other chains keep theirs |
| `FlowHashTable.Table.Find` | c-http-sniffer/src/flowHashTable.cpp:75-95 | looking in one bucket finds a socket exactly when it is anywhere in the table |
| `FlowHashTable.Table.Deliver` | c-http-sniffer/src/flow.cpp:195-310 | a reset before the source has sent four packets drops the flow; a later one, or a FIN, hands it to the queue; a lone SYN of the source behind others starts it anew; any other packet adds to it, and to the chain of its direction if recognised; every flow stays in exactly one place |
| `FlowHashTable.Table.AddPacket` | c-http-sniffer/src/flowHashTable.cpp:102-157 | the packet reaches the flow of its connection in the right direction, or a new flow for a request or response, or nobody; only that flow notes the time, and no other flow changes |
| `FlowHashTable.Table.FlowScrubber` | c-http-sniffer/src/flowHashTable.cpp:229-261 | every flow is looked at once, each with its own clock reading; those last active longer than the timeout before or after it, and no others, move to the queue, closed forcedly, and their number is returned; with a timeout of -1 none moves |
| `FlowHashTable.MinusOneScrubsNothing` | c-http-sniffer/src/flowHashTable.cpp:245-247 | with a timeout of -1 no flow within the clock's range is timed out |
| `FlowHashTable.UniqueIsOneWay` | c-http-sniffer/src/flowHashTable.cpp:102-157 | without repeats the sockets present are one-way and as many as the flows |
| `Demultiplexing.AddNext` | c-http-sniffer/src/flowHashTable.cpp:102-157 | filing a packet takes its own connection one step further, its flow and the flows handed on, and leaves every other connection as it was |
| `Demultiplexing.AddAll` | c-http-sniffer/src/flowHashTable.cpp:102-157 | after a whole run of packets every connection is where its own packets, in order, bring it |
| `Demultiplexing.SortPackets` | c-http-sniffer/src/flowHashTable.cpp:102-157 | from an empty table on, what the table holds and has handed on of any connection is decided by its own packets alone, and is as `Demultiplexing.RunWellKept` says |
| `Demultiplexing.TookIs` | c-http-sniffer/src/flow.cpp:195-310 | what one packet does to the flow of its connection, in flags and counts: drop, hand on, start anew or add |
| `Demultiplexing.FirstPacket` | c-http-sniffer/src/flowHashTable.cpp:124-142 | a connection without a flow gets one with a request, from its source, or a response, from its destination; any other packet is let go |
| `Demultiplexing.RunWellKept` | c-http-sniffer/src/flow.cpp:195-310 | over any run every flow handed on ends with its only FIN or RST, a RST behind at least four packets of the source; the flow still held has neither; each begins with a request of its source, a response of its destination or an opening SYN, and knows for each packet the end it came from |
| `Demultiplexing.OthersMakeNoDifference` | c-http-sniffer/src/flowHashTable.cpp:102-157 | packets of other connections, anywhere in the run, make no difference to a connection |
| `Demultiplexing.BothWays` | c-http-sniffer/src/flowHashTable.cpp:102-157 | two packets that go opposite ways on a connection reach one flow as coming from opposite ends |
| `Matching.FinIs` | c-http-sniffer/src/protocols/protocol.cpp:350-399 | the flow ends at a FIN of the source, or of the destination when that was captured earlier or is the only one |
| `Matching.UptoIs` | c-http-sniffer/src/protocols/protocol.cpp:420-495 | which records are looked at: without a FIN all, else those that were captured, with all before them, at an earlier second or microsecond |
| `Matching.CursorGives` | c-http-sniffer/src/protocols/protocol.cpp:687-788 | which response the cursor gives to a waiting pair, for any order of requests and acknowledgements: the one due to it, if no pair before it has a higher number and no pending response before that one acknowledges more; else none |
| `Matching.MissedExactlyWhen` | c-http-sniffer/src/protocols/protocol.cpp:704-710 | a waiting pair misses the response due to it exactly when an earlier request has a higher number or an earlier response a higher acknowledgement |
| `Matching.CursorFindsFirst` | c-http-sniffer/src/protocols/protocol.cpp:687-788 | with rising requests and acknowledgements one pass of the cursor gives every pair exactly the first response that acknowledges it; stopping early loses none |
| `Matching.AnsweredExactlyWhen` | c-http-sniffer/src/protocols/protocol.cpp:569-571 | for any order, a waiting pair, old or new, is answered by an extraction exactly when a new request is found and the response due to it is in reach, and by that response |
| `Matching.RequestAnswered` | c-http-sniffer/src/protocols/protocol.cpp:495-788 | in terms of the records: a request found gets the response that acknowledges the number where its payload ends, the next one for each request before it that waits for the same number, unless a request before it ends higher or a response before that one acknowledges more |
| `Matching.WaitsForNextRequest` | c-http-sniffer/src/protocols/protocol.cpp:569-571 | at an input: a response in reach stays pending when no new request comes with it |
| `Matching.OutOfOrderRequestMissed` | c-http-sniffer/src/protocols/protocol.cpp:704-710 | the first way at an input: a request listed behind a later one is passed over though a response acknowledges it |
| `Matching.FallingAckMissed` | c-http-sniffer/src/protocols/protocol.cpp:704-710 | the second way at an input: a response behind one with a higher acknowledgement finds the cursor past its request |
| `Matching.LeavesExactlyWhen` | c-http-sniffer/src/protocols/protocol.cpp:116-126 | a pair leaves the list exactly when it or one behind it was reported in full earlier and is not the last |
| `Matching.WaitingPairLeaves` | c-http-sniffer/src/protocols/protocol.cpp:116-126 | at an input: a pair that still waits leaves together with the reported one behind it |
| `Pairing.FindFin` | c-http-sniffer/src/protocols/protocol.cpp:361-369 | the walk finds the first FIN record |
| `Pairing.Flow.Arrive` | c-http-sniffer/src/flow.cpp:114-123 | a new record may come in anywhere without disturbing pairs and reports |
| `Pairing.Flow.ResetOrder` | c-http-sniffer/src/flow.cpp:13-55 | starting the connection anew drops all records and keeps pairs and reports in step |
| `Pairing.Flow.AddPair` | c-http-sniffer/src/flow.cpp:181-192 | the pair is last in the chain |
| `Pairing.Flow.ExtractRequests` | c-http-sniffer/src/protocols/protocol.cpp:495-567 | every pending request before the FIN is marked and gets one new pair, in order |
| `Pairing.Flow.MatchResponses` | c-http-sniffer/src/protocols/protocol.cpp:574-788 | the nested loops over records and linked pairs do what the specified cursor does; no response record is given to two pairs |
| `Pairing.Flow.ExtractPair` | c-http-sniffer/src/protocols/protocol.cpp:333-791 | one extraction; each request record has at most one pair, made when it was looked at |
| `Pairing.Flow.ExtractData` | c-http-sniffer/src/protocols/protocol.cpp:80-137 | after a visit every request record ever paired was reported exactly once and every response record given to a pair exactly once, although pairs were deleted |
| `PairingRuns.HandleAll` | c-http-sniffer/src/protocols/protocol.cpp:80-137 | over a whole run of arrivals, new starts, extractions and reports in any order the flow is where the specification brings it, and right after a report every request ever found, and every response given, was reported exactly once |
| `PairingRuns.RequestsReportedInOrder` | c-http-sniffer/src/protocols/protocol.cpp:80-137 | over any run the requests reported, followed by those still to be, are the requests found, in the order in which they were found |
| `PairingRuns.ReportedAll` | c-http-sniffer/src/protocols/protocol.cpp:80-137 | so right after a report they are all the requests found so far |
| `PairingRuns.RunPairsRightly` | c-http-sniffer/src/protocols/protocol.cpp:495-788 | over any run every pair is that of a request from the source, and an attached response came from the destination and acknowledges just the number where the payload of the request ends |
| `Clients.Hash.Find` | c-http-sniffer/src/hashTable.cpp:44-70 | finds the node of a value exactly when it was added |
| `Clients.Hash.Add` | c-http-sniffer/src/hashTable.cpp:109-121 | the table is the multiset of what was added: each node counts its value, the total counts the distinct values |
| `Clients.FewFrequent` | c-http-sniffer/src/metrics/client.cpp:26-33 | fewer than a hundred different clients can exceed one request in a hundred |
| `Clients.ReportedIs` | c-http-sniffer/src/metrics/client.cpp:26-33 | a reported item names its client by address, and its share times all requests is the number of requests of that client |
| `Clients.CfList.Add` | c-http-sniffer/src/cf_list.c:13-23 | stores an item unless a hundred are stored |
| `Clients.CfList.Delete` | c-http-sniffer/src/cf_list.c:25-32 | the list is empty again |
| `Clients.Client.VisitNode` | c-http-sniffer/src/metrics/client.cpp:26-33 | a frequent client is always stored: the list never is full when it comes |
| `Clients.Client.OnRequestReceived` | c-http-sniffer/src/metrics/client.cpp:38-47 | one more request of that client is counted |
| `Clients.Client.OnIntervalExpired` | c-http-sniffer/src/metrics/client.cpp:49-54 | the clients with more than one request in a hundred are reported, each once, under a name of its own, with a share that times all requests so far is its number of requests, and nobody else |
| `Clients.RunIntervals` | c-http-sniffer/src/metrics/client.cpp:38-54 | over any number of intervals each report lists just the clients with more than one in a hundred of all requests up to then, with their shares |
| `Rates.MeanBetween` | c-http-sniffer/src/metrics/metricAvg.cpp:24-27 | the mean over all events lies between the least and greatest rate of the ticks, idle ticks counted as zero |
| `Rates.RateIs` | c-http-sniffer/src/metrics/metricAvg.cpp:24-27 | the rate of a tick times its events is its hits, and 0 without events |
| `Rates.MeanIs` | c-http-sniffer/src/metrics/metricAvg.cpp:24-27 | the mean of an interval times all its events is all its hits |
| `Rates.ErrRate.OnTimerExpired` | c-http-sniffer/src/metrics/errRate.cpp:33-40 | a tick's error share bounds minimum and maximum, and the tick's counters start anew |
| `Rates.ErrRate.OnIntervalExpired` | c-http-sniffer/src/metrics/metricAvg.cpp:48-53 | the report shows the least, mean and greatest error rate of the interval's ticks, in that order, and the mean times all responses is all errors |
| `Rates.ReqRate.OnTimerExpired` | c-http-sniffer/src/metrics/reqRate.cpp:27-34 | a tick's count bounds minimum and maximum and joins the sum |
| `Rates.ReqRate.OnIntervalExpired` | c-http-sniffer/src/metrics/reqRate.cpp:15-18 | average times interval is the interval's requests; with a tick per second the average lies between minimum and maximum |
| `Rates.Analysis.OnRequest` | c-http-sniffer/src/metrics/reqRate.cpp:20-22 | a request reported between two ticks adds one to all requests so far |
| `Rates.Analysis.ProcessData` | c-http-sniffer/src/timer.c:16-34 | every report covers exactly the interval's ticks with min <= avg <= max for both metrics; the error rate times the responses is the errors, and the request averages times the interval add up to all requests so far |
| `IpText.IpSton` | c-http-sniffer/src/util.c:42-129 | the moving-pointer loops compute the parsed address, zero for malformed text |
| `IpText.NumberIs` | c-http-sniffer/src/util.c:50-90 | a part of an address is read as a hexadecimal numeral behind 0x, an octal one behind 0 and a decimal one otherwise |
| `IpText.DecimalIs` | c-http-sniffer/src/util.c:27-39 | an octet is written with one to three decimal digits, the highest first, without leading zeros |
| `IpText.NtosIs` | c-http-sniffer/src/util.c:27-39 | an address is written as its four octets, the highest first, with dots between |
| `IpText.RoundTrip` | c-http-sniffer/src/util.c:27-129 | reading what was written gives back every 32-bit address |
| `IpText.NtosInjective` | c-http-sniffer/src/util.c:27-39 | different addresses are written differently |

## Left out

Of the codec:

- Messages and fields: proto3 unlabelled fields; default pointers compared by identity; unions selected with a null pointer or with a default; service calls, lookups by name and enums.
- Memory: messages are values, not structs with field offsets; allocation failure, custom allocators, freeing, and the zeroing of the earlier message after a merge.
- Lengths: encodings of 2^31 bytes or more.
- Unpacking.ScanPass: takes a total that wrapped (`Unpacking.TotalAgrees` says when) for an error, where the source goes on with a member shorter than its prefix.
- Unpacking.Unpack: the same; what the source makes of such a member depends on memory that is not its input.
- Machine: the big-endian branches; floats and doubles are bit patterns; the error printouts.

Of the flows:

- Segments: sequence-number wrap-around, the segment counter of a flow (not every insertion counts), and payload lengths beyond their 16-bit field, where a length of -1 shows as 65535. A stored record owns its payload; that the same packet also hangs in the flow's packet chain is not captured.
- FlowHashTable.Table.Deliver: does not model the ordering lists of a flow, which `TcpOrder` and `Pairing` treat on their own, nor the time of its SYN; packet chains are sequences; counters do not wrap at 32 bits; the flow's memory after its deletion.
- FlowTable: clearing and resetting the table at the end, slot statistics, locks and printing.
- Pairing.Flow.ExtractPair: the segment lists are sequences here, not linked records; first and last byte times, total and body lengths and the lists of capture times in a pair are not modelled.
- Pairing.Flow.ExtractData: which flows the address and port filters let through is a parameter, and the events for new and updated flows are not modelled.

Of the numbers:

- Clients.Hash: chains are sequences (the doubly linked chain code is the one modelled for the flow table); removal and clearing, which the metric does not use while it counts.
- Rates.ErrRate.OnIntervalExpired: the order min <= avg <= max is stated for intervals that end right after a tick, as the timer makes them; responses that another thread reports between the last tick and the report would fall outside every tick.
- Rates: rounding of doubles, and counts beyond the range of an int; the throughput, connection, status and method metrics.
- IpText: text beyond ASCII.

Also left out: packet capture, sockets, threads and signals, the keyword tables of HTTP, memcached and MySQL, and the programs in other languages.
