# Verified model of pymaid

pymaid is an asynchronous RPC framework for Python with a JavaScript client. This project models
the parts of it in which the most can go wrong, and proves what they do for all inputs and all runs.

- **Consistent hashing** (`HashManager`, `HashRing`, `Maglev`, `Primes`, `Sorting`): the registry of
  nodes, the ring of virtual points and the Maglev table. The hash functions are arbitrary.
- **The byte path** (`Streams`, `Framing`, `Handlers`, `ParallelHandlers`, `Connections`): buffered
  writing with partial sends, the states of closing, packets cut out of arbitrary chunks, and the
  handlers that run one task after the other, or some at a time in a pool. Every callback of the
  event loop, and every piece of code between two awaits, is one step, and to wake or cancel who awaits
  is another step than his going on; what the socket and the tasks do is an input of the step. `Connections` joins
  two ends by a reliable pipe of bytes and shows that the tasks started are always for a front part
  of the messages sent.
- **The wire codec of the JavaScript client** (`UInt64`, `Decimal`, `DecimalString`, `Varints`,
  `Utf8`, `Binary`, `Message`, `Writer`, `Reader`, `Packet`): 64-bit arithmetic on 32-bit halves,
  varints and zigzag, strings, back-patched submessages, and the packet around the `Context`
  message. Bit operations on 32-bit numbers are written as arithmetic modulo 2^32. The format is
  that of Protocol Buffers Encoding, "Base 128 Varints", "Signed Integers" and "Length-Delimited
  Records".
- **Resources and life cycles** (`Pools`, `Channels`, `Servers`, `Contexts`): permits of the worker pool,
  limits and closing of a listening channel, alone and with its connections, numbers and tables of open calls.
- **Masking** (`Mask`): the block-wise loops of the WebSocket extension (section 5.3 of RFC 6455).

State that the sources change in place is a class here, with the fields of the source and ghost
fields for its history. The state machines exist twice: as functions on a datatype, about which the
properties of whole runs are proved, and as methods whose contracts say that they take the same
steps. `dafny verify dfyconfig.toml` checks everything.

## What the proofs brought to light

Some promises hold only under conditions. Each is stated with its exact condition or with the family of
inputs that breaks it.

- A string survives the wire exactly if no high surrogate stands before a unit other than a low one:
  such a surrogate is dropped (`Utf8.StringSurvivesIffPaired`).
- `getResultBuffer` leaves `totalLength_` too small unless the encoder was empty
  (`Writer.BinaryWriter.GetResultBuffer`).
- With more than 997 entries asked for, some Maglev node gets fewer than it asked for
  (`Maglev.EveryNodeGetsItsEntriesIff`).
- Disabling and enabling a ring node moves keys if virtual points are shared
  (`HashRing.ReenablingRestoresRoutesIffNoSharedPoint`).
- The end of input closes a stream even if `eof_received` asks to keep it, against the comment in
  `pymaid/net/stream.py:183-184`: the condition asks for a state that cannot occur while reading. The tasks
  that wait are dropped, at once if there is nothing left to write
  (`Connections.EndOfInputDropsWaitingTasks`), else as soon as the buffer has drained in good order
  (`Connections.WaitingTasksSurviveDrainIff`); they can all run only if the handler is faster than that
  (`Connections.WaitingTasksCanStartIff`).
- An oversize packet takes the messages before it in the same chunk with it (`Framing.OversizeLosesItsChunk`).
- An empty write to a busy socket leaves a writer without data (`Streams.IdleWriterStaysIff`); after a shutdown
  with data in the buffer only an error or force brings the final close (`Streams.ShutdownStrandsData`); a bare
  transport that is closed again is in CLOSING for good (`Streams.StaysClosedIffNotClosedAgain`); who
  waits for the buffer to drain is forgotten if the transport fails meanwhile (`Streams.WaiterIsLeftIff`), or
  if he begins to wait before the last waiter has gone on (`Streams.OverlappingWaiterIsForgotten`).
- If the buffer of a closing transport drains just after its waiter has been cancelled, the final close does not
  come (`Streams.DrainClosesIff`), until there is force, an error or another write (`Streams.StuckClosesIff`).
- Closing a channel strands the unsent data of its connections, and those keep it from being finally closed
  (`Servers.CanCloseInOrderIff`).
- A spawner cancelled while it waits keeps the pool from ever being empty again (`Pools.BecomesEmptyIff`).
  Closing a parallel handler does that if its loop waits for a permit (`ParallelHandlers.CancelStrandsJoinersIff`).
- A paused channel is started by any lost connection, and a pause while closing undoes the closing (`Channels`).
- The comment at `pymaid/rpc/context.py:214-215` has the parities the wrong way round; the code gives odd
  numbers to the initiative end. Only the passive end checks the numbers it receives
  (`Contexts.EarlyNumberIsOverwritten`).

## Model

| member | source | states |
|---|---|---|
| Primes.TableHoldsPrimes | pymaid/utils/hash.py:5-17 | every number in the table of table sizes is a prime: no number from 2 up divides it but itself |
| Primes.TableHoldsNoProduct | pymaid/utils/hash.py:5-17 | no number of the table has a divisor from 2 to itself less one |
| Primes.TableAscends | pymaid/utils/hash.py:5-17 | the table is ascending, so that it can be searched by bisection, has 168 entries and ends in 997 |
| HashManager.HashManager.IndexOf | pymaid/utils/hash.py:32-35 | list search by node equality, that is by hashed key: the first such position, or the length if there is none |
| HashManager.HashManager.AddNode | pymaid/utils/hash.py:52-59 | a key that is registered changes nothing; otherwise the node is registered and, if enabled, appended to the active nodes; the active nodes stay exactly the registered enabled ones, each once |
| HashManager.HashManager.RemoveNode | pymaid/utils/hash.py:70-77 | the key is no longer registered and its node is no longer active; the order of the others stays |
| HashManager.HashManager.EnableNode | pymaid/utils/hash.py:79-86 | a disabled registered node is enabled and becomes the last active one; a rehash is due exactly then |
| HashManager.HashManager.DisableNode | pymaid/utils/hash.py:88-95 | the registered node is disabled and leaves the active nodes; a rehash is due exactly if it was active |
| HashManager.WithoutStaysDistinct | pymaid/utils/hash.py:70-77 | taking a node from the active ones leaves each other node listed once and that one not at all |
| HashManager.CallsInParts | pymaid/utils/hash.py:52-99 | what is specified for a sequence of calls is one call after the other |
| HashRing.RouteIsUnique | pymaid/utils/hash.py:151-158 | the definition of the route of a key (least virtual point strictly above the hash, wrapping to the smallest, owned by the first listed node that has this point) gives one node at most |
| HashRing.RemovalMovesOnlyItsOwnKeys | pymaid/utils/hash.py:70-95 | taking a node out leaves the route of every hash the node did not own, also when virtual points collide |
| HashRing.AdditionMovesKeysOnlyToTheNewNode | pymaid/utils/hash.py:52-86 | appending a node moves a route to that node or not at all, also when virtual points collide |
| HashRing.ReenablingRestoresRoutesIffNoSharedPoint | pymaid/utils/hash.py:79-95 | disabling a node and enabling it again, which moves it to the end, gives a hash its old route exactly unless the node owned the point and another active node has it too |
| HashRing.HashRing.Rehash | pymaid/utils/hash.py:132-149 | the table and the sorted keys become those of the active nodes: each virtual point with its owner, in ascending order |
| HashRing.HashRing.IndexedPoints | pymaid/utils/hash.py:143-149 | p is in the index exactly if some active node has a number from 0 to weight - 1 whose text, key, dash and number, is hashed to p |
| HashRing.HashRing.IndexedNode | pymaid/utils/hash.py:143-148 | and it is there with the first node of the list that has such a number |
| HashRing.HashRing.PointsAreIndexed | pymaid/utils/hash.py:143-149 | every number of every active node has its point among the sorted keys |
| HashRing.HashRing.GetNode | pymaid/utils/hash.py:151-158 | the answer is the node in the index at the least point strictly above the hash of the key, or at the least of all; nothing without nodes, and an index error exactly if all active nodes have a weight below 1 |
| HashRing.HashRing.AddNode | pymaid/utils/hash.py:52-59 | a new key is registered, its node appended to the active ones if it is enabled, and the index rebuilt; a known key changes nothing; every hash that does not go to the new node goes where it went before |
| HashRing.HashRing.RemoveNode | pymaid/utils/hash.py:70-77 | the key is gone and so is its node from the active ones; every hash that did not go to it goes where it went before |
| HashRing.HashRing.EnableNode | pymaid/utils/hash.py:79-86 | a disabled node becomes the last active one; every hash that does not go to it goes where it went before |
| HashRing.HashRing.DisableNode | pymaid/utils/hash.py:88-95 | the node leaves the active ones; every hash that did not go to it goes where it went before |
| HashRing.HashRing.ApplyAll | pymaid/utils/hash.py:52-99 | any sequence of add, remove, enable, disable and reset leaves the registry, the order of the active nodes and who is enabled as specified call by call, and the index right for them |
| Maglev.StepsDoNotRepeat | pymaid/utils/hash.py:196-203 | for a prime size and a skip from 1 to size - 1 no two steps of a preference list meet the same slot |
| Maglev.PreferenceIsPermutation | pymaid/utils/hash.py:196-203 | so every preference list is a permutation of all slots |
| Maglev.Fill | pymaid/utils/hash.py:204-216 | taking turns, each node claiming its next free preferred slot, ends, and leaves a table of node indices without a free slot |
| Maglev.FillIsFair | pymaid/utils/hash.py:204-216 | from any stage at which the nodes have had their turns, the shares in the end are those of dealing out all slots in turn |
| Maglev.FullTableIsBalanced | pymaid/utils/hash.py:204-216 | each node has the size of the table divided by the number of nodes as entries, the first nodes one more for the remainder: two nodes differ by one at most |
| Maglev.EveryNodeGetsItsEntriesIff | pymaid/utils/hash.py:189-191 | each node gets the entries it asks for exactly when all together ask for 997 or fewer, the largest size there is |
| Maglev.TableSize | pymaid/utils/hash.py:189-191 | bisection finds the least prime of the table above the number wanted, or the last |
| Maglev.Advance | pymaid/utils/hash.py:208-213 | the bare search loop ends within the preference list, at its first slot that is free |
| Maglev.Turn | pymaid/utils/hash.py:206-216 | one turn of one node keeps what the loops rely on: the table so far can still be completed to the same full table |
| Maglev.Populate | pymaid/utils/hash.py:204-216 | the nested loops end with the table of the definition, no index beyond a preference list |
| Maglev.MaglevHash.Rehash | pymaid/utils/hash.py:181-216 | for any hash, nodes and entry count the lookup table becomes the filled table of the active nodes, or empty without nodes; its size is the least listed prime above the number wanted, or the last |
| Maglev.FillIsTurnTaking | pymaid/utils/hash.py:204-216 | there is an order of the slots in which the slot claimed at each turn is the first one of the list of the node in turn that does not come earlier |
| Maglev.MaglevHash.SlotOfTurn | pymaid/utils/hash.py:192-216 | slot by slot, with the list of a node written out from the two salted hashes of its key |
| Maglev.MaglevHash.ShareOfNode | pymaid/utils/hash.py:204-216 | the share of each node as a quotient and a remainder |
| Maglev.MaglevHash.PopulatedIsBalanced | pymaid/utils/hash.py:181-216 | then every entry is a valid node index, the shares are balanced, and every node has the entries it asks for exactly when 997 suffice |
| Maglev.MaglevHash.GetNode | pymaid/utils/hash.py:218-222 | the node in the slot of the hash of the salted key, within the table and the node list; nothing exactly without nodes |
| Maglev.MaglevHash.AddNode | pymaid/utils/hash.py:52-59 | a new key is registered, its node appended if it is enabled, and the table filled again; a known key changes nothing |
| Maglev.MaglevHash.RemoveNode | pymaid/utils/hash.py:70-77 | the node is gone from the registry and the list, and the table is filled again for the others |
| Maglev.MaglevHash.EnableNode | pymaid/utils/hash.py:79-86 | a disabled node is appended and the table filled again |
| Maglev.MaglevHash.DisableNode | pymaid/utils/hash.py:88-95 | the node leaves the list and the table is filled again for the others |
| Maglev.MaglevHash.ApplyAll | pymaid/utils/hash.py:52-99 | any sequence of add, remove, enable, disable and reset leaves the registry, the order of the active nodes and who is enabled as specified call by call, and the table right for them |
| UInt64.UInt64.Add | plugin/js/pb/google-protobuf.js:371-376 | addition of 32-bit halves with carry is addition modulo 2^64 |
| UInt64.UInt64.Sub | plugin/js/pb/google-protobuf.js:371-376 | subtraction of 32-bit halves with borrow is subtraction modulo 2^64 |
| UInt64.UInt64.Div | plugin/js/pb/google-protobuf.js:371-376 | shift-and-subtract division ends for every non-zero divisor with value = quotient * divisor + remainder and remainder < divisor; division by zero is the failure |
| UInt64.UInt64.Mul | plugin/js/pb/google-protobuf.js:371-376 | multiplication by a 32-bit number is multiplication modulo 2^64 |
| UInt64.Mul32x32 | plugin/js/pb/google-protobuf.js:371-376 | the product from four 16-bit products is the exact 64-bit product |
| UInt64.UInt64.ToString | plugin/js/pb/google-protobuf.js:371-376 | the digits produced by repeated division are the decimal digits of the value, without leading zeros |
| UInt64.StringRoundTrip | plugin/js/pb/google-protobuf.js:371-376 | reading back the printed text of any 64-bit number gives the number |
| Decimal.DecimalRoundTrip | plugin/js/pb/google-protobuf.js:371-376 | the decimal digits of a number are digits and read as that number |
| Decimal.LastDigit | plugin/js/pb/google-protobuf.js:371-376 | the last digit is that of the remainder by ten, the digits before it are those of the quotient |
| Decimal.PaddingIsFixedWidth | plugin/js/pb/google-protobuf.js:340 | padding with zeros to a fixed width keeps the digits and adds zeros in front only |
| DecimalString.RawDigits | plugin/js/pb/google-protobuf.js:340 | the three digits to the base 10^7, with the constants for 2^24 and 2^48, stand for the 64-bit value |
| DecimalString.Carry | plugin/js/pb/google-protobuf.js:340 | carrying keeps the value and makes the lower digits smaller than 10^7 |
| DecimalString.JoinUnsignedIsDecimal | plugin/js/pb/google-protobuf.js:340 | the text joined from the digits is the decimal text of the value: no wrong padding, no leading zeros |
| DecimalString.JoinSignedIsDecimal | plugin/js/pb/google-protobuf.js:341 | the signed text is that of the two-complement value |
| DecimalString.Int64ToString | plugin/js/pb/google-protobuf.js:376-377 | the text of a signed 64-bit number is its decimal text |
| DecimalString.Int64FromString | plugin/js/pb/google-protobuf.js:376-377 | reading succeeds exactly on digits with an optional sign, and gives their number modulo 2^64 |
| DecimalString.SignedRoundTrip | plugin/js/pb/google-protobuf.js:376-377 | reading back the printed text of any signed 64-bit number gives the number |
| Varints.VarintParses | plugin/js/pb/google-protobuf.js:352-354 | a number in groups of seven bits is found again whatever follows, and exactly its bytes are taken (Protocol Buffers Encoding, "Base 128 Varints") |
| Varints.VarintLengths | plugin/js/pb/google-protobuf.js:352-355 | 32-bit numbers take 5 bytes at most, 64-bit numbers 10 |
| Varints.VarintBytes | plugin/js/pb/google-protobuf.js:352-354 | byte i carries digit i to the base 128, and its top bit says whether more follow |
| Varints.KnownNumbers | plugin/js/pb/google-protobuf.js:352-361 | the bytes of some numbers, written out |
| Varints.Zigzag32RoundTrip | plugin/js/pb/google-protobuf.js:358 | 32-bit zigzag decoding undoes encoding |
| Varints.DecodeZigzag32 | plugin/js/pb/google-protobuf.js:445 | and encoding undoes decoding (Protocol Buffers Encoding, "Signed Integers") |
| Varints.ToZigzag64 | plugin/js/pb/google-protobuf.js:337 | zigzag on 32-bit halves is 2n or -2n - 1 of the signed value |
| Varints.FromZigzag64 | plugin/js/pb/google-protobuf.js:337 | zigzag decoding on 32-bit halves has the signed value the encoding stands for |
| Varints.Zigzag64RoundTrips | plugin/js/pb/google-protobuf.js:337 | 64-bit zigzag encoding and decoding undo each other |
| Varints.ZigzagRoutesAgree | plugin/js/pb/google-protobuf.js:331-337 | splitting a signed number directly into zigzag halves gives what encoding its two-complement halves gives |
| Binary.BinaryEncoder.WriteSplitVarint64 | plugin/js/pb/google-protobuf.js:352 | two 32-bit halves are written as the varint of the 64-bit value |
| Binary.BinaryEncoder.WriteUnsignedVarint32 | plugin/js/pb/google-protobuf.js:354 | an unsigned 32-bit number is written as its varint |
| Binary.BinaryEncoder.WriteSignedVarint32 | plugin/js/pb/google-protobuf.js:355 | a signed 32-bit number is written as the varint of its 64-bit two-complement, ten bytes if it is negative |
| Binary.BinaryEncoder.WriteUint32 | plugin/js/pb/google-protobuf.js:361 | four bytes, lowest first |
| Binary.BinaryEncoder.WriteString | plugin/js/pb/google-protobuf.js:370 | UTF-16 units are written as UTF-8 |
| Binary.BinaryDecoder.ReadSplitVarint64 | plugin/js/pb/google-protobuf.js:440 | reads the varint at the cursor into two halves and takes exactly its bytes; fails exactly if there is none of ten bytes or fewer |
| Binary.BinaryDecoder.ReadUnsignedVarint32 | plugin/js/pb/google-protobuf.js:443-444 | reads the varint at the cursor and keeps 32 bits as the code does; fails exactly if there is none of ten bytes or fewer before the end |
| Binary.BinaryDecoder.ReadUint32 | plugin/js/pb/google-protobuf.js:448 | the four bytes read are those of the number; fails exactly if they reach beyond the end |
| Binary.BinaryDecoder.ReadBytes | plugin/js/pb/google-protobuf.js:454 | a copy of the bytes; fails exactly if they reach beyond the end |
| Binary.BinaryDecoder.ReadString | plugin/js/pb/google-protobuf.js:453-454 | decodes the bytes up to the given length into UTF-16 units |
| Binary.WrittenVarintIsFound | plugin/js/pb/google-protobuf.js:440-444 | a varint of a 64-bit number is found where it has been written and takes ten bytes at most |
| Binary.NarrowingIsExact | plugin/js/pb/google-protobuf.js:443-444 | a 32-bit number survives the narrowing of the 32-bit reader, also a negative one in its ten-byte form |
| Binary.NarrowIsLow32Bits | plugin/js/pb/google-protobuf.js:443-444 | the 32-bit reader keeps the low 32 bits, unsigned for five bytes at most and signed otherwise |
| Utf8.DecodeEncode | plugin/js/pb/google-protobuf.js:370 | decoding what has been encoded (section 3 of RFC 3629) gives the string without the high surrogates that stand before something other than a low one |
| Utf8.KeptIffPaired | plugin/js/pb/google-protobuf.js:370 | nothing is dropped exactly if no high surrogate is followed by a unit that is not a low one |
| Utf8.StringSurvivesIffPaired | plugin/js/pb/google-protobuf.js:453-454 | a string comes back exactly under that condition |
| Utf8.DecodedCharacter | plugin/js/pb/google-protobuf.js:453-454 | what reading makes of any bytes, well-formed or not: which are passed over, and what the others give |
| Utf8.EncodedUnit | plugin/js/pb/google-protobuf.js:370 | one to three bytes for a unit that is no surrogate, by the table of section 3 of RFC 3629 |
| Utf8.EncodedPair | plugin/js/pb/google-protobuf.js:370 | four bytes for a pair of surrogates, by the same table |
| Utf8.EncodedInFront | plugin/js/pb/google-protobuf.js:370 | units that are no surrogates are encoded one by one |
| Writer.Block.ReplaceNote | plugin/js/pb/google-protobuf.js:379 | the number noted at the end of a block is replaced by the varint of how far the total is beyond it, and the bytes are counted |
| Writer.BinaryWriter.BeginDelimited | plugin/js/pb/google-protobuf.js:379 | the tag is written and the bytes so far become the open submessage; the returned bookmark is the block, aliased, that ends in the note |
| Writer.BinaryWriter.EndDelimited | plugin/js/pb/google-protobuf.js:379 | the length put in front equals the number of bytes written since, and the submessage is appended to what surrounds it; the invariant says totalLength_ is the length of all blocks |
| Writer.BinaryWriter.AppendUint8Array | plugin/js/pb/google-protobuf.js:378 | the bytes are appended after what the encoder holds |
| Writer.BinaryWriter.WriteEnum | plugin/js/pb/google-protobuf.js:397 | tag and ten-byte form of a signed number |
| Writer.BinaryWriter.WriteUint32 | plugin/js/pb/google-protobuf.js:390 | tag and varint |
| Writer.BinaryWriter.WriteString | plugin/js/pb/google-protobuf.js:398 | tag, length of the UTF-8 form, and that form, back-patched |
| Writer.BinaryWriter.WriteBytes | plugin/js/pb/google-protobuf.js:398 | tag, length, bytes |
| Writer.BinaryWriter.WriteSplitVarint64 | plugin/js/pb/google-protobuf.js:402 | tag and varint of the 64-bit value |
| Writer.BinaryWriter.WriteFixed32 | plugin/js/pb/google-protobuf.js:393 | tag and four bytes |
| Writer.BinaryWriter.WriteSplitFixed64 | plugin/js/pb/google-protobuf.js:401 | tag and eight bytes |
| Writer.BinaryWriter.WriteMessage | plugin/js/pb/google-protobuf.js:398 | a submessage of any depth is written as tag, length and encoding of its fields |
| Writer.BinaryWriter.WriteFields | plugin/js/pb/google-protobuf.js:378-402 | any tree of fields is written as its encoding, whatever submessages are open around it |
| Writer.BinaryWriter.GetResultBuffer | plugin/js/pb/google-protobuf.js:381 | the result is all that was written and replaces the blocks; totalLength_ is the length of the result, and the writer can be used on, exactly if nothing was left in the encoder |
| Reader.BinaryReader.NextField | plugin/js/pb/google-protobuf.js:461 | number and wire type of the first field are read and its payload is next; false exactly at the end |
| Reader.BinaryReader.SkipField | plugin/js/pb/google-protobuf.js:463-466 | skips exactly the payload of a field of any kind but a group |
| Reader.SkippedIsRight | plugin/js/pb/google-protobuf.js:463-466 | where skipping has to stop is where the payload ends |
| Reader.BinaryReader.SkipVarint | plugin/js/pb/google-protobuf.js:441 | skipping a varint takes as many bytes as reading it |
| Reader.BinaryReader.ReadMessage | plugin/js/pb/google-protobuf.js:470 | a submessage is read within its own end, and reading goes on behind it within the old end |
| Reader.BinaryReader.ReadFields | plugin/js/pb/google-protobuf.js:461-470 | a reading loop for any schema recovers from the encoding the tree of fields, less those unknown to the schema at any depth |
| Packet.TreeRoundTrip | plugin/js/pb/google-protobuf.js:378-382 | writing any tree of fields with nested submessages and reading it with a schema it conforms to gives the tree less unknown fields, and the same tree exactly if the schema knows every number |
| Message.AllIsKnownIff | plugin/js/pb/google-protobuf.js:461-470 | nothing is missing from what a reader recovers exactly if its schema knows the number of every field, at every depth |
| Message.TagOfField | plugin/js/pb/google-protobuf.js:382 | a field begins with eight times its number plus the number of its kind |
| Message.KnownMessages | plugin/js/pb/google-protobuf.js:378-402 | the bytes of one field of each kind, written out |
| Message.KnownConcat | plugin/js/pb/google-protobuf.js:461-470 | what a reader keeps of some fields does not depend on the others |
| Message.KnownOfOne | plugin/js/pb/google-protobuf.js:461-470 | a field with an unknown number is dropped, a submessage is kept without what its own schema does not know |
| Packet.SerializeToWriter | plugin/js/pb/pymaid_pb.js:287-338 | the seven fields are written in order, those with default values left out |
| Packet.FieldsAreNumbered | plugin/js/pb/pymaid_pb.js:287-338 | the seven fields by number, kind and value, each there exactly if it is not the default |
| Packet.SetterOfNumber | plugin/js/pb/pymaid_pb.js:225-266 | what the field of each number sets; all other numbers are ignored |
| Packet.FieldsCarryTheContext | plugin/js/pb/pymaid_pb.js:225-338 | applying the written fields to an empty context gives the context back, defaults included, but for unpaired high surrogates in the method name |
| Packet.ReadContextField | plugin/js/pb/pymaid_pb.js:225-266 | a field is applied by its setter, an unknown one skipped, and the rest of the buffer is next |
| Packet.ReadEnum | plugin/js/pb/google-protobuf.js:452 | an enum written as 64-bit varint comes back with its sign |
| Packet.JoinInt64 | plugin/js/pb/google-protobuf.js:337 | negating halves and then joining gives the signed value |
| Packet.DecodeInPlace | plugin/js/pb/google-protobuf.js:453-454 | a text whose characters are complete is decoded the same inside a larger buffer |
| Packet.Deserialize | plugin/js/pb/pymaid_pb.js:225-266 | for any encoded fields of the right kinds the result is the last value of each, unknown fields ignored |
| Packet.Pack | plugin/js/pymaid.js:148-161 | two sizes, high byte first, then the context, then the content |
| Packet.SplitBySizes | plugin/js/pymaid.js:163-173 | for any buffer the parts have the sizes in its header, cut off where the buffer ends |
| Packet.PartsComeBackIff | plugin/js/pymaid.js:148-173 | splitting a packet gives both parts back exactly when both are shorter than 65536 bytes |
| Packet.PacketRoundTrip | plugin/js/pymaid.js:145-173 | packing and unpacking gives the content and all seven fields back, and the method name exactly if its high surrogates are paired |
| Mask.ApplyMask | pymaid/net/ws/speedups.c:67-175 | fails exactly for a mask that has not 4 bytes; otherwise the output is the bytewise definition for every length, on the wide and on the narrow path |
| Mask.MaskedByte | pymaid/net/ws/speedups.c:168-173 | the definition: every byte is combined with the byte of the mask at its index modulo 4 |
| Mask.WideBlocks | pymaid/net/ws/speedups.c:133-150 | the 16-byte blocks do what the definition says, as far as whole blocks go |
| Mask.NarrowBlocks | pymaid/net/ws/speedups.c:152-166 | the 8-byte blocks do what the definition says, as far as whole blocks go |
| Mask.Block128 | pymaid/net/ws/speedups.c:142-149 | one 128-bit exclusive or with the repeated mask is the definition on 16 bytes |
| Mask.Block64 | pymaid/net/ws/speedups.c:159-165 | one 64-bit exclusive or with the doubled mask is the definition on 8 bytes |
| Mask.MaskingTwiceGivesTheInput | pymaid/net/ws/speedups.c:168-173 | masking twice gives the input (section 5.3 of RFC 6455) |
| Mask.MaskingInParts | pymaid/net/ws/speedups.c:168-173 | a payload masked in parts, the mask turned by the length of the part before, is the payload masked at once |
| Mask.MaskingIsInjective | pymaid/net/ws/speedups.c:168-173 | different inputs have different outputs under one mask |
| Streams.StepIsSafeIffCareful | pymaid/net/stream.py:57-219 | each call and callback keeps the invariant (bytes conserved, writer registered exactly with data to send, reader exactly while open, CLOSING only with data, a waiter only with data or after a failure, one final close) exactly if it is not an empty write to a busy socket, a shutdown with data in the buffer, a close of a closed transport, a new waiter before the last one has gone on, or a drain in CLOSING under a waiter that is cancelled and has not gone on |
| Streams.EveryRunIsRegular | pymaid/net/transport.py:100-144 | in every run of careful callers the invariant holds, or what is left of it once such a drain has happened: bytes are conserved either way; accepted and written bytes only grow, and after the final close nothing more is accepted |
| Streams.RunIsSafeIffNothingJams | pymaid/net/stream.py:199-219 | a run of careful callers ends with the full invariant exactly if none of its steps is a drain in CLOSING under a cancelled waiter |
| Streams.OrderlyCloseDeliversEverything | pymaid/net/transport.py:100-144 | a transport that ends closed without having been forced has had everything written accepted by the socket, but for its buffer after such a drain |
| Streams.ClosesIff | pymaid/net/transport.py:100-144 | which event closes: a failure at once; the end of input or a close call at once only with an empty buffer; the draining of the buffer while closing, unless a waiter is cancelled then and has not gone on; nothing else |
| Streams.AcceptedIsWhatWasTaken | pymaid/net/stream.py:57-219 | as many bytes count as accepted as the socket has said it took |
| Streams.WrittenIsWhatWasGiven | pymaid/net/stream.py:57-89 | what counts as written is what callers gave, in order |
| Streams.AnswerTells | pymaid/net/stream.py:57-89 | the answer of a write says whether everything is out, something is kept, the transport broke, or it has no socket |
| Streams.SocketMayTakeAnything | pymaid/net/stream.py:66-89 | the runs of this model have every number of bytes a socket can take, at a write and at a drain |
| Streams.EndOfInputAlwaysCloses | pymaid/net/stream.py:180-189 | the end of input closes the transport whatever `eof_received` answers |
| Streams.KeptOnlyIfNotOpen | pymaid/net/stream.py:180-189 | only a transport that is not open would be kept at the end of input, and lose no more than its reader |
| Streams.WriteSchedulesACloseIff | pymaid/net/stream.py:77-81 | a write schedules the final close exactly if it goes out whole in CLOSING with an empty buffer, which needs a drain under a cancelled waiter before |
| Streams.DrainClosesIff | pymaid/net/stream.py:210-219 | the drain of a closing transport is its final close exactly if no waiter is cancelled and has still to go on; else it is in CLOSING with nothing to send and no callback left |
| Streams.StuckUntilRescued | pymaid/net/transport.py:100-111 | in no run does a transport leave that state, or is finally closed, without a forced close or a write other than an empty one to a busy socket; closing it again does not help |
| Streams.StuckClosesIff | pymaid/net/stream.py:66-89 | with one more event, and none of these after it, it can come to its final close exactly if the event is one of these |
| Streams.TwoWritesCloseTwice | pymaid/net/stream.py:77-81 | two writes that go out whole in that state are two final closes |
| Streams.EmptyWriteLeavesAWriter | pymaid/net/stream.py:66-89 | a write leaves a writer registered without data exactly if it is an empty write to a busy socket with an empty buffer |
| Streams.IdleWriterStaysIff | pymaid/net/stream.py:199-219 | such a writer does nothing when called, and stays until something is left over from a write, or the transport fails, is shut down or closes |
| Streams.IdleWriterIsRemovedIff | pymaid/net/transport.py:100-132 | a close removes such a writer, a forced close leaves it registered |
| Streams.ShutdownStrandsData | pymaid/net/transport.py:96-98 | after a shutdown of an open or closing transport with data in the buffer none of that data is ever sent, whatever callers do, and the final close comes exactly if there is an error of the reading side or a forced close |
| Streams.StaysClosedIffNotClosedAgain | pymaid/net/transport.py:100-111 | in every run from a final close, careful or not, a bare transport stays closed exactly if close is not called again, else it is in CLOSING for good |
| Streams.ForcedCloseStrandsTheWaiter | pymaid/net/transport.py:123-132 | after a forced close who waited for the buffer to drain is not woken in any run, but by his own cancellation |
| Streams.WaiterIsLeftIff | pymaid/net/stream.py:106-133 | a transport without its socket still has a waiter exactly if the socket was taken away by a failure or a scheduled close while he waited and he has not been cancelled since |
| Streams.WaitingEndsIff | pymaid/net/stream.py:106-133 | waiting for the buffer ends when the buffer has drained or by a cancellation, and by nothing else; the waiter then has still to go on |
| Streams.WaiterIsWoken | pymaid/net/stream.py:106-133 | with data and a socket somebody comes to wait, a second one is refused, and the drain wakes the first |
| Streams.CancelledWaiterJams | pymaid/net/stream.py:199-219 | cancelling who waits makes the drain of a closing transport jam, unless he has gone on by then |
| Streams.WaiterChangesIff | pymaid/net/stream.py:106-133 | which events begin, cancel and end a wait |
| Streams.EachWaiterGoesOn | pymaid/net/stream.py:106-133 | who is woken or cancelled has still to go on, and does that once |
| Streams.OverlappingWaiterIsForgotten | pymaid/net/stream.py:106-133 | who begins to wait before the last waiter has gone on is forgotten when that one does, and only he |
| Streams.Stream.WriteSync | pymaid/net/stream.py:57-89 | the method does the write step, and its answer says whether everything went out |
| Streams.Stream.WaitForWriteAll | pymaid/net/stream.py:106-127 | nothing to wait for without data; refused while there is another waiter or without a loop; else somebody waits afterwards |
| Streams.Stream.OnWritable | pymaid/net/stream.py:199-219 | the method does the step of the writer callback, with the exception for a cancelled waiter that comes before the final close |
| Streams.Stream.OnReadable | pymaid/net/stream.py:167-197 | the method does the step of the reader callback |
| Streams.Stream.Close | pymaid/net/transport.py:100-111 | the method does the close step |
| Streams.Stream.ForceClose | pymaid/net/transport.py:123-132 | the method does the forced close step |
| Framing.FeedData | pymaid/rpc/pb/protocol.py:26-43 | the loop finds what the definition of greedy parsing finds |
| Framing.FrameIsDecoded | pymaid/rpc/pb/protocol.py:45-75 | an encoded packet at the front is found whatever follows, or refused exactly if it is oversize |
| Framing.FrameLayout | pymaid/rpc/pb/protocol.py:45-51 | the header byte by byte, high bytes first, then the meta message, then the payload |
| Framing.IncompleteIff | pymaid/rpc/pb/protocol.py:53-75 | a packet is incomplete, or too large, by the sizes in its header and nothing else |
| Framing.DecodedIsFrame | pymaid/rpc/pb/protocol.py:53-75 | a packet that is found is there in encoded form, and what follows it is left |
| Framing.FeedIsSound | pymaid/rpc/pb/protocol.py:26-43 | the bytes taken are the encoding of the packets found, and no complete packet is left behind |
| Framing.FeedIsComplete | pymaid/rpc/pb/protocol.py:26-43 | the encodings of acceptable packets with an incomplete rest behind them are all found |
| Framing.FeedFindsAPrefix | pymaid/rpc/pb/protocol.py:26-43 | from any front part of a stream of packets only packets of the stream are found, in order |
| Framing.NoPartIsRefused | pymaid/rpc/pb/protocol.py:26-75 | without oversize packets no front part of a stream is refused |
| Framing.FeedInTwoSteps | pymaid/rpc/connection.py:40-47 | feeding in two steps, what is left over kept in between, is feeding once; a refusal stays one |
| Framing.ChunksDoNotMatter | pymaid/rpc/connection.py:40-47 | whether a connection survives its input depends on the bytes and not on the chunks, and so do the messages if it does |
| Framing.AllArriveIffAccepted | pymaid/rpc/pb/protocol.py:26-75 | for every way of cutting a stream of packets, all of them arrive and nothing is left over exactly if none is oversize |
| Framing.OversizeLosesItsChunk | pymaid/rpc/pb/protocol.py:69-72 | with an oversize packet at the end the messages before it arrive or are lost depending on whether they share its chunk |
| Handlers.StepIsSoundIffCareful | pymaid/ext/handler.py:46-145 | every step keeps order, one task at a time and no lost wake-up exactly if nothing is submitted to a closed handler |
| Handlers.EveryRunIsSound | pymaid/ext/handler.py:114-145 | in every run the tasks started are a front part of those submitted, in order, and a task starts only after the one before it has ended |
| Handlers.NothingRunsAfterShutdown | pymaid/ext/handler.py:46-52 | nothing submitted after the first shutdown ever starts |
| Handlers.NothingRunsAfterFailure | pymaid/ext/handler.py:134-144 | with `close_on_exception` nothing starts after the first task that fails, and nothing after an exception tasks must handle themselves |
| Handlers.FailureIsReported | pymaid/ext/handler.py:141-144 | a task that fails is reported before the loop does anything else; then the loop goes on exactly if the handler is not strict, else the handler is closed |
| Handlers.BrokenLoopLeavesTheHandlerOpen | pymaid/ext/handler.py:138-142 | a forbidden exception, or one of the error handler, ends the loop and changes nothing else |
| Handlers.CloseCancelsTheLoop | pymaid/ext/handler.py:61-76 | a close drops the queue and cancels the loop wherever it waits; a second close does nothing |
| Handlers.SecondCloseDoesNothing | pymaid/ext/handler.py:61-63 | closing a closed handler changes nothing |
| Handlers.NothingRunsAfterClose | pymaid/ext/handler.py:61-76 | what waits in a handler when it is closed never starts |
| Handlers.AsleepMeansAllIsDone | pymaid/ext/handler.py:122-127 | asleep without a signal the loop has run everything, and there has been no shutdown |
| Handlers.EverythingRuns | pymaid/ext/handler.py:114-145 | whichever tasks fail, the loop left to itself runs everything submitted before the shutdown, except that a strict handler stops at the first task that fails; it ends closed exactly if it does that or there was a shutdown, else asleep |
| Handlers.DrainingIsARun | pymaid/ext/handler.py:114-145 | going on like that is one of the runs the other properties speak of |
| Handlers.LateSubmissionsMayRun | pymaid/ext/handler.py:78-81 | a closed handler takes submissions, and a task that swallows its cancellation lets one run; the tasks started are then no front part of those submitted unless none other was dropped |
| Handlers.SerialHandler.Submit | pymaid/ext/handler.py:78-81 | the method does the submit step; it keeps the invariant exactly if the handler is open |
| Handlers.SerialHandler.OnPop | pymaid/ext/handler.py:126-131 | the method does the step that takes the next task, sleeps or ends |
| ParallelHandlers.StepIsSoundIffCareful | pymaid/ext/handler.py:149-236 | every step keeps the order of the queue, the pool sound with the loop as its only spawner, and no lost wake-up, exactly if nothing is submitted to a closed handler |
| ParallelHandlers.EveryRunIsSound | pymaid/ext/handler.py:196-236 | so does every run |
| ParallelHandlers.OrderAndLimit | pymaid/ext/handler.py:168-169 | tasks are spawned in the order of submission, no more than the concurrency at once, and each is executed or still runs |
| ParallelHandlers.ShutdownMarks | pymaid/ext/handler.py:46-52 | the first shutdown puts its mark behind the tasks submitted so far and wakes the loop; a second one does nothing |
| ParallelHandlers.NothingSpawnedAfterShutdown | pymaid/ext/handler.py:208-212 | nothing submitted after the first shutdown is ever spawned |
| ParallelHandlers.CancelEndsTheLoop | pymaid/ext/handler.py:61-76 | a cancelled loop is over, and no longer joins the pool |
| ParallelHandlers.EndsWhenAllIsDone | pymaid/ext/handler.py:235-236 | when the loop closes the handler, exactly the tasks submitted before the shutdown have been spawned, all have ended, and those have begun that were not spawned after a failure of a strict handler; then the handler is closed and the loop over |
| ParallelHandlers.EverythingEnds | pymaid/ext/handler.py:196-236 | left to itself after a shutdown, the handler spawns every task submitted before it, all of them end, and it is closed |
| ParallelHandlers.NothingBeginsAfterFailure | pymaid/ext/handler.py:174-194 | with `close_on_exception`, once the callbacks of a failed task have run, no task spawned from then on begins, in any run, and a task is there that closes the handler |
| ParallelHandlers.BeginsIff | pymaid/ext/handler.py:223-228 | a spawned task has begun or can begin exactly if no failure was known to a strict handler when it was spawned |
| ParallelHandlers.CloseWhileSpawningStrandsJoiners | pymaid/ext/handler.py:188-190 | a close while the loop waits for a permit leaves the pool never empty: who joins it is not woken in any later run |
| ParallelHandlers.CancelStrandsJoinersIff | pymaid/ext/handler.py:188-190 | after a close has cancelled the loop, the pool can become empty and wake its joiners exactly if the loop was not waiting for a permit |
| ParallelHandlers.ParallelHandler.OnPop | pymaid/ext/handler.py:209-223 | the method does the step that takes the next task and spawns it, or sleeps, or joins the pool |
| ParallelHandlers.ParallelHandler.OnJoined | pymaid/ext/handler.py:235-236 | the method closes the handler; all tasks submitted before the shutdown have ended |
| Connections.StartedIsAPrefixOfSent | pymaid/rpc/connection.py:40-67 | in every run of writes, partial sends, arriving chunks, closes, failures and handler steps, the tasks started by the receiver are for a front part of the messages sent, in order: none split, lost or repeated |
| Connections.StartIsConsistent | pymaid/rpc/connection.py:22-38 | the invariant behind this holds for two new ends |
| Connections.SenderSideIsKept | pymaid/net/stream.py:57-89 | what was written is the encoding of the messages sent, and what the socket accepted is what has arrived or is in flight |
| Connections.ReceiverSideIsKept | pymaid/rpc/connection.py:40-67 | all that has arrived has been parsed, and what was submitted is a front part of what was sent |
| Connections.AtRestEverythingIsHandled | pymaid/rpc/connection.py:40-47 | when buffers and pipe are empty, the receiver still reads and its handler sleeps, every message sent has been handled |
| Connections.ArrivingDataIsNotRefused | pymaid/rpc/connection.py:40-47 | without oversize packets arriving data never closes the receiver |
| Connections.EverythingCanBeHandled | pymaid/rpc/connection.py:40-67 | while the sender has its socket and has not jammed, the receiver reads and its handler is neither shut down nor over, some run of the system handles every message sent |
| Connections.SentIff | pymaid/rpc/connection.py:53-55 | a message is sent exactly if its sizes fit the header and the sender has its socket, or something to send |
| Connections.CloseReceiverStopsReading | pymaid/rpc/connection.py:57-61 | a close call of the receiver stops the reading and shuts the handler down |
| Connections.ArrivalClosesIff | pymaid/rpc/connection.py:40-47 | arriving data leaves the receiver as it is exactly if all that has arrived is not refused; else it is closed by force, the handler with it and the read buffer emptied |
| Connections.EndOfInputStep | pymaid/rpc/connection.py:49-67 | at the end of input the handler is shut down; it is closed, and what waits in it dropped, at once exactly if there is nothing left to write |
| Connections.CloseCallStep | pymaid/rpc/connection.py:57-61 | a close call shuts the handler down; it is closed, and what waits in it dropped, at once exactly if the stream was open with nothing left to write |
| Connections.NothingSubmittedLaterStarts | pymaid/rpc/connection.py:49-61 | nothing submitted after a close call or the end of input, by whomever, ever starts |
| Connections.CloseCallEndsTheLoop | pymaid/rpc/connection.py:57-61 | left alone after a close call, the loop ends and the handler is closed |
| Connections.WaitingTasksCanStartIff | pymaid/rpc/connection.py:49-67 | after the end of input some run of the system starts every task that waits exactly if there is something left to write and the loop goes on, or nothing waits |
| Connections.EndOfInputDropsWaitingTasks | pymaid/rpc/connection.py:49-67 | otherwise no task that waits ever starts, in any run |
| Connections.DrainDropsWaitingTasks | pymaid/rpc/connection.py:63-67 | if the buffer of a closing receiver drains before its handler has caught up, and no waiter is cancelled then and has still to go on, the tasks that wait never start, in any run |
| Connections.WaitingTasksSurviveDrainIff | pymaid/rpc/connection.py:63-67 | after such a drain some run of the system starts every task that waits exactly if a waiter was cancelled and had still to go on, and the loop goes on, or nothing waits |
| Connections.NothingStartsOnceOver | pymaid/rpc/connection.py:40-47 | once the handler has closed itself or is about to, nothing starts in any run, also not for messages that still arrive while the connection reads on |
| Connections.Connection.DataReceived | pymaid/rpc/connection.py:40-47 | the method parses, keeps the rest and submits a task for each message, or closes by force |
| Connections.Connection.EofReceived | pymaid/rpc/connection.py:49-51 | the method shuts the handler down and closes the stream |
| Connections.Connection.Close | pymaid/rpc/connection.py:57-61 | the method does nothing on a closed connection, else shuts the handler down and closes the stream |
| Connections.Connection.SendMessage | pymaid/rpc/connection.py:53-55 | the method writes the encoded message; one whose sizes do not fit is refused before anything is written |
| Pools.StepIsSound | pymaid/ext/pools/worker.py:46-80 | every step of spawners, tasks and joiners keeps the permits: free, handed over and held by tasks are `size` together; spawned is executed plus live; no joiner sleeps while the pool is empty |
| Pools.EveryRunIsSound | pymaid/ext/pools/worker.py:46-122 | so does every run, cancelled spawners included |
| Pools.NeverStuck | pymaid/ext/pools/worker.py:70-80 | never more than `size` tasks; while a spawner sleeps, a task runs or a permit is on its way to a spawner |
| Pools.JoinersAreCounted | pymaid/ext/pools/worker.py:109-122 | every joiner that had to wait is asleep, woken or cancelled |
| Pools.JoinersAreWokenIff | pymaid/ext/pools/worker.py:46-52 | all joiners are woken at once, exactly when the last task ends and no spawner is counted as waiting |
| Pools.SpawnStartsAtOnceIff | pymaid/ext/pools/worker.py:72-80 | a spawner starts its task at once exactly if a permit is free and nobody waits who has not been cancelled, else it is last in line |
| Pools.Drains | pymaid/ext/pools/worker.py:46-80 | if no waiting spawner was cancelled, the pool can serve every spawner and run to its end, joiners woken |
| Pools.BecomesEmptyIff | pymaid/ext/pools/worker.py:72-74 | a pool can become empty again, and wake its joiners, exactly if no spawner has been cancelled while it waited |
| Pools.LostForGood | pymaid/ext/pools/worker.py:72-74 | otherwise no run makes it empty or wakes a joiner |
| Pools.AioPool.Spawn | pymaid/ext/pools/worker.py:54-80 | the method does the first part of spawning, and starts a task at once exactly if a permit is free and nobody waits |
| Pools.AioPool.ResumeSpawn | pymaid/ext/pools/worker.py:73-80 | the method does the second part, or that of a cancelled spawner |
| Pools.AioPool.TaskDone | pymaid/ext/pools/worker.py:46-52 | the method releases the permit, forgets the task, counts it and wakes joiners of an empty pool |
| Pools.AioPool.Join | pymaid/ext/pools/worker.py:109-117 | refused to a task of the pool; anybody else waits exactly if the pool is not empty |
| Channels.StepIsSafeIffCareful | pymaid/net/channel.py:111-241 | every call keeps the invariant (limit, listeners watched only while started, a pause by the limit only while full, one final close when closed and empty) exactly if it is not a pause of, or new listeners for, a channel that has been closed |
| Channels.EveryRunIsSafe | pymaid/net/channel.py:111-241 | so does every run; a closed channel takes no more connections and never opens again |
| Channels.AcceptsWhatThereIsRoomFor | pymaid/net/channel.py:201-212 | as many connections are accepted as there is room for, and the channel pauses exactly if they fill it |
| Channels.LossResumes | pymaid/net/channel.py:225-230 | any lost connection starts a paused channel again, whoever has paused it |
| Channels.LossStartsIff | pymaid/net/channel.py:225-235 | a loss starts a paused channel and changes the state of no other, unless it is the last of a closed one |
| Channels.LastLossCloses | pymaid/net/channel.py:225-235 | a closed channel is finally closed by its last loss and by no other |
| Channels.ClosingShutsDown | pymaid/net/channel.py:135-150 | closing a started or paused channel shuts all its connections down and loses none |
| Channels.ClosingOtherwiseDoesNot | pymaid/net/channel.py:135-150 | closing a channel that was never started, or was shut down before, shuts no connection down |
| Servers.CloseStopsSendingIff | pymaid/net/channel.py:135-150 | the connections with unsent data stop sending at the close exactly if the channel was started or paused |
| Servers.ConnectionSendsAndCloses | pymaid/net/channel.py:225-235 | before that a connection can send what it has and be closed in order, and is then lost to the channel |
| Servers.FinallyClosedOnlyIfBroken | pymaid/net/channel.py:135-150 | a started or paused channel that has been closed is finally closed, in any run, only if every connection that had unsent data then has had an error of its reading side or been closed by force |
| Servers.CanCloseInOrderIff | pymaid/net/channel.py:135-150 | it can be finally closed without that exactly if no connection had unsent data |
| Channels.PausedWhileClosingNeverCloses | pymaid/net/channel.py:120-125 | after a pause while closing no loss ever closes the channel, in no run in which it is not told to close again |
| Channels.ShutdownCanBeUndone | pymaid/net/channel.py:111-118 | a channel that has been shut down can be started again |
| Channels.ShutdownStopsAccepting | pymaid/net/channel.py:127-133 | a shutdown stops accepting, comes to its own state unless the channel is closing, and shuts all connections down each time |
| Channels.CloseCloses | pymaid/net/channel.py:135-150 | a close in any state is remembered, and is the final close at once exactly if there are no connections |
| Channels.PausedUntilStarted | pymaid/net/channel.py:111-125 | a pause stops accepting until the next start, which watches all listeners, also those added since |
| Channels.ClosingDoesNotStart | pymaid/net/channel.py:111-113 | a channel that is closing refuses to start and changes nothing |
| Channels.StreamChannel.ReadFromListener | pymaid/net/channel.py:201-212 | the accept loop does the accept step and keeps the invariant |
| Channels.StreamChannel.ConnectionLost | pymaid/net/channel.py:225-235 | the method does the step of a lost connection |
| Channels.StreamChannel.Close | pymaid/net/channel.py:135-150 | the method does the close step |
| Contexts.StepIsSafeIff | pymaid/rpc/context.py:223-310 | no number still to be given away is ever in use, exactly unless the initiative end receives an odd number it has not yet given away |
| Contexts.OpeningOverwritesNothing | pymaid/rpc/context.py:283-300 | a new call gets an unused number of its own parity, at most 2^32 - 1 |
| Contexts.NumbersLast | pymaid/rpc/context.py:223-238 | numbers ascend by two and last for exactly 2^31 calls of the initiative end and 2^31 - 1 of the passive one |
| Contexts.ReceivedUntilReleased | pymaid/rpc/context.py:240-310 | a received call is open as one of the other end until it is released, and nothing else changes; it is refused a second time |
| Contexts.InitiativeCallGoesThrough | pymaid/rpc/context.py:223-310 | a call of the initiative end is open there, on its way, then open at both ends, and is closed at each end by itself |
| Contexts.PassiveCallGoesThrough | pymaid/rpc/context.py:223-310 | and so is one of the passive end |
| Contexts.RunInParts | pymaid/rpc/context.py:207-310 | what is specified for a sequence of events is one event after the other |
| Contexts.PassiveEndIsAlwaysSafe | pymaid/rpc/context.py:240-271 | whatever numbers the other end sends, the passive end never overwrites a call |
| Contexts.EarlyNumberIsOverwritten | pymaid/rpc/context.py:240-271 | the initiative end does: a number sent too early is taken, and overwritten when it is given away |
| Contexts.EveryRunIsConsistent | pymaid/rpc/context.py:207-310 | for two ends that exchange each opened call at most once, in any order, the numbers stay apart in every run |
| Contexts.NoCallIsRefusedOrOverwritten | pymaid/rpc/context.py:240-300 | in no such run does the check for reused numbers fail, is a number refused, or an open call overwritten |
| Contexts.Context.Close | pymaid/rpc/context.py:55-63 | closing twice is closing once; the first time the context leaves the table, all others stay |
| Contexts.ContextManager.NewOutboundContext | pymaid/rpc/context.py:223-300 | a new context under the next number, or failure and no change once the numbers are used up; the table holds exactly the contexts that have not been closed |
| Contexts.ContextManager.NewInboundContext | pymaid/rpc/context.py:240-281 | fails exactly for a number in use and, at the passive end, for an even one; else a new context in the table |
| Contexts.ContextManager.ReleaseContext | pymaid/rpc/context.py:305-310 | the table without the context that closes |
| Contexts.ContextManager.ApplyAll | pymaid/rpc/context.py:207-310 | any sequence of calls opened, received and closed, none received too early, leaves the table of the specification, in it exactly the contexts that have not been closed |
| Contexts.PassiveRunIsSafe | pymaid/rpc/context.py:240-271 | at the passive end nothing is ever received too early |

## Left out

- MD5, sockets, TLS, address resolution, the event loop, timers, logging, settings and the command line: what they answer is an input, or not modelled.
- Two registered keys with the same MD5 value are assumed not to occur; nodes compare by that value.
- The back-reference `_hash_manager` of a node, `filter`, `clone`, `add_nodes` and printing of the hash managers; `HashNode.__ne__` calls itself.
- Inheritance: the ring and the Maglev table have a manager, the connection has a stream and a handler, instead of being one; the channel is one class.
- JavaScript numbers beyond 2^53, except where the code keeps to 32-bit halves; floating point fields; hash-string forms of 64-bit numbers; repeated and packed fields; maps and extensions.
- Reader.BinaryReader.SkipField: groups are not skipped but refused, and so is a negative length, by which the code moves the cursor back.
- Reader.BinaryReader.ReadMessage: a length that reaches beyond the buffer, or is negative, is a failure here, while the code moves the cursor there and fails later or not at all.
- Packet.ReadEnum: a number beyond 32 bits is a failure here, while the code keeps it.
- Packet.Deserialize: `pb.deserialize` finds the message class by name; the name transforms are not modelled.
- The bookmark list of `beginSubMessage` and `endSubMessage`, which only stacks what `beginDelimited_` returns.
- Mask.ApplyMask: allocation failure and the buffer protocol of Python objects; words are stored lowest byte first.
- Handlers.SerialHandler.Submit: callbacks in `on_close` of a handler and who waits for its end are not modelled.
- Streams.Stream.WriteSync: callbacks in `on_close` are assumed not to call the stream.
- Framing.FeedData: the meta message is kept as its bytes, its own decoding is assumed to succeed, and views exported from the buffer are not tracked.
- Connections.Connection.DataReceived: the router is taken to give one task for each message, or to fail before it gives any, which is a `Refused` receive; it is not part of this model.
- Handlers.StepIsSoundIffCareful: a cancelled loop may stop or go on at any of its awaits, which is more than asyncio allows.
- Connections.StartedIsAPrefixOfSent: the handler is closed by its connection only, not by the application.
- ParallelHandlers.EveryRunIsSound: the task that closes a strict handler after a failure runs at any time, while the code lets it wait for an empty pool first; exceptions raised by making a coroutine are not modelled; a cancelled loop may go on, which is more than asyncio allows.
- Pools.AioPool.Spawn: the semaphore is that of Python 3.11, which hands permits over; `submit` of the pool calls a function with an argument it does not take.
- Channels.EveryRunIsSafe: the limit is a constant of at least 1, and callbacks do not call the channel again.
- Contexts.Context.Close: waiters, timers, message queues and the last message of a streaming context; contexts are released by closing only.
- `well_known_types.js`, the rest of `google-protobuf.js`, the HTTP manager of the JavaScript client, reloading, monitoring and connection pools.
