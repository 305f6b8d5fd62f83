# MUSCLE's wire layer, modelled and proved in Dafny

MUSCLE moves `Message` objects between programs: it turns them into bytes, cuts the bytes up, sends them through streams,
packets and threads, and rebuilds them at the other end.  This project models that layer and proves what it is for: what is
sent is what is delivered, over whole runs, for every input and every way in which a channel may split, lose or reorder it.

`dafny verify dfyconfig.toml` checks everything.  The modules, in the order in which they build on each other:

| file | what it holds |
|---|---|
| `Bytes.dfy` | byte strings, little-endian words, `memcpy()` |
| `Messages.dfy`, `Unflatten.dfy` | the Message data model, `Flatten()`, `FlattenedSize()`, `Unflatten()` on arbitrary bytes, and their round trip |
| `WireImage.dfy`, `AcceptedBytes.dfy` | the wire format byte by byte, and what is accepted from untrusted bytes |
| `MessageObject.dfy` | the Message object, whose methods walk and fill its table in loops |
| `MessageEquality.dfy` | `operator==()` and `CalculateChecksum()` against an independent meaning of a Message |
| `FieldRepresentation.dfy` | MessageField's empty, inline and array states against a plain sequence |
| `Templates.dfy`, `LayoutHash.dfy`, `TemplatedCodec.dfy`, `TemplateSizes.dfy` | layouts, layout hashes, templates and the payload-only codec |
| `TemplatingGateway.dfy`, `TemplateRecency.dfy` | the two LRU template caches of the templating protocol, their lockstep and their order of use |
| `MessageStream.dfy` | MessageIOGateway over a byte stream in pieces of any size, plain and templating |
| `AsyncDataIO.dfy` | the two threads of AsyncDataIO as atomic steps, and the object whose methods are those steps |
| `PacketTunnel.dfy`, `TunnelGateway.dfy` | fragmentation and per-source reassembly over a lossy packet channel, and the object that does both |
| `WebSocket.dfy` | RFC 6455 framing: incremental parser, execution of frames, frame writer |
| `Slip.dfy`, `PacketizedProxy.dfy`, `PlainText.dfy` | the smaller stream framers and the Telnet filter |

Conventions.  Integers are unbounded and every 32-bit or 64-bit wrap-around that matters is written out.  A POD value is
identified with its little-endian memory image.  Name hashes, value checksums and floating-point comparison are parameters of
the statements, so the results hold for every choice of them; floating-point comparison is only taken to be symmetric.  A
`status_t` is a `Result`.  I/O is a parameter: `available` is what a read could return at the moment of the call,
`willingness` is how many bytes a write would accept; every pattern of short reads and writes is a series of such calls.
Where a loop in the source reads or writes in pieces, the model has a byte-by-byte function (`Feed`) and the method with the
source's own loop is proved to compute it; `Feed` on a concatenation is `Feed` twice, so chunking cannot matter.  In a class,
ghost fields hold history (what was asked for, what the child has seen).

Where the code and what one would expect of it part ways, the code was modelled as it is and the exact condition was proved:

* A String or Message field without items disappears from a template, so the two ends file the template under different IDs:
  exactly when (`Templates.LayoutKeptIffNoFieldDropped`), and an input for every name hash
  (`Templates.EmptyStringFieldSplitsTheHash`), whose second frame is refused or loses its field
  (`TemplatingGateway.EmptyTextBreaksTheProtocol`).
* The reader moves past length-prefixed items with a signed 32-bit seek.  So `Unflatten()` reads back a Message of up to 2^32
  bytes exactly when no ByteBuffer of 2^31 bytes or more shares its field with others (`Unflattening.RoundTrip`), and
  `TemplatedUnflatten()` a payload exactly when no String, ByteBuffer or sub-Message in it reaches 2^31 bytes
  (`TemplatedCodec.TemplatedRoundTrip`); `Unflattening.HugeBuffersAreNotReadBack` and `TemplatedCodec.HugeTextIsNotReadBack`
  are inputs that fail.
* The announced length of a field is an upper bound only, so a Message that has lost fixed-size values at its end is accepted
  with those that are left (`AcceptedBytes.TruncationIsAccepted`).
* Tags that refer to ByteBuffers are compared by content when an inline item is involved and by reference between arrays, so
  `operator==()` is transitive on Messages with tags from a set U exactly when no two distinct ByteBuffers in U have the same
  content (`MessageEquality.EquivalenceIffNoTwins`), and every such pair breaks it (`MessageEquality.TwinsBreakTransitivity`).
* The 32-bit tally of cached template bytes is exact after a run exactly when no addition takes the total to 2^32
  (`TemplatingGateway.RunTallyExactIff`); with the largest limit, three Messages suffice to break it
  (`TemplatingGateway.ThreeBigMessagesBreakTheTally`).
* The WebSocket parser takes a control frame for a part of a data message once something of that message has been collected,
  and forgets the opcode of a message whose first fragment is empty.  Exactly which legal streams are read right is a walk over
  their frames (`WebSocketFraming.StreamReadRightIff`); `WebSocketFraming.InterruptedIsReadWrong` gives streams that are not.
* A WebSocket client announces its mask in network byte order but applies it in host byte order: the server executes the
  payload exactly when the two agree where they are used (`WebSocketFraming.PayloadReadsBackIff`), on a little-endian machine
  exactly for words that read the same in both directions (`WebSocketFraming.MasksAgreeIff`), and a failing frame is given
  (`WebSocketFraming.LittleEndianClientGarbles`).
* Two reads of plain text come to the same as one exactly when no NUL follows the last line break of the first, or the second
  shows no text before its first line break (`PlainTextLines.TwoReadsAreOneIff`); `PlainTextLines.NulsBreakChunkInvariance` is
  an input at which they differ.

## Model

| member | source | states |
|---|---|---|
| `Messages.FlattenFillsSize` | message/Message.cpp:1132-1204 | Flatten() of any valid nested Message writes exactly FlattenedSize() bytes |
| `WireImage.FlattenIsConcatenation` | message/Message.cpp:1166-1204 | byte by byte, Flatten() is "PM00", the what-code, the number of flattenable fields, and for each of them the length of its name, the name with its terminator, its type, the length of its data and its data; tags and pointers add nothing |
| `WireImage.FixedFieldImage` | message/Message.cpp:2266-2330 | for each of the nine fixed-size types, with its code and size in plain numbers, the data of a field are its values and nothing else |
| `WireImage.CountedFieldImage` | message/Message.cpp:2266-2330 | Strings with their terminators and ByteBuffers lie behind their lengths and their number, sub-Messages behind their lengths only |
| `Unflattening.RoundTrip` | message/Message.cpp:1166-1276 | for every nested Message below 2^32 - 1 bytes, Unflatten(Flatten(m)) succeeds if and only if no ByteBuffer of 2^31 bytes or more shares its field with others at any depth, and then consumes everything and yields m without its tag and pointer fields, with field order kept |
| `Unflattening.FieldRoundTrip` | message/Message.cpp:2885-2925 | every flattenable field, inline or array, is read back with its type and items exactly when it meets that condition; one item comes back inline, any other number as an array |
| `Unflattening.SingleIsArray` | message/Message.cpp:2266-2330 | an inline item and a one-element array have the same bytes and size |
| `Unflattening.SubsRoundTrip` | message/Message.cpp:803-829 | arrays of sub-Messages, which carry no item count, are read back item by item, exactly when each of them can be |
| `Unflattening.PrefixedRoundTrip` | message/Message.cpp:698-723 | arrays of Strings and ByteBuffers, length prefix by length prefix, are read back exactly when no ByteBuffer is too long for the signed seek |
| `Unflattening.SmallIsSeekable` | support/DataUnflattener.h:316-325 | every Message of less than 2^31 bytes meets the condition |
| `Unflattening.HugeBuffersAreNotReadBack` | message/Message.cpp:698-723 | for every type code of ByteBuffers, a valid Message with two of them, one of 2^31 bytes, that cannot be read back |
| `AcceptedBytes.AcceptedIsSound` | message/Message.cpp:1223-1276 | whatever bytes Unflatten() accepts begin with "PM00", and the result has distinct names, values that fit their types, and no tag or pointer, at every depth |
| `AcceptedBytes.RepeatedName` | message/Message.cpp:1247-1272 | a name that occurs twice: the second field replaces the first if it has the same type, and the Message is refused if not |
| `AcceptedBytes.TruncationIsAccepted` | message/Message.cpp:1249-1272 | a Message whose last field has lost some of its fixed-size values is accepted with those that are left |
| `MessageObject.MutableMessage.CalculateFlattenedSize` | message/Message.cpp:1132-1144 | the size loop computes the specified size |
| `MessageObject.MutableMessage.FlattenToBytes` | message/Message.cpp:1166-1204 | the writing loop, which patches the entry count in at the end, fills the buffer with exactly Flatten() |
| `MessageObject.WriteEntries` | message/Message.cpp:1187-1200 | the entry loop writes every flattenable entry behind the header and counts them |
| `MessageObject.MutableMessage.UnflattenFrom` | message/Message.cpp:1223-1276 | the entry loop succeeds exactly when Unflatten() is defined on the bytes and then leaves its result in the object; a rejected header leaves the object alone, a bad field leaves an empty table, and any other bad entry leaves the entries before it |
| `MessageObject.MutableMessage.FieldsAreSubsetOf` | message/Message.cpp:2121-2132 | the early-exit loop decides whether every field has an equal, like-named field on the other side |
| `MessageObject.MutableMessage.EqualTo` | message/Message.cpp:2101-2104 | what-codes, field counts and the subset test together decide equality |
| `MessageObject.MutableMessage.CalculateChecksum` | message/Message.cpp:1146-1164 | the loop that wraps around at every step computes the sum modulo 2^32 that the four laws of `MessageEquality` below determine |
| `MessageObject.MutableMessage.CountEntry` | message/Message.cpp:1153-1161 | one entry adds its term modulo 2^32, step by step |
| `MessageEquality.EqualIffSameMeaning` | message/Message.cpp:2101-2132 | two Messages without floating-point fields, with tags from a set without twins, are equal exactly when they map the same names to the same types and items, at every depth; equality implies as much for any tags once tags are left out of account |
| `MessageEquality.FieldEqualIffSameMeaning` | message/Message.cpp:2655-2748 | the same for fields, over all combinations of empty, inline and array states and the swapped comparison |
| `MessageEquality.EqualReflexive` | message/Message.cpp:2101-2132 | every Message without floating-point fields equals itself |
| `MessageEquality.EqualSymmetric` | message/Message.cpp:2101-2132 | equality is symmetric for all valid Messages, floating-point fields included, from the subset test and the field counts |
| `MessageEquality.EquivalenceIffNoTwins` | message/Message.cpp:2101-2132 | operator==() is reflexive and symmetric on Messages with tags from any set U, and transitive if and only if no two distinct ByteBuffers in U have the same content |
| `MessageEquality.EqualIgnoresOrder` | message/Message.cpp:2121-2132 | Messages whose fields are permutations of each other are equal |
| `MessageEquality.OrderIsInvisible` | message/Message.cpp:2121-2132 | Messages whose fields are permutations of each other compare alike with every third Message, floating-point fields included |
| `MessageEquality.TagRepresentationsAgreeIff` | message/Message.cpp:2646-2748 | inline and array comparison of two tags agree exactly when they are not two distinct ByteBuffers with equal content |
| `MessageEquality.TwinsBreakTransitivity` | message/Message.cpp:176-183 | for every pair of distinct ByteBuffers with the same content, three Messages with a equal to b and b equal to c but not a to c |
| `MessageEquality.ChecksumOfMeaning` | message/Message.cpp:1146-1164 | the checksum depends only on the meaning, not on field order or representation |
| `MessageEquality.OneWeighted` | message/Message.cpp:2529-2566 | an inline item and a one-element array have the same checksum |
| `MessageEquality.ItemReplaced` | message/Message.cpp:2529-2566 | if two Messages differ in item i of one counted field only, their checksums differ modulo 2^32 by the name's checksum times i + 1 times the difference of the two values' checksums; a nested Message's is its own; not at all if the field is not counted |
| `MessageEquality.ItemAdded` | message/Message.cpp:2529-2566 | one more item, as the n-th of its field, adds the name's checksum times 1 plus n times the value's checksum |
| `MessageEquality.FieldAdded` | message/Message.cpp:1153-1161 | a field without items, wherever it is added, adds its name's checksum, or one if that is zero, and the name's checksum times the type |
| `MessageEquality.WhatReplaced` | message/Message.cpp:1146-1149 | the what-code counts for itself, and a Message without fields for nothing else |
| `MessageEquality.EqualMessagesHaveEqualChecksums` | message/Message.cpp:1146-1164 | equal Messages without floating-point fields have equal checksums modulo 2^32 through every nesting level, whatever their tags |
| `MessageEquality.RoundTripKeepsMeaning` | message/Message.cpp:1166-1276 | what comes back from the wire has the same names, types and items as what was sent, and something comes back exactly when no ByteBuffer is too long for the signed seek |
| `FieldRepresentation.RunsRefine` | message/Message.cpp:2416-2481 | under every series of add, prepend, remove, replace, find and clear, contents and outcomes are those of a plain sequence |
| `FieldRepresentation.RepresentationIsInvisible` | message/MessageImpl.h:162-188 | two fields with the same type and items have the same bytes, size and checksum and compare alike with every third field, floating-point values included; without such values they are also equal to each other |
| `FieldRepresentation.ItemwiseComparison` | message/Message.cpp:2655-2748 | fields of flattenable types, floating-point ones included, are compared as their item sequences, whichever way either is held |
| `FieldRepresentation.FieldsEqualIff` | message/Message.cpp:2655-2748 | fields are equal exactly when types and counts are and their items compare one by one: the four floating-point types as the machine compares them, sub-Messages as Messages, all others byte by byte |
| `FieldRepresentation.EqualIffFieldsAre` | message/Message.cpp:2101-2132 | Messages of flattenable fields, floating-point ones included, are equal exactly when what-codes and field counts are and every field of one has such an equal under its name in the other |
| `FieldRepresentation.MessageField.AddDataItem` | message/Message.cpp:2416-2436 | appends to the contents from each of the three states |
| `FieldRepresentation.MessageField.PrependDataItem` | message/Message.cpp:2447-2467 | prepends to the contents from each of the three states |
| `FieldRepresentation.MessageField.RemoveDataItem` | message/Message.cpp:2438-2445 | removes exactly the item at a valid index, and reports an invalid one |
| `FieldRepresentation.MessageField.ReplaceDataItem` | message/Message.cpp:2477-2481 | replaces exactly the item at a valid index, and reports an invalid one |
| `FieldRepresentation.MessageField.FindDataItem` | message/Message.cpp:2469-2475 | finds the item at a valid index, and nothing elsewhere |
| `Templates.HashIsOfLayout` | message/Message.cpp:2149-2176 | the layout hash, with its position counter threaded through sub-Messages, is a function of the layout alone |
| `LayoutHashing.HashIsWeightedSum` | message/Message.cpp:2156-2176 | the hash is the sum over all fields, those of sub-Messages included, in reading order, of the name's hash plus count times type, each weighted by its 32-bit position, modulo 2^64 |
| `LayoutHashing.CollideIff` | message/Message.cpp:2149-2154 | two layouts collide exactly when these sums are equal or one is 0 and the other 1 |
| `LayoutHashing.FieldSeparates` | message/Message.cpp:2156-2176 | layouts that differ in one field only have equal sums exactly when its position times the difference of the two values is a multiple of 2^64 |
| `LayoutHashing.TypesSeparate` | message/MessageImpl.h:201 | one-field layouts that differ in the type only collide just when the guard value makes them |
| `LayoutHashing.OrderSeparates` | message/Message.cpp:2163-2167 | two fields, whichever way round, have equal sums only if their values are equal |
| `Templates.TemplateKeepsLayout` | message/Message.cpp:977-1036 | the template of a Message without empty fields has the Message's layout and the size that the layout determines |
| `Templates.TemplateIsBlank` | message/Message.cpp:977-1036 | every value in a template, at every depth, is all zero bytes or empty |
| `Templates.NormalKeepsLayout` | message/Message.cpp:1223-1276 | a trip over the wire keeps layout, validity, bytes and size |
| `Templates.TemplatesAgree` | message/Message.cpp:2149-2176 | the hashes of m and of its template are equal; the receiver can unflatten m exactly when no ByteBuffer is too long for the signed seek, and then its own template has the same hash and the same size |
| `Templates.LayoutKeptIffNoFieldDropped` | message/Message.cpp:989-1005 | a template keeps the layout exactly when no String or Message field at any depth is empty |
| `Templates.EmptyStringFieldSplitsTheHash` | message/Message.cpp:1002-1005 | for every name and name hash, a Message with one empty String field and its template hash differently exactly when the name's hash modulo 2^64 is neither 0 nor 1 |
| `TemplatedCodec.TemplatedRoundTrip` | message/Message.cpp:2178-2235 | for every m and every template of the same layout, the payload has exactly the computed size and restores m if and only if none of its Strings, ByteBuffers and sub-Messages takes 2^31 bytes or more |
| `TemplatedCodec.TemplatedFieldRoundTrip` | message/Message.cpp:2995-3157 | the same field by field, with the same exact condition, through sub-Messages that carry no per-field metadata |
| `AcceptedBytes.PayloadKeepsLayout` | message/Message.cpp:2208-2235 | whatever bytes are accepted as a payload, the result has the template's layout at every depth |
| `TemplatedCodec.SmallPayloadIsSeekable` | support/DataUnflattener.h:316-325 | every payload of less than 2^31 bytes meets the condition |
| `TemplatedCodec.HugeTextIsNotReadBack` | message/Message.cpp:3121-3155 | a Message with one String of 2^31 - 1 characters that is read back from its full encoding but not from its payload |
| `TemplateSizes.TemplateNoLarger` | message/Message.cpp:977-1036 | a template is no larger than the Message that it was made from |
| `TemplateSizes.PayloadNoLarger` | message/Message.cpp:2178-2187 | a payload with its template ID is never longer than the full encoding |
| `TemplateSizes.TemplateOnlyFixesLayout` | message/Message.cpp:2189-2206 | the payload does not depend on which template of the layout is used: it is the what-code and the data of each flattenable field, without names, types and field lengths |
| `TemplatingGateway.DeliverOne` | iogateway/TemplatingMessageIOGateway.cpp:33-231 | from caches in lockstep, any of the four encodings is decoded to the flattenable part of the Message, and the caches are in lockstep again |
| `TemplatingGateway.ReceiveFrame` | iogateway/TemplatingMessageIOGateway.cpp:124-168 | the flag bits of the two header words are told apart from length and encoding, so no form is taken for another |
| `TemplatingGateway.DeliverAll` | iogateway/TemplatingMessageIOGateway.cpp:33-231 | over every run the i-th decoded Message is the flattenable part of the i-th sent one, with keys, LRU order and tallies of both caches equal afterwards |
| `TemplateRecency.SendRunIsOrdered` | iogateway/TemplatingMessageIOGateway.cpp:42-59 | after every run the sender's cache holds used IDs only, the last used one in front and the others by how long ago they were used |
| `TemplateRecency.ReceiveRunIsOrdered` | iogateway/TemplatingMessageIOGateway.cpp:170-231 | so does the receiver's, by the last use of the IDs of the Messages sent to it |
| `TemplateRecency.NewCacheIsOrdered` | iogateway/TemplatingMessageIOGateway.cpp:8-15 | new gateways start so |
| `TemplateRecency.EvictedIsLeastRecent` | iogateway/TemplatingMessageIOGateway.cpp:250-270 | whatever sending a Message evicts was used longer ago than everything that stays |
| `TemplateRecency.TrimGivesUpNoMore` | iogateway/TemplatingMessageIOGateway.cpp:250-270 | what stays is within the limit or a single slot, and with the next slot it would be over the limit |
| `TemplateRecency.FormOfFrame` | iogateway/TemplatingMessageIOGateway.cpp:61-102 | a frame is flagged as payload-only exactly when the Message's ID is cached, and as creating a template exactly when it is not and one can be made, in the top bits of the two header words |
| `TemplateRecency.RefusedFrames` | iogateway/TemplatingMessageIOGateway.cpp:124-196 | frames with a wrong length, another encoding, both flags, or an ID that is missing or not cached are refused and leave the cache alone |
| `TemplatingGateway.EmptyTextBreaksTheProtocol` | iogateway/TemplatingMessageIOGateway.cpp:33-231 | for every name, name hash and limit, a Message with one empty String field, sent twice between new gateways, arrives the first time; the second frame is refused exactly when the two hashes differ, and otherwise loses the field |
| `TemplatingGateway.TrimKeepsLockstep` | iogateway/TemplatingMessageIOGateway.cpp:250-270 | both ends evict the same slots |
| `TemplatingGateway.AddKeepsTally` | iogateway/TemplatingMessageIOGateway.cpp:52-56 | the 32-bit tally stays the sum of the cached sizes as long as that sum fits in 32 bits |
| `TemplatingGateway.AddTallyExactIff` | iogateway/TemplatingMessageIOGateway.cpp:52-56 | and only then: the tally is exact after an addition if and only if the cached sizes and the new one total less than 2^32 |
| `TemplatingGateway.RunKeepsTallies` | iogateway/TemplatingMessageIOGateway.cpp:208-270 | after every run, if the limit plus one more template stays below 2^32 bytes, each tally is the sum of the cached template sizes, and each cache is within its limit or down to one slot |
| `TemplatingGateway.RunTallyExactIff` | iogateway/TemplatingMessageIOGateway.cpp:33-59 | for every limit and run, the sender's tally is exact afterwards if and only if no template was added that took the cached sizes to 2^32 bytes |
| `TemplatingGateway.ThreeBigMessagesBreakTheTally` | iogateway/TemplatingMessageIOGateway.cpp:52-56 | a run of three Messages of 2^31 - 1 bytes after which the tally is not the sum of the cached sizes |
| `TemplatingGateway.FreshCachesAreInLockstep` | iogateway/TemplatingMessageIOGateway.cpp:8-15 | two new gateways start in lockstep |
| `TemplatingGateway.TemplatingMessageIOGateway.Reset` | iogateway/TemplatingMessageIOGateway.cpp:242-248 | empties both caches and tallies |
| `TemplatingGateway.TemplatingMessageIOGateway.TrimLRUCache` | iogateway/TemplatingMessageIOGateway.cpp:250-270 | the eviction loop computes the specified trimming |
| `TemplatingGateway.TemplatingMessageIOGateway.FlattenHeaderAndMessage` | iogateway/TemplatingMessageIOGateway.cpp:33-113 | bytes and new outgoing cache are those of the protocol's send function; the incoming cache is untouched |
| `TemplatingGateway.TemplatingMessageIOGateway.PutIncomingTemplate` | iogateway/TemplatingMessageIOGateway.cpp:217-229 | a new template replaces an older one under the same ID, with the tally's wrap-around, and the cache is trimmed |
| `TemplatingGateway.TemplatingMessageIOGateway.UnflattenHeaderAndMessage` | iogateway/TemplatingMessageIOGateway.cpp:115-240 | result and new incoming cache are those of the protocol's receive function on arbitrary bytes; the outgoing cache is untouched |
| `MessageStream.FeedRead` | iogateway/MessageIOGateway.cpp:248-315 | a read that stays within the header or frame has the effect of its bytes one by one |
| `MessageStream.HeaderFailsIff` | iogateway/MessageIOGateway.cpp:262-300 | header bytes end the reading for good exactly when the encoding is none of "Enc0" to "Enc9", the body exceeds the limit, or there is no body |
| `MessageStream.PlainFrame` | iogateway/MessageIOGateway.cpp:394-489 | the plain codec's frame announces its own size, and decodes to the flattenable part of the Message exactly when no ByteBuffer is too long for the signed seek |
| `MessageStream.PlainFrameImage` | iogateway/MessageIOGateway.cpp:394-440 | a plain frame is the length of the flattened Message, "Enc0" and the flattened Message |
| `MessageStream.PlainEndToEnd` | iogateway/MessageIOGateway.cpp:88-315 | over every chunking of the stream, the peer delivers exactly the queued Messages in order up to the first that cannot be read back, and all of them if and only if there is none |
| `MessageStream.TemplatingStream` | iogateway/TemplatingMessageIOGateway.cpp:20-240 | the same between two templating gateways, from any caches in lockstep, which end in lockstep |
| `MessageStream.TemplatingEndToEnd` | iogateway/TemplatingMessageIOGateway.cpp:20-240 | from two new templating gateways, over every chunking, everything queued is delivered in order |
| `MessageStream.PartOfTheStream` | iogateway/MessageIOGateway.cpp:248-315 | with only part of the stream across, what has been delivered is a prefix of what was queued |
| `MessageStream.SendFrameShape` | iogateway/TemplatingMessageIOGateway.cpp:61-102 | whichever form is chosen, the body is no longer than the flattened Message |
| `MessageStream.MessageIOGateway.AddOutgoingMessage` | iogateway/AbstractMessageIOGateway.cpp:135-139 | adds exactly the Message's future frame, encoded from the cache that everything enqueued before leaves behind, to what is owed, and states the cache after it |
| `MessageStream.MessageIOGateway.NextSendBuffer` | iogateway/MessageIOGateway.cpp:100-127 | flattens the head of the queue into the send buffer without changing what is owed or the cache that the queue will leave behind |
| `MessageStream.MessageIOGateway.SendMoreData` | iogateway/MessageIOGateway.cpp:66-85 | what is written plus what is still owed is what was owed |
| `MessageStream.MessageIOGateway.DoOutput` | iogateway/MessageIOGateway.cpp:88-175 | keeps the run invariant that the bytes on the wire, the buffer's tail and the flattened queue are the flattening of everything ever enqueued, keeps the cache after the queue, and a writer that is not held up leaves nothing owed |
| `MessageStream.MessageIOGateway.ReceiveMoreData` | iogateway/MessageIOGateway.cpp:323-342 | one read has the effect of its bytes one by one, including the size limit and decoding errors |
| `MessageStream.MessageIOGateway.DoInput` | iogateway/MessageIOGateway.cpp:197-318 | consumes exactly what it reports, never past the end of the current header or frame, with the effect of the bytes one by one |
| `MessageStream.TemplatingGatewaysDeliver` | iogateway/TemplatingMessageIOGateway.cpp:20-240 | whatever calls were made on two templating gateway objects, a receiver that has read part of what the sender has written has delivered a prefix of what was enqueued, and all of it, with caches in lockstep, once nothing is left to write or read |
| `MessageStream.PlainGatewaysDeliver` | iogateway/MessageIOGateway.cpp:88-315 | whatever calls were made on two plain gateway objects, the receiver has delivered a prefix of the queued Messages before the first that cannot be read back; once nothing is left to write or read it has delivered those exactly, and everything if and only if every Message can be read back |
| `AsyncSplicing.NextInv` | dataio/AsyncDataIO.cpp:20-269 | every atomic step of either thread keeps the splicing invariant, also when the I/O thread's bytesUntilNextCommand is out of date |
| `AsyncSplicing.RunsSplice` | dataio/AsyncDataIO.cpp:20-269 | under every interleaving and any partial reads and writes, the bytes and commands applied to the child are a prefix of the main thread's program order |
| `AsyncSplicing.CommandsRunInPlace` | dataio/AsyncDataIO.cpp:155-269 | a command runs when the written-byte count equals its recorded location exactly, and is the next thing in program order |
| `AsyncSplicing.ShutdownEndsTheRun` | dataio/AsyncDataIO.cpp:256-263 | under every interleaving nothing reaches the child after a Shutdown command, and the thread ends with it |
| `AsyncSplicing.QuietMeansComplete` | dataio/AsyncDataIO.cpp:155-269 | once nothing is buffered, in flight or queued, the child has seen everything |
| `AsyncSplicing.TurnProgress` | dataio/AsyncDataIO.cpp:155-269 | with the main thread silent, every turn of the loop in which whoever is offered bytes takes some leaves strictly less to do, until nothing is left or a Shutdown has run |
| `AsyncSplicing.TurnsComplete` | dataio/AsyncDataIO.cpp:155-269 | so any run of as many such turns as there is work brings the child everything the main thread asked for |
| `AsyncSplicing.AsyncDataIO.SendData` | dataio/AsyncDataIO.cpp:20-26 | is the step in which the socket accepts a prefix |
| `AsyncSplicing.AsyncDataIO.CountBytesWritten` | dataio/AsyncDataIO.cpp:20-26 | is the step in which the main thread's counter catches up |
| `AsyncSplicing.AsyncDataIO.Enqueue` | dataio/AsyncDataIO.cpp:28-76 | is the step that queues a command with the current location |
| `AsyncSplicing.AsyncDataIO.CheckForCommand` | dataio/AsyncDataIO.cpp:155-174 | is the check under the lock |
| `AsyncSplicing.AsyncDataIO.WriteToChild` | dataio/AsyncDataIO.cpp:186-202 | gives the child exactly the first k buffered bytes, k being the least of what it is willing to take, what is buffered and bytesUntilNextCommand |
| `AsyncSplicing.AsyncDataIO.ReadFromMainThread` | dataio/AsyncDataIO.cpp:204-212 | appends exactly as many bytes as the socket has and the free tail of the fixed buffer holds |
| `AsyncSplicing.AsyncDataIO.ExecuteCommand` | dataio/AsyncDataIO.cpp:240-269 | is the execution of a command, at its recorded location |
| `AsyncSplicing.AsyncDataIO.BytesTaken` | dataio/AsyncDataIO.cpp:186-192 | the least of willingness, buffered bytes and bytesUntilNextCommand |
| `AsyncSplicing.AsyncDataIO.TakeTurn` | dataio/AsyncDataIO.cpp:155-269 | is one such turn |
| `AsyncSplicing.AsyncDataIO.RunInternalThread` | dataio/AsyncDataIO.cpp:112-272 | the loop comes to rest, with the child having seen everything or having just run a Shutdown |
| `AsyncSplicing.FromChildBuffer.Append` | dataio/AsyncDataIO.cpp:276-285 | appends all bytes or none, or as many as fit when that is allowed |
| `AsyncSplicing.FromChildBuffer.Drain` | dataio/AsyncDataIO.cpp:214-236 | removes the front and keeps the rest, through the reset and the in-place compaction |
| `PacketTunnel.OnlySentMessagesAreDelivered` | iogateway/PacketTunnelIOGateway.cpp:70-121 | under loss, duplication, reordering, truncation anywhere, eviction and any mixture of sources, everything delivered from a source is byte for byte a message that this source sent |
| `PacketTunnel.DeliveredIffEveryPacketArrives` | iogateway/PacketTunnelIOGateway.cpp:58-190 | on a lossy FIFO channel, whatever other sources send, a completely sent message of a source that is not evicted is delivered, once and in order, if and only if every packet carrying one of its fragments arrives |
| `PacketTunnel.LosslessDelivery` | iogateway/PacketTunnelIOGateway.cpp:58-190 | without loss the output equals the input |
| `TunnelGateway.AllPacketsAreEncoded` | iogateway/PacketTunnelIOGateway.cpp:178-187 | if nothing is lost, what arrives is what was written |
| `TunnelGateway.GatewaysDeliver` | iogateway/PacketTunnelIOGateway.cpp:34-190 | whatever calls were made on two objects, of the messages written out completely the receiver has handed over, once and in order, exactly those of which every packet has arrived |
| `TunnelGateway.GatewaysDeliverAll` | iogateway/PacketTunnelIOGateway.cpp:34-190 | once a sending object has nothing left to write and a receiving object has read all of its packets, the receiver has handed over exactly the messages queued |
| `TunnelGateway.GatewaysDeliverOnlySent` | iogateway/PacketTunnelIOGateway.cpp:34-190 | whatever calls were made on any number of sending objects and one receiving object, and whatever the channel did, the receiver has handed over nothing but messages queued at the object they are said to come from |
| `TunnelGateway.ExcludedGatewayIsNotHeard` | iogateway/PacketTunnelIOGateway.cpp:43-123 | a receiving object that excludes a sending one, be it itself, never follows it and hands over nothing of it but what it takes for miscellaneous data |
| `TunnelGateway.GatewayCutsByTheMTU` | iogateway/PacketTunnelIOGateway.cpp:137-176 | whatever calls were made, every fragment sent ends its message or fills its packet to the MTU |
| `PacketTunnel.FewSourcesMeansNoEviction` | iogateway/PacketTunnelIOGateway.cpp:74-81 | with at most 257 sources nobody is evicted |
| `PacketTunnel.RecentSourcesSurvive` | iogateway/PacketTunnelIOGateway.cpp:72-79 | a source stays in the table, its state untouched, while at most 256 other sources are heard from, so only sources silent for longer are evicted |
| `PacketTunnel.JustHeard` | iogateway/PacketTunnelIOGateway.cpp:72-92 | a source that has just been heard from becomes the most recent one |
| `PacketTunnel.ServedAsIfAlone` | iogateway/PacketTunnelIOGateway.cpp:72-121 | a source that is not evicted is served as if it were alone |
| `PacketTunnel.ParsePrefix` | iogateway/PacketTunnelIOGateway.cpp:58-123 | however a packet is cut off, and whatever the receiver's settings, only a prefix of its fragments is taken |
| `PacketTunnel.ParseWhole` | iogateway/PacketTunnelIOGateway.cpp:58-123 | a packet that the receiver does not filter out parses back to its fragments |
| `PacketTunnel.ParseExactly` | iogateway/PacketTunnelIOGateway.cpp:58-123 | exactly which fragments of a packet are taken, wherever it is cut off: none for another magic number or for the receiver's own non-zero exclusion ID, otherwise those that are whole, up to the first of a message above the size limit |
| `PacketTunnel.ExcludedSource` | iogateway/PacketTunnelIOGateway.cpp:43-123 | a source whose packets all come from an excluded sender never enters the table, and nothing comes from it but miscellaneous data |
| `PacketTunnel.TableIsBounded` | iogateway/PacketTunnelIOGateway.cpp:74-81 | no more than 257 sources are ever followed at a time |
| `PacketTunnel.PacketImage` | iogateway/PacketTunnelIOGateway.cpp:153-162 | a packet is fragment after fragment behind headers of six words in the stated order |
| `PacketTunnel.FillKeepsInv` | iogateway/PacketTunnelIOGateway.cpp:138-176 | the packing loop ends, cuts the messages up without gap or overlap, stays within the MTU, and leaves a packet empty only if there is nothing to send |
| `PacketTunnel.AddFragmentGrows` | iogateway/PacketTunnelIOGateway.cpp:149-175 | each turn of the packing loop makes the packet longer and keeps it within the MTU |
| `PacketTunnel.SentPacketsAreGenuine` | iogateway/PacketTunnelIOGateway.cpp:129-190 | every packet handed over fits the MTU and consists of pieces of the messages |
| `TunnelGateway.PacketTunnelIOGateway.constructor` | iogateway/PacketTunnelIOGateway.cpp:20-32 | starts empty on both sides, with a new packet buffer and an MTU of at least 25 |
| `TunnelGateway.PacketTunnelIOGateway.AddOutgoingBuffer` | iogateway/PacketTunnelIOGateway.cpp:140-146 | appends a buffer to the messages to be cut up and keeps the sender's invariant |
| `TunnelGateway.PacketTunnelIOGateway.MakeFragment` | iogateway/PacketTunnelIOGateway.cpp:149-162 | the next fragment takes as much of the current buffer as the packet has room for |
| `TunnelGateway.PacketTunnelIOGateway.AppendFragment` | iogateway/PacketTunnelIOGateway.cpp:149-175 | one turn of the packing loop on the packet buffer, the offset, the queue and the wrapping message counter |
| `TunnelGateway.PacketTunnelIOGateway.FillPacket` | iogateway/PacketTunnelIOGateway.cpp:137-176 | the packing loop computes the specified filling |
| `TunnelGateway.PacketTunnelIOGateway.WritePacket` | iogateway/PacketTunnelIOGateway.cpp:178-187 | hands over the bytes of the current packet, within the MTU, and starts a new one |
| `TunnelGateway.PacketTunnelIOGateway.DoOutput` | iogateway/PacketTunnelIOGateway.cpp:129-190 | the packets written encode the fragments recorded as sent, each fits the MTU, and a writer that is not held up leaves nothing to send |
| `TunnelGateway.PacketTunnelIOGateway.HandleFragment` | iogateway/PacketTunnelIOGateway.cpp:70-120 | lookup, eviction loop, creation, collection, delivery and rejection are the specified table update |
| `TunnelGateway.PacketTunnelIOGateway.HandlePacket` | iogateway/PacketTunnelIOGateway.cpp:43-124 | the parsing loop on arbitrary bytes is the specified reception, including miscellaneous data, and table and deliveries stay those of the packets that have arrived |
| `WebSocketFraming.ExecutesExactlyTheStream` | iogateway/WebSocketMessageIOGateway.cpp:280-408 | for every legal and supported frame stream and every split into reads, exactly its messages are executed, in order, up to the first CLOSE |
| `WebSocketFraming.StreamReadRightIff` | iogateway/WebSocketMessageIOGateway.cpp:280-408 | every legal stream, in every split into reads, is executed as section 5.4 of RFC 6455 demands, up to the first CLOSE, if and only if a walk over its frames finds no control frame behind collected bytes and no final fragment of a message whose first fragment was empty |
| `WebSocketFraming.InterruptedIsReadWrong` | iogateway/WebSocketMessageIOGateway.cpp:589-615 | for either role, a legal stream of two fragments with an empty control frame between them is read wrong exactly when the control frame is not a CLOSE or the first fragment is not empty |
| `WebSocketFraming.FeedFrame` | iogateway/WebSocketMessageIOGateway.cpp:319-404 | a frame in any length form is read back exactly, unmasked once with its own key |
| `WebSocketFraming.HeaderFailsIff` | iogateway/WebSocketMessageIOGateway.cpp:330-395 | header bytes make the parser fail, for good and without executing anything, exactly when a reserved bit is set, the mask bit is wrong for the peer's role, or a 64-bit length exceeds 10 MiB |
| `WebSocketFraming.MaskedTwice` | iogateway/WebSocketMessageIOGateway.cpp:303-310 | the masking of section 5.3 of RFC 6455 is its own inverse |
| `WebSocketFraming.MaskedBits` | iogateway/WebSocketMessageIOGateway.cpp:303-310 | masking inverts exactly those bits of an octet that are set in its octet of the key |
| `WebSocketFraming.ChunksDoNotMatter` | iogateway/WebSocketMessageIOGateway.cpp:280-408 | the parser's state depends only on the bytes, not on how they were split |
| `WebSocketFraming.ClosedForGood` | iogateway/WebSocketMessageIOGateway.cpp:617-620 | after CLOSE nothing more is executed, whatever arrives |
| `WebSocketFraming.ControlFrameIffNotInside` | iogateway/WebSocketMessageIOGateway.cpp:603-613 | a legal stream that ends with a control frame, with no CLOSE before it, is executed as section 5.4 of RFC 6455 demands, in any chunking, if and only if the rest of it is read right and leaves no message open of which a byte has come |
| `WebSocketFraming.FirstFragmentIffNotEmpty` | iogateway/WebSocketMessageIOGateway.cpp:591-598 | a message of any number of fragments keeps its opcode exactly when its first fragment is not empty; otherwise it is executed under opcode 0 |
| `WebSocketFraming.ReplyIsShortestFrame` | iogateway/WebSocketMessageIOGateway.cpp:541-587 | a gateway's frame is the final frame in the shortest length form, masked exactly if it comes from a client |
| `WebSocketFraming.ReplyImage` | iogateway/WebSocketMessageIOGateway.cpp:541-587 | the bytes of a gateway's frame: FIN and opcode, mask bit and length in one of three forms, the mask in network byte order, and the payload masked with the bytes of the mask in memory |
| `WebSocketFraming.ShortestForm` | iogateway/WebSocketMessageIOGateway.cpp:543-546 | the length form chosen fits, and no form that fits is shorter |
| `WebSocketFraming.ReplyFillsSize` | iogateway/WebSocketMessageIOGateway.cpp:543-550 | the precomputed frame size is the number of bytes written |
| `WebSocketFraming.ReplyReadsBack` | iogateway/WebSocketMessageIOGateway.cpp:541-587 | a frame of up to 10 MiB is executed by a peer of the other role with its opcode and the payload as the peer unmasks it |
| `WebSocketFraming.PayloadReadsBackIff` | iogateway/WebSocketMessageIOGateway.cpp:571-584 | the peer executes the payload that was sent exactly when the frame is a server's or the announced and applied mask bytes agree where they are used |
| `WebSocketFraming.MasksAgreeIff` | iogateway/WebSocketMessageIOGateway.cpp:574-580 | they always agree on a big-endian machine, and on a little-endian one exactly when the word reads the same in both directions as far as the payload reaches |
| `WebSocketFraming.LittleEndianClientGarbles` | iogateway/WebSocketMessageIOGateway.cpp:574-580 | a little-endian client's frame that a server executes with another payload |
| `WebSocketFraming.PeerExecutesTheQueue` | iogateway/WebSocketMessageIOGateway.cpp:461-587 | everything that a gateway queues is executed by a peer of the other role, in order, up to the first CLOSE |
| `WebSocketFraming.ServerStreamReadsBack` | iogateway/WebSocketMessageIOGateway.cpp:461-587 | everything that a server queues is executed by the client, in order, up to the first CLOSE |
| `WebSocketFraming.MaskIffKeysAgree` | iogateway/WebSocketMessageIOGateway.cpp:303-310 | unmasking with one key what was masked with another restores the payload exactly when the keys agree where they are used |
| `WebSocketFraming.MaskBytes` | iogateway/WebSocketMessageIOGateway.cpp:577-580 | a client's masking loop is the transformation of section 5.3 of RFC 6455 |
| `WebSocketFraming.GatewaysExecute` | iogateway/WebSocketMessageIOGateway.cpp:243-704 | whatever calls were made on two gateway objects, the one that has read part of what the other has written has executed, in order, a first part of what was queued up to the first CLOSE, and all of it once nothing is left to write or read; and the PONGs among everything ever queued there are exactly one per PING executed, with the same payloads, in order |
| `WebSocketFraming.PongsAnswerPings` | iogateway/WebSocketMessageIOGateway.cpp:660-688 | one frame of opcode 10 with the same payload for each executed frame of opcode 9, in order, and nothing for any other |
| `WebSocketFraming.WebSocketMessageIOGateway.ExecuteReceivedFrame` | iogateway/WebSocketMessageIOGateway.cpp:617-704 | executes unless closed, closes on CLOSE, answers a PING, and clears the payload state |
| `WebSocketFraming.WebSocketMessageIOGateway.InitializeIncomingPayload` | iogateway/WebSocketMessageIOGateway.cpp:589-615 | empty, first and continued payloads, as specified |
| `WebSocketFraming.WebSocketMessageIOGateway.UnmaskPayload` | iogateway/WebSocketMessageIOGateway.cpp:303-310 | the in-place loop unmasks exactly the new fragment |
| `WebSocketFraming.WebSocketMessageIOGateway.CompletePayload` | iogateway/WebSocketMessageIOGateway.cpp:301-315 | the end of a fragment: unmasking, execution if final or closed, and a new header |
| `WebSocketFraming.WebSocketMessageIOGateway.CompleteHeader` | iogateway/WebSocketMessageIOGateway.cpp:330-403 | the switch over header sizes, with its error cases, is the specified transition, and a header never needs more than 14 bytes |
| `WebSocketFraming.WebSocketMessageIOGateway.ReceivePayload` | iogateway/WebSocketMessageIOGateway.cpp:290-317 | one read of payload bytes has the effect of its bytes one by one |
| `WebSocketFraming.WebSocketMessageIOGateway.ReceiveHeader` | iogateway/WebSocketMessageIOGateway.cpp:319-406 | one read of header bytes into the 14-byte buffer has the effect of its bytes one by one |
| `WebSocketFraming.WebSocketMessageIOGateway.ReceiveSome` | iogateway/WebSocketMessageIOGateway.cpp:280-406 | one turn of the input loop reads at least one byte and never past the end of a header or payload |
| `WebSocketFraming.WebSocketMessageIOGateway.DoInput` | iogateway/WebSocketMessageIOGateway.cpp:280-408 | has the effect of the consumed bytes one by one, stops early only on an error, and queues exactly the PONGs that are due |
| `WebSocketFraming.WebSocketMessageIOGateway.CreateReplyFrame` | iogateway/WebSocketMessageIOGateway.cpp:541-587 | fills the output buffer with the next frame, of exactly the precomputed size, for servers and clients |
| `WebSocketFraming.WebSocketMessageIOGateway.AddOutgoing` | iogateway/WebSocketMessageIOGateway.cpp:679-688 | adds exactly one frame to what is owed to the peer |
| `WebSocketFraming.WebSocketMessageIOGateway.NextFrame` | iogateway/WebSocketMessageIOGateway.cpp:481-495 | turns the head of the queue into the output buffer without changing what is owed |
| `WebSocketFraming.WebSocketMessageIOGateway.WriteSome` | iogateway/WebSocketMessageIOGateway.cpp:463-478 | what is written plus what is still owed is what was owed |
| `WebSocketFraming.WebSocketMessageIOGateway.DoOutput` | iogateway/WebSocketMessageIOGateway.cpp:461-535 | keeps the run invariant that bytes written, buffered and queued are the frames of everything ever queued, and a writer that is not held up leaves nothing owed |
| `SlipFraming.SLIPEncodeBytes` | iogateway/SLIPFramedDataMessageIOGateway.cpp:48-90 | accepts exactly the lengths below (2^32-1)/2, encodes them, and the size fits in 32 bits |
| `SlipFraming.CountSLIPBytes` | iogateway/SLIPFramedDataMessageIOGateway.cpp:53-61 | the precomputed size is the encoded size |
| `SlipFraming.FillSLIPBytes` | iogateway/SLIPFramedDataMessageIOGateway.cpp:64-88 | fills a buffer of that size exactly |
| `SlipFraming.FeedEncoded` | iogateway/SLIPFramedDataMessageIOGateway.cpp:142-191 | from any decoder state, even in mid-escape, an encoded chunk is delivered as the last frame |
| `SlipFraming.DecodesExactlyTheChunks` | iogateway/SLIPFramedDataMessageIOGateway.cpp:127-191 | encoded chunks, split in any way, decode to exactly the non-empty chunks in order |
| `SlipFraming.DecodesTheSegments` | iogateway/SLIPFramedDataMessageIOGateway.cpp:142-191 | on arbitrary bytes the decoder hands over exactly what the segments between END octets stand for, wrong escapes included |
| `SlipFraming.EncodedImage` | iogateway/SLIPFramedDataMessageIOGateway.cpp:64-88 | an encoded chunk has END at both ends and nowhere between, and replaces END and ESC as RFC 1055 says |
| `SlipFraming.SLIPFramedDataMessageIOGateway.MessageReceivedFromGateway` | iogateway/SLIPFramedDataMessageIOGateway.cpp:142-191 | the decoding loop has the effect of the bytes one by one |
| `SlipFraming.SLIPFramedDataMessageIOGateway.FlushCurrentIncomingSLIPFrame` | iogateway/SLIPFramedDataMessageIOGateway.cpp:127-139 | a pending frame is handed over unless it is empty |
| `PacketizedProxy.ReturnsExactlyThePackets` | dataio/PacketizedProxyDataIO.cpp:16-66 | however the stream is chunked, the reader returns the non-empty packets whole and in order |
| `PacketizedProxy.OversizedIsRefused` | dataio/PacketizedProxyDataIO.cpp:32-37 | a packet that announces more than the limit ends the reading for good, after the packets before it |
| `PacketizedProxy.PacketImage` | dataio/PacketizedProxyDataIO.cpp:80-92 | a packet is its length, lowest byte first, and its bytes |
| `PacketizedProxy.PacketizedProxyDataIO.Write` | dataio/PacketizedProxyDataIO.cpp:68-98 | takes the whole packet or nothing, fails exactly on the stated conditions, keeps child bytes plus buffered tail equal to the prefixed accepted packets, and its retry terminates |
| `PacketizedProxy.PacketizedProxyDataIO.WriteBufferedOutputAux` | dataio/PacketizedProxyDataIO.cpp:100-117 | gives the child exactly as much as it accepts and loses nothing |
| `PacketizedProxy.PacketizedProxyDataIO.Read` | dataio/PacketizedProxyDataIO.cpp:16-66 | has the effect of the consumed bytes one by one, returns at most one packet, cut to the caller's buffer, and otherwise consumes everything available or ends with an empty packet |
| `PacketizedProxy.PacketizedProxyDataIO.ReceivePrefix` | dataio/PacketizedProxyDataIO.cpp:22-45 | reads as many prefix bytes as are missing and available, rejects a size above the limit and skips an empty packet |
| `PacketizedProxy.PacketizedProxyDataIO.ReceiveData` | dataio/PacketizedProxyDataIO.cpp:47-63 | reads data bytes and hands the packet over when it is complete |
| `PlainTextLines.LinesAreTheSplit` | iogateway/PlainTextMessageIOGateway.cpp:213-247 | under every split of NUL-free text into reads, even between CR and LF, delivered lines and pending text are the split of the whole stream on CR, LF or CRLF |
| `PlainTextLines.FeedSplits` | iogateway/PlainTextMessageIOGateway.cpp:222-233 | the CR flag carries over from any earlier state |
| `PlainTextLines.SentLinesComeBack` | iogateway/PlainTextMessageIOGateway.cpp:92-100 | lines without breaks, sent with any of the three line ends, come back unchanged |
| `PlainTextLines.QueuedLinesComeBack` | iogateway/PlainTextMessageIOGateway.cpp:72-247 | queued Messages, written with any of the three line ends and read in any pieces, give back every line in order |
| `PlainTextLines.NulFreeRead` | iogateway/PlainTextMessageIOGateway.cpp:213-247 | on NUL-free text a read is no more than its bytes |
| `PlainTextLines.TwoReadsAreOneIff` | iogateway/PlainTextMessageIOGateway.cpp:222-240 | reading a and b in one go or in two comes to the same if and only if no NUL follows the last line break of a, or b shows no text before its first line break |
| `PlainTextLines.NulsBreakChunkInvariance` | iogateway/PlainTextMessageIOGateway.cpp:228-240 | two bytes and one byte that give different results in one read and in two |
| `PlainTextLines.PlainTextMessageIOGateway.AddIncomingText` | iogateway/PlainTextMessageIOGateway.cpp:122-138 | delivers the pending text and the new text as one line |
| `PlainTextLines.PlainTextMessageIOGateway.AddOutgoingMessage` | iogateway/AbstractMessageIOGateway.cpp:135-139 | adds exactly the Message's lines to the text owed |
| `PlainTextLines.PlainTextMessageIOGateway.DoInput` | iogateway/PlainTextMessageIOGateway.cpp:213-247 | one read of at most 2047 bytes, cut into C strings at breaks, as specified |
| `PlainTextLines.PlainTextMessageIOGateway.NextMessage` | iogateway/PlainTextMessageIOGateway.cpp:78-85 | takes the next Message from the queue without changing the text owed |
| `PlainTextLines.PlainTextMessageIOGateway.NextLine` | iogateway/PlainTextMessageIOGateway.cpp:89-103 | takes the next line with its line end, or gives the Message up, without changing the text owed |
| `PlainTextLines.PlainTextMessageIOGateway.WriteSome` | iogateway/PlainTextMessageIOGateway.cpp:106-117 | what is written plus what is still owed is what was owed |
| `PlainTextLines.PlainTextMessageIOGateway.DoOutputAux` | iogateway/PlainTextMessageIOGateway.cpp:72-120 | text written plus text still owed is the text of everything ever queued, for every recursion depth; with a line end that is not empty, a writer that is not held up writes everything or uses up all the levels of recursion that are left |
| `PlainTextLines.FilterAppend` | iogateway/PlainTextMessageIOGateway.cpp:305-331 | filtering in chunks is filtering the whole stream |
| `PlainTextLines.CommandTakesThree` | iogateway/PlainTextMessageIOGateway.cpp:322-327 | a Telnet command removes exactly its three bytes |
| `PlainTextLines.SubnegotiationTakesAll` | iogateway/PlainTextMessageIOGateway.cpp:319-328 | a subnegotiation of any length is removed whole |
| `PlainTextLines.TextIsKept` | iogateway/PlainTextMessageIOGateway.cpp:315-330 | 7-bit text outside commands passes through unchanged |
| `PlainTextLines.SessionsLeaveTheirText` | iogateway/PlainTextMessageIOGateway.cpp:305-331 | of any series of texts, commands, subnegotiations and stray bytes, split into reads anywhere, exactly the texts are left |
| `PlainTextLines.TelnetFilter.FilterInputBuffer` | iogateway/PlainTextMessageIOGateway.cpp:305-331 | the in-place loop leaves exactly the per-byte fold over the buffer at its front |

## Left out

- Sockets, files, child processes, serial ports, OpenSSL and the language bindings: operating-system calls with little logic of their own.
- zlib encodings: the codec keeps stream state that is not modelled; only the default encoding is.
- Reuse tags on Messages, packet-location tagging, slave gateways, UDP modes of the stream gateways, CountedMessageIOGateway's counters, time slices and logging.
- Allocation failure and reference sharing: Messages, buffers and arrays are values, so EnsurePrivate() and aliasing are not captured.
- Templated padding, where the payload has fewer items than the template, is modelled but unreachable when layouts match; nothing is stated about it.
- The templating results assume, as the protocol does, a reliable FIFO stream, equal cache limits, no hash collision among the layouts in use, bodies below 2^31 bytes and no empty fields in a templated Message.
- Flattenable fields in the empty state: the source asserts that they are never flattened or counted, and Valid() excludes them.
- Fields of user-defined flattenable objects other than ByteBuffers, and NULL references in fields.
- Flattened Messages of exactly 2^32 - 1 bytes, a length that the source takes to mean that there is no limit.
- Malformed buffers that announce an item of 2^31 bytes or more and do not hold it: the source's signed seek may move backwards there, and the model stops with an error.
- Frames whose header and body together reach 2^32 bytes, where the source's buffer size would wrap around.
- The self-comparison shortcut of operator==(), which matters only for floating-point NaNs; reflexivity, transitivity and the checksum results are for Messages without floating-point fields, whose comparison need be neither reflexive nor true to the bytes.
- AsyncDataIO: pulses, notification bytes and the order of select() events; closing the notify socket ends the thread at once, so no draining is promised; 64-bit byte counters do not wrap around.
- PacketTunnel.DeliveredIffEveryPacketArrives: for fewer than 2^32 messages per run, so that message IDs are unique, and for a receiver whose input buffer and size limit are large enough; the same goes for the results about two objects.
- PacketTunnel.OnlySentMessagesAreDelivered: a packet cut off before its 24th byte is no genuine arrival for a receiver that accepts miscellaneous data, which hands such bytes on as they are.
- The WebSocket HTTP handshake, and the grouping of received text and binary payloads into Messages, which depends on chunking.
- WebSocket output items stand for the strings, chunks and PONGs of the queued Messages; a client's pseudo-random words are a parameter, one for each frame.
- WebSocketFraming.WebSocketMessageIOGateway.CreateReplyFrame: for payloads whose frame size fits in 32 bits; the source's size counter would wrap around beyond that.
- PlainTextLines.PlainTextMessageIOGateway.DoOutputAux: with an empty end-of-line string an empty line ends the call early, so no progress is promised for that setting.
- The flush-partial-lines option of the plain-text gateway and its packet mode.
- MiniPacketTunnelIOGateway, SimulatedMulticastDataIO, MultiDataIO and the reflector sessions.
