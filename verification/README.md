# Verification of the clove2 codecs, framers and controllers

This project models the parts of the clove2 networking library whose correctness spans several
functions, and proves what they promise for every input or every run:

- the **Clove value codec**: a recursive tag, length and value encoding of numbers, strings, lists
  and maps, in either byte order. Decoding undoes encoding up to a normal form, encodings delimit
  themselves, and the decoder terminates on arbitrary bytes. What is written and read is also stated
  in plain numbers, as for every other format;
- the **stream framers** of the Clove and WebSocket protocols, which parse a FIFO buffer after every
  read. The packets do not depend on how the bytes arrive, except where the proofs show exactly how
  they do;
- **format detection**, by which a connection learns its protocol from its first bytes;
- the **TCP controller**, a machine of small steps in which any number of senders, one process loop
  and one reader interleave freely: exactly when the wire carries the writes in their order, how the
  flag moves, why the controller stops, that it always can be left, and which packaged packets arrive;
- **bit-shift masking** and **UDP fragmentation**.

`dafny verify dfyconfig.toml` checks everything.

## How the source is modelled

- A byte is an integer from 0 to 255 (`Bytes`); shifts and bitwise operations are defined on it in
  `Bits`. Wrap-around and truncation are written out with `%` where the source has them.
- The codec, the framers, detection, masking and fragmentation are methods with loops, proved equal
  to recursive functions about which the theorems speak. `FragmentPipeline` and the receiving half
  of the TCP controller are classes with the source's fields.
- `StandardBuffer` is a class over an array with the storage policy of bytes.Buffer: a write goes
  behind the unread bytes, to the front of the same array, or to a new array of any sufficient
  capacity, and `Next` returns a range of the array. The WebSocket parser unmasks that array in place.
- A Go map is an association list with Go's key equality: assigning to an equal key stores the
  new spelling and value in its place, NaN is equal to nothing, and the two zeros are equal. The order
  of `MapRange` is the order of the list, which is arbitrary. Floats are bit patterns.
- A recovered panic is an explicit outcome: `Recovered` for `Decode` (codec/clove.go:176-179),
  nothing parsed and nothing consumed for the WebSocket parser (network/ws.go:156-159).
- The concurrent controller is a datatype `State` with a step for each atomic action. `flag |= bit`
  is three steps: its test, its load and its store. The bytes in the loop's hands are a range of
  bufSend's array, read when they are sent. `TcpSendLoop` is the loop's own code for one token on the
  real buffer, with the writes of other calls in between, proved to be a run of those steps.
- The score and the parsing of an HTTP request are net/http's; they are parameters of a format.

## What turned out differently from what one might expect

- The decoder compares the length of the remaining bytes truncated to 32 bits. The round trip holds
  exactly while no such comparison wraps (`CloveRoundTrip.RoundTrip`), in particular below 2^32
  bytes; `CloveTheorems.LongTailRefuted` is a failing input.
- A float64 whose bits fit in 32 bits is written as a float32 with these bits. It keeps its value
  exactly if it is zero or larger (`CloveNumbers.FloatPreserved`).
- A list counts the items it could not encode, so it decodes exactly when there are none at any depth
  (`CloveMissing.ListDecodesIffAllWritten`). Such a list inside a map takes the map's bytes for its
  own, and the whole can decode to another value without an error (`CloveMissing.WrongWithoutError`),
  but never to the value with nil for the missing items (`CloveFilled.RoundTripIffAllWritten`).
- Keys that differ in Go can be equal once decoded: int8(1) and int(1), or the float64 and the float32
  with the same bits. The map keeps all pairs exactly when no two keys are (`CloveKeys.NoPairLost`);
  of the others the last one in the iterator's order stays (`CloveReader.OrderIndependent`).
- A damaged Clove frame drops the packets of its own call, and a frame with a length of 1 to 4 is
  thrown away and ends the call. What the framer returns then depends on the pieces;
  `CloveFramingCuts.SameInAllPieces` says for which bytes it does not.
- Reading a decoded map by a number that is not a key can find the number with the same 64-bit
  pattern (`CloveReader.ReadAfterDecode`, `CloveReader.NegativeAliasFound`).
- The WebSocket parser takes a final frame as present from its first byte on. A fragmented message
  whose final frame is split is truncated, damaged or unmasked twice; `WebSocketSplit.TwoPieces` says
  for every cut whether the message survives, `WebSocketCuts.DeliveryIffHarmless` for every delivery.
- A WebSocket message that is interrupted by the start of another one, a ping included, is lost
  (`WebSocketFrames.LastMessage`).
- A packaged WebSocket ping is refused by the parser (`WebSocketPackaging.PackagedPingRefused`).
- A first read of fewer than five bytes settles a connection on the default format, although the
  bytes may start a Clove packet (`Detection.ShortReadTakesDefault`, `TcpReceiver.StreamReceived`).
- A Clove packet whose protocol type or version is 0 is not recognised as Clove, although the framer
  parses it. If a connection starts with one, nothing is ever delivered and everything is buffered
  (`TcpReceiver.NeverRecognized`).
- Answering a WebSocket upgrade empties the receive buffer: messages that came in the same read as the
  end of the request are lost (`TcpWebSocket.UpgradeDrops`, `TcpWebSocket.EarlyMessagesLost`).
- `Next` returns a slice of bufSend's array, and the loop holds it while other calls write. A write
  that goes to the front of that array overwrites bytes not yet sent: the second of two packets is
  then sent twice and the first never (`TcpScripts.Overwritten`, `TcpEndToEnd.PacketOverwritten`).
  The wire carries the writes in order exactly in the runs without such a write
  (`TcpTheorems.BytesConserved`), in particular if no call writes while the loop is sending
  (`TcpTheorems.QuietSendsConserve`).
- `SendPacketsAndClose` can close before its own packets are sent, if another call stands between its
  write and its token (`TcpTheorems.CloseCompleteIff`, `TcpScripts.CloseOvertakes`).
- `SetPacketFormat` from another goroutine can make the flag Opened again after Closing; the
  controller then never leaves (`TcpLifecycle.InFlightReopens`, `TcpLifecycle.Reopened`,
  `TcpLifecycle.EndedUnleft`). Without such a call past its test the
  life cycle is in order (`TcpLifecycle.LifecycleInOrder`). The repository itself has no such call,
  and without one the life cycle is in order in every run (`TcpLifecycle.Lifecycle`) and every run
  can go on to the end (`TcpLeaving.CanLeave`).
- A fragment pipeline starts with the count 0, which no fragment changes, so it never delivers a
  Clove packet (`UdpTheorems.NothingCombined`). Reassembly is therefore stated for a pipeline that
  knows its count. A repeated fragment makes it forget the others: it reassembles exactly when all
  fragments have arrived since the last repeat (`UdpTheorems.Reassembles`).

## Model

| member | source | states |
|---|---|---|
| CloveCodec.Encode | codec/clove.go:325-541 | the encoder's recursion and its branches write exactly what the specification `Encoding` says, or report an unsupported type |
| CloveCodec.EncodeEntries | codec/clove.go:494-520 | the map loop counts and joins only the pairs it could encode |
| CloveCodec.EncodeEntry | codec/clove.go:500-513 | a pair whose key or value cannot be encoded is skipped |
| CloveCodec.EncodeItems | codec/clove.go:522-538 | the list loop joins the items it could encode |
| CloveCodec.Decode | codec/clove.go:176-313 | on every byte string the decoder returns what `Decoding` says: a value and the remaining bytes, an error, or the result of a recovered panic |
| CloveCodec.DecodeEntries | codec/clove.go:284-299 | the pair loop with Go map assignment; an unhashable key panics |
| CloveCodec.DecodePair | codec/clove.go:287-297 | the value is decoded from what the key left |
| CloveCodec.DecodeItems | codec/clove.go:300-310 | the element loop |
| CloveCodec.Decoding | codec/clove.go:176-313 | the remainder is never longer than the input, on which the termination of the nested calls rests |
| CloveCodec.ParseHeader | codec/clove.go:190-217 | every header form consumes at least one byte, so nested calls get strictly less |
| CloveWire.EncodedSpelled | codec/clove.go:325-541 | for every supported value the bytes written, in literals: the first byte of each kind, the length in one, two or four bytes and the numbers byte by byte in the chosen order |
| CloveWire.DecodedMeans | codec/clove.go:176-313 | for every byte string what is decoded, in literals: the four forms of a header and the meaning of each of the 32 tags |
| CloveWire.PairMeans | codec/clove.go:284-299 | the first element of a pair is the key, and a map, a list or a byte slice as a key panics |
| CloveWire.FieldOfUint | codec/clove.go:247-274 | reading a number and laying it out again, byte by byte in either order, gives the same bytes |
| CloveWire.ParsesDecimal | codec/clove.go:233-245 | a signed decimal number is read as itself if an int64 can hold it, and is an error otherwise |
| CloveWire.ParsesDigitsOnly | codec/clove.go:233-245 | no digits, or another character, are an error |
| CloveWire.BigNumberMeans | codec/clove.go:233-245 | a big number element yields the number its characters spell, or 0 |
| CloveRoundTrip.RoundTrip | codec/clove.go:176-313 | for every supported nested value, byte order, pair order and trailing bytes, decoding the encoding gives the normal form and exactly the trailing bytes if and only if no length comparison wraps; otherwise an error |
| CloveRoundTrip.ItemsRoundTrip | codec/clove.go:300-310 | the same for the items of a list, behind any items already decoded |
| CloveRoundTrip.EntriesRoundTrip | codec/clove.go:284-299 | the same for the pairs of a map, behind any pairs already assigned |
| CloveRoundTrip.PairRoundTrip | codec/clove.go:284-297 | the same for one key and value |
| CloveRoundTrip.IntRoundTrip | codec/clove.go:421-467 | the same for every integer of every Go kind |
| CloveRoundTrip.EntriesCount | codec/clove.go:499-517 | the count in a map's header is the number of pairs written |
| CloveTheorems.FitsBelow4G | codec/clove.go:219-224 | no length comparison wraps while encoding and trailing bytes stay below 2^32 |
| CloveTheorems.DecodeUndoesEncode | codec/clove.go:176-541 | below 2^32 bytes every supported value is encoded and decodes to its normal form, with the trailing bytes left over |
| CloveTheorems.LongTailRefuted | codec/clove.go:219-224 | a one-byte string followed by 2^32 - 1 bytes is refused |
| CloveTheorems.StrictPrefixFails | codec/clove.go:180-310 | every strict prefix of the encoding of a supported value is an error |
| CloveTheorems.ItemsPrefixFails | codec/clove.go:300-310 | cutting the items of a list anywhere is an error |
| CloveTheorems.EntriesPrefixFails | codec/clove.go:284-299 | cutting the pairs of a map anywhere is an error |
| CloveDelimiting.SelfDelimiting | codec/clove.go:176-313 | one byte string cannot start with encodings of two supported values with different normal forms, nor be divided from its rest in two ways, however long it is |
| CloveKeys.NoPairLost | codec/clove.go:284-299 | the decoded map has as many pairs as were written, and then the same ones in the same order, if and only if no two of their keys are equal once decoded; its keys always differ |
| CloveKeys.PutPlace | codec/clove.go:284-299 | assigning to an equal key keeps its place in the map and stores the new spelling and value |
| CloveKeys.LookupFinds | codec/codec.go:89-93 | a lookup finds the pair with an equal key, and nothing if there is none |
| CloveKeys.Canonical | codec/clove.go:340-541 | the normal form is supported and its own normal form; encoded again it is never longer, and it is the same bytes if and only if no map in the value loses a pair |
| CloveMissing.TakesMore | codec/clove.go:522-538 | a value with k missing items, in lists and maps nested to any depth, takes k more values from behind it, and decoding it and what should follow fails if they are not there |
| CloveMissing.ListDecodesIffAllWritten | codec/clove.go:522-538 | a list of lists to any depth decodes if and only if every item in it could be encoded and no length comparison wraps; otherwise it is an error |
| CloveMissing.DecodedPlain | codec/clove.go:176-313 | on every byte string no value the decoder returns holds an item the encoder cannot write, at any depth |
| CloveFilled.RoundTripIffAllWritten | codec/clove.go:494-538 | lists and maps nested in each other come back as their normal form with nil for every missing item if and only if none is missing and no length comparison wraps |
| CloveMissing.WrongWithoutError | codec/clove.go:284-310 | a value with a missing item, written without an error, decodes to a list of nil without an error and with nothing left over |
| CloveDecoder.RemainderIsSuffix | codec/clove.go:176-313 | on every byte string the remainder is a suffix of the input, and it is the whole input without an error only for unknown and reserved tags, which yield nil |
| CloveNumbers.ShortestInteger | codec/clove.go:98-124 | no integer encoding with a default width that decodes to n is shorter than the one written |
| CloveNumbers.IntegerExact | codec/clove.go:247-270 | every int64 and uint64 decodes to the same number |
| CloveNumbers.FloatPreserved | codec/clove.go:469-480 | a finite float64 keeps its value if and only if its bits are zero or exceed 32 bits |
| CloveNumbers.FloatKeys | codec/clove.go:284-299 | two finite floats of one type are the same key if and only if they are the same number |
| CloveNumbers.InfiniteKeys | codec/clove.go:284-299 | an infinity is the same key as itself only, and NaN not even that |
| CloveReader.ReadNumber | codec/codec.go:89-216 | reading a number of any Go integer kind finds the value written last under it, else the one written last under the number with the same 64-bit pattern |
| CloveReader.ReadAfterDecode | codec/codec.go:89-216 | after encoding and decoding a map, reading by number agrees with the map exactly if the number was a key or its alias reads as nil; from 0 to 2^63 - 1 it always agrees |
| CloveReader.NegativeAliasFound | codec/codec.go:89-216 | reading -1 finds what was stored under 2^64 - 1 |
| CloveReader.ReadStoredInteger | codec/codec.go:240-342 | IntValueOf and UintValueOf return a stored integer in range unchanged and wrap the others |
| CloveReader.ReadsFirstKind | codec/codec.go:95-200 | in any map a number is read under the first of the ten kinds, in the source's order, under which it is a key, or as nil |
| CloveReader.ReadBack | codec/codec.go:89-216 | after encoding and decoding a map, a string reads as what was written last under it, a number as ReadNumber says, and any other key but a float as nil |
| CloveReader.ReadIntegers | codec/codec.go:240-342 | for every such key, IntValueOf and UintValueOf return the integer found, wrapped to 64 bits, and the default if nothing or no integer is found |
| CloveReader.ConvertExact | codec/codec.go:105-200 | a conversion yields the one number of the kind that is congruent to its argument, and leaves exactly the numbers of the kind as they are |
| CloveReader.OrderIndependent | codec/clove.go:499-517 | every key reads the same after decoding, in whatever order the iterator walked the map, if and only if the pairs whose keys become equal have values that become equal |
| BitMask.MaskBytes | base/bit.go:3-25 | the masking loop computes `Masked`, for every shift, also above 7 |
| BitMask.UnMaskBytes | base/bit.go:27-47 | the unmasking loop, with its two contributions to each byte, computes the hidden mask and `Unmasked` |
| BitMask.UnmaskUndoesMask | base/bit.go:3-47 | for every shift from 0 to 7, mask and array, also the empty one, unmasking returns both |
| BitMask.MaskUndoesUnmask | base/bit.go:3-47 | masking what a nonempty array unmasks to returns the array |
| BitMask.MaskedBit | base/bit.go:3-25 | where each bit of the masked array comes from: all bits moved by the shift, the mask's top bits first, its low bits last, and the mask added inside |
| BitMask.UnmaskedBit | base/bit.go:27-47 | where each bit of the unmasked array comes from |
| BitMask.HiddenBit | base/bit.go:27-33 | the mask is read from the top bits of the first byte and the low bits of the last one |
| Bits.OrNibbles | network/clove.go:194-196 | combining two nibbles by `or` is adding them |
| Buffer.StandardBuffer.Len | base/buffer.go:51-53 | the number of unread bytes |
| Buffer.StandardBuffer.Peek | base/buffer.go:34-41 | the first bytes, which stay unread |
| Buffer.StandardBuffer.Next | base/buffer.go:25-32 | removes the first bytes, fewer if there are fewer, and returns them as the range of the array that ends at the new offset |
| Buffer.StandardBuffer.Write | base/buffer.go:43-45 | appends behind the unread bytes, in the same array where it fits there and in a new array otherwise |
| Buffer.SliceKept | base/buffer.go:66-92 | a slice taken earlier keeps its bytes through a write into the same array if and only if the write puts no other byte into its range |
| Buffer.StandardBuffer.Reset | base/buffer.go:47-49 | leaves nothing unread |
| CloveFraming.ParseFromBytes | network/clove.go:37-80 | a parsed packet has at least a header's length and lies within the input |
| CloveFraming.Package | network/clove.go:165-200 | exactly the binary packets are packaged, five bytes longer than their payload |
| CloveFramingWire.FlagsWritten | network/clove.go:180-192 | for every binary packet bits 7 and 3 of the flag byte are set, bits 6 to 4 clear, bit 0 says compression supported, bit 1 encrypted and bit 2 compressed |
| CloveFramingWire.Layout | network/clove.go:194-200 | behind it the protocol numbers in one byte, the length in three, highest first, and the payload |
| CloveFramingWire.AnyLayout | network/clove.go:194-200 | the same bits for any packet: protocol numbers above a nibble and lengths above 24 bits run into each other |
| CloveFramingWire.ParsedBits | network/clove.go:37-80 | what is parsed from any bytes, in literals and bits, with each error in its order |
| CloveFraming.ParseFromBuffer | network/clove.go:82-120 | the buffer loop returns and leaves what `Drain` says |
| CloveFramingTheorems.ParseUndoesPackage | network/clove.go:37-200 | a packaged packet followed by any bytes parses to itself if and only if its protocol numbers are nibbles and its length fits 24 bits |
| CloveFramingTheorems.IncompleteWaits | network/clove.go:88-101 | every strict prefix of a packaged packet is waited for |
| CloveFramingTheorems.SteadySplit | network/clove.go:82-120 | on bytes whose whole frames parse, up to a short frame with nothing to take behind it, parsing a first part and then its leftover with the rest parses the whole |
| CloveFramingTheorems.ChunkIndependence | network/clove.go:82-120 | on such bytes every delivery in pieces gives the packets, order and leftover of one delivery |
| CloveFramingCuts.SameInAllPieces | network/clove.go:82-120 | on arbitrary bytes, all deliveries in pieces give the result of one delivery if and only if the bytes are such ones or their first frame is damaged |
| CloveFramingCuts.CutMatters | network/clove.go:82-120 | for all other bytes, the cut before the damaged frame or behind the short frame's header gives another result |
| CloveFramingCuts.DamageLosesPacket | network/clove.go:103-113 | a packet and a damaged frame: lost in one read, delivered in two |
| CloveFramingCuts.ShortFrameMatters | network/clove.go:103-113 | a short frame and five more bytes: left over in one read, an error in two |
| CloveFramingTheorems.PrefixDrains | network/clove.go:82-120 | a first part of a packaged stream gives exactly the packets whole in it and leaves exactly the incomplete one |
| CloveFramingTheorems.PackagedChunks | network/clove.go:82-200 | the same for any pieces of any first part of a packaged stream |
| WebSocket.GetFrameLengths | network/ws.go:273-307 | the header's length and the frame's length, or -1 while the header is incomplete |
| WebSocket.CheckFinishFrame | network/ws.go:253-271 | finds a final frame by its first byte, stops at an incomplete one, or panics at the end of the bytes |
| WebSocket.XorInPlace | network/ws.go:331-333 | exactly the payload is changed, each byte by its byte of the key |
| WebSocket.GetPayloadData | network/ws.go:309-336 | the unmasked payload, which replaces the masked one where it lies |
| WebSocket.ParseFromBytes | network/ws.go:156-251 | the frame loop returns, consumes and unmasks in place what `Parsing` says, and touches nothing outside its bytes |
| WebSocket.Parsing | network/ws.go:156-251 | the bytes keep their number, no more than they are is consumed, and a returned packet consumes some |
| WebSocket.ParseFromBuffer | network/ws.go:338-367 | the buffer loop returns and leaves what `DrainWs` says |
| WebSocketTheorems.WholeFrame | network/ws.go:273-336 | any valid frame is read with its length and payload, whatever its mask, length form and what follows (RFC 6455, sections 5.2 and 5.3) |
| WebSocketTheorems.PartialFrame | network/ws.go:273-307 | every strict prefix of two bytes or more of a frame is seen as incomplete |
| WebSocketTheorems.XorKeyTwice | network/ws.go:331-333 | unmasking undoes masking |
| WebSocketMessages.Reassembly | network/ws.go:156-251 | a message cut into any frames and followed by any bytes returns the joined payloads, consumes exactly its frames and changes only masked payloads (RFC 6455, section 5.4) |
| WebSocketMessages.FinalRefused | network/ws.go:188-243 | a lone final frame of another opcode ends the connection, a close frame as the client's request and every other one as damage, and consumes nothing |
| WebSocketFrames.LastMessage | network/ws.go:166-248 | frames of readable opcodes up to a final one give the last message started in them with its payloads joined, and exactly they are consumed |
| WebSocketFrames.FirstRefused | network/ws.go:188-243 | the first frame that cannot be read, or a continuation of nothing, decides the error, consumes nothing and loses the messages before it |
| WebSocketDelivery.SafeWaits | network/ws.go:253-271 | a first part that does not reach into the final frame of a fragmented message returns nothing and changes nothing |
| WebSocketDelivery.PrefixDrains | network/ws.go:338-367 | a first part of a stream of messages gives the packets whole in it and leaves the rest untouched |
| WebSocketDelivery.SafeSplit | network/ws.go:338-367 | parsing such a first part and then its leftover with more of the stream parses both |
| WebSocketDelivery.ChunkIndependence | network/ws.go:338-367 | messages delivered in any pieces that do not split the final frame of a fragmented one give the packets, order and leftover of one delivery |
| WebSocketSplit.TruncatedPacket | network/ws.go:260-263 | two bytes or more of the final frame make the parser return the message without its last part |
| WebSocketSplit.UnmaskedEarly | network/ws.go:260-263 | one byte of it makes the parser unmask the earlier payloads and return nothing |
| WebSocketSplit.LateCutFails | network/ws.go:156-251 | delivered in two pieces with a later cut in the final frame, the message ends in an error |
| WebSocketSplit.EarlyCutGarbles | network/ws.go:156-251 | with the cut one byte into it, the earlier payloads are unmasked twice |
| WebSocketSplit.UnharmedIff | network/ws.go:331-333 | unmasking the earlier payloads twice changes nothing if and only if their keys are zero at every position that meets a payload byte |
| WebSocketSplit.TwoPieces | network/ws.go:253-271 | a fragmented message in two pieces comes back if and only if the cut is not inside the final frame, or is one byte into it and every key is zero wherever it meets a byte of an earlier payload |
| WebSocketCuts.OrphanBreaks | network/ws.go:156-251 | two bytes or more of the final frame left behind end in an error as soon as that frame is whole, in whatever pieces the rest comes |
| WebSocketCuts.DeliveryIffHarmless | network/ws.go:253-367 | messages delivered in any pieces give the packets, order and leftover of one delivery if and only if every cut on the way is outside the final frame of a fragmented message, or one byte into it with harmless keys |
| WebSocketPackaging.ParseUndoesPackage | network/ws.go:407-460 | a packaged text or binary packet followed by any bytes parses to the same payload and consumes the frame if and only if it is below 2^32 bytes |
| WebSocketPackaging.ShortestForm | network/ws.go:439-455 | no unmasked frame with the same payload is shorter |
| WebSocketPackaging.PackagedPingRefused | network/ws.go:430-436 | a packaged ping of any length is refused |
| WebSocketPackaging.OthersPackaged | network/ws.go:407-460 | other packets are sent as an empty frame with opcode 0, which is refused |
| Detection.TestMatchScore | network/clove.go:122-163 | the Clove score of a buffer, without consuming anything |
| DetectionWire.CloveScored | network/clove.go:122-163 | the Clove score of any bytes in literals and bits |
| DetectionWire.OthersScored | network/http.go:137-152 | requests are read from 16 bytes on that start with G or P; text and fd parsers score -1 |
| DetectionWire.FormatsScored | network/packet.go:173-184 | formats of the type unixmsg and default formats are not scored |
| Detection.DetermineFromBuffer | network/packet.go:173-200 | the loop chooses the first certain format, else the last default if nothing scored, else the first best one once it scored 90 |
| Detection.ChoiceUnique | network/packet.go:173-200 | formats and bytes fix the choice |
| Detection.Determined | network/packet.go:173-200 | there always is a choice |
| Detection.CloveIffParses | network/packet.go:173-200 | on five bytes or more that do not start like a request, and in any order of formats, Clove is chosen if and only if a first packet parses and its protocol numbers are not zero; otherwise nothing is |
| Detection.StreamDetected | network/clove.go:122-163 | on a packaged stream nothing is chosen until the first packet is whole, and Clove from then on |
| Detection.ShortReadTakesDefault | network/packet.go:173-200 | on fewer than five bytes the default format is chosen |
| Parsers.ParseFromBuffer | network/packet.go:66-70 | one call of whichever parser a format has, the text and fd parsers included; the HTTP parser is a parameter |
| TcpReceiver.Controller.ParsePacket | tcp/controller.go:144-172 | determines the format once, answers an upgrade, and lets the parser drain the buffer; an error drops the packets of the same call |
| TcpReceiver.Controller.ProcessRead | tcp/controller.go:321-337 | one read is appended to the buffer and parsed |
| TcpReceiver.CloveReceives | tcp/controller.go:144-172 | once the format is Clove, the connection's reads feed the framer |
| TcpReceiver.CloveFound | tcp/controller.go:144-172 | while the format is being determined nothing is lost: with a recognizable first packet the packets are those of one delivery, otherwise all bytes stay in the buffer |
| TcpReceiver.StreamReceived | tcp/controller.go:144-172 | a packaged stream in any pieces is delivered packet by packet if and only if the first read brings five bytes or no default format is registered, and the first packet is incomplete or has a protocol type and version other than 0 |
| TcpReceiver.NeverRecognized | network/clove.go:144-146 | behind a first packet without protocol type or version nothing is ever delivered |
| TcpConservation.StepKeeps | tcp/controller.go:236-427 | every step of every thread keeps the invariant: the byte counts, the connection's flags and channels, and what is closed when |
| TcpConservation.RunKeeps | tcp/controller.go:236-427 | every run keeps it |
| TcpConservation.TakeCounted | tcp/controller.go:388-402 | a token never asks for more bytes than bufSend holds |
| TcpStreams.StepStreams | tcp/controller.go:236-427 | a step keeps the wire, the bytes in the loop's hands and the unread ones equal to all writes in order if and only if it does not overwrite bytes in the loop's hands |
| TcpTheorems.BytesCounted | tcp/controller.go:236-427 | in every reachable state before the reset bufSend holds as many bytes as the tokens not taken yet announce, and without a failed write no byte is lost or added between the writes and the wire |
| TcpTheorems.BytesConserved | tcp/controller.go:236-427 | the wire, the bytes in the loop's hands and the unread ones are all writes in order at every moment of a run if and only if no write of the run overwrote bytes in the loop's hands; then the wire is a first part of the writes, also after a failure or a reset |
| TcpTheorems.QuietSendsConserve | tcp/controller.go:236-254 | no write overwrites in a run in which no call writes while the loop is sending |
| TcpTheorems.OverwrittenForever | tcp/controller.go:404-422 | after an overwriting write, and once the loop has sent what it holds, the wire is never again a first part of the writes |
| TcpScripts.Overwritten | tcp/controller.go:394-422 | the run in which the second of two writes is sent twice and the first never |
| TcpTheorems.ShortNextUnreachable | tcp/controller.go:393-402 | the exits for too few bytes are never taken for a token above 0 |
| TcpTheorems.WireOnlyGrows | tcp/controller.go:404-427 | what is on the wire stays there, never outnumbers the writes, and is final once the flag has left Opened or the connection is closed; without an overwriting write it is a first part of all later writes |
| TcpTheorems.CloseCompleteIff | tcp/controller.go:260-287 | when the close request is taken, as many bytes are on the wire as were written if and only if no other call stands between its write and its token; without an overwriting write they are the bytes written |
| TcpScripts.CloseOvertakes | tcp/controller.go:388-392 | a run in which the closing call's own bytes are left unsent |
| TcpTheorems.NoSendOnClosed | tcp/controller.go:202-234 | nothing is sent on chClosed after it is closed, the controller leaves at most once, and then no sender stays blocked |
| TcpLifecycle.RunOrderly | tcp/controller.go:174-234 | in runs whose notices are received while no outside update is past its test, the flag stays well formed and never moves back |
| TcpLifecycle.LifecycleInOrder | tcp/controller.go:174-234 | in such runs the flag moves from Opened to Closing to Closed and ControllerLeave finds it Closed |
| TcpLifecycle.Lifecycle | tcp/controller.go:174-234 | the same in every run in which only the reader and the process loop touch the flag |
| TcpLifecycle.ClosingCompletes | tcp/controller.go:221-234 | once the flag is Closing in such a run, the alive check returns and the loop's own steps reset the buffers, close both channels, wait, set the flag to Closed and leave |
| TcpLifecycle.InFlightReopens | tcp/controller.go:114-186 | any outside update past its test when the notice is received can make the flag Opened again, after which the controller is never left |
| TcpLifecycle.StuckForever | tcp/controller.go:370-456 | a loop that nobody can tell to stop keeps running in every continuation |
| TcpLifecycle.Reopened | tcp/controller.go:114-186 | a run from the start in which such an update leaves the flag Opened and the loop running for ever |
| TcpLifecycle.EndedUnleft | tcp/controller.go:221-234 | a run in which it comes between the loop's last test and the test in Close: the loop ends and the controller is never left |
| TcpLifecycle.FirstRead | tcp/controller.go:321-337 | the run of the first read, its determination and its packet's callback raises both bits and changes nothing else |
| TcpLifecycle.LaterRead | tcp/controller.go:174-178 | a read that finds the bit set leaves the flag alone |
| TcpFlags.FlagsTell | tcp/controller.go:174-186 | without SetPacketFormat calls, while the flag is Opened and the reader raises no bit, data was received if and only if a read came, and the format is known if and only if it was determined |
| TcpLeaving.NoticePending | tcp/controller.go:202-211 | without such calls, in every run: when the reader has stopped under an Opened flag, exactly one notice is pending |
| TcpLeaving.CanLeave | tcp/controller.go:202-234 | without such calls every run can go on to the one ControllerLeave with the flag Closed, and if the reader has failed the controller's own steps lead there |
| TcpReasons.ReasonsClose | tcp/controller.go:202-219 | after a failed read, write or callback or a close request, in every continuation, the loop does nothing before it has closed the connection |
| TcpReasons.NoReasonNoClose | tcp/controller.go:236-427 | in runs in which nothing fails and nobody closes or asks for it, the connection stays open, the flag Opened, and no call is turned away |
| TcpReasons.RefusedAfterClosing | tcp/controller.go:236-243 | no call that begins after the flag has left Opened is let in |
| TcpReasons.CallOutcome | tcp/controller.go:236-254 | a call has returned true if and only if its token was taken, and panicked if and only if its channel was closed |
| TcpRemains.LeftLast | tcp/controller.go:221-234 | ControllerLeave is called after the reader and the alive check have ended |
| TcpRemains.ResetEmpties | tcp/controller.go:224-225 | closing empties bufSend for good, but for later writes |
| TcpSendLoop.WriteConn | tcp/controller.go:404-422 | the write loop over a range of bufSend's array, under writes of other calls and with the connection open or closed, is a run of the machine's steps that puts on the wire what it sent |
| TcpSendLoop.SendToken | tcp/controller.go:388-427 | handling one token on the real buffer is a run of the machine's steps; what is sent is what the range holds at that moment |
| TcpEndToEnd.WritesAreStream | tcp/controller.go:260-287 | the writes of packaged packets are the stream of these packets |
| TcpEndToEnd.EndToEnd | tcp/controller.go:236-427 | in every run with any number of senders of packaged packets, what the framer returns from any pieces of the wire is exactly the packets whole in it, first ones in write order, if and only if these bytes are a first part of the writes; without an overwriting write they are |
| TcpEndToEnd.AllArrive | tcp/controller.go:236-427 | once everything written has been read, and no write overwrote, every packet has arrived |
| TcpEndToEnd.PacketOverwritten | tcp/controller.go:394-422 | the run in which the receiver gets the second packet twice and never the first, in whatever pieces it reads |
| TcpEndToEnd.EndToEndDetected | tcp/controller.go:144-172 | the same through a connection that first determines its format: exactly when the bytes are a first part of the writes and the connection learns the format, as for one stream |
| TcpWebSocket.UpgradeDrops | network/ws.go:57-123 | the upgrade is answered, what came behind the request in the same read is lost, and the later reads feed the parser |
| TcpWebSocket.EarlyMessagesLost | network/ws.go:57-123 | messages whole in the read that completes the request are lost, and those after them arrive |
| TcpWebSocket.WritesAreFrames | network/ws.go:407-460 | the writes of packaged text and binary packets are the stream of one-frame messages |
| TcpWebSocket.EndToEnd | tcp/controller.go:236-427 | in every run with any number of senders of packaged packets behind a handshake, what the parser returns from any pieces of the wire is exactly the messages whole in it, first ones in write order, if these bytes are a first part of the writes; without an overwriting write they are |
| TcpWebSocket.EndToEndUpgraded | tcp/controller.go:144-172 | the same through a connection that is upgraded first |
| Udp.Cut | udp/controller.go:192-205 | pieces are never empty and never above the fragment size |
| Udp.SendTo | udp/controller.go:173-238 | the cutting loop fails if and only if more than 65535 fragments are needed, and sends the numbered pieces in order |
| Udp.CutCount | udp/controller.go:195-198 | the count computed from the length is the number of pieces |
| Udp.ReadUndoesHeader | udp/controller.go:250-269 | read recovers a fragment from its datagram if and only if the receiver's fragment size is not smaller than the payload |
| UdpWire.Layout | udp/controller.go:209-219 | a fragment's bytes in literals: marks, index, count and length in two bytes each, highest first, and the payload |
| UdpWire.Reads | udp/controller.go:241-293 | what is read from any datagram, in literals: a fragment exactly if the marks and the length agree, otherwise the whole datagram as it fits the buffer |
| Udp.FragmentPipeline.AddFragment | udp/udp.go:44-59 | a repeated index or another count starts the collection afresh |
| Udp.FragmentPipeline.Combine | udp/udp.go:61-96 | the combining loop joins the fragments by index and parses them, or reports what is missing |
| UdpTheorems.CutWhole | udp/controller.go:192-205 | the pieces join to the data and all but the last are full |
| UdpTheorems.AllKept | udp/udp.go:44-59 | whatever fragments of one count arrive, the pipeline holds exactly those since the last repeated one |
| UdpTheorems.Reassembles | udp/udp.go:61-96 | a pipeline that knows the count parses exactly the original bytes if and only if the fragments since the last repeated one are all of them, in any order; otherwise it says there are not enough |
| UdpTheorems.DatagramsReassemble | udp/controller.go:192-269 | the same from the sender's datagrams on, in any order and with repeats |
| UdpTheorems.PacketReassembled | udp/udp.go:61-96 | a packaged Clove packet comes out as itself |
| UdpTheorems.NothingCombined | udp/udp.go:35-59 | a pipeline as it is built never delivers a Clove packet, whatever fragments arrive |

## Left out

- The `From` field of a binary packet: it is an address copied beside the payload.
- Reflection in the encoder: typed maps and slices, channels, pointers and structs other than the values of `CloveCodec.Value`.
- An allocation failure in bytes.Buffer, the only way its writes can fail.
- 32-bit platforms, where `Decode` returns int64 and uint64 for its widest tags.
- CloveReader.ReadNumber: does not model float keys of `TryReadValue`; a nil key, for which the source panics, is excluded.
- The value readers for strings, floats, booleans and slices (codec/codec.go:344-540): lookups with one conversion.
- BitMask.UnMaskBytes: does not model the empty array, on which the source panics.
- BitMask.MaskBytes: returns the source's array for shifts above 7 as a value, without its aliasing.
- The aliasing of delivered payloads with the receive buffer's array: a later read may overwrite the payload of a packet not processed yet; the model delivers values, while unmasking in place is kept.
- The capacities that bytes.Buffer allocates, which the Go standard library chooses: every sufficient capacity is allowed. A write concurrent with conn.Write is a data race; the model reads the bytes of one conn.Write at one moment.
- CloveCodec.DecodeEntries: does not model that the source allocates a map for the announced number of pairs, up to 2^32 - 1, before it reads the first one.
- Parsers.ParseFromBuffer: does not model the HTTP parser, which is a parameter.
- TcpWebSocket.EndToEnd: gives no converse; overwritten bytes that parse to the same packets are not excluded.
- WebSocketDelivery.ChunkIndependence: does not cover messages interrupted by other frames, of which `WebSocketFrames.LastMessage` speaks for one delivery.
- network/http.go, the WebSocket upgrade answer and their scores: net/http, SHA-1 and base64.
- The farewell frame that closing a WebSocket connection writes, sockets, deadlines, timers, the alive check's clock and logging; the connection can be lost, and the alive check end, at any step instead. A wait that starts before a goroutine has registered with the wait group is not modelled.
- TcpEndToEnd.EndToEnd: speaks of the packets the framer returns; the order between batches on chReceived is not promised by the source, which starts a goroutine for each.
- Panics of a packet callback, and liveness of the network and the scheduler.
- UdpTheorems.Reassembles: takes the count as known, because the source's pipeline never learns it.
- Write errors of the UDP socket and the table of pipelines by address (udp/controller.go:113-124).
- The connection pool's limits and counters, the maps, identifiers, other codecs and the unix controllers: no hard property.
