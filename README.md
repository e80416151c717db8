# UAVTalk deframer and object manager in Dafny

This project models the core of a Node.js UAVTalk library and proves properties of
the model. UAVTalk is the telemetry protocol of the OpenPilot flight controllers.
The library has three parts:

- **The deframer.** A resumable four-state byte machine:
  - 0: seek the sync byte `0x3C`;
  - 1: collect the 10-byte header;
  - 2: collect the payload;
  - 3: take the checksum byte.

  Its state survives between calls, so input may arrive in any chunks. Every
  completed frame goes to a callback. The header layout is `<BBHiH`: sync,
  type/version, 16-bit total length, signed 32-bit object id and 16-bit instance
  id, all little-endian. The payload length is the total length minus 10, clamped
  to 0..255. The machine exists twice: as the closure that `unpack(callback)`
  returns in `uavtalk.js`, and as `UavtalkPacketHandler.unpack` in
  `uavtalk_packet_handler.js`. Both are the same machine. One class,
  `Deframer.Deframer`, models both; a fresh object stands for a fresh closure or
  a fresh handler.
- **The header builder `getPacket`.**
- **The object manager.** It keeps:
  - the registry of object definitions, with each definition's format string;
  - a name index;
  - a readiness counter over the definition files;
  - the decoding of frames into instances;
  - the queue of callbacks waiting for an object.

Modules:

- `Wire` (wire.dfy): bytes, little-endian fields and the in-place buffer copy.
- `Framing` (framing.dfy): the machine as functions.
  - `Step` is one loop iteration and `Feed` is one call.
  - `Next` and `Scan` form an independent byte-at-a-time reference machine.
  - The theorems about the machine live here too: agreement with the reference
    machine, chunking invariance, one well-formed frame, resynchronisation after
    noise, and a partial header.
- `Deframer` (deframer.dfy): the machine as the source writes it.
  - It is a class with the state fields, the fixed 12-byte header buffer and a
    payload buffer allocated per header.
  - Its `while` loop copies bytes in place.
  - `Unpack` is proved to produce exactly `Feed`.
- `Packet` (packet.dfy): `getPacket` as written, plus a corrected full header
  that the deframer reads back.
- `Format` (format.dfy):
  - the field-type to format-string builder;
  - a reader for the strings it builds, used to state a round trip.
- `Text` (text.dfy): `indexOf` with a start position, and `endsWith` on top of it.
- `Manager` (manager.dfy): the object manager as a class over maps. Each event
  the source reacts to is a method:
  - a directory entry;
  - the end of the listing;
  - a parsed definition file;
  - a received frame;
  - a lookup;
  - a request.

What stands in for things outside the model:

- File reading and `JSON.parse` are not modelled. A parsed definition arrives as a
  `Definition` value.
- Payload decoding by `bufferpack` (`unpack_obj`) is a function that the
  manager's constructor receives. Its result type is left open. It returns None
  where the library returns null.
- A callback is known only by its identity. Invoking callbacks is modelled as the
  sequence of invocations returned, in call order.
- The deframer's callback invocations are the sequence of frames `Unpack` returns.

`uavtalk_packet_handler.js` as written does not parse: lines 36-37 lack the comma
between `pack` and `unpack`. The model takes the loop as written and ignores the
missing comma.

## Model

| member | source | states |
|---|---|---|
| Framing.TypeOf | uavtalk.js:123 | `types[header[1] & 0x0f]`: the frame type named by the low four bits of the type byte, or none; `TypeOfCodes` pins every code |
| Framing.DecodeHeader | uavtalk.js:113-125 | the `<BBHiH` fields of a complete header: the type from byte 1, a signed 32-bit object id from bytes 4-7 and an unsigned 16-bit instance id from bytes 8-9 |
| Framing.PayloadLength | uavtalk.js:114-120 | `datatoread` is never more than 255; `PayloadLengthClamped` pins its value |
| Framing.TypeOfCodes | uavtalk.js:29-35 | the `types` table: codes 0 to 4 name OBJ, OBJ_REQ, OBJ_ACK, OBJ_ACK, OBJ_NAK; no other code names a type; only the low four bits of the type byte count |
| Framing.PayloadLengthClamped | uavtalk.js:113-120 | the payload length is the announced length minus 10, at most 255, and 0 when the announced length is 10 or less |
| Framing.Step | uavtalk.js:93-142 | one iteration: (1) a payload with nothing left is the only state that consumes nothing, and it moves to the checksum state; (2) a frame is emitted exactly in the checksum state, which consumes one byte, records it as the crc and returns to the sync state; (3) the sync state consumes one byte and starts a header exactly on `0x3C` |
| Framing.Feed | uavtalk.js:89-149 | one call, looping until the input is used up, ends in a state that keeps the invariant: a partial header starts with the sync byte and holds 1 to 9 bytes |
| Framing.StepAgreesWithScan | uavtalk.js:104-137 | a bulk copy of header or payload bytes moves the machine exactly as far as feeding those bytes one at a time |
| Framing.FeedIsScan | uavtalk.js:89-149 | the loop's result on any input, frames and final state, equals the byte-at-a-time reference machine's |
| Framing.FeedSplit | uavtalk.js:72-85 | feeding `a` and then `b` gives the same frames, in the same order, and the same final state as feeding `a + b` |
| Framing.FeedChunksIsFeed | uavtalk.js:72-85 | any split of the input into successive calls gives the same frames and final state as the whole input in one call |
| Framing.FeedOneFrame | uavtalk.js:111-142 | a 10-byte header, exactly its announced payload and a checksum byte yield one frame: type from byte 1, signed object id from bytes 4-7, instance id from bytes 8-9, the payload and the crc; the machine is back in the sync state |
| Framing.FeedPartialHeader | uavtalk.js:104-110 | input that ends inside a header leaves the machine holding exactly the header bytes seen, ready to complete it on the next call |
| Framing.SkipNoise | uavtalk.js:93-97 | bytes other than `0x3C` are skipped without any callback |
| Framing.Resync | uavtalk.js:93-103 | leading non-sync noise changes nothing about what the rest of the input yields |
| Framing.FeedThrowing | uavtalk.js:138-142 | one call as written with a callback that may throw: every frame before the last one was accepted; without a throw, no frame was refused; after a throw, the last frame is the refused one and the machine stays in state 3 holding exactly that frame's header and data |
| Framing.FeedThrowingAgrees | uavtalk.js:89-149 | when the callback accepts every frame `Feed` delivers, the loop as written delivers the same frames, ends in the same state and does not throw |
| Framing.StuckAfterThrow | uavtalk.js:138-142 | from the state a throwing callback leaves, if the callback throws on that frame whatever its checksum byte, later calls only re-deliver it, one per non-empty chunk with the chunk's first byte as checksum, and the machine stays in state 3 |
| Framing.ResyncAfterFrame | uavtalk.js:138-142 | the loop moving past the checksum byte: from state 3, a checksum byte followed by a well-formed frame gives the held frame and then that frame, back in sync |
| Deframer.Deframer.constructor | uavtalk_packet_handler.js:18-31 | a new handler has a fresh 12-byte header buffer and starts in the sync state |
| Deframer.Deframer.Unpack | uavtalk.js:85-149 | one call: the returned frames and the new state are exactly `Feed` of the old state on the whole input; the state invariant holds again; the read index never passes the input length, so the "SOMETHING IS WRONG" throw cannot happen |
| Deframer.Deframer.Iteration | uavtalk_packet_handler.js:41-99 | one pass of the loop keeps the frames delivered so far plus what the rest of the input yields equal to the whole call's result, and it either consumes input or leaves the payload state |
| Deframer.Deframer.Advance | uavtalk_packet_handler.js:44-96 | the state switch does exactly one `Step` of the machine the fields represent; the "Unknown state" branch cannot be reached |
| Deframer.Deframer.SeekSyncByte | uavtalk_packet_handler.js:44-54 | state 0: skip a non-sync byte, or store `0x3C` as the first header byte and move to state 1 |
| Deframer.Deframer.CopyHeader | uavtalk_packet_handler.js:55-62 | state 1: copy `min(remaining input, 10 - headerbufferlen)` bytes into the header buffer, so the header completes at exactly 10 bytes across calls |
| Deframer.Deframer.StartPayload | uavtalk_packet_handler.js:62-79 | a complete header: record type, object id and instance id, and allocate a payload buffer of exactly the clamped payload length |
| Deframer.Deframer.CopyPayload | uavtalk_packet_handler.js:80-88 | state 2: write at offset `databuffer.length - datatoread`, and move to state 3 only when nothing is left to read |
| Wire.CopyBytes | uavtalk.js:108 | `data.copy` overwrites exactly the target range with the source slice and leaves the rest of the target as it was |
| Wire.S32 | uavtalk.js:113 | the `i` field: a signed 32-bit value, the unsigned one less 2^32 when the top bit is set; it is negative exactly when the last byte is 0x80 or more |
| Wire.S32RoundTrip | uavtalk.js:113 | any signed 32-bit object id written as four little-endian bytes reads back unchanged |
| Wire.LowBytes16Value | uavtalk.js:47-48 | `length & 0xFF` and `(length >> 8) & 0xFF` read back as the length modulo 2^16 |
| Wire.LowBytes32Value | uavtalk.js:49-51 | four low-first bytes of a value read back as the value modulo 2^32 |
| Packet.TypeByte | uavtalk.js:41 | the byte stored for `type \| VERSION`; `TypeByteFields` pins its value |
| Packet.PacketHeader | uavtalk.js:41-48 | the buffer `getPacket` builds always has 8 bytes; `PacketHeaderFields` pins each byte |
| Packet.GetPacket | uavtalk.js:39-62 | `getPacket` fills a new 8-byte buffer with exactly `PacketHeader(type, data)` |
| Packet.PacketHeaderFields | uavtalk.js:41-48 | (1) byte 0 is `0x3C`; (2) bytes 2-3 hold 10 plus the payload length, modulo 2^16; (3) byte 1 is `TypeByte(type)`, so it selects the type of the low four bits of `type`; (4) bytes 4-7 are zero whatever the object id |
| Packet.TypeByteFields | uavtalk.js:41 | `type \| VERSION`, truncated to a byte, is `type` modulo 256 with bit 5 (value 32) added when it is not already set; so it keeps the low four bits of `type` and has bit 5 set |
| Packet.TypeByteSelects | uavtalk.js:41 | the stored type byte names the same frame type as the low four bits of `type` |
| Packet.PacketTypeCodes | uavtalk.js:13-17 | the codes TYPE_OBJ, TYPE_OBJ_REQ, TYPE_OBJ_ACK and TYPE_ACK come out of the deframer as OBJ, OBJ_REQ, OBJ_ACK and OBJ_ACK |
| Packet.RequestPacketNeverDelivered | uavtalk.js:43-51 | a packet built without data, followed by a checksum byte, never reaches the callback: the deframer is still waiting for the tenth header byte |
| Packet.FullHeader | uavtalk.js:41-51 | the corrected builder: always 10 bytes, the 8-byte literal with the object id written into bytes 4-7 as the commented-out loop intends and a zero instance id; `FullHeaderFields` pins each field |
| Packet.FullHeaderFields | uavtalk.js:49-51 | the corrected header writes the object id low byte first into bytes 4-7 and a zero instance id into bytes 8-9 |
| Packet.FullHeaderDecodes | uavtalk.js:113-126 | the deframer reads the corrected header as the low-nibble type, the object id, instance 0 and exactly the payload length |
| Packet.FullPacketRoundTrip | uavtalk.js:39-51 | corrected header, payload of at most 255 bytes and checksum byte yield exactly one frame carrying the type, object id, payload and crc that went in |
| Format.Build | uavtalk.js:191-225 | the `_.each` over the fields, appending one token per field to the string built so far or throwing at an unknown type; `FormatStringTokens` and `FormatStringFailsAt` pin it |
| Format.FormatString | uavtalk.js:190 | the builder started from `<`; `FormatStringSucceedsIff` and `FormatStringRoundTrip` pin it |
| Format.TypeCode | uavtalk.js:193-219 | a field type has a format code exactly when it is 0 to 7 |
| Format.Decimal | uavtalk.js:222 | `numElements.toString(10)` is a non-empty run of decimal digits |
| Format.DecimalRoundTrip | uavtalk.js:221-223 | the element count prefix reads back as the count |
| Format.FormatStringTokens | uavtalk.js:190-225 | with every type known, the format string is `<` followed by exactly one token per field, in order |
| Format.FormatStringFailsAt | uavtalk.js:217-219 | the builder throws with the type code of the first field whose type is unknown |
| Format.FormatStringSucceedsIff | uavtalk.js:191-225 | the builder succeeds if and only if every field's type is 0 to 7 |
| Format.FormatStringRoundTrip | uavtalk.js:190-226 | when every field type is known and no field name contains `)`, the string starts with `<` and reading the rest back gives, per field and in order, its element count (1 when `numElements <= 1`), its code and its name |
| Text.IndexOf | uavtalk.js:156 | `indexOf` with the start clamped to 0..length: the first occurrence at or after the start, or -1 when there is none |
| Text.EndsWith | uavtalk.js:155 | `str.indexOf(suffix, str.length - suffix.length) !== -1`; `EndsWithIff` pins it |
| Text.EndsWithIff | uavtalk.js:155-157 | `endsWith` holds exactly when the suffix is no longer than the string and is its tail, a longer suffix included |
| Manager.ObjectManager.constructor | uavtalk.js:165-173 | a new manager has empty maps, counter 1 and is not ready |
| Manager.ObjectManager.CheckDone | uavtalk.js:175-180 | `checkdone` decrements the counter and sets `ready` when it reaches 0 |
| Manager.ObjectManager.ScheduleFile | uavtalk.js:182-186 | a directory entry adds one to the counter exactly when its name ends in `.json` |
| Manager.ObjectManager.FinishListing | uavtalk.js:232 | the final `checkdone`: the manager is ready at once exactly when no `.json` file was scheduled |
| Manager.ObjectManager.LoadDefinition | uavtalk.js:188-230 | a definition file: (1) an unknown field type throws, registers nothing and skips `checkdone`; (2) otherwise the definition is filed under its id, with the built format string and no instance, its name maps to its id, and the counter goes down by one |
| Manager.Readiness | uavtalk.js:173-180 | the manager is ready exactly when the listing is over and every scheduled file registered its definition; after any file callback threw it never becomes ready |
| Manager.ObjectManager.Decode | uavtalk.js:292-306 | (1) an unregistered id gives null and is logged only the first time it is seen; (2) a registered one gives the decoded values tagged with the definition's name and the frame's id, or the TypeError when decoding fails; (3) nothing else changes |
| Manager.ObjectManager.Dispatch | uavtalk.js:269-290 | a received frame: (1) when not ready, nothing changes; (2) an unknown id changes only the warned set; (3) otherwise the cached instance is overwritten, every queued callback for the id is invoked once in queue order, and the queue is deleted; `getInstance` then returns the new instance; (4) data that `unpack_obj` refuses throws and changes nothing |
| Manager.ObjectManager.Throws | uavtalk.js:292-306 | the callback throws exactly for a ready manager, a registered object and data `unpack_obj` refuses (the TypeError of `objdata.name = …`); `Dispatch` throws exactly when it holds, and after a throw it still holds for the same frame with any checksum byte |
| Manager.ObjectManager.Deliver | uavtalk.js:282-289 | cache the instance, invoke the queued callbacks in order and drop the queue, leaving every other entry as it was |
| Manager.Invoke | uavtalk.js:285-287 | the `_.each` over the queue invokes each callback once, in queue order, with the instance |
| Manager.Calls | uavtalk.js:285-287 | one invocation per queued callback, each with the same instance, in queue order |
| Manager.ObjectManager.Resolve | uavtalk.js:323-325 | the id a key names, as both `getInstance` and `requestInstance` (uavtalk.js:333-335) compute it: a number is itself, a string goes through the name index and gives nothing when unknown |
| Manager.ObjectManager.GetInstance | uavtalk.js:322-331 | null exactly for an unknown id or name (a name goes through the name index first); otherwise the cached instance, which carries the id looked up |
| Manager.ObjectManager.RequestInstance | uavtalk.js:332-343 | (1) an unknown id or name gives null and leaves the queues untouched; (2) a known one appends the callback to that object's queue, creating it when absent |
| Manager.RequestAll | uavtalk.js:332-343 | successive requests queue their callbacks behind those already waiting, in call order; only that object's queue changes (an empty list changes nothing), and definitions, name index, readiness, warned set and counter are kept |
| Manager.RequestThenDispatch | uavtalk.js:269-290 | callbacks requested for a known object of a ready manager, followed by a decodable frame for it, are each invoked once, in request order, with the decoded instance; `getInstance` returns that instance; only that object's cache entry and queue change (the queue is dropped), every other queue, the name index, the warned set and the counter are kept |

## Left out

- Reading the definition directory and files (`fs.readdir`, `fs.readFile`, `JSON.parse`) is I/O. The callbacks' work is modelled as methods, and definitions arrive as values.
- The order in which file callbacks fire is not modelled. `LoadDefinition` requires the listing to be over, as the asynchronous callbacks in the source are.
- `bufferpack` is a foreign library. Payload decoding (`unpack_obj`) is a function the manager receives. The header is decoded from its bytes directly instead of through `unpack("<BBHiH")`.
- `pack`, `pack_obj`, `encode`, `updateInstance`, `getRequestPacket` and `output_stream` are output plumbing, and it is broken in the source. `pack` is empty, `getRequestPacket` returns nothing, `output_stream` is an undeclared variable and `encode` reads an undefined `packet`.
- Manager.ObjectManager.RequestInstance: does not model the ReferenceError that the source raises after queueing the callback, when it evaluates the undeclared `output_stream`. The modelled state is the one the source leaves behind.
- Console logging is not modelled. `Decode` reports whether the first-time warning is printed.
- The shared `message` object is not modelled. The source reuses it for every frame and mutates it after the callback returns. Each frame here is an immutable value.
- Deframer.Deframer.Unpack: does not model a callback that throws. In the source such an exception leaves the loop early, in state 3. The method follows the corrected loop, which moves past the checksum byte whatever the callback does, and returns frames after the whole input is consumed. The loop as written with a throwing callback is `FeedThrowing`, a function; see "## Findings".
- Manager.ObjectManager.Dispatch: does not model callbacks that throw or that call `requestInstance` while the queue is being walked.
- Wiring `input_stream` to the deframer is not a separate member. As long as no `Dispatch` throws, it passes each frame `Unpack` returns, in order, to `Dispatch`. When one throws, the exception ends the call in state 3, and later calls re-deliver the same frame, which throws again (`FeedThrowing`, `StuckAfterThrow` and `Throws`; see "## Findings"). Whether the process survives the exception is up to the code that feeds the stream, which is not part of this model.
- The deframer's input buffer is a sequence value, because the loop only reads it. The header and payload buffers are arrays written in place.
- Manager.ObjectManager.LoadDefinition: field types and element counts are integers. JSON values of other kinds are not modelled, and neither is a `JSON.parse` failure. That failure, like an unknown type, would skip `checkdone`.
- Object ids are integers for both definitions and frames. JavaScript's conversion of object keys to strings is not modelled.
- The header's object id is decoded as signed (`i` in `<BBHiH`), while definition files give `object_id` as an unsigned number. An id of 2^31 or more therefore decodes negative and misses its definition in `Dispatch`. The model keeps this as written; no definition files are part of this model to show whether such ids occur.
- Strings are sequences of characters. JavaScript's `length` and `indexOf` count UTF-16 code units, which differs only for characters outside the Basic Multilingual Plane; `endsWith` is only applied to file names against `.json`.
- No checksum is computed or checked, in the source or here. The crc byte is only recorded.
- test/node/testserial.js is serial-port wiring with no logic of its own, so it is not modelled.

## Findings

| source | as written | input that shows it | evidently intended | confidence | as-written member | corrected member |
|---|---|---|---|---|---|---|
| uavtalk.js:41-51 | `getPacket` returns an 8-byte buffer whose length field counts a 10-byte header, and it never writes `object_id`; the loop that would write it is commented out | any `getPacket(type, id, null)` followed by one checksum byte: the deframer is left holding 9 header bytes and emits nothing | a 10-byte header carrying the object id in bytes 4-7 and an instance id in bytes 8-9, which the deframer decodes back to the same type, id and payload | not executed | Packet.RequestPacketNeverDelivered | Packet.FullPacketRoundTrip |
| uavtalk.js:138-142 | `callback(message)` runs before `index++` and `state = 0`. When the callback throws, the closure stays in state 3 with the frame's header and data, and the rest of the chunk is dropped. The `input_stream` callback throws for every frame of a registered object whose data `unpack_obj` refuses, whatever the checksum byte (uavtalk.js:302-303), so the stream never recovers | a ready manager and a frame of any type (an OBJ_ACK with an empty payload, say) for a registered object whose fields the data cannot fill, with the caller catching the exception: each later chunk re-delivers that frame with its first byte as checksum, it throws again, and no later frame is decoded | the loop moves past the checksum byte whatever the callback does, so a refused frame is dropped and the next frame is deframed as usual | not executed | Framing.StuckAfterThrow | Framing.ResyncAfterFrame |
