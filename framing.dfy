/** The UAVTalk deframer as a specification: the four-state machine of the
    `unpack` loop written as functions over values, a byte-at-a-time reference
    machine, and the theorems that relate them (chunking invariance, decoding
    of one well-formed frame, resynchronisation after noise). */
module Framing {
  import opened Wire

  /** The names in the `types` table. */
  datatype FrameType = OBJ | OBJ_REQ | OBJ_ACK | OBJ_NAK

  /** `types[b & 0x0f]`: codes 2 and 3 are both named OBJ_ACK, codes 5 to 15 have
      no entry (JavaScript `undefined`, here None). */
  function TypeOf(b: byte): Option<FrameType>
  {
    var code := b % 16;
    if code == 0 then Some(OBJ)
    else if code == 1 then Some(OBJ_REQ)
    else if code == 2 || code == 3 then Some(OBJ_ACK)
    else if code == 4 then Some(OBJ_NAK)
    else None
  }

  /** Only the low four bits count: codes 0 to 4 name a type, 2 and 3 the same one,
      and the other eleven codes none. */
  lemma TypeOfCodes(b: byte)
    ensures TypeOf(b) == TypeOf(b % 16)
    ensures TypeOf(b) == Some(OBJ) <==> b % 16 == 0
    ensures TypeOf(b) == Some(OBJ_REQ) <==> b % 16 == 1
    ensures TypeOf(b) == Some(OBJ_ACK) <==> b % 16 == 2 || b % 16 == 3
    ensures TypeOf(b) == Some(OBJ_NAK) <==> b % 16 == 4
    ensures TypeOf(b).None? <==> b % 16 > 4
  {
  }

  /** The header fields a frame carries: the `type`, `object_id` and `instance_id`
      that the loop records when the 10-byte header is complete. */
  datatype FrameHeader = FrameHeader(ftype: Option<FrameType>, objectId: int, instanceId: nat)

  /** One completed frame as handed to the callback. */
  datatype Frame = Frame(ftype: Option<FrameType>, objectId: int, instanceId: nat, data: seq<byte>, crc: byte)

  /** The `<BBHiH` layout read directly: byte 1 selects the type, bytes 4-7 are a
      signed little-endian object id and bytes 8-9 the instance id. */
  function DecodeHeader(h: seq<byte>): (r: FrameHeader)
    requires |h| >= MIN_HEADER_LENGTH
    ensures -0x8000_0000 <= r.objectId < 0x8000_0000 && r.instanceId < 0x1_0000
  {
    FrameHeader(TypeOf(h[1]), S32(h[4], h[5], h[6], h[7]), U16(h[8], h[9]))
  }

  /** The number of payload bytes the header announces: its 16-bit length field
      (bytes 2-3) minus the 10 header bytes, clamped to 0..255. */
  function PayloadLength(h: seq<byte>): (n: nat)
    requires |h| >= MIN_HEADER_LENGTH
    ensures n <= MAX_PAYLOAD_LENGTH
  {
    var declared := U16(h[2], h[3]) - MIN_HEADER_LENGTH;
    if declared < 0 then 0 else if declared > 255 then 255 else declared
  }

  /** The payload length is the announced length less the header, clamped to 0..255. */
  lemma PayloadLengthClamped(h: seq<byte>)
    requires |h| >= MIN_HEADER_LENGTH
    ensures PayloadLength(h) <= MAX_PAYLOAD_LENGTH
    ensures U16(h[2], h[3]) <= 10 ==> PayloadLength(h) == 0
    ensures U16(h[2], h[3]) >= 10 + 255 ==> PayloadLength(h) == MAX_PAYLOAD_LENGTH
    ensures 10 <= U16(h[2], h[3]) <= 10 + 255 ==> PayloadLength(h) + 10 == U16(h[2], h[3])
  {
  }

  /** The four states of the machine with what each has collected so far:
      0 seek sync, 1 read header, 2 read payload, 3 read checksum. */
  datatype Phase =
    | SeekSync
    | ReadHeader(bytes: seq<byte>)
    | ReadPayload(header: FrameHeader, got: seq<byte>, toRead: nat)
    | ReadCrc(header: FrameHeader, data: seq<byte>)

  /** In state 1 the header has been seeded with the sync byte and is not yet complete. */
  predicate Inv(p: Phase)
  {
    p.ReadHeader? ==> 1 <= |p.bytes| < MIN_HEADER_LENGTH && p.bytes[0] == SYNC
  }

  /** The state after the header has grown to `h`: complete at 10 bytes, then the
      payload phase with the announced length still to read. */
  function HeaderAfter(h: seq<byte>): (p: Phase)
  {
    if |h| >= MIN_HEADER_LENGTH then ReadPayload(DecodeHeader(h), [], PayloadLength(h))
    else ReadHeader(h)
  }

  /** The state after the payload has grown to `got` with `left` bytes missing. */
  function PayloadAfter(header: FrameHeader, got: seq<byte>, left: nat): Phase
  {
    if left == 0 then ReadCrc(header, got) else ReadPayload(header, got, left)
  }

  function Min(a: nat, b: nat): nat { if a < b then a else b }

  /** What one iteration of the loop does: the state it leaves, the number of
      input bytes it consumes and the frame, if any, it passes to the callback. */
  datatype StepResult = StepResult(next: Phase, consumed: nat, emitted: Option<Frame>)

  /** One iteration of `while (index < datalen)` on the unread input. */
  function Step(p: Phase, input: seq<byte>): (r: StepResult)
    requires Inv(p) && |input| > 0
    ensures Inv(r.next) && r.consumed <= |input|
    ensures r.consumed == 0 ==> p.ReadPayload? && p.toRead == 0 && r.next == ReadCrc(p.header, p.got)
    ensures r.emitted.Some? <==> p.ReadCrc?
    ensures r.emitted.Some? ==> r.next == SeekSync && r.consumed == 1 && r.emitted.value.crc == input[0]
    ensures p.SeekSync? ==> r.consumed == 1 && r.next == (if input[0] == SYNC then ReadHeader([SYNC]) else SeekSync)
  {
    match p
    case SeekSync =>
      if input[0] == SYNC then StepResult(ReadHeader([SYNC]), 1, None)
      else StepResult(SeekSync, 1, None)
    case ReadHeader(h) =>
      var tocopy := Min(|input|, MIN_HEADER_LENGTH - |h|);
      StepResult(HeaderAfter(h + input[..tocopy]), tocopy, None)
    case ReadPayload(header, got, left) =>
      var tocopy := Min(|input|, left);
      StepResult(PayloadAfter(header, got + input[..tocopy], left - tocopy), tocopy, None)
    case ReadCrc(header, data) =>
      StepResult(SeekSync, 1, Some(Frame(header.ftype, header.objectId, header.instanceId, data, input[0])))
  }

  function Emitted(o: Option<Frame>): seq<Frame>
  {
    if o.Some? then [o.value] else []
  }

  /** The state a run ends in and the frames it passed to the callback, in order. */
  datatype Run = Run(phase: Phase, frames: seq<Frame>)

  /** A run preceded by the frame, if any, that an earlier step emitted. */
  function Prepend(o: Option<Frame>, r: Run): Run
  {
    Run(r.phase, Emitted(o) + r.frames)
  }

  function Rank(p: Phase): nat
  {
    if p.ReadPayload? then 1 else 0
  }

  /** One call of the returned `function(data)`: loop until the whole input is consumed. */
  function Feed(p: Phase, input: seq<byte>): (r: Run)
    requires Inv(p)
    ensures Inv(r.phase)
    decreases |input|, Rank(p), 1
  {
    if input == [] then Run(p, []) else FeedNext(p, input)
  }

  /** One iteration on a non-empty input, then the rest of the loop. */
  function FeedNext(p: Phase, input: seq<byte>): (r: Run)
    requires Inv(p) && |input| > 0
    ensures Inv(r.phase)
    decreases |input|, Rank(p), 0
  {
    var s := Step(p, input);
    Prepend(s.emitted, Feed(s.next, input[s.consumed..]))
  }

  /** Feeding a second input to the state a first run ended in. */
  function Then(r: Run, input: seq<byte>): Run
    requires Inv(r.phase)
  {
    var s := Feed(r.phase, input);
    Run(s.phase, r.frames + s.frames)
  }

  /** Reference machine: the effect of a single byte. A payload phase with
      nothing left to read takes the byte as the checksum. */
  function Next(p: Phase, b: byte): (r: StepResult)
  {
    match p
    case SeekSync => StepResult(if b == SYNC then ReadHeader([SYNC]) else SeekSync, 1, None)
    case ReadHeader(h) => StepResult(HeaderAfter(h + [b]), 1, None)
    case ReadPayload(header, got, left) =>
      if left == 0 then StepResult(SeekSync, 1, Some(Frame(header.ftype, header.objectId, header.instanceId, got, b)))
      else StepResult(PayloadAfter(header, got + [b], left - 1), 1, None)
    case ReadCrc(header, data) =>
      StepResult(SeekSync, 1, Some(Frame(header.ftype, header.objectId, header.instanceId, data, b)))
  }

  /** The reference machine run over an input, one byte after another. */
  function Scan(p: Phase, input: seq<byte>): (r: Run)
    decreases |input|, 1
  {
    if input == [] then Run(p, []) else ScanNext(p, input)
  }

  /** The reference machine on a non-empty input: the first byte, then the rest. */
  function ScanNext(p: Phase, input: seq<byte>): (r: Run)
    requires |input| > 0
    decreases |input|, 0
  {
    var m := Next(p, input[0]);
    Prepend(m.emitted, Scan(m.next, input[1..]))
  }

  /** `Feed` on a non-empty input, two layers unfolded at once. Callers use this
      instead of unfolding `Feed` in a context full of sequence slices. */
  lemma FeedUnfold(p: Phase, input: seq<byte>)
    requires Inv(p) && |input| > 0
    ensures var s := Step(p, input); Feed(p, input) == Prepend(s.emitted, Feed(s.next, input[s.consumed..]))
  {
  }

  /** `Scan` on a non-empty input, two layers unfolded at once, for the same reason. */
  lemma ScanUnfold(p: Phase, input: seq<byte>)
    requires |input| > 0
    ensures var m := Next(p, input[0]); Scan(p, input) == Prepend(m.emitted, Scan(m.next, input[1..]))
  {
  }

  /** A byte that completes no frame leaves the rest of the run as it is. */
  lemma ScanQuiet(p: Phase, input: seq<byte>)
    requires |input| > 0 && Next(p, input[0]).emitted.None?
    ensures Scan(p, input) == Scan(Next(p, input[0]).next, input[1..])
  {
    var rest := Scan(Next(p, input[0]).next, input[1..]);
    assert [] + rest.frames == rest.frames;
  }

  lemma {:induction false} ScanAppend(p: Phase, a: seq<byte>, b: seq<byte>)
    ensures Scan(p, a + b) == Then'(Scan(p, a), b)
    decreases |a|
  {
    if a == [] {
      assert a + b == b;
    } else {
      var ab := a + b;
      var m := Next(p, a[0]);
      var tail := Scan(m.next, a[1..]);
      assert ab[0] == a[0] && ab[1..] == a[1..] + b;
      ScanUnfold(p, ab);
      ScanUnfold(p, a);
      ScanAppend(m.next, a[1..], b);
      PrependThen(m.emitted, tail, b);
    }
  }

  lemma PrependThen(o: Option<Frame>, r: Run, input: seq<byte>)
    ensures Then'(Prepend(o, r), input) == Prepend(o, Then'(r, input))
  {
    var s := Scan(r.phase, input);
    assert Emitted(o) + r.frames + s.frames == Emitted(o) + (r.frames + s.frames);
  }

  /** `Then` for the reference machine. */
  function Then'(r: Run, input: seq<byte>): Run
  {
    var s := Scan(r.phase, input);
    Run(s.phase, r.frames + s.frames)
  }

  /** The reference machine takes a run of header bytes one by one to where the
      loop takes it with one copy. */
  lemma {:induction false} ScanHeader(h: seq<byte>, chunk: seq<byte>, rest: seq<byte>)
    requires Inv(ReadHeader(h)) && 1 <= |chunk| && |h| + |chunk| <= MIN_HEADER_LENGTH
    ensures Scan(ReadHeader(h), chunk + rest) == Scan(HeaderAfter(h + chunk), rest)
    decreases |chunk|
  {
    var input := chunk + rest;
    assert input[0] == chunk[0] && input[1..] == chunk[1..] + rest;
    ScanQuiet(ReadHeader(h), input);
    var h' := h + [chunk[0]];
    SnocTail(h, chunk);
    if |chunk| > 1 {
      ScanHeader(h', chunk[1..], rest);
    } else {
      assert chunk[1..] + rest == rest;
    }
  }

  /** One payload byte, when more are still missing, is simply collected. */
  lemma ScanPayloadByte(header: FrameHeader, got: seq<byte>, left: nat, input: seq<byte>)
    requires 1 <= left && |input| > 0
    ensures Scan(ReadPayload(header, got, left), input) == Scan(PayloadAfter(header, got + [input[0]], left - 1), input[1..])
  {
    assert Next(ReadPayload(header, got, left), input[0]) == StepResult(PayloadAfter(header, got + [input[0]], left - 1), 1, None);
    ScanQuiet(ReadPayload(header, got, left), input);
  }

  /** An input is its first `k` bytes followed by the rest. */
  lemma TakeDrop(input: seq<byte>, k: nat)
    requires k <= |input|
    ensures input[..k] + input[k..] == input
  {
  }

  /** Moving the first byte of a chunk onto what has been collected. */
  lemma SnocTail(got: seq<byte>, chunk: seq<byte>)
    requires |chunk| >= 1
    ensures got + [chunk[0]] + chunk[1..] == got + chunk
    ensures |chunk| == 1 ==> got + [chunk[0]] == got + chunk && chunk[1..] == []
  {
    assert chunk == [chunk[0]] + chunk[1..];
  }

  /** A run of payload bytes that does not overshoot the payload, on its own. */
  lemma {:induction false} ScanPayloadChunk(header: FrameHeader, got: seq<byte>, left: nat, chunk: seq<byte>)
    requires 1 <= |chunk| <= left
    ensures Scan(ReadPayload(header, got, left), chunk) == Run(PayloadAfter(header, got + chunk, left - |chunk|), [])
    decreases |chunk|
  {
    ScanPayloadByte(header, got, left, chunk);
    var got' := got + [chunk[0]];
    SnocTail(got, chunk);
    if |chunk| > 1 {
      assert PayloadAfter(header, got', left - 1) == ReadPayload(header, got', left - 1);
      ScanPayloadChunk(header, got', left - 1, chunk[1..]);
    } else {
      assert Scan(PayloadAfter(header, got', left - 1), []) == Run(PayloadAfter(header, got', left - 1), []);
    }
  }

  /** Likewise for a run of payload bytes that does not overshoot the payload. */
  lemma ScanPayload(header: FrameHeader, got: seq<byte>, left: nat, chunk: seq<byte>, rest: seq<byte>)
    requires 1 <= |chunk| <= left
    ensures Scan(ReadPayload(header, got, left), chunk + rest) == Scan(PayloadAfter(header, got + chunk, left - |chunk|), rest)
  {
    ScanAppend(ReadPayload(header, got, left), chunk, rest);
    ScanPayloadChunk(header, got, left, chunk);
    var s := Scan(PayloadAfter(header, got + chunk, left - |chunk|), rest);
    assert [] + s.frames == s.frames;
  }

  /** `ScanHeader` for the first `k` bytes of an input. */
  lemma ScanHeaderPrefix(h: seq<byte>, input: seq<byte>, k: nat)
    requires Inv(ReadHeader(h)) && 1 <= k <= |input| && |h| + k <= MIN_HEADER_LENGTH
    ensures Scan(ReadHeader(h), input) == Scan(HeaderAfter(h + input[..k]), input[k..])
  {
    TakeDrop(input, k);
    ScanHeader(h, input[..k], input[k..]);
  }

  /** `ScanPayload` for the first `k` bytes of an input. */
  lemma ScanPayloadPrefix(header: FrameHeader, got: seq<byte>, left: nat, input: seq<byte>, k: nat)
    requires 1 <= k <= left && k <= |input|
    ensures Scan(ReadPayload(header, got, left), input) == Scan(PayloadAfter(header, got + input[..k], left - k), input[k..])
  {
    TakeDrop(input, k);
    ScanPayload(header, got, left, input[..k], input[k..]);
  }

  lemma ThenFromStart(p: Phase, input: seq<byte>)
    requires Inv(p)
    ensures Then(Run(p, []), input) == Feed(p, input)
  {
    assert [] + Feed(p, input).frames == Feed(p, input).frames;
  }

  lemma ThenNothing(r: Run)
    requires Inv(r.phase)
    ensures Then(r, []) == r
  {
    assert r.frames + [] == r.frames;
  }

  /** What remains to be done after one iteration is the rest of the input fed to
      the state it leaves, after the frames delivered so far and the one it emitted. */
  lemma FeedStep(p: Phase, input: seq<byte>, done: seq<Frame>, s: StepResult)
    requires Inv(p) && |input| > 0 && s == Step(p, input)
    ensures Then(Run(p, done), input) == Then(Run(s.next, done + Emitted(s.emitted)), input[s.consumed..])
  {
    FeedUnfold(p, input);
    var r := Feed(s.next, input[s.consumed..]);
    assert done + (Emitted(s.emitted) + r.frames) == done + Emitted(s.emitted) + r.frames;
  }

  lemma LoopStep(p: Phase, bytes: seq<byte>, index: nat, done: seq<Frame>, s: StepResult, goal: Run)
    requires Inv(p) && index < |bytes| && s == Step(p, bytes[index..])
    requires Then(Run(p, done), bytes[index..]) == goal
    ensures index + s.consumed <= |bytes| && (s.consumed == 0 ==> Rank(s.next) < Rank(p))
    ensures Then(Run(s.next, done + Emitted(s.emitted)), bytes[index + s.consumed..]) == goal
  {
    FeedStep(p, bytes[index..], done, s);
    assert bytes[index..][s.consumed..] == bytes[index + s.consumed..];
  }

  /** Each iteration of the loop moves the reference machine exactly as far. */
  lemma StepAgreesWithScan(p: Phase, input: seq<byte>)
    requires Inv(p) && |input| > 0
    ensures var s := Step(p, input); Scan(p, input) == Prepend(s.emitted, Scan(s.next, input[s.consumed..]))
  {
    match p
    case SeekSync =>
      ScanQuiet(p, input);
    case ReadHeader(h) =>
      StepAgreesHeader(h, input);
    case ReadPayload(header, got, left) =>
      StepAgreesPayload(header, got, left, input);
    case ReadCrc(header, data) =>
      ScanUnfold(p, input);
  }

  lemma StepAgreesHeader(h: seq<byte>, input: seq<byte>)
    requires Inv(ReadHeader(h)) && |input| > 0
    ensures var s := Step(ReadHeader(h), input);
            s.emitted.None? && Scan(ReadHeader(h), input) == Scan(s.next, input[s.consumed..])
  {
    StepCopiesHeader(h, input);
    ScanHeaderPrefix(h, input, Min(|input|, MIN_HEADER_LENGTH - |h|));
  }

  /** In state 1, one loop iteration copies as many header bytes as the input holds.
      Kept apart so that `Step` is unfolded where no `Scan` terms are around. */
  lemma StepCopiesHeader(h: seq<byte>, input: seq<byte>)
    requires Inv(ReadHeader(h)) && |input| > 0
    ensures var k := Min(|input|, MIN_HEADER_LENGTH - |h|);
            Step(ReadHeader(h), input) == StepResult(HeaderAfter(h + input[..k]), k, None)
  {
  }

  lemma StepAgreesPayload(header: FrameHeader, got: seq<byte>, left: nat, input: seq<byte>)
    requires |input| > 0
    ensures var s := Step(ReadPayload(header, got, left), input);
            s.emitted.None? && Scan(ReadPayload(header, got, left), input) == Scan(s.next, input[s.consumed..])
  {
    if left > 0 {
      StepAgreesPayloadCopy(header, got, left, input);
    } else {
      StepAgreesPayloadFull(header, got, input);
    }
  }

  /** Payload bytes still missing: the loop copies as many as it can. */
  lemma StepAgreesPayloadCopy(header: FrameHeader, got: seq<byte>, left: nat, input: seq<byte>)
    requires |input| > 0 && left > 0
    ensures var s := Step(ReadPayload(header, got, left), input);
            s.emitted.None? && Scan(ReadPayload(header, got, left), input) == Scan(s.next, input[s.consumed..])
  {
    ScanPayloadPrefix(header, got, left, input, Min(|input|, left));
    StepCopiesPayload(header, got, left, input);
  }

  /** With payload bytes missing, one loop iteration copies as many as the input holds.
      Kept apart for the same reason as `StepCopiesHeader`. */
  lemma StepCopiesPayload(header: FrameHeader, got: seq<byte>, left: nat, input: seq<byte>)
    requires |input| > 0 && left > 0
    ensures var k := Min(|input|, left);
            Step(ReadPayload(header, got, left), input) == StepResult(PayloadAfter(header, got + input[..k], left - k), k, None)
  {
  }

  /** Nothing missing: the loop consumes nothing and moves on to the checksum,
      where the reference machine takes the next byte as the checksum directly. */
  lemma StepAgreesPayloadFull(header: FrameHeader, got: seq<byte>, input: seq<byte>)
    requires |input| > 0
    ensures var s := Step(ReadPayload(header, got, 0), input);
            s.emitted.None? && Scan(ReadPayload(header, got, 0), input) == Scan(s.next, input[s.consumed..])
  {
    var s := Step(ReadPayload(header, got, 0), input);
    assert got + input[..0] == got;
    assert s == StepResult(ReadCrc(header, got), 0, None);
    assert input[0..] == input;
    var frame := Frame(header.ftype, header.objectId, header.instanceId, got, input[0]);
    ScanUnfold(ReadPayload(header, got, 0), input);
    ScanUnfold(ReadCrc(header, got), input);
    assert Next(ReadPayload(header, got, 0), input[0]) == Next(ReadCrc(header, got), input[0]);
  }

  /** The loop computes exactly what the byte-at-a-time reference machine computes. */
  lemma {:induction false} FeedIsScan(p: Phase, input: seq<byte>)
    requires Inv(p)
    ensures Feed(p, input) == Scan(p, input)
    decreases |input|, Rank(p)
  {
    if input != [] {
      var s := Step(p, input);
      FeedUnfold(p, input);
      StepAgreesWithScan(p, input);
      FeedIsScan(s.next, input[s.consumed..]);
    }
  }

  /** Chunking invariance: feeding `a` and then `b` to the same machine leaves it in
      the same state, with the same callbacks in the same order, as feeding `a + b`. */
  lemma FeedSplit(p: Phase, a: seq<byte>, b: seq<byte>)
    requires Inv(p)
    ensures Feed(p, a + b) == Then(Feed(p, a), b)
  {
    FeedIsScan(p, a + b);
    FeedIsScan(p, a);
    FeedIsScan(Feed(p, a).phase, b);
    ScanAppend(p, a, b);
  }

  function Concat(chunks: seq<seq<byte>>): seq<byte>
  {
    if chunks == [] then [] else chunks[0] + Concat(chunks[1..])
  }

  /** Successive calls, one per chunk, on the machine a closure keeps. */
  function FeedChunks(p: Phase, chunks: seq<seq<byte>>): (r: Run)
    requires Inv(p)
    ensures Inv(r.phase)
    decreases |chunks|
  {
    if chunks == [] then Run(p, [])
    else
      var first := Feed(p, chunks[0]);
      var rest := FeedChunks(first.phase, chunks[1..]);
      Run(rest.phase, first.frames + rest.frames)
  }

  /** Any split of an input into chunks gives the same callbacks and the same final
      state as the whole input in one call. */
  lemma {:induction false} FeedChunksIsFeed(p: Phase, chunks: seq<seq<byte>>)
    requires Inv(p)
    ensures FeedChunks(p, chunks) == Feed(p, Concat(chunks))
    decreases |chunks|
  {
    if chunks != [] {
      FeedChunksIsFeed(Feed(p, chunks[0]).phase, chunks[1..]);
      FeedSplit(p, chunks[0], Concat(chunks[1..]));
    }
  }

  /** What a call ends with when the callback may throw: the run so far and whether
      the callback's exception ended the call. */
  datatype Outcome = Outcome(run: Run, threw: bool)

  /** One call of `function(data)` as written, when the callback throws on the frames
      `throws` selects. The exception leaves the loop at `callback(message)`, before
      `index++` and `state = 0`: the machine stays in state 3 with the same header and
      data, and the rest of the input is dropped. */
  function FeedThrowing(p: Phase, input: seq<byte>, throws: Frame -> bool): (r: Outcome)
    requires Inv(p)
    ensures Inv(r.run.phase)
    ensures forall i :: 0 <= i < |r.run.frames| - 1 ==> !throws(r.run.frames[i])
    ensures !r.threw ==> forall i :: 0 <= i < |r.run.frames| ==> !throws(r.run.frames[i])
    ensures r.threw ==> && r.run.frames != []
                        && var last := r.run.frames[|r.run.frames| - 1];
                           && throws(last)
                           && r.run.phase == ReadCrc(FrameHeader(last.ftype, last.objectId, last.instanceId), last.data)
    decreases |input|, Rank(p)
  {
    if input == [] then Outcome(Run(p, []), false)
    else
      var s := Step(p, input);
      if s.emitted.Some? && throws(s.emitted.value) then Outcome(Run(p, [s.emitted.value]), true)
      else
        var rest := FeedThrowing(s.next, input[s.consumed..], throws);
        Outcome(Prepend(s.emitted, rest.run), rest.threw)
  }

  /** When no frame the call delivers makes the callback throw, the loop as written is `Feed`. */
  lemma {:induction false} FeedThrowingAgrees(p: Phase, input: seq<byte>, throws: Frame -> bool)
    requires Inv(p)
    requires forall i :: 0 <= i < |Feed(p, input).frames| ==> !throws(Feed(p, input).frames[i])
    ensures FeedThrowing(p, input, throws) == Outcome(Feed(p, input), false)
    decreases |input|, Rank(p)
  {
    if input != [] {
      var s := Step(p, input);
      FeedUnfold(p, input);
      var rest := Feed(s.next, input[s.consumed..]);
      var k := |Emitted(s.emitted)|;
      assert forall i :: 0 <= i < |rest.frames| ==> rest.frames[i] == Feed(p, input).frames[k + i];
      assert s.emitted.Some? ==> Feed(p, input).frames[0] == s.emitted.value;
      FeedThrowingAgrees(s.next, input[s.consumed..], throws);
    }
  }

  /** Successive calls by a caller that catches the callback's exception and goes on
      feeding chunks: each call starts from the state the previous one left. */
  function FeedChunksThrowing(p: Phase, chunks: seq<seq<byte>>, throws: Frame -> bool): (r: Run)
    requires Inv(p)
    ensures Inv(r.phase)
    decreases |chunks|
  {
    if chunks == [] then Run(p, [])
    else
      var first := FeedThrowing(p, chunks[0], throws).run;
      var rest := FeedChunksThrowing(first.phase, chunks[1..], throws);
      Run(rest.phase, first.frames + rest.frames)
  }

  /** The frame a machine stuck in state 3 with header `hd` and data `d` hands to the
      callback for each non-empty chunk: the first byte of the chunk is its checksum. */
  function Redelivered(hd: FrameHeader, d: seq<byte>, chunks: seq<seq<byte>>): seq<Frame>
  {
    if chunks == [] then []
    else (if chunks[0] == [] then [] else [Frame(hd.ftype, hd.objectId, hd.instanceId, d, chunks[0][0])])
         + Redelivered(hd, d, chunks[1..])
  }

  /** As written, a callback that throws on a frame whatever its checksum byte (as
      `decode` does for data that `unpack_obj` refuses) wedges the stream: from the
      state the exception leaves, every later chunk only re-delivers that frame with
      the chunk's first byte as checksum, no other frame reaches the callback, and the
      machine never leaves state 3. */
  lemma {:induction false} StuckAfterThrow(hd: FrameHeader, d: seq<byte>, chunks: seq<seq<byte>>, throws: Frame -> bool)
    requires forall i :: 0 <= i < |chunks| && chunks[i] != [] ==>
               throws(Frame(hd.ftype, hd.objectId, hd.instanceId, d, chunks[i][0]))
    ensures FeedChunksThrowing(ReadCrc(hd, d), chunks, throws) == Run(ReadCrc(hd, d), Redelivered(hd, d, chunks))
    decreases |chunks|
  {
    if chunks != [] {
      StuckAfterThrow(hd, d, chunks[1..], throws);
      assert forall i :: 0 <= i < |chunks[1..]| ==> chunks[1..][i] == chunks[i + 1];
    }
  }

  /** What the loop evidently intends, and what `Feed` does: it moves past the checksum
      byte whatever the callback does, so after a frame the callback rejects, the next
      frame in the same chunk is still delivered and the machine is back in sync. */
  lemma ResyncAfterFrame(hd: FrameHeader, d: seq<byte>, c: byte, h: seq<byte>, payload: seq<byte>, crc: byte)
    requires |h| == MIN_HEADER_LENGTH && h[0] == SYNC
    requires |payload| == PayloadLength(h)
    ensures Feed(ReadCrc(hd, d), [c] + h + payload + [crc])
         == Run(SeekSync, [Frame(hd.ftype, hd.objectId, hd.instanceId, d, c), FrameOf(h, payload, crc)])
  {
    var input := [c] + h + payload + [crc];
    FeedUnfold(ReadCrc(hd, d), input);
    assert input[1..] == h + payload + [crc];
    FeedOneFrame(h, payload, crc);
  }

  /** The frame the machine reports for header `h`, payload `payload` and checksum byte `crc`. */
  function FrameOf(h: seq<byte>, payload: seq<byte>, crc: byte): Frame
    requires |h| >= MIN_HEADER_LENGTH
  {
    var hd := DecodeHeader(h);
    Frame(hd.ftype, hd.objectId, hd.instanceId, payload, crc)
  }

  /** A lone well-formed frame from the sync state: exactly one callback, whose
      fields are read from the header bytes and whose data is exactly the
      announced payload, and the machine is back in the sync state. */
  lemma FeedOneFrame(h: seq<byte>, payload: seq<byte>, crc: byte)
    requires |h| == MIN_HEADER_LENGTH && h[0] == SYNC
    requires |payload| == PayloadLength(h)
    ensures Feed(SeekSync, h + payload + [crc]) == Run(SeekSync, [FrameOf(h, payload, crc)])
  {
    var input := h + payload + [crc];
    var tail := payload + [crc];
    FeedIsScan(SeekSync, input);
    assert input[0] == SYNC && input[1..] == h[1..] + tail;
    ScanQuiet(SeekSync, input);
    ScanHeader([SYNC], h[1..], tail);
    assert [SYNC] + h[1..] == h;
    ScanPayloadToCrc(DecodeHeader(h), payload, crc);
  }

  /** Input that stops inside a header leaves the machine holding the partial header. */
  lemma FeedPartialHeader(h: seq<byte>)
    requires 1 <= |h| < MIN_HEADER_LENGTH && h[0] == SYNC
    ensures Feed(SeekSync, h) == Run(ReadHeader(h), [])
  {
    FeedIsScan(SeekSync, h);
    ScanQuiet(SeekSync, h);
    if |h| > 1 {
      ScanHeader([SYNC], h[1..], []);
      assert [SYNC] + h[1..] == h && h[1..] + [] == h[1..];
    } else {
      assert h == [SYNC];
    }
  }

  /** The payload phase of a fresh header, fed exactly its payload and the checksum byte. */
  lemma {:induction false} ScanPayloadToCrc(hd: FrameHeader, payload: seq<byte>, crc: byte)
    ensures Scan(ReadPayload(hd, [], |payload|), payload + [crc])
         == Run(SeekSync, [Frame(hd.ftype, hd.objectId, hd.instanceId, payload, crc)])
  {
    var tail := payload + [crc];
    var frame := Frame(hd.ftype, hd.objectId, hd.instanceId, payload, crc);
    if |payload| > 0 {
      ScanPayload(hd, [], |payload|, payload, [crc]);
      assert [] + payload == payload;
      ScanUnfold(ReadCrc(hd, payload), [crc]);
      assert [crc][1..] == [];
    } else {
      assert payload == [] && tail == [crc] && tail[1..] == [];
      ScanUnfold(ReadPayload(hd, [], 0), tail);
    }
  }

  /** Bytes that are not the sync byte are dropped without any callback. */
  lemma {:induction false} SkipNoise(noise: seq<byte>)
    requires forall i :: 0 <= i < |noise| ==> noise[i] != SYNC
    ensures Feed(SeekSync, noise) == Run(SeekSync, [])
  {
    if noise != [] {
      SkipNoise(noise[1..]);
    }
  }

  /** Resynchronisation: leading noise changes nothing about what follows. */
  lemma Resync(noise: seq<byte>, input: seq<byte>)
    requires forall i :: 0 <= i < |noise| ==> noise[i] != SYNC
    ensures Feed(SeekSync, noise + input) == Feed(SeekSync, input)
  {
    SkipNoise(noise);
    FeedSplit(SeekSync, noise, input);
  }
}
