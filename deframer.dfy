/** The resumable deframer as the source writes it: an object whose fields keep
    the decoder state between calls, and whose `Unpack` loops over one input
    buffer, copying header and payload bytes in place. The same loop appears
    twice in the repository, as the closure returned by `unpack(callback)` in
    uavtalk.js and as `UavtalkPacketHandler.unpack` in uavtalk_packet_handler.js;
    a fresh `Deframer` stands for either a fresh closure or a fresh handler.
    The callback's invocations are the frames `Unpack` returns, in order. */
module Deframer {
  import opened Wire
  import opened Framing

  class Deframer {
    /** 0 seek sync, 1 read header, 2 read payload, 3 read checksum. */
    var state: int
    /** The 12-byte header buffer, allocated once. */
    const headerbuffer: array<byte>
    var headerbufferlen: nat
    /** The payload buffer, allocated anew for each header. */
    var databuffer: array<byte>
    var datatoread: int
    /** What the loop records about the frame under way once its header is complete. */
    var pending: FrameHeader
    /** The specification state of the machine, kept equal to what the fields
        represent (see `Represented`). */
    ghost var phase: Phase

    ghost predicate Valid()
      reads this, headerbuffer, databuffer
    {
      && headerbuffer.Length == 12
      && headerbuffer != databuffer
      && 0 <= state <= 3
      && (state == 1 ==> 1 <= headerbufferlen < MIN_HEADER_LENGTH && headerbuffer[0] == SYNC)
      && (state == 2 ==> 0 <= datatoread <= databuffer.Length)
      && phase == Represented()
    }

    /** The machine state the fields represent: the header bytes collected so far,
        or the payload bytes collected so far and the number still missing. */
    ghost function Represented(): (p: Phase)
      reads this, headerbuffer, databuffer
      requires headerbuffer.Length == 12 && 0 <= state <= 3
      requires state == 1 ==> 1 <= headerbufferlen < MIN_HEADER_LENGTH && headerbuffer[0] == SYNC
      requires state == 2 ==> 0 <= datatoread <= databuffer.Length
      ensures Inv(p)
    {
      if state == 0 then SeekSync
      else if state == 1 then ReadHeader(headerbuffer[..headerbufferlen])
      else if state == 2 then ReadPayload(pending, databuffer[..databuffer.Length - datatoread], datatoread)
      else ReadCrc(pending, databuffer[..])
    }

    /** A new closure or handler: nothing read yet, seeking the sync byte. */
    constructor ()
      ensures Valid() && phase == SeekSync
      ensures fresh(headerbuffer) && fresh(databuffer)
    {
      headerbuffer := new byte[12];
      headerbufferlen := 0;
      databuffer := new byte[0];
      datatoread := 0;
      state := 0;
      pending := FrameHeader(None, 0, 0);
      phase := SeekSync;
    }

    /** One call with one input buffer: the whole buffer is consumed, the frames
        that complete are returned in callback order, and the new state is the
        one the specification machine reaches. */
    method Unpack(data: seq<byte>) returns (frames: seq<Frame>)
      requires Valid()
      modifies this, headerbuffer, databuffer
      ensures Valid()
      ensures Run(phase, frames) == Feed(old(phase), data)
      ensures databuffer == old(databuffer) || fresh(databuffer)
    {
      var index := 0;
      var datalen := |data|;
      frames := [];
      ghost var goal := Feed(phase, data);
      ThenFromStart(phase, data);
      assert data[index..] == data;
      while index < datalen
        invariant Valid()
        invariant 0 <= index <= datalen
        invariant databuffer == old(databuffer) || fresh(databuffer)
        invariant Then(Run(phase, frames), data[index..]) == goal
        decreases datalen - index, Rank(phase)
      {
        var consumed, emitted := Iteration(data, index, frames, goal);
        frames := frames + Emitted(emitted);
        index := index + consumed;
        if index > datalen {
          // "SOMETHING IS WRONG": no branch reads past the input
          assert false;
        }
      }
      assert data[index..] == [];
      ThenNothing(Run(phase, frames));
    }

    /** One pass of the loop body, stated as progress: the frames delivered so far
        followed by what the rest of the input yields from the new state is still
        the run the whole call must produce. */
    method Iteration(data: seq<byte>, index: nat, ghost done: seq<Frame>, ghost goal: Run) returns (consumed: nat, emitted: Option<Frame>)
      requires Valid() && index < |data|
      requires Then(Run(phase, done), data[index..]) == goal
      modifies this, headerbuffer, databuffer
      ensures Valid()
      ensures index + consumed <= |data| && (consumed == 0 ==> Rank(phase) < Rank(old(phase)))
      ensures Then(Run(phase, done + Emitted(emitted)), data[index + consumed..]) == goal
      ensures databuffer == old(databuffer) || fresh(databuffer)
    {
      ghost var before := phase;
      consumed, emitted := Advance(data, index);
      LoopStep(before, data, index, done, StepResult(phase, consumed, emitted), goal);
    }

    /** The body of `while (index < datalen)`: the branch of the state switch for
        the current state, on the input from `index` on. It returns how many bytes
        it consumed and the frame, if any, it passed to the callback. */
    method Advance(data: seq<byte>, index: nat) returns (consumed: nat, emitted: Option<Frame>)
      requires Valid() && index < |data|
      modifies this, headerbuffer, databuffer
      ensures Valid()
      ensures StepResult(phase, consumed, emitted) == Step(old(phase), data[index..])
      ensures databuffer == old(databuffer) || fresh(databuffer)
    {
      emitted := None;
      if state == 0 {
        consumed := SeekSyncByte(data, index);
      } else if state == 1 {
        consumed := CopyHeader(data, index);
      } else if state == 2 {
        consumed := CopyPayload(data, index);
      } else {
        emitted := Some(Frame(pending.ftype, pending.objectId, pending.instanceId, databuffer[..], data[index]));
        consumed := 1;
        state := 0;
        phase := Represented();
      }
    }

    /** State 0: a sync byte starts a header, anything else is skipped. */
    method SeekSyncByte(data: seq<byte>, index: nat) returns (consumed: nat)
      requires Valid() && state == 0 && index < |data|
      modifies this, headerbuffer
      ensures Valid() && databuffer == old(databuffer)
      ensures StepResult(phase, consumed, None) == Step(old(phase), data[index..])
    {
      if data[index] != SYNC {
        consumed := 1;
      } else {
        headerbuffer[0] := SYNC;
        headerbufferlen := 1;
        state := state + 1;
        consumed := 1;
        assert headerbuffer[..headerbufferlen] == [SYNC];
      }
      phase := Represented();
    }

    /** State 1: copy as much of the header as the input holds; once the ten bytes
        are in, go on to the payload. */
    method CopyHeader(data: seq<byte>, index: nat) returns (consumed: nat)
      requires Valid() && state == 1 && index < |data|
      modifies this, headerbuffer
      ensures Valid() && (databuffer == old(databuffer) || fresh(databuffer))
      ensures StepResult(phase, consumed, None) == Step(old(phase), data[index..])
    {
      ghost var h := headerbuffer[..headerbufferlen];
      ghost var input := data[index..];
      var tocopy := Min(|data| - index, 10 - headerbufferlen);
      assert Step(phase, input) == StepResult(HeaderAfter(h + input[..tocopy]), tocopy, None);
      ghost var hb := headerbuffer[..];
      CopyBytes(data, index, headerbuffer, headerbufferlen, tocopy);
      CopiedPrefix(hb, headerbuffer[..], data, headerbufferlen, index, tocopy);
      headerbufferlen := headerbufferlen + tocopy;
      consumed := tocopy;
      if headerbufferlen == 10 {
        StartPayload();
      } else {
        phase := Represented();
      }
    }

    /** The header is complete: record its fields, clamp the announced payload
        length to 0..255 and allocate a buffer of that size. */
    method StartPayload()
      requires headerbuffer.Length == 12 && headerbuffer != databuffer
      requires state == 1 && headerbufferlen == 10
      modifies this
      ensures Valid() && fresh(databuffer)
      ensures phase == HeaderAfter(headerbuffer[..10])
      ensures databuffer.Length == datatoread == PayloadLength(headerbuffer[..10])
    {
      var header := headerbuffer[..10];
      datatoread := U16(header[2], header[3]) - headerbufferlen;
      if datatoread < 0 {
        datatoread := 0;
      }
      if datatoread > 255 {
        datatoread := 255;
      }
      databuffer := new byte[datatoread];
      pending := DecodeHeader(header);
      state := state + 1;
      assert databuffer[..databuffer.Length - datatoread] == [];
      phase := Represented();
    }

    /** State 2: copy as much of the payload as the input holds; once it is all in,
        wait for the checksum byte. */
    method CopyPayload(data: seq<byte>, index: nat) returns (consumed: nat)
      requires Valid() && state == 2 && index < |data|
      modifies this, databuffer
      ensures Valid() && databuffer == old(databuffer)
      ensures StepResult(phase, consumed, None) == Step(old(phase), data[index..])
    {
      ghost var got := databuffer[..databuffer.Length - datatoread];
      ghost var input := data[index..];
      var tocopy := Min(|data| - index, datatoread);
      assert Step(phase, input) == StepResult(PayloadAfter(pending, got + input[..tocopy], datatoread - tocopy), tocopy, None);
      ghost var db := databuffer[..];
      CopyBytes(data, index, databuffer, databuffer.Length - datatoread, tocopy);
      CopiedPrefix(db, databuffer[..], data, databuffer.Length - datatoread, index, tocopy);
      datatoread := datatoread - tocopy;
      consumed := tocopy;
      assert databuffer[..databuffer.Length - datatoread] == got + input[..tocopy];
      if datatoread == 0 {
        state := state + 1;
        assert databuffer[..] == databuffer[..databuffer.Length - datatoread];
      }
      phase := Represented();
    }
  }

  /** After copying `count` bytes of `source` from `from` into `before` at `at`, the
      first `at + count` bytes are the old prefix followed by the copied slice. */
  lemma CopiedPrefix(before: seq<byte>, after: seq<byte>, source: seq<byte>, at: nat, from: nat, count: nat)
    requires at + count <= |before| && from + count <= |source|
    requires after == before[..at] + source[from..from + count] + before[at + count..]
    ensures after[..at + count] == before[..at] + source[from..][..count]
  {
    assert source[from..][..count] == source[from..from + count];
  }
}
