/** The header builder `getPacket` of the packet handler in uavtalk.js, and a
    corrected builder whose output the deframer reads back. */
module Packet {
  import opened Wire
  import opened Framing

  /** `type | VERSION` as the buffer stores it: the low byte of the type with bit 5
      (0x20) set. Splitting that byte as 64 * a + 32 * c + d, with c the bit and
      d < 32 the bits below it, the result is 64 * a + 32 + d. */
  function TypeByte(ftype: int): byte
  {
    var low := ftype % 256;
    var a, m := low / 64, low % 64;
    var c, d := m / 32, m % 32;
    TypeByteBits(ftype, ftype / 256, a, c, d);
    (64 * a + VERSION as int + d) as byte
  }

  lemma TypeByteBits(ftype: int, q: int, a: int, c: int, d: int)
    requires 0 <= a < 4 && 0 <= c < 2 && 0 <= d < 32
    requires ftype == 256 * q + 64 * a + 32 * c + d
    ensures 64 * a + 32 + d < 256
    ensures (64 * a + 32 + d) % 16 == ftype % 16
    ensures ((64 * a + 32 + d) / 32) % 2 == 1
  {
    var lo, hi := d % 16, d / 16;
    assert d == 16 * hi + lo && 0 <= lo < 16;
    DivModUnique(ftype, 16, 16 * q + 4 * a + 2 * c + hi, lo);
    DivModUnique(64 * a + 32 + d, 16, 4 * a + 2 + hi, lo);
    DivModUnique(64 * a + 32 + d, 32, 2 * a + 1, d);
    DivModUnique(2 * a + 1, 2, a, 1);
  }

  /** The stored type byte is the low byte of `type` with bit 5 set: every other
      bit is kept, so in particular the low four bits are those of `type`. */
  lemma TypeByteFields(ftype: int)
    ensures TypeByte(ftype) as int == ftype % 256 + (if (ftype % 256) % 64 < 32 then 32 else 0)
    ensures TypeByte(ftype) as int % 16 == ftype % 16
    ensures (TypeByte(ftype) as int / 32) % 2 == 1
  {
    var low := ftype % 256;
    var a, m := low / 64, low % 64;
    TypeByteBits(ftype, ftype / 256, a, m / 32, m % 32);
  }

  /** The low four bits of a type code, the part `types[... & 0x0f]` looks at. */
  function LowNibble(ftype: int): byte
  {
    (ftype % 16) as byte
  }

  /** The total length `getPacket` announces: the 10-byte header plus the payload,
      if there is one. */
  function AnnouncedLength(data: Option<seq<byte>>): nat
  {
    MIN_HEADER_LENGTH + (if data.Some? then |data.value| else 0)
  }

  /** The eight bytes `getPacket` returns: sync, type and version, the length low
      byte first, then four zero bytes. */
  function PacketHeader(ftype: int, data: Option<seq<byte>>): (h: seq<byte>)
    ensures |h| == 8
  {
    [SYNC, TypeByte(ftype)] + LowBytes16(AnnouncedLength(data)) + [0, 0, 0, 0]
  }

  /** `getPacket(type, object_id, data)`: fills a new buffer in place. The object
      id is accepted and never written. */
  method GetPacket(ftype: int, objectId: int, data: Option<seq<byte>>) returns (header: array<byte>)
    ensures fresh(header)
    ensures header[..] == PacketHeader(ftype, data)
  {
    header := new byte[8];
    header[0], header[1], header[2], header[3] := SYNC, TypeByte(ftype), 0, 0;
    header[4], header[5], header[6], header[7] := 0, 0, 0, 0;
    var length := MIN_HEADER_LENGTH;
    if data.Some? {
      length := length + |data.value|;
    }
    header[2] := (length % 256) as byte;
    header[3] := ((length / 256) % 256) as byte;
    assert header[..] == PacketHeader(ftype, data);
  }

  /** The type a header byte selects depends on its low four bits only. */
  lemma TypeByteSelects(ftype: int)
    ensures TypeOf(TypeByte(ftype)) == TypeOf(LowNibble(ftype))
  {
    var b, n := TypeByte(ftype), LowNibble(ftype);
    TypeByteFields(ftype);
    assert b % 16 == n % 16;
    TypeOfCodes(b);
    TypeOfCodes(n);
  }

  /** The built header announces 10 plus the payload length, modulo 2^16, low byte
      first, stores `type | VERSION` in byte 1, which selects the type from the low
      four bits of `type`, and leaves bytes 4-7 zero whatever the object id. */
  lemma PacketHeaderFields(ftype: int, data: Option<seq<byte>>)
    ensures var h := PacketHeader(ftype, data);
            && h[0] == SYNC
            && U16(h[2], h[3]) == AnnouncedLength(data) % 0x1_0000
            && h[1] == TypeByte(ftype)
            && TypeOf(h[1]) == TypeOf(LowNibble(ftype))
            && h[4] == 0 && h[5] == 0 && h[6] == 0 && h[7] == 0
  {
    var h := PacketHeader(ftype, data);
    assert h[2..4] == LowBytes16(AnnouncedLength(data));
    LowBytes16Value(AnnouncedLength(data));
    TypeByteSelects(ftype);
  }

  /** For the four request codes the type byte names OBJ, OBJ_REQ, OBJ_ACK and
      OBJ_ACK again (code 3 is TYPE_ACK, which the table also calls OBJ_ACK). */
  lemma PacketTypeCodes(ftype: int)
    requires 0 <= ftype <= 3
    ensures TypeOf(PacketHeader(ftype, None)[1]) == [Some(OBJ), Some(OBJ_REQ), Some(OBJ_ACK), Some(OBJ_ACK)][ftype]
  {
    var h := PacketHeader(ftype, None);
    assert h[1] == TypeByte(ftype);
    TypeByteSelects(ftype);
    assert LowNibble(ftype) == ftype as byte;
  }

  /** As written, a request packet followed by its checksum byte never reaches the
      callback: the deframer waits for a tenth header byte that never comes. */
  lemma RequestPacketNeverDelivered(ftype: int, crc: byte)
    ensures Feed(SeekSync, PacketHeader(ftype, None) + [crc]) == Run(ReadHeader(PacketHeader(ftype, None) + [crc]), [])
  {
    var h := PacketHeader(ftype, None) + [crc];
    FeedPartialHeader(h);
  }

  /** The header the length field and the deframer both assume: the eight bytes
      above with the object id written low byte first into bytes 4-7, followed by
      a zero instance id. */
  function FullHeader(ftype: int, objectId: int, data: Option<seq<byte>>): (h: seq<byte>)
    ensures |h| == MIN_HEADER_LENGTH
  {
    [SYNC, TypeByte(ftype)] + LowBytes16(AnnouncedLength(data)) + LowBytes32(objectId) + [0, 0]
  }

  lemma FullHeaderFields(ftype: int, objectId: int, payload: seq<byte>)
    requires -0x8000_0000 <= objectId < 0x8000_0000
    requires |payload| <= MAX_PAYLOAD_LENGTH
    ensures var h := FullHeader(ftype, objectId, Some(payload));
            && h[0] == SYNC && h[1] == TypeByte(ftype)
            && U16(h[2], h[3]) == |payload| + MIN_HEADER_LENGTH
            && S32(h[4], h[5], h[6], h[7]) == objectId
            && U16(h[8], h[9]) == 0
  {
    var h := FullHeader(ftype, objectId, Some(payload));
    var len, id := LowBytes16(AnnouncedLength(Some(payload))), LowBytes32(objectId);
    assert h == [SYNC, TypeByte(ftype)] + len + id + [0, 0];
    assert h[2] == len[0] && h[3] == len[1];
    assert h[4] == id[0] && h[5] == id[1] && h[6] == id[2] && h[7] == id[3];
    assert h[8] == 0 && h[9] == 0;
    var n := AnnouncedLength(Some(payload));
    LowBytes16Value(n);
    DivModUnique(n, 0x1_0000, 0, n);
    assert U16(h[2], h[3]) == n;
    S32RoundTrip(objectId);
  }

  /** A full header, its payload and a checksum byte come out of the deframer as
      exactly one frame carrying the type, object id, instance 0, payload and
      checksum that went in. */
  lemma FullPacketRoundTrip(ftype: int, objectId: int, payload: seq<byte>, crc: byte)
    requires -0x8000_0000 <= objectId < 0x8000_0000
    requires |payload| <= MAX_PAYLOAD_LENGTH
    ensures Feed(SeekSync, FullHeader(ftype, objectId, Some(payload)) + payload + [crc])
         == Run(SeekSync, [Frame(TypeOf(LowNibble(ftype)), objectId, 0, payload, crc)])
  {
    var h := FullHeader(ftype, objectId, Some(payload));
    FullHeaderDecodes(ftype, objectId, payload);
    FeedOneFrame(h, payload, crc);
  }

  /** What the deframer reads from a full header: the type of its low four bits,
      the object id, instance 0 and exactly the payload length. */
  lemma FullHeaderDecodes(ftype: int, objectId: int, payload: seq<byte>)
    requires -0x8000_0000 <= objectId < 0x8000_0000
    requires |payload| <= MAX_PAYLOAD_LENGTH
    ensures var h := FullHeader(ftype, objectId, Some(payload));
            && DecodeHeader(h) == FrameHeader(TypeOf(LowNibble(ftype)), objectId, 0)
            && PayloadLength(h) == |payload|
  {
    var h := FullHeader(ftype, objectId, Some(payload));
    TypeByteSelects(ftype);
    FullHeaderFields(ftype, objectId, payload);
    PayloadLengthClamped(h);
  }
}
