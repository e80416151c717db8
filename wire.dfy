/** Bytes, little-endian field decoding and the optional-value wrapper shared by
    the UAVTalk modules. */
module Wire {

  /** One octet of a Node.js Buffer. */
  newtype byte = b: int | 0 <= b < 256

  /** The frame sentinel. */
  const SYNC: byte := 0x3C
  /** The version tag OR'd into the type byte of a built header. */
  const VERSION: byte := 0x20
  /** sync(1), type(1), size(2), object id(4), instance id(2). */
  const MIN_HEADER_LENGTH: nat := 10
  const MAX_PAYLOAD_LENGTH: nat := 255

  datatype Option<+T> = None | Some(value: T)

  /** An unsigned 16-bit value stored low byte first (`H` in a `<` format). */
  function U16(lo: byte, hi: byte): (r: nat)
    ensures r < 0x1_0000
  {
    lo as int + 256 * hi as int
  }

  /** An unsigned 32-bit value stored low byte first. */
  function U32(b0: byte, b1: byte, b2: byte, b3: byte): (r: nat)
    ensures r < 0x1_0000_0000
  {
    U16(b0, b1) + 0x1_0000 * U16(b2, b3)
  }

  /** Quotient and remainder are determined by any decomposition x == m * q + r, 0 <= r < m. */
  lemma DivModUnique(x: int, m: int, q: int, r: int)
    requires 0 < m && 0 <= r < m && x == m * q + r
    ensures x / m == q && x % m == r
  {
    var d := x / m - q;
    assert m * d == r - x % m;
    if d > 0 {
      MulMonotone(m, d);
    } else if d < 0 {
      MulMonotone(m, -d);
    }
  }

  lemma MulMonotone(m: int, d: int)
    requires 0 < m && 0 < d
    ensures m * d >= m
  {
  }

  /** Splitting a remainder modulo 2^16 into its low byte and the next byte. */
  lemma LowBytes16Split(x: nat)
    ensures x % 0x1_0000 == x % 256 + 256 * ((x / 256) % 256)
  {
    var q, r := x / 256, x % 256;
    var q2, r2 := q / 256, q % 256;
    assert x == 0x1_0000 * q2 + (256 * r2 + r);
    DivModUnique(x, 0x1_0000, q2, 256 * r2 + r);
  }

  /** Splitting a remainder modulo 2^32 into its two 16-bit halves. */
  lemma LowBytes32Split(u: nat)
    requires u < 0x1_0000_0000
    ensures u == u % 0x1_0000 + 0x1_0000 * (u / 0x1_0000) && u / 0x1_0000 < 0x1_0000
  {
  }

  /** A two's-complement signed 32-bit value stored low byte first (`i` in a `<` format):
      the unsigned value, less 2^32 when the top bit of the last byte is set. */
  function S32(b0: byte, b1: byte, b2: byte, b3: byte): (r: int)
    ensures -0x8000_0000 <= r < 0x8000_0000
    ensures r == U32(b0, b1, b2, b3) || r == U32(b0, b1, b2, b3) - 0x1_0000_0000
    ensures b3 < 0x80 <==> r >= 0
  {
    var u := U32(b0, b1, b2, b3);
    if u < 0x8000_0000 then u else u - 0x1_0000_0000
  }

  /** A signed 32-bit value survives being written as four bytes and read back. */
  lemma S32RoundTrip(x: int)
    requires -0x8000_0000 <= x < 0x8000_0000
    ensures var b := LowBytes32(x); S32(b[0], b[1], b[2], b[3]) == x
  {
    LowBytes32Value(x);
    if x >= 0 {
      DivModUnique(x, 0x1_0000_0000, 0, x);
    } else {
      DivModUnique(x, 0x1_0000_0000, -1, x + 0x1_0000_0000);
    }
  }

  /** The two bytes, low first, that `x & 0xFF` and `(x >> 8) & 0xFF` produce. */
  function LowBytes16(x: nat): (r: seq<byte>)
    ensures |r| == 2
  {
    [(x % 256) as byte, ((x / 256) % 256) as byte]
  }

  /** Read back, they give `x` modulo 2^16. */
  lemma LowBytes16Value(x: nat)
    ensures var r := LowBytes16(x); U16(r[0], r[1]) == x % 0x1_0000
  {
    LowBytes16Split(x);
  }

  /** The four bytes, low first, of `x` modulo 2^32. */
  function LowBytes32(x: int): (r: seq<byte>)
    ensures |r| == 4
  {
    var u := x % 0x1_0000_0000;
    LowBytes16(u % 0x1_0000) + LowBytes16(u / 0x1_0000)
  }

  /** Read back, they give `x` modulo 2^32. */
  lemma LowBytes32Value(x: int)
    ensures var r := LowBytes32(x); U32(r[0], r[1], r[2], r[3]) == x % 0x1_0000_0000
  {
    var u := x % 0x1_0000_0000;
    var lo, hi := LowBytes16(u % 0x1_0000), LowBytes16(u / 0x1_0000);
    var r := LowBytes32(x);
    assert r == lo + hi;
    assert r[0] == lo[0] && r[1] == lo[1] && r[2] == hi[0] && r[3] == hi[1];
    LowBytes32Split(u);
    LowBytes16Value(u % 0x1_0000);
    LowBytes16Value(u / 0x1_0000);
    assert U16(hi[0], hi[1]) == u / 0x1_0000;
    assert U32(r[0], r[1], r[2], r[3]) == U16(lo[0], lo[1]) + 0x1_0000 * U16(hi[0], hi[1]);
  }

  /** Node's `source.copy(target, targetStart, sourceStart, sourceStart + count)`:
      copies a slice of one buffer into another, in place. */
  method CopyBytes(source: seq<byte>, sourceStart: nat, target: array<byte>, targetStart: nat, count: nat)
    requires sourceStart + count <= |source| && targetStart + count <= target.Length
    modifies target
    ensures target[..] == old(target[..targetStart]) + source[sourceStart..sourceStart + count]
                          + old(target[targetStart + count..])
  {
    var i := 0;
    while i < count
      invariant 0 <= i <= count
      invariant forall j :: 0 <= j < target.Length && !(targetStart <= j < targetStart + i) ==>
                  target[j] == old(target[j])
      invariant forall j :: targetStart <= j < targetStart + i ==> target[j] == source[sourceStart + j - targetStart]
    {
      target[targetStart + i] := source[sourceStart + i];
      i := i + 1;
    }
  }
}
