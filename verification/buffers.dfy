/** Node buffers as byte sequences, with the big-endian 16-bit field the frame header uses. */
module Buffers {

  /** An octet; kept as an integer range so that length arithmetic stays linear. */
  newtype byte = b: int | 0 <= b < 256

  type Buffer = seq<byte>

  /** Number of values a 2-byte unsigned field can hold. */
  const U16_LIMIT: int := 0x1_0000

  /** The unsigned big-endian 16-bit value at offset `i` (Buffer.readUInt16BE). */
  function ReadUInt16BE(b: Buffer, i: nat): (v: int)
    requires i + 2 <= |b|
    ensures 0 <= v < U16_LIMIT
  {
    (b[i] as int) * 256 + (b[i + 1] as int)
  }

  /** The two bytes of `n` truncated to 16 bits, most significant first. A negative `n`
      wraps around, which is what storing it byte by byte into a Buffer does. */
  function UInt16BE(n: int): (r: Buffer)
    ensures |r| == 2
    ensures ReadUInt16BE(r, 0) == n % U16_LIMIT
  {
    var v := n % U16_LIMIT;
    var hi, lo := v / 256, v % 256;
    [hi as byte, lo as byte]
  }
}
