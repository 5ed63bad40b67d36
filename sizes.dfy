/** The fixed-width unsigned integers of the ring buffer and the big-endian
    byte encodings that RBUF_WriteUint16 and RBUF_WriteUint32 emit. */
module Sizes {

  type uint8 = x: int | 0 <= x < 0x100

  /** RBUF_size_t: the array size, both cursors and every count returned. */
  type uint16 = x: int | 0 <= x < 0x1_0000

  type uint32 = x: int | 0 <= x < 0x1_0000_0000

  /** The number a byte string denotes when read most-significant byte first. */
  function BigEndianValue(bs: seq<uint8>): nat
  {
    if bs == [] then 0 else BigEndianValue(bs[..|bs| - 1]) * 0x100 + bs[|bs| - 1]
  }

  /** The bytes RBUF_WriteUint16 writes, in order: `v >> 8`, then `v & 0xFF`.
      Reading them back big-endian gives `v`. */
  function Uint16Bytes(v: uint16): (bs: seq<uint8>)
    ensures |bs| == 2 && BigEndianValue(bs) == v
  {
    var bs := [v / 0x100, v % 0x100];
    assert bs[..1][..0] == [] && bs[..2][..1] == bs[..1] && bs[..2] == bs;
    assert BigEndianValue(bs[..1]) == v / 0x100;
    bs
  }

  /** The bytes RBUF_WriteUint32 writes, in order: the low byte of `v >> 24`,
      `v >> 16`, `v >> 8` and `v`. Reading them back big-endian gives `v`. */
  function Uint32Bytes(v: uint32): (bs: seq<uint8>)
    ensures |bs| == 4 && BigEndianValue(bs) == v
  {
    var bs := [v / 0x100_0000, (v / 0x1_0000) % 0x100, (v / 0x100) % 0x100, v % 0x100];
    var q1, q2 := v / 0x100, v / 0x1_0000;
    assert q2 == q1 / 0x100 && v / 0x100_0000 == q2 / 0x100;
    assert bs[..1][..0] == [] && bs[..2][..1] == bs[..1] && bs[..3][..2] == bs[..2] && bs[..4][..3] == bs[..3] && bs[..4] == bs;
    assert BigEndianValue(bs[..1]) == q2 / 0x100;
    assert BigEndianValue(bs[..2]) == q2;
    assert BigEndianValue(bs[..3]) == q1;
    bs
  }
}
