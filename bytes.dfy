/** Bytes of the PIC dump and little-endian multi-byte fields built from them. */
module Bytes {

  /** An unsigned 8-bit value (`uint8_t`). */
  type Byte = b: int | 0 <= b < 0x100

  /** 256 to the power n: one more than the largest n-byte value. */
  function Pow256(n: nat): (p: nat)
    ensures p >= 1
  {
    if n == 0 then 1 else 0x100 * Pow256(n - 1)
  }

  /**
   * The low n bytes of x, least significant first; byte k is `(x >> 8*k) & 0xff`,
   * which for a non-negative x is the k-th base-256 digit.
   */
  function LittleEndianBytes(x: nat, n: nat): (bs: seq<Byte>)
    ensures |bs| == n
  {
    if n == 0 then [] else [x % 0x100] + LittleEndianBytes(x / 0x100, n - 1)
  }

  /**
   * The value of bytes OR-ed together at shifts 0, 8, 16, ...; the shifted bytes
   * do not overlap, so the OR is their sum.
   */
  function LittleEndianValue(bs: seq<Byte>): (v: nat)
    ensures v < Pow256(|bs|)
  {
    if bs == [] then 0 else bs[0] + 0x100 * LittleEndianValue(bs[1..])
  }

  /** Splitting a value that fits in n bytes and joining the bytes again is lossless. */
  lemma {:induction false} LittleEndianRoundTrip(x: nat, n: nat)
    requires x < Pow256(n)
    ensures LittleEndianValue(LittleEndianBytes(x, n)) == x
  {
    if n > 0 {
      var bs := LittleEndianBytes(x, n);
      assert bs[1..] == LittleEndianBytes(x / 0x100, n - 1);
      LittleEndianRoundTrip(x / 0x100, n - 1);
    }
  }
}
