/**
 The byte-level vocabulary of the HID transport: the C integer widths the
 firmware uses, unsigned wrap-around on assignment, big-endian 16-bit fields
 and splicing a run of bytes into a fixed buffer (`memmove`).
 */
module Bytes {

  /** An `unsigned char`. */
  type byte = x: int | 0 <= x < 0x100

  /** An `unsigned short` / `uint16_t`. */
  type u16 = x: int | 0 <= x < 0x1_0000

  /** An `unsigned int` (32 bits on the device). */
  type u32 = x: int | 0 <= x < 0x1_0000_0000

  function Min(a: int, b: int): int {
    if a < b then a else b
  }

  /** The value C stores when an `int` is assigned to an `unsigned short`:
      reduction modulo 2^16, so a small negative difference wraps to a large value. */
  function Wrap16(x: int): (r: u16)
    ensures 0 <= x < 0x1_0000 ==> r == x
    ensures -0x1_0000 <= x < 0 ==> r == x + 0x1_0000
  {
    x % 0x1_0000
  }

  /** `x++` on an `unsigned int`: wraps from 2^32 - 1 to 0. */
  function Inc32(x: u32): u32 {
    if x == 0xFFFF_FFFF then 0 else x + 1
  }

  /** `n` bytes of zero filler. */
  function Zeros(n: nat): (r: seq<byte>)
    ensures |r| == n
    ensures forall i :: 0 <= i < n ==> r[i] == 0
  {
    seq(n, _ => 0)
  }

  /** The two bytes a big-endian 16-bit field receives for `v`: `v >> 8` and `v`,
      each truncated to a byte as a store into an `unsigned char` does. */
  function BE16(v: nat): (r: seq<byte>)
    ensures |r| == 2
    ensures (r[0] as int) * 0x100 + (r[1] as int) == v % 0x1_0000
  {
    BE16Value(v);
    [(v / 0x100) % 0x100, v % 0x100]
  }

  /** The high and low bytes of `v` recombine to `v` reduced to 16 bits. */
  lemma BE16Value(v: nat)
    ensures ((v / 0x100) % 0x100) * 0x100 + v % 0x100 == v % 0x1_0000
  {
    var hi, lo := v / 0x100, v % 0x100;
    assert v == hi * 0x100 + lo;
    var q, h := hi / 0x100, hi % 0x100;
    assert hi == q * 0x100 + h;
    assert v == q * 0x1_0000 + (h * 0x100 + lo);
    assert 0 <= h * 0x100 + lo < 0x1_0000;
  }

  /** `U2BE(buf, at)`: the big-endian 16-bit value held by `buf[at]` and `buf[at + 1]`. */
  function ReadU16BE(buf: seq<byte>, at: nat): (v: u16)
    requires at + 2 <= |buf|
    ensures v / 0x100 == buf[at] && v % 0x100 == buf[at + 1]
  {
    (buf[at] as int) * 0x100 + (buf[at + 1] as int)
  }

  /** Reading back a written field gives the value reduced to 16 bits. */
  lemma DecodeEncodeU16(v: nat, buf: seq<byte>, at: nat)
    requires at + 2 <= |buf|
    requires buf[at] == BE16(v)[0] && buf[at + 1] == BE16(v)[1]
    ensures ReadU16BE(buf, at) == v % 0x1_0000
  {
  }

  /** A value that already fits in 16 bits is its own reduction. */
  lemma FitsU16(v: nat)
    requires v < 0x1_0000
    ensures v % 0x1_0000 == v
  {
  }

  /** Writing back a read field gives the same two bytes. */
  lemma EncodeDecodeU16(buf: seq<byte>, at: nat)
    requires at + 2 <= |buf|
    ensures BE16(ReadU16BE(buf, at)) == buf[at..at + 2]
  {
  }

  /** `memmove(buf + at, data, |data|)` on a buffer that has room for it. */
  function Splice(buf: seq<byte>, at: nat, data: seq<byte>): (r: seq<byte>)
    requires at + |data| <= |buf|
    ensures |r| == |buf|
    ensures forall i :: 0 <= i < |buf| ==> r[i] == (if at <= i < at + |data| then data[i - at] else buf[i])
  {
    buf[..at] + data + buf[at + |data|..]
  }

  /** `after` equals `before` outside the index window [lo, hi). */
  ghost predicate WritesWithin(before: seq<byte>, after: seq<byte>, lo: int, hi: int) {
    && |after| == |before|
    && forall i :: 0 <= i < |before| && !(lo <= i < hi) ==> after[i] == before[i]
  }
}
