/** Fixed-width integers and byte-level helpers shared by the encoders. */
module Bytes {

  newtype uint8 = x: int | 0 <= x < 0x100
  newtype uint16 = x: int | 0 <= x < 0x1_0000
  newtype uint32 = x: int | 0 <= x < 0x1_0000_0000

  /** The low 16 bits of `v` as two bytes, most significant first (network byte order):
      `(v >> 8) & 0xFF` followed by `v & 0xFF`. */
  function BigEndian16(v: nat): (r: seq<uint8>)
    ensures |r| == 2
    ensures r[0] as int * 0x100 + r[1] as int == v % 0x1_0000
  {
    LowBytes(v);
    [(v / 0x100 % 0x100) as uint8, (v % 0x100) as uint8]
  }

  /** The low 16 bits of `v` are its second byte times 0x100 plus its first byte. */
  lemma LowBytes(v: nat)
    ensures (v / 0x100 % 0x100) * 0x100 + v % 0x100 == v % 0x1_0000
  {
    var q := v / 0x1_0000;
    var r := v % 0x1_0000;
    assert v == q * 0x1_0000 + r;
    assert v / 0x100 == q * 0x100 + r / 0x100;
    assert v / 0x100 % 0x100 == r / 0x100;
  }

  /** `n` zero bytes, as left by `char buf[n] = { 0, }` or `memset(buf, 0, n)`. */
  function Zeros(n: nat): (r: seq<uint8>)
    ensures |r| == n
    ensures forall i :: 0 <= i < n ==> r[i] == 0
  {
    seq(n, _ => 0)
  }

  /** Addition on a 32-bit unsigned value (such as a TCP sequence number), wrapping modulo 2^32. */
  function Add32(a: uint32, d: nat): (r: uint32)
    ensures r as int == (a as int + d) % 0x1_0000_0000
  {
    ((a as int + d) % 0x1_0000_0000) as uint32
  }
}
