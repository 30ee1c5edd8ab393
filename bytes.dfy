/** Byte-level vocabulary shared by the decoder models: the byte type, an
    Option wrapper, and the big- and little-endian multi-byte readers the
    codecs use on their byte streams. */
module Bytes {

  /** An unsigned 8-bit value (C `unsigned char` / `uint8_t`). */
  type byte = x: int | 0 <= x < 256

  datatype Option<+T> = None | Some(value: T)

  /** FFMIN. */
  function Min(a: int, b: int): int
  {
    if a <= b then a else b
  }

  /** AV_RB16: two bytes, most significant first. */
  function BE16(s: seq<byte>, i: nat): (r: nat)
    requires i + 2 <= |s|
    ensures r < 0x1_0000
    ensures r / 256 == s[i] && r % 256 == s[i + 1]
  {
    (s[i] as int) * 256 + s[i + 1]
  }

  /** AV_RB24: three bytes, most significant first. */
  function BE24(s: seq<byte>, i: nat): (r: nat)
    requires i + 3 <= |s|
    ensures r < 0x100_0000
    ensures r / 256 == BE16(s, i) && r % 256 == s[i + 2]
  {
    BE16(s, i) * 256 + (s[i + 2] as int)
  }

  /** bytestream_get_be32 / AV_RB32. */
  function BE32(s: seq<byte>, i: nat): (r: nat)
    requires i + 4 <= |s|
    ensures r < 0x1_0000_0000
    ensures r / 256 == BE24(s, i) && r % 256 == s[i + 3]
  {
    BE24(s, i) * 256 + (s[i + 3] as int)
  }

  /** AV_RL16: two bytes, least significant first. */
  function LE16(s: seq<byte>, i: nat): (r: nat)
    requires i + 2 <= |s|
    ensures r < 0x1_0000
    ensures r % 256 == s[i] && r / 256 == s[i + 1]
  {
    (s[i] as int) + 256 * (s[i + 1] as int)
  }

  /** bytestream_get_le32: four bytes, least significant first. */
  function LE32(s: seq<byte>, i: nat): (r: nat)
    requires i + 4 <= |s|
    ensures r < 0x1_0000_0000
    ensures r % 0x1_0000 == LE16(s, i) && r / 0x1_0000 == LE16(s, i + 2)
  {
    LE16(s, i) + 0x1_0000 * LE16(s, i + 2)
  }

  /** The value of an unsigned 32-bit word stored in a C `int`
      (two's complement). */
  function ToInt32(u: nat): (r: int)
    requires u < 0x1_0000_0000
    ensures -0x8000_0000 <= r < 0x8000_0000
    ensures (r - u) % 0x1_0000_0000 == 0
  {
    if u < 0x8000_0000 then u else u - 0x1_0000_0000
  }

  /** The four bytes of `n`, least significant first: what an LE32 read
      gives back as `n`. */
  function LE32Bytes(n: nat): (r: seq<byte>)
    requires n < 0x1_0000_0000
    ensures |r| == 4 && LE32(r, 0) == n
  {
    var lo := n % 0x1_0000;
    var hi := n / 0x1_0000;
    var r := [lo % 0x100, lo / 0x100, hi % 0x100, hi / 0x100];
    assert LE16(r, 0) == lo && LE16(r, 2) == hi;
    r
  }
}
