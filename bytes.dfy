/**
 * Byte values and the big-endian integer fields of the OTA wire protocol.
 *
 * The source builds every frame as a JavaScript array of numbers and hands it
 * to `Uint8Array.from`, which reduces each element modulo 2^8 (ToUint8).  The
 * multi-byte fields are written as `x >> 8, x % 256` or `x >> 24 & 0xFF, ...`;
 * for operands in the 32-bit signed range `x >> k` is floor division by 2^k, so
 * each field byte is `(x / 2^k) % 256` with Dafny's Euclidean `/` and `%`, which
 * also covers negative operands the way ToUint8 does.
 */
module Bytes {

  /** One element of a `Uint8Array`. */
  newtype byte = x: int | 0 <= x < 256

  /** ToUint8: the conversion `Uint8Array.from` applies to every element. */
  function ToUint8(x: int): (b: byte)
    ensures 0 <= x < 256 ==> b as int == x
    ensures (x - b as int) % 256 == 0
  {
    (x % 256) as byte
  }

  /** `[x >> 8, x % 256]` after ToUint8: a two-byte big-endian field. */
  function Be16(x: int): (r: seq<byte>)
    ensures |r| == 2
  {
    [ToUint8(x / 0x100), ToUint8(x)]
  }

  /** `[x >> 24 & 0xFF, x >> 16 & 0xFF, x >> 8 & 0xFF, x & 0xFF]`: a four-byte big-endian field. */
  function Be32(x: int): (r: seq<byte>)
    ensures |r| == 4
  {
    [ToUint8(x / 0x100_0000), ToUint8(x / 0x1_0000), ToUint8(x / 0x100), ToUint8(x)]
  }

  /** How the receiving device reads a two-byte big-endian field. */
  function DecodeBe16(b: seq<byte>): (n: nat)
    requires |b| == 2
    ensures n < 0x1_0000
  {
    b[0] as nat * 0x100 + b[1] as nat
  }

  /** How the receiving device reads a four-byte big-endian field. */
  function DecodeBe32(b: seq<byte>): (n: nat)
    requires |b| == 4
    ensures n < 0x1_0000_0000
  {
    DecodeBe16(b[..2]) * 0x1_0000 + DecodeBe16(b[2..])
  }

  /** Splitting off the low byte of a 16-bit value. */
  lemma LowByteSplit(x: int)
    ensures ((x / 0x100) % 0x100) * 0x100 + x % 0x100 == x % 0x1_0000
  {
    var a, r := x / 0x100, x % 0x100;
    assert x == 0x100 * a + r;
    var c, s := a / 0x100, a % 0x100;
    assert x == 0x1_0000 * c + (0x100 * s + r);
  }

  /** Dividing twice by 256 is dividing by 65536. */
  lemma NestedDiv(x: int)
    ensures (x / 0x100) / 0x100 == x / 0x1_0000
  {
    var a, r := x / 0x100, x % 0x100;
    var c, s := a / 0x100, a % 0x100;
    assert x == 0x1_0000 * c + (0x100 * s + r);
  }

  /** A two-byte field carries its value modulo 2^16: exactly the value when it fits. */
  lemma Be16RoundTrip(x: int)
    ensures DecodeBe16(Be16(x)) == x % 0x1_0000
    ensures 0 <= x < 0x1_0000 ==> DecodeBe16(Be16(x)) == x
  {
    LowByteSplit(x);
  }

  /** Splitting off the low half of a 32-bit value. */
  lemma LowHalfSplit(x: int)
    ensures ((x / 0x1_0000) % 0x1_0000) * 0x1_0000 + x % 0x1_0000 == x % 0x1_0000_0000
  {
    var a, r := x / 0x1_0000, x % 0x1_0000;
    assert x == 0x1_0000 * a + r;
    var c, s := a / 0x1_0000, a % 0x1_0000;
    assert x == 0x1_0000_0000 * c + (0x1_0000 * s + r);
  }

  /** The four bytes of a 32-bit field are the two-byte fields of its high and low halves. */
  lemma Be32Halves(x: int)
    ensures Be32(x)[..2] == Be16(x / 0x1_0000)
    ensures Be32(x)[2..] == Be16(x)
  {
    NestedDiv(x);
    NestedDiv(x / 0x1_0000);
    assert (x / 0x1_0000) / 0x100 == x / 0x100_0000;
  }

  /** A four-byte field carries its value modulo 2^32: exactly the value when it fits. */
  lemma Be32RoundTrip(x: int)
    ensures DecodeBe32(Be32(x)) == x % 0x1_0000_0000
    ensures 0 <= x < 0x1_0000_0000 ==> DecodeBe32(Be32(x)) == x
  {
    var hi := x / 0x1_0000;
    Be32Halves(x);
    Be16RoundTrip(hi);
    Be16RoundTrip(x);
    LowHalfSplit(x);
    assert DecodeBe32(Be32(x)) == (hi % 0x1_0000) * 0x1_0000 + x % 0x1_0000;
  }
}
