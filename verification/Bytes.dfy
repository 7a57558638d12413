/** Bytes and the fixed-width integers built from them.  Shifts and masks of the source are
    written as divisions, remainders and products. */
module Bytes {

  type Byte = n: int | 0 <= n < 256

  datatype Option<+T> = None | Some(value: T)

  function LE16(lo: Byte, hi: Byte): (w: nat)
    ensures w < 0x1_0000
  {
    lo + 256 * hi
  }

  function BE16(hi: Byte, lo: Byte): (w: nat)
    ensures w < 0x1_0000
  {
    LE16(lo, hi)
  }

  function BE24(hi: Byte, mid: Byte, lo: Byte): (w: nat)
    ensures w < 0x100_0000
  {
    0x1_0000 * hi + LE16(lo, mid)
  }

  // The low 16 or 24 bits of a number.
  function LE16Bytes(w: nat): (b: seq<Byte>)
    ensures |b| == 2 && (w < 0x1_0000 ==> LE16(b[0], b[1]) == w)
  {
    [w % 256, w / 256 % 256]
  }

  function BE16Bytes(w: nat): (b: seq<Byte>)
    ensures |b| == 2 && (w < 0x1_0000 ==> BE16(b[0], b[1]) == w)
  {
    [w / 256 % 256, w % 256]
  }

  function BE24Bytes(w: nat): (b: seq<Byte>)
    ensures |b| == 3 && (w < 0x100_0000 ==> BE24(b[0], b[1], b[2]) == w)
  {
    [w / 0x1_0000 % 256, w / 256 % 256, w % 256]
  }

  function LE32(b: seq<Byte>): (w: nat)
    requires |b| == 4
    ensures w == ((b[3] as int * 0x100 + b[2] as int) * 0x100 + b[1] as int) * 0x100 + b[0] as int
  {
    LE16(b[0], b[1]) + 0x1_0000 * LE16(b[2], b[3])
  }

  function LE32Bytes(w: nat): (b: seq<Byte>)
    requires w < 0x1_0000_0000
    ensures |b| == 4 && LE32(b) == w
  {
    LE16Bytes(w % 0x1_0000) + LE16Bytes(w / 0x1_0000)
  }
}
