/** The table-driven CRC-16 of the frame parser.  It is the CRC of section 6.2.2 "CRC Generation"
    of the MODBUS over Serial Line Specification and Implementation Guide V1.02: reflected
    polynomial 0xA001, initial register 0xFFFF.

    Three descriptions of one function meet here:
      - CRC16, the loop over the two byte tables;
      - Fold, which XORs a byte into the register and halves it eight times;
      - Run, which feeds the message to the register one bit at a time, low bit first.
    The error-detection guarantees are proved on Run, where every step is injective. */
module Crc16 {

  const POLYNOMIAL: bv16 := 0xA001
  const INITIAL: bv16 := 0xFFFF

  // ---------------------------------------------------------------- definitions

  // XOR under a name.  Where a proof only rewrites, the name keeps the solver from bit-blasting.
  function Xor(a: bv16, b: bv16): bv16 {
    a ^ b
  }

  // One halving of the reflected register.
  function Half(c: bv16): bv16 {
    if c & 1 == 1 then (c >> 1) ^ POLYNOMIAL else c >> 1
  }

  function Half8(c: bv16): bv16 {
    Half(Half(Half(Half(Half(Half(Half(Half(c))))))))
  }

  function ByteStep(c: bv16, b: bv8): bv16 {
    Half8(Xor(c, b as bv16))
  }

  // The bitwise definition: the register after the whole message.
  function Fold(c: bv16, data: seq<bv8>): bv16
    decreases |data|
  {
    if data == [] then c else Fold(ByteStep(c, data[0]), data[1..])
  }

  function Crc(data: seq<bv8>): bv16 {
    Fold(INITIAL, data)
  }

  function BitStep(c: bv16, b: bool): bv16 {
    Half(if b then c ^ 1 else c)
  }

  // The bit-serial register.
  function Run(c: bv16, bits: seq<bool>): bv16
    decreases |bits|
  {
    if bits == [] then c else Run(BitStep(c, bits[0]), bits[1..])
  }

  // The bits of a byte in the order in which the register meets them.
  function Bits(b: bv8): (bits: seq<bool>)
    ensures |bits| == 8
  {
    var w := b as bv16;
    [w & 1 == 1, (w >> 1) & 1 == 1, (w >> 2) & 1 == 1, (w >> 3) & 1 == 1,
     (w >> 4) & 1 == 1, (w >> 5) & 1 == 1, (w >> 6) & 1 == 1, (w >> 7) & 1 == 1]
  }

  function MessageBits(data: seq<bv8>): (bits: seq<bool>)
    ensures |bits| == 8 * |data|
    decreases |data|
  {
    if data == [] then [] else Bits(data[0]) + MessageBits(data[1..])
  }

  function Word(hi: bv8, lo: bv8): bv16 {
    (hi as bv16 << 8) | lo as bv16
  }

  // ---------------------------------------------------------------- the two tables

  // Low-order bytes of the table words, sixteen entries a row.
  function AuchCrcHi(i: bv8): bv8 {
    match i >> 4
    case 0x0 => (match i & 0xF
      case 0x0 => 0x00 case 0x1 => 0xC1 case 0x2 => 0x81 case 0x3 => 0x40 case 0x4 => 0x01 case 0x5 => 0xC0 case 0x6 => 0x80 case 0x7 => 0x41
      case 0x8 => 0x01 case 0x9 => 0xC0 case 0xA => 0x80 case 0xB => 0x41 case 0xC => 0x00 case 0xD => 0xC1 case 0xE => 0x81 case 0xF => 0x40 case _ => 0)
    case 0x1 => (match i & 0xF
      case 0x0 => 0x01 case 0x1 => 0xC0 case 0x2 => 0x80 case 0x3 => 0x41 case 0x4 => 0x00 case 0x5 => 0xC1 case 0x6 => 0x81 case 0x7 => 0x40
      case 0x8 => 0x00 case 0x9 => 0xC1 case 0xA => 0x81 case 0xB => 0x40 case 0xC => 0x01 case 0xD => 0xC0 case 0xE => 0x80 case 0xF => 0x41 case _ => 0)
    case 0x2 => (match i & 0xF
      case 0x0 => 0x01 case 0x1 => 0xC0 case 0x2 => 0x80 case 0x3 => 0x41 case 0x4 => 0x00 case 0x5 => 0xC1 case 0x6 => 0x81 case 0x7 => 0x40
      case 0x8 => 0x00 case 0x9 => 0xC1 case 0xA => 0x81 case 0xB => 0x40 case 0xC => 0x01 case 0xD => 0xC0 case 0xE => 0x80 case 0xF => 0x41 case _ => 0)
    case 0x3 => (match i & 0xF
      case 0x0 => 0x00 case 0x1 => 0xC1 case 0x2 => 0x81 case 0x3 => 0x40 case 0x4 => 0x01 case 0x5 => 0xC0 case 0x6 => 0x80 case 0x7 => 0x41
      case 0x8 => 0x01 case 0x9 => 0xC0 case 0xA => 0x80 case 0xB => 0x41 case 0xC => 0x00 case 0xD => 0xC1 case 0xE => 0x81 case 0xF => 0x40 case _ => 0)
    case 0x4 => (match i & 0xF
      case 0x0 => 0x01 case 0x1 => 0xC0 case 0x2 => 0x80 case 0x3 => 0x41 case 0x4 => 0x00 case 0x5 => 0xC1 case 0x6 => 0x81 case 0x7 => 0x40
      case 0x8 => 0x00 case 0x9 => 0xC1 case 0xA => 0x81 case 0xB => 0x40 case 0xC => 0x01 case 0xD => 0xC0 case 0xE => 0x80 case 0xF => 0x41 case _ => 0)
    case 0x5 => (match i & 0xF
      case 0x0 => 0x00 case 0x1 => 0xC1 case 0x2 => 0x81 case 0x3 => 0x40 case 0x4 => 0x01 case 0x5 => 0xC0 case 0x6 => 0x80 case 0x7 => 0x41
      case 0x8 => 0x01 case 0x9 => 0xC0 case 0xA => 0x80 case 0xB => 0x41 case 0xC => 0x00 case 0xD => 0xC1 case 0xE => 0x81 case 0xF => 0x40 case _ => 0)
    case 0x6 => (match i & 0xF
      case 0x0 => 0x00 case 0x1 => 0xC1 case 0x2 => 0x81 case 0x3 => 0x40 case 0x4 => 0x01 case 0x5 => 0xC0 case 0x6 => 0x80 case 0x7 => 0x41
      case 0x8 => 0x01 case 0x9 => 0xC0 case 0xA => 0x80 case 0xB => 0x41 case 0xC => 0x00 case 0xD => 0xC1 case 0xE => 0x81 case 0xF => 0x40 case _ => 0)
    case 0x7 => (match i & 0xF
      case 0x0 => 0x01 case 0x1 => 0xC0 case 0x2 => 0x80 case 0x3 => 0x41 case 0x4 => 0x00 case 0x5 => 0xC1 case 0x6 => 0x81 case 0x7 => 0x40
      case 0x8 => 0x00 case 0x9 => 0xC1 case 0xA => 0x81 case 0xB => 0x40 case 0xC => 0x01 case 0xD => 0xC0 case 0xE => 0x80 case 0xF => 0x41 case _ => 0)
    case 0x8 => (match i & 0xF
      case 0x0 => 0x01 case 0x1 => 0xC0 case 0x2 => 0x80 case 0x3 => 0x41 case 0x4 => 0x00 case 0x5 => 0xC1 case 0x6 => 0x81 case 0x7 => 0x40
      case 0x8 => 0x00 case 0x9 => 0xC1 case 0xA => 0x81 case 0xB => 0x40 case 0xC => 0x01 case 0xD => 0xC0 case 0xE => 0x80 case 0xF => 0x41 case _ => 0)
    case 0x9 => (match i & 0xF
      case 0x0 => 0x00 case 0x1 => 0xC1 case 0x2 => 0x81 case 0x3 => 0x40 case 0x4 => 0x01 case 0x5 => 0xC0 case 0x6 => 0x80 case 0x7 => 0x41
      case 0x8 => 0x01 case 0x9 => 0xC0 case 0xA => 0x80 case 0xB => 0x41 case 0xC => 0x00 case 0xD => 0xC1 case 0xE => 0x81 case 0xF => 0x40 case _ => 0)
    case 0xA => (match i & 0xF
      case 0x0 => 0x00 case 0x1 => 0xC1 case 0x2 => 0x81 case 0x3 => 0x40 case 0x4 => 0x01 case 0x5 => 0xC0 case 0x6 => 0x80 case 0x7 => 0x41
      case 0x8 => 0x01 case 0x9 => 0xC0 case 0xA => 0x80 case 0xB => 0x41 case 0xC => 0x00 case 0xD => 0xC1 case 0xE => 0x81 case 0xF => 0x40 case _ => 0)
    case 0xB => (match i & 0xF
      case 0x0 => 0x01 case 0x1 => 0xC0 case 0x2 => 0x80 case 0x3 => 0x41 case 0x4 => 0x00 case 0x5 => 0xC1 case 0x6 => 0x81 case 0x7 => 0x40
      case 0x8 => 0x00 case 0x9 => 0xC1 case 0xA => 0x81 case 0xB => 0x40 case 0xC => 0x01 case 0xD => 0xC0 case 0xE => 0x80 case 0xF => 0x41 case _ => 0)
    case 0xC => (match i & 0xF
      case 0x0 => 0x00 case 0x1 => 0xC1 case 0x2 => 0x81 case 0x3 => 0x40 case 0x4 => 0x01 case 0x5 => 0xC0 case 0x6 => 0x80 case 0x7 => 0x41
      case 0x8 => 0x01 case 0x9 => 0xC0 case 0xA => 0x80 case 0xB => 0x41 case 0xC => 0x00 case 0xD => 0xC1 case 0xE => 0x81 case 0xF => 0x40 case _ => 0)
    case 0xD => (match i & 0xF
      case 0x0 => 0x01 case 0x1 => 0xC0 case 0x2 => 0x80 case 0x3 => 0x41 case 0x4 => 0x00 case 0x5 => 0xC1 case 0x6 => 0x81 case 0x7 => 0x40
      case 0x8 => 0x00 case 0x9 => 0xC1 case 0xA => 0x81 case 0xB => 0x40 case 0xC => 0x01 case 0xD => 0xC0 case 0xE => 0x80 case 0xF => 0x41 case _ => 0)
    case 0xE => (match i & 0xF
      case 0x0 => 0x01 case 0x1 => 0xC0 case 0x2 => 0x80 case 0x3 => 0x41 case 0x4 => 0x00 case 0x5 => 0xC1 case 0x6 => 0x81 case 0x7 => 0x40
      case 0x8 => 0x00 case 0x9 => 0xC1 case 0xA => 0x81 case 0xB => 0x40 case 0xC => 0x01 case 0xD => 0xC0 case 0xE => 0x80 case 0xF => 0x41 case _ => 0)
    case 0xF => (match i & 0xF
      case 0x0 => 0x00 case 0x1 => 0xC1 case 0x2 => 0x81 case 0x3 => 0x40 case 0x4 => 0x01 case 0x5 => 0xC0 case 0x6 => 0x80 case 0x7 => 0x41
      case 0x8 => 0x01 case 0x9 => 0xC0 case 0xA => 0x80 case 0xB => 0x41 case 0xC => 0x00 case 0xD => 0xC1 case 0xE => 0x81 case 0xF => 0x40 case _ => 0)
    case _ => 0
  }

  // High-order bytes of the table words.
  function AuchCrcLo(i: bv8): bv8 {
    match i >> 4
    case 0x0 => (match i & 0xF
      case 0x0 => 0x00 case 0x1 => 0xC0 case 0x2 => 0xC1 case 0x3 => 0x01 case 0x4 => 0xC3 case 0x5 => 0x03 case 0x6 => 0x02 case 0x7 => 0xC2
      case 0x8 => 0xC6 case 0x9 => 0x06 case 0xA => 0x07 case 0xB => 0xC7 case 0xC => 0x05 case 0xD => 0xC5 case 0xE => 0xC4 case 0xF => 0x04 case _ => 0)
    case 0x1 => (match i & 0xF
      case 0x0 => 0xCC case 0x1 => 0x0C case 0x2 => 0x0D case 0x3 => 0xCD case 0x4 => 0x0F case 0x5 => 0xCF case 0x6 => 0xCE case 0x7 => 0x0E
      case 0x8 => 0x0A case 0x9 => 0xCA case 0xA => 0xCB case 0xB => 0x0B case 0xC => 0xC9 case 0xD => 0x09 case 0xE => 0x08 case 0xF => 0xC8 case _ => 0)
    case 0x2 => (match i & 0xF
      case 0x0 => 0xD8 case 0x1 => 0x18 case 0x2 => 0x19 case 0x3 => 0xD9 case 0x4 => 0x1B case 0x5 => 0xDB case 0x6 => 0xDA case 0x7 => 0x1A
      case 0x8 => 0x1E case 0x9 => 0xDE case 0xA => 0xDF case 0xB => 0x1F case 0xC => 0xDD case 0xD => 0x1D case 0xE => 0x1C case 0xF => 0xDC case _ => 0)
    case 0x3 => (match i & 0xF
      case 0x0 => 0x14 case 0x1 => 0xD4 case 0x2 => 0xD5 case 0x3 => 0x15 case 0x4 => 0xD7 case 0x5 => 0x17 case 0x6 => 0x16 case 0x7 => 0xD6
      case 0x8 => 0xD2 case 0x9 => 0x12 case 0xA => 0x13 case 0xB => 0xD3 case 0xC => 0x11 case 0xD => 0xD1 case 0xE => 0xD0 case 0xF => 0x10 case _ => 0)
    case 0x4 => (match i & 0xF
      case 0x0 => 0xF0 case 0x1 => 0x30 case 0x2 => 0x31 case 0x3 => 0xF1 case 0x4 => 0x33 case 0x5 => 0xF3 case 0x6 => 0xF2 case 0x7 => 0x32
      case 0x8 => 0x36 case 0x9 => 0xF6 case 0xA => 0xF7 case 0xB => 0x37 case 0xC => 0xF5 case 0xD => 0x35 case 0xE => 0x34 case 0xF => 0xF4 case _ => 0)
    case 0x5 => (match i & 0xF
      case 0x0 => 0x3C case 0x1 => 0xFC case 0x2 => 0xFD case 0x3 => 0x3D case 0x4 => 0xFF case 0x5 => 0x3F case 0x6 => 0x3E case 0x7 => 0xFE
      case 0x8 => 0xFA case 0x9 => 0x3A case 0xA => 0x3B case 0xB => 0xFB case 0xC => 0x39 case 0xD => 0xF9 case 0xE => 0xF8 case 0xF => 0x38 case _ => 0)
    case 0x6 => (match i & 0xF
      case 0x0 => 0x28 case 0x1 => 0xE8 case 0x2 => 0xE9 case 0x3 => 0x29 case 0x4 => 0xEB case 0x5 => 0x2B case 0x6 => 0x2A case 0x7 => 0xEA
      case 0x8 => 0xEE case 0x9 => 0x2E case 0xA => 0x2F case 0xB => 0xEF case 0xC => 0x2D case 0xD => 0xED case 0xE => 0xEC case 0xF => 0x2C case _ => 0)
    case 0x7 => (match i & 0xF
      case 0x0 => 0xE4 case 0x1 => 0x24 case 0x2 => 0x25 case 0x3 => 0xE5 case 0x4 => 0x27 case 0x5 => 0xE7 case 0x6 => 0xE6 case 0x7 => 0x26
      case 0x8 => 0x22 case 0x9 => 0xE2 case 0xA => 0xE3 case 0xB => 0x23 case 0xC => 0xE1 case 0xD => 0x21 case 0xE => 0x20 case 0xF => 0xE0 case _ => 0)
    case 0x8 => (match i & 0xF
      case 0x0 => 0xA0 case 0x1 => 0x60 case 0x2 => 0x61 case 0x3 => 0xA1 case 0x4 => 0x63 case 0x5 => 0xA3 case 0x6 => 0xA2 case 0x7 => 0x62
      case 0x8 => 0x66 case 0x9 => 0xA6 case 0xA => 0xA7 case 0xB => 0x67 case 0xC => 0xA5 case 0xD => 0x65 case 0xE => 0x64 case 0xF => 0xA4 case _ => 0)
    case 0x9 => (match i & 0xF
      case 0x0 => 0x6C case 0x1 => 0xAC case 0x2 => 0xAD case 0x3 => 0x6D case 0x4 => 0xAF case 0x5 => 0x6F case 0x6 => 0x6E case 0x7 => 0xAE
      case 0x8 => 0xAA case 0x9 => 0x6A case 0xA => 0x6B case 0xB => 0xAB case 0xC => 0x69 case 0xD => 0xA9 case 0xE => 0xA8 case 0xF => 0x68 case _ => 0)
    case 0xA => (match i & 0xF
      case 0x0 => 0x78 case 0x1 => 0xB8 case 0x2 => 0xB9 case 0x3 => 0x79 case 0x4 => 0xBB case 0x5 => 0x7B case 0x6 => 0x7A case 0x7 => 0xBA
      case 0x8 => 0xBE case 0x9 => 0x7E case 0xA => 0x7F case 0xB => 0xBF case 0xC => 0x7D case 0xD => 0xBD case 0xE => 0xBC case 0xF => 0x7C case _ => 0)
    case 0xB => (match i & 0xF
      case 0x0 => 0xB4 case 0x1 => 0x74 case 0x2 => 0x75 case 0x3 => 0xB5 case 0x4 => 0x77 case 0x5 => 0xB7 case 0x6 => 0xB6 case 0x7 => 0x76
      case 0x8 => 0x72 case 0x9 => 0xB2 case 0xA => 0xB3 case 0xB => 0x73 case 0xC => 0xB1 case 0xD => 0x71 case 0xE => 0x70 case 0xF => 0xB0 case _ => 0)
    case 0xC => (match i & 0xF
      case 0x0 => 0x50 case 0x1 => 0x90 case 0x2 => 0x91 case 0x3 => 0x51 case 0x4 => 0x93 case 0x5 => 0x53 case 0x6 => 0x52 case 0x7 => 0x92
      case 0x8 => 0x96 case 0x9 => 0x56 case 0xA => 0x57 case 0xB => 0x97 case 0xC => 0x55 case 0xD => 0x95 case 0xE => 0x94 case 0xF => 0x54 case _ => 0)
    case 0xD => (match i & 0xF
      case 0x0 => 0x9C case 0x1 => 0x5C case 0x2 => 0x5D case 0x3 => 0x9D case 0x4 => 0x5F case 0x5 => 0x9F case 0x6 => 0x9E case 0x7 => 0x5E
      case 0x8 => 0x5A case 0x9 => 0x9A case 0xA => 0x9B case 0xB => 0x5B case 0xC => 0x99 case 0xD => 0x59 case 0xE => 0x58 case 0xF => 0x98 case _ => 0)
    case 0xE => (match i & 0xF
      case 0x0 => 0x88 case 0x1 => 0x48 case 0x2 => 0x49 case 0x3 => 0x89 case 0x4 => 0x4B case 0x5 => 0x8B case 0x6 => 0x8A case 0x7 => 0x4A
      case 0x8 => 0x4E case 0x9 => 0x8E case 0xA => 0x8F case 0xB => 0x4F case 0xC => 0x8D case 0xD => 0x4D case 0xE => 0x4C case 0xF => 0x8C case _ => 0)
    case 0xF => (match i & 0xF
      case 0x0 => 0x44 case 0x1 => 0x84 case 0x2 => 0x85 case 0x3 => 0x45 case 0x4 => 0x87 case 0x5 => 0x47 case 0x6 => 0x46 case 0x7 => 0x86
      case 0x8 => 0x82 case 0x9 => 0x42 case 0xA => 0x43 case 0xB => 0x83 case 0xC => 0x41 case 0xD => 0x81 case 0xE => 0x80 case 0xF => 0x40 case _ => 0)
    case _ => 0
  }

  // ---------------------------------------------------------------- register algebra

  // Bit-vector facts stand in lemmas of their own: beside terms of Half the solver would
  // search over bits where it only has to rewrite.
  lemma XorShift(x: bv16, y: bv16, z: bv16)
    requires z == x ^ y
    ensures z >> 1 == (x >> 1) ^ (y >> 1)
    ensures (z >> 1) ^ POLYNOMIAL == ((x >> 1) ^ POLYNOMIAL) ^ (y >> 1)
  {}

  lemma XorLowBit(x: bv16, y: bv16)
    requires y & 1 == 0
    ensures (x ^ y) & 1 == x & 1
  {}

  // A part y of the register with a clear low bit just moves down, to y1.
  lemma HalfSplit(x: bv16, y: bv16, y1: bv16)
    requires y & 1 == 0 && y1 == y >> 1
    ensures Half(Xor(x, y)) == Xor(Half(x), y1)
  {
    HalfSplitBits(x, y);
  }

  lemma HalfSplitBits(x: bv16, y: bv16)
    requires y & 1 == 0
    ensures Half(x ^ y) == Half(x) ^ (y >> 1)
  {
    XorLowBit(x, y);
    XorShift(x, y, x ^ y);
  }

  // So eight clear low bits come off the end and the rest moves down unchanged.
  lemma Half8Split(x: bv16, y0: bv16, y1: bv16, y2: bv16, y3: bv16, y4: bv16,
                   y5: bv16, y6: bv16, y7: bv16, y8: bv16)
    requires y0 & 1 == 0 && y1 == y0 >> 1 && y1 & 1 == 0 && y2 == y1 >> 1
    requires y2 & 1 == 0 && y3 == y2 >> 1 && y3 & 1 == 0 && y4 == y3 >> 1
    requires y4 & 1 == 0 && y5 == y4 >> 1 && y5 & 1 == 0 && y6 == y5 >> 1
    requires y6 & 1 == 0 && y7 == y6 >> 1 && y7 & 1 == 0 && y8 == y7 >> 1
    ensures Half8(Xor(x, y0)) == Xor(Half8(x), y8)
  {
    HalfSplit(x, y0, y1);
    var x1 := Half(x);
    HalfSplit(x1, y1, y2);
    var x2 := Half(x1);
    HalfSplit(x2, y2, y3);
    var x3 := Half(x2);
    HalfSplit(x3, y3, y4);
    var x4 := Half(x3);
    HalfSplit(x4, y4, y5);
    var x5 := Half(x4);
    HalfSplit(x5, y5, y6);
    var x6 := Half(x5);
    HalfSplit(x6, y6, y7);
    HalfSplit(Half(x6), y7, y8);
  }

  lemma HighByteShifts(h: bv16)
    requires h & 0xFF00 == 0
    ensures (h << 8) & 1 == 0 && h << 7 == (h << 8) >> 1 && (h << 7) & 1 == 0 && h << 6 == (h << 7) >> 1
    ensures (h << 6) & 1 == 0 && h << 5 == (h << 6) >> 1 && (h << 5) & 1 == 0 && h << 4 == (h << 5) >> 1
    ensures (h << 4) & 1 == 0 && h << 3 == (h << 4) >> 1 && (h << 3) & 1 == 0 && h << 2 == (h << 3) >> 1
    ensures (h << 2) & 1 == 0 && h << 1 == (h << 2) >> 1 && (h << 1) & 1 == 0 && h == (h << 1) >> 1
  {}

  lemma ByteInWord(b: bv8)
    ensures (b as bv16) & 0xFF00 == 0
  {}

  // ---------------------------------------------------------------- the table loop

  predicate IsTableWord(i: bv8) {
    Word(AuchCrcLo(i), AuchCrcHi(i)) == Half8(i as bv16)
  }

  lemma TableRows0(i: bv8)
    requires i & 0xE0 == 0x00
    ensures IsTableWord(i)
  {}

  lemma TableRows1(i: bv8)
    requires i & 0xE0 == 0x20
    ensures IsTableWord(i)
  {}

  lemma TableRows2(i: bv8)
    requires i & 0xE0 == 0x40
    ensures IsTableWord(i)
  {}

  lemma TableRows3(i: bv8)
    requires i & 0xE0 == 0x60
    ensures IsTableWord(i)
  {}

  lemma TableRows4(i: bv8)
    requires i & 0xE0 == 0x80
    ensures IsTableWord(i)
  {}

  lemma TableRows5(i: bv8)
    requires i & 0xE0 == 0xA0
    ensures IsTableWord(i)
  {}

  lemma TableRows6(i: bv8)
    requires i & 0xE0 == 0xC0
    ensures IsTableWord(i)
  {}

  lemma TableRows7(i: bv8)
    requires i & 0xE0 == 0xE0
    ensures IsTableWord(i)
  {}

  /** All 256 table words: entry i is i halved eight times. */
  lemma TableIsHalf8(i: bv8)
    ensures IsTableWord(i)
  {
    if i & 0xE0 == 0x00 {
      TableRows0(i);
    } else if i & 0xE0 == 0x20 {
      TableRows1(i);
    } else if i & 0xE0 == 0x40 {
      TableRows2(i);
    } else if i & 0xE0 == 0x60 {
      TableRows3(i);
    } else if i & 0xE0 == 0x80 {
      TableRows4(i);
    } else if i & 0xE0 == 0xA0 {
      TableRows5(i);
    } else if i & 0xE0 == 0xC0 {
      TableRows6(i);
    } else {
      TableRows7(i);
    }
  }

  lemma SplitRegister(hi: bv8, lo: bv8, b: bv8)
    ensures Xor(Word(hi, lo), b as bv16) == Xor((lo ^ b) as bv16, hi as bv16 << 8)
  {}

  lemma XorIntoLowByte(u: bv8, v: bv8, hi: bv8)
    ensures Xor(Word(u, v), hi as bv16) == Word(u, hi ^ v)
  {}

  lemma RegisterStep(hi: bv8, lo: bv8, b: bv8, u: bv8, v: bv8)
    requires Word(u, v) == Half8((lo ^ b) as bv16)
    ensures Word(u, hi ^ v) == ByteStep(Word(hi, lo), b)
  {
    SplitRegister(hi, lo, b);
    var h := hi as bv16;
    ByteInWord(hi);
    HighByteShifts(h);
    Half8Split((lo ^ b) as bv16, h << 8, h << 7, h << 6, h << 5, h << 4, h << 3, h << 2, h << 1, h);
    XorIntoLowByte(u, v, hi);
  }

  // The table step: the register as two bytes, updated through the tables.
  lemma TableStep(hi: bv8, lo: bv8, b: bv8)
    ensures Word(AuchCrcLo(lo ^ b), hi ^ AuchCrcHi(lo ^ b)) == ByteStep(Word(hi, lo), b)
  {
    TableIsHalf8(lo ^ b);
    RegisterStep(hi, lo, b, AuchCrcLo(lo ^ b), AuchCrcHi(lo ^ b));
  }

  lemma {:induction false} FoldSnoc(c: bv16, data: seq<bv8>, b: bv8)
    ensures Fold(c, data + [b]) == ByteStep(Fold(c, data), b)
    decreases |data|
  {
    if data == [] {
      assert data + [b] == [b];
    } else {
      assert (data + [b])[1..] == data[1..] + [b];
      FoldSnoc(ByteStep(c, data[0]), data[1..], b);
    }
  }

  lemma FoldNext(data: seq<bv8>, i: nat, c: bv16, next: bv16)
    requires i < |data| && c == Fold(INITIAL, data[..i]) && next == ByteStep(c, data[i])
    ensures next == Fold(INITIAL, data[..i + 1])
  {
    FoldSnoc(INITIAL, data[..i], data[i]);
    assert data[..i + 1] == data[..i] + [data[i]];
  }

  // One round of the loop: two table reads.
  method Round(hi: bv8, lo: bv8, b: bv8) returns (hi': bv8, lo': bv8)
    ensures Word(hi', lo') == ByteStep(Word(hi, lo), b)
  {
    TableStep(hi, lo, b);
    var idx := lo ^ b;
    lo' := hi ^ AuchCrcHi(idx);
    hi' := AuchCrcLo(idx);
  }

  /** The table loop computes the bitwise CRC of every byte sequence. */
  method CRC16(data: seq<bv8>) returns (crc: bv16)
    ensures crc == Crc(data)
  {
    var crcHi: bv8 := 0xFF;
    var crcLo: bv8 := 0xFF;
    for i := 0 to |data|
      invariant Word(crcHi, crcLo) == Fold(INITIAL, data[..i])
    {
      ghost var before := Word(crcHi, crcLo);
      crcHi, crcLo := Round(crcHi, crcLo, data[i]);
      FoldNext(data, i, before, Word(crcHi, crcLo));
    }
    assert data[..|data|] == data;
    crc := Word(crcHi, crcLo);
  }

  // ---------------------------------------------------------------- bytes and bits

  lemma DropLowBit(w: bv16)
    ensures (w & 0xFFFE) & 1 == 0 && w >> 1 == (w & 0xFFFE) >> 1
  {}

  lemma TakeSetBit(c: bv16, w: bv16)
    requires w & 1 == 1
    ensures Xor(c, w) == Xor(c ^ 1, w & 0xFFFE)
  {
    TakeSetBitRaw(c, w);
  }

  lemma TakeSetBitRaw(c: bv16, w: bv16)
    requires w & 1 == 1
    ensures c ^ w == (c ^ 1) ^ (w & 0xFFFE)
  {}

  lemma TakeClearBit(c: bv16, w: bv16)
    requires w & 1 != 1
    ensures Xor(c, w) == Xor(c, w & 0xFFFE)
  {}

  // XOR-ing a word in at once, or its low bit now and the rest w1 after halving, is the same.
  lemma FoldBit(c: bv16, w: bv16, bit: bool, w1: bv16)
    requires bit == (w & 1 == 1) && w1 == w >> 1
    ensures Half(Xor(c, w)) == Xor(BitStep(c, bit), w1)
  {
    DropLowBit(w);
    if bit {
      TakeSetBit(c, w);
      HalfSplit(c ^ 1, w & 0xFFFE, w1);
    } else {
      TakeClearBit(c, w);
      HalfSplit(c, w & 0xFFFE, w1);
    }
  }

  lemma ByteShifts(w: bv16)
    requires w & 0xFF00 == 0
    ensures w >> 2 == (w >> 1) >> 1 && w >> 3 == (w >> 2) >> 1 && w >> 4 == (w >> 3) >> 1
    ensures w >> 5 == (w >> 4) >> 1 && w >> 6 == (w >> 5) >> 1 && w >> 7 == (w >> 6) >> 1
    ensures 0 == (w >> 7) >> 1
  {}

  lemma ByteIsEightBits(c: bv16, b: bv8)
    ensures ByteStep(c, b) == Run(c, Bits(b))
  {
    var w, s := b as bv16, Bits(b);
    ByteInWord(b);
    ByteShifts(w);
    EightBits(c, s, w, w >> 1, w >> 2, w >> 3, w >> 4, w >> 5, w >> 6, w >> 7);
  }

  lemma EightBits(c: bv16, s: seq<bool>, w0: bv16, w1: bv16, w2: bv16, w3: bv16,
                  w4: bv16, w5: bv16, w6: bv16, w7: bv16)
    requires s == [w0 & 1 == 1, w1 & 1 == 1, w2 & 1 == 1, w3 & 1 == 1,
                   w4 & 1 == 1, w5 & 1 == 1, w6 & 1 == 1, w7 & 1 == 1]
    requires w1 == w0 >> 1 && w2 == w1 >> 1 && w3 == w2 >> 1 && w4 == w3 >> 1
    requires w5 == w4 >> 1 && w6 == w5 >> 1 && w7 == w6 >> 1 && 0 == w7 >> 1
    ensures Half8(Xor(c, w0)) == Run(c, s)
  {
    FoldBit(c, w0, s[0], w1);
    var c1 := BitStep(c, s[0]);
    FoldBit(c1, w1, s[1], w2);
    var c2 := BitStep(c1, s[1]);
    FoldBit(c2, w2, s[2], w3);
    var c3 := BitStep(c2, s[2]);
    FoldBit(c3, w3, s[3], w4);
    var c4 := BitStep(c3, s[3]);
    FoldBit(c4, w4, s[4], w5);
    var c5 := BitStep(c4, s[4]);
    FoldBit(c5, w5, s[5], w6);
    var c6 := BitStep(c5, s[5]);
    FoldBit(c6, w6, s[6], w7);
    var c7 := BitStep(c6, s[6]);
    FoldBit(c7, w7, s[7], 0);
    XorZero(BitStep(c7, s[7]));
    RunEight(c, s);
  }

  lemma XorZero(c: bv16)
    ensures Xor(c, 0) == c
  {}

  lemma RunTwo(c: bv16, s: seq<bool>, s2: seq<bool>)
    requires |s| >= 2 && s2 == s[2..]
    ensures Run(c, s) == Run(BitStep(BitStep(c, s[0]), s[1]), s2)
  {
    assert s[1..][1..] == s2;
  }

  lemma RunEight(c: bv16, s: seq<bool>)
    requires |s| == 8
    ensures Run(c, s) == BitStep(BitStep(BitStep(BitStep(BitStep(BitStep(BitStep(BitStep(
                           c, s[0]), s[1]), s[2]), s[3]), s[4]), s[5]), s[6]), s[7])
  {
    var c2 := BitStep(BitStep(c, s[0]), s[1]);
    var c4 := BitStep(BitStep(c2, s[2]), s[3]);
    var c6 := BitStep(BitStep(c4, s[4]), s[5]);
    RunTwo(c, s, s[2..]);
    RunTwo(c2, s[2..], s[4..]);
    RunTwo(c4, s[4..], s[6..]);
    RunTwo(c6, s[6..], []);
  }

  lemma {:induction false} RunAppend(c: bv16, x: seq<bool>, y: seq<bool>)
    ensures Run(c, x + y) == Run(Run(c, x), y)
    decreases |x|
  {
    if x == [] {
      assert x + y == y;
    } else {
      assert (x + y)[1..] == x[1..] + y;
      RunAppend(BitStep(c, x[0]), x[1..], y);
    }
  }

  /** The bytewise and the bit-serial register agree on every message. */
  lemma {:induction false} FoldIsRun(c: bv16, data: seq<bv8>)
    ensures Fold(c, data) == Run(c, MessageBits(data))
    decreases |data|
  {
    if data != [] {
      ByteIsEightBits(c, data[0]);
      RunAppend(c, Bits(data[0]), MessageBits(data[1..]));
      FoldIsRun(ByteStep(c, data[0]), data[1..]);
    }
  }

  // ---------------------------------------------------------------- bursts

  lemma BitStepInjective(a: bv16, b: bv16, x: bool)
    requires BitStep(a, x) == BitStep(b, x)
    ensures a == b
  {}

  // Equal inputs never bring two different registers together.
  lemma {:induction false} RunInjective(a: bv16, b: bv16, bits: seq<bool>)
    requires Run(a, bits) == Run(b, bits)
    ensures a == b
    decreases |bits|
  {
    if bits != [] {
      RunInjective(BitStep(a, bits[0]), BitStep(b, bits[0]), bits[1..]);
      BitStepInjective(a, b, bits[0]);
    }
  }

  predicate Agree(a: bv16, b: bv16, m: bv16) {
    (a ^ b) & m == 0
  }

  // If the registers agree on mask m after a step, and m holds the top bit, no feedback differed:
  // the difference was only shifted, so before the step they agree on the mask one place up, and
  // equal registers mean equal input bits.
  lemma BackOneBit(a: bv16, b: bv16, x: bool, y: bool, m: bv16)
    requires Agree(BitStep(a, x), BitStep(b, y), m) && m & 0x8000 != 0
    ensures Agree(a, b, m << 1)
    ensures a == b ==> x == y
  {}

  // The upper 16-n bits.
  function UpperMask(n: nat): bv16
    requires n <= 16
  {
    if n == 0 then 0xFFFF else UpperMask(n - 1) << 1
  }

  lemma {:induction false} UpperMaskTopBit(n: nat)
    requires n <= 15
    ensures UpperMask(n) == 0xFFFF << n && UpperMask(n) & 0x8000 != 0
  {
    if n > 0 {
      UpperMaskTopBit(n - 1);
    }
  }

  lemma WindowStep(a: bv16, b: bv16, x: bool, y: bool, n: nat)
    requires 1 <= n <= 16 && Agree(BitStep(a, x), BitStep(b, y), UpperMask(n - 1))
    ensures Agree(a, b, UpperMask(n))
    ensures a == b ==> x == y
  {
    UpperMaskTopBit(n - 1);
    BackOneBit(a, b, x, y, UpperMask(n - 1));
  }

  // n input bits, n at most 16, are read back from the registers they lead to.
  lemma {:induction false} WindowInjective(a: bv16, b: bv16, x: seq<bool>, y: seq<bool>)
    requires |x| == |y| <= 16
    requires Run(a, x) == Run(b, y)
    ensures Agree(a, b, UpperMask(|x|))
    ensures a == b ==> x == y
    decreases |x|
  {
    if x == [] {
      SelfXor(a);
    } else {
      var a1, b1 := BitStep(a, x[0]), BitStep(b, y[0]);
      WindowInjective(a1, b1, x[1..], y[1..]);
      WindowStep(a, b, x[0], y[0], |x|);
      if a == b {
        assert x == [x[0]] + x[1..] && y == [y[0]] + y[1..];
      }
    }
  }

  lemma SelfXor(a: bv16)
    ensures Agree(a, a, 0xFFFF)
  {}

  /** Every burst of at most 16 bits changes the CRC, at any bit position in messages of any
      length: if the messages agree outside a window of 16 bits and have one CRC, they are equal. */
  lemma BurstDetected(m1: seq<bv8>, m2: seq<bv8>, at: nat)
    requires |m1| == |m2|
    requires forall i :: 0 <= i < 8 * |m1| && !(at <= i < at + 16) ==> MessageBits(m1)[i] == MessageBits(m2)[i]
    requires m1 != m2
    ensures Crc(m1) != Crc(m2)
  {
    if Crc(m1) == Crc(m2) {
      FoldIsRun(INITIAL, m1);
      FoldIsRun(INITIAL, m2);
      var n := 8 * |m1|;
      WindowDetected(INITIAL, MessageBits(m1), MessageBits(m2),
                     if at < n then at else n, if at + 16 < n then at + 16 else n);
      MessageBitsInjective(m1, m2);
    }
  }

  lemma WindowDetected(c: bv16, x: seq<bool>, y: seq<bool>, lo: nat, hi: nat)
    requires |x| == |y| && lo <= hi <= |x| && hi - lo <= 16
    requires forall i :: 0 <= i < |x| && !(lo <= i < hi) ==> x[i] == y[i]
    requires Run(c, x) == Run(c, y)
    ensures x == y
  {
    SameOutside(x, y, lo, hi);
    var d := Run(c, x[..lo]);
    RunThreeParts(c, x, lo, hi);
    RunThreeParts(c, y, lo, hi);
    RunInjective(Run(d, x[lo..hi]), Run(d, y[lo..hi]), x[hi..]);
    WindowInjective(d, d, x[lo..hi], y[lo..hi]);
    assert x == x[..lo] + x[lo..hi] + x[hi..] && y == y[..lo] + y[lo..hi] + y[hi..];
  }

  lemma SameOutside(x: seq<bool>, y: seq<bool>, lo: nat, hi: nat)
    requires |x| == |y| && lo <= hi <= |x|
    requires forall i :: 0 <= i < |x| && !(lo <= i < hi) ==> x[i] == y[i]
    ensures x[..lo] == y[..lo] && x[hi..] == y[hi..]
  {}

  lemma RunThreeParts(c: bv16, x: seq<bool>, lo: nat, hi: nat)
    requires lo <= hi <= |x|
    ensures Run(c, x) == Run(Run(Run(c, x[..lo]), x[lo..hi]), x[hi..])
  {
    assert x == x[..lo] + x[lo..] && x[lo..] == x[lo..hi] + x[hi..];
    RunAppend(c, x[..lo], x[lo..]);
    RunAppend(Run(c, x[..lo]), x[lo..hi], x[hi..]);
  }

  lemma BitsInjective(a: bv8, b: bv8)
    requires Bits(a) == Bits(b)
    ensures a == b
  {
    var x, y := Bits(a), Bits(b);
    assert x[0] == y[0] && x[1] == y[1] && x[2] == y[2] && x[3] == y[3];
    assert x[4] == y[4] && x[5] == y[5] && x[6] == y[6] && x[7] == y[7];
  }

  lemma {:induction false} MessageBitsInjective(m1: seq<bv8>, m2: seq<bv8>)
    requires |m1| == |m2| && MessageBits(m1) == MessageBits(m2)
    ensures m1 == m2
    decreases |m1|
  {
    if m1 != [] {
      var x, y := MessageBits(m1), MessageBits(m2);
      assert Bits(m1[0]) == x[..8] && Bits(m2[0]) == y[..8];
      assert MessageBits(m1[1..]) == x[8..] && MessageBits(m2[1..]) == y[8..];
      BitsInjective(m1[0], m2[0]);
      MessageBitsInjective(m1[1..], m2[1..]);
      assert m1 == [m1[0]] + m1[1..] && m2 == [m2[0]] + m2[1..];
    }
  }

  // ---------------------------------------------------------------- odd numbers of errors

  // Parity of the register; POLYNOMIAL has three set bits.
  predicate OddRegister(c: bv16) {
    (c & 0x8000 != 0) != ((c & 0x4000 != 0) != ((c & 0x2000 != 0) != ((c & 0x1000 != 0)
    != ((c & 0x800 != 0) != ((c & 0x400 != 0) != ((c & 0x200 != 0) != ((c & 0x100 != 0)
    != ((c & 0x80 != 0) != ((c & 0x40 != 0) != ((c & 0x20 != 0) != ((c & 0x10 != 0)
    != ((c & 0x8 != 0) != ((c & 0x4 != 0) != ((c & 0x2 != 0) != (c & 0x1 != 0)))))))))))))))
  }

  predicate OddBits(bits: seq<bool>)
    decreases |bits|
  {
    bits != [] && bits[0] != OddBits(bits[1..])
  }

  lemma ParityStep(c: bv16, b: bool)
    ensures OddRegister(BitStep(c, b)) == (OddRegister(c) != b)
  {}

  /** The parity of the register is the parity of the bits it has met: x + 1 divides the
      generator. */
  lemma {:induction false} RunKeepsParity(c: bv16, bits: seq<bool>)
    ensures OddRegister(Run(c, bits)) == (OddRegister(c) != OddBits(bits))
    decreases |bits|
  {
    if bits != [] {
      ParityStep(c, bits[0]);
      RunKeepsParity(BitStep(c, bits[0]), bits[1..]);
    }
  }

  // The number of positions in which two messages differ.
  function Distance(x: seq<bool>, y: seq<bool>): nat
    requires |x| == |y|
    decreases |x|
  {
    if x == [] then 0 else (if x[0] != y[0] then 1 else 0) + Distance(x[1..], y[1..])
  }

  lemma {:induction false} DistanceParity(x: seq<bool>, y: seq<bool>)
    requires |x| == |y|
    ensures (OddBits(x) != OddBits(y)) == (Distance(x, y) % 2 == 1)
    decreases |x|
  {
    if x != [] {
      DistanceParity(x[1..], y[1..]);
    }
  }

  /** Every odd number of bit errors changes the CRC, wherever they are. */
  lemma OddErrorsDetected(m1: seq<bv8>, m2: seq<bv8>)
    requires |m1| == |m2| && Distance(MessageBits(m1), MessageBits(m2)) % 2 == 1
    ensures Crc(m1) != Crc(m2)
  {
    FoldIsRun(INITIAL, m1);
    FoldIsRun(INITIAL, m2);
    RunKeepsParity(INITIAL, MessageBits(m1));
    RunKeepsParity(INITIAL, MessageBits(m2));
    DistanceParity(MessageBits(m1), MessageBits(m2));
  }

  /** Sixteen is the most the CRC can promise: a burst of 17 bits, the generator itself, does not
      change it. */
  lemma BurstOf17Missed()
    ensures Crc([0x03, 0x40, 0x01]) == Crc([0x00, 0x00, 0x00])
  {
    BurstRegisters();
    FoldThree(INITIAL, 0x03, 0x40, 0x01);
    FoldThree(INITIAL, 0x00, 0x00, 0x00);
  }

  lemma BurstRegisters()
    ensures ByteStep(0xFFFF, 0x03) == 0x41FF && ByteStep(0x41FF, 0x40) == 0xB000
    ensures ByteStep(0xB000, 0x01) == 0xC071
    ensures ByteStep(0xFFFF, 0x00) == 0x40BF && ByteStep(0x40BF, 0x00) == 0xB001
    ensures ByteStep(0xB001, 0x00) == 0xC071
  {}

  lemma FoldThree(c: bv16, b1: bv8, b2: bv8, b3: bv8)
    ensures Fold(c, [b1, b2, b3]) == ByteStep(ByteStep(ByteStep(c, b1), b2), b3)
  {
    var s := [b1, b2, b3];
    assert s == [b1] + [b2] + [b3];
    FoldSnoc(c, [b1] + [b2], b3);
    FoldSnoc(c, [b1], b2);
    FoldSnoc(c, [], b1);
    assert [] + [b1] == [b1];
  }

  lemma ExampleSteps()
    ensures ByteStep(0xFFFF, 0x02) == 0x813E && ByteStep(0x813E, 0x07) == 0x1241
  {}

  /** The worked example of the guide, the frame 0x02 0x07, has the CRC 0x1241. */
  lemma GuideExample()
    ensures Crc([0x02, 0x07]) == 0x1241
  {
    ExampleSteps();
    var m: seq<bv8> := [0x02, 0x07];
    assert m[1..] == [0x07] && m[1..][1..] == [];
  }
}
