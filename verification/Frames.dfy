/** The frame around every message: six bytes of sensor id, a head byte, a body and a CRC (parser.go). */
module Frames {
  import opened Bytes
  import Crc16
  import opened CrcFrames

  // ---------------------------------------------------------------- the checksum on bytes

  // Bytes are numbers everywhere but in the CRC, which works on bit-vectors.
  function AsBits(b: Byte): bv8 {
    b as bv8
  }

  function AsByte(w: bv8): Byte {
    w as int
  }

  lemma BitsOfByte(w: bv8)
    ensures AsBits(AsByte(w)) == w
  {}

  function Message(b: seq<Byte>): (m: seq<bv8>)
    ensures |m| == |b|
  {
    seq(|b|, i requires 0 <= i < |b| => AsBits(b[i]))
  }

  lemma MessageJoins(a: seq<Byte>, b: seq<Byte>)
    ensures Message(a + b) == Message(a) + Message(b)
  {}

  function Check(buf: seq<Byte>): (b: seq<Byte>)
    ensures |b| == 2
  {
    [AsByte(High(Crc16.Crc(Message(buf)))), AsByte(Low(Crc16.Crc(Message(buf))))]
  }

  predicate GateOpen(frame: seq<Byte>) {
    Accepts(Message(frame))
  }

  lemma SealedPasses(buf: seq<Byte>)
    ensures GateOpen(buf + Check(buf))
  {
    var w := Crc16.Crc(Message(buf));
    MessageJoins(buf, Check(buf));
    BitsOfByte(High(w));
    BitsOfByte(Low(w));
    assert Message(Check(buf)) == [High(w), Low(w)];
    SealAccepted(Message(buf));
  }

  // ---------------------------------------------------------------- the header

  // A frame as StartParser splits it.
  datatype Parts = Parts(id: seq<Byte>, count: nat, fragInd: nat, packetType: nat, body: seq<Byte>)

  function Split(frame: seq<Byte>): Parts
    requires |frame| >= 9
  {
    Parts(frame[..6], frame[6] / 16, frame[6] / 8 % 2, frame[6] % 8, frame[7..|frame| - 2])
  }

  function HeadByte(count: nat, fragInd: nat, packetType: nat): Byte {
    count % 16 * 16 + fragInd % 2 * 8 + packetType % 8
  }

  lemma HeadSplits(count: nat, fragInd: nat, packetType: nat)
    ensures var h := HeadByte(count, fragInd, packetType);
            h / 16 == count % 16 && h / 8 % 2 == fragInd % 2 && h % 8 == packetType % 8
  {}

  // The receiver lets the frame through and splits it into these parts.
  predicate SplitsAs(frame: seq<Byte>, p: Parts) {
    |frame| >= 9 && GateOpen(frame) && Split(frame) == p
  }

  // The same for frames that are no fragments.
  predicate ParsesAs(frame: seq<Byte>, id: seq<Byte>, count: nat, packetType: nat, body: seq<Byte>) {
    SplitsAs(frame, Parts(id, count, 0, packetType, body))
  }

  function Sealed(id: seq<Byte>, count: nat, fragInd: nat, packetType: nat, body: seq<Byte>): seq<Byte> {
    var buf := id + [HeadByte(count, fragInd, packetType)] + body;
    buf + Check(buf)
  }

  /** A frame built from its parts and sealed passes the gate and splits into them again, as far as the bits of
      its head byte go. */
  lemma SealedSplits(id: seq<Byte>, count: nat, fragInd: nat, packetType: nat, body: seq<Byte>)
    requires |id| == 6
    ensures SplitsAs(Sealed(id, count, fragInd, packetType, body),
                     Parts(id, count % 16, fragInd % 2, packetType % 8, body))
  {
    var buf := id + [HeadByte(count, fragInd, packetType)] + body;
    SealedPasses(buf);
    HeadSplits(count, fragInd, packetType);
    var frame := buf + Check(buf);
    assert frame[..6] == id && frame[6] == buf[6] && frame[7..|frame| - 2] == body;
  }

  /** The CRC that every builder appends, high byte first. */
  method AppendCrc(buf: seq<Byte>) returns (frame: seq<Byte>)
    ensures frame == buf + Check(buf)
  {
    var crc := Crc16.CRC16(Message(buf));
    frame := buf + [AsByte(High(crc)), AsByte(Low(crc))];
  }
}
