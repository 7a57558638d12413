/** StartParser (parser.go) on one frame: the gates, the status it sends back, and the first decoding
    loop.  Control frames are handed on to ControlResponse; fragments are handed on to Reassembler and then
    run through the decoding loop as well. */
module Receiver {
  import opened Bytes
  import opened CrcBursts
  import opened CrcFrames
  import opened DeviceIndex
  import opened Frames
  import opened Parameters
  import opened Tlv
  import opened TlvTheorems
  import Crc16
  import Reassembly
  import ReassemblySender
  import Topology

  // What becomes of a frame: dropped before it is looked at, rejected by the CRC gate, stored by the
  // decoding loop, handed on, or ignored for its packet type.
  datatype Route = TooShort | UnknownSensor | Rejected | Plain | Control | Fragment | Ignored

  function RouteFor(p: Parts, known: bool, intact: bool): Route {
    if !known then UnknownSensor
    else if !intact then Rejected
    else if p.fragInd != 0 then Fragment
    else if p.packetType in {0, 2} then Plain
    else if p.packetType in {4, 5} then Control
    else Ignored
  }

  function RouteOf(frame: seq<Byte>, index: Index): Route {
    if |frame| < 9 then TooShort
    else RouteFor(Split(frame), Topology.Hex(Split(frame).id) in index, GateOpen(frame))
  }

  // The sender's own id in a status frame is fixed, whichever sensor it answers.
  const GATEWAY: seq<Byte> := [0x23, 0x8A, 0x08, 0x41, 0xD8, 0x28]

  function StatusFrame(packetType: nat, status: Byte, count: nat): seq<Byte> {
    Sealed(GATEWAY, count, 0, packetType, [status])
  }

  // The status frames that a frame causes: success or failure, for data and alarms only.
  function AnswerFor(p: Parts, route: Route): seq<(string, seq<Byte>)> {
    if route !in {Rejected, Plain} || p.fragInd != 0 || p.packetType !in {0, 2} then []
    else [(Topology.Hex(p.id), StatusFrame(p.packetType + 1, if route == Plain then 0xFF else 0x00, p.count))]
  }

  function Answer(frame: seq<Byte>, index: Index): seq<(string, seq<Byte>)> {
    if |frame| < 9 then [] else AnswerFor(Split(frame), RouteOf(frame, index))
  }

  // The frame that is handed on.
  function FrameOf(frame: seq<Byte>): Reassembly.Frame
    requires |frame| >= 9
  {
    var p := Split(frame);
    Reassembly.Frame(Topology.Hex(p.id), p.count, p.fragInd, p.packetType, p.body,
                     BE16(frame[|frame| - 2], frame[|frame| - 1]))
  }

  // Frames whose body goes through the decoding loop.  A fragment of fewer than two bytes does not come
  // that far: slicing its PDU header panics.
  predicate Decoded(frame: seq<Byte>, route: Route) {
    |frame| >= 9 && (route == Plain || (route == Fragment && |Split(frame).body| >= 2))
  }

  const LAST_SEEN := "lastDataTimestamp"

  // The store after the gates: the sensor has been heard, even if the CRC is wrong.
  function Heard(values: Values, index: Index, frame: seq<Byte>, now: Value): Values {
    if |frame| < 9 || Topology.Hex(Split(frame).id) !in index then values
    else Written(values, index[Topology.Hex(Split(frame).id)], LAST_SEEN, now)
  }

  lemma GatewayId()
    ensures Topology.Unhex("238A0841D828") == GATEWAY
  {
    var s := "238A0841D828";
    assert s[2..] == "8A0841D828" && s[2..][2..] == "0841D828" && s[2..][2..][2..] == "41D828";
    assert "41D828"[2..] == "D828" && "D828"[2..] == "28" && "28"[2..] == "";
    assert Topology.Unhex("D828") == [0xD8] + Topology.Unhex("28");
    assert Topology.Unhex("0841D828") == [0x08] + Topology.Unhex("41D828");
  }

  class Parser {
    const table: ParamTable
    const devices: Devices
    var sent: seq<(string, seq<Byte>)>

    constructor (table: ParamTable, devices: Devices)
      ensures this.table == table && this.devices == devices && sent == []
    {
      this.table, this.devices, sent := table, devices, [];
    }

    method SendDataStatus(sensorKey: string, packetType: nat, dataStatus: Byte, dataLen: nat)
      modifies this`sent
      ensures sent == old(sent) + [(sensorKey, StatusFrame(packetType, dataStatus, dataLen))]
    {
      var packet := Topology.Unhex("238A0841D828");
      GatewayId();
      packet := packet + [HeadByte(dataLen, 0, packetType)];
      packet := packet + [dataStatus];
      var frame := AppendCrc(packet);
      sent := sent + [(sensorKey, frame)];
    }

    /** The loop over a whole frame, from behind its 7-byte header.  mem is the frame's backing array,
        which can be longer than the frame. */
    method ParseParameters(mem: seq<Byte>, len: nat, dataCount: nat, device: string)
        returns (read: map<string, Value>, ending: Ending)
      requires len <= |mem|
      modifies devices`values
      ensures var p := Walk(mem, len, 7, dataCount, StartRules);
              && read == Readings(table, p.items) && ending == p.ending
              && devices.values == Stored(old(devices.values), device, read)
    {
      var idx, parsed := 7, 0;
      read, ending := map[], Counted;
      ghost var items: seq<Item> := [];
      ghost var rounds, whole := Rounds(mem, len, StartRules), Walk(mem, len, 7, dataCount, StartRules);
      Begins(rounds, 7, dataCount, true);
      while parsed < dataCount
        invariant parsed <= dataCount && ending == Counted
        invariant Standing(whole, items, rounds, idx, dataCount - parsed, true)
        invariant read == Readings(table, items) && devices.values == Stored(old(devices.values), device, read)
        decreases |rounds| - idx
      {
        var next := StartParserStep(mem, len, idx, rounds);
        GoesOn(whole, items, rounds, idx, dataCount - parsed, true, next);
        if next.Stop? {
          ending := next.ending;
          break;
        }
        idx := idx + 2 + next.used;
        OneMoreReading(table, items, next.item, old(devices.values), device);
        var reading := StoreReading(table, devices, device, next.item);
        if reading.Some? {
          read := read[reading.value.0 := reading.value.1];
        }
        items := items + [next.item];
        parsed := parsed + 1;
      }
      if parsed == dataCount {
        Ends(whole, items, rounds, idx, true);
      }
    }

    // From the CRC gate to the decoding loop.
    method Dispatch(p: Parts, sensorID: string, intact: bool) returns (route: Route)
      requires sensorID == Topology.Hex(p.id)
      modifies this`sent
      ensures route == RouteFor(p, true, intact)
      ensures sent == old(sent) + AnswerFor(p, route)
    {
      if !intact {
        if p.fragInd == 0 {
          if p.packetType == 0 {
            SendDataStatus(sensorID, 1, 0x00, p.count);
          } else if p.packetType == 2 {
            SendDataStatus(sensorID, 3, 0x00, p.count);
          }
        }
        return Rejected;
      }
      if p.fragInd != 0 {
        return Fragment;
      }
      if p.packetType == 0 {
        SendDataStatus(sensorID, 1, 0xFF, p.count);
      } else if p.packetType == 2 {
        SendDataStatus(sensorID, 3, 0xFF, p.count);
      } else {
        return if p.packetType == 4 || p.packetType == 5 then Control else Ignored;
      }
      route := Plain;
    }

    method StoreAndReport(mem: seq<Byte>, len: nat, dataCount: nat, device: string)
        returns (report: Option<map<string, Value>>, panics: bool)
      requires len <= |mem|
      modifies devices`values
      ensures var p := Walk(mem, len, 7, dataCount, StartRules);
              var read := Readings(table, p.items);
              && (panics <==> p.ending == Panic)
              && report == (if panics || read == map[] then None else Some(read))
              && devices.values == Stored(old(devices.values), device, read)
    {
      var read, ending := ParseParameters(mem, len, dataCount, device);
      panics := ending == Panic;
      report := if !panics && |read| > 0 then Some(read) else None;
    }

    /** One frame.  now stands for the clock, report is what the callback gets, and handed is the frame that
        is handed on: a fragment to ProcessFrame, before its decoding loop, and a control frame to its
        handler. */
    method Receive(mem: seq<Byte>, len: nat, now: Value)
        returns (route: Route, report: Option<map<string, Value>>, handed: Option<Reassembly.Frame>, panics: bool)
      requires len <= |mem|
      modifies this`sent, devices`values
      ensures route == RouteOf(mem[..len], devices.index)
      ensures sent == old(sent) + Answer(mem[..len], devices.index)
      ensures handed == if route in {Control, Fragment} then Some(FrameOf(mem[..len])) else None
      ensures var heard := Heard(old(devices.values), devices.index, mem[..len], now);
              if !Decoded(mem[..len], route) then
                devices.values == heard && report.None? && (panics <==> route == Fragment)
              else
                var p := Split(mem[..len]);
                var parsed := Walk(mem, len, 7, p.count, StartRules);
                var read := Readings(table, parsed.items);
                && (panics <==> parsed.ending == Panic)
                && report == (if panics || read == map[] then None else Some(read))
                && devices.values == Stored(heard, devices.index[Topology.Hex(p.id)], read)
    {
      var frame := mem[..len];
      report, handed, panics := None, None, false;
      if len < 9 {
        route := TooShort;
        return;
      }
      var p := ReadParts(frame);
      var sensorID := Topology.Hex(p.id);
      var device := devices.LookupDeviceName(sensorID);
      if device.None? {
        route := UnknownSensor;
        return;
      }
      devices.SetDeviceValue(device.value, "lastDataTimestamp", now);
      var intact := CrcMatches(frame);
      route := Dispatch(p, sensorID, intact);
      if route == Control || route == Fragment {
        handed := Some(Reassembly.Frame(sensorID, p.count, p.fragInd, p.packetType, p.body,
                                        BE16(frame[len - 2], frame[len - 1])));
      }
      if route == Fragment && |p.body| < 2 {
        panics := true;
        return;
      }
      if route == Plain || route == Fragment {
        report, panics := StoreAndReport(mem, len, p.count, device.value);
      }
    }
  }

  // The sensor id, the fields of the head byte and the body.
  method ReadParts(frame: seq<Byte>) returns (p: Parts)
    requires |frame| >= 9
    ensures p == Split(frame)
  {
    var sidBytes, head := frame[0..6], frame[6];
    var dataCount, fragInd, packetType := head / 16, head / 8 % 2, head % 8;
    p := Parts(sidBytes, dataCount, fragInd, packetType, frame[7..|frame| - 2]);
  }

  // The CRC of everything but the last two bytes against those two, high byte first.
  method CrcMatches(frame: seq<Byte>) returns (intact: bool)
    requires |frame| >= 9
    ensures intact <==> GateOpen(frame)
  {
    var n := |frame| - 2;
    var crc := Crc16.CRC16(Message(frame[..n]));
    var recvCRC := Crc16.Word(AsBits(frame[n]), AsBits(frame[n + 1]));
    intact := crc == recvCRC;
    assert Message(frame)[..n] == Message(frame[..n]);
  }

  // ---------------------------------------------------------------- whole frames

  lemma RouteOfParsed(frame: seq<Byte>, id: seq<Byte>, count: nat, packetType: nat, body: seq<Byte>, index: Index)
    requires ParsesAs(frame, id, count, packetType, body)
    ensures RouteOf(frame, index) == RouteFor(Parts(id, count, 0, packetType, body), Topology.Hex(id) in index, true)
  {}

  lemma BodyStands(frame: seq<Byte>, id: seq<Byte>, count: nat, packetType: nat, body: seq<Byte>)
    requires ParsesAs(frame, id, count, packetType, body)
    ensures StandsAt(frame, 7, body) && |frame| == 7 + |body| + 2
  {}

  // The loop over a frame whose body is an encoded list returns the list exactly if the count is right.
  lemma ListInFrameIff(frame: seq<Byte>, es: seq<Entry>, count: nat)
    requires AllFit(es) && StandsAt(frame, 7, EncodeAll(es)) && |frame| == 7 + |EncodeAll(es)| + 2
    requires count == |es| % 16
    ensures |es| <= 15 ==> Walk(frame, |frame|, 7, count, StartRules) == Parsed(ItemsOf(es), |frame| - 2, Counted)
    ensures |es| > 15 ==> Walk(frame, |frame|, 7, count, StartRules).items != ItemsOf(es)
  {
    if |es| <= 15 {
      RoundTrip(frame, |frame|, 7, es, false);
    } else {
      NotMoreThanCounted(Rounds(frame, |frame|, StartRules), 7, count);
    }
  }

  /** An intact frame of data or alarms, from a known sensor, around a list of encoded entries is decoded,
      and the loop returns exactly that list if and only if the list is no longer than the four bits of
      the count allow. */
  lemma DataFrameRoundTripIff(frame: seq<Byte>, id: seq<Byte>, es: seq<Entry>, packetType: nat, index: Index)
    requires |id| == 6 && Topology.Hex(id) in index && AllFit(es) && packetType in {0, 2}
    requires ParsesAs(frame, id, |es| % 16, packetType, EncodeAll(es))
    ensures RouteOf(frame, index) == Plain && Split(frame).id == id
    ensures |es| <= 15 <==> Walk(frame, |frame|, 7, Split(frame).count, StartRules).items == ItemsOf(es)
  {
    RouteOfParsed(frame, id, |es| % 16, packetType, EncodeAll(es), index);
    BodyStands(frame, id, |es| % 16, packetType, EncodeAll(es));
    ListInFrameIff(frame, es, |es| % 16);
  }

  /** Inputs for the panic of the unguarded loop: an intact frame of a known sensor, plain or a fragment, with
      a count above zero, that carries a head with length flag 3 and nothing else, whatever the array behind it
      holds. */
  lemma BareHeadPanics(mem: seq<Byte>, index: Index)
    requires |mem| >= 11 && RouteOf(mem[..11], index) in {Plain, Fragment}
    requires mem[7] % 4 == 3 && Split(mem[..11]).count > 0
    ensures Decoded(mem[..11], RouteOf(mem[..11], index))
    ensures Walk(mem, 11, 7, Split(mem[..11]).count, StartRules).ending == Panic
  {
    var table := Rounds(mem, 11, StartRules);
    RoundAt(mem, 11, StartRules, 7);
    assert table[7].Stop? && table[7].ending == Panic;
  }

  // ---------------------------------------------------------------- routes of whole frames

  /** A sealed frame of a known sensor goes where its fragment flag and its type say, and what is handed on holds
      its fields. */
  lemma SealedRoute(id: seq<Byte>, count: nat, fragInd: nat, packetType: nat, body: seq<Byte>, index: Index)
    requires |id| == 6 && Topology.Hex(id) in index
    ensures var frame := Sealed(id, count, fragInd, packetType, body);
            && |frame| >= 9
            && RouteOf(frame, index) == (if fragInd % 2 == 1 then Fragment
                                         else if packetType % 8 == 0 || packetType % 8 == 2 then Plain
                                         else if packetType % 8 == 4 || packetType % 8 == 5 then Control
                                         else Ignored)
            && var f := FrameOf(frame);
               && f.sensorID == Topology.Hex(id) && f.dataLen == count % 16 && f.fragInd == fragInd % 2
               && f.packetType == packetType % 8 && f.payload == body
  {
    SealedSplits(id, count, fragInd, packetType, body);
  }

  /** From the sender's fragment to the reassembler's: a PDU with its header, sealed in a frame of a known sensor
      with the fragment flag set, is handed on as the fragment with the same SSEQ, PSEQ and data. */
  lemma FragmentArrives(id: seq<Byte>, count: nat, packetType: nat, sseq: nat, pseq: nat, data: seq<Byte>, index: Index)
    requires |id| == 6 && Topology.Hex(id) in index && sseq < 64 && pseq < 128 && |data| < 0x1_0000
    ensures var frame := Sealed(id, count, 1, packetType, ReassemblySender.PieceFrame("", 0, sseq, pseq, data).payload);
            && |frame| >= 9 && RouteOf(frame, index) == Fragment
            && Reassembly.Decode(FrameOf(frame)) == Reassembly.Fragment(sseq, pseq, data)
  {
    var piece := ReassemblySender.PieceFrame("", 0, sseq, pseq, data);
    SealedRoute(id, count, 1, packetType, piece.payload, index);
    ReassemblySender.PieceDecodes("", 0, sseq, pseq, data);
    SameHeader(FrameOf(Sealed(id, count, 1, packetType, piece.payload)), piece);
  }

  lemma SameHeader(f: Reassembly.Frame, g: Reassembly.Frame)
    requires f.payload == g.payload && f.fragInd != 0 && g.fragInd != 0
    ensures Reassembly.Decode(f) == Reassembly.Decode(g)
  {}

  /** Every frame of data or alarms from a known sensor, not fragmented, is answered by one status frame to that
      sensor: its count, the type one above, and 0xFF if and only if the CRC is right, else 0x00. */
  lemma AnswerTellsIntact(frame: seq<Byte>, p: Parts, index: Index)
    requires |frame| >= 9 && p == Split(frame) && Topology.Hex(p.id) in index
    requires p.fragInd == 0 && p.packetType in {0, 2}
    ensures var answer := Answer(frame, index);
            && |answer| == 1 && answer[0].0 == Topology.Hex(p.id)
            && ParsesAs(answer[0].1, GATEWAY, p.count % 16, (p.packetType + 1) % 8,
                        [if GateOpen(frame) then 0xFF else 0x00])
  {
    assert RouteOf(frame, index) == if GateOpen(frame) then Plain else Rejected;
    if GateOpen(frame) {
      StatusParses(p.packetType + 1, 0xFF, p.count);
    } else {
      StatusParses(p.packetType + 1, 0x00, p.count);
    }
  }

  lemma StatusParses(packetType: nat, status: Byte, count: nat)
    ensures ParsesAs(StatusFrame(packetType, status, count), GATEWAY, count % 16, packetType % 8, [status])
  {
    SealedSplits(GATEWAY, count, 0, packetType, [status]);
  }

  lemma NotAnswered(frame: seq<Byte>, id: seq<Byte>, count: nat, packetType: nat, body: seq<Byte>, index: Index)
    requires ParsesAs(frame, id, count, packetType, body) && packetType in {1, 3}
    ensures RouteOf(frame, index) in {UnknownSensor, Ignored} && Answer(frame, index) == []
  {
    RouteOfParsed(frame, id, count, packetType, body, index);
  }

  lemma StatusIgnored(packetType: nat, status: Byte, count: nat, index: Index)
    requires packetType in {1, 3}
    ensures RouteOf(StatusFrame(packetType, status, count), index) in {UnknownSensor, Ignored}
    ensures Answer(StatusFrame(packetType, status, count), index) == []
  {
    StatusParses(packetType, status, count);
    NotAnswered(StatusFrame(packetType, status, count), GATEWAY, count % 16, packetType, [status], index);
  }

  /** No receiver answers an answer: a status frame, as it is sent for any frame, is ignored even by a
      receiver that knows the gateway's id, so status frames never go back and forth. */
  lemma AnswersAreNotAnswered(frame: seq<Byte>, index: Index, other: Index)
    requires Answer(frame, index) != []
    ensures |Answer(frame, index)| == 1
    ensures RouteOf(Answer(frame, index)[0].1, other) in {UnknownSensor, Ignored}
    ensures Answer(Answer(frame, index)[0].1, other) == []
  {
    var p := Split(frame);
    StatusIgnored(p.packetType + 1, if RouteOf(frame, index) == Plain then 0xFF else 0x00, p.count, other);
  }

  // The damage that the gate is sure to find: an odd number of wrong bits anywhere, eight consecutive bits
  // anywhere, sixteen from the first wrong one if that is seven or more bits before the end of the payload, or
  // the CRC alone.
  ghost predicate FoundDamage(m1: seq<bv8>, m2: seq<bv8>, at: nat)
    requires |m1| == |m2| >= 2
  {
    || Crc16.Distance(Crc16.MessageBits(m1), Crc16.MessageBits(m2)) % 2 == 1
    || Burst(m1, m2, at, 8)
    || (DiffersWithin(m1, m2, at, 16) && at + 7 <= 8 * (|m1| - 2))
    || m1[..|m1| - 2] == m2[..|m2| - 2]
  }

  lemma FoundIsRejected(m1: seq<bv8>, m2: seq<bv8>, at: nat)
    requires Accepts(m1) && |m1| == |m2| && m1 != m2 && FoundDamage(m1, m2, at)
    ensures !Accepts(m2)
  {
    if Crc16.Distance(Crc16.MessageBits(m1), Crc16.MessageBits(m2)) % 2 == 1 {
      OddErrorsRejected(m1, m2);
    } else if Burst(m1, m2, at, 8) {
      ShortBurstRejected(m1, m2, at, 8);
    } else if m1[..|m1| - 2] == m2[..|m2| - 2] {
      BurstRejected(m1, m2, at);
    } else {
      EarlyBurstRejected(m1, m2, at);
    }
  }

  /** A frame damaged in one of these ways is not stored, reassembled or handed on. */
  lemma DamagedIsRejected(f1: seq<Byte>, f2: seq<Byte>, at: nat, index: Index)
    requires GateOpen(f1) && |f1| == |f2| >= 9 && Message(f1) != Message(f2)
    requires FoundDamage(Message(f1), Message(f2), at)
    ensures RouteOf(f2, index) in {UnknownSensor, Rejected}
  {
    FoundIsRejected(Message(f1), Message(f2), at);
  }

  /** No frame changes which device an id finds, if no parameter of the table is called "eid": a sound
      index stays sound on every store, and an exact one exact. */
  lemma FramesKeepIndex(values: Values, index: Index, removing: multiset<string>, frame: seq<Byte>, now: Value,
                        table: ParamTable, items: seq<Item>, device: string)
    requires forall k :: k in table ==> table[k].name != EID
    ensures var values1 := Stored(Heard(values, index, frame, now), device, Readings(table, items));
            && (Sound(values, index, removing) ==> Sound(values1, index, removing))
            && (Exact(values, index) ==> Exact(values1, index))
  {
    var heard, read := Heard(values, index, frame, now), Readings(table, items);
    forall d
      ensures IdOf(Stored(heard, device, read), d) == IdOf(values, d)
    {
      ReadingsKeepIds(table, items, heard, device, d);
    }
    if Exact(values, index) {
      SameIdsExact(values, Stored(heard, device, read), index);
    }
  }

  lemma SameIdsExact(values: Values, values1: Values, index: Index)
    requires Exact(values, index) && forall d :: IdOf(values1, d) == IdOf(values, d)
    ensures Exact(values1, index)
  {
    forall d | d in values1 && IdOf(values1, d).Some?
      ensures Finds(index, IdOf(values1, d).value, d)
    {
      assert IdOf(values, d).Some?;
    }
  }
}
