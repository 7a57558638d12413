/** Responses to control frames (param_table_parser_response.go, parser_response.go): the third
    decoding loop and what it stores. */
module ControlResponse {
  import opened Bytes
  import opened DeviceIndex
  import opened Parameters
  import opened Tlv
  import opened TlvTheorems
  import Topology

  // ---------------------------------------------------------------- the handlers

  datatype Handler = CommonPara | Timestamp | Reset | ResetCommands

  const ResponseMap: map<(nat, bool), Handler> := map[
    (2, false) := CommonPara, (2, true) := CommonPara, (4, true) := Timestamp, (3, true) := Timestamp,
    (6, false) := Reset, (6, true) := Reset, (4, false) := Timestamp, (7, false) := ResetCommands]

  function LookupResponseHandle(head: Byte): (h: Option<Handler>)
    ensures h == Some(CommonPara) <==> head in {4, 5}
    ensures h == Some(Timestamp) <==> head in {7, 8, 9}
    ensures h == Some(Reset) <==> head in {12, 13}
    ensures h == Some(ResetCommands) <==> head == 14
  {
    var key := (head / 2, head % 2 == 1);
    if key in ResponseMap then Some(ResponseMap[key]) else None
  }

  /** The shared result of a response: the values read, and whether they wait to be reported. */
  class Control {
    const table: ParamTable
    const devices: Devices
    var resources1: map<string, Value>
    var resourcesFlag: bool

    constructor (table: ParamTable, devices: Devices)
      ensures this.table == table && this.devices == devices && resources1 == map[] && !resourcesFlag
    {
      this.table, this.devices, resources1, resourcesFlag := table, devices, map[], false;
    }

    /** The loop of common_para_response.  On a panic the flag stays down. */
    method CommonParaResponse(data: seq<Byte>, sensorID: string, dataCount: nat) returns (ending: Ending)
      modifies this`resources1, this`resourcesFlag, devices`values
      ensures var known := sensorID in devices.index;
              var p := Walk(data, |data|, 0, dataCount, PayloadRules(known));
              && ending == p.ending && resources1 == Readings(table, p.items)
              && (resourcesFlag <==> ending != Panic)
              && devices.values ==
                 if known then Stored(old(devices.values), devices.index[sensorID], resources1)
                 else old(devices.values)
    {
      var idx, parsed := 0, 0;
      ghost var known, items: seq<Item> := sensorID in devices.index, [];
      ghost var rounds := Rounds(data, |data|, PayloadRules(known));
      ghost var whole := Walk(data, |data|, 0, dataCount, PayloadRules(known));
      resources1, resourcesFlag, ending := map[], false, Counted;
      Begins(rounds, 0, dataCount, known);
      while parsed < dataCount
        invariant parsed <= dataCount && ending == Counted && !resourcesFlag
        invariant Standing(whole, items, rounds, idx, dataCount - parsed, known)
        invariant resources1 == Readings(table, items) && (!known ==> items == [])
        invariant devices.values ==
                  if known then Stored(old(devices.values), devices.index[sensorID], resources1)
                  else old(devices.values)
        decreases |rounds| - idx
      {
        var next := PayloadStep(data, idx, known, rounds);
        GoesOn(whole, items, rounds, idx, dataCount - parsed, known, next);
        if next.Stop? {
          ending := next.ending;
          break;
        }
        idx := idx + 2 + next.used;
        var name := devices.LookupDeviceName(sensorID);
        if name.Some? {
          var reading := StoreReading(table, devices, name.value, next.item);
          if reading.Some? {
            resources1 := resources1[reading.value.0 := reading.value.1];
          }
          OneMoreReading(table, items, next.item, old(devices.values), name.value);
          items := items + [next.item];
          parsed := parsed + 1;
        }
      }
      if parsed == dataCount {
        Ends(whole, items, rounds, idx, known);
      }
      resourcesFlag := ending != Panic;
    }

    // The timestamp and reset handlers store the first byte behind the head in decimal, and panic if
    // the payload is shorter than `needed`.  For an unknown sensor they store it under the empty
    // device name.
    predicate FirstByteStored(before: Values, after: Values, payload: seq<Byte>, sensorID: string, name: string,
                              needed: nat, panics: bool)
      reads devices`index
    {
      var device := if sensorID in devices.index then devices.index[sensorID] else "";
      && (panics <==> |payload| < needed)
      && after == if panics || |payload| < 2 then before
                  else Written(before, device, name, Text(Topology.Decimal(payload[1])))
    }

    method StoreFirstByte(data: seq<Byte>, sensorID: string, name: string, needed: nat) returns (panics: bool)
      requires needed > 0
      modifies devices`values
      ensures panics <==> |data| < needed
      ensures devices.values ==
              if panics then old(devices.values)
              else Written(old(devices.values), if sensorID in devices.index then devices.index[sensorID] else "",
                           name, Text(Topology.Decimal(data[0])))
    {
      panics := |data| < needed;
      if !panics {
        var device := devices.LookupDeviceName(sensorID);
        devices.SetDeviceValue(if device.Some? then device.value else "", name, Text(Topology.Decimal(data[0])));
      }
    }

    /** handleFrameCtl and the callback behind it: the values of a parameter response are reported,
        once, and the flag is down again afterwards. */
    method HandleFrameCtl(payload: seq<Byte>, sensorID: string, dataCount: nat)
        returns (report: Option<map<string, Value>>, panics: bool)
      requires !resourcesFlag
      modifies this`resources1, this`resourcesFlag, devices`values
      ensures !resourcesFlag
      ensures payload == [] || LookupResponseHandle(payload[0]).None? ==>
                report.None? && !panics && devices.values == old(devices.values)
      ensures payload != [] && LookupResponseHandle(payload[0]) == Some(CommonPara) ==>
                var p := Walk(payload[1..], |payload| - 1, 0, dataCount, PayloadRules(sensorID in devices.index));
                && (panics <==> p.ending == Panic)
                && (!panics ==> report == Some(Readings(table, p.items)))
                && devices.values ==
                   if sensorID in devices.index
                   then Stored(old(devices.values), devices.index[sensorID], Readings(table, p.items))
                   else old(devices.values)
      ensures payload != [] && LookupResponseHandle(payload[0]) == Some(Timestamp) ==>
                FirstByteStored(old(devices.values), devices.values, payload, sensorID, "timestamp", 5, panics)
      ensures payload != [] && LookupResponseHandle(payload[0]) == Some(Reset) ==>
                FirstByteStored(old(devices.values), devices.values, payload, sensorID, "reset_ctl", 2, panics)
      ensures payload != [] && LookupResponseHandle(payload[0]) == Some(ResetCommands) ==>
                devices.values == old(devices.values) && !panics
      ensures payload != [] && LookupResponseHandle(payload[0]) != Some(CommonPara) ==> report.None?
    {
      report, panics := None, false;
      if |payload| < 1 {
        return;
      }
      var raw := payload[1..];
      match LookupResponseHandle(payload[0]) {
        case Some(CommonPara) =>
          var ending := CommonParaResponse(raw, sensorID, dataCount);
          panics := ending == Panic;
        case Some(Timestamp) =>
          panics := StoreFirstByte(raw, sensorID, "timestamp", 4);
        case Some(Reset) =>
          panics := StoreFirstByte(raw, sensorID, "reset_ctl", 1);
        case Some(ResetCommands) =>
        case None =>
      }
      if resourcesFlag {
        report := Some(resources1);
        resourcesFlag := false;
      }
    }
  }

  /** The body that reaches the response loop ends before the CRC, but the loop keeps two bytes back for
      one.  So a response that carries a whole encoded list reports all parameters but the last, and a
      response with one parameter reports none. */
  lemma LastParameterNotReported(table: ParamTable, es: seq<Entry>, last: Entry, count: nat)
    requires AllFit(es) && Fits(last) && count > |es|
    requires (forall e :: e in es ==> Symmetric(e)) && Symmetric(last)
    ensures var data := EncodeAll(es + [last]);
            var p := Walk(data, |data|, 0, count, PayloadRules(true));
            p.ending != Panic && Readings(table, p.items) == Readings(table, ItemsOf(es))
  {
    var data := EncodeAll(es + [last]);
    assert StandsAt(data, 0, data);
    WithoutTrailerTheLastIsLost(data, 0, es, last, count, Big);
  }

  /** For lists with other lengths the loop may stop earlier; no encoded list is ever read whole. */
  lemma NeverReadWhole(es: seq<Entry>, count: nat)
    requires AllFit(es) && es != [] && count >= |es|
    ensures var data := EncodeAll(es);
            Walk(data, |data|, 0, count, PayloadRules(true)).items != ItemsOf(es)
  {
    var data := EncodeAll(es);
    assert StandsAt(data, 0, data);
    NeverWholeWithoutTrailer(data, 0, es, count, Big);
  }

  /** Inputs for the panic of the guarded loops: a parameter response whose list is four bytes long and begins
      with a head of length flag 3, for every sensor, count above zero and other bits. */
  lemma ShortLengthPanics(payload: seq<Byte>, count: nat, known: bool)
    requires |payload| == 5 && LookupResponseHandle(payload[0]) == Some(CommonPara) && payload[1] % 4 == 3
    ensures count > 0 <==> Walk(payload[1..], 4, 0, count, PayloadRules(known)).ending == Panic
  {
    var data := payload[1..];
    RoundAt(data, 4, PayloadRules(known), 0);
    assert LE16(data[0], data[1]) % 4 == 3;
    assert Rounds(data, 4, PayloadRules(known))[0] == Stop(2, Panic);
  }
}
