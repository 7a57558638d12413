/** The second decoding loop (ShardingParser in sharding.go), over the payload of a frame that the
    reassembler has emitted. */
module ShardingParser {
  import opened Bytes
  import opened DeviceIndex
  import opened Parameters
  import opened Tlv

  /** One frame of the loop.  For a sensor without a device it goes on without counting. */
  method ParseSdu(table: ParamTable, devices: Devices, sensorID: string, payload: seq<Byte>, dataCount: nat)
      returns (ending: Ending)
    modifies devices`values
    ensures var known := sensorID in devices.index;
            var p := Walk(payload, |payload|, 0, dataCount, PayloadRules(known));
            && ending == p.ending
            && devices.values ==
               if known then Stored(old(devices.values), devices.index[sensorID], Readings(table, p.items))
               else old(devices.values)
  {
    var idx, parsed := 0, 0;
    ghost var known, items: seq<Item> := sensorID in devices.index, [];
    ghost var rounds := Rounds(payload, |payload|, PayloadRules(known));
    ghost var whole := Walk(payload, |payload|, 0, dataCount, PayloadRules(known));
    ending := Counted;
    Begins(rounds, 0, dataCount, known);
    while parsed < dataCount
      invariant parsed <= dataCount && ending == Counted && (!known ==> items == [])
      invariant Standing(whole, items, rounds, idx, dataCount - parsed, known)
      invariant devices.values ==
                if known then Stored(old(devices.values), devices.index[sensorID], Readings(table, items))
                else old(devices.values)
      decreases |rounds| - idx
    {
      var next := PayloadStep(payload, idx, known, rounds);
      GoesOn(whole, items, rounds, idx, dataCount - parsed, known, next);
      if next.Stop? {
        ending := next.ending;
        break;
      }
      idx := idx + 2 + next.used;
      var name := devices.LookupDeviceName(sensorID);
      if name.Some? {
        OneMoreReading(table, items, next.item, old(devices.values), name.value);
        var _ := StoreReading(table, devices, name.value, next.item);
        items := items + [next.item];
        parsed := parsed + 1;
      }
    }
    if parsed == dataCount {
      Ends(whole, items, rounds, idx, known);
    }
  }
}
