/** The parameter table (LookupParamInfo in param_table_parser_data.go) and what the decoding loops
    make of the items they read: values stored under the table's names. */
module Parameters {
  import opened Bytes
  import opened DeviceIndex
  import opened Tlv

  datatype Key = Key(feature: nat, code: nat)

  // parse returns nothing where the source's parser returns an error.
  datatype Info = Info(name: string, parse: seq<Byte> -> Option<Value>)

  type ParamTable = map<Key, Info>

  function KeyOf(paramType: nat): Key {
    Key(paramType / 0x800 % 8, paramType % 0x800)
  }

  // The name and the value that an item stands for.
  function Reading(table: ParamTable, item: Item): Option<(string, Value)> {
    if KeyOf(item.paramType) !in table then None
    else
      var info := table[KeyOf(item.paramType)];
      match info.parse(item.value)
      case None => None
      case Some(value) => Some((info.name, value))
  }

  /** An item is looked up under the 3-bit feature and the 11-bit code that its type is made of, and read by the
      row found there. */
  lemma ItemReadsRow(table: ParamTable, feature: nat, code: nat, value: seq<Byte>)
    requires feature < 8 && code < 0x800
    ensures var reading := Reading(table, Item(0x800 * feature + code, value));
            if Key(feature, code) !in table then reading.None?
            else
              var row := table[Key(feature, code)];
              && (reading.None? <==> row.parse(value).None?)
              && (reading.Some? ==> reading.value == (row.name, row.parse(value).value))
  {
    KeyJoins(feature, code);
  }

  lemma KeyJoins(feature: nat, code: nat)
    requires feature < 8 && code < 0x800
    ensures KeyOf(0x800 * feature + code) == Key(feature, code)
  {}

  // The readings of a list of items, written one after the other.
  function Readings(table: ParamTable, items: seq<Item>): map<string, Value> {
    if items == [] then map[]
    else
      var m := Readings(table, items[..|items| - 1]);
      match Reading(table, items[|items| - 1])
      case None => m
      case Some((name, value)) => m[name := value]
  }

  predicate ReadsAs(table: ParamTable, item: Item, name: string) {
    Reading(table, item).Some? && Reading(table, item).value.0 == name
  }

  /** A name is read exactly if some item reads as it, and its value is that of the last one. */
  lemma {:induction false} LastReadingWins(table: ParamTable, items: seq<Item>, name: string)
    ensures name in Readings(table, items) <==> exists i :: 0 <= i < |items| && ReadsAs(table, items[i], name)
    ensures forall i :: 0 <= i < |items| && ReadsAs(table, items[i], name)
                        && (forall j :: i < j < |items| ==> !ReadsAs(table, items[j], name))
              ==> Readings(table, items)[name] == Reading(table, items[i]).value.1
    decreases |items|
  {
    if items != [] {
      var n := |items| - 1;
      LastReadingWins(table, items[..n], name);
      assert forall i :: 0 <= i < n ==> items[..n][i] == items[i];
      assert ReadsAs(table, items[n], name)
             || (name in Readings(table, items) <==> name in Readings(table, items[..n]));
    }
  }

  // What the readings do to the store: nothing, if there is none, and else they replace or extend the
  // values of the one device.
  function Stored(values: Values, device: string, read: map<string, Value>): Values {
    if read == map[] then values
    else values[device := (if device in values then values[device] else map[]) + read]
  }

  lemma StoredOneMore(values: Values, device: string, read: map<string, Value>, name: string, value: Value)
    ensures Stored(values, device, read[name := value]) == Written(Stored(values, device, read), device, name, value)
  {
    var was := if device in values then values[device] else map[];
    assert was + read[name := value] == (was + read)[name := value];
    assert name in read[name := value];
    if read == map[] {
      assert was + read == was;
    }
  }

  lemma OneMoreReading(table: ParamTable, items: seq<Item>, item: Item, before: Values, device: string)
    ensures match Reading(table, item)
            case None =>
              Readings(table, items + [item]) == Readings(table, items)
            case Some((name, value)) =>
              && Readings(table, items + [item]) == Readings(table, items)[name := value]
              && Stored(before, device, Readings(table, items + [item]))
                 == Written(Stored(before, device, Readings(table, items)), device, name, value)
  {
    assert (items + [item])[..|items|] == items;
    if Reading(table, item).Some? {
      var (name, value) := Reading(table, item).value;
      StoredOneMore(before, device, Readings(table, items), name, value);
    }
  }

  /** The part of a decoding round behind the value: look the type up, parse, store. */
  method StoreReading(table: ParamTable, devices: Devices, device: string, item: Item)
      returns (reading: Option<(string, Value)>)
    modifies devices`values
    ensures reading == Reading(table, item)
    ensures devices.values ==
            match Reading(table, item)
            case None => old(devices.values)
            case Some((name, value)) => Written(old(devices.values), device, name, value)
  {
    reading := None;
    var key := Key(item.paramType / 0x800 % 8, item.paramType % 0x800);
    if key in table {
      var info := table[key];
      var value := info.parse(item.value);
      if value.Some? {
        devices.SetDeviceValue(device, info.name, value.value);
        reading := Some((info.name, value.value));
      }
    }
  }

  /** Stored readings never change an id, if no parameter of the table is called "eid", and so
      keeps the index exact. */
  lemma ReadingsKeepIds(table: ParamTable, items: seq<Item>, values: Values, device: string, d: string)
    requires forall k :: k in table ==> table[k].name != EID
    ensures IdOf(Stored(values, device, Readings(table, items)), d) == IdOf(values, d)
  {
    LastReadingWins(table, items, EID);
  }
}
