/** The builders of control frames (time_ctl.go, sensorid_ctl.go, usual_param_ctl.go,
    topo_data_ctl.go), specified by what a receiver reads from their frames. */
module Builders {
  import opened Bytes
  import opened Frames
  import opened Tlv
  import opened TlvTheorems

  datatype BuildError = BadFlag | BadCount | UnknownName | MissingValue | BadLength

  datatype Result = Ok(frame: seq<Byte>) | Err(error: BuildError)

  const CONTROL := 4

  // ---------------------------------------------------------------- frames with fixed fields

  // What all builders do: id, head, control byte, content, CRC.
  method ControlFrame(sensorID: seq<Byte>, dataLen: nat, ctrlByte: Byte, content: seq<Byte>)
      returns (frame: seq<Byte>)
    requires |sensorID| == 6
    ensures ParsesAs(frame, sensorID, dataLen % 16, 4, [ctrlByte] + content)
  {
    var buf := sensorID;
    buf := buf + [HeadByte(dataLen, 0, CONTROL)];
    buf := buf + [ctrlByte];
    buf := buf + content;
    assert buf == sensorID + [HeadByte(dataLen, 0, CONTROL)] + ([ctrlByte] + content);
    frame := AppendCrc(buf);
    SealedSplits(sensorID, dataLen, 0, CONTROL, [ctrlByte] + content);
  }

  method BuildTimeParamFrame(sensorID: seq<Byte>, requestSetFlag: Byte, timestamp: nat) returns (r: Result)
    requires |sensorID| == 6 && timestamp < 0x1_0000_0000
    ensures r.Err? <==> requestSetFlag > 1
    ensures r.Ok? ==> ParsesAs(r.frame, sensorID, 0, CONTROL, [2 * 4 + requestSetFlag] + LE32Bytes(timestamp))
  {
    if requestSetFlag != 0 && requestSetFlag != 1 {
      return Err(BadFlag);
    }
    var frame := ControlFrame(sensorID, 0, 2 * 4 + requestSetFlag % 2, LE32Bytes(timestamp));
    r := Ok(frame);
  }

  method BuildSensorIDFrame(sensorID: seq<Byte>, requestSetFlag: Byte, newID: seq<Byte>) returns (r: Result)
    requires |sensorID| == 6 && |newID| == 6
    ensures r.Err? <==> requestSetFlag > 1
    ensures r.Ok? ==> ParsesAs(r.frame, sensorID, 0, CONTROL, [2 * 5 + requestSetFlag] + newID)
  {
    if requestSetFlag != 0 && requestSetFlag != 1 {
      return Err(BadFlag);
    }
    var ctrlByte: Byte := 2 * 5;
    if requestSetFlag == 1 {
      ctrlByte := ctrlByte + 1;
    }
    var frame := ControlFrame(sensorID, 0, ctrlByte, newID);
    r := Ok(frame);
  }

  method BuildParameterQueryFrame(sensorID: seq<Byte>) returns (frame: seq<Byte>)
    requires |sensorID| == 6
    ensures ParsesAs(frame, sensorID, 15, CONTROL, [2 * 1])
  {
    frame := ControlFrame(sensorID, 15, 2 * 1, []);
    assert [2 * 1] + [] == [2 * 1];
  }

  // The parameter list is fixed, a head of type 8 without a value, whatever type is asked for.
  method BuildGeneralParamQueryFrame(sensorID: seq<Byte>, paramType14: nat) returns (frame: seq<Byte>)
    requires |sensorID| == 6
    ensures ParsesAs(frame, sensorID, 1, CONTROL, [2 * 2] + [0x20, 0x00])
  {
    frame := ControlFrame(sensorID, 1, 2 * 2, [0x20, 0x00]);
  }

  // ---------------------------------------------------------------- the general parameters

  datatype ParamEntry = ParamEntry(head16: nat, length: nat)

  const ENTRIES: map<string, ParamEntry> :=
    map["Temperature" := ParamEntry(20, 4), "Humidity" := ParamEntry(37, 1)]

  const MAX_PARAMS := 16

  type ParamValues = map<string, seq<Byte>>

  // What is wrong with one name, checked in this order.
  function NameError(name: string, values: ParamValues): Option<BuildError> {
    if name !in ENTRIES then Some(UnknownName)
    else if name !in values then Some(MissingValue)
    else if |values[name]| != ENTRIES[name].length then Some(BadLength)
    else None
  }

  predicate NamesFit(names: seq<string>, values: ParamValues) {
    forall name :: name in names ==> NameError(name, values).None?
  }

  // The error is that of the first name with one.
  predicate FirstError(names: seq<string>, values: ParamValues, error: BuildError) {
    exists i :: 0 <= i < |names| && FirstErrorAt(names, values, error, i)
  }

  predicate FirstErrorAt(names: seq<string>, values: ParamValues, error: BuildError, i: nat)
    requires i < |names|
  {
    NameError(names[i], values) == Some(error) && NamesFit(names[..i], values)
  }

  /** The error of a list is one and only one, and there is one exactly if some name does not fit. */
  lemma ErrorDetermined(names: seq<string>, values: ParamValues)
    ensures (exists error :: FirstError(names, values, error)) <==> !NamesFit(names, values)
    ensures forall e1, e2 :: FirstError(names, values, e1) && FirstError(names, values, e2) ==> e1 == e2
  {
    if !NamesFit(names, values) {
      var error := FirstErrorOf(names, values);
    }
    forall e1, e2 | FirstError(names, values, e1) && FirstError(names, values, e2)
      ensures e1 == e2
    {
      var i :| 0 <= i < |names| && FirstErrorAt(names, values, e1, i);
      var j :| 0 <= j < |names| && FirstErrorAt(names, values, e2, j);
      assert i < j ==> names[i] in names[..j];
      assert j < i ==> names[j] in names[..i];
    }
  }

  lemma {:induction false} FirstErrorOf(names: seq<string>, values: ParamValues) returns (error: BuildError)
    requires !NamesFit(names, values)
    ensures FirstError(names, values, error)
    decreases |names|
  {
    var n := |names| - 1;
    if NamesFit(names[..n], values) {
      assert names == names[..n] + [names[n]];
      error := NameError(names[n], values).value;
      assert FirstErrorAt(names, values, error, n);
    } else {
      error := FirstErrorOf(names[..n], values);
      var i :| 0 <= i < n && FirstErrorAt(names[..n], values, error, i);
      assert names[..n][..i] == names[..i];
      assert FirstErrorAt(names, values, error, i);
    }
  }

  // Head and data: no length field, whatever the length flag in the head says.
  function ParamPart(name: string, values: ParamValues): seq<Byte>
    requires NameError(name, values).None?
  {
    LE16Bytes(ENTRIES[name].head16) + values[name]
  }

  function ParamParts(names: seq<string>, values: ParamValues): (parts: seq<seq<Byte>>)
    requires NamesFit(names, values)
    ensures |parts| == |names|
  {
    seq(|names|, i requires 0 <= i < |names| => ParamPart(names[i], values))
  }

  function ParamItem(name: string, values: ParamValues): Item
    requires NameError(name, values).None?
  {
    Item(ENTRIES[name].head16 / 4, values[name])
  }

  // What the caller means: for each name its type and its value.
  function ParamItems(names: seq<string>, values: ParamValues): (items: seq<Item>)
    requires NamesFit(names, values)
    ensures |items| == |names|
  {
    seq(|names|, i requires 0 <= i < |names| => ParamItem(names[i], values))
  }

  lemma ParamPartsSnoc(names: seq<string>, values: ParamValues, name: string)
    requires NamesFit(names, values) && NameError(name, values).None?
    ensures NamesFit(names + [name], values)
    ensures Concat(ParamParts(names + [name], values)) == Concat(ParamParts(names, values)) + ParamPart(name, values)
  {
    assert ParamParts(names + [name], values) == ParamParts(names, values) + [ParamPart(name, values)];
    ConcatJoins(ParamParts(names, values), ParamPart(name, values));
  }

  method BuildParameterList(names: seq<string>, values: ParamValues)
      returns (error: Option<BuildError>, list: seq<Byte>)
    ensures error.None? <==> NamesFit(names, values)
    ensures error.Some? ==> FirstError(names, values, error.value)
    ensures error.None? ==> list == Concat(ParamParts(names, values))
  {
    error, list := None, [];
    for n := 0 to |names|
      invariant error.None? && NamesFit(names[..n], values) && list == Concat(ParamParts(names[..n], values))
    {
      var name := names[n];
      assert names[..n + 1] == names[..n] + [name];
      if name !in ENTRIES {
        error := Some(UnknownName);
      } else if name !in values {
        error := Some(MissingValue);
      } else if |values[name]| != ENTRIES[name].length {
        error := Some(BadLength);
      }
      if error.Some? {
        assert name in names && FirstErrorAt(names, values, error.value, n);
        return;
      }
      ParamPartsSnoc(names[..n], values, name);
      list := list + LE16Bytes(ENTRIES[name].head16) + values[name];
    }
    assert names[..|names|] == names;
  }

  // Flag 0 asks for all parameters; any other flag needs a list, and only flag 1 sends it.
  method BuildGeneralParamFrame(sensorID: seq<Byte>, requestSetFlag: Byte, names: seq<string>, values: ParamValues)
      returns (r: Result)
    requires |sensorID| == 6
    ensures r.Ok? <==> requestSetFlag == 0 || (1 <= |names| <= 16 && NamesFit(names, values))
    ensures r.Err? ==> if 1 <= |names| <= 16 then FirstError(names, values, r.error) else r.error == BadCount
    ensures r.Ok? && requestSetFlag == 0 ==> ParsesAs(r.frame, sensorID, 15, CONTROL, [2 * 3] + [])
    ensures r.Ok? && requestSetFlag == 1 ==>
              ParsesAs(r.frame, sensorID, |names| % 16, CONTROL, [2 * 3 + 1] + Concat(ParamParts(names, values)))
    ensures r.Ok? && requestSetFlag > 1 ==>
              ParsesAs(r.frame, sensorID, |names| % 16, CONTROL, [2 * 3 + requestSetFlag % 2] + [])
  {
    var dataLen, parameterList: seq<Byte> := 15, [];
    if requestSetFlag != 0 {
      var m := |names|;
      if m == 0 || m > MAX_PARAMS {
        return Err(BadCount);
      }
      dataLen := m % 16;
      var error, list := BuildParameterList(names, values);
      if error.Some? {
        return Err(error.value);
      }
      parameterList := list;
    }
    var content: seq<Byte> := [];
    if requestSetFlag == 1 {
      content := parameterList;
    }
    var frame := ControlFrame(sensorID, dataLen, 2 * 3 + requestSetFlag % 2, content);
    r := Ok(frame);
  }

  // ---------------------------------------------------------------- reading the parameters back

  // A four-byte parameter is the encoding of an entry with length flag 0.
  function AsEntry(name: string, values: ParamValues): Entry
    requires NameError(name, values).None?
  {
    Entry(ENTRIES[name].head16 / 4, ENTRIES[name].head16 % 4, values[name])
  }

  lemma FlagZeroHeader(paramType: nat)
    requires paramType < 0x4000
    ensures Header(paramType, 0) == 4 * paramType
  {}

  lemma FlagZeroEntry(paramType: nat, data: seq<Byte>)
    requires paramType < 0x4000 && |data| == 4
    ensures EncodeEntry(Entry(paramType, 0, data)) == LE16Bytes(4 * paramType) + data
    ensures Fits(Entry(paramType, 0, data))
  {
    FlagZeroHeader(paramType);
    assert Body(0, data) == data;
  }

  lemma NamesAre(name: string, values: ParamValues)
    requires NameError(name, values).None?
    ensures ENTRIES[name] == if name == "Humidity" then ParamEntry(37, 1) else ParamEntry(20, 4)
  {}

  lemma TemperatureIsEntry(name: string, values: ParamValues)
    requires NameError(name, values).None? && name != "Humidity"
    ensures EncodeEntry(AsEntry(name, values)) == ParamPart(name, values)
    ensures Fits(AsEntry(name, values)) && Symmetric(AsEntry(name, values))
    ensures ParamItem(name, values) == Item(AsEntry(name, values).paramType, AsEntry(name, values).data)
  {
    NamesAre(name, values);
    FlagZeroEntry(5, values[name]);
  }

  function AsEntries(names: seq<string>, values: ParamValues): (es: seq<Entry>)
    requires NamesFit(names, values)
    ensures |es| == |names|
  {
    seq(|names|, i requires 0 <= i < |names| => AsEntry(names[i], values))
  }

  lemma TemperaturesAreEntries(names: seq<string>, values: ParamValues)
    requires NamesFit(names, values) && "Humidity" !in names
    ensures Encodings(AsEntries(names, values)) == ParamParts(names, values)
    ensures ItemsOf(AsEntries(names, values)) == ParamItems(names, values)
    ensures AllFit(AsEntries(names, values))
    ensures forall e :: e in AsEntries(names, values) ==> Symmetric(e)
  {
    var es := AsEntries(names, values);
    forall i | 0 <= i < |names|
      ensures Encodings(es)[i] == ParamParts(names, values)[i]
      ensures ItemsOf(es)[i] == ParamItems(names, values)[i]
      ensures Fits(es[i]) && Symmetric(es[i])
    {
      assert names[i] in names;
      TemperatureIsEntry(names[i], values);
    }
  }

  // A humidity part: the byte behind the header is its value, and a decoder takes it for a length.
  lemma HumidityRound(mem: seq<Byte>, idx: nat, values: ParamValues, rules: Rules)
    requires NameError("Humidity", values).None? && rules.guarded && idx + 5 <= |mem|
    requires Agrees(mem, |mem|, idx, ParamPart("Humidity", values))
    ensures var next := Round(mem, |mem|, idx, rules);
            next.Took? ==> && |next.item.value| == values["Humidity"][0]
                           && idx + 3 + |next.item.value| + 2 <= |mem|
                           && next.item.value == mem[idx + 3..idx + 3 + |next.item.value|]
  {
    var part := ParamPart("Humidity", values);
    assert mem[idx + 0] == part[0] && mem[idx + 1] == part[1] && mem[idx + 2] == part[2];
    assert part[0] == 37 && part[1] == 0 && part[2] == values["Humidity"][0];
  }

  // The value it reads is another one: even where the length is right, the value is the first byte of
  // the next part, which is a known head, and never 1.
  lemma HumidityMissed(mem: seq<Byte>, idx: nat, values: ParamValues, rules: Rules)
    requires NameError("Humidity", values).None? && rules.guarded && idx + 5 <= |mem|
    requires Agrees(mem, |mem|, idx, ParamPart("Humidity", values))
    requires |mem| == idx + 5 || mem[idx + 3] in {20, 37}
    ensures var next := Round(mem, |mem|, idx, rules);
            next.Took? ==> next.item.value != values["Humidity"]
  {
    HumidityRound(mem, idx, values, rules);
  }

  lemma PartHead(name: string, values: ParamValues)
    requires NameError(name, values).None?
    ensures |ParamPart(name, values)| >= 3 && ParamPart(name, values)[0] in {20, 37}
    ensures name == "Humidity" ==> |ParamPart(name, values)| == 3
  {
    NamesAre(name, values);
  }

  lemma ParamPartsSplit(names: seq<string>, values: ParamValues, i: nat)
    requires NamesFit(names, values) && i < |names|
    ensures Concat(ParamParts(names, values))
         == Concat(ParamParts(names[..i], values))
            + (ParamPart(names[i], values) + Concat(ParamParts(names[i + 1..], values)))
  {
    var parts := ParamParts(names, values);
    assert parts == parts[..i] + parts[i..] && parts[i..] == [parts[i]] + parts[i + 1..];
    assert parts[..i] == ParamParts(names[..i], values) && parts[i + 1..] == ParamParts(names[i + 1..], values);
    ConcatAppend(parts[..i], parts[i..]);
  }

  // The rest of the list behind a part starts with a head, if there is any.
  lemma RestHead(names: seq<string>, values: ParamValues)
    requires NamesFit(names, values)
    ensures names == [] ==> Concat(ParamParts(names, values)) == []
    ensures names != [] ==> Concat(ParamParts(names, values)) != []
                            && Concat(ParamParts(names, values))[0] in {20, 37}
  {
    if names != [] {
      assert names[0] in names;
      PartHead(names[0], values);
    }
  }

  lemma HumidityNotTaken(mem: seq<Byte>, at: nat, behind: seq<string>, values: ParamValues, rules: Rules)
    requires NameError("Humidity", values).None? && NamesFit(behind, values) && rules.guarded
    requires var part, rest := ParamPart("Humidity", values), Concat(ParamParts(behind, values));
             Agrees(mem, |mem|, at, part + rest) && |mem| == at + |part + rest| + 2
    ensures at < Positions(|mem|)
    ensures var next := Rounds(mem, |mem|, rules)[at];
            next.Took? ==> next.item != ParamItem("Humidity", values)
  {
    var part, rest := ParamPart("Humidity", values), Concat(ParamParts(behind, values));
    PartHead("Humidity", values);
    AgreesSplit(mem, |mem|, at, part, rest);
    RestHead(behind, values);
    assert rest != [] ==> mem[at + 3 + 0] == rest[0];
    HumidityMissed(mem, at, values, rules);
    RoundAt(mem, |mem|, rules, at);
  }

  // Temperatures in front of the first humidity are read back; the humidity is not.
  lemma FirstHumidityMissed(mem: seq<Byte>, idx: nat, names: seq<string>, values: ParamValues, i: nat, rules: Rules)
    requires NamesFit(names, values) && i < |names| && names[i] == "Humidity" && "Humidity" !in names[..i]
    requires Agrees(mem, |mem|, idx, Concat(ParamParts(names, values)))
    requires |mem| == idx + |Concat(ParamParts(names, values))| + 2 && rules.guarded && rules.known
    ensures Walk(mem, |mem|, idx, |names|, rules).items != ParamItems(names, values)
  {
    var before, behind := names[..i], names[i + 1..];
    var first, rest := Concat(ParamParts(before, values)), Concat(ParamParts(behind, values));
    var at := idx + |first|;
    ParamPartsSplit(names, values, i);
    AgreesSplit(mem, |mem|, idx, first, ParamPart("Humidity", values) + rest);
    HumidityNotTaken(mem, at, behind, values, rules);
    TemperaturesTaken(mem, idx, before, values, |names| - i, rules);
    LoopMissesItem(Rounds(mem, |mem|, rules), at, |names| - i, ParamItems(before, values), ParamItems(names, values));
  }

  lemma TemperaturesTaken(mem: seq<Byte>, idx: nat, names: seq<string>, values: ParamValues, more: nat, rules: Rules)
    requires NamesFit(names, values) && "Humidity" !in names && rules.known
    requires Agrees(mem, |mem|, idx, Concat(ParamParts(names, values)))
    requires idx + |Concat(ParamParts(names, values))| + 2 <= |mem|
    ensures Walk(mem, |mem|, idx, |names| + more, rules)
         == Prepend(ParamItems(names, values),
                    Walk(mem, |mem|, idx + |Concat(ParamParts(names, values))|, more, rules))
  {
    TemperaturesAreEntries(names, values);
    ListTaken(mem, |mem|, idx, AsEntries(names, values), more, rules);
  }

  lemma LoopMissesItem(table: seq<Next>, at: nat, left: nat, before: seq<Item>, items: seq<Item>)
    requires left > 0 && at < |table| && |before| < |items|
    requires table[at].Took? ==> table[at].item != items[|before|]
    ensures Prepend(before, Loop(table, at, left, true)).items != items
  {
    FirstItem(table, at, left, items[|before|]);
    var rest := Loop(table, at, left, true).items;
    assert rest != [] ==> (before + rest)[|before|] == rest[0];
  }

  lemma {:induction false} FirstHumidity(names: seq<string>) returns (i: nat)
    requires "Humidity" in names
    ensures i < |names| && names[i] == "Humidity" && "Humidity" !in names[..i]
    decreases |names|
  {
    if names[0] == "Humidity" {
      i := 0;
    } else {
      var j := FirstHumidity(names[1..]);
      i := j + 1;
      assert names[..i] == [names[0]] + names[1..][..j];
    }
  }

  lemma ListInFrame(frame: seq<Byte>, id: seq<Byte>, count: nat, ctrl: Byte, list: seq<Byte>)
    requires |id| == 6 && ParsesAs(frame, id, count, CONTROL, [ctrl] + list)
    ensures |frame| == 8 + |list| + 2 && StandsAt(frame, 8, list)
  {
    var body := frame[7..|frame| - 2];
    assert body == [ctrl] + list;
    assert frame[8..8 + |list|] == body[1..] == list;
  }

  lemma ListReadBackIff(mem: seq<Byte>, idx: nat, names: seq<string>, values: ParamValues, count: nat, rules: Rules)
    requires 1 <= |names| <= MAX_PARAMS && NamesFit(names, values) && count == |names| % 16
    requires Agrees(mem, |mem|, idx, Concat(ParamParts(names, values)))
    requires |mem| == idx + |Concat(ParamParts(names, values))| + 2 && rules.guarded && rules.known
    ensures Walk(mem, |mem|, idx, count, rules).items == ParamItems(names, values)
            <==> |names| <= 15 && "Humidity" !in names
  {
    if |names| == 16 {
      NothingLeft(mem, |mem|, idx, rules);
    } else if "Humidity" in names {
      var i := FirstHumidity(names);
      FirstHumidityMissed(mem, idx, names, values, i, rules);
    } else {
      TemperaturesTaken(mem, idx, names, values, 0, rules);
      NothingLeft(mem, |mem|, idx + |Concat(ParamParts(names, values))|, rules);
      assert ParamItems(names, values) + [] == ParamItems(names, values);
    }
  }

  /** Setting parameters: the decoder, in either byte order, reads back from the frame exactly the
      types and values the caller gave, in order, if and only if they are at most 15, since 16 do not
      fit the count, and none is "Humidity", whose head promises a length byte that is not there. */
  lemma GeneralParamsReadBackIff(frame: seq<Byte>, sensorID: seq<Byte>, names: seq<string>, values: ParamValues,
                                 order: Order)
    requires |sensorID| == 6 && 1 <= |names| <= MAX_PARAMS && NamesFit(names, values)
    requires ParsesAs(frame, sensorID, |names| % 16, CONTROL, [2 * 3 + 1] + Concat(ParamParts(names, values)))
    ensures Walk(frame, |frame|, 8, Split(frame).count, Rules(order, true, true)).items == ParamItems(names, values)
            <==> |names| <= 15 && "Humidity" !in names
  {
    ListInFrame(frame, sensorID, |names| % 16, 7, Concat(ParamParts(names, values)));
    StandsAgrees(frame, |frame|, 8, Concat(ParamParts(names, values)));
    ListReadBackIff(frame, 8, names, values, |names| % 16, Rules(order, true, true));
  }
}
