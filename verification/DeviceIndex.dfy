/** The run-time value store (config.go), the index from sensor ids to devices that mirrors it
    (idToDevice.go), and the removal of a device (wiresinkdriver.go). */
module DeviceIndex {
  import opened Bytes
  import Topology

  // A stored value, as far as the index looks at it: a string, a byte slice, or what fmt.Sprint
  // makes of anything else.
  datatype Value = Text(text: string) | Raw(bytes: seq<Byte>) | Other(shown: string)

  type Values = map<string, map<string, Value>>

  type Index = map<string, string>

  const EID := "eid"

  // A Go string holds the same bytes as the slice it is made from.
  function Chars(b: seq<Byte>): string {
    seq(|b|, i requires 0 <= i < |b| => b[i] as char)
  }

  function Rendered(v: Value): string {
    match v
    case Text(s) => s
    case Raw(b) => Chars(b)
    case Other(s) => s
  }

  // The device stores this id: as a string, as the bytes of one, or as something that shows it.
  predicate StoresId(values: Values, device: string, id: string) {
    && id != "" && device in values && EID in values[device]
    && match values[device][EID]
       case Text(s) => s == id
       case Raw(b) => |b| == |id| && forall i :: 0 <= i < |b| ==> b[i] == id[i] as int
       case Other(shown) => shown == id
  }

  // The id of a device: its stored eid, unless that renders to the empty string.
  function IdOf(values: Values, device: string): Option<string> {
    if device in values && EID in values[device] && Rendered(values[device][EID]) != ""
    then Some(Rendered(values[device][EID])) else None
  }

  function Written(values: Values, device: string, name: string, value: Value): Values {
    values[device := (if device in values then values[device] else map[])[name := value]]
  }

  /** The id of a device is the one it stores; an empty one is none. */
  lemma IdIsStored(values: Values, device: string)
    ensures forall id :: IdOf(values, device) == Some(id) <==> StoresId(values, device, id)
  {
    forall id
      ensures IdOf(values, device) == Some(id) <==> StoresId(values, device, id)
    {
      if device in values && EID in values[device] && values[device][EID].Raw? {
        CharsAre(values[device][EID].bytes, id);
      }
    }
  }

  lemma CharsAre(b: seq<Byte>, id: string)
    ensures Chars(b) == id <==> |b| == |id| && forall i :: 0 <= i < |b| ==> b[i] == id[i] as int
  {
    if |b| == |id| && forall i :: 0 <= i < |b| ==> b[i] == id[i] as int {
      assert forall i :: 0 <= i < |b| ==> Chars(b)[i] == id[i];
    }
  }

  function WithoutDevice(index: Index, device: string): Index {
    map id | id in index && index[id] != device :: index[id]
  }

  // ---------------------------------------------------------------- what the index should say

  // Every id leads to a device that has that id, or to one whose removal is half done.
  ghost predicate Sound(values: Values, index: Index, removing: multiset<string>) {
    forall id :: id in index ==> index[id] in removing || IdOf(values, index[id]) == Some(id)
  }

  // Every device with an id is found by it.
  ghost predicate Complete(values: Values, index: Index) {
    forall d :: d in values && IdOf(values, d).Some? ==> Finds(index, IdOf(values, d).value, d)
  }

  predicate Finds(index: Index, id: string, device: string) {
    id in index && index[id] == device
  }

  ghost predicate DistinctIds(values: Values) {
    forall d1, d2 :: (d1 in values && d2 in values && IdOf(values, d1).Some? && IdOf(values, d1) == IdOf(values, d2))
                     ==> d1 == d2
  }

  /** The values and the index, with the operations that change them in place. */
  class Devices {
    var values: Values
    var index: Index

    constructor ()
      ensures values == map[] && index == map["238A08262319" := "Data-Demo"]
    {
      values, index := map[], map["238A08262319" := "Data-Demo"];
    }

    // The state of the runs below, with the given removals half done.
    function State(removing: multiset<string>): System
      reads this
    {
      System(values, index, removing)
    }

    method SetDeviceValue(device: string, name: string, value: Value)
      modifies this`values
      ensures values == Written(old(values), device, name, value)
      ensures forall r :: State(r) == Next(old(State(r)), Put(device, name, value))
    {
      if device !in values {
        values := values[device := map[]];
      }
      values := values[device := values[device][name := value]];
      assert values == Written(old(values), device, name, value);
    }

    // parsed stands for the converted default value.
    method DeviceInit(device: string, name: string, parsed: Value)
      modifies this`values
      ensures values == Written(old(values), device, name, parsed)
      ensures forall r :: State(r) == Next(old(State(r)), Put(device, name, parsed))
    {
      if device !in values {
        values := values[device := map[]];
      }
      values := values[device := values[device][name := parsed]];
      assert values == Written(old(values), device, name, parsed);
    }

    method DeleteDeviceValues(device: string) returns (ok: bool)
      modifies this`values
      ensures ok <==> device in old(values)
      ensures values == old(values) - {device}
      ensures forall r :: State(if ok then r + multiset{device} else r) == Next(old(State(r)), DropValues(device))
    {
      if device !in values {
        return false;
      }
      values := values - {device};
      ok := true;
    }

    method DeleteSensorIDMappingsByDevice(device: string)
      modifies this`index
      ensures index == WithoutDevice(old(index), device)
      ensures forall r :: State(r - multiset{device}) == Next(old(State(r)), DropIds(device))
    {
      var toDelete: set<string>, todo := {}, index.Keys;
      while todo != {}
        invariant todo <= index.Keys
        invariant toDelete == set id | id in index && id !in todo && index[id] == device
      {
        var id :| id in todo;
        todo := todo - {id};
        if index[id] == device {
          toDelete := toDelete + {id};
        }
      }
      index := index - toDelete;
    }

    // A device without values is not removed: its ids stay.
    method RemoveDevice(device: string) returns (ok: bool)
      modifies this
      ensures ok <==> device in old(values)
      ensures values == old(values) - {device}
      ensures index == if ok then WithoutDevice(old(index), device) else old(index)
    {
      ok := DeleteDeviceValues(device);
      if ok {
        DeleteSensorIDMappingsByDevice(device);
      }
    }

    method LookupDeviceName(id: string) returns (device: Option<string>)
      ensures device == if id in index then Some(index[id]) else None
    {
      device := if id in index then Some(index[id]) else None;
    }

    /** Rebuilds the index in whatever order the devices come.  It leads from an id only to a device that stores
        it, every id that a device stores is in it, leads to the device if no other device stores it, and it is
        complete exactly if no two devices have the same id. */
    method UpdateSensorMapping()
      modifies this`index
      ensures forall id :: id in index ==> StoresId(values, index[id], id)
      ensures forall d, id :: StoresId(values, d, id) ==> id in index
      ensures forall d, id :: StoresId(values, d, id) && (forall o :: StoresId(values, o, id) ==> o == d) ==>
                id in index && index[id] == d
      ensures Sound(values, index, multiset{})
      ensures Complete(values, index) <==> DistinctIds(values)
      ensures forall r :: Enabled(old(State(r)), Rebuild(index)) && State(r) == Next(old(State(r)), Rebuild(index))
    {
      index := map[];
      var todo := values.Keys;
      while todo != {}
        invariant todo <= values.Keys
        invariant forall id :: id in index ==> StoresId(values, index[id], id)
        invariant forall d, id :: d !in todo && StoresId(values, d, id) ==> id in index
      {
        var device :| device in todo;
        todo := todo - {device};
        var resources := values[device];
        if "eid" in resources {
          var eid := Shown(resources["eid"]);
          assert forall id :: StoresId(values, device, id) <==> id == eid && id != "";
          if eid != "" {
            index := index[eid := device];
          }
        }
      }
      IndexFromStored(values, index);
    }
  }

  // The string that UpdateSensorMapping takes for a value.
  method Shown(raw: Value) returns (eid: string)
    ensures forall values, d, id :: d in values && EID in values[d] && values[d][EID] == raw ==>
              (StoresId(values, d, id) <==> id == eid && id != "")
  {
    match raw
    case Text(v) => eid := v;
    case Raw(v) =>
      eid := Chars(v);
      forall id
        ensures |v| == |id| && (forall i :: 0 <= i < |v| ==> v[i] == id[i] as int) <==> id == eid
      {
        CharsAre(v, id);
      }
    case Other(v) => eid := v;
  }

  lemma IndexFromStored(values: Values, index: Index)
    requires forall id :: id in index ==> StoresId(values, index[id], id)
    requires forall d, id :: StoresId(values, d, id) ==> id in index
    ensures Sound(values, index, multiset{})
    ensures Complete(values, index) <==> DistinctIds(values)
  {
    forall d
      ensures forall id :: IdOf(values, d) == Some(id) <==> StoresId(values, d, id)
    {
      IdIsStored(values, d);
    }
    CompleteIffDistinct(values, index);
  }

  lemma CompleteIffDistinct(values: Values, index: Index)
    requires Sound(values, index, multiset{})
    requires forall d :: d in values && IdOf(values, d).Some? ==> IdOf(values, d).value in index
    ensures Complete(values, index) <==> DistinctIds(values)
  {
    if Complete(values, index) {
      forall d1, d2 | d1 in values && d2 in values && IdOf(values, d1).Some? && IdOf(values, d1) == IdOf(values, d2)
        ensures d1 == d2
      {
        assert Finds(index, IdOf(values, d1).value, d1) && Finds(index, IdOf(values, d2).value, d2);
      }
    }
  }

  // ---------------------------------------------------------------- runs

  // removing: the removals that have deleted the values and not yet the ids.
  datatype System = System(values: Values, index: Index, removing: multiset<string>)

  // What the goroutines of the driver do, one critical section at a time.  A rebuild brings the index
  // that its order of devices made.
  datatype Op =
    | Put(device: string, name: string, value: Value)
    | DropValues(device: string)
    | DropIds(device: string)
    | Rebuild(made: Index)

  ghost predicate Enabled(sys: System, op: Op) {
    match op
    case DropIds(d) => d in sys.removing
    case Rebuild(made) =>
      Sound(sys.values, made, multiset{}) && (Complete(sys.values, made) <==> DistinctIds(sys.values))
    case _ => true
  }

  function Next(sys: System, op: Op): System {
    match op
    case Put(d, name, value) => sys.(values := Written(sys.values, d, name, value))
    case DropValues(d) =>
      if d in sys.values then sys.(values := sys.values - {d}, removing := sys.removing + multiset{d}) else sys
    case DropIds(d) => sys.(index := WithoutDevice(sys.index, d), removing := sys.removing - multiset{d})
    case Rebuild(made) => sys.(index := made)
  }

  ghost predicate CanRun(sys: System, ops: seq<Op>)
    decreases |ops|
  {
    ops == [] || (Enabled(sys, ops[0]) && CanRun(Next(sys, ops[0]), ops[1..]))
  }

  ghost function Run(sys: System, ops: seq<Op>): System
    requires CanRun(sys, ops)
    decreases |ops|
  {
    if ops == [] then sys else Run(Next(sys, ops[0]), ops[1..])
  }

  // The names that frames, the status check and the listener write are never "eid".
  predicate KeepsIds(op: Op) {
    op.Put? ==> op.name != EID
  }

  // Sound for every store, also one in which two devices have one id.
  ghost predicate SoundInv(sys: System) {
    && Sound(sys.values, sys.index, sys.removing)
    && forall d :: d in sys.removing ==> IdOf(sys.values, d).None?
  }

  ghost predicate Inv(sys: System) {
    SoundInv(sys) && Complete(sys.values, sys.index)
  }

  lemma WrittenKeepsIds(values: Values, device: string, name: string, value: Value)
    requires name != EID
    ensures forall d :: IdOf(Written(values, device, name, value), d) == IdOf(values, d)
  {}

  lemma CompleteGivesDistinct(values: Values, index: Index)
    requires Complete(values, index)
    ensures DistinctIds(values)
  {
    forall d1, d2 | d1 in values && d2 in values && IdOf(values, d1).Some? && IdOf(values, d1) == IdOf(values, d2)
      ensures d1 == d2
    {
      assert Finds(index, IdOf(values, d1).value, d1) && Finds(index, IdOf(values, d2).value, d2);
    }
  }

  lemma NextKeepsSound(sys: System, op: Op)
    requires SoundInv(sys) && Enabled(sys, op) && KeepsIds(op)
    ensures SoundInv(Next(sys, op))
  {
    if op.Put? {
      WrittenKeepsIds(sys.values, op.device, op.name, op.value);
    }
  }

  lemma NextKeepsComplete(sys: System, op: Op)
    requires Inv(sys) && Enabled(sys, op) && KeepsIds(op)
    ensures Complete(Next(sys, op).values, Next(sys, op).index)
  {
    match op
    case Put(d, name, value) => WrittenKeepsIds(sys.values, d, name, value);
    case DropValues(d) =>
    case DropIds(d) => DropIdsKeepsComplete(sys, d);
    case Rebuild(_) => CompleteGivesDistinct(sys.values, sys.index);
  }

  lemma DropIdsKeepsComplete(sys: System, device: string)
    requires Inv(sys) && device in sys.removing
    ensures Complete(sys.values, WithoutDevice(sys.index, device))
  {
    forall d | d in sys.values && IdOf(sys.values, d).Some?
      ensures Finds(WithoutDevice(sys.index, device), IdOf(sys.values, d).value, d)
    {
      assert d != device && Finds(sys.index, IdOf(sys.values, d).value, d);
    }
  }

  lemma {:induction false} RunKeepsSound(sys: System, ops: seq<Op>)
    requires SoundInv(sys) && CanRun(sys, ops) && forall op :: op in ops ==> KeepsIds(op)
    ensures SoundInv(Run(sys, ops))
    decreases |ops|
  {
    if ops != [] {
      NextKeepsSound(sys, ops[0]);
      RunKeepsSound(Next(sys, ops[0]), ops[1..]);
    }
  }

  lemma {:induction false} RunKeepsInv(sys: System, ops: seq<Op>)
    requires Inv(sys) && CanRun(sys, ops) && forall op :: op in ops ==> KeepsIds(op)
    ensures Inv(Run(sys, ops))
    decreases |ops|
  {
    if ops != [] {
      NextKeepsSound(sys, ops[0]);
      NextKeepsComplete(sys, ops[0]);
      RunKeepsInv(Next(sys, ops[0]), ops[1..]);
    }
  }

  /** Over every run of value writes, removals in two halves and rebuilds, in any interleaving and on every
      store, an id that leads to a device that is not half removed is that device's stored eid. */
  lemma LookupSound(sys: System, ops: seq<Op>, id: string, device: string)
    requires SoundInv(sys) && CanRun(sys, ops) && forall op :: op in ops ==> KeepsIds(op)
    requires Finds(Run(sys, ops).index, id, device) && device !in Run(sys, ops).removing
    ensures StoresId(Run(sys, ops).values, device, id)
  {
    RunKeepsSound(sys, ops);
    IdIsStored(Run(sys, ops).values, device);
  }

  /** If no two devices had one id at the start, the index is the exact inverse of the stored eids: an id
      leads to a device that is not half removed if and only if it is the device's own. */
  lemma LookupExact(sys: System, ops: seq<Op>, id: string, device: string)
    requires Inv(sys) && CanRun(sys, ops) && forall op :: op in ops ==> KeepsIds(op)
    requires device !in Run(sys, ops).removing
    ensures Finds(Run(sys, ops).index, id, device) <==> StoresId(Run(sys, ops).values, device, id)
  {
    RunKeepsInv(sys, ops);
    IdIsStored(Run(sys, ops).values, device);
  }

  /** From the driver's start, where the index leads to a device without values: the first rebuild makes it
      sound whatever it held, and exact if no two devices have one id, and so it stays over every run. */
  lemma LookupFromStart(sys: System, made: Index, ops: seq<Op>, id: string, device: string)
    requires sys.removing == multiset{} && Enabled(sys, Rebuild(made)) && CanRun(Next(sys, Rebuild(made)), ops)
    requires forall op :: op in ops ==> KeepsIds(op)
    requires device !in Run(Next(sys, Rebuild(made)), ops).removing
    ensures var end := Run(Next(sys, Rebuild(made)), ops);
            && (Finds(end.index, id, device) ==> StoresId(end.values, device, id))
            && (DistinctIds(sys.values) ==> (StoresId(end.values, device, id) ==> Finds(end.index, id, device)))
  {
    var built := Next(sys, Rebuild(made));
    IdIsStored(Run(built, ops).values, device);
    RunKeepsSound(built, ops);
    if DistinctIds(sys.values) {
      RunKeepsInv(built, ops);
    }
  }

  /** A device that is half removed has no id, whatever is written to it meanwhile, and once the ids
      are deleted none leads to it, on every store. */
  lemma RemovalLeavesNoId(sys: System, ops: seq<Op>, device: string, id: string)
    requires SoundInv(sys) && CanRun(sys, ops) && forall op :: op in ops ==> KeepsIds(op)
    requires device in Run(sys, ops).removing
    ensures !StoresId(Run(sys, ops).values, device, id)
    ensures !Finds(Next(Run(sys, ops), DropIds(device)).index, id, device)
  {
    RunKeepsSound(sys, ops);
    IdIsStored(Run(sys, ops).values, device);
  }

  // ---------------------------------------------------------------- what breaks the index

  ghost predicate Exact(values: Values, index: Index) {
    Sound(values, index, multiset{}) && Complete(values, index)
  }

  /** Writing an eid, as DeviceInit does for a new or refreshed device, does not touch the index, which
      stays exact if and only if the device keeps the id it had, or the lack of one. */
  lemma WritingEidIff(values: Values, index: Index, device: string, value: Value)
    requires Exact(values, index)
    ensures var values1 := Written(values, device, EID, value);
            Exact(values1, index)
            <==> forall id :: StoresId(values1, device, id) <==> StoresId(values, device, id)
  {
    var values1 := Written(values, device, EID, value);
    var before, after := IdOf(values, device), IdOf(values1, device);
    IdIsStored(values, device);
    IdIsStored(values1, device);
    assert before == after <==> forall id :: StoresId(values1, device, id) <==> StoresId(values, device, id) by {
      SameIdIff(values, values1, device);
    }
    assert forall d :: d != device ==> IdOf(values1, d) == IdOf(values, d);
    if Exact(values1, index) {
      assert before.Some? ==> Finds(index, before.value, device);
      assert after.Some? ==> Finds(index, after.value, device);
    } else if before == after {
      assert forall d :: IdOf(values1, d) == IdOf(values, d);
    }
  }

  lemma SameIdIff(values: Values, values1: Values, device: string)
    ensures IdOf(values1, device) == IdOf(values, device)
            <==> forall id :: StoresId(values1, device, id) <==> StoresId(values, device, id)
  {
    IdIsStored(values, device);
    IdIsStored(values1, device);
    var before, after := IdOf(values, device), IdOf(values1, device);
    if before.Some? {
      assert StoresId(values, device, before.value);
    }
    if after.Some? {
      assert StoresId(values1, device, after.value);
    }
  }

  /** Deleting the values of a device alone leaves the index exact if and only if no id leads to it. */
  lemma DroppingValuesIff(values: Values, index: Index, device: string)
    requires Exact(values, index)
    ensures Exact(values - {device}, index) <==> forall id :: !Finds(index, id, device)
  {
    var values1 := values - {device};
    assert forall d :: d != device ==> IdOf(values1, d) == IdOf(values, d);
    if id :| Finds(index, id, device) {
      assert IdOf(values1, index[id]).None?;
    }
  }

  // ---------------------------------------------------------------- ids of frames

  /** A frame's 6-byte sensor id is looked up as upper-case hexadecimal: some frame carries an id if and
      only if the id is 12 digits of that kind, so no frame finds a device whose eid is in lower case. */
  lemma FrameCarriesIff(id: string)
    ensures (exists b: seq<Byte> :: |b| == 6 && Topology.Hex(b) == id) <==> Topology.IsHex12(id)
  {
    if b: seq<Byte> :| |b| == 6 && Topology.Hex(b) == id {
      Topology.HexReads(b);
    }
    if Topology.IsHex12(id) {
      Topology.HexWrites(id);
      var b := Topology.Unhex(id);
      assert |Topology.Hex(b)| == 2 * |b| && |b| == 6;
    }
  }
}
