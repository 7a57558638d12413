/** The parameter list: EncodeParamEntry (topo_data_ctl.go) and the three loops that decode it
    (parser.go, sharding.go, param_table_parser_response.go).  One recursive decoder, Walk, says what
    all three mean; they differ in byte order, in a bounds guard and in what they do for a sensor
    without a device. */
module Tlv {
  import opened Bytes

  datatype Entry = Entry(paramType: nat, flag: nat, data: seq<Byte>)

  datatype Item = Item(paramType: nat, value: seq<Byte>)

  datatype Order = Little | Big

  // guarded: a value must end two bytes before the end.  known: the sensor has a device.
  datatype Rules = Rules(order: Order, guarded: bool, known: bool)

  // Why a loop ends: its count is reached, a header or a value does not fit, or Go panics on an
  // index out of range.
  datatype Ending = Counted | HeaderCut | ValueCut | Panic

  // at: the index where the loop stands when it ends.
  datatype Parsed = Parsed(items: seq<Item>, at: nat, ending: Ending)

  // ---------------------------------------------------------------- encoding

  function Header(paramType: nat, flag: nat): nat
    ensures Header(paramType, flag) < 0x1_0000
  {
    paramType % 0x4000 * 4 + flag % 4
  }

  function LengthField(flag: nat, n: nat): (b: seq<Byte>)
    requires flag < 4
    ensures |b| == flag
  {
    if flag == 0 then [] else if flag == 1 then [n % 256]
    else if flag == 2 then LE16Bytes(n) else BE24Bytes(n)
  }

  // Flag 0 has no length field and always four bytes of data.
  function Body(flag: nat, data: seq<Byte>): seq<Byte>
    requires flag < 4
  {
    LengthField(flag, |data|) + (if flag == 0 && |data| != 4 then [0, 0, 0, 0] else data)
  }

  function EncodeEntry(e: Entry): seq<Byte> {
    LE16Bytes(Header(e.paramType, e.flag)) + Body(e.flag % 4, e.data)
  }

  /** EncodeParamEntry, growing its output by appends. */
  method EncodeParamEntry(paramType: nat, lenFlag: nat, data: seq<Byte>) returns (out: seq<Byte>)
    ensures out == EncodeEntry(Entry(paramType, lenFlag, data))
  {
    var flag := lenFlag % 4;
    out := LE16Bytes(Header(paramType, lenFlag));
    if flag == 0 {
      if |data| != 4 {
        out := out + [0, 0, 0, 0];
      } else {
        out := out + data;
      }
      assert Body(flag, data) == if |data| != 4 then [0, 0, 0, 0] else data;
    } else {
      out := AppendSized(out, flag, data);
    }
  }

  // The length field and then the data.
  method AppendSized(head: seq<Byte>, flag: nat, data: seq<Byte>) returns (out: seq<Byte>)
    requires 1 <= flag < 4
    ensures out == head + Body(flag, data)
  {
    var n := |data|;
    out := head;
    if flag == 1 {
      out := out + [n % 256];
    } else if flag == 2 {
      out := out + LE16Bytes(n);
    } else {
      out := out + [n / 0x1_0000 % 256, n / 256 % 256, n % 256];
    }
    assert out == head + LengthField(flag, n);
    out := out + data;
    assert (head + LengthField(flag, n)) + data == head + (LengthField(flag, n) + data);
  }

  // The entry's type and length fit the fields its flag gives them.
  predicate Fits(e: Entry) {
    && e.paramType < 0x4000 && e.flag < 4
    && (e.flag == 0 ==> |e.data| == 4) && (e.flag == 1 ==> |e.data| < 256)
    && (e.flag == 2 ==> |e.data| < 0x1_0000) && (e.flag == 3 ==> |e.data| < 0x100_0000)
  }

  predicate AllFit(es: seq<Entry>) {
    forall e :: e in es ==> Fits(e)
  }

  function Concat(parts: seq<seq<Byte>>): seq<Byte> {
    if parts == [] then [] else parts[0] + Concat(parts[1..])
  }

  function Encodings(es: seq<Entry>): (parts: seq<seq<Byte>>)
    ensures |parts| == |es|
  {
    seq(|es|, i requires 0 <= i < |es| => EncodeEntry(es[i]))
  }

  function EncodeAll(es: seq<Entry>): seq<Byte> {
    Concat(Encodings(es))
  }

  function ItemsOf(es: seq<Entry>): (items: seq<Item>)
    ensures |items| == |es|
  {
    seq(|es|, i requires 0 <= i < |es| => Item(es[i].paramType, es[i].data))
  }

  // ---------------------------------------------------------------- decoding

  function Length16(a: Byte, b: Byte, order: Order): nat {
    if order == Little then LE16(a, b) else BE16(a, b)
  }

  // The value length for a flag, and the index behind the length field that starts at `at`; None if
  // an index is out of range.  mem is the slice with its spare capacity, len its length: an element
  // is checked against len, a sub-slice against the capacity.
  function ReadLength(mem: seq<Byte>, len: nat, at: nat, flag: nat, order: Order): Option<(nat, nat)>
    requires at <= len <= |mem| && flag < 4
  {
    if flag == 0 then Some((4, at))
    else if flag == 1 then (if at < len then Some((mem[at], at + 1)) else None)
    else if flag == 2 then
      (if at + 2 <= |mem| then Some((Length16(mem[at], mem[at + 1], order), at + 2)) else None)
    else if at + 2 < len then Some((BE24(mem[at], mem[at + 1], mem[at + 2]), at + 3))
    else None
  }

  // One round: the loop ends at an index, or takes an item and `used` bytes behind the header.
  datatype Next = Stop(at: nat, ending: Ending) | Took(item: Item, used: nat)

  // One round of a loop, from a header that fits.
  function Round(mem: seq<Byte>, len: nat, idx: nat, rules: Rules): Next
    requires idx + 4 <= len <= |mem|
  {
    var head := LE16(mem[idx], mem[idx + 1]);
    match ReadLength(mem, len, idx + 2, head % 4, rules.order)
    case None => Stop(idx + 2, Panic)
    case Some((n, at)) =>
      if rules.guarded && at + n + 2 > len then Stop(at, ValueCut)
      else if at + n > |mem| then Stop(at, Panic)
      else Took(Item(head / 4, mem[at..at + n]), at + n - (idx + 2))
  }

  // How many positions a header fits at: one at idx needs idx + 4 <= len.
  function Positions(len: nat): nat {
    if len < 4 then 0 else len - 3
  }

  // The rounds at the positions below n.  Proofs about loops take this table as it is and look into
  // a round only through RoundAt.
  function Table(mem: seq<Byte>, len: nat, rules: Rules, n: nat): (table: seq<Next>)
    requires n <= Positions(len) && len <= |mem|
    ensures |table| == n
  {
    if n == 0 then [] else Table(mem, len, rules, n - 1) + [Round(mem, len, n - 1, rules)]
  }

  function Rounds(mem: seq<Byte>, len: nat, rules: Rules): (table: seq<Next>)
    requires len <= |mem|
    ensures |table| == Positions(len)
  {
    Table(mem, len, rules, Positions(len))
  }

  // The loop around the rounds.  Only a known sensor's rounds yield an item and count.
  function Loop(table: seq<Next>, idx: nat, left: nat, known: bool): Parsed
    decreases |table| - idx
  {
    if left == 0 then Parsed([], idx, Counted)
    else if idx >= |table| then Parsed([], idx, HeaderCut)
    else
      match table[idx]
      case Stop(at, ending) => Parsed([], at, ending)
      case Took(item, used) =>
        if known then Prepend([item], Loop(table, idx + 2 + used, left - 1, known))
        else Loop(table, idx + 2 + used, left, known)
  }

  // What a decoding loop does with a slice of length len in an array mem.
  function Walk(mem: seq<Byte>, len: nat, idx: nat, left: nat, rules: Rules): Parsed
    requires len <= |mem|
  {
    Loop(Rounds(mem, len, rules), idx, left, rules.known)
  }

  function Prepend(items: seq<Item>, p: Parsed): Parsed {
    Parsed(items + p.items, p.at, p.ending)
  }

  // ---------------------------------------------------------------- one round, as the loops run it

  lemma PrependTwice(a: seq<Item>, b: seq<Item>, p: Parsed)
    ensures Prepend(a, Prepend(b, p)) == Prepend(a + b, p)
    ensures Prepend([], p) == p
  {
    assert a + (b + p.items) == (a + b) + p.items;
  }

  lemma {:induction false} TableAt(mem: seq<Byte>, len: nat, rules: Rules, n: nat, i: nat)
    requires n <= Positions(len) && len <= |mem| && i < n
    ensures Table(mem, len, rules, n)[i] == Round(mem, len, i, rules)
    decreases n
  {
    if i < n - 1 {
      TableAt(mem, len, rules, n - 1, i);
    }
  }

  lemma RoundAt(mem: seq<Byte>, len: nat, rules: Rules, i: nat)
    requires i + 4 <= len <= |mem|
    ensures Rounds(mem, len, rules)[i] == Round(mem, len, i, rules)
  {
    TableAt(mem, len, rules, Positions(len), i);
  }

  // Where a loop stands after taking items: the result is these items and the rest.
  predicate Standing(whole: Parsed, items: seq<Item>, table: seq<Next>, idx: nat, left: nat, known: bool) {
    whole == Prepend(items, Loop(table, idx, left, known))
  }

  lemma Begins(table: seq<Next>, idx: nat, left: nat, known: bool)
    ensures Standing(Loop(table, idx, left, known), [], table, idx, left, known)
  {
    PrependTwice([], [], Loop(table, idx, left, known));
  }

  lemma GoesOn(whole: Parsed, items: seq<Item>, table: seq<Next>, idx: nat, left: nat, known: bool, next: Next)
    requires Standing(whole, items, table, idx, left, known) && left > 0
    requires if idx >= |table| then next == Stop(idx, HeaderCut) else next == table[idx]
    ensures match next
            case Stop(at, ending) => whole == Parsed(items, at, ending)
            case Took(item, used) =>
              && idx < |table|
              && (if known then Standing(whole, items + [item], table, idx + 2 + used, left - 1, known)
                  else Standing(whole, items, table, idx + 2 + used, left, known))
  {
    if next.Took? && known {
      PrependTwice(items, [next.item], Loop(table, idx + 2 + next.used, left - 1, known));
    }
  }

  lemma Ends(whole: Parsed, items: seq<Item>, table: seq<Next>, idx: nat, known: bool)
    requires Standing(whole, items, table, idx, 0, known)
    ensures whole == Parsed(items, idx, Counted)
  {}

  const StartRules := Rules(Little, false, true)

  // The body of StartParser's loop up to the value: header, length field, value, no bounds check.
  method StartParserRound(mem: seq<Byte>, len: nat, start: nat) returns (next: Next)
    requires len <= |mem|
    ensures if start + 4 > len then next == Stop(start, HeaderCut) else next == Round(mem, len, start, StartRules)
  {
    var idx := start;
    if idx + 2 > len - 2 {
      return Stop(idx, HeaderCut);
    }
    var head16 := LE16(mem[idx], mem[idx + 1]);
    idx := idx + 2;
    var paramType, lenFlag := head16 / 4, head16 % 4;
    var dataLen := 4;
    if lenFlag == 1 {
      dataLen, idx := mem[idx], idx + 1;
    } else if lenFlag == 2 {
      dataLen, idx := LE16(mem[idx], mem[idx + 1]), idx + 2;
    } else if lenFlag == 3 {
      if idx + 2 >= len {
        return Stop(idx, Panic);
      }
      dataLen, idx := BE24(mem[idx], mem[idx + 1], mem[idx + 2]), idx + 3;
    }
    if idx + dataLen > |mem| {
      return Stop(idx, Panic);
    }
    var valBytes := mem[idx..idx + dataLen];
    idx := idx + dataLen;
    next := Took(Item(paramType, valBytes), idx - (start + 2));
  }

  method StartParserStep(mem: seq<Byte>, len: nat, start: nat, ghost table: seq<Next>) returns (next: Next)
    requires len <= |mem| && table == Rounds(mem, len, StartRules)
    ensures if start >= |table| then next == Stop(start, HeaderCut) else next == table[start]
  {
    next := StartParserRound(mem, len, start);
    if start + 4 <= len {
      RoundAt(mem, len, StartRules, start);
    }
  }

  function PayloadRules(known: bool): Rules {
    Rules(Big, true, known)
  }

  // The body of the guarded loops up to the value: length flag 2 is read big-endian and the value
  // must end two bytes before the end.
  method PayloadRound(data: seq<Byte>, start: nat, ghost known: bool) returns (next: Next)
    ensures if start + 4 > |data| then next == Stop(start, HeaderCut)
            else next == Round(data, |data|, start, PayloadRules(known))
  {
    var idx := start;
    if idx + 2 > |data| - 2 {
      return Stop(idx, HeaderCut);
    }
    var head16 := LE16(data[idx], data[idx + 1]);
    idx := idx + 2;
    var paramType, lenFlag := head16 / 4, head16 % 4;
    var dataLen := 4;
    if lenFlag == 1 {
      dataLen, idx := data[idx], idx + 1;
    } else if lenFlag == 2 {
      dataLen, idx := BE16(data[idx], data[idx + 1]), idx + 2;
    } else if lenFlag == 3 {
      if idx + 2 >= |data| {
        return Stop(idx, Panic);
      }
      dataLen, idx := BE24(data[idx], data[idx + 1], data[idx + 2]), idx + 3;
    }
    if idx + dataLen > |data| - 2 {
      return Stop(idx, ValueCut);
    }
    var valBytes := data[idx..idx + dataLen];
    idx := idx + dataLen;
    next := Took(Item(paramType, valBytes), idx - (start + 2));
  }

  method PayloadStep(data: seq<Byte>, start: nat, ghost known: bool, ghost table: seq<Next>) returns (next: Next)
    requires table == Rounds(data, |data|, PayloadRules(known))
    ensures if start >= |table| then next == Stop(start, HeaderCut) else next == table[start]
  {
    next := PayloadRound(data, start, known);
    if start + 4 <= |data| {
      RoundAt(data, |data|, PayloadRules(known), start);
    }
  }
}
