/** What the parameter codec guarantees, and what separates its three decoders. */
module TlvTheorems {
  import opened Bytes
  import opened Tlv

  // ---------------------------------------------------------------- an encoded entry

  // Length flag 2 reads the same in both byte orders.
  predicate Symmetric(e: Entry) {
    e.flag == 2 ==> |e.data| % 256 == |e.data| / 256
  }

  predicate ReadsRight(e: Entry, order: Order) {
    order == Little || Symmetric(e)
  }

  // The head, the length field and the value of a fitting entry.
  predicate Shape(bytes: seq<Byte>, e: Entry) {
    && e.flag < 4 && |bytes| == 2 + e.flag + |e.data| && bytes[2 + e.flag..] == e.data
    && LE16(bytes[0], bytes[1]) == 4 * e.paramType + e.flag
    && (e.flag == 0 ==> |e.data| == 4)
    && (e.flag == 1 ==> bytes[2] == |e.data|)
    && (e.flag == 2 ==> LE16(bytes[2], bytes[3]) == |e.data|)
    && (e.flag == 3 ==> BE24(bytes[2], bytes[3], bytes[4]) == |e.data|)
  }

  // The head and the length field in front of a value.
  lemma PartsShape(head: seq<Byte>, length: seq<Byte>, e: Entry)
    requires Fits(e) && |head| == 2 && LE16(head[0], head[1]) == 4 * e.paramType + e.flag
    requires length == LengthField(e.flag, |e.data|)
    ensures Shape(head + length + e.data, e)
  {
    var bytes := head + length + e.data;
    assert bytes[2 + e.flag..] == e.data;
    assert forall i :: 0 <= i < 2 ==> bytes[i] == head[i];
    assert forall i :: 0 <= i < e.flag ==> bytes[2 + i] == length[i];
    assert e.flag >= 1 ==> bytes[2 + 0] == length[0];
    assert e.flag >= 2 ==> bytes[2 + 1] == length[1];
    assert e.flag >= 3 ==> bytes[2 + 2] == length[2];
  }

  lemma HeaderIs(paramType: nat, flag: nat)
    requires paramType < 0x4000 && flag < 4
    ensures Header(paramType, flag) == 4 * paramType + flag
  {}

  lemma BodyIs(flag: nat, data: seq<Byte>)
    requires flag < 4 && (flag == 0 ==> |data| == 4)
    ensures Body(flag % 4, data) == LengthField(flag, |data|) + data
  {
    assert flag % 4 == flag;
  }

  lemma Regroup(a: seq<Byte>, b: seq<Byte>, c: seq<Byte>)
    ensures a + (b + c) == a + b + c
  {}

  lemma EntryShape(e: Entry)
    requires Fits(e)
    ensures Shape(EncodeEntry(e), e)
  {
    var head, length := LE16Bytes(Header(e.paramType, e.flag)), LengthField(e.flag, |e.data|);
    HeaderIs(e.paramType, e.flag);
    PartsShape(head, length, e);
    BodyIs(e.flag, e.data);
    Regroup(head, length, e.data);
  }

  /** What a fitting entry is: exactly one whose encoding shows its type, its flag, its length and its data. */
  lemma FitsIff(e: Entry)
    ensures Fits(e) <==> Shape(EncodeEntry(e), e)
  {
    if Fits(e) {
      EntryShape(e);
    }
  }

  // The bytes stand in mem at idx.
  predicate StandsAt(mem: seq<Byte>, idx: nat, bytes: seq<Byte>) {
    idx + |bytes| <= |mem| && mem[idx..idx + |bytes|] == bytes
  }

  // The bytes stand in mem at idx, as far as the slice of length len goes.
  predicate Agrees(mem: seq<Byte>, len: nat, idx: nat, bytes: seq<Byte>)
    requires len <= |mem|
  {
    forall i :: 0 <= i < |bytes| && idx + i < len ==> mem[idx + i] == bytes[i]
  }

  lemma StandsIndex(mem: seq<Byte>, idx: nat, bytes: seq<Byte>)
    requires StandsAt(mem, idx, bytes)
    ensures forall i :: 0 <= i < |bytes| ==> mem[idx + i] == bytes[i]
  {
    forall i | 0 <= i < |bytes|
      ensures mem[idx + i] == bytes[i]
    {
      assert mem[idx..idx + |bytes|][i] == bytes[i];
    }
  }

  lemma StandsAgrees(mem: seq<Byte>, len: nat, idx: nat, bytes: seq<Byte>)
    requires len <= |mem| && StandsAt(mem, idx, bytes)
    ensures Agrees(mem, len, idx, bytes)
  {
    StandsIndex(mem, idx, bytes);
  }

  lemma AgreesSplit(mem: seq<Byte>, len: nat, idx: nat, a: seq<Byte>, b: seq<Byte>)
    requires len <= |mem| && Agrees(mem, len, idx, a + b)
    ensures Agrees(mem, len, idx, a) && Agrees(mem, len, idx + |a|, b)
  {
    forall i | 0 <= i < |a| && idx + i < len
      ensures mem[idx + i] == a[i]
    {
      assert (a + b)[i] == a[i];
    }
    forall i | 0 <= i < |b| && idx + |a| + i < len
      ensures mem[idx + |a| + i] == b[i]
    {
      assert (a + b)[|a| + i] == b[i];
    }
  }

  lemma TailStands(mem: seq<Byte>, len: nat, idx: nat, bytes: seq<Byte>, from: nat)
    requires idx + |bytes| <= len <= |mem| && from <= |bytes| && Agrees(mem, len, idx, bytes)
    ensures mem[idx + from..idx + |bytes|] == bytes[from..]
  {
    forall i | from <= i < |bytes|
      ensures mem[idx + from..idx + |bytes|][i - from] == bytes[i]
    {
      assert mem[idx + i] == bytes[i];
    }
  }

  lemma HeadSplits(paramType: nat, flag: nat)
    requires flag < 4
    ensures (4 * paramType + flag) / 4 == paramType && (4 * paramType + flag) % 4 == flag
  {}

  // Flag 2 reads as the length that was written in one byte order, and in the other if its bytes are equal.
  lemma SwappedLength(a: Byte, b: Byte, n: nat)
    requires LE16(a, b) == n
    ensures BE16(a, b) == n <==> n % 256 == n / 256
  {}

  // What is read for the length of an entry whose value may be cut off.
  lemma LengthOfEntry(mem: seq<Byte>, len: nat, idx: nat, bytes: seq<Byte>, e: Entry, order: Order)
    requires idx + 4 <= len <= |mem| && Shape(bytes, e) && Agrees(mem, len, idx, bytes)
    ensures LE16(mem[idx], mem[idx + 1]) == 4 * e.paramType + e.flag
    ensures match ReadLength(mem, len, idx + 2, e.flag, order)
            case None => idx + |bytes| > len
            case Some((n, at)) => at == idx + 2 + e.flag && (n == |e.data| <==> ReadsRight(e, order))
  {
    assert mem[idx + 0] == bytes[0] && mem[idx + 1] == bytes[1];
    assert e.flag >= 1 && idx + 2 < len ==> mem[idx + 2] == bytes[2];
    assert e.flag >= 2 && idx + 3 < len ==> mem[idx + 3] == bytes[3];
    assert e.flag >= 3 && idx + 4 < len ==> mem[idx + 4] == bytes[4];
    if e.flag == 2 {
      SwappedLength(bytes[2], bytes[3], |e.data|);
    }
  }

  // One round at an encoded entry, whole or cut short: it takes the entry if the length reads right and the
  // entry ends two bytes before the end; a guarded loop stops where it does not; and a length that reads
  // wrong never gives a value of the entry's length.
  lemma RoundOfEntry(mem: seq<Byte>, len: nat, idx: nat, bytes: seq<Byte>, e: Entry, rules: Rules)
    requires idx + 4 <= len <= |mem| && Shape(bytes, e) && Agrees(mem, len, idx, bytes)
    ensures var next, end := Round(mem, len, idx, rules), idx + |bytes|;
            if !ReadsRight(e, rules.order) then next.Took? ==> |next.item.value| != |e.data|
            else
              && (end + 2 <= len ==> next == Took(Item(e.paramType, e.data), |bytes| - 2))
              && (end + 2 > len && rules.guarded ==> next.Stop? && (end <= len ==> next.ending == ValueCut))
  {
    LengthOfEntry(mem, len, idx, bytes, e, rules.order);
    HeadSplits(e.paramType, e.flag);
    if idx + |bytes| <= len {
      TailStands(mem, len, idx, bytes, 2 + e.flag);
    }
  }

  // ---------------------------------------------------------------- lists of entries

  // The lemmas on lists see a decoder only as a function of its index and of the count left, and an encoded
  // entry only as a part whose bytes it reads, right or wrong.
  type Decoder = (nat, nat) -> Parsed

  function DecoderOf(table: seq<Next>): Decoder {
    (at: nat, left: nat) => Loop(table, at, left, true)
  }

  function ItemOf(e: Entry): Item {
    Item(e.paramType, e.data)
  }

  predicate StartsWith(items: seq<Item>, item: Item) {
    items != [] && items[0] == item
  }

  predicate AllTrue(rights: seq<bool>) {
    rights == [] || (rights[0] && AllTrue(rights[1..]))
  }

  // Where a part stands, the decoder takes its item if it reads right and two more bytes fit behind it;
  // otherwise, unless it looks beyond the end, it takes nothing or another item.
  predicate ReadsAt(decode: Decoder, len: nat, at: nat, left: nat, part: seq<Byte>, item: Item, right: bool,
                    guarded: bool)
    requires left > 0
  {
    if right && at + |part| + 2 <= len then
      decode(at, left) == Prepend([item], decode(at + |part|, left - 1))
    else
      (guarded || at + |part| + 2 <= len) ==> !StartsWith(decode(at, left).items, item)
  }

  ghost predicate Reads(decode: Decoder, mem: seq<Byte>, len: nat, part: seq<Byte>, item: Item, right: bool,
                        guarded: bool)
    requires len <= |mem|
  {
    forall at: nat, left: nat :: left > 0 && Agrees(mem, len, at, part) ==>
      ReadsAt(decode, len, at, left, part, item, right, guarded)
  }

  ghost predicate AllRead(decode: Decoder, mem: seq<Byte>, len: nat, parts: seq<seq<Byte>>, items: seq<Item>,
                          rights: seq<bool>, guarded: bool)
    requires len <= |mem| && |parts| == |items| == |rights|
  {
    parts == []
    || (Reads(decode, mem, len, parts[0], items[0], rights[0], guarded)
        && AllRead(decode, mem, len, parts[1..], items[1..], rights[1..], guarded))
  }

  // Parts that all read right are taken, whatever comes behind them.
  lemma {:induction false} PartsTaken(decode: Decoder, mem: seq<Byte>, len: nat, idx: nat, parts: seq<seq<Byte>>,
                                      items: seq<Item>, rights: seq<bool>, more: nat, guarded: bool)
    requires len <= |mem| && |parts| == |items| == |rights| && AllTrue(rights)
    requires AllRead(decode, mem, len, parts, items, rights, guarded)
    requires Agrees(mem, len, idx, Concat(parts)) && idx + |Concat(parts)| + 2 <= len
    ensures decode(idx, |parts| + more) == Prepend(items, decode(idx + |Concat(parts)|, more))
    decreases |parts|
  {
    var rest := decode(idx + |Concat(parts)|, more);
    if parts == [] {
      PrependTwice([], [], rest);
    } else {
      AgreesSplit(mem, len, idx, parts[0], Concat(parts[1..]));
      assert ReadsAt(decode, len, idx, |parts| + more, parts[0], items[0], true, guarded);
      PartsTaken(decode, mem, len, idx + |parts[0]|, parts[1..], items[1..], rights[1..], more, guarded);
      PrependTwice([items[0]], items[1..], rest);
      assert [items[0]] + items[1..] == items;
    }
  }

  lemma PrefixBehind(item: Item, items: seq<Item>, p: Parsed)
    ensures [item] + items <= Prepend([item], p).items <==> items <= p.items
  {
    assert ([item] + items)[1..] == items && ([item] + p.items)[1..] == p.items;
    if items <= p.items {
      assert [item] + p.items == ([item] + items) + p.items[|items|..];
    }
  }

  // A list is read whole exactly if all its parts read right and two more bytes fit behind the last.
  lemma {:induction false} PartsReadIff(decode: Decoder, mem: seq<Byte>, len: nat, idx: nat, parts: seq<seq<Byte>>,
                                        items: seq<Item>, rights: seq<bool>, left: nat, guarded: bool)
    requires len <= |mem| && |parts| == |items| == |rights| <= left
    requires AllRead(decode, mem, len, parts, items, rights, guarded) && Agrees(mem, len, idx, Concat(parts))
    requires guarded || idx + |Concat(parts)| + 2 <= len
    ensures items <= decode(idx, left).items
            <==> parts == [] || (AllTrue(rights) && idx + |Concat(parts)| + 2 <= len)
    decreases |parts|
  {
    if parts != [] {
      AgreesSplit(mem, len, idx, parts[0], Concat(parts[1..]));
      assert ReadsAt(decode, len, idx, left, parts[0], items[0], rights[0], guarded);
      if rights[0] && idx + |parts[0]| + 2 <= len {
        PartsReadIff(decode, mem, len, idx + |parts[0]|, parts[1..], items[1..], rights[1..], left - 1, guarded);
        assert items == [items[0]] + items[1..];
        PrefixBehind(items[0], items[1..], decode(idx + |parts[0]|, left - 1));
      }
    }
  }

  lemma LoopTook(table: seq<Next>, idx: nat, left: nat, item: Item, size: nat)
    requires left > 0 && idx < |table| && size >= 2 && table[idx] == Took(item, size - 2)
    ensures Loop(table, idx, left, true) == Prepend([item], Loop(table, idx + size, left - 1, true))
  {}

  lemma FirstItem(table: seq<Next>, idx: nat, left: nat, item: Item)
    requires left > 0 && (idx < |table| && table[idx].Took? ==> table[idx].item != item)
    ensures !StartsWith(Loop(table, idx, left, true).items, item)
  {}

  lemma EntryReadsAt(mem: seq<Byte>, len: nat, at: nat, left: nat, bytes: seq<Byte>, e: Entry, rules: Rules)
    requires len <= |mem| && Shape(bytes, e) && left > 0 && Agrees(mem, len, at, bytes)
    ensures ReadsAt(DecoderOf(Rounds(mem, len, rules)), len, at, left, bytes, ItemOf(e),
                    ReadsRight(e, rules.order), rules.guarded)
  {
    var table := Rounds(mem, len, rules);
    if at + 4 <= len {
      RoundAt(mem, len, rules, at);
      RoundOfEntry(mem, len, at, bytes, e, rules);
    }
    if ReadsRight(e, rules.order) && at + |bytes| + 2 <= len {
      LoopTook(table, at, left, ItemOf(e), |bytes|);
    } else if rules.guarded || at + |bytes| + 2 <= len {
      FirstItem(table, at, left, ItemOf(e));
    }
  }

  lemma EntryReads(mem: seq<Byte>, len: nat, bytes: seq<Byte>, e: Entry, rules: Rules)
    requires len <= |mem| && Shape(bytes, e)
    ensures Reads(DecoderOf(Rounds(mem, len, rules)), mem, len, bytes, ItemOf(e), ReadsRight(e, rules.order),
                  rules.guarded)
  {
    var decode := DecoderOf(Rounds(mem, len, rules));
    forall at: nat, left: nat | left > 0 && Agrees(mem, len, at, bytes)
      ensures ReadsAt(decode, len, at, left, bytes, ItemOf(e), ReadsRight(e, rules.order), rules.guarded)
    {
      EntryReadsAt(mem, len, at, left, bytes, e, rules);
    }
  }

  function Rights(es: seq<Entry>, order: Order): (rights: seq<bool>)
    ensures |rights| == |es|
  {
    seq(|es|, i requires 0 <= i < |es| => ReadsRight(es[i], order))
  }

  lemma {:induction false} EntriesRead(mem: seq<Byte>, len: nat, es: seq<Entry>, rules: Rules, decode: Decoder)
    requires len <= |mem| && AllFit(es) && decode == DecoderOf(Rounds(mem, len, rules))
    ensures AllRead(decode, mem, len, Encodings(es), ItemsOf(es), Rights(es, rules.order), rules.guarded)
    decreases |es|
  {
    if es != [] {
      assert es[0] in es;
      EntryShape(es[0]);
      EntryReads(mem, len, EncodeEntry(es[0]), es[0], rules);
      EntriesRead(mem, len, es[1..], rules, decode);
      assert Encodings(es)[1..] == Encodings(es[1..]) && ItemsOf(es)[1..] == ItemsOf(es[1..]);
      assert Rights(es, rules.order)[1..] == Rights(es[1..], rules.order);
    }
  }

  ghost predicate AllReadRight(es: seq<Entry>, order: Order) {
    forall e :: e in es ==> ReadsRight(e, order)
  }

  lemma {:induction false} AllRights(es: seq<Entry>, order: Order)
    ensures AllTrue(Rights(es, order)) <==> AllReadRight(es, order)
    decreases |es|
  {
    if es != [] {
      AllRights(es[1..], order);
      assert Rights(es, order)[1..] == Rights(es[1..], order);
      assert es == [es[0]] + es[1..];
    }
  }

  // A list whose entries all read right is taken, whatever the count and whatever comes behind it.
  lemma ListTaken(mem: seq<Byte>, len: nat, idx: nat, es: seq<Entry>, more: nat, rules: Rules)
    requires len <= |mem| && AllFit(es) && rules.known && AllReadRight(es, rules.order)
    requires Agrees(mem, len, idx, EncodeAll(es)) && idx + |EncodeAll(es)| + 2 <= len
    ensures Walk(mem, len, idx, |es| + more, rules)
         == Prepend(ItemsOf(es), Walk(mem, len, idx + |EncodeAll(es)|, more, rules))
  {
    var decode := DecoderOf(Rounds(mem, len, rules));
    EntriesRead(mem, len, es, rules, decode);
    AllRights(es, rules.order);
    PartsTaken(decode, mem, len, idx, Encodings(es), ItemsOf(es), Rights(es, rules.order), more, rules.guarded);
  }

  lemma NothingLeft(mem: seq<Byte>, len: nat, idx: nat, rules: Rules)
    requires len <= |mem|
    ensures Walk(mem, len, idx, 0, rules) == Parsed([], idx, Counted)
  {}

  lemma {:induction false} NotMoreThanCounted(table: seq<Next>, idx: nat, left: nat)
    ensures |Loop(table, idx, left, true).items| <= left
    decreases |table| - idx
  {
    if left > 0 && idx < |table| && table[idx].Took? {
      NotMoreThanCounted(table, idx + 2 + table[idx].used, left - 1);
    }
  }

  /** Round trip: wherever the encoded list stands in a slice, and whatever is around it, the
      little-endian decoder returns exactly that list, without a panic, if at least two more bytes,
      such as a CRC, follow. */
  lemma RoundTrip(mem: seq<Byte>, len: nat, idx: nat, es: seq<Entry>, guarded: bool)
    requires len <= |mem| && AllFit(es)
    requires StandsAt(mem, idx, EncodeAll(es)) && idx + |EncodeAll(es)| + 2 <= len
    ensures Walk(mem, len, idx, |es|, Rules(Little, guarded, true))
         == Parsed(ItemsOf(es), idx + |EncodeAll(es)|, Counted)
  {
    StandsAgrees(mem, len, idx, EncodeAll(es));
    ListTaken(mem, len, idx, es, 0, Rules(Little, guarded, true));
    NothingLeft(mem, len, idx + |EncodeAll(es)|, Rules(Little, guarded, true));
    assert ItemsOf(es) + [] == ItemsOf(es);
  }

  // Whether the items of a list come first in what a loop returns, if it is guarded or the list fits.
  lemma ListFirstIff(mem: seq<Byte>, len: nat, idx: nat, es: seq<Entry>, left: nat, rules: Rules)
    requires len <= |mem| && AllFit(es) && rules.known && left >= |es| && Agrees(mem, len, idx, EncodeAll(es))
    requires rules.guarded || idx + |EncodeAll(es)| + 2 <= len
    ensures ItemsOf(es) <= Walk(mem, len, idx, left, rules).items
            <==> es == [] || (AllReadRight(es, rules.order) && idx + |EncodeAll(es)| + 2 <= len)
  {
    var decode := DecoderOf(Rounds(mem, len, rules));
    EntriesRead(mem, len, es, rules, decode);
    AllRights(es, rules.order);
    PartsReadIff(decode, mem, len, idx, Encodings(es), ItemsOf(es), Rights(es, rules.order), left, rules.guarded);
  }

  /** When a loop returns an encoded list whole, wherever it stands and however much of it the slice holds: if
      and only if every flag-2 length reads right in its byte order and the two bytes that the guarded loops
      keep back follow. */
  lemma ListReadIff(mem: seq<Byte>, len: nat, idx: nat, es: seq<Entry>, rules: Rules)
    requires len <= |mem| && AllFit(es) && rules.known && Agrees(mem, len, idx, EncodeAll(es))
    requires rules.guarded || idx + |EncodeAll(es)| + 2 <= len
    ensures Walk(mem, len, idx, |es|, rules).items == ItemsOf(es)
            <==> es == [] || (AllReadRight(es, rules.order) && idx + |EncodeAll(es)| + 2 <= len)
  {
    ListFirstIff(mem, len, idx, es, |es|, rules);
    NotMoreThanCounted(Rounds(mem, len, rules), idx, |es|);
  }

  /** The loops that read flag 2 big-endian return an encoded list if and only if every flag-2 length
      in it has two equal bytes. */
  lemma BigEndianRoundTripIff(mem: seq<Byte>, len: nat, idx: nat, es: seq<Entry>, guarded: bool)
    requires len <= |mem| && AllFit(es)
    requires StandsAt(mem, idx, EncodeAll(es)) && idx + |EncodeAll(es)| + 2 <= len
    ensures Walk(mem, len, idx, |es|, Rules(Big, guarded, true)).items == ItemsOf(es)
            <==> forall e :: e in es ==> Symmetric(e)
  {
    StandsAgrees(mem, len, idx, EncodeAll(es));
    ListReadIff(mem, len, idx, es, Rules(Big, guarded, true));
  }

  /** Whatever its lengths and the byte order, a list without a trailer is never returned whole. */
  lemma NeverWholeWithoutTrailer(mem: seq<Byte>, idx: nat, es: seq<Entry>, count: nat, order: Order)
    requires AllFit(es) && es != [] && count >= |es|
    requires StandsAt(mem, idx, EncodeAll(es)) && |mem| < idx + |EncodeAll(es)| + 2
    ensures !(ItemsOf(es) <= Walk(mem, |mem|, idx, count, Rules(order, true, true)).items)
  {
    StandsAgrees(mem, |mem|, idx, EncodeAll(es));
    ListFirstIff(mem, |mem|, idx, es, count, Rules(order, true, true));
  }

  // ---------------------------------------------------------------- a list without its trailer

  lemma {:induction false} ConcatAppend(a: seq<seq<Byte>>, b: seq<seq<Byte>>)
    ensures Concat(a + b) == Concat(a) + Concat(b)
    decreases |a|
  {
    if a == [] {
      assert a + b == b;
    } else {
      assert (a + b)[1..] == a[1..] + b;
      ConcatAppend(a[1..], b);
    }
  }

  lemma ConcatJoins(a: seq<seq<Byte>>, last: seq<Byte>)
    ensures Concat(a + [last]) == Concat(a) + last
  {
    ConcatAppend(a, [last]);
    assert Concat([last]) == last + Concat([]);
  }

  lemma EncodeAllJoins(es: seq<Entry>, last: Entry)
    ensures EncodeAll(es + [last]) == EncodeAll(es) + EncodeEntry(last)
  {
    assert Encodings(es + [last]) == Encodings(es) + [EncodeEntry(last)];
    ConcatJoins(Encodings(es), EncodeEntry(last));
  }

  lemma LoopCut(table: seq<Next>, at: nat, left: nat)
    requires left > 0 && (at < |table| ==> table[at].Stop? && table[at].ending == ValueCut)
    ensures var p := Loop(table, at, left, true);
            p.items == [] && p.ending in {HeaderCut, ValueCut}
  {}

  // A whole entry at the very end of the slice.
  lemma LastLost(mem: seq<Byte>, at: nat, bytes: seq<Byte>, last: Entry, left: nat, rules: Rules)
    requires Shape(bytes, last) && ReadsRight(last, rules.order) && rules.guarded && rules.known && left > 0
    requires Agrees(mem, |mem|, at, bytes) && |mem| == at + |bytes|
    ensures var p := Walk(mem, |mem|, at, left, rules);
            p.items == [] && p.ending in {HeaderCut, ValueCut}
  {
    if at + 4 <= |mem| {
      RoundOfEntry(mem, |mem|, at, bytes, last, rules);
      RoundAt(mem, |mem|, rules, at);
    }
    LoopCut(Rounds(mem, |mem|, rules), at, left);
  }

  /** The guarded loops keep two bytes back for a CRC.  Where the CRC has already been cut off, as on
      the control path, they lose the last entry of every list, and only that one. */
  lemma WithoutTrailerTheLastIsLost(mem: seq<Byte>, idx: nat, es: seq<Entry>, last: Entry, count: nat, order: Order)
    requires AllFit(es) && Fits(last) && count > |es|
    requires AllReadRight(es, order) && ReadsRight(last, order)
    requires StandsAt(mem, idx, EncodeAll(es + [last])) && |mem| == idx + |EncodeAll(es + [last])|
    ensures var p := Walk(mem, |mem|, idx, count, Rules(order, true, true));
            p.items == ItemsOf(es) && p.ending in {HeaderCut, ValueCut}
  {
    var rules, left := Rules(order, true, true), count - |es|;
    EncodeAllJoins(es, last);
    StandsAgrees(mem, |mem|, idx, EncodeAll(es + [last]));
    AgreesSplit(mem, |mem|, idx, EncodeAll(es), EncodeEntry(last));
    EntryShape(last);
    ListTaken(mem, |mem|, idx, es, left, rules);
    LastLost(mem, idx + |EncodeAll(es)|, EncodeEntry(last), last, left, rules);
  }

  // ---------------------------------------------------------------- unique decoding

  ghost predicate AllShaped(parts: seq<seq<Byte>>, es: seq<Entry>)
    requires |parts| == |es|
  {
    parts == [] || (Shape(parts[0], es[0]) && AllShaped(parts[1..], es[1..]))
  }

  lemma SameFirst(p: seq<Byte>, a: Entry, q: seq<Byte>, b: Entry, rest1: seq<Byte>, rest2: seq<Byte>)
    requires Shape(p, a) && Shape(q, b) && p + rest1 == q + rest2
    ensures a == b && rest1 == rest2
  {
    var all := p + rest1;
    assert forall i :: 0 <= i < |p| ==> p[i] == all[i];
    assert forall i :: 0 <= i < |q| ==> q[i] == all[i];
    assert p == all[..|p|] && q == all[..|q|] && rest1 == all[|p|..] && rest2 == all[|q|..];
  }

  lemma {:induction false} SameEntries(ps: seq<seq<Byte>>, es1: seq<Entry>, qs: seq<seq<Byte>>, es2: seq<Entry>)
    requires |ps| == |es1| && |qs| == |es2| && AllShaped(ps, es1) && AllShaped(qs, es2)
    requires Concat(ps) == Concat(qs)
    ensures es1 == es2
    decreases |ps|
  {
    if ps != [] && qs != [] {
      SameFirst(ps[0], es1[0], qs[0], es2[0], Concat(ps[1..]), Concat(qs[1..]));
      SameEntries(ps[1..], es1[1..], qs[1..], es2[1..]);
      assert es1 == [es1[0]] + es1[1..] && es2 == [es2[0]] + es2[1..];
    }
  }

  lemma {:induction false} EncodingsShaped(es: seq<Entry>)
    requires AllFit(es)
    ensures AllShaped(Encodings(es), es)
    decreases |es|
  {
    if es != [] {
      EntryShape(es[0]);
      EncodingsShaped(es[1..]);
      assert Encodings(es)[1..] == Encodings(es[1..]);
    }
  }

  /** The concatenated encoding is uniquely decodable: one byte string comes from one list. */
  lemma UniquelyDecodable(es1: seq<Entry>, es2: seq<Entry>)
    requires AllFit(es1) && AllFit(es2) && EncodeAll(es1) == EncodeAll(es2)
    ensures es1 == es2
  {
    EncodingsShaped(es1);
    EncodingsShaped(es2);
    SameEntries(Encodings(es1), es1, Encodings(es2), es2);
  }

  // ---------------------------------------------------------------- termination and panics

  /** An unknown sensor, whose rounds are not counted, yields nothing, and its loop ends without
      reaching its count, on every payload. */
  lemma UnknownSensorYieldsNothing(mem: seq<Byte>, len: nat, idx: nat, left: nat, rules: Rules)
    requires len <= |mem| && left > 0 && !rules.known
    ensures var p := Walk(mem, len, idx, left, rules);
            p.items == [] && p.ending != Counted
  {
    var table := Rounds(mem, len, rules);
    forall i | 0 <= i < |table|
      ensures table[i].Stop? ==> table[i].ending != Counted
    {
      RoundAt(mem, len, rules, i);
    }
    LoopYieldsNothing(table, idx, left);
  }

  lemma {:induction false} LoopYieldsNothing(table: seq<Next>, idx: nat, left: nat)
    requires left > 0 && forall i :: 0 <= i < |table| && table[i].Stop? ==> table[i].ending != Counted
    ensures var p := Loop(table, idx, left, false);
            p.items == [] && p.ending != Counted
    decreases |table| - idx
  {
    if idx < |table| && table[idx].Took? {
      LoopYieldsNothing(table, idx + 2 + table[idx].used, left);
    }
  }

  // The header positions at which a loop reads.
  function Visits(table: seq<Next>, idx: nat, left: nat, known: bool): set<nat>
    decreases |table| - idx
  {
    if left == 0 || idx >= |table| then {}
    else
      match table[idx]
      case Stop(_, _) => {idx}
      case Took(_, used) => {idx} + Visits(table, idx + 2 + used, if known then left - 1 else left, known)
  }

  predicate FlagThreeAtEnd(mem: seq<Byte>, len: nat) {
    4 <= len <= |mem| && LE16(mem[len - 4], mem[len - 3]) % 4 == 3
  }

  predicate Panics(next: Next) {
    next.Stop? && next.ending == Panic
  }

  lemma GuardedRoundPanics(mem: seq<Byte>, len: nat, idx: nat, rules: Rules)
    requires idx + 4 <= len <= |mem| && rules.guarded
    ensures Panics(Round(mem, len, idx, rules)) <==> idx == len - 4 && FlagThreeAtEnd(mem, len)
  {}

  lemma {:induction false} PanicVisited(table: seq<Next>, idx: nat, left: nat, known: bool, bad: bool)
    requires forall i :: 0 <= i < |table| ==> (Panics(table[i]) <==> i == |table| - 1 && bad)
    ensures Loop(table, idx, left, known).ending == Panic
            <==> bad && |table| > 0 && |table| - 1 in Visits(table, idx, left, known)
    ensures forall v :: v in Visits(table, idx, left, known) ==> v >= idx
    decreases |table| - idx
  {
    if left > 0 && idx < |table| && table[idx].Took? {
      PanicVisited(table, idx + 2 + table[idx].used, if known then left - 1 else left, known, bad);
    }
  }

  /** The exact panic of the guarded loops, for every payload and count: the loop comes to a header
      four bytes before the end whose flag is 3, so its length field has two bytes left for three. */
  lemma GuardedPanicIff(mem: seq<Byte>, len: nat, idx: nat, left: nat, rules: Rules)
    requires len <= |mem| && rules.guarded
    ensures Walk(mem, len, idx, left, rules).ending == Panic
            <==> FlagThreeAtEnd(mem, len) && len - 4 in Visits(Rounds(mem, len, rules), idx, left, rules.known)
  {
    var table := Rounds(mem, len, rules);
    forall i | 0 <= i < |table|
      ensures Panics(table[i]) <==> i == |table| - 1 && FlagThreeAtEnd(mem, len)
    {
      RoundAt(mem, len, rules, i);
      GuardedRoundPanics(mem, len, i, rules);
    }
    PanicVisited(table, idx, left, rules.known, FlagThreeAtEnd(mem, len));
  }

  // The header at idx promises a length field or a value that the slice's array does not have.
  predicate Overruns(mem: seq<Byte>, len: nat, idx: nat)
    requires idx + 4 <= len <= |mem|
  {
    var flag := LE16(mem[idx], mem[idx + 1]) % 4;
    match ReadLength(mem, len, idx + 2, flag, Little)
    case None => true
    case Some((n, at)) => at + n > |mem|
  }

  lemma OverrunsAre(mem: seq<Byte>, len: nat, idx: nat)
    requires idx + 4 <= len <= |mem|
    ensures Panics(Round(mem, len, idx, StartRules)) <==> Overruns(mem, len, idx)
    ensures FlagThreeAtEnd(mem, len) && idx == len - 4 ==> Overruns(mem, len, idx)
  {}

  lemma {:induction false} PanicsIffVisited(table: seq<Next>, idx: nat, left: nat)
    ensures Loop(table, idx, left, true).ending == Panic
            <==> exists v :: v in Visits(table, idx, left, true) && v < |table| && Panics(table[v])
    ensures forall v :: v in Visits(table, idx, left, true) ==> v >= idx
    decreases |table| - idx
  {
    if left > 0 && idx < |table| {
      match table[idx]
      case Stop(_, _) =>
        assert idx in Visits(table, idx, left, true);
      case Took(_, used) =>
        PanicsIffVisited(table, idx + 2 + used, left - 1);
        assert Visits(table, idx, left, true) == {idx} + Visits(table, idx + 2 + used, left - 1, true);
    }
  }

  /** The exact panic of StartParser's loop, which checks no value: it comes to a header whose length
      field or value ends behind the array, as opposed to behind the frame. */
  lemma StartPanicIff(mem: seq<Byte>, len: nat, idx: nat, left: nat)
    requires len <= |mem|
    ensures Walk(mem, len, idx, left, StartRules).ending == Panic
            <==> exists v :: v in Visits(Rounds(mem, len, StartRules), idx, left, true)
                             && v + 4 <= len && Overruns(mem, len, v)
  {
    var table := Rounds(mem, len, StartRules);
    forall v: nat | v < |table|
      ensures Panics(table[v]) <==> Overruns(mem, len, v)
    {
      RoundAt(mem, len, StartRules, v);
      OverrunsAre(mem, len, v);
    }
    PanicsIffVisited(table, idx, left);
    if v :| v in Visits(table, idx, left, true) && v + 4 <= len && Overruns(mem, len, v) {
      assert v < |table| && Panics(table[v]);
    }
  }

  // ---------------------------------------------------------------- three loops, one meaning

  // The entry at idx means the same to all loops: a flag-2 length has equal bytes, and the value ends
  // two bytes before the end.
  predicate PlainAt(mem: seq<Byte>, len: nat, idx: nat) {
    idx + 4 <= len <= |mem| ==>
      var flag := LE16(mem[idx], mem[idx + 1]) % 4;
      && (flag == 2 ==> mem[idx + 2] == mem[idx + 3])
      && (match ReadLength(mem, len, idx + 2, flag, Little)
          case None => true
          case Some((n, at)) => at + n + 2 <= len)
  }

  // Every header that the little-endian loop visits is plain.
  predicate Plain(mem: seq<Byte>, len: nat, idx: nat, left: nat)
    requires len <= |mem|
  {
    forall v :: v in Visits(Rounds(mem, len, StartRules), idx, left, true) ==> PlainAt(mem, len, v)
  }

  lemma RoundsAgreeIff(mem: seq<Byte>, len: nat, idx: nat)
    requires idx + 4 <= len <= |mem|
    ensures PlainAt(mem, len, idx) <==>
              Round(mem, len, idx, StartRules) == Round(mem, len, idx, PayloadRules(true))
    ensures PlainAt(mem, len, idx)
            || RoundsApart(Round(mem, len, idx, StartRules), Round(mem, len, idx, PayloadRules(true)))
  {
    var flag := LE16(mem[idx], mem[idx + 1]) % 4;
    if flag == 2 {
      SwapDiffers(mem[idx + 2], mem[idx + 3]);
    }
  }

  lemma SwapDiffers(a: Byte, b: Byte)
    ensures LE16(a, b) == BE16(a, b) <==> a == b
  {}

  // Rounds that cannot lead to one result.
  predicate RoundsApart(a: Next, b: Next) {
    a != b && (a.Took? && b.Took? ==> |a.item.value| != |b.item.value|)
  }

  lemma {:induction false} LoopsAgreeIff(t1: seq<Next>, t2: seq<Next>, idx: nat, left: nat)
    requires |t1| == |t2| && forall i :: 0 <= i < |t1| ==> t1[i] == t2[i] || RoundsApart(t1[i], t2[i])
    requires forall i :: 0 <= i < |t1| && t1[i].Stop? ==> t1[i].ending != Counted
    ensures forall v :: v in Visits(t1, idx, left, true) ==> v < |t1|
    ensures Loop(t1, idx, left, true) == Loop(t2, idx, left, true)
            <==> forall v :: v in Visits(t1, idx, left, true) ==> t1[v] == t2[v]
    decreases |t1| - idx
  {
    if left > 0 && idx < |t1| {
      var a, b := t1[idx], t2[idx];
      assert idx in Visits(t1, idx, left, true);
      if a == b && a.Took? {
        var at := idx + 2 + a.used;
        LoopsAgreeIff(t1, t2, at, left - 1);
        SameRest(a.item, Loop(t1, at, left - 1, true), Loop(t2, at, left - 1, true));
        assert Visits(t1, idx, left, true) == {idx} + Visits(t1, at, left - 1, true);
      } else if a.Took? {
        VisitsBelow(t1, idx + 2 + a.used, left - 1, true);
        if b.Took? {
          assert Loop(t1, idx, left, true).items[0] == a.item;
          assert Loop(t2, idx, left, true).items[0] == b.item;
        }
      }
    }
  }

  lemma {:induction false} VisitsBelow(table: seq<Next>, idx: nat, left: nat, known: bool)
    ensures forall v :: v in Visits(table, idx, left, known) ==> v < |table|
    decreases |table| - idx
  {
    if left > 0 && idx < |table| && table[idx].Took? {
      VisitsBelow(table, idx + 2 + table[idx].used, if known then left - 1 else left, known);
    }
  }

  lemma SameRest(item: Item, p: Parsed, q: Parsed)
    ensures Prepend([item], p) == Prepend([item], q) <==> p == q
  {
    assert ([item] + p.items)[1..] == p.items && ([item] + q.items)[1..] == q.items;
  }

  /** The little-endian unguarded loop and the big-endian guarded ones give the same result, items,
      stopping point and ending, if and only if every entry on the way is plain. */
  lemma ThreeLoopsAgreeIff(mem: seq<Byte>, len: nat, idx: nat, left: nat)
    requires len <= |mem|
    ensures Walk(mem, len, idx, left, StartRules) == Walk(mem, len, idx, left, PayloadRules(true))
            <==> Plain(mem, len, idx, left)
  {
    var t1, t2 := Rounds(mem, len, StartRules), Rounds(mem, len, PayloadRules(true));
    forall i | 0 <= i < |t1|
      ensures t1[i] == t2[i] || RoundsApart(t1[i], t2[i])
      ensures t1[i] == t2[i] <==> PlainAt(mem, len, i)
      ensures t1[i].Stop? ==> t1[i].ending != Counted
    {
      RoundsApartAt(mem, len, i);
    }
    LoopsAgreeIff(t1, t2, idx, left);
  }

  lemma RoundsApartAt(mem: seq<Byte>, len: nat, i: nat)
    requires i + 4 <= len <= |mem|
    ensures var a, b := Rounds(mem, len, StartRules)[i], Rounds(mem, len, PayloadRules(true))[i];
            && (a == b || RoundsApart(a, b)) && (a == b <==> PlainAt(mem, len, i))
            && (a.Stop? ==> a.ending != Counted)
  {
    RoundAt(mem, len, StartRules, i);
    RoundAt(mem, len, PayloadRules(true), i);
    RoundsAgreeIff(mem, len, i);
  }
}
