/** The topology parser (parseTopo in param_table_parser_data.go): a scan for the first node, nodes of
    17 bytes, and an optional '$' behind each. */
module Topology {
  import opened Bytes

  // What a node holds on the wire, and as the strings of NodeTopology.
  datatype RawNode = Raw(eid: seq<Byte>, state: Byte, kind: Byte, parent: seq<Byte>)

  type WireNode = r: RawNode | |r.eid| == 6 && |r.parent| == 6
    witness Raw([0, 0, 0, 0, 0, 0], 0, 0, [0, 0, 0, 0, 0, 0])

  datatype Node = Node(eid: string, state: string, kind: string, parent: string)

  datatype Error = NoStart | MissingParent

  datatype Result = Ok(nodes: seq<Node>) | Err(error: Error)

  const COMMA: Byte := 0x2C
  const DOLLAR: Byte := 0x24

  // ---------------------------------------------------------------- rendering

  function Digit(v: nat): char
    requires v < 16
  {
    "0123456789ABCDEF"[v]
  }

  // Two upper-case hexadecimal digits a byte.
  function Hex(b: seq<Byte>): (s: string)
    ensures |s| == 2 * |b|
  {
    if b == [] then "" else [Digit(b[0] / 16), Digit(b[0] % 16)] + Hex(b[1..])
  }

  // strconv.Itoa of a byte.
  function Decimal(n: nat): string
    decreases n
  {
    if n < 10 then [Digit(n)] else Decimal(n / 10) + [Digit(n % 10)]
  }

  function Render(r: WireNode): Node {
    Node(Hex(r.eid), Decimal(r.state), Decimal(r.kind), Hex(r.parent))
  }

  // ---------------------------------------------------------------- parsing

  // The lookahead: three commas, and 16 bytes where a node has 17.
  predicate LooksLikeNode(rest: seq<Byte>) {
    |rest| >= 16 && rest[6] == COMMA && rest[8] == COMMA && rest[10] == COMMA
  }

  function RawAt(rest: seq<Byte>): WireNode
    requires |rest| >= 17
  {
    Raw(rest[..6], rest[7], rest[9], rest[11..17])
  }

  // What follows a node, behind its optional separator.
  function Behind(rest: seq<Byte>): seq<Byte>
    requires |rest| >= 17
  {
    if |rest| > 17 && rest[17] == DOLLAR then rest[18..] else rest[17..]
  }

  // The main loop from a given point on.
  function Nodes(rest: seq<Byte>): Result
    decreases |rest|
  {
    if !LooksLikeNode(rest) then Ok([])
    else if |rest| < 17 then Err(MissingParent)
    else
      match Nodes(Behind(rest))
      case Ok(nodes) => Ok([Render(RawAt(rest))] + nodes)
      case Err(e) => Err(e)
  }

  // The least index of a match, or the length.
  function FirstMatch(data: seq<Byte>, i: nat): (k: nat)
    requires i <= |data|
    ensures i <= k <= |data|
    ensures forall j :: i <= j < k ==> !LooksLikeNode(data[j..])
    ensures k < |data| ==> LooksLikeNode(data[k..])
    decreases |data| - i
  {
    if i < |data| && !LooksLikeNode(data[i..]) then FirstMatch(data, i + 1) else i
  }

  function Parse(data: seq<Byte>): Result {
    var i := FirstMatch(data, 0);
    if i >= |data| then Err(NoStart) else Nodes(data[i..])
  }

  /** The shared list that parseTopo replaces when it succeeds. */
  class TopoStore {
    var topoList: seq<Node>

    method ParseTopo(data: seq<Byte>) returns (r: Result)
      modifies this
      ensures r == Parse(data)
      ensures topoList == if r.Ok? then r.nodes else old(topoList)
    {
      r := ParseNodes(data);
      if r.Ok? {
        topoList := r.nodes;
      }
    }
  }

  // The lookahead by index, as the source has it.
  method LooksLikeAt(data: seq<Byte>, i: nat) returns (b: bool)
    requires i <= |data|
    ensures b <==> LooksLikeNode(data[i..])
  {
    if i + 16 > |data| {
      return false;
    }
    b := data[i + 6] == 0x2C && data[i + 8] == 0x2C && data[i + 10] == 0x2C;
  }

  /** The two loops of parseTopo over an index.  The checks of the single commas and bytes that the
      lookahead has already made are not repeated. */
  method ParseNodes(data: seq<Byte>) returns (r: Result)
    ensures r == Parse(data)
  {
    var n, i := |data|, 0;
    var found := LooksLikeAt(data, 0);
    while i < n && !found
      invariant 0 <= i <= n && (found <==> LooksLikeNode(data[i..]))
      invariant FirstMatch(data, 0) == FirstMatch(data, i)
    {
      i := i + 1;
      found := LooksLikeAt(data, i);
    }
    if i >= n {
      return Err(NoStart);
    }
    r := NodesFrom(data, i);
  }

  method NodesFrom(data: seq<Byte>, start: nat) returns (r: Result)
    requires start <= |data|
    ensures r == Nodes(data[start..])
  {
    var n, i := |data|, start;
    var topoList: seq<Node> := [];
    ghost var whole := Nodes(data[start..]);
    AfterNone(whole);
    var more := LooksLikeAt(data, i);
    while i < n && more
      invariant start <= i <= n && (more <==> LooksLikeNode(data[i..]))
      invariant whole == After(topoList, Nodes(data[i..]))
      decreases n - i
    {
      if i + 11 + 6 > n {
        return Err(MissingParent);
      }
      NodeStep(data, i);
      var node := NodeAt(data, i);
      ghost var j := NextStart(data, i);
      AfterOne(topoList, node, Nodes(data[j..]));
      topoList := topoList + [node];
      i := i + 17;
      if i < n && data[i] == 0x24 {
        i := i + 1;
      }
      more := LooksLikeAt(data, i);
    }
    AfterNone(Ok(topoList));
    r := Ok(topoList);
  }

  method NodeAt(data: seq<Byte>, i: nat) returns (node: Node)
    requires i + 17 <= |data|
    ensures node == Render(Raw(data[i..i + 6], data[i + 7], data[i + 9], data[i + 11..i + 17]))
  {
    var eid, stateByte, typeByte, parent := data[i..i + 6], data[i + 7], data[i + 9], data[i + 11..i + 17];
    var eidText := ToHex12(eid);
    var parentText := ToHex12(parent);
    node := Node(eidText, Decimal(stateByte), Decimal(typeByte), parentText);
  }

  // toHex12, filling its twelve characters in place.
  method ToHex12(b: seq<Byte>) returns (s: string)
    requires |b| == 6
    ensures s == Hex(b)
  {
    var dst := new char[12];
    for j := 0 to 6
      invariant dst[..2 * j] == Hex(b[..j])
    {
      var v := b[j];
      HexSnoc(b[..j], v);
      assert b[..j + 1] == b[..j] + [v];
      dst[2 * j] := Digit(v / 16);
      dst[2 * j + 1] := Digit(v % 16);
      assert dst[..2 * (j + 1)] == dst[..2 * j] + [Digit(v / 16), Digit(v % 16)];
    }
    assert b[..6] == b && dst[..12] == dst[..];
    s := dst[..];
  }

  lemma {:induction false} HexSnoc(b: seq<Byte>, v: Byte)
    ensures Hex(b + [v]) == Hex(b) + [Digit(v / 16), Digit(v % 16)]
    decreases |b|
  {
    if b == [] {
      assert [v][1..] == [];
    } else {
      assert (b + [v])[1..] == b[1..] + [v];
      HexSnoc(b[1..], v);
    }
  }

  function NextStart(data: seq<Byte>, i: nat): (j: nat)
    requires i + 17 <= |data|
    ensures j <= |data|
  {
    if i + 17 < |data| && data[i + 17] == DOLLAR then i + 18 else i + 17
  }

  // One round of the main loop, by index.
  lemma NodeStep(data: seq<Byte>, i: nat)
    requires i + 17 <= |data| && LooksLikeNode(data[i..])
    ensures RawAt(data[i..]) == Raw(data[i..i + 6], data[i + 7], data[i + 9], data[i + 11..i + 17])
    ensures Behind(data[i..]) == data[NextStart(data, i)..]
    ensures Nodes(data[i..]) == After([Render(RawAt(data[i..]))], Nodes(data[NextStart(data, i)..]))
  {
    var rest := data[i..];
    assert rest[..6] == data[i..i + 6] && rest[11..17] == data[i + 11..i + 17];
    assert rest[17..] == data[i + 17..];
    if i + 17 < |data| {
      assert rest[18..] == data[i + 18..];
    }
  }

  function After(nodes: seq<Node>, r: Result): Result {
    match r
    case Ok(more) => Ok(nodes + more)
    case Err(e) => Err(e)
  }

  lemma AfterNone(r: Result)
    ensures After([], r) == r
    ensures r.Ok? ==> After(r.nodes, Ok([])) == r
  {
    if r.Ok? {
      assert [] + r.nodes == r.nodes && r.nodes + [] == r.nodes;
    }
  }

  lemma AfterOne(nodes: seq<Node>, node: Node, r: Result)
    ensures After(nodes, After([node], r)) == After(nodes + [node], r)
  {
    if r.Ok? {
      assert nodes + ([node] + r.nodes) == (nodes + [node]) + r.nodes;
    }
  }

  // ---------------------------------------------------------------- reading the strings back

  predicate IsDecimalDigit(c: char) {
    '0' <= c <= '9'
  }

  predicate IsHexDigit(c: char) {
    '0' <= c <= '9' || 'A' <= c <= 'F'
  }

  function DigitValue(c: char): (v: nat)
    ensures v < 16
  {
    if '0' <= c <= '9' then (c as int) - ('0' as int)
    else if 'A' <= c <= 'F' then 10 + (c as int) - ('A' as int)
    else 0
  }

  function ByteOf(high: char, low: char): Byte {
    16 * DigitValue(high) + DigitValue(low)
  }

  // The bytes that a string of hexadecimal digits shows.
  function Unhex(s: string): seq<Byte> {
    if |s| < 2 then [] else [ByteOf(s[0], s[1])] + Unhex(s[2..])
  }

  // The number that a string of decimal digits shows.
  function ValueOf(s: string): nat {
    if s == "" then 0 else 10 * ValueOf(s[..|s| - 1]) + DigitValue(s[|s| - 1])
  }

  // The strings show the bytes of the node.
  predicate Shows(n: Node, r: WireNode) {
    && Unhex(n.eid) == r.eid && Unhex(n.parent) == r.parent
    && ValueOf(n.state) == r.state && ValueOf(n.kind) == r.kind
  }

  // Twelve upper-case hexadecimal digits an EID, decimal numbers without leading zeros.
  predicate IsHex12(s: string) {
    |s| == 12 && forall c :: c in s ==> IsHexDigit(c)
  }

  predicate IsNumeral(s: string) {
    s != "" && (|s| > 1 ==> s[0] != '0') && forall c :: c in s ==> IsDecimalDigit(c)
  }

  predicate WellFormed(n: Node) {
    IsHex12(n.eid) && IsHex12(n.parent) && IsNumeral(n.state) && IsNumeral(n.kind)
  }

  lemma DigitReads(v: nat)
    requires v < 16
    ensures IsHexDigit(Digit(v)) && DigitValue(Digit(v)) == v && (v < 10 ==> IsDecimalDigit(Digit(v)))
    ensures v > 0 ==> Digit(v) != '0'
  {}

  lemma DigitWrites(c: char)
    requires IsHexDigit(c)
    ensures Digit(DigitValue(c)) == c
  {}

  lemma {:induction false} HexReads(b: seq<Byte>)
    ensures Unhex(Hex(b)) == b && forall c :: c in Hex(b) ==> IsHexDigit(c)
    decreases |b|
  {
    if b != [] {
      HexReads(b[1..]);
      ByteReads(b[0]);
      assert Hex(b)[2..] == Hex(b[1..]);
    }
  }

  lemma ByteReads(b: Byte)
    ensures ByteOf(Digit(b / 16), Digit(b % 16)) == b && IsHexDigit(Digit(b / 16)) && IsHexDigit(Digit(b % 16))
  {
    DigitReads(b / 16);
    DigitReads(b % 16);
  }

  lemma Nibbles(high: nat, low: nat)
    requires high < 16 && low < 16
    ensures (16 * high + low) / 16 == high && (16 * high + low) % 16 == low
  {}

  lemma {:induction false} HexWrites(s: string)
    requires |s| % 2 == 0 && forall c :: c in s ==> IsHexDigit(c)
    ensures Hex(Unhex(s)) == s
    decreases |s|
  {
    if s != "" {
      assert s[0] in s && s[1] in s && s == [s[0], s[1]] + s[2..];
      HexWrites(s[2..]);
      PairWrites(s[0], s[1], Unhex(s[2..]));
    }
  }

  lemma PairWrites(high: char, low: char, rest: seq<Byte>)
    requires IsHexDigit(high) && IsHexDigit(low)
    ensures Hex([ByteOf(high, low)] + rest) == [high, low] + Hex(rest)
  {
    DigitWrites(high);
    DigitWrites(low);
    ByteWrites(high, low, DigitValue(high), DigitValue(low), ByteOf(high, low));
    HexOne(ByteOf(high, low), rest);
  }

  lemma ByteWrites(high: char, low: char, h: nat, l: nat, b: Byte)
    requires h < 16 && l < 16 && high == Digit(h) && low == Digit(l) && b == 16 * h + l
    ensures Digit(b / 16) == high && Digit(b % 16) == low
  {
    Nibbles(h, l);
  }

  lemma HexOne(b: Byte, rest: seq<Byte>)
    ensures Hex([b] + rest) == [Digit(b / 16), Digit(b % 16)] + Hex(rest)
  {
    assert ([b] + rest)[1..] == rest;
  }

  lemma {:induction false} DecimalReads(n: nat)
    ensures ValueOf(Decimal(n)) == n && IsNumeral(Decimal(n)) && (n > 0 ==> Decimal(n)[0] != '0')
    decreases n
  {
    DigitReads(n % 10);
    if n >= 10 {
      DecimalReads(n / 10);
      assert Decimal(n)[..|Decimal(n)| - 1] == Decimal(n / 10);
    } else {
      assert [Digit(n)][..0] == [];
    }
  }

  lemma {:induction false} DecimalWrites(s: string)
    requires IsNumeral(s)
    ensures Decimal(ValueOf(s)) == s && (s[0] != '0' ==> ValueOf(s) > 0)
    decreases |s|
  {
    var n := |s| - 1;
    assert s[n] in s && s == s[..n] + [s[n]];
    DigitWrites(s[n]);
    if n > 0 {
      assert s[..n][0] == s[0];
      DecimalWrites(s[..n]);
      assert ValueOf(s) / 10 == ValueOf(s[..n]) && ValueOf(s) % 10 == DigitValue(s[n]);
    } else {
      assert ValueOf(s) == DigitValue(s[0]);
    }
  }

  /** A node's strings are exactly the well-formed ones that show its bytes: the EIDs in upper-case hexadecimal,
      state and type as decimal numbers. */
  lemma RenderIff(n: Node, r: WireNode)
    ensures n == Render(r) <==> WellFormed(n) && Shows(n, r)
  {
    RenderShows(r);
    if WellFormed(n) && Shows(n, r) {
      HexWrites(n.eid);
      HexWrites(n.parent);
      DecimalWrites(n.state);
      DecimalWrites(n.kind);
    }
  }

  lemma RenderShows(r: WireNode)
    ensures WellFormed(Render(r)) && Shows(Render(r), r)
  {
    HexReads(r.eid);
    HexReads(r.parent);
    DecimalReads(r.state);
    DecimalReads(r.kind);
  }

  lemma RenderInjective(a: WireNode, b: WireNode)
    requires Render(a) == Render(b)
    ensures a == b
  {
    RenderShows(a);
    RenderShows(b);
  }

  // ---------------------------------------------------------------- printing and parsing back

  function PrintNode(r: WireNode): seq<Byte> {
    r.eid + [COMMA, r.state, COMMA, r.kind, COMMA] + r.parent
  }

  // Nodes one after the other, each with or without a separator behind it.
  function Print(raws: seq<WireNode>, seps: seq<bool>): seq<Byte>
    requires |seps| == |raws|
  {
    if raws == [] then []
    else PrintNode(raws[0]) + (if seps[0] then [DOLLAR] else []) + Print(raws[1..], seps[1..])
  }

  function Rendered(raws: seq<WireNode>): (nodes: seq<Node>)
    ensures |nodes| == |raws|
  {
    if raws == [] then [] else [Render(raws[0])] + Rendered(raws[1..])
  }

  // What is parsed shows the nodes.
  predicate ReadsBack(p: Result, raws: seq<WireNode>) {
    p.Ok? && |p.nodes| == |raws| && forall i :: 0 <= i < |raws| ==> Shows(p.nodes[i], raws[i])
  }

  lemma {:induction false} RenderedReadsBack(raws: seq<WireNode>)
    ensures ReadsBack(Ok(Rendered(raws)), raws)
    decreases |raws|
  {
    if raws != [] {
      RenderShows(raws[0]);
      RenderedReadsBack(raws[1..]);
      assert forall i :: 1 <= i < |raws| ==> raws[i] == raws[1..][i - 1];
    }
  }

  lemma {:induction false} ReadBackIsRendered(rest: seq<Byte>, raws: seq<WireNode>)
    requires ReadsBack(Nodes(rest), raws)
    ensures Nodes(rest) == Ok(Rendered(raws))
    decreases |raws|
  {
    if raws != [] {
      var nodes := Nodes(rest).nodes;
      RenderShows(RawAt(rest));
      assert nodes[0] == Render(RawAt(rest)) && RawAt(rest) == raws[0];
      assert nodes[1..] == Nodes(Behind(rest)).nodes;
      ReadBackIsRendered(Behind(rest), raws[1..]);
    }
  }

  // Where a separator is missing, the next EID does not begin with one.
  predicate Separable(raws: seq<WireNode>, seps: seq<bool>)
    requires |seps| == |raws|
  {
    forall j :: 0 <= j < |raws| - 1 && !seps[j] ==> raws[j + 1].eid[0] != DOLLAR
  }

  // A printed node in front of anything is read back as that node.
  lemma NodeInFront(r: WireNode, tail: seq<Byte>)
    ensures var rest := PrintNode(r) + tail;
            && |PrintNode(r)| == 17 && LooksLikeNode(rest) && RawAt(rest) == r
            && rest[17..] == tail
            && Behind(rest) == if tail != [] && tail[0] == DOLLAR then tail[1..] else tail
  {
    var rest := PrintNode(r) + tail;
    assert rest[..6] == r.eid && rest[11..17] == r.parent;
  }

  lemma PrintShape(raws: seq<WireNode>, seps: seq<bool>)
    requires |seps| == |raws| && raws != []
    ensures var p, more := Print(raws, seps), Print(raws[1..], seps[1..]);
            && LooksLikeNode(p) && |p| >= 17 && RawAt(p) == raws[0] && p[0] == raws[0].eid[0]
            && Behind(p) == if !seps[0] && more != [] && more[0] == DOLLAR then more[1..] else more
  {
    var more := Print(raws[1..], seps[1..]);
    var tail := (if seps[0] then [DOLLAR] else []) + more;
    assert Print(raws, seps) == PrintNode(raws[0]) + tail;
    NodeInFront(raws[0], tail);
    if seps[0] {
      assert tail[1..] == more;
    } else {
      assert tail == more;
    }
  }

  lemma {:induction false} NodesOfPrint(raws: seq<WireNode>, seps: seq<bool>)
    requires |seps| == |raws| && Separable(raws, seps)
    ensures Nodes(Print(raws, seps)) == Ok(Rendered(raws))
    decreases |raws|
  {
    if raws != [] {
      PrintShape(raws, seps);
      if |raws| > 1 {
        PrintShape(raws[1..], seps[1..]);
        assert !seps[0] ==> raws[0 + 1].eid[0] != DOLLAR;
      }
      assert Separable(raws[1..], seps[1..]) by {
        forall j | 0 <= j < |raws[1..]| - 1 && !seps[1..][j]
          ensures raws[1..][j + 1].eid[0] != DOLLAR
        {
          assert !seps[j + 1] && raws[1..][j + 1] == raws[(j + 1) + 1];
        }
      }
      NodesOfPrint(raws[1..], seps[1..]);
    }
  }

  // A window shifted by one over an EID that begins with a separator shows another EID.
  lemma ShiftedEid(p: seq<Byte>)
    requires |p| >= 7 && p[0] == DOLLAR && p[6] == COMMA
    ensures p[1..7] != p[..6]
  {
    var shifted, eid := p[1..7], p[..6];
    assert shifted[0] == p[1] == eid[1] && shifted[1] == p[2] == eid[2] && shifted[2] == p[3] == eid[3];
    assert shifted[3] == p[4] == eid[4] && shifted[4] == p[5] == eid[5] && shifted[5] == p[6] == COMMA;
    assert eid[0] == p[0] == DOLLAR;
  }

  // An EID that begins with a separator and stands right behind a node loses that byte, and what is
  // then read is another list.
  lemma ShiftedDiffers(raws: seq<WireNode>, seps: seq<bool>)
    requires |seps| == |raws| && raws != [] && raws[0].eid[0] == DOLLAR
    ensures Print(raws, seps) != []
    ensures Nodes(Print(raws, seps)[1..]) != Ok(Rendered(raws))
  {
    PrintShape(raws, seps);
    var p := Print(raws, seps);
    var q := p[1..];
    ShiftedEid(p);
    if LooksLikeNode(q) && |q| >= 17 {
      assert q[..6] == p[1..7];
      assert RawAt(p).eid == p[..6];
      if Render(RawAt(q)) == Render(raws[0]) {
        RenderInjective(RawAt(q), raws[0]);
      }
      FirstNodeDiffers(q, raws);
    }
  }

  lemma FirstNodeDiffers(q: seq<Byte>, raws: seq<WireNode>)
    requires LooksLikeNode(q) && |q| >= 17 && raws != [] && Render(RawAt(q)) != Render(raws[0])
    ensures Nodes(q) != Ok(Rendered(raws))
  {
    assert Rendered(raws)[0] == Render(raws[0]);
    assert Nodes(q).Ok? ==> Nodes(q).nodes[0] == Render(RawAt(q));
  }

  lemma {:induction false} NotSeparableDiffers(raws: seq<WireNode>, seps: seq<bool>)
    requires |seps| == |raws| && !Separable(raws, seps)
    ensures Nodes(Print(raws, seps)) != Ok(Rendered(raws))
    decreases |raws|
  {
    var j :| 0 <= j < |raws| - 1 && !seps[j] && raws[j + 1].eid[0] == DOLLAR;
    PrintShape(raws, seps);
    PrintShape(raws[1..], seps[1..]);
    var behind := Nodes(Behind(Print(raws, seps)));
    if !seps[0] && raws[1].eid[0] == DOLLAR {
      ShiftedDiffers(raws[1..], seps[1..]);
    } else {
      assert raws[1..][(j - 1) + 1] == raws[j + 1] && seps[1..][j - 1] == seps[j];
      assert !Separable(raws[1..], seps[1..]);
      NotSeparableDiffers(raws[1..], seps[1..]);
    }
    assert behind != Ok(Rendered(raws[1..]));
    if behind.Ok? {
      assert ([Render(raws[0])] + behind.nodes)[1..] == behind.nodes;
      assert Rendered(raws)[1..] == Rendered(raws[1..]);
    }
  }

  lemma ParseAtStart(data: seq<Byte>)
    requires LooksLikeNode(data)
    ensures Parse(data) == Nodes(data)
  {
    assert data[0..] == data;
  }

  /** Round trip: from a printed list, with any choice of separators, the parser makes strings that show the
      list again if and only if no EID that stands right behind a node without a separator begins with 0x24. */
  lemma RoundTripIff(raws: seq<WireNode>, seps: seq<bool>)
    requires |seps| == |raws| && raws != []
    ensures ReadsBack(Parse(Print(raws, seps)), raws) <==> Separable(raws, seps)
  {
    PrintShape(raws, seps);
    ParseAtStart(Print(raws, seps));
    if Separable(raws, seps) {
      NodesOfPrint(raws, seps);
      RenderedReadsBack(raws);
    } else {
      NotSeparableDiffers(raws, seps);
      if ReadsBack(Nodes(Print(raws, seps)), raws) {
        ReadBackIsRendered(Print(raws, seps), raws);
      }
    }
  }

  // ---------------------------------------------------------------- soundness and failure

  // The starts of the windows that the loop reads from, and what it leaves unread.
  function Windows(rest: seq<Byte>, base: nat): seq<nat>
    decreases |rest|
  {
    if LooksLikeNode(rest) && |rest| >= 17 then
      [base] + Windows(Behind(rest), base + |rest| - |Behind(rest)|)
    else []
  }

  function Unread(rest: seq<Byte>): seq<Byte>
    decreases |rest|
  {
    if LooksLikeNode(rest) && |rest| >= 17 then Unread(Behind(rest)) else rest
  }

  ghost predicate ReadsWindows(data: seq<Byte>, ws: seq<nat>, nodes: seq<Node>) {
    && |ws| == |nodes|
    && (forall k :: 0 <= k < |ws| ==>
          ws[k] + 17 <= |data| && LooksLikeNode(data[ws[k]..]) && nodes[k] == Render(RawAt(data[ws[k]..])))
    && (forall k :: 0 <= k < |ws| - 1 ==>
          ws[k] + 17 < |data| && ws[k + 1] == ws[k] + 17 + (if data[ws[k] + 17] == DOLLAR then 1 else 0))
  }

  lemma {:induction false} NodesReadWindows(data: seq<Byte>, i: nat)
    requires i <= |data| && Nodes(data[i..]).Ok?
    ensures ReadsWindows(data, Windows(data[i..], i), Nodes(data[i..]).nodes)
    ensures Windows(data[i..], i) != [] ==> Windows(data[i..], i)[0] == i
    decreases |data| - i
  {
    if LooksLikeNode(data[i..]) {
      var j := NextStart(data, i);
      WindowsStep(data, i);
      NodesReadWindows(data, j);
      WindowsExtend(data, i, Windows(data[j..], j), Nodes(data[j..]).nodes);
    }
  }

  lemma WindowsStep(data: seq<Byte>, i: nat)
    requires i <= |data| && LooksLikeNode(data[i..]) && Nodes(data[i..]).Ok?
    ensures i + 17 <= |data|
    ensures var j := NextStart(data, i);
            && j > i && Windows(data[i..], i) == [i] + Windows(data[j..], j) && Nodes(data[j..]).Ok?
            && Nodes(data[i..]).nodes == [Render(RawAt(data[i..]))] + Nodes(data[j..]).nodes
  {
    NodeStep(data, i);
  }

  lemma WindowsExtend(data: seq<Byte>, i: nat, ws: seq<nat>, nodes: seq<Node>)
    requires i + 17 <= |data| && LooksLikeNode(data[i..]) && ReadsWindows(data, ws, nodes)
    requires ws != [] ==> ws[0] == NextStart(data, i)
    ensures ReadsWindows(data, [i] + ws, [Render(RawAt(data[i..]))] + nodes)
  {
    var ws1, nodes1 := [i] + ws, [Render(RawAt(data[i..]))] + nodes;
    forall k | 0 <= k < |ws1|
      ensures ws1[k] + 17 <= |data| && LooksLikeNode(data[ws1[k]..]) && nodes1[k] == Render(RawAt(data[ws1[k]..]))
    {
      if k > 0 {
        assert ws1[k] == ws[k - 1] && nodes1[k] == nodes[k - 1];
      }
    }
    forall k | 0 <= k < |ws1| - 1
      ensures ws1[k] + 17 < |data| && ws1[k + 1] == ws1[k] + 17 + (if data[ws1[k] + 17] == DOLLAR then 1 else 0)
    {
      if k > 0 {
        assert ws1[k] == ws[k - 1] && ws1[k + 1] == ws[(k - 1) + 1];
      }
    }
  }

  /** Soundness: each node is read from a 17-byte window of its own.  The first window is the earliest
      match, and each next one begins right behind the last, or one byte later behind a '$'. */
  lemma ParsedFromWindows(data: seq<Byte>)
    requires Parse(data).Ok?
    ensures var ws := Windows(data[FirstMatch(data, 0)..], FirstMatch(data, 0));
            && ws != [] && ws[0] == FirstMatch(data, 0)
            && ReadsWindows(data, ws, Parse(data).nodes)
            && forall k :: 0 <= k < |ws| ==> Shows(Parse(data).nodes[k], RawAt(data[ws[k]..]))
  {
    var i := FirstMatch(data, 0);
    NodesReadWindows(data, i);
    var ws, nodes := Windows(data[i..], i), Parse(data).nodes;
    forall k | 0 <= k < |ws|
      ensures Shows(nodes[k], RawAt(data[ws[k]..]))
    {
      RenderShows(RawAt(data[ws[k]..]));
    }
  }

  lemma {:induction false} NodesFailIff(rest: seq<Byte>)
    ensures Nodes(rest).Err? <==> LooksLikeNode(Unread(rest))
    ensures LooksLikeNode(Unread(rest)) ==> |Unread(rest)| == 16 && Nodes(rest) == Err(MissingParent)
    decreases |rest|
  {
    if LooksLikeNode(rest) && |rest| >= 17 {
      NodesFailIff(Behind(rest));
    }
  }

  /** Exact failure: nothing matches, or the scan from the first match comes to a match with exactly
      16 bytes left. */
  lemma ParseFailsIff(data: seq<Byte>)
    ensures Parse(data).Err? <==>
              || (forall i :: 0 <= i < |data| ==> !LooksLikeNode(data[i..]))
              || (var unread := Unread(data[FirstMatch(data, 0)..]); LooksLikeNode(unread) && |unread| == 16)
  {
    var i := FirstMatch(data, 0);
    NodesFailIff(data[i..]);
  }

  // Nodes with a separator behind each.
  function Separated(raws: seq<WireNode>): seq<Byte> {
    Print(raws, seq(|raws|, _ => true))
  }

  lemma {:induction false} NodesThenCut(raws: seq<WireNode>, cut: seq<Byte>)
    ensures Nodes(Separated(raws) + cut) == After(Rendered(raws), Nodes(cut))
    decreases |raws|
  {
    if raws == [] {
      assert Separated(raws) + cut == cut;
      assert Nodes(cut).Ok? ==> [] + Nodes(cut).nodes == Nodes(cut).nodes;
    } else {
      var more := Separated(raws[1..]) + cut;
      assert seq(|raws|, _ => true)[1..] == seq(|raws[1..]|, _ => true);
      assert Separated(raws) + cut == PrintNode(raws[0]) + ([DOLLAR] + more);
      NodesThenCut(raws[1..], cut);
      NodeThenDollar(raws[0], more);
      AfterOneFirst(Render(raws[0]), Rendered(raws[1..]), Nodes(cut));
    }
  }

  lemma NodeThenDollar(r: WireNode, more: seq<Byte>)
    ensures Nodes(PrintNode(r) + ([DOLLAR] + more)) == After([Render(r)], Nodes(more))
  {
    NodeInFront(r, [DOLLAR] + more);
    assert ([DOLLAR] + more)[1..] == more;
  }

  lemma AfterOneFirst(node: Node, nodes: seq<Node>, r: Result)
    ensures After([node], After(nodes, r)) == After([node] + nodes, r)
  {
    if r.Ok? {
      assert [node] + (nodes + r.nodes) == ([node] + nodes) + r.nodes;
    }
  }

  /** A separated list whose last node is cut short keeps its complete nodes, unless exactly one byte
      is missing: then all of them are lost. */
  lemma CutShort(raws: seq<WireNode>, last: WireNode, kept: nat)
    requires raws != [] && kept < 17
    ensures var data := Separated(raws) + PrintNode(last)[..kept];
            if kept == 16 then Parse(data) == Err(MissingParent) else ReadsBack(Parse(data), raws)
  {
    var cut := PrintNode(last)[..kept];
    NodesThenCut(raws, cut);
    PrintShape(raws, seq(|raws|, _ => true));
    ParseAtStart(Separated(raws) + cut);
    if kept < 16 {
      assert Nodes(cut) == Ok([]);
      assert Rendered(raws) + [] == Rendered(raws);
      RenderedReadsBack(raws);
    } else {
      assert PrintNode(last)[6] == COMMA && PrintNode(last)[8] == COMMA && PrintNode(last)[10] == COMMA;
      assert LooksLikeNode(cut);
    }
  }
}
