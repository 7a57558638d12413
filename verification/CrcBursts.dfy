/** Bursts that reach over the end of the payload into the check field, and exactly which bursts the CRC gate
    rejects wherever they are.

    The register is linear, so a damaged frame is accepted exactly if the error in the check field is what
    the error in the payload does to the register.  Halving can be undone; undoing it once for each payload
    bit of a burst gives those bits back. */
module CrcBursts {
  import opened Crc16
  import opened CrcFrames

  // ---------------------------------------------------------------- the register is linear

  lemma BothFeed(a: bv16, b: bv16)
    requires a & 1 == 1 && b & 1 == 1
    ensures Half(a) ^ Half(b) == Half(a ^ b)
  {}

  lemma LeftFeeds(a: bv16, b: bv16)
    requires a & 1 == 1 && b & 1 != 1
    ensures Half(a) ^ Half(b) == Half(a ^ b)
  {}

  lemma RightFeeds(a: bv16, b: bv16)
    requires a & 1 != 1 && b & 1 == 1
    ensures Half(a) ^ Half(b) == Half(a ^ b)
  {}

  lemma NoneFeeds(a: bv16, b: bv16)
    requires a & 1 != 1 && b & 1 != 1
    ensures Half(a) ^ Half(b) == Half(a ^ b)
  {}

  lemma HalfLinear(a: bv16, b: bv16, z: bv16)
    requires Xor(a, b) == z
    ensures Xor(Half(a), Half(b)) == Half(z)
  {
    if a & 1 == 1 {
      if b & 1 == 1 {
        BothFeed(a, b);
      } else {
        LeftFeeds(a, b);
      }
    } else if b & 1 == 1 {
      RightFeeds(a, b);
    } else {
      NoneFeeds(a, b);
    }
  }

  lemma XorCommutes(a: bv16, b: bv16)
    ensures Xor(a, b) == Xor(b, a)
  {}

  lemma FlipRight(a: bv16, b: bv16)
    ensures Xor(a, b ^ 1) == Xor(a, b) ^ 1
  {}

  lemma StepRight(a: bv16, b: bv16)
    ensures Xor(BitStep(a, false), BitStep(b, true)) == BitStep(Xor(a, b), true)
  {
    FlipRight(a, b);
    HalfLinear(a, b ^ 1, Xor(a, b) ^ 1);
  }

  lemma StepLeft(a: bv16, b: bv16)
    ensures Xor(BitStep(a, true), BitStep(b, false)) == BitStep(Xor(a, b), true)
  {
    StepRight(b, a);
    XorCommutes(a, b);
    XorCommutes(BitStep(a, true), BitStep(b, false));
  }

  lemma FlipBothBits(a: bv16, b: bv16)
    ensures (a ^ 1) ^ (b ^ 1) == a ^ b
  {}

  lemma FlipBoth(a: bv16, b: bv16)
    ensures Xor(a ^ 1, b ^ 1) == Xor(a, b)
  {
    FlipBothBits(a, b);
  }

  lemma StepBoth(a: bv16, b: bv16)
    ensures Xor(BitStep(a, true), BitStep(b, true)) == BitStep(Xor(a, b), false)
  {
    FlipBoth(a, b);
    HalfLinear(a ^ 1, b ^ 1, Xor(a, b));
  }

  lemma BitStepLinear(a: bv16, b: bv16, p: bool, q: bool)
    ensures Xor(BitStep(a, p), BitStep(b, q)) == BitStep(Xor(a, b), p != q)
  {
    if p {
      if q {
        StepBoth(a, b);
      } else {
        StepLeft(a, b);
      }
    } else if q {
      StepRight(a, b);
    } else {
      HalfLinear(a, b, Xor(a, b));
    }
  }

  // Where two bit sequences differ.
  function Diff(x: seq<bool>, y: seq<bool>): (d: seq<bool>)
    requires |x| == |y|
    ensures |d| == |x|
  {
    if x == [] then [] else [x[0] != y[0]] + Diff(x[1..], y[1..])
  }

  lemma {:induction false} RunLinear(a: bv16, b: bv16, x: seq<bool>, y: seq<bool>)
    requires |x| == |y|
    ensures Xor(Run(a, x), Run(b, y)) == Run(Xor(a, b), Diff(x, y))
    decreases |x|
  {
    if x != [] {
      RunLinear(BitStep(a, x[0]), BitStep(b, y[0]), x[1..], y[1..]);
      BitStepLinear(a, b, x[0], y[0]);
      assert Diff(x, y)[1..] == Diff(x[1..], y[1..]);
    }
  }

  lemma XorCancels(a: bv16, b: bv16, c: bv16)
    ensures Xor(a, b) == Xor(a, c) <==> b == c
    ensures Xor(a, a) == 0
  {}

  function CheckWord(f: seq<bv8>): bv16
    requires |f| >= 2
  {
    Word(f[|f| - 2], f[|f| - 1])
  }

  function PayloadBits(f: seq<bv8>): (bits: seq<bool>)
    requires |f| >= 2
    ensures |bits| == 8 * (|f| - 2)
  {
    MessageBits(f[..|f| - 2])
  }

  /** Exactly which damaged frames are accepted: those in which the error in the check field is what a
      register that starts at 0 makes of the error in the payload. */
  lemma DamagedAcceptedIff(f1: seq<bv8>, f2: seq<bv8>)
    requires Accepts(f1) && |f1| == |f2|
    ensures Accepts(f2) <==> Xor(CheckWord(f1), CheckWord(f2)) == Run(0, Diff(PayloadBits(f1), PayloadBits(f2)))
  {
    FoldIsRun(INITIAL, f1[..|f1| - 2]);
    FoldIsRun(INITIAL, f2[..|f2| - 2]);
    RunLinear(INITIAL, INITIAL, PayloadBits(f1), PayloadBits(f2));
    XorCancels(CheckWord(f1), CheckWord(f2), Run(INITIAL, PayloadBits(f2)));
    XorCancels(INITIAL, INITIAL, INITIAL);
  }

  lemma QuietStep()
    ensures BitStep(0, false) == 0
  {}

  // Equal bits in front leave the difference register at 0.
  lemma {:induction false} DiffFrom(x: seq<bool>, y: seq<bool>, s: nat)
    requires |x| == |y| && s <= |x| && forall i :: 0 <= i < s ==> x[i] == y[i]
    ensures Run(0, Diff(x, y)) == Run(0, Diff(x[s..], y[s..]))
    decreases s
  {
    if s == 0 {
      assert x[0..] == x && y[0..] == y;
    } else {
      QuietStep();
      assert Diff(x, y)[0] == false && Diff(x, y)[1..] == Diff(x[1..], y[1..]);
      DiffFrom(x[1..], y[1..], s - 1);
      assert x[1..][s - 1..] == x[s..] && y[1..][s - 1..] == y[s..];
    }
  }

  // ---------------------------------------------------------------- undoing halvings

  function Unhalf(c: bv16): bv16 {
    if c & 0x8000 != 0 then ((c ^ POLYNOMIAL) << 1) | 1 else c << 1
  }

  function Undone(c: bv16, n: nat): bv16 {
    if n == 0 then c else Unhalf(Undone(c, n - 1))
  }

  function PackBit(b: bool, p: bv16): bv16 {
    if b then (p << 1) ^ 1 else p << 1
  }

  // The bits as a number, the first one lowest.
  function Pack(d: seq<bool>): bv16 {
    if d == [] then 0 else PackBit(d[0], Pack(d[1..]))
  }

  lemma ShiftBound(p: bv16, m: bv16)
    requires p & m == 0
    ensures (p << 1) & (m << 1) == 0
    ensures ((p << 1) ^ 1) & (m << 1) == 0
  {}

  lemma PackBitBound(b: bool, p: bv16, m: bv16)
    requires p & m == 0
    ensures PackBit(b, p) & (m << 1) == 0
  {
    ShiftBound(p, m);
  }

  lemma PackBitLow(b: bool, p: bv16)
    ensures PackBit(b, p) & 1 == 1 <==> b
  {}

  lemma NarrowNext(b: bool, p: bv16, m: bv16, m1: bv16)
    requires p & m == 0 && m << 1 == m1
    ensures PackBit(b, p) & m1 == 0
  {
    PackBitBound(b, p, m);
  }

  function Narrow(): (bv16, nat) -> bool {
    (p: bv16, n: nat) => n <= 16 && p & UpperMask(n) == 0
  }

  lemma PackBitNarrow(b: bool, p: bv16, n: nat)
    requires n < 16 && Narrow()(p, n)
    ensures Narrow()(PackBit(b, p), n + 1)
  {
    NarrowNext(b, p, UpperMask(n), UpperMask(n + 1));
  }

  lemma {:induction false} PackIs(d: seq<bool>, narrow: (bv16, nat) -> bool)
    requires |d| <= 16 && narrow(0, 0)
    requires forall b: bool, p: bv16, n: nat :: n < 16 && narrow(p, n) ==> narrow(PackBit(b, p), n + 1)
    ensures narrow(Pack(d), |d|)
    decreases |d|
  {
    if d != [] {
      PackIs(d[1..], narrow);
    }
  }

  lemma PackBound(d: seq<bool>)
    requires |d| <= 16
    ensures Pack(d) & UpperMask(|d|) == 0
  {
    var narrow := Narrow();
    forall b: bool, p: bv16, n: nat | n < 16 && narrow(p, n)
      ensures narrow(PackBit(b, p), n + 1)
    {
      PackBitNarrow(b, p, n);
    }
    PackIs(d, narrow);
    assert narrow(Pack(d), |d|);
  }

  lemma PackLow(d: seq<bool>)
    requires d != []
    ensures Pack(d) & 1 == 1 <==> d[0]
  {
    PackBitLow(d[0], Pack(d[1..]));
  }

  lemma UndoStep(c: bv16, b: bool, p: bv16)
    requires p & 0x8000 == 0
    ensures Unhalf(BitStep(c, b) ^ p) == c ^ PackBit(b, p)
  {}

  lemma UndoNamed(c: bv16, b: bool, p: bv16)
    requires p & 0x8000 == 0
    ensures Unhalf(Xor(BitStep(c, b), p)) == Xor(c, PackBit(b, p))
  {
    UndoStep(c, b, p);
  }

  lemma TopBitClear(p: bv16, m: bv16)
    requires p & m == 0 && m & 0x8000 != 0
    ensures p & 0x8000 == 0
  {}

  // Undoing one halving for each bit gives the bits back.
  lemma {:induction false} RunUndone(c: bv16, d: seq<bool>)
    requires |d| <= 16
    ensures Undone(Run(c, d), |d|) == Xor(c, Pack(d))
    decreases |d|
  {
    if d == [] {
      XorZero(c);
    } else {
      var rest := d[1..];
      RunUndone(BitStep(c, d[0]), rest);
      PackBound(rest);
      UpperMaskTopBit(|rest|);
      TopBitClear(Pack(rest), UpperMask(|rest|));
      UndoNamed(c, d[0], Pack(rest));
    }
  }

  // ---------------------------------------------------------------- sixteen-bit algebra

  // The bits of a byte from index n on.
  function FromBit(n: nat): bv8
    requires n <= 8
  {
    [0xFF, 0xFE, 0xFC, 0xF8, 0xF0, 0xE0, 0xC0, 0x80, 0x00][n]
  }

  // The bits of the check field from index n on, in the order they are sent: the high byte first.
  function Behind(n: nat): bv16
    requires n <= 16
  {
    if n <= 8 then Word(FromBit(n), FromBit(0)) else Word(FromBit(8), FromBit(n - 8))
  }

  lemma BehindValues()
    ensures Behind(1) == 0xFEFF
    ensures Behind(2) == 0xFCFF
    ensures Behind(3) == 0xF8FF
    ensures Behind(4) == 0xF0FF
    ensures Behind(5) == 0xE0FF
    ensures Behind(6) == 0xC0FF
    ensures Behind(7) == 0x80FF
    ensures Behind(8) == 0x00FF
    ensures Behind(9) == 0x00FE
  {}

  function Undo1(c: bv16): bv16 {
    Unhalf(c)
  }

  function Undo2(c: bv16): bv16 {
    Unhalf(Undo1(c))
  }

  function Undo3(c: bv16): bv16 {
    Unhalf(Undo2(c))
  }

  function Undo4(c: bv16): bv16 {
    Unhalf(Undo3(c))
  }

  function Undo5(c: bv16): bv16 {
    Unhalf(Undo4(c))
  }

  function Undo6(c: bv16): bv16 {
    Unhalf(Undo5(c))
  }

  function Undo7(c: bv16): bv16 {
    Unhalf(Undo6(c))
  }

  function Undo8(c: bv16): bv16 {
    Unhalf(Undo7(c))
  }

  function Undo9(c: bv16): bv16 {
    Unhalf(Undo8(c))
  }

  function Undo10(c: bv16): bv16 {
    Unhalf(Undo9(c))
  }

  function Undo11(c: bv16): bv16 {
    Unhalf(Undo10(c))
  }

  function Undo12(c: bv16): bv16 {
    Unhalf(Undo11(c))
  }

  function Undo13(c: bv16): bv16 {
    Unhalf(Undo12(c))
  }

  function Undo14(c: bv16): bv16 {
    Unhalf(Undo13(c))
  }

  function Undo15(c: bv16): bv16 {
    Unhalf(Undo14(c))
  }

  // A register difference in the first 16-k bits of the check field, undone k times, is not k bits with the
  // first one set; for k below 8, neither is one in the first 8-k bits.
  lemma Early7(d: bv16)
    requires d & 0x00FE == 0 && Undo7(d) & 0xFF80 == 0
    ensures Undo7(d) & 1 == 0
  {}

  lemma Early8(d: bv16)
    requires d & 0x00FF == 0 && Undo8(d) & 0xFF00 == 0
    ensures Undo8(d) & 1 == 0
  {}

  lemma Early9(d: bv16)
    requires d & 0x80FF == 0 && Undo9(d) & 0xFE00 == 0
    ensures Undo9(d) & 1 == 0
  {}

  lemma Early10(d: bv16)
    requires d & 0xC0FF == 0 && Undo10(d) & 0xFC00 == 0
    ensures Undo10(d) & 1 == 0
  {}

  lemma Early11(d: bv16)
    requires d & 0xE0FF == 0 && Undo11(d) & 0xF800 == 0
    ensures Undo11(d) & 1 == 0
  {}

  lemma Early12(d: bv16)
    requires d & 0xF0FF == 0 && Undo12(d) & 0xF000 == 0
    ensures Undo12(d) & 1 == 0
  {}

  lemma Early13(d: bv16)
    requires d & 0xF8FF == 0 && Undo13(d) & 0xE000 == 0
    ensures Undo13(d) & 1 == 0
  {}

  lemma Early14(d: bv16)
    requires d & 0xFCFF == 0 && Undo14(d) & 0xC000 == 0
    ensures Undo14(d) & 1 == 0
  {}

  lemma Early15(d: bv16)
    requires d & 0xFEFF == 0 && Undo15(d) & 0x8000 == 0
    ensures Undo15(d) & 1 == 0
  {}

  lemma Short1(d: bv16)
    requires d & 0x80FF == 0 && Undo1(d) & 0xFFFE == 0
    ensures Undo1(d) & 1 == 0
  {}

  lemma Short2(d: bv16)
    requires d & 0xC0FF == 0 && Undo2(d) & 0xFFFC == 0
    ensures Undo2(d) & 1 == 0
  {}

  lemma Short3(d: bv16)
    requires d & 0xE0FF == 0 && Undo3(d) & 0xFFF8 == 0
    ensures Undo3(d) & 1 == 0
  {}

  lemma Short4(d: bv16)
    requires d & 0xF0FF == 0 && Undo4(d) & 0xFFF0 == 0
    ensures Undo4(d) & 1 == 0
  {}

  lemma Short5(d: bv16)
    requires d & 0xF8FF == 0 && Undo5(d) & 0xFFE0 == 0
    ensures Undo5(d) & 1 == 0
  {}

  lemma Short6(d: bv16)
    requires d & 0xFCFF == 0 && Undo6(d) & 0xFFC0 == 0
    ensures Undo6(d) & 1 == 0
  {}

  lemma Short7(d: bv16)
    requires d & 0xFEFF == 0 && Undo7(d) & 0xFF80 == 0
    ensures Undo7(d) & 1 == 0
  {}

  lemma Unrolled(d: bv16)
    ensures Undone(d, 1) == Undo1(d)
    ensures Undone(d, 2) == Undo2(d)
    ensures Undone(d, 3) == Undo3(d)
    ensures Undone(d, 4) == Undo4(d)
    ensures Undone(d, 5) == Undo5(d)
    ensures Undone(d, 6) == Undo6(d)
    ensures Undone(d, 7) == Undo7(d)
    ensures Undone(d, 8) == Undo8(d)
    ensures Undone(d, 9) == Undo9(d)
    ensures Undone(d, 10) == Undo10(d)
    ensures Undone(d, 11) == Undo11(d)
    ensures Undone(d, 12) == Undo12(d)
    ensures Undone(d, 13) == Undo13(d)
    ensures Undone(d, 14) == Undo14(d)
    ensures Undone(d, 15) == Undo15(d)
  {
    assert Undone(d, 1) == Undo1(d);
    assert Undone(d, 2) == Undo2(d);
    assert Undone(d, 3) == Undo3(d);
    assert Undone(d, 4) == Undo4(d);
    assert Undone(d, 5) == Undo5(d);
    assert Undone(d, 6) == Undo6(d);
    assert Undone(d, 7) == Undo7(d);
    assert Undone(d, 8) == Undo8(d);
    assert Undone(d, 9) == Undo9(d);
    assert Undone(d, 10) == Undo10(d);
    assert Undone(d, 11) == Undo11(d);
    assert Undone(d, 12) == Undo12(d);
    assert Undone(d, 13) == Undo13(d);
    assert Undone(d, 14) == Undo14(d);
    assert Undone(d, 15) == Undo15(d);
  }

  lemma UpperMasks()
    ensures UpperMask(1) == 0xFFFE
    ensures UpperMask(2) == 0xFFFC
    ensures UpperMask(3) == 0xFFF8
    ensures UpperMask(4) == 0xFFF0
    ensures UpperMask(5) == 0xFFE0
    ensures UpperMask(6) == 0xFFC0
    ensures UpperMask(7) == 0xFF80
    ensures UpperMask(8) == 0xFF00
    ensures UpperMask(9) == 0xFE00
    ensures UpperMask(10) == 0xFC00
    ensures UpperMask(11) == 0xF800
    ensures UpperMask(12) == 0xF000
    ensures UpperMask(13) == 0xE000
    ensures UpperMask(14) == 0xC000
    ensures UpperMask(15) == 0x8000
  {}

  lemma EarlyNever(d: bv16, k: nat)
    requires 7 <= k <= 15 && d & Behind(16 - k) == 0 && Undone(d, k) & UpperMask(k) == 0
    ensures Undone(d, k) & 1 == 0
  {
    UpperMasks();
    BehindValues();
    Unrolled(d);
    match k
    case 7 => Early7(d);
    case 8 => Early8(d);
    case 9 => Early9(d);
    case 10 => Early10(d);
    case 11 => Early11(d);
    case 12 => Early12(d);
    case 13 => Early13(d);
    case 14 => Early14(d);
    case 15 => Early15(d);
  }

  lemma ShortNever(d: bv16, k: nat)
    requires 1 <= k <= 7 && d & Behind(8 - k) == 0 && Undone(d, k) & UpperMask(k) == 0
    ensures Undone(d, k) & 1 == 0
  {
    UpperMasks();
    BehindValues();
    Unrolled(d);
    match k
    case 1 => Short1(d);
    case 2 => Short2(d);
    case 3 => Short3(d);
    case 4 => Short4(d);
    case 5 => Short5(d);
    case 6 => Short6(d);
    case 7 => Short7(d);
  }

  lemma LastBit(d: bv16)
    requires d & 0x00FF == 0 && Undo1(d) & 0xFFFE == 0
    ensures Undo1(d) & 1 == 0
  {}

  // The last payload bit alone changes both check bytes.
  lemma BareNever(d: bv16)
    requires d & Behind(8) == 0 && Undone(d, 1) & UpperMask(1) == 0
    ensures Undone(d, 1) & 1 == 0
  {
    UpperMasks();
    BehindValues();
    Unrolled(d);
    LastBit(d);
  }

  // ---------------------------------------------------------------- the check field

  predicate AgreeFrom(x: seq<bool>, y: seq<bool>, n: nat)
    requires |x| == |y| == 8
  {
    && (n <= 0 ==> x[0] == y[0]) && (n <= 1 ==> x[1] == y[1]) && (n <= 2 ==> x[2] == y[2])
    && (n <= 3 ==> x[3] == y[3]) && (n <= 4 ==> x[4] == y[4]) && (n <= 5 ==> x[5] == y[5])
    && (n <= 6 ==> x[6] == y[6]) && (n <= 7 ==> x[7] == y[7])
  }

  // Bytes whose bits agree from index n on.
  predicate BytesFrom(a: bv8, b: bv8, n: nat) {
    AgreeFrom(Bits(a), Bits(b), n)
  }

  lemma From0(a: bv8, b: bv8)
    requires BytesFrom(a, b, 0)
    ensures (a ^ b) & 0xFF == 0
  {}

  lemma From1(a: bv8, b: bv8)
    requires BytesFrom(a, b, 1)
    ensures (a ^ b) & 0xFE == 0
  {}

  lemma From2(a: bv8, b: bv8)
    requires BytesFrom(a, b, 2)
    ensures (a ^ b) & 0xFC == 0
  {}

  lemma From3(a: bv8, b: bv8)
    requires BytesFrom(a, b, 3)
    ensures (a ^ b) & 0xF8 == 0
  {}

  lemma From4(a: bv8, b: bv8)
    requires BytesFrom(a, b, 4)
    ensures (a ^ b) & 0xF0 == 0
  {}

  lemma From5(a: bv8, b: bv8)
    requires BytesFrom(a, b, 5)
    ensures (a ^ b) & 0xE0 == 0
  {}

  lemma From6(a: bv8, b: bv8)
    requires BytesFrom(a, b, 6)
    ensures (a ^ b) & 0xC0 == 0
  {}

  lemma From7(a: bv8, b: bv8)
    requires BytesFrom(a, b, 7)
    ensures (a ^ b) & 0x80 == 0
  {}

  lemma NoBits(x: bv8)
    ensures x & 0 == 0
  {}

  lemma BytesAgree(a: bv8, b: bv8, n: nat)
    requires n <= 8 && BytesFrom(a, b, n)
    ensures (a ^ b) & FromBit(n) == 0
  {
    match n
    case 0 => From0(a, b);
    case 1 => From1(a, b);
    case 2 => From2(a, b);
    case 3 => From3(a, b);
    case 4 => From4(a, b);
    case 5 => From5(a, b);
    case 6 => From6(a, b);
    case 7 => From7(a, b);
    case 8 => NoBits(a ^ b);
  }

  lemma WordsDiffer(hi1: bv8, lo1: bv8, hi2: bv8, lo2: bv8)
    ensures Word(hi1, lo1) ^ Word(hi2, lo2) == Word(hi1 ^ hi2, lo1 ^ lo2)
  {}

  lemma WordUnder(x: bv8, y: bv8, h: bv8, l: bv8)
    requires x & h == 0 && y & l == 0
    ensures Word(x, y) & Word(h, l) == 0
  {}

  lemma HalvesAgree(x1: seq<bool>, y1: seq<bool>, x2: seq<bool>, y2: seq<bool>, n: nat)
    requires |x1| == |y1| == |x2| == |y2| == 8 && n <= 16
    requires forall j :: n <= j < 16 ==> (x1 + y1)[j] == (x2 + y2)[j]
    ensures if n <= 8 then AgreeFrom(x1, x2, n) && AgreeFrom(y1, y2, 0) else AgreeFrom(y1, y2, n - 8)
  {
    forall i | 0 <= i < 8 && n <= i + 8
      ensures y1[i] == y2[i]
    {
      assert (x1 + y1)[i + 8] == (x2 + y2)[i + 8];
    }
    forall i | 0 <= i < 8 && n <= i
      ensures x1[i] == x2[i]
    {
      assert (x1 + y1)[i] == (x2 + y2)[i];
    }
  }

  lemma FieldsAgreeEarly(hi1: bv8, lo1: bv8, hi2: bv8, lo2: bv8, n: nat)
    requires n <= 8 && BytesFrom(hi1, hi2, n) && BytesFrom(lo1, lo2, 0)
    ensures Xor(Word(hi1, lo1), Word(hi2, lo2)) & Behind(n) == 0
  {
    BytesAgree(hi1, hi2, n);
    BytesAgree(lo1, lo2, 0);
    WordsUnder(hi1, lo1, hi2, lo2, FromBit(n), FromBit(0), Behind(n));
  }

  lemma FieldsAgreeLate(hi1: bv8, lo1: bv8, hi2: bv8, lo2: bv8, n: nat)
    requires 8 < n <= 16 && BytesFrom(lo1, lo2, n - 8)
    ensures Xor(Word(hi1, lo1), Word(hi2, lo2)) & Behind(n) == 0
  {
    NoBits(hi1 ^ hi2);
    assert FromBit(8) == 0;
    BytesAgree(lo1, lo2, n - 8);
    WordsUnder(hi1, lo1, hi2, lo2, FromBit(8), FromBit(n - 8), Behind(n));
  }

  lemma HalvesFrom(hi1: bv8, lo1: bv8, hi2: bv8, lo2: bv8, n: nat)
    requires n <= 16 && forall j :: n <= j < 16 ==> (Bits(hi1) + Bits(lo1))[j] == (Bits(hi2) + Bits(lo2))[j]
    ensures if n <= 8 then BytesFrom(hi1, hi2, n) && BytesFrom(lo1, lo2, 0) else BytesFrom(lo1, lo2, n - 8)
  {
    HalvesAgree(Bits(hi1), Bits(lo1), Bits(hi2), Bits(lo2), n);
  }

  // Check fields whose bits agree from index n on.
  lemma FieldsAgree(hi1: bv8, lo1: bv8, hi2: bv8, lo2: bv8, n: nat)
    requires n <= 16 && forall j :: n <= j < 16 ==> (Bits(hi1) + Bits(lo1))[j] == (Bits(hi2) + Bits(lo2))[j]
    ensures Xor(Word(hi1, lo1), Word(hi2, lo2)) & Behind(n) == 0
  {
    HalvesFrom(hi1, lo1, hi2, lo2, n);
    if n <= 8 {
      FieldsAgreeEarly(hi1, lo1, hi2, lo2, n);
    } else {
      FieldsAgreeLate(hi1, lo1, hi2, lo2, n);
    }
  }

  lemma WordsUnder(hi1: bv8, lo1: bv8, hi2: bv8, lo2: bv8, h: bv8, l: bv8, m: bv16)
    requires (hi1 ^ hi2) & h == 0 && (lo1 ^ lo2) & l == 0 && m == Word(h, l)
    ensures (Word(hi1, lo1) ^ Word(hi2, lo2)) & m == 0
  {
    WordsDiffer(hi1, lo1, hi2, lo2);
    WordUnder(hi1 ^ hi2, lo1 ^ lo2, h, l);
  }

  // ---------------------------------------------------------------- bursts

  // Bursts of w bits that begin k bits before the end of the payload, reach into the check field, and are
  // found.
  predicate Found(k: nat, w: nat) {
    (w == 8 && 1 <= k < 8) || (w == 9 && k == 1) || (w == 16 && 7 <= k < 16)
  }

  lemma XorOfZero(p: bv16)
    ensures Xor(0, p) == p
  {}

  // Bits of the payload from the first wrong one on, and a wrong beginning of the check field, do not match.
  lemma {:induction false} NoSuchBurst(d: seq<bool>, w: nat)
    requires d != [] && d[0] && Found(|d|, w)
    ensures Run(0, d) & Behind(w - |d|) != 0
  {
    RunUndone(0, d);
    XorOfZero(Pack(d));
    PackBound(d);
    PackLow(d);
    NotBehind(Run(0, d), Pack(d), |d|, w);
  }

  lemma NotBehind(word: bv16, p: bv16, k: nat, w: nat)
    requires Found(k, w)
    requires p == Undone(word, k) && p & UpperMask(k) == 0 && p & 1 == 1
    ensures word & Behind(w - k) != 0
  {
    if word & Behind(w - k) == 0 {
      NeverUndone(word, k, w);
    }
  }

  lemma NeverUndone(word: bv16, k: nat, w: nat)
    requires Found(k, w)
    requires word & Behind(w - k) == 0 && Undone(word, k) & UpperMask(k) == 0
    ensures Undone(word, k) & 1 == 0
  {
    if w == 8 {
      ShortNever(word, k);
    } else if w == 9 {
      BareNever(word);
    } else {
      EarlyNever(word, k);
    }
  }

  function CheckBits(f: seq<bv8>): (bits: seq<bool>)
    requires |f| >= 2
    ensures |bits| == 16
  {
    MessageBits(f[|f| - 2..])
  }

  lemma {:induction false} MessageBitsConcat(a: seq<bv8>, b: seq<bv8>)
    ensures MessageBits(a + b) == MessageBits(a) + MessageBits(b)
    decreases |a|
  {
    if a == [] {
      assert a + b == b;
    } else {
      assert (a + b)[1..] == a[1..] + b;
      MessageBitsConcat(a[1..], b);
      JoinRight(Bits(a[0]), MessageBits(a[1..]), MessageBits(b));
    }
  }

  lemma JoinRight(p: seq<bool>, x: seq<bool>, y: seq<bool>)
    ensures (p + x) + y == p + (x + y)
  {}

  // All frame bits: the payload's, then the check field's.
  lemma FrameBits(f: seq<bv8>)
    requires |f| >= 2
    ensures MessageBits(f) == PayloadBits(f) + CheckBits(f)
  {
    assert f == f[..|f| - 2] + f[|f| - 2..];
    MessageBitsConcat(f[..|f| - 2], f[|f| - 2..]);
  }

  lemma TwoBytes(hi: bv8, lo: bv8)
    ensures MessageBits([hi, lo]) == Bits(hi) + Bits(lo)
  {
    assert [hi, lo][1..] == [lo] && [lo][1..] == [];
    assert MessageBits([lo]) == Bits(lo) + MessageBits([]);
  }

  // The frames have their first difference at bit s of the payload, and none from bit s + w on.
  ghost predicate DiffersWithin(f1: seq<bv8>, f2: seq<bv8>, s: nat, w: nat)
    requires |f1| == |f2| >= 2
  {
    && s < 8 * (|f1| - 2) && MessageBits(f1)[s] != MessageBits(f2)[s]
    && forall i :: 0 <= i < 8 * |f1| && !(s <= i < s + w) ==> MessageBits(f1)[i] == MessageBits(f2)[i]
  }

  // Payload and check field of frames that differ only there.
  lemma PartsDiffer(f1: seq<bv8>, f2: seq<bv8>, s: nat, w: nat)
    requires |f1| == |f2| >= 2 && DiffersWithin(f1, f2, s, w)
    ensures var n := 8 * (|f1| - 2);
            && PayloadBits(f1)[s] != PayloadBits(f2)[s]
            && (forall i :: 0 <= i < n && !(s <= i < s + w) ==> PayloadBits(f1)[i] == PayloadBits(f2)[i])
            && (forall j :: 0 <= j < 16 && n + j >= s + w ==> CheckBits(f1)[j] == CheckBits(f2)[j])
  {
    FrameBits(f1);
    FrameBits(f2);
    JoinedDiffer(PayloadBits(f1), CheckBits(f1), PayloadBits(f2), CheckBits(f2), s, w);
  }

  lemma JoinedDiffer(p1: seq<bool>, c1: seq<bool>, p2: seq<bool>, c2: seq<bool>, s: nat, w: nat)
    requires |p1| == |p2| && |c1| == |c2| && s < |p1| && (p1 + c1)[s] != (p2 + c2)[s]
    requires forall i :: 0 <= i < |p1| + |c1| && !(s <= i < s + w) ==> (p1 + c1)[i] == (p2 + c2)[i]
    ensures p1[s] != p2[s]
    ensures forall i :: 0 <= i < |p1| && !(s <= i < s + w) ==> p1[i] == p2[i]
    ensures forall j :: 0 <= j < |c1| && |p1| + j >= s + w ==> c1[j] == c2[j]
  {
    forall i | 0 <= i < |p1| && !(s <= i < s + w)
      ensures p1[i] == p2[i]
    {
      assert (p1 + c1)[i] == (p2 + c2)[i];
    }
    forall j | 0 <= j < |c1| && |p1| + j >= s + w
      ensures c1[j] == c2[j]
    {
      assert (p1 + c1)[|p1| + j] == (p2 + c2)[|p1| + j];
    }
  }

  lemma CrossingRejected(f1: seq<bv8>, f2: seq<bv8>, s: nat, w: nat)
    requires Accepts(f1) && |f1| == |f2| && DiffersWithin(f1, f2, s, w)
    requires Found(8 * (|f1| - 2) - s, w)
    ensures !Accepts(f2)
  {
    var n := 8 * (|f1| - 2);
    var x, y := PayloadBits(f1), PayloadBits(f2);
    PartsDiffer(f1, f2, s, w);
    DamagedAcceptedIff(f1, f2);
    DiffFrom(x, y, s);
    CheckWordsAgree(f1, f2, w - (n - s));
    DiffFirst(x[s..], y[s..]);
    NoSuchBurst(Diff(x[s..], y[s..]), w);
  }

  lemma CheckWordsAgree(f1: seq<bv8>, f2: seq<bv8>, n: nat)
    requires |f1| == |f2| >= 2 && n <= 16 && forall j :: n <= j < 16 ==> CheckBits(f1)[j] == CheckBits(f2)[j]
    ensures Xor(CheckWord(f1), CheckWord(f2)) & Behind(n) == 0
  {
    var k := |f1| - 2;
    assert CheckBits(f1) == MessageBits(f1[k..]) && CheckBits(f2) == MessageBits(f2[k..]);
    WordsAgree(f1[k..], f2[k..], n);
    assert f1[k..][0] == f1[k] && f1[k..][1] == f1[k + 1] && f2[k..][0] == f2[k] && f2[k..][1] == f2[k + 1];
  }

  lemma WordsAgree(c1: seq<bv8>, c2: seq<bv8>, n: nat)
    requires |c1| == |c2| == 2 && n <= 16 && forall j :: n <= j < 16 ==> MessageBits(c1)[j] == MessageBits(c2)[j]
    ensures Xor(Word(c1[0], c1[1]), Word(c2[0], c2[1])) & Behind(n) == 0
  {
    TwoBytes(c1[0], c1[1]);
    TwoBytes(c2[0], c2[1]);
    assert c1 == [c1[0], c1[1]] && c2 == [c2[0], c2[1]];
    FieldsAgree(c1[0], c1[1], c2[0], c2[1], n);
  }

  lemma DiffFirst(x: seq<bool>, y: seq<bool>)
    requires |x| == |y| > 0 && x[0] != y[0]
    ensures Diff(x, y)[0]
  {}

  lemma SameCheckBits(f1: seq<bv8>, f2: seq<bv8>)
    requires |f1| == |f2| >= 2 && forall j :: 0 <= j < 16 ==> CheckBits(f1)[j] == CheckBits(f2)[j]
    ensures f1[|f1| - 2..] == f2[|f2| - 2..]
  {
    assert CheckBits(f1) == CheckBits(f2);
    MessageBitsInjective(f1[|f1| - 2..], f2[|f2| - 2..]);
  }

  lemma InsideRejected(f1: seq<bv8>, f2: seq<bv8>, s: nat, w: nat)
    requires Accepts(f1) && |f1| == |f2| && DiffersWithin(f1, f2, s, w) && w <= 16
    requires s + w <= 8 * (|f1| - 2)
    ensures !Accepts(f2)
  {
    PartsDiffer(f1, f2, s, w);
    SameCheckBits(f1, f2);
    BurstRejected(f1, f2, s);
  }

  /** A burst of at most 16 bits whose first wrong bit is seven or more bits before the end of the payload is
      rejected, also where it reaches into the check field. */
  lemma EarlyBurstRejected(f1: seq<bv8>, f2: seq<bv8>, s: nat)
    requires Accepts(f1) && |f1| == |f2| && DiffersWithin(f1, f2, s, 16) && s + 7 <= 8 * (|f1| - 2)
    ensures !Accepts(f2)
  {
    if s + 16 <= 8 * (|f1| - 2) {
      InsideRejected(f1, f2, s, 16);
    } else {
      CrossingRejected(f1, f2, s, 16);
    }
  }

  // All differences lie within w consecutive bits, anywhere in the frames.
  ghost predicate Burst(f1: seq<bv8>, f2: seq<bv8>, at: nat, w: nat)
    requires |f1| == |f2|
  {
    forall i :: 0 <= i < 8 * |f1| && !(at <= i < at + w) ==> MessageBits(f1)[i] == MessageBits(f2)[i]
  }

  lemma {:induction false} FirstDifference(x: seq<bool>, y: seq<bool>) returns (s: nat)
    requires |x| == |y| && x != y
    ensures s < |x| && x[s] != y[s] && forall i :: 0 <= i < s ==> x[i] == y[i]
    decreases |x|
  {
    if x[0] != y[0] {
      s := 0;
    } else {
      assert x == [x[0]] + x[1..] && y == [y[0]] + y[1..];
      var t := FirstDifference(x[1..], y[1..]);
      s := t + 1;
      forall i | 0 <= i < s
        ensures x[i] == y[i]
      {
        if i > 0 {
          assert x[1..][i - 1] == y[1..][i - 1];
        }
      }
    }
  }

  /** Every burst of at most eight bits, anywhere in a frame, is rejected. */
  lemma ShortBurstRejected(f1: seq<bv8>, f2: seq<bv8>, at: nat, w: nat)
    requires Accepts(f1) && |f1| == |f2| && f1 != f2 && Burst(f1, f2, at, w) && w <= 8
    ensures !Accepts(f2)
  {
    var n := 8 * (|f1| - 2);
    if PayloadBits(f1) == PayloadBits(f2) {
      MessageBitsInjective(f1[..|f1| - 2], f2[..|f2| - 2]);
      BurstRejected(f1, f2, 0);
    } else {
      FrameBits(f1);
      FrameBits(f2);
      var s := FirstDifference(PayloadBits(f1), PayloadBits(f2));
      StartsAt(f1, f2, at, w, s);
      if s + 8 <= n {
        InsideRejected(f1, f2, s, 8);
      } else {
        CrossingRejected(f1, f2, s, 8);
      }
    }
  }

  lemma StartsAt(f1: seq<bv8>, f2: seq<bv8>, at: nat, w: nat, s: nat)
    requires |f1| == |f2| >= 2 && Burst(f1, f2, at, w) && w <= 8 && s < |PayloadBits(f1)|
    requires PayloadBits(f1)[s] != PayloadBits(f2)[s]
    requires forall i :: 0 <= i < s ==> PayloadBits(f1)[i] == PayloadBits(f2)[i]
    ensures DiffersWithin(f1, f2, s, 8)
  {
    FrameBits(f1);
    FrameBits(f2);
    forall i | 0 <= i < |PayloadBits(f1)|
      ensures MessageBits(f1)[i] == PayloadBits(f1)[i] && MessageBits(f2)[i] == PayloadBits(f2)[i]
    {}
  }

  // ---------------------------------------------------------------- nine bits

  lemma Half8Linear(a: bv16, b: bv16)
    ensures Xor(Half8(a), Half8(b)) == Half8(Xor(a, b))
  {
    var a1, b1 := Half(a), Half(b);
    var a2, b2 := Half(a1), Half(b1);
    var a3, b3 := Half(a2), Half(b2);
    var a4, b4 := Half(a3), Half(b3);
    var a5, b5 := Half(a4), Half(b4);
    var a6, b6 := Half(a5), Half(b5);
    var a7, b7 := Half(a6), Half(b6);
    HalfLinear(a, b, Xor(a, b));
    HalfLinear(a1, b1, Xor(a1, b1));
    HalfLinear(a2, b2, Xor(a2, b2));
    HalfLinear(a3, b3, Xor(a3, b3));
    HalfLinear(a4, b4, Xor(a4, b4));
    HalfLinear(a5, b5, Xor(a5, b5));
    HalfLinear(a6, b6, Xor(a6, b6));
    HalfLinear(a7, b7, Xor(a7, b7));
  }

  lemma XorFlips(c: bv16, b: bv8, e: bv8)
    ensures Xor(c, (b ^ e) as bv16) == Xor(Xor(c, b as bv16), e as bv16)
  {}

  lemma FlipsCrc(m: seq<bv8>, b: bv8, e: bv8)
    ensures Crc(m + [b ^ e]) == Xor(Crc(m + [b]), Half8(e as bv16))
  {
    FoldSnoc(INITIAL, m, b);
    FoldSnoc(INITIAL, m, b ^ e);
    var c := Fold(INITIAL, m);
    XorFlips(c, b, e);
    Half8Linear(Xor(c, b as bv16), e as bv16);
  }

  // Bits that differ at n and not before.
  predicate FlipsFrom(x: seq<bool>, y: seq<bool>, n: nat)
    requires |x| == |y| == 8 && n < 8
  {
    x[n] != y[n] && forall i :: 0 <= i < n ==> x[i] == y[i]
  }

  // Bits that agree from n on, where n may be below 0.
  predicate SameFrom(x: seq<bool>, y: seq<bool>, n: int)
    requires |x| == |y| == 8
  {
    forall i :: 0 <= i < 8 && n <= i ==> x[i] == y[i]
  }

  // Flipping the bits e of any byte changes bit n and none before, or none from n on.
  ghost predicate AllFlip(e: bv8, n: nat)
    requires n < 8
  {
    forall b: bv8 :: FlipsFrom(Bits(b), Bits(b ^ e), n)
  }

  ghost predicate AllKeep(e: bv8, n: int) {
    forall b: bv8 :: SameFrom(Bits(b), Bits(b ^ e), n)
  }

  lemma Flips1()
    ensures AllFlip(0x80, 7)
  {}

  lemma Flips2()
    ensures AllFlip(0xC0, 6)
  {}

  lemma Flips3()
    ensures AllFlip(0x60, 5)
  {}

  lemma Flips4()
    ensures AllFlip(0x30, 4)
  {}

  lemma Flips5()
    ensures AllFlip(0x18, 3)
  {}

  lemma Flips6()
    ensures AllFlip(0x0C, 2)
  {}

  lemma Keeps1()
    ensures AllKeep(0x01, 1)
  {
    forall b: bv8
      ensures SameFrom(Bits(b), Bits(b ^ 0x01), 1)
    {
      assert b as bv16 >> 1 == (b ^ 0x01) as bv16 >> 1;
    }
  }

  lemma Keeps2()
    ensures AllKeep(0x50, 7)
  {}

  lemma Keeps3()
    ensures AllKeep(0x28, 6)
  {}

  lemma Keeps4()
    ensures AllKeep(0x14, 5)
  {}

  lemma Keeps5()
    ensures AllKeep(0x0A, 4)
  {}

  lemma Keeps6()
    ensures AllKeep(0x05, 3)
  {}

  lemma NoFlips(n: int)
    ensures AllKeep(0, n)
  {}

  // An error e in the last byte of the payload begins k bits before its end, and the error that it makes in the
  // check field, with the bytes hi and lo, ends before bit n.
  ghost predicate Spans(e: bv8, hi: bv8, lo: bv8, k: nat, n: nat) {
    && 1 <= k <= 8 && Half8(e as bv16) == Word(hi, lo)
    && AllFlip(e, 8 - k) && AllKeep(hi, n) && AllKeep(lo, n - 8)
  }

  lemma Spans1()
    ensures Spans(0x80, 0xA0, 0x01, 1, 9)
  {
    Flips1();
    Keeps1();
  }

  lemma Spans2()
    ensures Spans(0xC0, 0x50, 0x00, 2, 7)
  {
    Flips2();
    Keeps2();
    NoFlips(-1);
  }

  lemma Spans3()
    ensures Spans(0x60, 0x28, 0x00, 3, 6)
  {
    Flips3();
    Keeps3();
    NoFlips(-2);
  }

  lemma Spans4()
    ensures Spans(0x30, 0x14, 0x00, 4, 5)
  {
    Flips4();
    Keeps4();
    NoFlips(-3);
  }

  lemma Spans5()
    ensures Spans(0x18, 0x0A, 0x00, 5, 4)
  {
    Flips5();
    Keeps5();
    NoFlips(-4);
  }

  lemma Spans6()
    ensures Spans(0x0C, 0x05, 0x00, 6, 3)
  {
    Flips6();
    Keeps6();
    NoFlips(-5);
  }

  lemma ThreeMoreBytes(m: seq<bv8>, b: bv8, hi: bv8, lo: bv8)
    ensures MessageBits((m + [b]) + [hi, lo]) == MessageBits(m) + Bits(b) + Bits(hi) + Bits(lo)
  {
    assert (m + [b]) + [hi, lo] == ((m + [b]) + [hi]) + [lo];
    MessageBitsAppend((m + [b]) + [hi], lo);
    MessageBitsAppend(m + [b], hi);
    MessageBitsAppend(m, b);
  }

  lemma SplitXor(w: bv16, hi: bv8, lo: bv8)
    ensures High(w ^ Word(hi, lo)) == High(w) ^ hi && Low(w ^ Word(hi, lo)) == Low(w) ^ lo
  {}

  lemma XorNamed(w: bv16, w1: bv16, hi: bv8, lo: bv8)
    requires w1 == Xor(w, Word(hi, lo))
    ensures High(w1) == High(w) ^ hi && Low(w1) == Low(w) ^ lo
  {
    SplitXor(w, hi, lo);
  }

  lemma PartAt(p: seq<bool>, x: seq<bool>, y: seq<bool>, z: seq<bool>, i: nat)
    requires |x| == |y| == |z| == 8 && i < |p| + 24
    ensures (p + x + y + z)[i] == if i < |p| then p[i] else if i < |p| + 8 then x[i - |p|]
                                  else if i < |p| + 16 then y[i - |p| - 8] else z[i - |p| - 16]
  {}

  lemma SpanAt(p: seq<bool>, x1: seq<bool>, x2: seq<bool>, y1: seq<bool>, y2: seq<bool>, z1: seq<bool>,
               z2: seq<bool>, k: nat, n: nat, i: nat)
    requires 1 <= k <= 8 && |x1| == |x2| == |y1| == |y2| == |z1| == |z2| == 8 && i < |p| + 24
    requires FlipsFrom(x1, x2, 8 - k) && SameFrom(y1, y2, n) && SameFrom(z1, z2, n - 8)
    ensures var g1, g2, s := p + x1 + y1 + z1, p + x2 + y2 + z2, |p| + 8 - k;
            (i == s ==> g1[i] != g2[i]) && (!(s <= i < s + k + n) ==> g1[i] == g2[i])
  {
    PartAt(p, x1, y1, z1, i);
    PartAt(p, x2, y2, z2, i);
  }

  // Two accepted frames that differ in w bits only, from the k-th before the end of the payload on.
  ghost predicate Escapes(f1: seq<bv8>, f2: seq<bv8>, k: nat, w: nat) {
    && Accepts(f1) && Accepts(f2) && |f1| == |f2| >= 3 && 1 <= k <= 8
    && DiffersWithin(f1, f2, 8 * (|f1| - 2) - k, w)
  }

  // Frames whose last three bytes differ within a span.
  lemma SpanDiffers(f1: seq<bv8>, f2: seq<bv8>, p: seq<bool>, x1: seq<bool>, x2: seq<bool>, y1: seq<bool>,
                    y2: seq<bool>, z1: seq<bool>, z2: seq<bool>, k: nat, n: nat)
    requires |f1| == |f2| >= 3 && 1 <= k <= 8 && |x1| == |x2| == |y1| == |y2| == |z1| == |z2| == 8
    requires MessageBits(f1) == p + x1 + y1 + z1 && MessageBits(f2) == p + x2 + y2 + z2
    requires FlipsFrom(x1, x2, 8 - k) && SameFrom(y1, y2, n) && SameFrom(z1, z2, n - 8)
    ensures DiffersWithin(f1, f2, 8 * (|f1| - 2) - k, k + n)
  {
    var s := |p| + 8 - k;
    SpanAt(p, x1, x2, y1, y2, z1, z2, k, n, s);
    forall i | 0 <= i < 8 * |f1| && !(s <= i < s + k + n)
      ensures MessageBits(f1)[i] == MessageBits(f2)[i]
    {
      SpanAt(p, x1, x2, y1, y2, z1, z2, k, n, i);
    }
  }

  lemma FlippedCrc(m: seq<bv8>, b: bv8, e: bv8, hi: bv8, lo: bv8)
    requires Half8(e as bv16) == Word(hi, lo)
    ensures High(Crc(m + [b ^ e])) == High(Crc(m + [b])) ^ hi && Low(Crc(m + [b ^ e])) == Low(Crc(m + [b])) ^ lo
  {
    FlipsCrc(m, b, e);
    XorNamed(Crc(m + [b]), Crc(m + [b ^ e]), hi, lo);
  }

  lemma SealedBits(m: seq<bv8>, b: bv8)
    ensures var w, f := Crc(m + [b]), Seal(m + [b]);
            Accepts(f) && |f| == |m| + 3 && MessageBits(f) == MessageBits(m) + Bits(b) + Bits(High(w)) + Bits(Low(w))
  {
    SealAccepted(m + [b]);
    ThreeMoreBytes(m, b, High(Crc(m + [b])), Low(Crc(m + [b])));
  }

  lemma FlipOf(e: bv8, n: nat, b: bv8)
    requires n < 8 && AllFlip(e, n)
    ensures FlipsFrom(Bits(b), Bits(b ^ e), n)
  {}

  lemma KeepOf(e: bv8, n: int, b: bv8, b1: bv8)
    requires AllKeep(e, n) && b1 == b ^ e
    ensures SameFrom(Bits(b), Bits(b1), n)
  {}

  lemma SealsDiffer(m: seq<bv8>, b: bv8, e: bv8, hi: bv8, lo: bv8, k: nat, n: nat)
    requires Spans(e, hi, lo, k, n)
    ensures var w, w1 := Crc(m + [b]), Crc(m + [b ^ e]);
            && FlipsFrom(Bits(b), Bits(b ^ e), 8 - k)
            && SameFrom(Bits(High(w)), Bits(High(w1)), n) && SameFrom(Bits(Low(w)), Bits(Low(w1)), n - 8)
  {
    var w, w1 := Crc(m + [b]), Crc(m + [b ^ e]);
    FlippedCrc(m, b, e, hi, lo);
    FlipOf(e, 8 - k, b);
    KeepOf(hi, n, High(w), High(w1));
    KeepOf(lo, n - 8, Low(w), Low(w1));
  }

  lemma Missed(m: seq<bv8>, b: bv8, e: bv8, hi: bv8, lo: bv8, k: nat, n: nat)
    requires Spans(e, hi, lo, k, n)
    ensures Escapes(Seal(m + [b]), Seal(m + [b ^ e]), k, k + n)
  {
    var w, w1 := Crc(m + [b]), Crc(m + [b ^ e]);
    SealsDiffer(m, b, e, hi, lo, k, n);
    SealedBits(m, b);
    SealedBits(m, b ^ e);
    SpanDiffers(Seal(m + [b]), Seal(m + [b ^ e]), MessageBits(m), Bits(b), Bits(b ^ e),
                Bits(High(w)), Bits(High(w1)), Bits(Low(w)), Bits(Low(w1)), k, n);
  }

  lemma ErrorFor(k: nat) returns (e: bv8, hi: bv8, lo: bv8)
    requires 1 <= k <= 6
    ensures Spans(e, hi, lo, k, if k == 1 then 9 else 9 - k)
  {
    match k
    case 1 =>
      Spans1();
      e, hi, lo := 0x80, 0xA0, 0x01;
    case 2 =>
      Spans2();
      e, hi, lo := 0xC0, 0x50, 0x00;
    case 3 =>
      Spans3();
      e, hi, lo := 0x60, 0x28, 0x00;
    case 4 =>
      Spans4();
      e, hi, lo := 0x30, 0x14, 0x00;
    case 5 =>
      Spans5();
      e, hi, lo := 0x18, 0x0A, 0x00;
    case 6 =>
      Spans6();
      e, hi, lo := 0x0C, 0x05, 0x00;
  }

  /** The high byte of the CRC goes first, so the guarantee does not reach over the end of the payload: every
      non-empty payload has, for each start from one to six bits before its end, an error that is accepted and
      lies within nine consecutive bits, or ten if only the last bit of the payload is wrong. */
  lemma BurstMissed(m: seq<bv8>, b: bv8, k: nat) returns (e: bv8)
    requires 1 <= k <= 6
    ensures Escapes(Seal(m + [b]), Seal(m + [b ^ e]), k, if k == 1 then 10 else 9)
  {
    var hi, lo;
    e, hi, lo := ErrorFor(k);
    Missed(m, b, e, hi, lo, k, if k == 1 then 9 else 9 - k);
  }

  ghost predicate RejectsBursts(w: nat) {
    forall f1: seq<bv8>, f2: seq<bv8>, at: nat ::
      Accepts(f1) && |f1| == |f2| && f1 != f2 && Burst(f1, f2, at, w) ==> !Accepts(f2)
  }

  // Every burst of w bits that begins k bits before the end of the payload.
  ghost predicate RejectsFrom(k: nat, w: nat) {
    forall f1: seq<bv8>, f2: seq<bv8> ::
      Accepts(f1) && |f1| == |f2| && k <= 8 * (|f1| - 2) && DiffersWithin(f1, f2, 8 * (|f1| - 2) - k, w)
      ==> !Accepts(f2)
  }

  lemma StartFound(f1: seq<bv8>, f2: seq<bv8>, k: nat, w: nat)
    requires Accepts(f1) && |f1| == |f2| && 1 <= k <= 8 * (|f1| - 2) && w <= 16
    requires DiffersWithin(f1, f2, 8 * (|f1| - 2) - k, w)
    requires w <= 8 || k >= 7 || (k == 1 && w == 9)
    ensures !Accepts(f2)
  {
    var s := 8 * (|f1| - 2) - k;
    if w <= 8 {
      ShortBurstRejected(f1, f2, s, w);
    } else if k >= 7 {
      EarlyBurstRejected(f1, f2, s);
    } else {
      CrossingRejected(f1, f2, s, 9);
    }
  }

  lemma EscapedNotRejected(f1: seq<bv8>, f2: seq<bv8>, k: nat, span: nat, w: nat)
    requires Escapes(f1, f2, k, span) && w >= span
    ensures !RejectsFrom(k, w) && !RejectsBursts(w)
  {
    assert DiffersWithin(f1, f2, 8 * (|f1| - 2) - k, w);
    assert f1 != f2 && Burst(f1, f2, 8 * (|f1| - 2) - k, w);
  }

  lemma StartMissed(k: nat, w: nat)
    requires 1 <= k <= 6 && w >= 9 && (k == 1 ==> w >= 10)
    ensures !RejectsFrom(k, w) && !RejectsBursts(w)
  {
    var e := BurstMissed([], 0, k);
    EscapedNotRejected(Seal([] + [0]), Seal([] + [0 ^ e]), k, if k == 1 then 10 else 9, w);
  }

  /** Exactly which bursts of up to 16 bits that begin in the payload are always found, by their length and by
      how far before the end of the payload they begin. */
  lemma RejectsFromIff(k: nat, w: nat)
    requires k >= 1 && w <= 16
    ensures RejectsFrom(k, w) <==> w <= 8 || k >= 7 || (k == 1 && w == 9)
  {
    if w <= 8 || k >= 7 || (k == 1 && w == 9) {
      forall f1: seq<bv8>, f2: seq<bv8>
        | Accepts(f1) && |f1| == |f2| && k <= 8 * (|f1| - 2) && DiffersWithin(f1, f2, 8 * (|f1| - 2) - k, w)
        ensures !Accepts(f2)
      {
        StartFound(f1, f2, k, w);
      }
    } else {
      StartMissed(k, w);
    }
  }

  /** Exactly how long a burst the CRC promises to find, wherever in the frame it is: eight bits. */
  lemma RejectsBurstsIff(w: nat)
    ensures RejectsBursts(w) <==> w <= 8
  {
    if w <= 8 {
      forall f1: seq<bv8>, f2: seq<bv8>, at: nat
        | Accepts(f1) && |f1| == |f2| && f1 != f2 && Burst(f1, f2, at, w)
        ensures !Accepts(f2)
      {
        ShortBurstRejected(f1, f2, at, w);
      }
    } else {
      StartMissed(2, w);
    }
  }
}
