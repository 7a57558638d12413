/** What the CRC gate of StartParser (parser.go) lets through: frames whose last two bytes, high byte
    first, are the CRC of what is before them. */
module CrcFrames {
  import opened Crc16

  function High(w: bv16): bv8 {
    (w >> 8) as bv8
  }

  function Low(w: bv16): bv8 {
    (w & 0xFF) as bv8
  }

  lemma WordJoins(w: bv16)
    ensures Word(High(w), Low(w)) == w
  {}

  lemma WordSplits(hi: bv8, lo: bv8)
    ensures High(Word(hi, lo)) == hi
    ensures Low(Word(hi, lo)) == lo
  {}

  function Seal(m: seq<bv8>): seq<bv8> {
    m + [High(Crc(m)), Low(Crc(m))]
  }

  predicate Accepts(f: seq<bv8>) {
    |f| >= 2 && Word(f[|f| - 2], f[|f| - 1]) == Crc(f[..|f| - 2])
  }

  /** The gate lets a frame through if and only if a builder could have sealed it. */
  lemma AcceptsIffSealed(f: seq<bv8>)
    ensures Accepts(f) <==> |f| >= 2 && f == Seal(f[..|f| - 2])
  {
    if |f| >= 2 {
      var m := f[..|f| - 2];
      WordJoins(Crc(m));
      WordSplits(f[|f| - 2], f[|f| - 1]);
      assert f == m + [f[|f| - 2], f[|f| - 1]];
    }
  }

  lemma SealAccepted(m: seq<bv8>)
    ensures Accepts(Seal(m))
  {
    WordJoins(Crc(m));
    assert Seal(m)[..|m|] == m;
  }

  // ---------------------------------------------------------------- errors in one part of a frame

  // The frames differ within 16 bits in front of the check field, or in the check field alone.
  predicate ErrorInOnePart(f1: seq<bv8>, f2: seq<bv8>, at: nat)
    requires |f1| == |f2| >= 2
  {
    var n := |f1| - 2;
    var m1, m2 := f1[..n], f2[..n];
    || m1 == m2
    || (f1[n..] == f2[n..]
        && forall i :: 0 <= i < 8 * n && !(at <= i < at + 16) ==> MessageBits(m1)[i] == MessageBits(m2)[i])
  }

  /** A frame with a burst of at most 16 bits in front of its check field, or with any change of the
      check field alone, is rejected. */
  lemma BurstRejected(f1: seq<bv8>, f2: seq<bv8>, at: nat)
    requires Accepts(f1) && |f1| == |f2| && f1 != f2 && ErrorInOnePart(f1, f2, at)
    ensures !Accepts(f2)
  {
    var n := |f1| - 2;
    var m1, m2 := f1[..n], f2[..n];
    AcceptsIffSealed(f1);
    AcceptsIffSealed(f2);
    if m1 != m2 {
      BurstDetected(m1, m2, at);
      assert f1[n..][0] == f1[n] && f2[n..][0] == f2[n] && f1[n..][1] == f1[n + 1] && f2[n..][1] == f2[n + 1];
    }
  }

  // ---------------------------------------------------------------- odd numbers of errors

  lemma WordParity(hi: bv8, lo: bv8)
    ensures OddRegister(Word(hi, lo)) == (OddBits(Bits(hi)) != OddBits(Bits(lo)))
  {
    EightParity(Bits(hi));
    EightParity(Bits(lo));
    WordParityBits(hi, lo);
  }

  predicate Odd8(s: seq<bool>)
    requires |s| == 8
  {
    s[0] != (s[1] != (s[2] != (s[3] != (s[4] != (s[5] != (s[6] != s[7]))))))
  }

  lemma WordParityBits(hi: bv8, lo: bv8)
    ensures OddRegister(Word(hi, lo)) == (Odd8(Bits(hi)) != Odd8(Bits(lo)))
  {}

  lemma FourParity(s: seq<bool>)
    requires |s| >= 4
    ensures OddBits(s) == (s[0] != (s[1] != (s[2] != (s[3] != OddBits(s[4..])))))
  {
    assert s[1..][1..] == s[2..] && s[2..][1..] == s[3..] && s[3..][1..] == s[4..];
    assert OddBits(s) == (s[0] != OddBits(s[1..]));
    assert OddBits(s[1..]) == (s[1] != OddBits(s[2..]));
    assert OddBits(s[2..]) == (s[2] != OddBits(s[3..]));
    assert OddBits(s[3..]) == (s[3] != OddBits(s[4..]));
  }

  lemma EightParity(s: seq<bool>)
    requires |s| == 8
    ensures OddBits(s) == Odd8(s)
  {
    FourParity(s);
    FourParity(s[4..]);
    assert s[4..][4..] == [];
  }

  lemma {:induction false} OddAppend(x: seq<bool>, y: seq<bool>)
    ensures OddBits(x + y) == (OddBits(x) != OddBits(y))
    decreases |x|
  {
    if x == [] {
      assert x + y == y;
    } else {
      assert (x + y)[1..] == x[1..] + y;
      OddAppend(x[1..], y);
    }
  }

  lemma {:induction false} MessageBitsAppend(m: seq<bv8>, b: bv8)
    ensures MessageBits(m + [b]) == MessageBits(m) + Bits(b)
    decreases |m|
  {
    if m == [] {
      assert [b][1..] == [];
      assert MessageBits([b]) == Bits(b) + MessageBits([]);
    } else {
      assert (m + [b])[1..] == m[1..] + [b];
      MessageBitsAppend(m[1..], b);
    }
  }

  /** Every accepted frame has an even number of set bits. */
  lemma AcceptedIsEven(f: seq<bv8>)
    requires Accepts(f)
    ensures !OddBits(MessageBits(f))
  {
    var m, hi, lo := f[..|f| - 2], f[|f| - 2], f[|f| - 1];
    assert f == (m + [hi]) + [lo];
    MessageBitsAppend(m + [hi], lo);
    MessageBitsAppend(m, hi);
    OddAppend(MessageBits(m) + Bits(hi), Bits(lo));
    OddAppend(MessageBits(m), Bits(hi));
    WordParity(hi, lo);
    FoldIsRun(INITIAL, m);
    RunKeepsParity(INITIAL, MessageBits(m));
    InitialIsEven();
  }

  lemma InitialIsEven()
    ensures !OddRegister(INITIAL)
  {}

  /** So a frame with an odd number of bit errors anywhere, in the check field too, is rejected. */
  lemma OddErrorsRejected(f1: seq<bv8>, f2: seq<bv8>)
    requires Accepts(f1) && |f1| == |f2| && Distance(MessageBits(f1), MessageBits(f2)) % 2 == 1
    ensures !Accepts(f2)
  {
    AcceptedIsEven(f1);
    if Accepts(f2) {
      AcceptedIsEven(f2);
    }
    DistanceParity(MessageBits(f1), MessageBits(f2));
  }
}
