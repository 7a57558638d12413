/** A sender for the reassembler: fragments built with their PDU headers and sent in order, what comes out,
    and when it is whole. */
module ReassemblySender {
  import opened Bytes
  import opened Reassembly
  import opened ReassemblyInvariant
  import opened ReassemblyRuns
  import opened ReassemblyCompletion

  // ---------------------------------------------------------------- fragments

  // The frame of one fragment: the PDU header and the data.
  function PieceFrame(sensor: string, count: Byte, sseq: nat, pseq: nat, data: seq<Byte>): Frame {
    Frame(sensor, count, 1, 0, BE16Bytes(sseq * 1024 + pseq * 2) + LE16Bytes(|data|) + data, 0)
  }

  lemma HeaderBytes(sseq: nat, pseq: nat)
    requires sseq < 64 && pseq < 128
    ensures BE16Bytes(sseq * 1024 + pseq * 2) == [4 * sseq, 2 * pseq]
  {
    assert sseq * 1024 + pseq * 2 == 256 * (4 * sseq) + 2 * pseq;
  }

  lemma PartsDecode(f: Frame, sseq: nat, pseq: nat, size: seq<Byte>, data: seq<Byte>)
    requires sseq < 64 && pseq < 128 && |size| == 2 && LE16(size[0], size[1]) == |data| && f.fragInd != 0
    requires f.payload == [4 * sseq, 2 * pseq] + size + data
    ensures Decode(f) == Fragment(sseq, pseq, data)
  {
    assert f.payload[2] == size[0] && f.payload[3] == size[1];
    assert f.payload[4..4 + |data|] == data;
  }

  /** The PDU header reads back for all its SSEQ, PSEQ and sizes. */
  lemma PieceDecodes(sensor: string, count: Byte, sseq: nat, pseq: nat, data: seq<Byte>)
    requires sseq < 64 && pseq < 128 && |data| < 0x1_0000
    ensures Decode(PieceFrame(sensor, count, sseq, pseq, data)) == Fragment(sseq, pseq, data)
  {
    HeaderBytes(sseq, pseq);
    PartsDecode(PieceFrame(sensor, count, sseq, pseq, data), sseq, pseq, LE16Bytes(|data|), data);
  }

  ghost predicate Sendable(sdu: Sdu) {
    sdu.sseq < 64 && sdu.last < 128 && forall p :: 0 <= p <= sdu.last ==> |sdu.content(p)| < 0x1_0000
  }

  function PieceOf(sdu: Sdu, p: nat): Frame {
    PieceFrame(sdu.sensor, sdu.count, sdu.sseq, p, sdu.content(p))
  }

  lemma PieceCarries(sdu: Sdu, p: nat)
    requires Sendable(sdu) && p <= sdu.last
    ensures CarriesPiece(PieceOf(sdu, p), sdu) && Decode(PieceOf(sdu, p)) == Fragment(sdu.sseq, p, sdu.content(p))
  {
    PieceDecodes(sdu.sensor, sdu.count, sdu.sseq, p, sdu.content(p));
  }

  /** Exactly which SDUs can be sent: those whose SSEQ, numbers and sizes fit their fields. */
  lemma SendableIff(sdu: Sdu)
    ensures Sendable(sdu)
            <==> forall p :: 0 <= p <= sdu.last ==> Decode(PieceOf(sdu, p)) == Fragment(sdu.sseq, p, sdu.content(p))
  {
    if Sendable(sdu) {
      forall p | 0 <= p <= sdu.last
        ensures Decode(PieceOf(sdu, p)) == Fragment(sdu.sseq, p, sdu.content(p))
      {
        PieceCarries(sdu, p);
      }
    } else if forall p :: 0 <= p <= sdu.last ==> Decode(PieceOf(sdu, p)) == Fragment(sdu.sseq, p, sdu.content(p)) {
      assert Decode(PieceOf(sdu, sdu.last)) == Fragment(sdu.sseq, sdu.last, sdu.content(sdu.last));
      forall p | 0 <= p <= sdu.last
        ensures |sdu.content(p)| < 0x1_0000
      {
        FragmentFits(PieceOf(sdu, p));
      }
    }
  }

  lemma FragmentFits(f: Frame)
    requires Decode(f).Fragment?
    ensures |Decode(f).data| < 0x1_0000
  {}

  function Pieces(sdu: Sdu): nat -> Frame {
    (p: nat) => PieceOf(sdu, p)
  }

  // ---------------------------------------------------------------- sending in order

  // The frames bring the numbers of the SDU.
  ghost predicate Brings(piece: nat -> Frame, sdu: Sdu) {
    forall p: nat :: p <= sdu.last ==>
      piece(p).sensorID == sdu.sensor && CarriesPiece(piece(p), sdu) && Number(piece(p)) == p
  }

  // The first n frames in order.  The first of them replaces an older transfer of the sensor, if there is one,
  // and is then processed again.
  function SentInOrder(piece: nat -> Frame, n: nat, busy: bool): seq<Event> {
    if n == 0 then []
    else if n == 1 && busy then [Receive(piece(0))] + [Resume]
    else SentInOrder(piece, n - 1, busy) + [Receive(piece(n - 1))]
  }

  function Below(n: nat): set<nat> {
    if n == 0 then {} else Below(n - 1) + {n - 1}
  }

  lemma {:induction false} BelowAre(n: nat)
    ensures forall p :: p in Below(n) <==> 0 <= p < n
  {
    if n > 0 {
      BelowAre(n - 1);
    }
  }

  function BelowProgress(n: nat): Progress {
    Progress(Below(n), 0)
  }

  // A run that has brought the first n numbers of the transfer, in order, and has nothing pending.
  ghost predicate Brought(sys: System, es: seq<Event>, sdu: Sdu, n: nat, isEnd: nat -> bool) {
    && CanRun(sys, es, isEnd) && Transfer(sys, es, sdu, isEnd)
    && Run(sys, es, isEnd).pending.None?
    && AccountOf(sys, es, NONE_YET, sdu, isEnd) == Account(BelowProgress(n), [])
  }

  // The reassembler is between two frames, and idle for the sensor.
  ghost predicate Ready(sys: System, sdu: Sdu, isEnd: nat -> bool) {
    Inv(sys, isEnd) && Idle(sys, sdu) && sys.pending.None?
  }

  lemma RunOneMore(sys: System, es: seq<Event>, e: Event, sdu: Sdu, isEnd: nat -> bool)
    requires CanRun(sys, es, isEnd) && Transfer(sys, es, sdu, isEnd)
    requires Enabled(Run(sys, es, isEnd), e) && Undisturbed(Run(sys, es, isEnd), e, sdu)
    ensures CanRun(sys, es + [e], isEnd) && Transfer(sys, es + [e], sdu, isEnd)
    ensures Run(sys, es + [e], isEnd) == Step(Run(sys, es, isEnd), e, isEnd)
    ensures AccountOf(sys, es + [e], NONE_YET, sdu, isEnd)
         == Enter(AccountOf(sys, es, NONE_YET, sdu, isEnd), EffectOn(Run(sys, es, isEnd), e, sdu.sensor), sdu)
  {
    var all := es + [e];
    assert all[..|all| - 1] == es && all[|all| - 1] == e;
  }

  lemma NoRestart(sys: System, f: Frame, isEnd: nat -> bool)
    requires Decode(f).Fragment?
    requires f.sensorID in sys.core.caches ==> sys.core.caches[f.sensorID].sseq == Decode(f).sseq
    ensures RunSection(sys, f, isEnd).pending.None?
  {}

  // Where the account stands the next fragment is taken, unless it is the first and replaces a transfer.
  lemma StillTracked(sys: System, es: seq<Event>, sdu: Sdu, n: nat, isEnd: nat -> bool)
    requires Ready(sys, sdu, isEnd) && Brought(sys, es, sdu, n, isEnd) && EndsAt(isEnd, sdu.last) && n > 0
    ensures var caches := Run(sys, es, isEnd).core.caches;
            sdu.sensor in caches && caches[sdu.sensor].sseq == sdu.sseq
  {
    BelowAre(n);
    assert 0 in Below(n);
    RunFollows(sys, es, NONE_YET, sdu, isEnd);
  }

  lemma EnterNext(sdu: Sdu, f: Frame, n: nat)
    requires Number(f) == n < sdu.last
    ensures Enter(Account(BelowProgress(n), []), Hands(f), sdu) == Account(BelowProgress(n + 1), [])
  {
    BelowAre(n);
    BelowAre(n + 1);
    assert sdu.last !in Below(n + 1);
  }

  lemma EnterLast(sdu: Sdu, f: Frame)
    requires Number(f) == sdu.last
    ensures Enter(Account(BelowProgress(sdu.last), []), Hands(f), sdu) == Account(NONE_YET, [Emission(f, sdu, 0)])
  {
    BelowAre(sdu.last);
    BelowAre(sdu.last + 1);
    assert 0 in Below(sdu.last + 1);
  }

  // The run can be extended by the events, which hand over f and leave nothing pending.
  ghost predicate Takes(sys: System, all: seq<Event>, f: Frame, sdu: Sdu, n: nat, isEnd: nat -> bool) {
    && CanRun(sys, all, isEnd) && Transfer(sys, all, sdu, isEnd) && Run(sys, all, isEnd).pending.None?
    && AccountOf(sys, all, NONE_YET, sdu, isEnd) == Enter(Account(BelowProgress(n), []), Hands(f), sdu)
  }

  lemma NextTaken(sys: System, es: seq<Event>, f: Frame, sdu: Sdu, n: nat, isEnd: nat -> bool)
    requires Ready(sys, sdu, isEnd) && Brought(sys, es, sdu, n, isEnd) && EndsAt(isEnd, sdu.last)
    requires f.sensorID == sdu.sensor && CarriesPiece(f, sdu)
    requires n == 0 ==> sdu.sensor !in Run(sys, es, isEnd).core.caches
    ensures Takes(sys, es + [Receive(f)], f, sdu, n, isEnd)
  {
    if n > 0 {
      StillTracked(sys, es, sdu, n, isEnd);
    }
    RunOneMore(sys, es, Receive(f), sdu, isEnd);
    NoRestart(Run(sys, es, isEnd), f, isEnd);
  }

  lemma Restarts(sys: System, f: Frame, isEnd: nat -> bool)
    requires Decode(f).Fragment? && f.sensorID in sys.core.caches
    requires sys.core.caches[f.sensorID].sseq != Decode(f).sseq
    ensures RunSection(sys, f, isEnd).pending == Some(f) && f.sensorID !in RunSection(sys, f, isEnd).core.caches
  {}

  // The frame that replaces an older transfer is handed over when its restarted call resumes.
  lemma FirstTakenAfterRestart(sys: System, f: Frame, sdu: Sdu, isEnd: nat -> bool)
    requires Ready(sys, sdu, isEnd) && sdu.sensor in sys.core.caches
    requires f.sensorID == sdu.sensor && CarriesPiece(f, sdu)
    ensures Takes(sys, [Receive(f)] + [Resume], f, sdu, 0, isEnd)
  {
    var es: seq<Event> := [];
    assert es + [Receive(f)] == [Receive(f)];
    Restarts(sys, f, isEnd);
    RunOneMore(sys, es, Receive(f), sdu, isEnd);
    RunOneMore(sys, [Receive(f)], Resume, sdu, isEnd);
    NoRestart(Run(sys, [Receive(f)], isEnd), f, isEnd);
  }

  lemma SentTakes(sys: System, piece: nat -> Frame, sdu: Sdu, n: nat, isEnd: nat -> bool)
    requires Ready(sys, sdu, isEnd) && Brings(piece, sdu) && EndsAt(isEnd, sdu.last) && n <= sdu.last
    requires Brought(sys, SentInOrder(piece, n, sdu.sensor in sys.core.caches), sdu, n, isEnd)
    ensures Takes(sys, SentInOrder(piece, n + 1, sdu.sensor in sys.core.caches), piece(n), sdu, n, isEnd)
  {
    var busy := sdu.sensor in sys.core.caches;
    if n == 0 && busy {
      FirstTakenAfterRestart(sys, piece(0), sdu, isEnd);
    } else {
      NextTaken(sys, SentInOrder(piece, n, busy), piece(n), sdu, n, isEnd);
    }
  }

  lemma NothingBrought(sys: System, piece: nat -> Frame, sdu: Sdu, isEnd: nat -> bool)
    requires Ready(sys, sdu, isEnd)
    ensures Brought(sys, SentInOrder(piece, 0, sdu.sensor in sys.core.caches), sdu, 0, isEnd)
  {
    assert BelowProgress(0) == NONE_YET;
  }

  lemma OneMoreBrought(sys: System, piece: nat -> Frame, sdu: Sdu, n: nat, isEnd: nat -> bool)
    requires Ready(sys, sdu, isEnd) && Brings(piece, sdu) && EndsAt(isEnd, sdu.last) && n < sdu.last
    requires Brought(sys, SentInOrder(piece, n, sdu.sensor in sys.core.caches), sdu, n, isEnd)
    ensures Brought(sys, SentInOrder(piece, n + 1, sdu.sensor in sys.core.caches), sdu, n + 1, isEnd)
  {
    SentTakes(sys, piece, sdu, n, isEnd);
    EnterNext(sdu, piece(n), n);
  }

  lemma {:induction false} InOrderRuns(sys: System, piece: nat -> Frame, sdu: Sdu, n: nat, isEnd: nat -> bool)
    requires Ready(sys, sdu, isEnd) && Brings(piece, sdu) && EndsAt(isEnd, sdu.last) && n <= sdu.last
    ensures Brought(sys, SentInOrder(piece, n, sdu.sensor in sys.core.caches), sdu, n, isEnd)
    decreases n
  {
    if n == 0 {
      NothingBrought(sys, piece, sdu, isEnd);
    } else {
      InOrderRuns(sys, piece, sdu, n - 1, isEnd);
      OneMoreBrought(sys, piece, sdu, n - 1, isEnd);
    }
  }

  /** A transfer from end to end: frames that bring the numbers of an SDU in order to a reassembler that has no
      cache of the sensor, or one of another transfer, and whose end marker is on the last, come out as exactly
      one frame, the last one with all contents joined over its payload. */
  lemma InOrderEmits(sys: System, piece: nat -> Frame, sdu: Sdu, isEnd: nat -> bool)
    requires Ready(sys, sdu, isEnd) && Brings(piece, sdu) && EndsAt(isEnd, sdu.last)
    ensures var es := SentInOrder(piece, sdu.last + 1, sdu.sensor in sys.core.caches);
            && CanRun(sys, es, isEnd)
            && SdusOf(Run(sys, es, isEnd).core.sdus, sdu.sensor)
               == SdusOf(sys.core.sdus, sdu.sensor) + [Emission(piece(sdu.last), sdu, 0)]
  {
    InOrderRuns(sys, piece, sdu, sdu.last, isEnd);
    SentTakes(sys, piece, sdu, sdu.last, isEnd);
    EnterLast(sdu, piece(sdu.last));
    RunFollows(sys, SentInOrder(piece, sdu.last + 1, sdu.sensor in sys.core.caches), NONE_YET, sdu, isEnd);
  }

  /** So do the fragments that a sender builds with their PDU headers. */
  lemma InOrderCompletes(sys: System, sdu: Sdu, isEnd: nat -> bool)
    requires Ready(sys, sdu, isEnd) && Sendable(sdu) && EndsAt(isEnd, sdu.last)
    ensures var es := SentInOrder(Pieces(sdu), sdu.last + 1, sdu.sensor in sys.core.caches);
            && CanRun(sys, es, isEnd)
            && SdusOf(Run(sys, es, isEnd).core.sdus, sdu.sensor)
               == SdusOf(sys.core.sdus, sdu.sensor) + [Emission(PieceOf(sdu, sdu.last), sdu, 0)]
  {
    forall p: nat | p <= sdu.last
      ensures CarriesPiece(Pieces(sdu)(p), sdu) && Number(Pieces(sdu)(p)) == p
    {
      PieceCarries(sdu, p);
    }
    InOrderEmits(sys, Pieces(sdu), sdu, isEnd);
  }

  // ---------------------------------------------------------------- what comes out

  // What the buffer lays over a payload, and what it leaves.
  predicate LaidOver(out: seq<Byte>, payload: seq<Byte>, buffer: seq<Byte>) {
    && |out| == |payload|
    && forall i :: 0 <= i < |out| ==> out[i] == if i < |buffer| then buffer[i] else payload[i]
  }

  lemma OverlayHolds(payload: seq<Byte>, buffer: seq<Byte>)
    ensures LaidOver(Overlay(payload, buffer), payload, buffer)
    ensures buffer <= Overlay(payload, buffer) <==> |buffer| <= |payload|
    ensures |payload| <= |buffer| ==> Overlay(payload, buffer) == buffer[..|payload|]
  {}

  /** Whenever a transfer completes, the emitted frame begins with the whole SDU if and only if that is no
      longer than the payload of the completing frame; otherwise the end of the SDU is lost. */
  lemma EmittedWholeIff(sys: System, es: seq<Event>, e: Event, start: Progress, sdu: Sdu, isEnd: nat -> bool)
    requires Inv(sys, isEnd) && Tracks(sys, sdu, start) && EndsAt(isEnd, sdu.last)
    requires CanRun(sys, es, isEnd) && Transfer(sys, es, sdu, isEnd)
    requires Enabled(Run(sys, es, isEnd), e) && Undisturbed(Run(sys, es, isEnd), e, sdu)
    requires var mid, p := Run(sys, es, isEnd), AccountOf(sys, es, start, sdu, isEnd).progress;
             EffectOn(mid, e, sdu.sensor).Hands? && Covers(Advance(p, Number(EffectOn(mid, e, sdu.sensor).f)), sdu.last)
    ensures var mid, p := Run(sys, es, isEnd), AccountOf(sys, es, start, sdu, isEnd).progress;
            var f := EffectOn(mid, e, sdu.sensor).f;
            var whole := Contents(sdu.content, Advance(p, Number(f)).first, sdu.last + 1);
            exists out: Frame ::
              && SdusOf(Step(mid, e, isEnd).core.sdus, sdu.sensor) == SdusOf(mid.core.sdus, sdu.sensor) + [out]
              && LaidOver(out.payload, f.payload, whole)
              && (whole <= out.payload <==> |whole| <= |f.payload|)
              && (|whole| >= |f.payload| ==> out.payload == whole[..|f.payload|])
  {
    Completion(sys, es, e, start, sdu, isEnd);
    var mid, p := Run(sys, es, isEnd), AccountOf(sys, es, start, sdu, isEnd).progress;
    var f := EffectOn(mid, e, sdu.sensor).f;
    var whole := Contents(sdu.content, Advance(p, Number(f)).first, sdu.last + 1);
    OverlayHolds(f.payload, whole);
    var out := f.(payload := Overlay(f.payload, whole));
    assert SdusOf(Step(mid, e, isEnd).core.sdus, sdu.sensor) == SdusOf(mid.core.sdus, sdu.sensor) + [out];
  }

  /** For a sender in order: what comes out begins with the whole SDU if and only if the contents of all
      fragments before the last total at most four bytes, the size of the PDU header that they overwrite. */
  lemma InOrderWholeIff(sdu: Sdu)
    ensures Contents(sdu.content, 0, sdu.last + 1) <= Emission(PieceOf(sdu, sdu.last), sdu, 0).payload
            <==> |Contents(sdu.content, 0, sdu.last)| <= 4
  {
    OverlayHolds(PieceOf(sdu, sdu.last).payload, Contents(sdu.content, 0, sdu.last + 1));
  }

  /** A run that loses data: of two fragments with five bytes and one, sent in order to an empty reassembler,
      the last byte is missing from the one frame that comes out. */
  lemma DataLost(sensor: string, isEnd: nat -> bool)
    requires EndsAt(isEnd, 1)
    ensures var sdu := Sdu(sensor, 1, 0, (p: nat) => if p == 0 then [1, 2, 3, 4, 5] else [6], 1);
            var es := SentInOrder(Pieces(sdu), 2, false);
            && CanRun(Initial, es, isEnd)
            && exists out: Frame ::
                 SdusOf(Run(Initial, es, isEnd).core.sdus, sensor) == [out] && out.payload == [1, 2, 3, 4, 5]
  {
    var sdu := Sdu(sensor, 1, 0, (p: nat) => if p == 0 then [1, 2, 3, 4, 5] else [6], 1);
    InOrderCompletes(Initial, sdu, isEnd);
    TwoContents(sdu);
    var out := Emission(PieceOf(sdu, 1), sdu, 0);
    OverlayHolds(PieceOf(sdu, 1).payload, [1, 2, 3, 4, 5, 6]);
    assert SdusOf([], sensor) + [out] == [out];
  }

  lemma TwoContents(sdu: Sdu)
    requires sdu.content(0) == [1, 2, 3, 4, 5] && sdu.content(1) == [6]
    ensures Contents(sdu.content, 0, 2) == [1, 2, 3, 4, 5, 6]
  {
    assert Contents(sdu.content, 0, 1) == Contents(sdu.content, 0, 0) + sdu.content(0);
  }
}
