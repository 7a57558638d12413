/** When reassembly completes, and with what: an account of a transfer, kept from its arrivals and time-outs
    alone, that every run follows. */
module ReassemblyCompletion {
  import opened Bytes
  import opened Reassembly
  import opened ReassemblyInvariant
  import opened ReassemblyRuns

  // ---------------------------------------------------------------- one transfer of one sensor

  // A sender's SDU: the parameter count of its frames, and the content of every number under one SSEQ, up
  // to the last number.
  datatype Sdu = Sdu(sensor: string, count: Byte, sseq: nat, content: nat -> seq<Byte>, last: nat)

  ghost predicate CarriesPiece(f: Frame, sdu: Sdu) {
    var d := Decode(f);
    d.Fragment? && d.sseq == sdu.sseq && d.pseq <= sdu.last && d.data == sdu.content(d.pseq)
  }

  // The end marker is on the last number and on none before it.
  ghost predicate EndsAt(isEnd: nat -> bool, last: nat) {
    forall p :: 0 <= p < 128 && p <= last ==> (isEnd(p) <==> p == last)
  }

  // The sensor has no cache, or one of another transfer that the first fragment will replace.
  predicate Idle(sys: System, sdu: Sdu) {
    sdu.sensor in sys.core.caches ==> sys.core.caches[sdu.sensor].sseq != sdu.sseq
  }

  // Fragments of the SDU's sensor belong to the SDU, and no other frame of it is whole.  Timers, its own and
  // others', and other sensors do as they like.
  ghost predicate Undisturbed(sys: System, e: Event, sdu: Sdu) {
    match e
    case Receive(f) => f.sensorID == sdu.sensor ==> OfTransfer(f, sdu)
    case Resume => sys.pending.Some? && sys.pending.value.sensorID == sdu.sensor ==> OfTransfer(sys.pending.value, sdu)
    case _ => true
  }

  ghost predicate OfTransfer(f: Frame, sdu: Sdu) {
    !Decode(f).Whole? && (Decode(f).Fragment? ==> CarriesPiece(f, sdu))
  }

  ghost predicate Transfer(sys: System, es: seq<Event>, sdu: Sdu, isEnd: nat -> bool)
    requires CanRun(sys, es, isEnd)
    decreases |es|
  {
    es == []
    || (Transfer(sys, es[..|es| - 1], sdu, isEnd)
        && Undisturbed(Run(sys, es[..|es| - 1], isEnd), es[|es| - 1], sdu))
  }

  // ---------------------------------------------------------------- the account of a transfer

  // The numbers that have arrived and the first of them.
  datatype Progress = Progress(numbers: set<nat>, first: nat)

  const NONE_YET := Progress({}, 0)

  function Advance(p: Progress, pseq: nat): Progress {
    Progress(p.numbers + {pseq}, if p.numbers == {} then pseq else p.first)
  }

  predicate Covers(p: Progress, last: nat) {
    p.numbers != {} && forall q :: p.first <= q <= last ==> q in p.numbers
  }

  // The contents of lo..hi-1 in order.
  ghost function Contents(content: nat -> seq<Byte>, lo: nat, hi: nat): seq<Byte>
    decreases hi
  {
    if lo >= hi then [] else Contents(content, lo, hi - 1) + content(hi - 1)
  }

  // What a step does to the transfer of a sensor: it hands a fragment to a cache, or a timer of the sensor,
  // the cache's own or an older one, deletes what there is.
  datatype Effect = Nothing | Hands(f: Frame) | TimesOut

  // The frame that ends an older transfer is handed over only when its restarted call resumes.
  function EffectOn(sys: System, e: Event, k: string): Effect {
    match e
    case Receive(f) =>
      if f.sensorID == k && Decode(f).Fragment?
         && (k in sys.core.caches ==> sys.core.caches[k].sseq == Decode(f).sseq)
      then Hands(f) else Nothing
    case Resume =>
      if sys.pending.Some? && sys.pending.value.sensorID == k then Hands(sys.pending.value) else Nothing
    case Expires(g) => if g < |sys.core.timers| && sys.core.timers[g].key == k then TimesOut else Nothing
    case _ => Nothing
  }

  function Number(f: Frame): nat {
    match Decode(f)
    case Fragment(_, pseq, _) => pseq
    case _ => 0
  }

  // What is emitted for the frame that completes the numbers from first on.
  ghost function Emission(f: Frame, sdu: Sdu, first: nat): Frame {
    f.(payload := Overlay(f.payload, Contents(sdu.content, first, sdu.last + 1)))
  }

  // Progress since the last emission or time-out, and the frames emitted.
  datatype Account = Account(progress: Progress, emitted: seq<Frame>)

  ghost function Enter(acc: Account, effect: Effect, sdu: Sdu): Account {
    match effect
    case Nothing => acc
    case TimesOut => Account(NONE_YET, acc.emitted)
    case Hands(f) =>
      var p := Advance(acc.progress, Number(f));
      if Covers(p, sdu.last) then Account(NONE_YET, acc.emitted + [Emission(f, sdu, p.first)])
      else Account(p, acc.emitted)
  }

  ghost function AccountOf(sys: System, es: seq<Event>, start: Progress, sdu: Sdu, isEnd: nat -> bool): Account
    requires CanRun(sys, es, isEnd)
    decreases |es|
  {
    if es == [] then Account(start, [])
    else
      var pre := es[..|es| - 1];
      Enter(AccountOf(sys, pre, start, sdu, isEnd), EffectOn(Run(sys, pre, isEnd), es[|es| - 1], sdu.sensor), sdu)
  }

  // ---------------------------------------------------------------- the cache behind the account

  // Before the first number the sensor is idle; from then on its cache is the transfer's, and the log
  // says what the progress says.
  ghost predicate Tracks(sys: System, sdu: Sdu, p: Progress) {
    var k := sdu.sensor;
    if p.numbers == {} then Idle(sys, sdu)
    else
      && p.first in p.numbers && k in sys.core.caches && k in sys.logs
      && sys.core.caches[k].sseq == sdu.sseq && sys.logs[k].first == p.first
      && LogIs(sys.logs[k], sdu, p.numbers)
  }

  ghost predicate LogIs(log: Log, sdu: Sdu, numbers: set<nat>) {
    && (forall p :: p in numbers <==> Piece(p, sdu.content(p)) in log.acked)
    && (forall a :: a in log.acked ==> a.data == sdu.content(a.pseq) && a.pseq <= sdu.last)
  }

  // The numbers taken are the arrived ones from first on, with the sender's contents.
  lemma DataOfTransfer(c: Cache, log: Log, sdu: Sdu, numbers: set<nat>)
    requires Faithful(log)
    requires LogIs(log, sdu, numbers)
    ensures forall p :: p in log.data <==> p in numbers && p >= log.first
    ensures forall p :: p in log.data ==> log.data[p] == sdu.content(p) && p <= sdu.last
  {
    forall p
      ensures p in log.data ==> p in numbers && p >= log.first
      ensures p in log.data ==> log.data[p] == sdu.content(p) && p <= sdu.last
      ensures p in numbers && p >= log.first ==> p in log.data
    {
      if p in log.data {
        assert Piece(p, log.data[p]) in log.acked;
      }
      if p in numbers && p >= log.first {
        var a := Piece(p, sdu.content(p));
        assert a in log.acked && a.pseq in log.data;
      }
    }
  }

  lemma {:induction false} JoinedIsContents(data: map<nat, seq<Byte>>, content: nat -> seq<Byte>, lo: nat, hi: nat)
    requires lo <= hi && forall p :: lo <= p < hi ==> p in data && data[p] == content(p)
    ensures Joined(data, lo, hi) == Contents(content, lo, hi)
    decreases hi
  {
    if lo < hi {
      JoinedIsContents(data, content, lo, hi - 1);
    }
  }

  // A fragment of the transfer completes the cache exactly if it closes the last gap, and then the
  // buffer is the whole SDU from the first number on.
  lemma CompletedCovers(c: Cache, log: Log, p: nat, data: seq<Byte>, last: nat, isEnd: nat -> bool)
    requires CacheOk(c, log, isEnd) && EndsAt(isEnd, last)
    requires p < 128 && p <= last && forall q :: q in log.data ==> q <= last
    requires Completes(c, Absorb(c, p, data, isEnd), p)
    ensures Covers(Progress(log.data.Keys + {p}, log.first), last)
    ensures var log1 := Record(log, c.expected, p, data);
            && log.first <= last + 1 && (forall q :: log.first <= q <= last ==> q in log1.data)
            && Absorb(c, p, data, isEnd).buffer == Joined(log1.data, log.first, last + 1)
  {
    InOrderRefines(c, log, data, isEnd);
    var c1, log1 := Absorb(c, p, data, isEnd), Record(log, c.expected, p, data);
    assert log1.data == log.data[p := data];
    assert c1.finalPSEQ == last;
    assert c1.expected - 1 in log1.data;
    assert c1.expected == last + 1;
    assert log1.data.Keys == log.data.Keys + {p};
  }

  lemma CoversCompletes(c: Cache, log: Log, p: nat, data: seq<Byte>, last: nat, isEnd: nat -> bool)
    requires CacheOk(c, log, isEnd) && EndsAt(isEnd, last)
    requires p < 128 && p <= last && forall q :: q in log.data ==> q <= last
    requires Covers(Progress(log.data.Keys + {p}, log.first), last)
    ensures Completes(c, Absorb(c, p, data, isEnd), p)
  {
    StillMissing(c, log, last, isEnd);
    assert c.expected in log.data.Keys + {p};
    InOrderRefines(c, log, data, isEnd);
    var c1, log1 := Absorb(c, p, data, isEnd), Record(log, c.expected, p, data);
    assert log1.data.Keys == log.data.Keys + {p};
    assert c1.expected !in log1.data;
    assert last in log1.data;
  }

  // An unfinished cache is waiting for a number of the SDU.
  lemma StillMissing(c: Cache, log: Log, last: nat, isEnd: nat -> bool)
    requires CacheOk(c, log, isEnd) && EndsAt(isEnd, last)
    requires forall q :: q in log.data ==> q <= last
    ensures log.first < c.expected <= last
  {
    assert log.first in log.data;
    assert c.expected > last ==> last in log.data;
  }

  // ---------------------------------------------------------------- the step of a transfer

  lemma FirstPiece(sys: System, f: Frame, sdu: Sdu, isEnd: nat -> bool)
    requires f.sensorID == sdu.sensor && f.sensorID !in sys.core.caches && f.sensorID !in sys.logs
    requires CarriesPiece(f, sdu)
    ensures var sys1, p := RunSection(sys, f, isEnd), Decode(f).pseq;
            if isEnd(p) then
              && f.sensorID !in sys1.core.caches
              && sys1.core.sdus == sys.core.sdus + [f.(payload := Overlay(f.payload, sdu.content(p)))]
            else
              && Tracks(sys1, sdu, Progress({p}, p)) && sys1.core.sdus == sys.core.sdus
  {}

  lemma NextPiece(sys: System, f: Frame, sdu: Sdu, isEnd: nat -> bool)
    requires f.sensorID == sdu.sensor && f.sensorID in sys.core.caches && f.sensorID in sys.logs
    requires sys.core.caches[f.sensorID].sseq == sdu.sseq && CarriesPiece(f, sdu)
    ensures var sys1, p := RunSection(sys, f, isEnd), Decode(f).pseq;
            var c := sys.core.caches[f.sensorID];
            var c1 := Absorb(c, p, sdu.content(p), isEnd);
            if Completes(c, c1, p) then
              && f.sensorID !in sys1.core.caches
              && sys1.core.sdus == sys.core.sdus + [f.(payload := Overlay(f.payload, c1.buffer))]
            else
              && f.sensorID in sys1.core.caches && sys1.core.caches[f.sensorID].sseq == c.sseq
              && f.sensorID in sys1.logs
              && sys1.logs[f.sensorID] == Record(sys.logs[f.sensorID], c.expected, p, sdu.content(p))
              && sys1.core.sdus == sys.core.sdus
  {}

  lemma RecordIs(log: Log, expected: nat, p: nat, sdu: Sdu, numbers: set<nat>)
    requires LogIs(log, sdu, numbers) && p <= sdu.last
    ensures LogIs(Record(log, expected, p, sdu.content(p)), sdu, numbers + {p})
  {}

  // The account is right about a step: the cache tracks the progress, and for the sensor exactly what is
  // entered is emitted.
  ghost predicate Follows(sys: System, sys1: System, sdu: Sdu, p: Progress, effect: Effect) {
    var acc := Enter(Account(p, []), effect, sdu);
    && Tracks(sys1, sdu, acc.progress)
    && SdusOf(sys1.core.sdus, sdu.sensor) == SdusOf(sys.core.sdus, sdu.sensor) + acc.emitted
  }

  lemma FirstTaken(sys: System, f: Frame, sdu: Sdu, p: Progress, isEnd: nat -> bool)
    requires f.sensorID == sdu.sensor && f.sensorID !in sys.core.caches && f.sensorID !in sys.logs
    requires CarriesPiece(f, sdu) && EndsAt(isEnd, sdu.last) && p.numbers == {}
    ensures Follows(sys, RunSection(sys, f, isEnd), sdu, p, Hands(f))
  {
    var q := Decode(f).pseq;
    assert Advance(p, q) == Progress({q}, q);
    FirstPiece(sys, f, sdu, isEnd);
    if q == sdu.last {
      assert isEnd(q) && Covers(Progress({q}, q), sdu.last);
      assert Contents(sdu.content, q, q + 1) == sdu.content(q);
      SdusOfAppend(sys.core.sdus, Emission(f, sdu, q), f.sensorID);
    } else {
      assert !isEnd(q) && q + 1 !in Progress({q}, q).numbers;
    }
  }

  lemma SameFromFirst(p: Progress, p1: Progress, last: nat)
    requires p.first == p1.first && p.numbers != {} && p1.numbers != {}
    requires forall q :: q >= p.first ==> (q in p.numbers <==> q in p1.numbers)
    ensures Covers(p, last) <==> Covers(p1, last)
  {}

  // Numbers below the first do not matter.
  lemma CoversInLog(c: Cache, log: Log, p: nat, sdu: Sdu, numbers: set<nat>)
    requires Faithful(log) && LogIs(log, sdu, numbers)
    ensures Covers(Progress(numbers + {p}, log.first), sdu.last)
            <==> Covers(Progress(log.data.Keys + {p}, log.first), sdu.last)
  {
    DataOfTransfer(c, log, sdu, numbers);
    SameFromFirst(Progress(numbers + {p}, log.first), Progress(log.data.Keys + {p}, log.first), sdu.last);
  }

  lemma LaterCompletesIff(c: Cache, log: Log, p: nat, sdu: Sdu, numbers: set<nat>, isEnd: nat -> bool)
    requires CacheOk(c, log, isEnd) && EndsAt(isEnd, sdu.last) && p < 128 && p <= sdu.last
    requires LogIs(log, sdu, numbers)
    ensures Completes(c, Absorb(c, p, sdu.content(p), isEnd), p)
            <==> Covers(Progress(numbers + {p}, log.first), sdu.last)
  {
    var data := sdu.content(p);
    CoversInLog(c, log, p, sdu, numbers);
    DataOfTransfer(c, log, sdu, numbers);
    if Covers(Progress(log.data.Keys + {p}, log.first), sdu.last) {
      CoversCompletes(c, log, p, data, sdu.last, isEnd);
    }
    if Completes(c, Absorb(c, p, data, isEnd), p) {
      CompletedCovers(c, log, p, data, sdu.last, isEnd);
    }
  }

  lemma CompletedBuffer(c: Cache, log: Log, p: nat, sdu: Sdu, numbers: set<nat>, isEnd: nat -> bool)
    requires CacheOk(c, log, isEnd) && EndsAt(isEnd, sdu.last) && p < 128 && p <= sdu.last
    requires LogIs(log, sdu, numbers) && Completes(c, Absorb(c, p, sdu.content(p), isEnd), p)
    ensures Absorb(c, p, sdu.content(p), isEnd).buffer == Contents(sdu.content, log.first, sdu.last + 1)
  {
    var log1 := Record(log, c.expected, p, sdu.content(p));
    DataOfTransfer(c, log, sdu, numbers);
    CompletedCovers(c, log, p, sdu.content(p), sdu.last, isEnd);
    RecordedContents(log, c.expected, p, sdu);
    JoinedIsContents(log1.data, sdu.content, log.first, sdu.last + 1);
  }

  lemma RecordedContents(log: Log, expected: nat, p: nat, sdu: Sdu)
    requires forall q :: q in log.data ==> log.data[q] == sdu.content(q)
    ensures var data := Record(log, expected, p, sdu.content(p)).data;
            forall q :: q in data ==> data[q] == sdu.content(q)
  {}

  lemma TrackedCompletes(sys: System, f: Frame, sdu: Sdu, p: Progress, isEnd: nat -> bool)
    requires Inv(sys, isEnd) && EndsAt(isEnd, sdu.last) && CarriesPiece(f, sdu)
    requires p.numbers != {} && Tracks(sys, sdu, p)
    ensures var c, q := sys.core.caches[sdu.sensor], Number(f);
            var c1 := Absorb(c, q, sdu.content(q), isEnd);
            && (Completes(c, c1, q) <==> Covers(Progress(p.numbers + {q}, p.first), sdu.last))
            && (Completes(c, c1, q) ==> c1.buffer == Contents(sdu.content, p.first, sdu.last + 1))
  {
    var k := sdu.sensor;
    var c, log := sys.core.caches[k], sys.logs[k];
    assert CacheProperty(isEnd)(c, log);
    LaterCompletesIff(c, log, Number(f), sdu, p.numbers, isEnd);
    if Completes(c, Absorb(c, Number(f), sdu.content(Number(f)), isEnd), Number(f)) {
      CompletedBuffer(c, log, Number(f), sdu, p.numbers, isEnd);
    }
  }

  lemma LaterTaken(sys: System, f: Frame, sdu: Sdu, p: Progress, isEnd: nat -> bool)
    requires Inv(sys, isEnd) && EndsAt(isEnd, sdu.last) && f.sensorID == sdu.sensor && CarriesPiece(f, sdu)
    requires p.numbers != {} && Tracks(sys, sdu, p)
    ensures Follows(sys, RunSection(sys, f, isEnd), sdu, p, Hands(f))
  {
    TrackedCompletes(sys, f, sdu, p, isEnd);
    if Covers(Progress(p.numbers + {Number(f)}, p.first), sdu.last) {
      LaterCompletes(sys, f, sdu, p, isEnd);
    } else {
      LaterGoesOn(sys, f, sdu, p, isEnd);
    }
  }

  lemma LaterCompletes(sys: System, f: Frame, sdu: Sdu, p: Progress, isEnd: nat -> bool)
    requires f.sensorID == sdu.sensor && CarriesPiece(f, sdu) && p.numbers != {} && Tracks(sys, sdu, p)
    requires var c, q := sys.core.caches[f.sensorID], Number(f);
             var c1 := Absorb(c, q, sdu.content(q), isEnd);
             Completes(c, c1, q) && c1.buffer == Contents(sdu.content, p.first, sdu.last + 1)
    requires Covers(Progress(p.numbers + {Number(f)}, p.first), sdu.last)
    ensures Follows(sys, RunSection(sys, f, isEnd), sdu, p, Hands(f))
  {
    NextPiece(sys, f, sdu, isEnd);
    SdusOfAppend(sys.core.sdus, Emission(f, sdu, p.first), f.sensorID);
  }

  lemma LaterGoesOn(sys: System, f: Frame, sdu: Sdu, p: Progress, isEnd: nat -> bool)
    requires f.sensorID == sdu.sensor && CarriesPiece(f, sdu) && p.numbers != {} && Tracks(sys, sdu, p)
    requires var c, q := sys.core.caches[f.sensorID], Number(f);
             !Completes(c, Absorb(c, q, sdu.content(q), isEnd), q)
    requires !Covers(Progress(p.numbers + {Number(f)}, p.first), sdu.last)
    ensures Follows(sys, RunSection(sys, f, isEnd), sdu, p, Hands(f))
  {
    var k := f.sensorID;
    NextPiece(sys, f, sdu, isEnd);
    RecordIs(sys.logs[k], sys.core.caches[k].expected, Number(f), sdu, p.numbers);
  }

  lemma TimerSame(sys: System, e: Event, k: string, isEnd: nat -> bool)
    requires Enabled(sys, e) && !e.Receive? && !e.Resume? && EffectOn(sys, e, k).Nothing?
    ensures SameFor(sys, Step(sys, e, isEnd), k)
  {}

  // A step that neither hands over a fragment of the sensor nor times out.
  lemma NotTaken(sys: System, e: Event, sdu: Sdu, p: Progress, isEnd: nat -> bool)
    requires Inv(sys, isEnd) && Enabled(sys, e) && Undisturbed(sys, e, sdu) && Tracks(sys, sdu, p)
    requires EffectOn(sys, e, sdu.sensor).Nothing?
    ensures Follows(sys, Step(sys, e, isEnd), sdu, p, Nothing)
  {
    match e
    case Receive(f) =>
      if f.sensorID != sdu.sensor {
        OtherSensorsUntouched(sys, f, sdu.sensor, isEnd);
        TracksSame(sys, Step(sys, e, isEnd), sdu, p);
      } else {
        OwnNotTaken(sys, f, sdu, p, isEnd);
      }
    case Resume =>
      OtherSensorsUntouched(sys, sys.pending.value, sdu.sensor, isEnd);
      TracksSame(sys, Step(sys, e, isEnd), sdu, p);
    case _ =>
      TimerSame(sys, e, sdu.sensor, isEnd);
      TracksSame(sys, Step(sys, e, isEnd), sdu, p);
  }

  lemma TracksSame(sys: System, sys1: System, sdu: Sdu, p: Progress)
    requires Tracks(sys, sdu, p) && SameFor(sys, sys1, sdu.sensor)
    ensures Follows(sys, sys1, sdu, p, Nothing)
  {}

  // A frame of the sensor that no cache takes: a broken one changes nothing, and one that replaces an
  // older cache leaves the sensor idle.
  lemma OwnNotTaken(sys: System, f: Frame, sdu: Sdu, p: Progress, isEnd: nat -> bool)
    requires f.sensorID == sdu.sensor && !Decode(f).NoHeader? && OfTransfer(f, sdu) && Tracks(sys, sdu, p)
    requires EffectOn(sys, Receive(f), sdu.sensor).Nothing?
    ensures Follows(sys, RunSection(sys, f, isEnd), sdu, p, Nothing)
  {
    var sys1 := RunSection(sys, f, isEnd);
    assert sys1.core.sdus == sys.core.sdus;
    if Decode(f).Fragment? {
      assert p.numbers == {} && sdu.sensor !in sys1.core.caches;
    } else {
      TracksSame(sys, sys1, sdu, p);
    }
  }

  lemma StepFollows(sys: System, e: Event, sdu: Sdu, p: Progress, isEnd: nat -> bool)
    requires Inv(sys, isEnd) && Enabled(sys, e) && Undisturbed(sys, e, sdu) && Tracks(sys, sdu, p)
    requires EndsAt(isEnd, sdu.last)
    ensures Follows(sys, Step(sys, e, isEnd), sdu, p, EffectOn(sys, e, sdu.sensor))
  {
    match EffectOn(sys, e, sdu.sensor)
    case Nothing => NotTaken(sys, e, sdu, p, isEnd);
    case TimesOut => assert Step(sys, e, isEnd).core.sdus == sys.core.sdus;
    case Hands(f) =>
      if p.numbers == {} {
        FirstTaken(sys, f, sdu, p, isEnd);
      } else {
        LaterTaken(sys, f, sdu, p, isEnd);
      }
  }

  // ---------------------------------------------------------------- the theorems

  /** Every run of a transfer follows the account, which knows only which numbers have arrived since the
      last emission or time-out: from any reachable state, idle, about to restart or in the middle of the
      transfer, in any order, with any repetitions, with its timers and stale ones expiring at any point, among
      other sensors' frames and timers, also after completion. */
  lemma {:induction false} RunFollows(sys: System, es: seq<Event>, start: Progress, sdu: Sdu, isEnd: nat -> bool)
    requires Inv(sys, isEnd) && Tracks(sys, sdu, start) && EndsAt(isEnd, sdu.last)
    requires CanRun(sys, es, isEnd) && Transfer(sys, es, sdu, isEnd)
    ensures var sys1, acc := Run(sys, es, isEnd), AccountOf(sys, es, start, sdu, isEnd);
            && Inv(sys1, isEnd) && Tracks(sys1, sdu, acc.progress)
            && SdusOf(sys1.core.sdus, sdu.sensor) == SdusOf(sys.core.sdus, sdu.sensor) + acc.emitted
    decreases |es|
  {
    if es != [] {
      var pre, e := es[..|es| - 1], es[|es| - 1];
      RunFollows(sys, pre, start, sdu, isEnd);
      var mid, acc := Run(sys, pre, isEnd), AccountOf(sys, pre, start, sdu, isEnd);
      StepKeepsInv(mid, e, isEnd);
      StepFollows(mid, e, sdu, acc.progress, isEnd);
      EnterAppends(acc, EffectOn(mid, e, sdu.sensor), sdu, SdusOf(sys.core.sdus, sdu.sensor));
    }
  }

  lemma EnterAppends(acc: Account, effect: Effect, sdu: Sdu, before: seq<Frame>)
    ensures var step := Enter(Account(acc.progress, []), effect, sdu);
            && Enter(acc, effect, sdu).progress == step.progress
            && before + Enter(acc, effect, sdu).emitted == (before + acc.emitted) + step.emitted
  {}

  // A step finalizes exactly if it hands over the last missing number between the first and the last.  It
  // then emits, once, that step's frame with the joined contents of first..last laid over its payload, and
  // forgets the cache; any other step emits nothing for the sensor, and none but a time-out forgets anything.
  ghost predicate FinalizesIffCovered(sys: System, sys1: System, sdu: Sdu, p: Progress, effect: Effect) {
    var before, after := SdusOf(sys.core.sdus, sdu.sensor), SdusOf(sys1.core.sdus, sdu.sensor);
    match effect
    case Nothing => Tracks(sys1, sdu, p) && after == before
    case TimesOut => Tracks(sys1, sdu, NONE_YET) && after == before
    case Hands(f) =>
      var p1 := Advance(p, Number(f));
      if Covers(p1, sdu.last) then
        && p1.first <= sdu.last && Idle(sys1, sdu)
        && after == before + [f.(payload := Overlay(f.payload, Contents(sdu.content, p1.first, sdu.last + 1)))]
      else
        Tracks(sys1, sdu, p1) && after == before
  }

  lemma StepFinalizes(sys: System, e: Event, sdu: Sdu, p: Progress, isEnd: nat -> bool)
    requires Inv(sys, isEnd) && Enabled(sys, e) && Undisturbed(sys, e, sdu) && Tracks(sys, sdu, p)
    requires EndsAt(isEnd, sdu.last)
    ensures FinalizesIffCovered(sys, Step(sys, e, isEnd), sdu, p, EffectOn(sys, e, sdu.sensor))
  {
    StepFollows(sys, e, sdu, p, isEnd);
    if EffectOn(sys, e, sdu.sensor).Hands? {
      FirstNotBeyond(sys, e, p, sdu, isEnd);
    }
    FollowsFinalizes(sys, Step(sys, e, isEnd), sdu, p, EffectOn(sys, e, sdu.sensor));
  }

  lemma FollowsFinalizes(sys: System, sys1: System, sdu: Sdu, p: Progress, effect: Effect)
    requires Follows(sys, sys1, sdu, p, effect)
    requires effect.Hands? ==> Advance(p, Number(effect.f)).first <= sdu.last
    ensures FinalizesIffCovered(sys, sys1, sdu, p, effect)
  {
    var before := SdusOf(sys.core.sdus, sdu.sensor);
    assert before + [] == before;
  }

  /** Completion: after every run of a transfer, the next step finalizes exactly if it hands over the last
      missing number. */
  lemma Completion(sys: System, es: seq<Event>, e: Event, start: Progress, sdu: Sdu, isEnd: nat -> bool)
    requires Inv(sys, isEnd) && Tracks(sys, sdu, start) && EndsAt(isEnd, sdu.last)
    requires CanRun(sys, es, isEnd) && Transfer(sys, es, sdu, isEnd)
    requires Enabled(Run(sys, es, isEnd), e) && Undisturbed(Run(sys, es, isEnd), e, sdu)
    ensures var mid, p := Run(sys, es, isEnd), AccountOf(sys, es, start, sdu, isEnd).progress;
            FinalizesIffCovered(mid, Step(mid, e, isEnd), sdu, p, EffectOn(mid, e, sdu.sensor))
  {
    RunFollows(sys, es, start, sdu, isEnd);
    StepFinalizes(Run(sys, es, isEnd), e, sdu, AccountOf(sys, es, start, sdu, isEnd).progress, isEnd);
  }

  lemma FirstNotBeyond(sys: System, e: Event, p: Progress, sdu: Sdu, isEnd: nat -> bool)
    requires Inv(sys, isEnd) && Tracks(sys, sdu, p) && EndsAt(isEnd, sdu.last)
    requires Enabled(sys, e) && Undisturbed(sys, e, sdu) && EffectOn(sys, e, sdu.sensor).Hands?
    ensures Advance(p, Number(EffectOn(sys, e, sdu.sensor).f)).first <= sdu.last
  {
    if p.numbers != {} {
      assert Piece(p.first, sdu.content(p.first)) in sys.logs[sdu.sensor].acked;
    }
  }

  // All numbers that arrive in a run since the last time-out, whatever is emitted.
  ghost function Gathered(sys: System, es: seq<Event>, start: Progress, k: string, isEnd: nat -> bool): Progress
    requires CanRun(sys, es, isEnd)
    decreases |es|
  {
    if es == [] then start
    else
      var pre := es[..|es| - 1];
      var p := Gathered(sys, pre, start, k, isEnd);
      match EffectOn(Run(sys, pre, isEnd), es[|es| - 1], k)
      case Nothing => p
      case TimesOut => NONE_YET
      case Hands(f) => Advance(p, Number(f))
  }

  // At no point of the run have all numbers from the first to the last arrived since the last time-out.
  ghost predicate NeverCovered(sys: System, es: seq<Event>, start: Progress, sdu: Sdu, isEnd: nat -> bool)
    requires CanRun(sys, es, isEnd)
    decreases |es|
  {
    es == []
    || (NeverCovered(sys, es[..|es| - 1], start, sdu, isEnd)
        && !Covers(Gathered(sys, es, start, sdu.sensor, isEnd), sdu.last))
  }

  lemma {:induction false} NothingEntered(sys: System, es: seq<Event>, start: Progress, sdu: Sdu, isEnd: nat -> bool)
    requires CanRun(sys, es, isEnd) && NeverCovered(sys, es, start, sdu, isEnd)
    ensures AccountOf(sys, es, start, sdu, isEnd) == Account(Gathered(sys, es, start, sdu.sensor, isEnd), [])
    decreases |es|
  {
    if es != [] {
      NothingEntered(sys, es[..|es| - 1], start, sdu, isEnd);
    }
  }

  /** Until every number from the first to the last has arrived, with no time-out between, nothing is emitted
      and nothing but a time-out forgets what has arrived. */
  lemma Incomplete(sys: System, es: seq<Event>, start: Progress, sdu: Sdu, isEnd: nat -> bool)
    requires Inv(sys, isEnd) && Tracks(sys, sdu, start) && EndsAt(isEnd, sdu.last)
    requires CanRun(sys, es, isEnd) && Transfer(sys, es, sdu, isEnd)
    requires NeverCovered(sys, es, start, sdu, isEnd)
    ensures var sys1 := Run(sys, es, isEnd);
            && Tracks(sys1, sdu, Gathered(sys, es, start, sdu.sensor, isEnd))
            && SdusOf(sys1.core.sdus, sdu.sensor) == SdusOf(sys.core.sdus, sdu.sensor)
  {
    NothingEntered(sys, es, start, sdu, isEnd);
    RunFollows(sys, es, start, sdu, isEnd);
  }

  /** Confluence over runs: two runs of one transfer, from whatever states, that stand at the same numbers
      and the same first one have equal `expected`, buffer and out-of-order map. */
  lemma RunsConverge(sys1: System, es1: seq<Event>, start1: Progress,
                     sys2: System, es2: seq<Event>, start2: Progress, sdu: Sdu, isEnd: nat -> bool)
    requires Inv(sys1, isEnd) && Tracks(sys1, sdu, start1) && EndsAt(isEnd, sdu.last)
    requires Inv(sys2, isEnd) && Tracks(sys2, sdu, start2)
    requires CanRun(sys1, es1, isEnd) && Transfer(sys1, es1, sdu, isEnd)
    requires CanRun(sys2, es2, isEnd) && Transfer(sys2, es2, sdu, isEnd)
    requires AccountOf(sys1, es1, start1, sdu, isEnd).progress == AccountOf(sys2, es2, start2, sdu, isEnd).progress
    requires AccountOf(sys1, es1, start1, sdu, isEnd).progress.numbers != {}
    ensures var k := sdu.sensor;
            var end1, end2 := Run(sys1, es1, isEnd).core, Run(sys2, es2, isEnd).core;
            && k in end1.caches && k in end2.caches
            && end1.caches[k].expected == end2.caches[k].expected
            && end1.caches[k].buffer == end2.caches[k].buffer
            && end1.caches[k].outOfOrder == end2.caches[k].outOfOrder
  {
    RunFollows(sys1, es1, start1, sdu, isEnd);
    RunFollows(sys2, es2, start2, sdu, isEnd);
    SameProgressSameCache(Run(sys1, es1, isEnd), Run(sys2, es2, isEnd), sdu,
                          AccountOf(sys1, es1, start1, sdu, isEnd).progress, isEnd);
  }

  lemma SameProgressSameCache(end1: System, end2: System, sdu: Sdu, p: Progress, isEnd: nat -> bool)
    requires Inv(end1, isEnd) && Inv(end2, isEnd) && p.numbers != {}
    requires Tracks(end1, sdu, p) && Tracks(end2, sdu, p)
    ensures var c1, c2 := end1.core.caches[sdu.sensor], end2.core.caches[sdu.sensor];
            c1.expected == c2.expected && c1.buffer == c2.buffer && c1.outOfOrder == c2.outOfOrder
  {
    var k := sdu.sensor;
    SameAcked(end1.logs[k], end2.logs[k], sdu, p);
    assert CacheProperty(isEnd)(end1.core.caches[k], end1.logs[k]);
    assert CacheProperty(isEnd)(end2.core.caches[k], end2.logs[k]);
    Confluence(end1.core.caches[k], end1.logs[k], end2.core.caches[k], end2.logs[k], isEnd);
  }

  lemma SameAcked(log1: Log, log2: Log, sdu: Sdu, p: Progress)
    requires LogIs(log1, sdu, p.numbers) && LogIs(log2, sdu, p.numbers)
    ensures log1.acked == log2.acked && OneDataPerNumber(log1.acked, p.first)
  {
    forall a
      ensures a in log1.acked <==> a in log2.acked
    {
      if a in log1.acked || a in log2.acked {
        assert a == Piece(a.pseq, sdu.content(a.pseq));
        assert a.pseq in p.numbers <==> Piece(a.pseq, sdu.content(a.pseq)) in log1.acked;
        assert a.pseq in p.numbers <==> Piece(a.pseq, sdu.content(a.pseq)) in log2.acked;
      }
    }
  }

  // ---------------------------------------------------------------- after completion

  ghost predicate NoEndTaken(sys: System, es: seq<Event>, sdu: Sdu, isEnd: nat -> bool)
    requires CanRun(sys, es, isEnd)
    decreases |es|
  {
    es == []
    || (NoEndTaken(sys, es[..|es| - 1], sdu, isEnd)
        && var effect := EffectOn(Run(sys, es[..|es| - 1], isEnd), es[|es| - 1], sdu.sensor);
           (effect.Hands? ==> Number(effect.f) != sdu.last))
  }

  // Progress that cannot cover yet: the last number is missing and not below the first.
  predicate WithoutEnd(p: Progress, last: nat) {
    last !in p.numbers && (p.numbers == {} || p.first <= last)
  }

  lemma EnterWithoutEnd(acc: Account, f: Frame, sdu: Sdu)
    requires acc.emitted == [] && WithoutEnd(acc.progress, sdu.last) && Number(f) < sdu.last
    ensures var acc1 := Enter(acc, Hands(f), sdu); acc1.emitted == [] && WithoutEnd(acc1.progress, sdu.last)
  {
    assert sdu.last !in Advance(acc.progress, Number(f)).numbers;
  }

  /** Once a transfer has completed nothing is remembered of it.  If no fragment with the last number is
      handed over any more, nothing is emitted any more. */
  lemma {:induction false} NoEndNoEmission(sys: System, es: seq<Event>, start: Progress, sdu: Sdu, isEnd: nat -> bool)
    requires CanRun(sys, es, isEnd) && Transfer(sys, es, sdu, isEnd)
    requires NoEndTaken(sys, es, sdu, isEnd) && WithoutEnd(start, sdu.last)
    ensures var acc := AccountOf(sys, es, start, sdu, isEnd);
            acc.emitted == [] && WithoutEnd(acc.progress, sdu.last)
    decreases |es|
  {
    if es != [] {
      var pre, e := es[..|es| - 1], es[|es| - 1];
      NoEndNoEmission(sys, pre, start, sdu, isEnd);
      var mid := Run(sys, pre, isEnd);
      if EffectOn(mid, e, sdu.sensor).Hands? {
        NumberBelow(mid, e, sdu);
        EnterWithoutEnd(AccountOf(sys, pre, start, sdu, isEnd), EffectOn(mid, e, sdu.sensor).f, sdu);
      }
    }
  }

  /** So a transfer that has completed, or any idle sensor, emits nothing until the last number comes. */
  lemma NothingUntilEnd(sys: System, es: seq<Event>, sdu: Sdu, isEnd: nat -> bool)
    requires Inv(sys, isEnd) && Idle(sys, sdu) && EndsAt(isEnd, sdu.last)
    requires CanRun(sys, es, isEnd) && Transfer(sys, es, sdu, isEnd) && NoEndTaken(sys, es, sdu, isEnd)
    ensures SdusOf(Run(sys, es, isEnd).core.sdus, sdu.sensor) == SdusOf(sys.core.sdus, sdu.sensor)
  {
    NoEndNoEmission(sys, es, NONE_YET, sdu, isEnd);
    RunFollows(sys, es, NONE_YET, sdu, isEnd);
  }

  lemma NumberBelow(sys: System, e: Event, sdu: Sdu)
    requires Undisturbed(sys, e, sdu) && EffectOn(sys, e, sdu.sensor).Hands?
    ensures Number(EffectOn(sys, e, sdu.sensor).f) <= sdu.last
  {}

  /** The first fragment handed over after completion, or to any idle sensor, is emitted at once, as an SDU
      of one fragment, if and only if it has the last number.  So a retransmitted last fragment is. */
  lemma EmittedAgainIff(sys: System, e: Event, sdu: Sdu, isEnd: nat -> bool)
    requires Inv(sys, isEnd) && Idle(sys, sdu) && EndsAt(isEnd, sdu.last)
    requires Enabled(sys, e) && Undisturbed(sys, e, sdu) && EffectOn(sys, e, sdu.sensor).Hands?
    ensures var k, f, sys1 := sdu.sensor, EffectOn(sys, e, sdu.sensor).f, Step(sys, e, isEnd);
            SdusOf(sys1.core.sdus, k) == SdusOf(sys.core.sdus, k)
              + (if Number(f) == sdu.last then [f.(payload := Overlay(f.payload, sdu.content(sdu.last)))] else [])
  {
    StepFollows(sys, e, sdu, NONE_YET, isEnd);
    NumberBelow(sys, e, sdu);
    FirstEmittedIff(sys, Step(sys, e, isEnd), sdu, EffectOn(sys, e, sdu.sensor).f);
  }

  lemma FirstEmittedIff(sys: System, sys1: System, sdu: Sdu, f: Frame)
    requires Follows(sys, sys1, sdu, NONE_YET, Hands(f)) && Number(f) <= sdu.last
    ensures SdusOf(sys1.core.sdus, sdu.sensor) == SdusOf(sys.core.sdus, sdu.sensor)
              + (if Number(f) == sdu.last then [f.(payload := Overlay(f.payload, sdu.content(sdu.last)))] else [])
  {
    var p := Progress({Number(f)}, Number(f));
    assert Advance(NONE_YET, Number(f)) == p;
    assert Number(f) < sdu.last ==> p.first + 1 !in p.numbers;
    assert Contents(sdu.content, sdu.last, sdu.last + 1) == sdu.content(sdu.last);
  }
}
