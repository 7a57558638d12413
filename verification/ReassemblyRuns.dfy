/** What the reassembler guarantees over whole runs, under every interleaving of frames, restarted
    calls and timer callbacks. */
module ReassemblyRuns {
  import opened Bytes
  import opened Reassembly
  import opened ReassemblyInvariant

  // ---------------------------------------------------------------- runs

  ghost predicate CanRun(sys: System, es: seq<Event>, isEnd: nat -> bool)
    decreases |es|, 0
  {
    es == []
    || (CanRun(sys, es[..|es| - 1], isEnd)
        && Enabled(Run(sys, es[..|es| - 1], isEnd), es[|es| - 1]))
  }

  ghost function Run(sys: System, es: seq<Event>, isEnd: nat -> bool): System
    requires CanRun(sys, es, isEnd)
    decreases |es|, 1
  {
    if es == [] then sys
    else Step(Run(sys, es[..|es| - 1], isEnd), es[|es| - 1], isEnd)
  }

  lemma {:induction false} RunKeeps(sys: System, es: seq<Event>, isEnd: nat -> bool, P: (Cache, Log) -> bool)
    requires CanRun(sys, es, isEnd) && InvWith(sys, P) && Kept(P, isEnd)
    ensures InvWith(Run(sys, es, isEnd), P)
    decreases |es|
  {
    if es != [] {
      RunKeeps(sys, es[..|es| - 1], isEnd, P);
      StepKeeps(Run(sys, es[..|es| - 1], isEnd), es[|es| - 1], isEnd, P);
    }
  }

  /** The invariant holds after every run. */
  lemma RunKeepsInv(es: seq<Event>, isEnd: nat -> bool)
    requires CanRun(Initial, es, isEnd)
    ensures Inv(Run(Initial, es, isEnd), isEnd)
  {
    CacheOkKept(isEnd);
    RunKeeps(Initial, es, isEnd, CacheProperty(isEnd));
  }

  /** On the wire PSEQ has 7 bits, so expected stays above the first number and at most 128: the
      uint8 counter never wraps, and no two live caches share a timer. */
  lemma CounterNeverWraps(es: seq<Event>, k: string, l: string)
    requires CanRun(Initial, es, WireIsEnd)
    ensures var sys := Run(Initial, es, WireIsEnd);
            && sys.logs.Keys == sys.core.caches.Keys
            && (k in sys.core.caches ==> sys.logs[k].first < sys.core.caches[k].expected <= 128)
            && (k in sys.core.caches && l in sys.core.caches && k != l ==>
                  sys.core.caches[k].timer != sys.core.caches[l].timer)
  {
    RunKeepsInv(es, WireIsEnd);
    var sys := Run(Initial, es, WireIsEnd);
    if k in sys.core.caches {
      FirstBelowExpected(sys, k, WireIsEnd);
    }
  }

  ghost predicate GoesWithItsTimer(sys: System, k: string, isEnd: nat -> bool)
    requires k in sys.core.caches
  {
    var g := sys.core.caches[k].timer;
    && g < |sys.core.timers| && (sys.core.timers[g].status == Armed || Enabled(sys, Expires(g)))
    && (Enabled(sys, Expires(g)) ==>
          var sys1 := Step(sys, Expires(g), isEnd);
          && k !in sys1.core.caches && k in sys.logs && Enabled(sys1, Acknowledges(g))
          && Step(sys1, Acknowledges(g), isEnd).core.acks
             == sys.core.acks + [Ack(k, false, sys.core.caches[k].sseq, sys.logs[k].first)])
  }

  /** No cache outlives its own timer: in every reachable state the timer of a live cache is armed
      or waiting for the lock, and when it gets the lock that cache is gone and one negative
      acknowledgement with its SSEQ and first number follows. */
  lemma NoCacheOutlivesItsTimer(es: seq<Event>, isEnd: nat -> bool, k: string)
    requires CanRun(Initial, es, isEnd)
    ensures k in Run(Initial, es, isEnd).core.caches ==> GoesWithItsTimer(Run(Initial, es, isEnd), k, isEnd)
  {
    RunKeepsInv(es, isEnd);
    if k in Run(Initial, es, isEnd).core.caches {
      OwnTimer(Run(Initial, es, isEnd), k, isEnd, CacheProperty(isEnd));
    }
  }

  lemma OwnTimer(sys: System, k: string, isEnd: nat -> bool, P: (Cache, Log) -> bool)
    requires InvWith(sys, P) && k in sys.core.caches
    ensures GoesWithItsTimer(sys, k, isEnd)
  {}

  // ---------------------------------------------------------------- acknowledgements

  // The acknowledgement a frame is owed: the SSEQ of its first byte, the PSEQ of its second if it is a fragment
  // with a whole header, and success if it is whole or a fragment that holds the bytes it announces.  A 7-bit
  // PSEQ always passes the start test, so no fragment that fits is refused.
  predicate AnswersFrame(a: Ack, f: Frame) {
    var b, n := f.payload, |f.payload|;
    && a.key == f.sensorID && n >= 2 && a.sseq == b[0] / 4
    && if f.fragInd == 0 then a.pseq == 0 && a.ok
       else if n < 4 then a.pseq == 0 && !a.ok
       else a.pseq == b[1] / 2 && (a.ok <==> 4 + b[2] + 256 * b[3] <= n)
  }

  /** A frame that is not to be processed again gets exactly one acknowledgement, its own; one that
      is gets none yet. */
  lemma SectionAnswers(sys: System, f: Frame, isEnd: nat -> bool)
    requires !Decode(f).NoHeader?
    ensures var sys1 := RunSection(sys, f, isEnd);
            if sys1.pending.Some? then sys1.pending == Some(f) && sys1.core.acks == sys.core.acks
            else |sys1.core.acks| == |sys.core.acks| + 1
                 && sys1.core.acks[..|sys.core.acks|] == sys.core.acks
                 && AnswersFrame(sys1.core.acks[|sys.core.acks|], f)
  {}

  /** The restarted call never restarts again. */
  lemma RestartsOnce(sys: System, isEnd: nat -> bool)
    requires Inv(sys, isEnd) && Enabled(sys, Resume)
    ensures Step(sys, Resume, isEnd).pending.None?
  {}

  // Frames received and expiry acknowledgements sent in a run.
  function Owed(es: seq<Event>): nat
    decreases |es|
  {
    if es == [] then 0
    else Owed(es[..|es| - 1]) + (match es[|es| - 1] case Receive(_) => 1 case Acknowledges(_) => 1 case _ => 0)
  }

  /** Conservation: at every point of every run the acknowledgements sent are the frames received
      plus the timers that reported, less one if a restarted call is still to run. */
  lemma {:induction false} AcksConserved(es: seq<Event>, isEnd: nat -> bool)
    requires CanRun(Initial, es, isEnd)
    ensures var sys := Run(Initial, es, isEnd);
            |sys.core.acks| + (if sys.pending.Some? then 1 else 0) == Owed(es)
    decreases |es|
  {
    if es != [] {
      var pre, e := es[..|es| - 1], es[|es| - 1];
      AcksConserved(pre, isEnd);
      RunKeepsInv(pre, isEnd);
      var sys := Run(Initial, pre, isEnd);
      match e
      case Receive(f) => SectionAnswers(sys, f, isEnd);
      case Resume =>
        SectionAnswers(sys, sys.pending.value, isEnd);
        RestartsOnce(sys, isEnd);
      case _ =>
    }
  }

  // ---------------------------------------------------------------- one sensor among many

  function SdusOf(sdus: seq<Frame>, k: string): seq<Frame>
    decreases |sdus|
  {
    if sdus == [] then []
    else SdusOf(sdus[..|sdus| - 1], k)
         + (if sdus[|sdus| - 1].sensorID == k then [sdus[|sdus| - 1]] else [])
  }

  lemma SdusOfAppend(sdus: seq<Frame>, f: Frame, k: string)
    ensures SdusOf(sdus + [f], k) == SdusOf(sdus, k) + (if f.sensorID == k then [f] else [])
  {
    assert (sdus + [f])[..|sdus|] == sdus;
  }

  predicate SameFor(sys: System, sys1: System, k: string) {
    && (k in sys1.core.caches <==> k in sys.core.caches)
    && (k in sys.core.caches ==> sys1.core.caches[k] == sys.core.caches[k])
    && (k in sys1.logs <==> k in sys.logs) && (k in sys.logs ==> sys1.logs[k] == sys.logs[k])
    && SdusOf(sys1.core.sdus, k) == SdusOf(sys.core.sdus, k)
  }

  /** A frame never changes another sensor's cache or SDUs. */
  lemma OtherSensorsUntouched(sys: System, f: Frame, k: string, isEnd: nat -> bool)
    requires f.sensorID != k
    ensures SameFor(sys, RunSection(sys, f, isEnd), k)
  {
    OthersKept(sys, f, k, isEnd);
    var out := Emits(sys, f, isEnd);
    if out.Some? {
      SdusOfAppend(sys.core.sdus, out.value, k);
    }
  }

  lemma OthersKept(sys: System, f: Frame, k: string, isEnd: nat -> bool)
    requires f.sensorID != k
    ensures var sys1 := RunSection(sys, f, isEnd);
            && (k in sys1.core.caches <==> k in sys.core.caches)
            && (k in sys.core.caches ==> sys1.core.caches[k] == sys.core.caches[k])
            && (k in sys1.logs <==> k in sys.logs) && (k in sys.logs ==> sys1.logs[k] == sys.logs[k])
  {}

  // A frame emits at most one frame, of its own sensor.
  lemma Emits(sys: System, f: Frame, isEnd: nat -> bool) returns (out: Option<Frame>)
    ensures var sdus := RunSection(sys, f, isEnd).core.sdus;
            match out
            case None => sdus == sys.core.sdus
            case Some(g) => sdus == sys.core.sdus + [g] && g.sensorID == f.sensorID && g.fragInd == f.fragInd
  {
    var sdus := RunSection(sys, f, isEnd).core.sdus;
    out := if sdus == sys.core.sdus then None else Some(sdus[|sdus| - 1]);
  }

  /** A cache leaves the map only through the expiry of a timer of its sensor, a first fragment of
      another SSEQ, or its own completion. */
  lemma CachesLeaveOnlyBy(sys: System, e: Event, k: string, isEnd: nat -> bool, P: (Cache, Log) -> bool)
    requires InvWith(sys, P) && Enabled(sys, e) && k in sys.core.caches
    requires k !in Step(sys, e, isEnd).core.caches
    ensures || (e.Expires? && sys.core.timers[e.g].key == k)
            || (e.Receive? && e.f.sensorID == k && Decode(e.f).Fragment?
                && (Decode(e.f).sseq != sys.core.caches[k].sseq
                    || Completes(sys.core.caches[k],
                                 Absorb(sys.core.caches[k], Decode(e.f).pseq, Decode(e.f).data, isEnd),
                                 Decode(e.f).pseq)))
  {
    if e.Receive? && e.f.sensorID != k {
      OtherSensorsUntouched(sys, e.f, k, isEnd);
    } else if e.Resume? {
      OtherSensorsUntouched(sys, sys.pending.value, k, isEnd);
    }
  }

  // ---------------------------------------------------------------- what is acknowledged is kept

  // The data of number p is in the buffer, at its place, or waits in outOfOrder.
  ghost predicate Holds(c: Cache, log: Log, p: nat, data: seq<Byte>) {
    || (log.first <= p < c.expected && (forall q :: log.first <= q < p ==> q in log.data)
        && (exists after: seq<Byte> :: c.buffer == Joined(log.data, log.first, p) + data + after))
    || (p in c.outOfOrder && c.outOfOrder[p] == data)
  }

  ghost predicate OneDataPerNumber(acked: set<Piece>, first: nat) {
    forall a, b :: a in acked && b in acked && a.pseq == b.pseq && a.pseq >= first ==> a.data == b.data
  }

  lemma {:induction false} JoinedContains(data: map<nat, seq<Byte>>, lo: nat, p: nat, hi: nat)
      returns (after: seq<Byte>)
    requires lo <= p < hi && forall q :: lo <= q < hi ==> q in data
    ensures Joined(data, lo, hi) == Joined(data, lo, p) + data[p] + after
    decreases hi
  {
    if p == hi - 1 {
      after := [];
    } else {
      var rest := JoinedContains(data, lo, p, hi - 1);
      after := rest + data[hi - 1];
      assert (Joined(data, lo, p) + data[p] + rest) + data[hi - 1] == Joined(data, lo, p) + data[p] + after;
    }
  }

  // The step sends a positive acknowledgement for the fragment f of sensor k.
  ghost predicate Confirms(sys: System, e: Event, f: Frame, isEnd: nat -> bool)
    requires Enabled(sys, e)
  {
    && (e == Receive(f) || (e == Resume && sys.pending == Some(f))) && Decode(f).Fragment?
    && Step(sys, e, isEnd).core.acks
       == sys.core.acks + [Ack(f.sensorID, true, Decode(f).sseq, Decode(f).pseq)]
  }

  // The acknowledgement is for this frame: a whole one, or the fragment that the step confirms.
  ghost predicate PositiveFor(sys: System, e: Event, f: Frame, a: Ack, isEnd: nat -> bool)
    requires Enabled(sys, e)
  {
    && f.sensorID == a.key
    && (Decode(f).Whole? || (Confirms(sys, e, f, isEnd) && a.sseq == Decode(f).sseq && a.pseq == Decode(f).pseq))
  }

  /** No positive acknowledgement comes from anywhere else: a step that sends one processes a whole frame, or
      confirms the fragment that it names. */
  lemma PositiveConfirms(sys: System, e: Event, a: Ack, isEnd: nat -> bool)
    requires Enabled(sys, e) && Step(sys, e, isEnd).core.acks == sys.core.acks + [a] && a.ok
    ensures || (e.Receive? && PositiveFor(sys, e, e.f, a, isEnd))
            || (e.Resume? && PositiveFor(sys, e, sys.pending.value, a, isEnd))
  {
    assert Step(sys, e, isEnd).core.acks[|sys.core.acks|] == a;
  }

  function PieceIn(f: Frame): Piece
    requires Decode(f).Fragment?
  {
    Piece(Decode(f).pseq, Decode(f).data)
  }

  /** The log is what was acknowledged: a step that confirms a fragment and leaves the sensor a cache adds
      exactly that fragment to what the cache's log had, or begins a log with it. */
  lemma ConfirmedIsLogged(sys: System, e: Event, f: Frame, isEnd: nat -> bool, P: (Cache, Log) -> bool)
    requires InvWith(sys, P) && Enabled(sys, e) && Confirms(sys, e, f, isEnd)
    requires f.sensorID in Step(sys, e, isEnd).core.caches
    ensures var k, sys1 := f.sensorID, Step(sys, e, isEnd);
            && k in sys1.logs
            && sys1.logs[k].acked == (if k in sys.logs then sys.logs[k].acked else {}) + {PieceIn(f)}
            && sys1.core.caches[k].sseq == Decode(f).sseq
  {
    ConfirmedSection(sys, f, isEnd);
  }

  lemma ConfirmedSection(sys: System, f: Frame, isEnd: nat -> bool)
    requires sys.logs.Keys == sys.core.caches.Keys && Decode(f).Fragment?
    requires RunSection(sys, f, isEnd).core.acks != sys.core.acks
    requires f.sensorID in RunSection(sys, f, isEnd).core.caches
    ensures var k, sys1 := f.sensorID, RunSection(sys, f, isEnd);
            && k in sys1.logs
            && sys1.logs[k].acked == (if k in sys.logs then sys.logs[k].acked else {}) + {PieceIn(f)}
            && sys1.core.caches[k].sseq == Decode(f).sseq
  {}

  // Since step i sensor k has had a cache all the time, so the same one.
  ghost predicate AliveSince(es: seq<Event>, i: nat, k: string, isEnd: nat -> bool)
    requires CanRun(Initial, es, isEnd) && i <= |es|
    decreases |es|
  {
    && k in Run(Initial, es, isEnd).core.caches
    && (i < |es| ==> AliveSince(es[..|es| - 1], i, k, isEnd))
  }

  // A step that leaves a cache where there was one takes nothing out of its log.
  lemma LogGrows(sys: System, e: Event, k: string, isEnd: nat -> bool, P: (Cache, Log) -> bool)
    requires InvWith(sys, P) && Enabled(sys, e)
    requires k in sys.core.caches && k in Step(sys, e, isEnd).core.caches
    ensures k in sys.logs && k in Step(sys, e, isEnd).logs
    ensures sys.logs[k].acked <= Step(sys, e, isEnd).logs[k].acked
    ensures sys.logs[k].first == Step(sys, e, isEnd).logs[k].first
  {
    if e.Receive? && e.f.sensorID != k {
      OtherSensorsUntouched(sys, e.f, k, isEnd);
    } else if e.Resume? {
      OtherSensorsUntouched(sys, sys.pending.value, k, isEnd);
    }
  }

  lemma LastLogged(pre: seq<Event>, e: Event, f: Frame, isEnd: nat -> bool)
    requires CanRun(Initial, pre, isEnd) && Enabled(Run(Initial, pre, isEnd), e)
    requires Confirms(Run(Initial, pre, isEnd), e, f, isEnd)
    requires f.sensorID in Step(Run(Initial, pre, isEnd), e, isEnd).core.caches
    ensures var sys1 := Step(Run(Initial, pre, isEnd), e, isEnd);
            f.sensorID in sys1.logs && PieceIn(f) in sys1.logs[f.sensorID].acked
  {
    RunKeepsInv(pre, isEnd);
    ConfirmedIsLogged(Run(Initial, pre, isEnd), e, f, isEnd, CacheProperty(isEnd));
  }

  lemma LastKept(pre: seq<Event>, e: Event, k: string, a: Piece, isEnd: nat -> bool)
    requires CanRun(Initial, pre, isEnd) && Enabled(Run(Initial, pre, isEnd), e)
    requires var sys := Run(Initial, pre, isEnd);
             k in sys.core.caches && k in sys.logs && a in sys.logs[k].acked
    requires k in Step(Run(Initial, pre, isEnd), e, isEnd).core.caches
    ensures var sys1 := Step(Run(Initial, pre, isEnd), e, isEnd);
            k in sys1.logs && a in sys1.logs[k].acked
  {
    RunKeepsInv(pre, isEnd);
    LogGrows(Run(Initial, pre, isEnd), e, k, isEnd, CacheProperty(isEnd));
  }

  lemma {:induction false} ConfirmedStays(es: seq<Event>, i: nat, f: Frame, isEnd: nat -> bool)
    requires CanRun(Initial, es, isEnd) && i < |es| && CanRun(Initial, es[..i], isEnd)
    requires Enabled(Run(Initial, es[..i], isEnd), es[i]) && Confirms(Run(Initial, es[..i], isEnd), es[i], f, isEnd)
    requires AliveSince(es, i + 1, f.sensorID, isEnd)
    ensures var sys := Run(Initial, es, isEnd);
            && f.sensorID in sys.core.caches && f.sensorID in sys.logs
            && PieceIn(f) in sys.logs[f.sensorID].acked
    decreases |es|
  {
    var pre := es[..|es| - 1];
    if i == |es| - 1 {
      LastLogged(pre, es[i], f, isEnd);
    } else {
      assert pre[..i] == es[..i] && pre[i] == es[i];
      ConfirmedStays(pre, i, f, isEnd);
      LastKept(pre, es[|es| - 1], f.sensorID, PieceIn(f), isEnd);
    }
  }

  /** No confirmed fragment is lost while its cache lives: take any step of any run that sends a positive
      acknowledgement for a fragment.  As long as the sensor has had a cache ever since, the cache holds a
      fragment of that number, unless the number is below the cache's first; and it holds this fragment's
      data if the sender never gave one number two contents. */
  lemma AcknowledgedIsHeld(es: seq<Event>, i: nat, f: Frame, isEnd: nat -> bool)
    requires CanRun(Initial, es, isEnd) && i < |es| && CanRun(Initial, es[..i], isEnd)
    requires Enabled(Run(Initial, es[..i], isEnd), es[i]) && Confirms(Run(Initial, es[..i], isEnd), es[i], f, isEnd)
    requires AliveSince(es, i + 1, f.sensorID, isEnd)
    ensures var sys, p := Run(Initial, es, isEnd), Decode(f).pseq;
            && f.sensorID in sys.core.caches && f.sensorID in sys.logs
            && var c, log := sys.core.caches[f.sensorID], sys.logs[f.sensorID];
               (p >= log.first ==>
                  && (exists b :: b in log.acked && b.pseq == p && Holds(c, log, p, b.data))
                  && (OneDataPerNumber(log.acked, log.first) ==> Holds(c, log, p, Decode(f).data)))
  {
    ConfirmedStays(es, i, f, isEnd);
    RunKeepsInv(es, isEnd);
    var sys, k := Run(Initial, es, isEnd), f.sensorID;
    assert CacheProperty(isEnd)(sys.core.caches[k], sys.logs[k]);
    if Decode(f).pseq >= sys.logs[k].first {
      AckedHeld(sys.core.caches[k], sys.logs[k], isEnd, PieceIn(f));
    }
  }

  lemma AckedHeld(c: Cache, log: Log, isEnd: nat -> bool, a: Piece)
    requires CacheOk(c, log, isEnd) && a in log.acked && a.pseq >= log.first
    ensures exists b :: b in log.acked && b.pseq == a.pseq && Holds(c, log, a.pseq, b.data)
    ensures OneDataPerNumber(log.acked, log.first) ==> Holds(c, log, a.pseq, a.data)
  {
    var p := a.pseq;
    var b := Piece(p, log.data[p]);
    assert b in log.acked;
    if p < c.expected {
      var after := JoinedContains(log.data, log.first, p, c.expected);
      assert Holds(c, log, p, b.data);
    } else {
      assert p in c.outOfOrder && Holds(c, log, p, b.data);
    }
  }

  /** Below the first number the promise fails, always: such a fragment gets a positive
      acknowledgement and leaves no trace in the cache. */
  lemma BelowFirstIsAcknowledgedAndLost(sys: System, f: Frame, isEnd: nat -> bool)
    requires Inv(sys, isEnd) && f.sensorID in sys.core.caches && Decode(f).Fragment?
    requires Decode(f).sseq == sys.core.caches[f.sensorID].sseq
    requires Decode(f).pseq < sys.logs[f.sensorID].first
    ensures var sys1 := RunSection(sys, f, isEnd);
            && sys1.core.caches == sys.core.caches && sys1.core.sdus == sys.core.sdus
            && sys1.core.acks == sys.core.acks + [Ack(f.sensorID, true, Decode(f).sseq, Decode(f).pseq)]
  {
    FirstBelowExpected(sys, f.sensorID, isEnd);
    RepeatChangesNothing(sys, f, isEnd);
  }

  lemma FirstBelowExpected(sys: System, k: string, isEnd: nat -> bool)
    requires Inv(sys, isEnd) && k in sys.core.caches
    ensures k in sys.logs && sys.logs[k].first < sys.core.caches[k].expected <= 128
  {
    assert CacheProperty(isEnd)(sys.core.caches[k], sys.logs[k]);
  }

  lemma RepeatChangesNothing(sys: System, f: Frame, isEnd: nat -> bool)
    requires f.sensorID in sys.core.caches && Decode(f).Fragment?
    requires Decode(f).sseq == sys.core.caches[f.sensorID].sseq
    requires Decode(f).pseq < sys.core.caches[f.sensorID].expected
    ensures var sys1 := RunSection(sys, f, isEnd);
            && sys1.core.caches == sys.core.caches && sys1.core.sdus == sys.core.sdus
            && sys1.core.acks == sys.core.acks + [Ack(f.sensorID, true, Decode(f).sseq, Decode(f).pseq)]
  {
    assert sys.core.caches[f.sensorID := sys.core.caches[f.sensorID]] == sys.core.caches;
  }

  // ---------------------------------------------------------------- confluence

  /** A cache is a function of its first number and the set of fragments it has acknowledged: the
      order and the repetitions of the fragments leave no trace. */
  lemma Confluence(c1: Cache, log1: Log, c2: Cache, log2: Log, isEnd: nat -> bool)
    requires CacheOk(c1, log1, isEnd) && CacheOk(c2, log2, isEnd)
    requires log1.first == log2.first && log1.acked == log2.acked
    requires OneDataPerNumber(log1.acked, log1.first)
    ensures c1.expected == c2.expected && c1.buffer == c2.buffer && c1.outOfOrder == c2.outOfOrder
  {
    SameData(log1, log2);
  }

  lemma SameData(log1: Log, log2: Log)
    requires Faithful(log1) && Faithful(log2)
    requires log1.first == log2.first && log1.acked == log2.acked
    requires OneDataPerNumber(log1.acked, log1.first)
    ensures log1.data == log2.data
  {
    forall p
      ensures p in log1.data <==> p in log2.data
      ensures p in log1.data && p in log2.data ==> log1.data[p] == log2.data[p]
    {
      if p in log1.data {
        assert Piece(p, log1.data[p]) in log2.acked;
      }
      if p in log2.data {
        assert Piece(p, log2.data[p]) in log1.acked;
      }
    }
  }

  /** One content per number is what confluence needs: two fragments with one number above the first
      and different contents end differently in the two orders. */
  lemma ConfluenceNeedsOneData(c: Cache, log: Log, p: nat, d1: seq<Byte>, d2: seq<Byte>, isEnd: nat -> bool)
    requires CacheOk(c, log, isEnd) && c.expected <= p < 128 && d1 != d2
    ensures var c12 := Absorb(Absorb(c, p, d1, isEnd), p, d2, isEnd);
            var c21 := Absorb(Absorb(c, p, d2, isEnd), p, d1, isEnd);
            c12.buffer != c21.buffer || c12.outOfOrder != c21.outOfOrder
  {
    if p > c.expected {
      var o := c.outOfOrder;
      assert o[p := d1][p := d2][p] == d2 && o[p := d2][p := d1][p] == d1;
    } else {
      InOrderAdvances(c, log, d1, isEnd);
      InOrderAdvances(c, log, d2, isEnd);
      assert (c.buffer + d1)[|c.buffer|..] == d1 && (c.buffer + d2)[|c.buffer|..] == d2;
      DrainAppends(p + 1, c.buffer + d1, c.buffer + d2, c.outOfOrder);
    }
  }

  lemma InOrderAdvances(c: Cache, log: Log, data: seq<Byte>, isEnd: nat -> bool)
    requires CacheOk(c, log, isEnd) && c.expected < 128
    ensures Absorb(c, c.expected, data, isEnd).expected > c.expected
  {
    InOrderRefines(c, log, data, isEnd);
    var e := Absorb(c, c.expected, data, isEnd).expected;
    assert e !in log.data && e != c.expected;
  }

  // What the drain appends does not depend on the buffer.
  lemma {:induction false} DrainAppends(expected: nat, b1: seq<Byte>, b2: seq<Byte>, o: map<nat, seq<Byte>>)
    ensures b1 != b2 && |b1| == |b2| ==> Drain(expected, b1, o).1 != Drain(expected, b2, o).1
    ensures |Drain(expected, b1, o).1| - |b1| == |Drain(expected, b2, o).1| - |b2|
    decreases |o|
  {
    if expected in o {
      SmallerMap(o, expected);
      var d := o[expected];
      if b1 != b2 && |b1| == |b2| {
        assert (b1 + d)[..|b1|] == b1 && (b2 + d)[..|b2|] == b2;
      }
      DrainAppends((expected + 1) % 256, b1 + d, b2 + d, o - {expected});
    }
  }
}
