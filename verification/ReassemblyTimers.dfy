/** What becomes of the timers: which of them a frame stops, that a stopped one never comes back, and that only
    a stale callback leaves a timer armed without a cache. */
module ReassemblyTimers {
  import opened Bytes
  import opened Reassembly
  import opened ReassemblyInvariant
  import opened ReassemblyRuns

  // The cache of sensor k is gone, or another one has taken its place.
  predicate Dropped(sys: System, sys1: System, k: string) {
    && k in sys.core.caches
    && (k in sys1.core.caches ==> sys1.core.caches[k].timer != sys.core.caches[k].timer)
  }

  /** A frame stops exactly the armed timer of the cache that it drops, and touches no other; it makes at most one
      timer, which is armed if the frame leaves its cache and stopped if it completes at once. */
  lemma FrameStopsTimers(sys: System, f: Frame, isEnd: nat -> bool, P: (Cache, Log) -> bool)
    requires InvWith(sys, P)
    ensures var k, n, sys1 := f.sensorID, |sys.core.timers|, RunSection(sys, f, isEnd);
            && n <= |sys1.core.timers| <= n + 1
            && (forall g :: 0 <= g < n ==>
                  sys1.core.timers[g]
                  == if Dropped(sys, sys1, k) && g == sys.core.caches[k].timer && sys.core.timers[g].status == Armed
                     then sys.core.timers[g].(status := Stopped) else sys.core.timers[g])
            && (|sys1.core.timers| > n ==>
                  && Decode(f).Fragment? && sys1.core.timers[n].key == k
                  && sys1.core.timers[n].sseq == Decode(f).sseq && sys1.core.timers[n].pseq == Decode(f).pseq
                  && if k in sys1.core.caches
                     then sys1.core.timers[n].status == Armed && sys1.core.caches[k].timer == n
                     else sys1.core.timers[n].status == Stopped)
  {
    if f.sensorID in sys.core.caches {
      assert HasLiveTimer(sys.core.timers, f.sensorID, sys.core.caches[f.sensorID], sys.logs[f.sensorID]);
    }
  }

  /** So a cache that leaves other than by an expiry has no timer left that can still fire: it was armed and is
      stopped, or it had fired before. */
  lemma LeavingStopsTimer(sys: System, e: Event, k: string, isEnd: nat -> bool, P: (Cache, Log) -> bool)
    requires InvWith(sys, P) && Enabled(sys, e) && !e.Expires?
    requires k in sys.core.caches && k !in Step(sys, e, isEnd).core.caches
    ensures var g, sys1 := sys.core.caches[k].timer, Step(sys, e, isEnd);
            && g < |sys.core.timers| && g < |sys1.core.timers| && !Enabled(sys1, Fires(g))
            && sys1.core.timers[g].status
               == if sys.core.timers[g].status == Armed then Stopped else sys.core.timers[g].status
  {
    assert HasLiveTimer(sys.core.timers, k, sys.core.caches[k], sys.logs[k]);
    if e.Receive? {
      OthersIfNot(sys, e.f, k, isEnd);
      FrameStopsTimers(sys, e.f, isEnd, P);
    } else if e.Resume? {
      OtherSensorsUntouched(sys, sys.pending.value, k, isEnd);
    }
  }

  lemma OthersIfNot(sys: System, f: Frame, k: string, isEnd: nat -> bool)
    requires k in sys.core.caches && k !in RunSection(sys, f, isEnd).core.caches
    ensures f.sensorID == k
  {
    if f.sensorID != k {
      OtherSensorsUntouched(sys, f, k, isEnd);
    }
  }

  // ---------------------------------------------------------------- the life of a timer

  // What a timer's status can become.
  predicate Later(a: Status, b: Status) {
    match a
    case Armed => true
    case Fired => b in {Fired, Acking, Done}
    case Acking => b in {Acking, Done}
    case Done => b == Done
    case Stopped => b == Stopped
  }

  predicate StillThere(sys: System, sys1: System, g: nat) {
    g < |sys.core.timers| && g < |sys1.core.timers| && Later(sys.core.timers[g].status, sys1.core.timers[g].status)
  }

  lemma SectionLater(sys: System, f: Frame, g: nat, isEnd: nat -> bool)
    requires g < |sys.core.timers|
    ensures StillThere(sys, RunSection(sys, f, isEnd), g)
  {}

  lemma StepLater(sys: System, e: Event, g: nat, isEnd: nat -> bool)
    requires Enabled(sys, e) && g < |sys.core.timers|
    ensures StillThere(sys, Step(sys, e, isEnd), g)
  {
    match e
    case Receive(f) => SectionLater(sys, f, g, isEnd);
    case Resume => SectionLater(sys, sys.pending.value, g, isEnd);
    case _ =>
  }

  lemma {:induction false} RunLater(sys: System, es: seq<Event>, g: nat, isEnd: nat -> bool)
    requires CanRun(sys, es, isEnd) && g < |sys.core.timers|
    ensures StillThere(sys, Run(sys, es, isEnd), g)
    decreases |es|
  {
    if es != [] {
      RunLater(sys, es[..|es| - 1], g, isEnd);
      StepLater(Run(sys, es[..|es| - 1], isEnd), es[|es| - 1], g, isEnd);
    }
  }

  /** A stopped timer stays stopped in every run: it never fires, never deletes a cache and never reports. */
  lemma StoppedStays(sys: System, es: seq<Event>, g: nat, isEnd: nat -> bool)
    requires CanRun(sys, es, isEnd) && g < |sys.core.timers| && sys.core.timers[g].status == Stopped
    ensures var sys1 := Run(sys, es, isEnd);
            && !Enabled(sys1, Fires(g)) && !Enabled(sys1, Expires(g)) && !Enabled(sys1, Acknowledges(g))
  {
    RunLater(sys, es, g, isEnd);
  }

  /** A timer fires once, deletes once and reports once: in no run after any of the three can it come again. */
  lemma EachOnce(sys: System, e: Event, es: seq<Event>, isEnd: nat -> bool)
    requires Enabled(sys, e) && (e.Fires? || e.Expires? || e.Acknowledges?)
    requires CanRun(Step(sys, e, isEnd), es, isEnd)
    ensures !Enabled(Run(Step(sys, e, isEnd), es, isEnd), e)
  {
    RunLater(Step(sys, e, isEnd), es, e.g, isEnd);
  }

  // ---------------------------------------------------------------- strays

  // Every armed timer of the sensor is that of its live cache.
  ghost predicate NoStrays(sys: System, k: string) {
    forall g :: 0 <= g < |sys.core.timers| && sys.core.timers[g].key == k && sys.core.timers[g].status == Armed ==>
      k in sys.core.caches && sys.core.caches[k].timer == g
  }

  // A callback of the sensor deletes a cache that is not its own and whose timer is armed.
  predicate StaleExpiry(sys: System, e: Event, k: string)
    requires Enabled(sys, e)
  {
    && e.Expires? && sys.core.timers[e.g].key == k && k in sys.core.caches
    && var g := sys.core.caches[k].timer;
       g != e.g && g < |sys.core.timers| && sys.core.timers[g].status == Armed
  }

  lemma FrameKeepsNoStrays(sys: System, f: Frame, k: string, isEnd: nat -> bool, P: (Cache, Log) -> bool)
    requires InvWith(sys, P) && NoStrays(sys, k)
    ensures NoStrays(RunSection(sys, f, isEnd), k)
  {
    var sys1 := RunSection(sys, f, isEnd);
    FrameStopsTimers(sys, f, isEnd, P);
    if f.sensorID != k {
      OtherSensorsUntouched(sys, f, k, isEnd);
    }
  }

  lemma StraysAfterExpiry(sys: System, e: Event, k: string, isEnd: nat -> bool, P: (Cache, Log) -> bool)
    requires InvWith(sys, P) && Enabled(sys, e) && e.Expires? && NoStrays(sys, k)
    ensures NoStrays(Step(sys, e, isEnd), k) <==> !StaleExpiry(sys, e, k)
  {
    var sys1 := Step(sys, e, isEnd);
    if k in sys.core.caches {
      assert HasLiveTimer(sys.core.timers, k, sys.core.caches[k], sys.logs[k]);
      var g := sys.core.caches[k].timer;
      assert g != e.g ==> sys1.core.timers[g] == sys.core.timers[g];
    }
  }

  /** Only a stale callback makes a stray: after any other step every armed timer of a sensor is that of its live
      cache, if it was so before. */
  lemma StraysIff(sys: System, e: Event, k: string, isEnd: nat -> bool, P: (Cache, Log) -> bool)
    requires InvWith(sys, P) && Enabled(sys, e) && NoStrays(sys, k)
    ensures NoStrays(Step(sys, e, isEnd), k) <==> !StaleExpiry(sys, e, k)
  {
    match e
    case Receive(f) => FrameKeepsNoStrays(sys, f, k, isEnd, P);
    case Resume => FrameKeepsNoStrays(sys, sys.pending.value, k, isEnd, P);
    case Expires(_) => StraysAfterExpiry(sys, e, k, isEnd, P);
    case _ =>
  }

  ghost predicate NeverStale(es: seq<Event>, k: string, isEnd: nat -> bool)
    requires CanRun(Initial, es, isEnd)
    decreases |es|
  {
    es == []
    || (NeverStale(es[..|es| - 1], k, isEnd)
        && !StaleExpiry(Run(Initial, es[..|es| - 1], isEnd), es[|es| - 1], k))
  }

  /** Over whole runs: until the first stale callback of a sensor, the sensor has an armed timer only for its live
      cache, however often it restarts and completes. */
  lemma {:induction false} ArmedIsLive(es: seq<Event>, k: string, isEnd: nat -> bool)
    requires CanRun(Initial, es, isEnd) && NeverStale(es, k, isEnd)
    ensures NoStrays(Run(Initial, es, isEnd), k)
    decreases |es|
  {
    if es != [] {
      var pre := es[..|es| - 1];
      ArmedIsLive(pre, k, isEnd);
      RunKeepsInv(pre, isEnd);
      StraysIff(Run(Initial, pre, isEnd), es[|es| - 1], k, isEnd, CacheProperty(isEnd));
    }
  }
}
