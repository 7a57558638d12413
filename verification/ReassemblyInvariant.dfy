/** What every step of the reassembler keeps.

    A System adds to the source's state the restarted call that is between its two critical
    sections, and a log of what each live cache has acknowledged.  The log is history only: no
    step looks at it. */
module ReassemblyInvariant {
  import opened Bytes
  import opened Reassembly

  datatype Piece = Piece(pseq: nat, data: seq<Byte>)

  // first: the fragment that made the cache.  acked: every fragment acknowledged positively since.
  // data: for each number from first on, the data the cache has taken for it.
  datatype Log = Log(first: nat, acked: set<Piece>, data: map<nat, seq<Byte>>)

  datatype System = System(core: Core, pending: Option<Frame>, logs: map<string, Log>)

  const Initial := System(Core(map[], [], [], []), None, map[])

  datatype Event =
    | Receive(f: Frame)
    | Resume              // the restarted call runs again
    | Fires(g: nat)
    | Expires(g: nat)
    | Acknowledges(g: nat)

  // One goroutine receives frames, so a frame waits for a restarted call; timer callbacks run at
  // any time.  A payload of fewer than two bytes panics and ends the run.
  predicate Enabled(sys: System, e: Event) {
    match e
    case Receive(f) => sys.pending.None? && !Decode(f).NoHeader?
    case Resume => sys.pending.Some?
    case Fires(g) => g < |sys.core.timers| && sys.core.timers[g].status == Armed
    case Expires(g) => g < |sys.core.timers| && sys.core.timers[g].status == Fired
    case Acknowledges(g) => g < |sys.core.timers| && sys.core.timers[g].status == Acking
  }

  // ---------------------------------------------------------------- the log

  function Record(log: Log, expected: nat, pseq: nat, data: seq<Byte>): Log {
    Log(log.first, log.acked + {Piece(pseq, data)},
        if pseq >= expected then log.data[pseq := data] else log.data)
  }

  function NewLog(pseq: nat, data: seq<Byte>): Log {
    Log(pseq, {Piece(pseq, data)}, map[pseq := data])
  }

  function LogsAfterFragment(logs: map<string, Log>, before: map<string, Cache>, after: map<string, Cache>,
                             k: string, sseq: nat, pseq: nat, data: seq<Byte>): map<string, Log> {
    if k !in after then logs - {k}
    else if k !in before || k !in logs then logs[k := NewLog(pseq, data)]
    else if before[k].sseq == sseq then logs[k := Record(logs[k], before[k].expected, pseq, data)]
    else logs
  }

  function RunSection(sys: System, f: Frame, isEnd: nat -> bool): System {
    var (core, outcome) := Section(sys.core, f, isEnd);
    var logs :=
      match Decode(f)
      case Fragment(sseq, pseq, data) =>
        LogsAfterFragment(sys.logs, sys.core.caches, core.caches, f.sensorID, sseq, pseq, data)
      case _ => sys.logs;
    System(core, if outcome == Restart then Some(f) else None, logs)
  }

  function Step(sys: System, e: Event, isEnd: nat -> bool): System
    requires Enabled(sys, e)
  {
    match e
    case Receive(f) => RunSection(sys, f, isEnd)
    case Resume => RunSection(sys, sys.pending.value, isEnd)
    case Fires(g) => sys.(core := Fire(sys.core, g))
    case Expires(g) => sys.(core := Expire(sys.core, g), logs := sys.logs - {sys.core.timers[g].key})
    case Acknowledges(g) => sys.(core := ExpiryAck(sys.core, g))
  }

  // ---------------------------------------------------------------- the invariant

  function Joined(data: map<nat, seq<Byte>>, lo: nat, hi: nat): seq<Byte>
    requires lo <= hi && forall p :: lo <= p < hi ==> p in data
    decreases hi
  {
    if lo == hi then [] else Joined(data, lo, hi - 1) + data[hi - 1]
  }

  function Above(data: map<nat, seq<Byte>>, bound: nat): map<nat, seq<Byte>> {
    map p | p in data && p > bound :: data[p]
  }

  function From(data: map<nat, seq<Byte>>, bound: nat): map<nat, seq<Byte>> {
    map p | p in data && p >= bound :: data[p]
  }

  // expected is the least number above first not taken, the buffer joins what lies below it, and
  // the out-of-order map holds exactly what lies above it.
  ghost predicate Refines(c: Cache, log: Log) {
    && log.first < c.expected <= 128
    && (forall p :: log.first <= p < c.expected ==> p in log.data)
    && c.expected !in log.data
    && c.buffer == Joined(log.data, log.first, c.expected)
    && c.outOfOrder == Above(log.data, c.expected)
  }

  // The data taken for a number is that of an acknowledged fragment, and every acknowledged number
  // from first on has been taken.
  ghost predicate Faithful(log: Log) {
    && (forall p :: p in log.data ==> log.first <= p < 128 && Piece(p, log.data[p]) in log.acked)
    && (forall a :: a in log.acked && a.pseq >= log.first ==> a.pseq in log.data)
  }

  // The first fragment is no end, finalPSEQ is set exactly if an end has been taken since, and the
  // cache is still short of it.
  ghost predicate Unfinished(c: Cache, log: Log, isEnd: nat -> bool) {
    && !isEnd(log.first)
    && (c.finalPSEQ != 0 ==> c.finalPSEQ in log.data && isEnd(c.finalPSEQ) && c.expected <= c.finalPSEQ)
    && (forall p :: p in log.data && p > log.first && isEnd(p) ==> c.finalPSEQ != 0)
  }

  ghost predicate CacheOk(c: Cache, log: Log, isEnd: nat -> bool) {
    Refines(c, log) && Faithful(log) && Unfinished(c, log, isEnd)
  }

  ghost function CacheProperty(isEnd: nat -> bool): (Cache, Log) -> bool {
    (c: Cache, log: Log) => CacheOk(c, log, isEnd)
  }

  // A cache owns a timer that is still going to expire.
  predicate HasLiveTimer(timers: seq<Timer>, k: string, c: Cache, log: Log) {
    && c.timer < |timers|
    && var t := timers[c.timer];
       t.key == k && t.sseq == c.sseq && t.pseq == log.first && (t.status == Armed || t.status == Fired)
  }

  // Every cache has a log, property P of both, and its own live timer.
  ghost predicate AllCaches(caches: map<string, Cache>, timers: seq<Timer>, logs: map<string, Log>,
                            P: (Cache, Log) -> bool) {
    && logs.Keys == caches.Keys
    && forall k :: k in caches ==> P(caches[k], logs[k]) && HasLiveTimer(timers, k, caches[k], logs[k])
  }

  // A restarted call waits with a fragment of a sensor that has no cache.
  ghost predicate InvWith(sys: System, P: (Cache, Log) -> bool) {
    && AllCaches(sys.core.caches, sys.core.timers, sys.logs, P)
    && (sys.pending.Some? ==>
          Decode(sys.pending.value).Fragment? && sys.pending.value.sensorID !in sys.core.caches)
  }

  ghost predicate Inv(sys: System, isEnd: nat -> bool) {
    InvWith(sys, CacheProperty(isEnd))
  }

  // ---------------------------------------------------------------- absorbing a fragment

  lemma {:induction false} JoinedSame(d1: map<nat, seq<Byte>>, d2: map<nat, seq<Byte>>, lo: nat, hi: nat)
    requires lo <= hi && forall p :: lo <= p < hi ==> p in d1 && p in d2 && d1[p] == d2[p]
    ensures Joined(d1, lo, hi) == Joined(d2, lo, hi)
    decreases hi
  {
    if lo < hi {
      JoinedSame(d1, d2, lo, hi - 1);
    }
  }

  // The drain loop restores the refinement from any point below the gap.
  lemma {:induction false} DrainRefines(first: nat, data: map<nat, seq<Byte>>, expected: nat,
                                        buffer: seq<Byte>, outOfOrder: map<nat, seq<Byte>>)
    requires first <= expected <= 128
    requires forall p :: p in data ==> p < 128
    requires forall p :: first <= p < expected ==> p in data
    requires buffer == Joined(data, first, expected)
    requires outOfOrder == From(data, expected)
    ensures var (e, b, o) := Drain(expected, buffer, outOfOrder);
            && expected <= e <= 128 && e !in data
            && (forall p :: first <= p < e ==> p in data)
            && b == Joined(data, first, e) && o == Above(data, e)
    decreases 128 - expected
  {
    if expected in outOfOrder {
      var rest := outOfOrder - {expected};
      assert rest == From(data, expected + 1);
      DrainRefines(first, data, expected + 1, buffer + data[expected], rest);
    } else {
      assert outOfOrder == Above(data, expected);
    }
  }

  lemma RecordFaithful(log: Log, expected: nat, pseq: nat, data: seq<Byte>)
    requires Faithful(log) && pseq < 128 && log.first < expected
    requires forall p :: log.first <= p < expected ==> p in log.data
    ensures Faithful(Record(log, expected, pseq, data))
  {
    var log1 := Record(log, expected, pseq, data);
    forall p | p in log1.data
      ensures log1.first <= p < 128 && Piece(p, log1.data[p]) in log1.acked
    {
      if !(p == pseq && pseq >= expected) {
        assert p in log.data && Piece(p, log.data[p]) in log.acked;
      }
    }
  }

  lemma EarlyRefines(c: Cache, log: Log, pseq: nat, data: seq<Byte>, isEnd: nat -> bool)
    requires Refines(c, log) && pseq > c.expected
    ensures Refines(Absorb(c, pseq, data, isEnd), Record(log, c.expected, pseq, data))
  {
    var data1 := log.data[pseq := data];
    JoinedSame(log.data, data1, log.first, c.expected);
    assert c.outOfOrder[pseq := data] == Above(data1, c.expected);
  }

  lemma NextTaken(data: map<nat, seq<Byte>>, first: nat, expected: nat, next: seq<Byte>)
    requires first <= expected && forall p :: first <= p < expected ==> p in data
    ensures Joined(data[expected := next], first, expected + 1) == Joined(data, first, expected) + next
    ensures Above(data, expected) == From(data[expected := next], expected + 1)
  {
    JoinedSame(data, data[expected := next], first, expected);
  }

  lemma InOrderRefines(c: Cache, log: Log, data: seq<Byte>, isEnd: nat -> bool)
    requires Refines(c, log) && c.expected < 128 && forall p :: p in log.data ==> p < 128
    ensures Refines(Absorb(c, c.expected, data, isEnd), Record(log, c.expected, c.expected, data))
  {
    NextTaken(log.data, log.first, c.expected, data);
    DrainRefines(log.first, log.data[c.expected := data], c.expected + 1, c.buffer + data, c.outOfOrder);
  }

  /** Absorbing a fragment, in order, early or repeated, keeps the refinement, and either the cache
      is still short of its end or this fragment completes it. */
  lemma AbsorbOk(c: Cache, log: Log, pseq: nat, data: seq<Byte>, isEnd: nat -> bool)
    requires CacheOk(c, log, isEnd) && pseq < 128
    ensures var c1, log1 := Absorb(c, pseq, data, isEnd), Record(log, c.expected, pseq, data);
            && c1.sseq == c.sseq && c1.timer == c.timer
            && Refines(c1, log1) && Faithful(log1)
            && (CacheOk(c1, log1, isEnd) || Completes(c, c1, pseq))
  {
    RecordFaithful(log, c.expected, pseq, data);
    if pseq > c.expected {
      EarlyRefines(c, log, pseq, data, isEnd);
    } else if pseq == c.expected {
      InOrderRefines(c, log, data, isEnd);
    }
  }

  // ---------------------------------------------------------------- steps keep the invariant

  // A step that changes one sensor's cache and no other sensor's timer keeps the rest.
  lemma OneSensor(caches: map<string, Cache>, timers: seq<Timer>, logs: map<string, Log>,
                  caches1: map<string, Cache>, timers1: seq<Timer>, logs1: map<string, Log>,
                  k: string, P: (Cache, Log) -> bool)
    requires AllCaches(caches, timers, logs, P)
    requires logs1.Keys == caches1.Keys
    requires forall l :: l in caches1 && l != k ==> l in caches && caches1[l] == caches[l] && logs1[l] == logs[l]
    requires |timers1| >= |timers|
    requires forall g :: 0 <= g < |timers| && timers[g].key != k ==> timers1[g] == timers[g]
    requires k in caches1 ==> P(caches1[k], logs1[k]) && HasLiveTimer(timers1, k, caches1[k], logs1[k])
    ensures AllCaches(caches1, timers1, logs1, P)
  {}

  lemma RemoveKeepsKeys<U, V>(m: map<string, U>, n: map<string, V>, k: string)
    requires m.Keys == n.Keys
    ensures (m - {k}).Keys == (n - {k}).Keys
  {
    assert (m - {k}).Keys == m.Keys - {k} && (n - {k}).Keys == n.Keys - {k};
  }

  lemma FirstFragmentKeeps(st: Core, logs: map<string, Log>, f: Frame, sseq: nat, pseq: nat,
                           data: seq<Byte>, isEnd: nat -> bool, P: (Cache, Log) -> bool)
    requires AllCaches(st.caches, st.timers, logs, P) && f.sensorID !in st.caches
    requires pseq < 128
    requires !isEnd(pseq) ==> P(NewCache(sseq, pseq, data, |st.timers|), NewLog(pseq, data))
    ensures var st1 := FirstFragment(st, f, sseq, pseq, data, isEnd);
            AllCaches(st1.caches, st1.timers,
                      LogsAfterFragment(logs, st.caches, st1.caches, f.sensorID, sseq, pseq, data), P)
  {
    var st1, k := FirstFragment(st, f, sseq, pseq, data, isEnd), f.sensorID;
    var logs1 := LogsAfterFragment(logs, st.caches, st1.caches, k, sseq, pseq, data);
    if isEnd(pseq) {
      RemoveKeepsKeys(st.caches, logs, k);
      assert st1.caches.Keys == st.caches.Keys - {k};
    }
    OneSensor(st.caches, st.timers, logs, st1.caches, st1.timers, logs1, k, P);
  }

  lemma RestartKeeps(st: Core, logs: map<string, Log>, k: string, P: (Cache, Log) -> bool)
    requires AllCaches(st.caches, st.timers, logs, P) && k in st.caches
    ensures AllCaches(st.caches - {k}, StopTimer(st.timers, st.caches[k].timer), logs - {k}, P)
  {
    RemoveKeepsKeys(st.caches, logs, k);
    OneSensor(st.caches, st.timers, logs,
              st.caches - {k}, StopTimer(st.timers, st.caches[k].timer), logs - {k}, k, P);
  }

  lemma NextFragmentKeeps(st: Core, logs: map<string, Log>, f: Frame, pseq: nat, data: seq<Byte>,
                          isEnd: nat -> bool, P: (Cache, Log) -> bool)
    requires AllCaches(st.caches, st.timers, logs, P) && f.sensorID in st.caches
    requires AbsorbKeeps(P, st.caches[f.sensorID], logs[f.sensorID], pseq, data, isEnd)
    ensures var st1 := NextFragment(st, f, pseq, data, isEnd);
            AllCaches(st1.caches, st1.timers,
                      LogsAfterFragment(logs, st.caches, st1.caches, f.sensorID,
                                        st.caches[f.sensorID].sseq, pseq, data), P)
  {
    var st1, k := NextFragment(st, f, pseq, data, isEnd), f.sensorID;
    var c := st.caches[k];
    var c1 := Absorb(c, pseq, data, isEnd);
    if Completes(c, c1, pseq) {
      RestartKeeps(st, logs, k, P);
    } else {
      var log1 := Record(logs[k], c.expected, pseq, data);
      OneSensor(st.caches, st.timers, logs, st.caches[k := c1], st.timers, logs[k := log1], k, P);
    }
  }

  // What P must satisfy to be kept by every step: it holds of a new cache, and absorbing a
  // fragment keeps it unless that completes the cache.
  ghost predicate Kept(P: (Cache, Log) -> bool, isEnd: nat -> bool) {
    && (forall sseq: nat, pseq: nat, data: seq<Byte>, timer: nat :: pseq < 128 && !isEnd(pseq) ==>
          P(NewCache(sseq, pseq, data, timer), NewLog(pseq, data)))
    && (forall c: Cache, log: Log, pseq: nat, data: seq<Byte> :: P(c, log) && pseq < 128 ==>
          AbsorbKeeps(P, c, log, pseq, data, isEnd))
  }

  ghost predicate AbsorbKeeps(P: (Cache, Log) -> bool, c: Cache, log: Log, pseq: nat, data: seq<Byte>,
                              isEnd: nat -> bool) {
    var c1 := Absorb(c, pseq, data, isEnd);
    && c1.timer == c.timer && c1.sseq == c.sseq
    && (P(c1, Record(log, c.expected, pseq, data)) || Completes(c, c1, pseq))
  }

  predicate Completes(c: Cache, c1: Cache, pseq: nat) {
    pseq == c.expected && c1.finalPSEQ != 0 && c1.expected > c1.finalPSEQ
  }

  lemma FragmentKeeps(sys: System, f: Frame, isEnd: nat -> bool, P: (Cache, Log) -> bool)
    requires InvWith(sys, P) && Kept(P, isEnd) && Decode(f).Fragment?
    ensures InvWith(RunSection(sys, f, isEnd), P)
  {
    var k, st := f.sensorID, sys.core;
    var Fragment(sseq, pseq, data) := Decode(f);
    if k !in st.caches {
      FirstFragmentKeeps(st, sys.logs, f, sseq, pseq, data, isEnd, P);
    } else if st.caches[k].sseq != sseq {
      RestartKeeps(st, sys.logs, k, P);
    } else {
      assert AbsorbKeeps(P, st.caches[k], sys.logs[k], pseq, data, isEnd);
      NextFragmentKeeps(st, sys.logs, f, pseq, data, isEnd, P);
    }
  }

  lemma TimerKeeps(sys: System, e: Event, isEnd: nat -> bool, P: (Cache, Log) -> bool)
    requires InvWith(sys, P) && Enabled(sys, e) && !e.Receive? && !e.Resume?
    ensures InvWith(Step(sys, e, isEnd), P)
  {
    var sys1 := Step(sys, e, isEnd);
    if e.Expires? {
      var k := sys.core.timers[e.g].key;
      RemoveKeepsKeys(sys.core.caches, sys.logs, k);
      OneSensor(sys.core.caches, sys.core.timers, sys.logs,
                sys1.core.caches, sys1.core.timers, sys1.logs, k, P);
    }
  }

  /** Every step keeps every kept property of the caches, whatever the frame and whoever gets the
      lock, and leaves every cache with a live timer of its own. */
  lemma StepKeeps(sys: System, e: Event, isEnd: nat -> bool, P: (Cache, Log) -> bool)
    requires InvWith(sys, P) && Kept(P, isEnd) && Enabled(sys, e)
    ensures InvWith(Step(sys, e, isEnd), P)
  {
    match e
    case Receive(f) =>
      if Decode(f).Fragment? {
        FragmentKeeps(sys, f, isEnd, P);
      }
    case Resume => FragmentKeeps(sys, sys.pending.value, isEnd, P);
    case _ => TimerKeeps(sys, e, isEnd, P);
  }

  lemma FirstFragmentOk(sseq: nat, pseq: nat, data: seq<Byte>, timer: nat, isEnd: nat -> bool)
    requires pseq < 128 && !isEnd(pseq)
    ensures CacheOk(NewCache(sseq, pseq, data, timer), NewLog(pseq, data), isEnd)
  {
    var d := map[pseq := data];
    assert Joined(d, pseq, pseq + 1) == Joined(d, pseq, pseq) + data == data;
    assert Above(d, pseq + 1) == map[];
  }

  lemma CacheOkKept(isEnd: nat -> bool)
    ensures Kept(CacheProperty(isEnd), isEnd)
  {
    var P := CacheProperty(isEnd);
    forall sseq: nat, pseq: nat, data: seq<Byte>, timer: nat | pseq < 128 && !isEnd(pseq)
      ensures P(NewCache(sseq, pseq, data, timer), NewLog(pseq, data))
    {
      FirstFragmentOk(sseq, pseq, data, timer, isEnd);
    }
    forall c: Cache, log: Log, pseq: nat, data: seq<Byte> | P(c, log) && pseq < 128
      ensures AbsorbKeeps(P, c, log, pseq, data, isEnd)
    {
      AbsorbOk(c, log, pseq, data, isEnd);
    }
  }

  /** Every step keeps the invariant: the refinement, the faithful log, and the bound on expected
      that keeps its 8 bits from wrapping. */
  lemma StepKeepsInv(sys: System, e: Event, isEnd: nat -> bool)
    requires Inv(sys, isEnd) && Enabled(sys, e)
    ensures Inv(Step(sys, e, isEnd), isEnd)
  {
    CacheOkKept(isEnd);
    StepKeeps(sys, e, isEnd, CacheProperty(isEnd));
  }
}
