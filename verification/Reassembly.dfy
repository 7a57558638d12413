/** Fragment reassembly (internal/frameparser/sharding.go) as a state machine on values.

    A step is one thing that happens under the cache lock, or one timer event; the class
    Reassembler in Reassembler.dfy carries the same steps out in place.  The end marker is a
    parameter, isEnd; WireIsEnd is the one in the source. */
module Reassembly {
  import opened Bytes

  datatype Frame = Frame(sensorID: string, dataLen: Byte, fragInd: Byte, packetType: Byte,
                         payload: seq<Byte>, check: nat)

  datatype Cache = Cache(sseq: nat, expected: nat, finalPSEQ: nat, buffer: seq<Byte>,
                         outOfOrder: map<nat, seq<Byte>>, timer: nat)

  // A timer callback first waits for the lock (Fired), then has deleted the cache and still owes
  // its negative acknowledgement (Acking), then is Done.  Stop reaches only an Armed timer.
  datatype Status = Armed | Fired | Acking | Done | Stopped

  // What the callback closed over when it was armed.
  datatype Timer = Timer(key: string, sseq: nat, pseq: nat, status: Status)

  datatype Ack = Ack(key: string, ok: bool, sseq: nat, pseq: nat)

  // A timer is named by its position in timers.
  datatype Core = Core(caches: map<string, Cache>, timers: seq<Timer>, acks: seq<Ack>, sdus: seq<Frame>)

  // ---------------------------------------------------------------- the PDU header

  datatype Decoded =
    | NoHeader                                           // slicing the payload panics
    | Whole(sseq: nat)                                   // not fragmented
    | ShortHeader(sseq: nat)
    | TooLong(sseq: nat, pseq: nat)                      // size exceeds the payload
    | Fragment(sseq: nat, pseq: nat, data: seq<Byte>)

  // The first two bytes are a big-endian word: SSEQ is its top 6 bits, which are those of the first byte, and
  // PSEQ the 7 bits above the last, which are those of the second.
  function Decode(f: Frame): (d: Decoded)
    ensures !d.NoHeader? ==> d.sseq < 64
    ensures d.TooLong? || d.Fragment? ==> d.pseq < 128
  {
    if |f.payload| < 2 then NoHeader
    else
      var sseq := f.payload[0] / 4;
      if f.fragInd == 0 then Whole(sseq)
      else if |f.payload| < 4 then ShortHeader(sseq)
      else
        var pseq := f.payload[1] / 2;
        var size := LE16(f.payload[2], f.payload[3]);
        if |f.payload| < 4 + size then TooLong(sseq, pseq)
        else Fragment(sseq, pseq, f.payload[4..4 + size])
  }

  predicate IsStart(pseq: nat)
    ensures pseq < 256 ==> (IsStart(pseq) <==> pseq < 128)
  {
    pseq / 128 % 2 == 0
  }

  predicate WireIsEnd(pseq: nat)
    ensures pseq < 256 ==> (WireIsEnd(pseq) <==> pseq >= 128)
  {
    pseq / 128 % 2 == 1
  }

  // ---------------------------------------------------------------- one critical section

  // Restart: the lock was released and ProcessFrame calls itself.  Fault: the Go code panics.
  datatype Outcome = Finished | Restart | Fault

  // copy(frame.Payload, cache.buffer)
  function Overlay(payload: seq<Byte>, buffer: seq<Byte>): seq<Byte> {
    if |buffer| < |payload| then buffer + payload[|buffer|..] else buffer[..|payload|]
  }

  function StopTimer(timers: seq<Timer>, g: nat): seq<Timer> {
    if g < |timers| && timers[g].status == Armed then timers[g := timers[g].(status := Stopped)] else timers
  }

  // Moves buffered fragments from outOfOrder to the buffer while the next one is there.
  function Drain(expected: nat, buffer: seq<Byte>, outOfOrder: map<nat, seq<Byte>>):
      (nat, seq<Byte>, map<nat, seq<Byte>>)
    decreases |outOfOrder|
  {
    if expected in outOfOrder then
      var rest := outOfOrder - {expected};
      SmallerMap(outOfOrder, expected);
      Drain((expected + 1) % 256, buffer + outOfOrder[expected], rest)
    else (expected, buffer, outOfOrder)
  }

  lemma SmallerMap<T>(m: map<nat, T>, k: nat)
    requires k in m
    ensures |m - {k}| < |m|
  {
    assert (m - {k}).Keys == m.Keys - {k};
    assert |(m - {k}).Keys| == |m - {k}| && |m.Keys| == |m|;
  }

  function Acknowledge(st: Core, f: Frame, ok: bool, sseq: nat, pseq: nat): Core {
    st.(acks := st.acks + [Ack(f.sensorID, ok, sseq, pseq)])
  }

  // Stops the timer, drops the cache and emits the SDU, which cache.buffer overlays on f.
  function Finalize(st: Core, f: Frame, cache: Cache): Core {
    st.(caches := st.caches - {f.sensorID}, timers := StopTimer(st.timers, cache.timer),
        sdus := st.sdus + [f.(payload := Overlay(f.payload, cache.buffer))])
  }

  function NewCache(sseq: nat, pseq: nat, data: seq<Byte>, timer: nat): Cache {
    Cache(sseq, (pseq + 1) % 256, 0, data, map[], timer)
  }

  // The first fragment of a sensor without a cache.
  function FirstFragment(st: Core, f: Frame, sseq: nat, pseq: nat, data: seq<Byte>, isEnd: nat -> bool): Core {
    var cache := NewCache(sseq, pseq, data, |st.timers|);
    var st1 := Acknowledge(st.(timers := st.timers + [Timer(f.sensorID, sseq, pseq, Armed)],
                               caches := st.caches[f.sensorID := cache]), f, true, sseq, pseq);
    if isEnd(pseq) then Finalize(st1, f, cache.(finalPSEQ := pseq)) else st1
  }

  // The cache after a fragment of its own SSEQ.
  function Absorb(cache: Cache, pseq: nat, data: seq<Byte>, isEnd: nat -> bool): Cache {
    var final := if isEnd(pseq) then pseq else cache.finalPSEQ;
    if pseq < cache.expected then cache
    else if pseq > cache.expected then
      cache.(outOfOrder := cache.outOfOrder[pseq := data], finalPSEQ := final)
    else
      var (expected, buffer, outOfOrder) :=
        Drain((cache.expected + 1) % 256, cache.buffer + data, cache.outOfOrder);
      cache.(expected := expected, buffer := buffer, outOfOrder := outOfOrder, finalPSEQ := final)
  }

  function NextFragment(st: Core, f: Frame, pseq: nat, data: seq<Byte>, isEnd: nat -> bool): Core
    requires f.sensorID in st.caches
  {
    var cache := st.caches[f.sensorID];
    var next := Absorb(cache, pseq, data, isEnd);
    var st1 := Acknowledge(st, f, true, cache.sseq, pseq);
    if pseq == cache.expected && next.finalPSEQ != 0 && next.expected > next.finalPSEQ
    then Finalize(st1, f, next)
    else st1.(caches := st1.caches[f.sensorID := next])
  }

  function FragmentSection(st: Core, f: Frame, sseq: nat, pseq: nat, data: seq<Byte>, isEnd: nat -> bool):
      (Core, Outcome)
  {
    if f.sensorID !in st.caches then
      if IsStart(pseq) then (FirstFragment(st, f, sseq, pseq, data, isEnd), Finished)
      else (Acknowledge(st, f, false, sseq, pseq), Finished)
    else if st.caches[f.sensorID].sseq != sseq then
      if IsStart(pseq) then
        (st.(timers := StopTimer(st.timers, st.caches[f.sensorID].timer),
             caches := st.caches - {f.sensorID}), Restart)
      else (Acknowledge(st, f, false, sseq, pseq), Finished)
    else (NextFragment(st, f, pseq, data, isEnd), Finished)
  }

  // ProcessFrame up to its return or to its call of itself.
  function Section(st: Core, f: Frame, isEnd: nat -> bool): (Core, Outcome) {
    match Decode(f)
    case NoHeader => (st, Fault)
    case Whole(sseq) => (Acknowledge(st, f, true, sseq, 0).(sdus := st.sdus + [f]), Finished)
    case ShortHeader(sseq) => (Acknowledge(st, f, false, sseq, 0), Finished)
    case TooLong(sseq, pseq) => (Acknowledge(st, f, false, sseq, pseq), Finished)
    case Fragment(sseq, pseq, data) => FragmentSection(st, f, sseq, pseq, data, isEnd)
  }

  // ---------------------------------------------------------------- timer callbacks

  function SetStatus(timers: seq<Timer>, g: nat, status: Status): seq<Timer>
    requires g < |timers|
  {
    timers[g := timers[g].(status := status)]
  }

  function Fire(st: Core, g: nat): Core
    requires g < |st.timers|
  {
    st.(timers := SetStatus(st.timers, g, Fired))
  }

  // The callback holds the lock: it deletes whatever cache its sensor has by now.
  function Expire(st: Core, g: nat): Core
    requires g < |st.timers|
  {
    st.(caches := st.caches - {st.timers[g].key}, timers := SetStatus(st.timers, g, Acking))
  }

  function ExpiryAck(st: Core, g: nat): Core
    requires g < |st.timers|
  {
    var t := st.timers[g];
    st.(acks := st.acks + [Ack(t.key, false, t.sseq, t.pseq)], timers := SetStatus(st.timers, g, Done))
  }
}
