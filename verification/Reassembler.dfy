/** The reassembler in the form of the source: a map of cache objects whose fields ProcessFrame
    updates in place, proved against the state machine of Reassembly.dfy. */
module ReassemblerClass {
  import opened Bytes
  import opened Reassembly

  class SDUCache {
    ghost const key: string  // the sensor whose cache this is
    const sseq: nat
    const timer: nat
    var expected: nat
    var finalPSEQ: nat
    var buffer: seq<Byte>
    var outOfOrder: map<nat, seq<Byte>>

    constructor (ghost key: string, sseq: nat, expected: nat, data: seq<Byte>, timer: nat)
      ensures this.key == key
      ensures Value() == Cache(sseq, expected, 0, data, map[], timer)
    {
      this.key := key;
      this.sseq, this.timer, this.expected, this.finalPSEQ := sseq, timer, expected, 0;
      this.buffer, this.outOfOrder := data, map[];
    }

    function Value(): Cache
      reads this
    {
      Cache(sseq, expected, finalPSEQ, buffer, outOfOrder, timer)
    }

    // The switch of ProcessFrame on a fragment of this cache's SSEQ, with its drain loop.
    method Absorb(pseq: nat, data: seq<Byte>, isEnd: nat -> bool)
      modifies this
      ensures Value() == Reassembly.Absorb(old(Value()), pseq, data, isEnd)
    {
      if pseq < expected {
        return;
      }
      if pseq > expected {
        outOfOrder := outOfOrder[pseq := data];
        if isEnd(pseq) {
          finalPSEQ := pseq;
        }
        return;
      }
      buffer := buffer + data;
      expected := (expected + 1) % 256;
      if isEnd(pseq) {
        finalPSEQ := pseq;
      }
      DrainBuffer();
    }

    // Moves the fragments that have become next from outOfOrder to the buffer.
    method DrainBuffer()
      modifies this
      ensures (expected, buffer, outOfOrder) == Drain(old(expected), old(buffer), old(outOfOrder))
      ensures finalPSEQ == old(finalPSEQ)
    {
      while expected in outOfOrder
        invariant Drain(expected, buffer, outOfOrder) == Drain(old(expected), old(buffer), old(outOfOrder))
        invariant finalPSEQ == old(finalPSEQ)
        decreases |outOfOrder|
      {
        var nxt := expected;
        var d := outOfOrder[nxt];
        SmallerMap(outOfOrder, nxt);
        outOfOrder := outOfOrder - {nxt};
        buffer := buffer + d;
        expected := (expected + 1) % 256;
      }
    }
  }

  lemma QuotientOf(q: nat, r: nat, d: nat)
    requires d in {2, 128, 1024} && r < d
    ensures (d * q + r) / d == q && (d * q + r) % d == r
  {}

  // The shifts of the header word are those of its bytes.
  lemma HeaderWord(two: nat, hi: nat, lo: nat)
    requires hi < 256 && lo < 256 && two == 256 * hi + lo
    ensures two / 1024 == hi / 4 && two / 2 % 128 == lo / 2
  {
    QuotientOf(hi / 4, 256 * (hi % 4) + lo, 1024);
    QuotientOf(128 * hi + lo / 2, lo % 2, 2);
    QuotientOf(hi, lo / 2, 128);
  }

  // The shifts of the big-endian header word.
  method HeaderNumbers(hi: Byte, lo: Byte) returns (sseq: nat, pseq: nat)
    ensures sseq == hi / 4 && pseq == lo / 2
  {
    var two := BE16(hi, lo);
    HeaderWord(two, hi, lo);
    sseq, pseq := two / 1024, two / 2 % 128;
  }

  // The PDU header.
  method ReadHeader(f: Frame) returns (d: Decoded)
    ensures d == Decode(f)
  {
    if |f.payload| < 2 {
      return NoHeader;
    }
    var sseq, pseq := HeaderNumbers(f.payload[0], f.payload[1]);
    if f.fragInd == 0 {
      return Whole(sseq);
    }
    if |f.payload| < 4 {
      return ShortHeader(sseq);
    }
    var i := 4;
    var size := LE16(f.payload[i - 2], f.payload[i - 1]);
    if |f.payload| < i + size {
      return TooLong(sseq, pseq);
    }
    d := Fragment(sseq, pseq, f.payload[i..i + size]);
  }

  // copy(dst, src)
  method Copy(dst: seq<Byte>, src: seq<Byte>) returns (out: seq<Byte>)
    ensures out == Overlay(dst, src)
  {
    out := dst;
    var i := 0;
    while i < |dst| && i < |src|
      invariant i <= |dst| == |out| && i <= |src|
      invariant forall k :: 0 <= k < |out| ==> out[k] == if k < i then src[k] else dst[k]
    {
      out := out[i := src[i]];
      i := i + 1;
    }
  }

  function Values(caches: map<string, SDUCache>): (v: map<string, Cache>)
    reads caches.Values
    ensures v.Keys == caches.Keys
    ensures forall k :: k in caches ==> v[k] == caches[k].Value()
  {
    map k | k in caches :: caches[k].Value()
  }

  lemma PutThenRemove<K, V>(m: map<K, V>, k: K, v: V)
    ensures m[k := v] - {k} == m - {k}
    ensures k !in m ==> m - {k} == m
    ensures k in m ==> (m - {k})[k := m[k]] == m
  {}

  lemma NoSecondRestart(st: Core, f: Frame, isEnd: nat -> bool)
    requires Section(st, f, isEnd).1 == Restart
    ensures var mid := Section(st, f, isEnd).0; f.sensorID !in mid.caches && Section(mid, f, isEnd).1 != Restart
  {}

  lemma ValuesWithout(caches: map<string, SDUCache>, key: string)
    ensures Values(caches - {key}) == Values(caches) - {key}
  {
    assert (Values(caches) - {key}).Keys == caches.Keys - {key};
  }

  lemma ValuesWith(caches: map<string, SDUCache>, key: string, cache: SDUCache)
    ensures Values(caches[key := cache]) == Values(caches)[key := cache.Value()]
  {}

  class Reassembler {
    const isEnd: nat -> bool
    var caches: map<string, SDUCache>
    var timers: seq<Timer>
    var acks: seq<Ack>
    var sdus: seq<Frame>

    constructor (isEnd: nat -> bool)
      ensures Valid() && View() == Core(map[], [], [], [])
      ensures this.isEnd == isEnd
    {
      this.isEnd := isEnd;
      caches, timers, acks, sdus := map[], [], [], [];
    }

    function View(): Core
      reads this, caches.Values
    {
      Core(Values(caches), timers, acks, sdus)
    }

    // Every cache belongs to its sensor, so no two sensors share one.
    ghost predicate Valid()
      reads this
    {
      forall k :: k in caches ==> caches[k].key == k
    }

    // Every cache was there before, or is new.
    twostate predicate OldOrFresh()
      reads this
    {
      forall k :: k in caches ==> (k in old(caches) && caches[k] == old(caches[k])) || fresh(caches[k])
    }

    // Timer.Stop: it reaches only a timer that has not fired.
    method Stop(g: nat)
      modifies this`timers
      ensures timers == StopTimer(old(timers), g)
    {
      if g < |timers| && timers[g].status == Armed {
        timers := timers[g := timers[g].(status := Stopped)];
      }
    }

    // Stops the cache's timer, drops the cache and emits the SDU.
    method FinalizeCache(f: Frame)
      requires Valid() && f.sensorID in caches
      modifies this`caches, this`timers, this`sdus
      ensures Valid() && caches == old(caches) - {f.sensorID}
      ensures View() == Finalize(old(View()), f, old(caches[f.sensorID].Value()))
    {
      var cache := caches[f.sensorID];
      ValuesWithout(caches, f.sensorID);
      Stop(cache.timer);
      caches := caches - {f.sensorID};
      var payload := Copy(f.payload, cache.buffer);
      sdus := sdus + [f.(payload := payload)];
    }

    // Makes the sensor's cache with a timer of its own, and acknowledges its fragment.
    method AddCache(f: Frame, sseq: nat, pseq: nat, data: seq<Byte>) returns (cache: SDUCache)
      requires Valid() && f.sensorID !in caches
      modifies this`caches, this`timers, this`acks
      ensures Valid() && fresh(cache) && caches == old(caches)[f.sensorID := cache]
      ensures cache.Value() == Reassembly.NewCache(sseq, pseq, data, |old(timers)|)
      ensures View() == Acknowledge(old(View()).(timers := old(timers) + [Timer(f.sensorID, sseq, pseq, Armed)],
                                                 caches := old(View()).caches[f.sensorID := cache.Value()]),
                                    f, true, sseq, pseq)
    {
      cache := new SDUCache(f.sensorID, sseq, (pseq + 1) % 256, data, |timers|);
      ValuesWith(caches, f.sensorID, cache);
      timers := timers + [Timer(f.sensorID, sseq, pseq, Armed)];
      caches := caches[f.sensorID := cache];
      acks := acks + [Ack(f.sensorID, true, sseq, pseq)];
    }

    // ProcessFrame from its entry to its return or to its call of itself: at most one stretch
    // under the lock.
    method LockedSection(f: Frame) returns (outcome: Outcome)
      requires Valid()
      modifies this, caches.Values
      ensures Valid() && OldOrFresh()
      ensures (View(), outcome) == Section(old(View()), f, isEnd)
    {
      outcome := Finished;
      var header := ReadHeader(f);
      match header
      case NoHeader =>
        outcome := Fault;
      case Whole(sseq) =>
        acks := acks + [Ack(f.sensorID, true, sseq, 0)];
        sdus := sdus + [f];
      case ShortHeader(sseq) =>
        acks := acks + [Ack(f.sensorID, false, sseq, 0)];
      case TooLong(sseq, pseq) =>
        acks := acks + [Ack(f.sensorID, false, sseq, pseq)];
      case Fragment(sseq, pseq, data) =>
        outcome := TakeFragment(f, sseq, pseq, data);
    }

    method TakeFragment(f: Frame, sseq: nat, pseq: nat, data: seq<Byte>) returns (outcome: Outcome)
      requires Valid()
      modifies this, caches.Values
      ensures Valid() && OldOrFresh()
      ensures (View(), outcome) == FragmentSection(old(View()), f, sseq, pseq, data, isEnd)
    {
      outcome := Finished;
      if f.sensorID !in caches {
        if IsStart(pseq) {
          Begin(f, sseq, pseq, data);
        } else {
          acks := acks + [Ack(f.sensorID, false, sseq, pseq)];
        }
      } else if caches[f.sensorID].sseq != sseq {
        if IsStart(pseq) {
          ValuesWithout(caches, f.sensorID);
          Stop(caches[f.sensorID].timer);
          caches := caches - {f.sensorID};
          outcome := Restart;
        } else {
          acks := acks + [Ack(f.sensorID, false, sseq, pseq)];
        }
      } else {
        Continue(f, pseq, data);
      }
    }

    method Begin(f: Frame, sseq: nat, pseq: nat, data: seq<Byte>)
      requires Valid() && f.sensorID !in caches
      modifies this
      ensures Valid() && OldOrFresh()
      ensures View() == FirstFragment(old(View()), f, sseq, pseq, data, isEnd)
    {
      var cache := AddCache(f, sseq, pseq, data);
      if isEnd(pseq) {
        FinalizeAt(f, cache, pseq);
      }
    }

    method FinalizeAt(f: Frame, cache: SDUCache, pseq: nat)
      requires Valid() && f.sensorID in caches && caches[f.sensorID] == cache
      modifies this`caches, this`timers, this`sdus, cache
      ensures Valid() && caches == old(caches) - {f.sensorID}
      ensures View() == Finalize(old(View()), f, old(cache.Value()).(finalPSEQ := pseq))
    {
      ghost var others := caches - {f.sensorID};
      ValuesWithout(caches, f.sensorID);
      assert forall k :: k in others ==> others[k].key == k && others[k] != cache;
      cache.finalPSEQ := pseq;
      assert Values(others) == old(Values(caches)) - {f.sensorID};
      FinalizeCache(f);
    }

    method Continue(f: Frame, pseq: nat, data: seq<Byte>)
      requires Valid() && f.sensorID in caches
      modifies this, caches[f.sensorID]
      ensures Valid() && OldOrFresh()
      ensures View() == NextFragment(old(View()), f, pseq, data, isEnd)
    {
      var cache := caches[f.sensorID];
      var inOrder := pseq == cache.expected;
      PutThenRemove(Values(caches), f.sensorID, Reassembly.Absorb(cache.Value(), pseq, data, isEnd));
      AbsorbInto(f, cache, pseq, data);
      if inOrder && cache.finalPSEQ != 0 && cache.expected > cache.finalPSEQ {
        FinalizeCache(f);
      }
    }

    // Absorbs the fragment and acknowledges it.
    method AbsorbInto(f: Frame, cache: SDUCache, pseq: nat, data: seq<Byte>)
      requires Valid() && f.sensorID in caches && caches[f.sensorID] == cache
      modifies cache, this`acks
      ensures cache.Value() == Reassembly.Absorb(old(cache.Value()), pseq, data, isEnd)
      ensures View() == Acknowledge(old(View()), f, true, cache.sseq, pseq)
                          .(caches := old(View()).caches[f.sensorID := cache.Value()])
    {
      cache.Absorb(pseq, data, isEnd);
      acks := acks + [Ack(f.sensorID, true, cache.sseq, pseq)];
    }

    // The whole of ProcessFrame when no timer callback gets between its two stretches.  The
    // second call finds no cache, so it does not restart again.
    method ProcessFrame(f: Frame) returns (outcome: Outcome)
      requires Valid()
      modifies this, caches.Values
      ensures Valid() && OldOrFresh()
      ensures outcome != Restart
      ensures var (mid, first) := Section(old(View()), f, isEnd);
              if first == Restart then (View(), outcome) == Section(mid, f, isEnd)
              else View() == mid && outcome == first
      decreases if f.sensorID in caches then 1 else 0
    {
      outcome := LockedSection(f);
      if outcome == Restart {
        NoSecondRestart(old(View()), f, isEnd);
        outcome := ProcessFrame(f);
      }
    }

    // time.AfterFunc starts the callback, which then waits for the lock.
    method TimerFires(g: nat)
      requires Valid() && g < |timers| && timers[g].status == Armed
      modifies this`timers
      ensures Valid() && View() == Fire(old(View()), g)
    {
      timers := timers[g := timers[g].(status := Fired)];
    }

    method TimerExpires(g: nat)
      requires Valid() && g < |timers| && timers[g].status == Fired
      modifies this`caches, this`timers
      ensures Valid() && View() == Expire(old(View()), g)
    {
      ValuesWithout(caches, timers[g].key);
      caches := caches - {timers[g].key};
      timers := timers[g := timers[g].(status := Acking)];
    }

    method TimerAcknowledges(g: nat)
      requires Valid() && g < |timers| && timers[g].status == Acking
      modifies this`acks, this`timers
      ensures Valid() && View() == ExpiryAck(old(View()), g)
    {
      var t := timers[g];
      acks := acks + [Ack(t.key, false, t.sseq, t.pseq)];
      timers := timers[g := t.(status := Done)];
    }
  }
}
