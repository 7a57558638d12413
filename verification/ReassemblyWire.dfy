/** Reassembly on the wire: with the end test of the source nothing is ever reassembled, and a timer that has
    fired can delete the transfer that replaced its own. */
module ReassemblyWire {
  import opened Bytes
  import opened Reassembly
  import opened ReassemblyInvariant
  import opened ReassemblyRuns
  import opened ReassemblySender

  // ---------------------------------------------------------------- the marker of the source

  ghost predicate NothingReassembled(sys: System) {
    && (forall k :: k in sys.core.caches ==> sys.core.caches[k].finalPSEQ == 0)
    && (forall f :: f in sys.core.sdus ==> f.fragInd == 0)
  }

  ghost predicate EmitsFragmented(sys: System) {
    exists f :: f in sys.core.sdus && f.fragInd != 0
  }

  // Without an end marker among the numbers finalPSEQ keeps its initial value 0.
  lemma {:induction false} DrainKeepsNothing(sys: System, f: Frame, isEnd: nat -> bool)
    requires NothingReassembled(sys) && forall p :: 0 <= p < 128 ==> !isEnd(p)
    ensures NothingReassembled(RunSection(sys, f, isEnd))
  {
    var sys1 := RunSection(sys, f, isEnd);
    forall k | k in sys1.core.caches
      ensures sys1.core.caches[k].finalPSEQ == 0
    {
      if k != f.sensorID {
        OtherSensorsUntouched(sys, f, k, isEnd);
      }
    }
  }

  lemma {:induction false} NeverCompletes(es: seq<Event>, isEnd: nat -> bool)
    requires CanRun(Initial, es, isEnd) && forall p :: 0 <= p < 128 ==> !isEnd(p)
    ensures NothingReassembled(Run(Initial, es, isEnd))
    decreases |es|
  {
    if es != [] {
      var pre, e := es[..|es| - 1], es[|es| - 1];
      NeverCompletes(pre, isEnd);
      var sys := Run(Initial, pre, isEnd);
      match e
      case Receive(f) => DrainKeepsNothing(sys, f, isEnd);
      case Resume => DrainKeepsNothing(sys, sys.pending.value, isEnd);
      case _ =>
    }
  }

  // All frames that were received and all that were emitted are fragments.
  predicate OnlyFragments(es: seq<Event>) {
    forall e :: e in es && e.Receive? ==> e.f.fragInd != 0
  }

  lemma FragmentsOut(sys: System, f: Frame, isEnd: nat -> bool)
    requires f.fragInd != 0 && forall out :: out in sys.core.sdus ==> out.fragInd != 0
    ensures var sys1 := RunSection(sys, f, isEnd);
            && (forall out :: out in sys1.core.sdus ==> out.fragInd != 0)
            && (sys1.pending.Some? ==> sys1.pending == Some(f))
  {
    var out := Emits(sys, f, isEnd);
  }

  lemma {:induction false} OnlyFragmentsOut(es: seq<Event>, isEnd: nat -> bool)
    requires CanRun(Initial, es, isEnd) && OnlyFragments(es)
    ensures var sys := Run(Initial, es, isEnd);
            && (forall out :: out in sys.core.sdus ==> out.fragInd != 0)
            && (sys.pending.Some? ==> sys.pending.value.fragInd != 0)
    decreases |es|
  {
    if es != [] {
      var pre, e := es[..|es| - 1], es[|es| - 1];
      OnlyFragmentsOut(pre, isEnd);
      var sys := Run(Initial, pre, isEnd);
      match e
      case Receive(f) =>
        assert e in es;
        FragmentsOut(sys, f, isEnd);
      case Resume => FragmentsOut(sys, sys.pending.value, isEnd);
      case _ =>
    }
  }

  /** With the source's own marker reassembly never completes: PSEQ is cut to 7 bits and the end test looks
      at the eighth.  In every run every emitted frame was an unfragmented one; and as the parser hands over
      only fragments, nothing is ever emitted at all. */
  lemma WireNeverCompletes(es: seq<Event>)
    requires CanRun(Initial, es, WireIsEnd)
    ensures NothingReassembled(Run(Initial, es, WireIsEnd))
    ensures OnlyFragments(es) ==> Run(Initial, es, WireIsEnd).core.sdus == []
  {
    NeverCompletes(es, WireIsEnd);
    if OnlyFragments(es) {
      OnlyFragmentsOut(es, WireIsEnd);
      HasElement(Run(Initial, es, WireIsEnd).core.sdus);
    }
  }

  lemma HasElement(sdus: seq<Frame>)
    ensures sdus != [] ==> exists f :: f in sdus
  {
    if sdus != [] {
      assert sdus[0] in sdus;
    }
  }

  lemma FirstPieceCompletes(f: Frame, p: nat, isEnd: nat -> bool)
    requires Decode(f) == Fragment(0, p, []) && isEnd(p)
    ensures Enabled(Initial, Receive(f))
    ensures Step(Initial, Receive(f), isEnd).core.sdus == [f.(payload := Overlay(f.payload, []))]
  {}

  lemma RunOfOne(e: Event, isEnd: nat -> bool)
    requires Enabled(Initial, e)
    ensures CanRun(Initial, [e], isEnd) && Run(Initial, [e], isEnd) == Step(Initial, e, isEnd)
  {
    assert [e][..0] == [];
    assert CanRun(Initial, [e][..0], isEnd) && Run(Initial, [e][..0], isEnd) == Initial;
  }

  lemma MarkedCompletes(isEnd: nat -> bool, p: nat) returns (es: seq<Event>)
    requires p < 128 && isEnd(p)
    ensures CanRun(Initial, es, isEnd) && EmitsFragmented(Run(Initial, es, isEnd))
  {
    var f := PieceFrame("", 0, 0, p, []);
    PieceDecodes("", 0, 0, p, []);
    es := [Receive(f)];
    FragmentedOut(f, p, isEnd);
  }

  lemma FragmentedOut(f: Frame, p: nat, isEnd: nat -> bool)
    requires Decode(f) == Fragment(0, p, []) && f.fragInd != 0 && isEnd(p)
    ensures CanRun(Initial, [Receive(f)], isEnd) && EmitsFragmented(Run(Initial, [Receive(f)], isEnd))
  {
    FirstPieceCompletes(f, p, isEnd);
    RunOfOne(Receive(f), isEnd);
    var out := f.(payload := Overlay(f.payload, []));
    assert out in Run(Initial, [Receive(f)], isEnd).core.sdus;
  }

  /** Exactly when a fragmented frame can ever be emitted: some number that the 7-bit header can
      carry satisfies the end test. */
  lemma CompletesIffMarked(isEnd: nat -> bool)
    ensures (exists es :: CanRun(Initial, es, isEnd) && EmitsFragmented(Run(Initial, es, isEnd)))
            <==> (exists p :: 0 <= p < 128 && isEnd(p))
  {
    if p :| 0 <= p < 128 && isEnd(p) {
      var es := MarkedCompletes(isEnd, p);
      assert exists es :: CanRun(Initial, es, isEnd) && EmitsFragmented(Run(Initial, es, isEnd));
    } else {
      forall es | CanRun(Initial, es, isEnd)
        ensures !EmitsFragmented(Run(Initial, es, isEnd))
      {
        NeverCompletes(es, isEnd);
      }
    }
  }

  // ---------------------------------------------------------------- the stale callback

  // The two critical sections of a frame that restarts.
  function Restarted(sys: System, f: Frame, isEnd: nat -> bool): System {
    RunSection(RunSection(sys, f, isEnd), f, isEnd)
  }

  /** A restart stops the old timer only if it has not fired.  If it has, its callback is still to
      come, and it deletes the new cache of that sensor although the new timer is armed; if it has
      not, it never runs. */
  lemma RestartRace(sys: System, f: Frame, isEnd: nat -> bool, P: (Cache, Log) -> bool)
    requires InvWith(sys, P) && sys.pending.None? && f.sensorID in sys.core.caches
    requires Decode(f).Fragment? && Decode(f).sseq != sys.core.caches[f.sensorID].sseq
    requires !isEnd(Decode(f).pseq)
    ensures Enabled(sys, Receive(f)) && Enabled(Step(sys, Receive(f), isEnd), Resume)
    ensures Step(Step(sys, Receive(f), isEnd), Resume, isEnd) == Restarted(sys, f, isEnd)
    ensures var k, g, sys2 := f.sensorID, sys.core.caches[f.sensorID].timer, Restarted(sys, f, isEnd);
            && g < |sys.core.timers| < |sys2.core.timers|
            && k in sys2.core.caches && sys2.core.caches[k].timer == |sys.core.timers|
            && sys2.core.timers[|sys.core.timers|].status == Armed
            && (Enabled(sys2, Expires(g)) <==> sys.core.timers[g].status == Fired) && !Enabled(sys2, Fires(g))
            && (Enabled(sys2, Expires(g)) ==> k !in Step(sys2, Expires(g), isEnd).core.caches)
  {
    assert HasLiveTimer(sys.core.timers, f.sensorID, sys.core.caches[f.sensorID], sys.logs[f.sensorID]);
  }

  lemma RunAppends(es: seq<Event>, e: Event, isEnd: nat -> bool)
    requires CanRun(Initial, es, isEnd) && Enabled(Run(Initial, es, isEnd), e)
    ensures CanRun(Initial, es + [e], isEnd)
    ensures Run(Initial, es + [e], isEnd) == Step(Run(Initial, es, isEnd), e, isEnd)
  {
    var all := es + [e];
    assert all[..|all| - 1] == es && all[|all| - 1] == e;
  }

  // The state after the first fragment of a sensor, before and after its timer has fired.
  lemma FirstArmed(f: Frame, isEnd: nat -> bool)
    requires Decode(f).Fragment? && !isEnd(Decode(f).pseq)
    ensures var sys := Step(Initial, Receive(f), isEnd);
            && sys.pending.None? && f.sensorID in sys.core.caches
            && sys.core.caches[f.sensorID].timer == 0 && sys.core.caches[f.sensorID].sseq == Decode(f).sseq
            && |sys.core.timers| == 1 && sys.core.timers[0].status == Armed
  {}

  /** A run in which that happens, from the start: a fragment, its timer fires, a fragment of another SSEQ
      comes before the callback has the lock, restarts, and then the callback deletes the new transfer. */
  lemma RestartLost(f1: Frame, f2: Frame, isEnd: nat -> bool)
    requires f1.sensorID == f2.sensorID && Decode(f1).Fragment? && Decode(f2).Fragment?
    requires Decode(f1).sseq != Decode(f2).sseq && !isEnd(Decode(f1).pseq) && !isEnd(Decode(f2).pseq)
    ensures var es := [Receive(f1)] + [Fires(0)] + [Receive(f2)] + [Resume];
            && CanRun(Initial, es, isEnd) && CanRun(Initial, es + [Expires(0)], isEnd)
            && f2.sensorID in Run(Initial, es, isEnd).core.caches
            && f2.sensorID !in Run(Initial, es + [Expires(0)], isEnd).core.caches
            && (exists g :: 0 <= g < |Run(Initial, es + [Expires(0)], isEnd).core.timers|
                            && Run(Initial, es + [Expires(0)], isEnd).core.timers[g].status == Armed)
  {
    var es1 := [Receive(f1)];
    RunOfOne(Receive(f1), isEnd);
    FirstArmed(f1, isEnd);
    RunAppends(es1, Fires(0), isEnd);
    var es2 := es1 + [Fires(0)];
    RunKeepsInv(es2, isEnd);
    var sys := Run(Initial, es2, isEnd);
    RestartRace(sys, f2, isEnd, CacheProperty(isEnd));
    RunAppends(es2, Receive(f2), isEnd);
    RunAppends(es2 + [Receive(f2)], Resume, isEnd);
    RunAppends(es2 + [Receive(f2)] + [Resume], Expires(0), isEnd);
    assert Run(Initial, es2 + [Receive(f2)] + [Resume] + [Expires(0)], isEnd).core.timers[1].status == Armed;
  }
}
