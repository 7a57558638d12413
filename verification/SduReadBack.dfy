/** From the sender of a fragmented parameter list to the second decoding loop: when the list is read back from
    the frame that reassembly emits. */
module SduReadBack {
  import opened Bytes
  import opened Reassembly
  import opened ReassemblyInvariant
  import opened ReassemblyRuns
  import opened ReassemblyCompletion
  import opened ReassemblySender
  import opened Tlv
  import opened TlvTheorems

  /** When the emitted payload is decoded: a list is returned if and only if all its lengths read right, and it
      and the two bytes that the loop keeps back fit into the payload of the completing frame. */
  lemma OverlaidListIff(payload: seq<Byte>, es: seq<Entry>, tail: seq<Byte>, rules: Rules)
    requires AllFit(es) && rules.guarded && rules.known
    ensures var out := Overlay(payload, EncodeAll(es) + tail);
            Walk(out, |out|, 0, |es|, rules).items == ItemsOf(es)
            <==> es == [] || (AllReadRight(es, rules.order) && |EncodeAll(es)| + 2 <= |payload|)
  {
    var out := Overlay(payload, EncodeAll(es) + tail);
    assert Agrees(out, |out|, 0, EncodeAll(es));
    ListReadIff(out, |out|, 0, es, rules);
  }

  /** From end to end: a parameter list, with whatever follows it, cut into fragments and sent in order comes
      back out of the second decoding loop if and only if every flag-2 length in it has two equal bytes and the
      fragments before the last carry at most two bytes more than what follows the list. */
  lemma TransferReadBackIff(sys: System, sdu: Sdu, es: seq<Entry>, tail: seq<Byte>, isEnd: nat -> bool)
    requires Ready(sys, sdu, isEnd) && Sendable(sdu) && EndsAt(isEnd, sdu.last)
    requires AllFit(es) && sdu.count == |es|
    requires Contents(sdu.content, 0, sdu.last + 1) == EncodeAll(es) + tail
    ensures var events := SentInOrder(Pieces(sdu), sdu.last + 1, sdu.sensor in sys.core.caches);
            && CanRun(sys, events, isEnd)
            && exists out: Frame ::
                 && SdusOf(Run(sys, events, isEnd).core.sdus, sdu.sensor) == SdusOf(sys.core.sdus, sdu.sensor) + [out]
                 && (Walk(out.payload, |out.payload|, 0, out.dataLen, PayloadRules(true)).items == ItemsOf(es)
                     <==> es == [] || ((forall e :: e in es ==> Symmetric(e))
                                       && |Contents(sdu.content, 0, sdu.last)| <= 2 + |tail|))
  {
    InOrderCompletes(sys, sdu, isEnd);
    EmittedReadBackIff(sdu, es, tail);
    var out := Emission(PieceOf(sdu, sdu.last), sdu, 0);
    assert out.dataLen == |es|;
  }

  lemma EmittedReadBackIff(sdu: Sdu, es: seq<Entry>, tail: seq<Byte>)
    requires AllFit(es) && sdu.sseq < 64 && sdu.last < 128
    requires Contents(sdu.content, 0, sdu.last + 1) == EncodeAll(es) + tail
    ensures var out := Emission(PieceOf(sdu, sdu.last), sdu, 0).payload;
            Walk(out, |out|, 0, |es|, PayloadRules(true)).items == ItemsOf(es)
            <==> es == [] || ((forall e :: e in es ==> Symmetric(e))
                              && |Contents(sdu.content, 0, sdu.last)| <= 2 + |tail|)
  {
    OverlaidListIff(PieceOf(sdu, sdu.last).payload, es, tail, PayloadRules(true));
    assert |EncodeAll(es)| + |tail| == |Contents(sdu.content, 0, sdu.last)| + |sdu.content(sdu.last)|;
  }
}
