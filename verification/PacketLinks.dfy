/** How the sender objects tie shared packet objects to the values the specification uses. */
module PacketLinks {
  import opened DataPackets
  import opened SenderParts

  ghost function SlotOf(p: DataPacket): Slot
    reads p
  {
    Slot(p.Value(), p.acked, p.timeStamp)
  }

  ghost predicate WindowLinked(window: seq<DataPacket>, slots: seq<Slot>, repr: set<DataPacket>)
    reads repr
  {
    |window| == |slots| && forall i :: 0 <= i < |window| ==> window[i] in repr && SlotOf(window[i]) == slots[i]
  }

  ghost predicate AuxLinked(aux: map<nat, DataPacket>, slots: map<nat, Slot>, repr: set<DataPacket>)
    reads repr
  {
    && (forall k :: k in aux <==> k in slots)
    && (forall k :: k in aux ==> aux[k] in repr && SlotOf(aux[k]) == slots[k])
  }

  /** The set ordered by time stamp, as a map from stamps: no member's stamp has changed since
      it was inserted. */
  ghost predicate TimersLinked(unacked: map<nat, DataPacket>, entries: set<Entry>, repr: set<DataPacket>)
    reads repr
  {
    && (forall t :: t in unacked ==>
          unacked[t] in repr && unacked[t].timeStamp == t && Entry(t, unacked[t].seqno) in entries)
    && (forall e :: e in entries ==> e.stamp in unacked && unacked[e.stamp].seqno == e.seqno)
  }

  lemma TimersAdd(unacked: map<nat, DataPacket>, entries: set<Entry>, repr: set<DataPacket>, p: DataPacket)
    requires TimersLinked(unacked, entries, repr) && p in repr && p.timeStamp !in unacked
    ensures TimersLinked(unacked[p.timeStamp := p], entries + {Entry(p.timeStamp, p.seqno)}, repr)
  {
  }

  lemma IndexOfIs(window: seq<Slot>, seqno: nat, i: nat)
    requires i < |window| && window[i].pkt.seqno == seqno
    requires forall j :: 0 <= j < i ==> window[j].pkt.seqno != seqno
    ensures IndexOf(window, seqno) == i
  {
    var k := IndexOf(window, seqno);
    assert k >= i;
    assert window[i].pkt.seqno == seqno;
  }
}
