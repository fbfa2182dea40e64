/** The Stop-and-Wait sender as an object over shared packet objects. The server always
    creates it with a window size of 1 (server/server.cpp, line 157). */
module StopAndWaitSender {
  import opened Bytes
  import opened DataPackets
  import opened PacketBuilders
  import opened SenderParts
  import opened PacketLinks
  import SR = SelectiveRepeat
  import Spec = StopAndWait

  function Unfilled(all: seq<Packet>): Spec.Sender {
    Spec.Sender([], {}, all, 1, 0, 0, [])
  }

  lemma InitialView(all: seq<Packet>)
    ensures Spec.View(SR.Initial(all, 1)) == if all == [] then Unfilled(all) else Spec.Push(Unfilled(all))
  {
    var t := SR.Initial(all, 1);
    if all == [] {
      assert t.window == [] && t.todo == [];
    } else {
      assert t.window == [Slot(all[0], false, 0)];
    }
  }

  class StopAndWaitSender {
    var window: seq<DataPacket>
    var unackedPackets: map<nat, DataPacket>    // by time stamp
    const packetBuilder: PacketBuilder
    var nextSeqNumber: uint32
    var packetsSent: nat
    var clock: nat
    var wire: seq<Packet>
    ghost var repr: set<DataPacket>
    ghost var state: Spec.Sender

    ghost predicate Linked()
      reads this, repr, packetBuilder, packetBuilder.packetsReadQueue
    {
      && state.nextSeqNumber == nextSeqNumber && state.packetsSent == packetsSent
      && state.clock == clock && state.wire == wire
      && packetBuilder.Holds(nextSeqNumber, state.todo) && WindowLinked(window, state.window, repr)
      && TimersLinked(unackedPackets, state.unacked, repr)
      && |window| <= 1 && forall t :: t in unackedPackets ==> window != [] && unackedPackets[t] == window[0]
    }

    ghost predicate Valid(all: seq<Packet>)
      reads this, repr, packetBuilder, packetBuilder.packetsReadQueue
    {
      Linked() && Spec.Inv(state, all)
    }

    constructor (file: bytes)
      requires |Chunks(file)| + 1 < 0x1_0000_0000
      ensures Linked() && state == Spec.View(SR.Initial(Numbered(Chunks(file), 1), 1))
      ensures unackedPackets == map[] && fresh(packetBuilder) && fresh(repr)
    {
      packetBuilder := new PacketBuilder(file, 1);
      nextSeqNumber := 1;
      window, unackedPackets := [], map[];
      packetsSent, clock, wire := 0, 0, [];
      repr := {};
      state := Unfilled([]);
      new;
      Prepare(file);
    }

    ghost predicate Blank()
      reads this
    {
      && state == Unfilled(state.todo) && window == [] && unackedPackets == map[] && repr == {}
      && nextSeqNumber == 1 && packetsSent == 0 && clock == 0 && wire == []
    }

    /** Ties the empty sender to its builder and fills the window. */
    method Prepare(ghost file: bytes)
      requires |Chunks(file)| + 1 < 0x1_0000_0000 && Blank()
      requires packetBuilder.Valid() && packetBuilder.queueSize == 1 && packetBuilder.packetsReadQueue == []
      requires packetBuilder.file == file && packetBuilder.Unread() == file
      modifies this, packetBuilder
      ensures Linked() && state == Spec.View(SR.Initial(Numbered(Chunks(file), 1), 1))
      ensures unackedPackets == map[] && fresh(repr)
    {
      packetBuilder.AllRemaining(1);
      state := Unfilled(packetBuilder.Remaining(1));
      FillWindow();
    }

    /** fill_window with a window size of 1. */
    method FillWindow()
      requires Blank() && packetBuilder.Holds(nextSeqNumber, state.todo)
      modifies this, packetBuilder
      ensures Linked() && state == Spec.View(SR.Initial(old(state).todo, 1))
      ensures unackedPackets == map[] && fresh(repr)
    {
      InitialView(state.todo);
      packetBuilder.HasNextIffRemaining(nextSeqNumber);
      while |window| < 1 && packetBuilder.HasNext()
        invariant Linked() && unackedPackets == map[] && fresh(repr)
        invariant window == [] ==> state == old(state) && (packetBuilder.HasNext() <==> state.todo != [])
        invariant window != [] ==> old(state).todo != [] && state == Spec.Push(old(state))
        decreases 1 - |window|
      {
        var pkt := PushNext();
      }
    }

    method Start(ghost all: seq<Packet>, net: Network)
      requires Linked() && Sequential(all, 1) && state == Spec.View(SR.Initial(all, 1)) && unackedPackets == map[]
      modifies this, repr
      ensures Valid(all) && state == Spec.StopAndWaitStart(all, net) && repr == old(repr)
    {
      Spec.StartKeeps(all, net);
      var it := 0;
      while it < |window|
        invariant Linked() && repr == old(repr) && it <= |window| && |window| == |old(window)|
        invariant it == 0 ==> state == old(state) && unackedPackets == map[]
        invariant it == 1 ==> state == Spec.SendPacket(Spec.View(SR.Initial(all, 1)), 0, net(0))
      {
        SendPacket(window[it], net);
        it := it + 1;
      }
    }

    /** Sends the only packet of the window, which must be outside the timer index. */
    method SendPacket(packet: DataPacket, net: Network)
      requires Linked() && window != [] && window[0] == packet && unackedPackets == map[]
      modifies this, packet
      ensures Linked() && state == Spec.SendPacket(old(state), 0, net(old(clock))) && repr == old(repr)
    {
      assert state.unacked == {} by {
        assert forall e :: e in state.unacked ==> e.stamp in unackedPackets;
      }
      packet.timeStamp := clock;
      wire, clock, unackedPackets, state :=
        if net(clock) != Lost then wire + [packet.Value()] else wire,
        clock + 1,
        unackedPackets[clock := packet],
        Spec.SendPacket(state, 0, net(clock));
    }

    /** Fetches the next packet into the empty window. */
    method PushNext() returns (pkt: DataPacket)
      requires Linked() && window == [] && state.todo != []
      modifies this, packetBuilder
      ensures Linked() && state == Spec.Push(old(state)) && window == [pkt] && unackedPackets == map[]
      ensures repr == old(repr) + {pkt} && fresh(pkt) && wire == old(wire) && clock == old(clock)
    {
      packetBuilder.HasNextIffRemaining(nextSeqNumber);
      var next;
      pkt, next := packetBuilder.GetNextPacket(nextSeqNumber);
      nextSeqNumber := next;
      window := window + [pkt];
      repr := repr + {pkt};
      state := Spec.Push(state);
    }

    method PopFront()
      requires Linked() && window != [] && window[0].acked && unackedPackets == map[]
      modifies this
      ensures Linked() && old(state).window != [] && old(state).window[0].acked
      ensures state == Spec.Pop(old(state)) && window == [] && unackedPackets == map[]
      ensures repr == old(repr) && clock == old(clock)
    {
      packetsSent, window, state := packetsSent + 1, window[1..], Spec.Pop(state);
    }

    method AdvanceWindow(net: Network)
      requires Linked() && (window != [] && window[0].acked ==> unackedPackets == map[])
      modifies this, packetBuilder
      ensures Linked() && state == Spec.Advance(old(state), net)
      ensures old(repr) <= repr && fresh(repr - old(repr))
    {
      ghost var goal := Spec.Advance(state, net);
      while window != [] && window[0].acked
        invariant Linked() && Spec.Advance(state, net) == goal
        invariant window != [] && window[0].acked ==> unackedPackets == map[]
        invariant old(repr) <= repr && fresh(repr - old(repr))
        decreases |state.window| + |state.todo|
      {
        PopAndSend(net);
      }
    }

    /** One round of the pop-and-push loop. */
    method PopAndSend(net: Network)
      requires Linked() && window != [] && window[0].acked && unackedPackets == map[]
      modifies this, packetBuilder
      ensures Linked() && old(state).window != [] && old(state).window[0].acked
      ensures Spec.Advance(state, net) == Spec.Advance(old(state), net)
      ensures |state.window| + |state.todo| < |old(state).window| + |old(state).todo|
      ensures window != [] ==> !window[0].acked
      ensures old(repr) <= repr && fresh(repr - old(repr))
    {
      PopFront();
      packetBuilder.HasNextIffRemaining(nextSeqNumber);
      if packetBuilder.HasNext() {
        var pkt := PushNext();
        SendPacket(pkt, net);
        assert SlotOf(window[0]) == state.window[0];
      }
    }

    /** The checksum of the ACK is not looked at. */
    method AcknowledgePacket(ackPkt: AckPacket, ghost all: seq<Packet>, net: Network)
      requires Valid(all)
      modifies this, packetBuilder, repr
      ensures Valid(all) && state == Spec.Acknowledge(old(state), ackPkt.ackno, net)
      ensures old(repr) <= repr && fresh(repr - old(repr))
    {
      Spec.AcknowledgeKeeps(state, all, ackPkt.ackno, net);
      Spec.IndexOfOne(state, all);
      Scan(ackPkt.ackno, net);
    }

    method Scan(ackno: uint32, net: Network)
      requires Linked()
      requires state.window != [] ==> !state.window[0].acked && state.unacked == {EntryOf(state.window[0])}
      modifies this, packetBuilder, repr
      ensures Linked() && state == Spec.Acknowledge(old(state), ackno, net)
      ensures old(repr) <= repr && fresh(repr - old(repr))
    {
      var it := 0;
      while it < |window|
        invariant it <= |window| && Linked() && state == old(state) && repr == old(repr)
        invariant forall j :: 0 <= j < it ==> state.window[j].pkt.seqno != ackno
        invariant state.window != [] ==> !state.window[0].acked && state.unacked == {EntryOf(state.window[0])}
      {
        assert SlotOf(window[it]) == state.window[it];
        if ackno == window[it].seqno {
          IndexOfIs(state.window, ackno, it);
          if !window[it].acked {
            MarkFront();
            AdvanceWindow(net);
          }
          return;
        }
        it := it + 1;
      }
    }

    method MarkFront()
      requires Linked() && window != [] && !state.window[0].acked && state.unacked == {EntryOf(state.window[0])}
      modifies this, repr
      ensures Linked() && unackedPackets == map[] && repr == old(repr) && old(state).window != []
      ensures state == old(state).(window := old(state).window[0 := old(state).window[0].(acked := true)],
                                   unacked := Erase(old(state).unacked, old(state).window[0].stamp))
    {
      ghost var front := state.window[0];
      assert SlotOf(window[0]) == front;
      window[0].acked := true;
      unackedPackets, state := unackedPackets - {window[0].timeStamp},
        state.(window := state.window[0 := front.(acked := true)], unacked := Erase(state.unacked, front.stamp));
    }

    method HandleTimeOut(ghost all: seq<Packet>, net: Network)
      requires Valid(all) && unackedPackets != map[]
      modifies this, repr
      ensures old(state).unacked != {}
      ensures IndexOf(old(state).window, First(old(state).unacked).seqno) < |old(state).window|
      ensures Valid(all) && state == Spec.HandleTimeOut(old(state), net) && repr == old(repr)
    {
      MinKeyExists(unackedPackets);
      var t :| IsMinKey(unackedPackets, t);
      var firstUnackedPkt := unackedPackets[t];
      assert SlotOf(window[0]) == state.window[0];
      Spec.TimeOutKeeps(state, all, net);
      Spec.IndexOfOne(state, all);
      EraseFront(t);
      SendPacket(firstUnackedPkt, net);
    }

    method EraseFront(t: nat)
      requires Linked() && state.window != [] && state.unacked == {EntryOf(state.window[0])} && t in unackedPackets
      modifies this
      ensures Linked() && unackedPackets == map[] && repr == old(repr) && window == old(window) && clock == old(clock)
      ensures old(state).window != [] && t == old(state).window[0].stamp
      ensures state == old(state).(unacked := Erase(old(state).unacked, t))
    {
      assert SlotOf(window[0]) == state.window[0];
      unackedPackets, state := unackedPackets - {t}, state.(unacked := Erase(state.unacked, t));
    }
  }
}
