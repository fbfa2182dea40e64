/** The Go-Back-N sender and client as objects. */
module GoBackNObjects {
  import opened Bytes
  import opened PacketUtil
  import opened DataPackets
  import opened PacketBuilders
  import opened SenderParts
  import opened PacketLinks
  import opened Networks
  import Spec = GoBackN

  /** The first k packets have been put into the window. */
  function FilledTo(all: seq<Packet>, k: nat): Spec.Sender
    requires k <= |all|
  {
    Spec.Sender(seq(k, i requires 0 <= i < k => Slot(all[i], false, 0)), all[k..], k, 0, [])
  }

  lemma FilledOnce(all: seq<Packet>, k: nat)
    requires k < |all|
    ensures Spec.Push(FilledTo(all, k)) == FilledTo(all, k + 1)
  {
    assert all[k..][1..] == all[k + 1..];
  }

  /** Consecutive numbers through the window and on into the builder, so that no packet object
      is held twice. */
  ghost predicate Consecutive(s: Spec.Sender) {
    && |s.window| <= s.nextSeqNumber
    && (forall i :: 0 <= i < |s.window| ==> s.window[i].pkt.seqno == s.Base() + i)
    && (forall j :: 0 <= j < |s.todo| ==> s.todo[j].seqno == s.nextSeqNumber + j)
  }

  lemma StartsConsecutive(cs: seq<bytes>)
    requires |cs| < 0x1_0000_0000
    ensures Consecutive(FilledTo(Numbered(cs, 0), 0)) && FilledTo(Numbered(cs, 0), 0).window == []
  {
    var all := Numbered(cs, 0);
    assert all[0..] == all;
    forall j | 0 <= j < |all|
      ensures all[j].seqno == j
    {
    }
  }

  lemma StartIs(s: Spec.Sender, i: nat, net: Network)
    requires i < |s.window|
    ensures Spec.StartFrom(s, i, net) == Spec.StartFrom(Spec.SendPacket(s, i, net(s.clock)), i + 1, net)
  {
  }

  lemma AcknowledgeIs(s: Spec.Sender, ackno: nat, i: nat, net: Network)
    requires i == IndexOf(s.window, ackno)
    ensures i < |s.window| ==>
      Spec.Acknowledge(s, ackno, net) == Spec.Advance(s.(window := Spec.Flagged(s.window, 0, i + 1)), net)
    ensures i >= |s.window| ==> Spec.Acknowledge(s, ackno, net) == s
  {
  }

  class GoBackNSender {
    var window: seq<DataPacket>
    const packetBuilder: PacketBuilder
    const windowSize: nat
    var nextSeqNumber: uint32       // runs ahead by what the builder has read but not handed out
    var clock: nat
    var wire: seq<Packet>
    ghost var repr: set<DataPacket>
    ghost var state: Spec.Sender

    ghost predicate BuilderReady()
      reads this, packetBuilder, packetBuilder.packetsReadQueue
    {
      && packetBuilder.Offers(nextSeqNumber, state.todo, state.nextSeqNumber)
      && forall j :: 0 <= j < |packetBuilder.packetsReadQueue| ==> packetBuilder.packetsReadQueue[j] in repr
    }

    ghost predicate Linked()
      reads this, repr, packetBuilder, packetBuilder.packetsReadQueue
    {
      && windowSize == Spec.DEFAULT_WINDOW_SIZE
      && state.clock == clock && state.wire == wire
      && BuilderReady() && WindowLinked(window, state.window, repr) && Consecutive(state)
    }

    ghost predicate Valid(all: seq<Packet>)
      reads this, repr, packetBuilder, packetBuilder.packetsReadQueue
    {
      Linked() && Sequential(all, 0) && Spec.Inv(state, all)
    }

    /** The objects of the window differ from each other and from those of the builder. */
    lemma Apart(i: nat)
      requires Linked() && i < |window|
      ensures forall j :: 0 <= j < |window| && j != i ==> window[j] != window[i]
      ensures forall j :: 0 <= j < |packetBuilder.packetsReadQueue| ==> packetBuilder.packetsReadQueue[j] != window[i]
    {
      assert SlotOf(window[i]) == state.window[i];
      forall j | 0 <= j < |window| && j != i
        ensures window[j] != window[i]
      {
        assert SlotOf(window[j]) == state.window[j];
      }
      forall j | 0 <= j < |packetBuilder.packetsReadQueue|
        ensures packetBuilder.packetsReadQueue[j] != window[i]
      {
        assert state.todo[j] == packetBuilder.packetsReadQueue[j].Value();
      }
    }

    constructor (file: bytes)
      requires |Chunks(file)| < 0x1_0000_0000
      ensures Linked() && state == Spec.Initial(Numbered(Chunks(file), 0))
      ensures fresh(packetBuilder) && fresh(repr)
    {
      windowSize := Spec.DEFAULT_WINDOW_SIZE;
      packetBuilder := new PacketBuilder(file, Spec.DEFAULT_WINDOW_SIZE);
      nextSeqNumber := 0;
      window, clock, wire := [], 0, [];
      repr := {};
      state := FilledTo([], 0);
      new;
      Prepare(file);
    }

    /** Ties the empty sender to its builder and fills the window. */
    method Prepare(ghost file: bytes)
      requires |Chunks(file)| < 0x1_0000_0000 && state == FilledTo([], 0) && repr == {}
      requires windowSize == Spec.DEFAULT_WINDOW_SIZE
      requires window == [] && clock == 0 && wire == [] && nextSeqNumber == 0
      requires packetBuilder.Valid() && packetBuilder.packetsReadQueue == []
      requires packetBuilder.file == file && packetBuilder.Unread() == file
      modifies this, packetBuilder
      ensures Linked() && state == Spec.Initial(Numbered(Chunks(file), 0))
      ensures fresh(repr)
    {
      packetBuilder.AllRemaining(0);
      StartsConsecutive(Chunks(file));
      state := FilledTo(packetBuilder.Remaining(0), 0);
      FillWindow();
    }

    /** fill_window of the base class. */
    method FillWindow()
      requires Linked() && state == FilledTo(state.todo, 0) && repr == {}
      modifies this, packetBuilder
      ensures Linked() && state == Spec.Initial(old(state).todo)
      ensures fresh(repr)
    {
      ghost var all := state.todo;
      packetBuilder.HasNextIffRemaining(nextSeqNumber);
      while |window| < windowSize && packetBuilder.HasNext()
        invariant Linked() && fresh(repr) && |window| <= windowSize && |window| <= |all|
        invariant state == FilledTo(all, |window|)
        invariant packetBuilder.HasNext() <==> state.todo != []
        decreases windowSize - |window|
      {
        FilledOnce(all, |window|);
        var pkt := PushNext();
        packetBuilder.HasNextIffRemaining(nextSeqNumber);
      }
    }

    /** Fetches the next packet to the back of the window. */
    method PushNext() returns (pkt: DataPacket)
      requires Linked() && state.todo != []
      modifies this, packetBuilder
      ensures Linked() && state == Spec.Push(old(state)) && window == old(window) + [pkt] && pkt in repr
      ensures old(repr) <= repr && fresh(repr - old(repr))
    {
      packetBuilder.HasNextIffRemaining(nextSeqNumber);
      var next;
      pkt, next := packetBuilder.GetNextPacket(nextSeqNumber);
      repr := repr + {pkt} + (set p | p in packetBuilder.packetsReadQueue);
      nextSeqNumber, window, state := next, window + [pkt], Spec.Push(state);
    }

    /** Sends the packet at position i of the window. */
    method SendPacket(packet: DataPacket, ghost i: nat, net: Network)
      requires Linked() && i < |window| && window[i] == packet
      modifies this, packet
      ensures Linked() && state == Spec.SendPacket(old(state), i, net(old(clock)))
      ensures repr == old(repr) && window == old(window)
    {
      Apart(i);
      packet.timeStamp := clock;
      wire, clock, state :=
        if net(clock) != Lost then wire + [packet.Value()] else wire,
        clock + 1,
        Spec.SendPacket(state, i, net(clock));
    }

    method Start(ghost all: seq<Packet>, net: Network)
      requires Linked() && Sequential(all, 0) && state == Spec.Initial(all)
      modifies this, repr
      ensures Valid(all) && state == Spec.StartFrom(Spec.Initial(all), 0, net) && repr == old(repr)
    {
      Spec.StartKeeps(all, net);
      SendAll(net);
    }

    method SendAll(net: Network)
      requires Linked()
      modifies this, repr
      ensures Linked() && state == Spec.StartFrom(old(state), 0, net) && repr == old(repr)
    {
      var it := 0;
      while it < |window|
        invariant Linked() && repr == old(repr) && it <= |window|
        invariant Spec.StartFrom(state, it, net) == Spec.StartFrom(old(state), 0, net)
      {
        StartIs(state, it, net);
        SendPacket(window[it], it, net);
        it := it + 1;
      }
    }

    /** Everything up to the packet with the ACK's number is acknowledged; the checksum of the
        ACK is not looked at. */
    method AcknowledgePacket(ackPkt: AckPacket, ghost all: seq<Packet>, net: Network)
      requires Valid(all)
      modifies this, packetBuilder, repr
      ensures Valid(all) && state == Spec.Acknowledge(old(state), ackPkt.ackno, net)
      ensures old(repr) <= repr && fresh(repr - old(repr))
    {
      Spec.AcknowledgeMoves(state, all, ackPkt.ackno, net);
      Scan(ackPkt.ackno, net);
    }

    method Scan(ackno: uint32, net: Network)
      requires Linked()
      modifies this, packetBuilder, repr
      ensures Linked() && state == Spec.Acknowledge(old(state), ackno, net)
      ensures old(repr) <= repr && fresh(repr - old(repr))
    {
      var it := FindPacket(ackno);
      AcknowledgeIs(state, ackno, it, net);
      if it < |window| {
        MarkBack(it);
        AdvanceWindow(net);
      }
    }

    /** The scan for the packet an ACK names. */
    method FindPacket(ackno: uint32) returns (it: nat)
      requires Linked()
      ensures it == IndexOf(state.window, ackno)
    {
      it := 0;
      while it < |window| && ackno != window[it].seqno
        invariant it <= |window|
        invariant forall j :: 0 <= j < it ==> state.window[j].pkt.seqno != ackno
      {
        assert SlotOf(window[it]) == state.window[it];
        it := it + 1;
      }
      if it < |window| {
        assert SlotOf(window[it]) == state.window[it];
        IndexOfIs(state.window, ackno, it);
      }
    }

    /** Walks back from position it to the front, setting the ACK flags. */
    method MarkBack(it: nat)
      requires Linked() && it < |window|
      modifies this, repr
      ensures Linked() && state == old(state).(window := Spec.Flagged(old(state).window, 0, it + 1))
      ensures repr == old(repr)
    {
      var backIt: int := it;
      while backIt >= 0
        invariant -1 <= backIt <= it < |window| && Linked() && repr == old(repr)
        invariant state == old(state).(window := Spec.Flagged(old(state).window, backIt + 1, it + 1))
      {
        MarkOne(backIt);
        FlagOne(old(state).window, backIt, it + 1);
        backIt := backIt - 1;
      }
    }

    static lemma FlagOne(w: seq<Slot>, i: nat, hi: nat)
      requires i < |w| && i < hi
      ensures Spec.Flagged(w, i + 1, hi)[i := Spec.Flagged(w, i + 1, hi)[i].(acked := true)] == Spec.Flagged(w, i, hi)
    {
    }

    method MarkOne(i: nat)
      requires Linked() && i < |window|
      modifies this, repr
      ensures Linked() && repr == old(repr) && window == old(window) && i < |old(state).window|
      ensures state == old(state).(window := old(state).window[i := old(state).window[i].(acked := true)])
    {
      Apart(i);
      window[i].acked := true;
      state := state.(window := state.window[i := state.window[i].(acked := true)]);
    }

    method AdvanceWindow(net: Network)
      requires Linked()
      modifies this, packetBuilder, repr
      ensures Linked() && state == Spec.Advance(old(state), net)
      ensures old(repr) <= repr && fresh(repr - old(repr))
    {
      ghost var goal := Spec.Advance(state, net);
      while window != [] && window[0].acked
        invariant Linked() && Spec.Advance(state, net) == goal
        invariant old(repr) <= repr && fresh(repr - old(repr))
        decreases |state.window| + |state.todo|
      {
        assert SlotOf(window[0]) == state.window[0];
        PopAndSend(net);
      }
      assert window != [] ==> SlotOf(window[0]) == state.window[0];
    }

    method PopAndSend(net: Network)
      requires Linked() && window != []
      modifies this, packetBuilder, repr
      ensures old(state).window != []
      ensures Linked() && state == Spec.PopAndSend(old(state), net)
      ensures |state.window| + |state.todo| < |old(state).window| + |old(state).todo|
      ensures old(repr) <= repr && fresh(repr - old(repr))
    {
      PopFront();
      packetBuilder.HasNextIffRemaining(nextSeqNumber);
      if packetBuilder.HasNext() {
        var pkt := PushNext();
        SendPacket(pkt, |window| - 1, net);
      }
    }

    method PopFront()
      requires Linked() && window != []
      modifies this
      ensures old(state).window != []
      ensures Linked() && state == Spec.Pop(old(state)) && repr == old(repr)
    {
      window, state := window[1..], Spec.Pop(state);
    }

    /** send_empty_packet, once is_done: the counter has then stopped at the number of packets
        in the file, whatever the batches were. */
    method SendEmptyPacket(ghost all: seq<Packet>) returns (datagram: bytes)
      requires Valid(all) && window == []
      ensures Decode(datagram) == Some(MakePacket([], |all|))
    {
      Spec.NothingLeft(state, all);
      packetBuilder.HasNextIffRemaining(nextSeqNumber);
      var packet := new DataPacket([], nextSeqNumber);
      MadePacketIsIntact([], nextSeqNumber);
      datagram := packet.Pack();
      DataRoundTripExact(packet.Value());
    }
  }

  class GoBackNClient {
    const windowSize: nat
    var expectedSeqno: uint32
    var fileData: bytes
    var done: bool
    var written: seq<bytes>     // the output file, one entry per write

    ghost function State(): Spec.Client
      reads this
    {
      Spec.Client(expectedSeqno, windowSize, written, done)
    }

    constructor (windowSize: nat)
      ensures State() == Spec.InitialClient(windowSize) && fileData == []
      ensures this.windowSize == windowSize && expectedSeqno == 0 && !done
    {
      this.windowSize := windowSize;
      this.expectedSeqno := 0;
      this.fileData := [];
      this.done := false;
      this.written := [];
    }

    /** One received datagram; ok is false when unpacking a short one throws. */
    method Run(datagram: bytes) returns (ok: bool, reply: Reply)
      requires fileData == []
      modifies this
      ensures ok <==> Decode(datagram).Some?
      ensures ok ==> (State(), reply) == Spec.Receive(old(State()), Decode(datagram).value)
      ensures !ok ==> State() == old(State()) && reply == Silent
      ensures fileData == []
    {
      if |datagram| < HEADER_SIZE {
        return false, Silent;
      }
      var packet := new DataPacket.FromBuffer(datagram);
      ok := true;
      reply := Answer(packet);
    }

    /** The window test and what follows it; the checksum is only computed for the packet
        expected next. */
    method Answer(packet: DataPacket) returns (reply: Reply)
      requires fileData == []
      modifies this
      ensures (State(), reply) == Spec.Receive(old(State()), packet.Value())
      ensures fileData == []
    {
      reply := Silent;
      var seqno := packet.seqno;
      if seqno >= expectedSeqno && seqno < Wrap32(expectedSeqno + windowSize) {
        if |packet.data| == 0 {
          done := true;
        } else {
          var corrupted := true;
          if seqno == expectedSeqno {
            var sum := CalculateDataChecksum(packet.len, packet.seqno, packet.data);
            corrupted := sum.value != packet.cksum;
          }
          if !corrupted {
            DeliverPacket(packet);
            reply := AckOf(seqno);
          } else {
            var lastSeqno := Wrap32(expectedSeqno + 0xFFFF_FFFF);
            reply := AckOf(lastSeqno);
          }
        }
      }
    }

    method DeliverPacket(packet: DataPacket)
      requires fileData == []
      modifies this
      ensures expectedSeqno == Wrap32(old(expectedSeqno) + 1)
      ensures written == old(written) + [packet.data] && fileData == [] && done == old(done)
    {
      fileData := fileData + packet.data;
      assert fileData == packet.data;
      written := written + [fileData];
      fileData := [];
      expectedSeqno := Wrap32(expectedSeqno + 1);
    }
  }
}
