/** The whole Selective Repeat transfer: sender, client and the network between them as one
    transition system, and what every run of it keeps. */
module Transfer {
  import opened Bytes
  import opened PacketUtil
  import opened DataPackets
  import opened PacketBuilders
  import opened SenderParts
  import opened SelectiveRepeat
  import opened SelectiveRepeatInvariant
  import opened Networks
  import opened Receiver

  /** The network is what is in flight in either direction. Any of it may arrive any number of
      times, in any order, or be lost for good; so may any damaged datagram whose checksum
      shows the damage. */
  datatype Sys = Sys(
    sender: Sender,
    client: Client,
    acks: set<uint32>,          // the ACKs in flight
    endSent: bool)              // the end marker has been sent

  datatype Step =
    | DataArrives(datagram: bytes)
    | AckArrives(reply: bytes, net: Network)
    | TimerFires(net: Network)
    | TransferEnds

  ghost predicate OnWire(z: Sys, datagram: bytes) {
    Carried(z.sender.wire, z.endSent, z.sender.nextSeqNumber, datagram)
  }

  ghost predicate AckOnWire(z: Sys, reply: bytes) {
    AckCarried(z.acks, reply)
  }

  ghost predicate Enabled(z: Sys, step: Step) {
    match step
    case DataArrives(d) =>
      !z.client.done && |d| >= HEADER_SIZE && (OnWire(z, d) || !Decode(d).value.Intact())
    case AckArrives(r, _) =>
      z.sender.window != [] && |r| >= ACK_PKT_LEN && (AckOnWire(z, r) || !DecodeAck(r).Intact())
    case TimerFires(_) => z.sender.unacked != {} && z.sender.window != []
    case TransferEnds => z.sender.window == [] && !z.endSent
  }

  ghost function ClientStep(z: Sys, p: Packet): Sys {
    var (c, reply) := Receive(z.client, p);
    z.(client := c, acks := Answered(z.acks, reply))
  }

  /** A step that is not enabled changes nothing, so every list of steps is a run. */
  ghost function Apply(z: Sys, step: Step): Sys {
    if !Enabled(z, step) then z
    else
      match step
      case DataArrives(d) => ClientStep(z, Decode(d).value)
      case AckArrives(r, net) => z.(sender := Acknowledge(z.sender, DecodeAck(r), net))
      case TimerFires(net) => z.(sender := HandleTimeOut(z.sender, net))
      case TransferEnds => z.(endSent := true)
  }

  ghost function Exec(z: Sys, steps: seq<Step>): Sys
    decreases |steps|
  {
    if steps == [] then z else Exec(Apply(z, steps[0]), steps[1..])
  }

  /** A step, or a loss: the given ACKs and packets are all that is left in flight. */
  datatype Event = Takes(step: Step) | Loses(acks: set<uint32>, wire: seq<Packet>)

  ghost function Occur(z: Sys, event: Event): Sys {
    match event
    case Takes(step) => Apply(z, step)
    case Loses(acks, wire) =>
      if acks <= z.acks && LeftOf(wire, z.sender.wire) then z.(acks := acks, sender := z.sender.(wire := wire)) else z
  }

  ghost function OccurAll(z: Sys, events: seq<Event>): Sys
    decreases |events|
  {
    if events == [] then z else OccurAll(Occur(z, events[0]), events[1..])
  }

  ghost function Start(all: seq<Packet>, maxWindowSize: nat, clientWindow: nat, net: Network): Sys {
    Sys(StartFrom(Initial(all, maxWindowSize), 0, net), InitialClient(clientWindow), {}, false)
  }

  /** What the client has accepted is what the stream says, below the bound. */
  ghost predicate Faithful(c: Client, all: seq<Packet>, bound: nat)
    requires |c.written| == c.expectedSeqno - 1
  {
    forall k <- Contents(c) :: 1 <= k < bound && k <= |all| && Contents(c)[k] == all[k - 1].data
  }

  /** Every ACK in flight names a packet that is delivered or buffered. */
  ghost predicate AcksSound(acks: set<uint32>, acc: set<nat>) {
    forall k {:trigger k in acks} :: k in acks ==> k >= 1 && k in acc
  }

  /** The client's half of the invariant. */
  ghost predicate ClientSound(c: Client, acks: set<uint32>, all: seq<Packet>, bound: nat) {
    ClientInv(c) && Faithful(c, all, bound) && AcksSound(acks, Accepted(c))
  }

  ghost predicate SysInv(z: Sys, all: seq<Packet>) {
    && Stream(all, 1)
    && Inv(z.sender, all) && ClientSound(z.client, z.acks, all, z.sender.nextSeqNumber)
    && Backed(z.sender, Accepted(z.client))
    && (z.endSent ==> z.sender.window == [])
    && (z.client.done ==> z.endSent && z.client.expectedSeqno == |all| + 1)
  }

  // ---------- consequences of the invariant ----------

  /** An empty window means that every packet has been sent and popped. */
  lemma EmptyWindow(s: Sender, all: seq<Packet>)
    requires Inv(s, all) && s.window == []
    ensures s.packetsSent == |all| && s.nextSeqNumber == |all| + 1
  {
    assert s.packetsSent + 1 in s.aux <==> s.packetsSent + 1 < s.nextSeqNumber;
    assert |s.todo| == |all| - (s.nextSeqNumber - 1);
  }

  /** base <= expected_seqno <= next_seq_number. */
  lemma NeverOutruns(z: Sys, all: seq<Packet>)
    requires SysInv(z, all)
    ensures z.sender.packetsSent + 1 <= z.client.expectedSeqno <= z.sender.nextSeqNumber <= |all| + 1
  {
    LeastMissing(z.client);
    var e := z.client.expectedSeqno;
    assert e !in Accepted(z.client);
    if e >= 2 {
      assert e - 1 in Contents(z.client);
    }
  }

  /** The file so far is the payloads of the first packets, in order. */
  lemma WrittenSoFar(c: Client, acks: set<uint32>, all: seq<Packet>, bound: nat, i: nat)
    requires ClientSound(c, acks, all, bound) && i < |c.written|
    ensures i < |all| && i + 1 < bound && c.written[i] == all[i].data
  {
    WrittenIsContents(c, i);
    assert i + 1 in Contents(c);
  }

  // ---------- one step ----------

  /** A packet of the transfer that the client may see: from the stream, below the sender's
      next number, or the end marker once the whole stream has been popped. */
  ghost predicate MayArrive(z: Sys, all: seq<Packet>, p: Packet) {
    || (Known(p, z.sender.nextSeqNumber, all) && Sound(p))
    || (z.endSent && p.data == [] && p.Intact() && p.seqno == z.sender.nextSeqNumber)
  }

  lemma SentPacket(s: Sender, all: seq<Packet>, i: nat)
    requires Stream(all, 1) && WireSound(s, all) && i < |s.wire|
    ensures Known(s.wire[i], s.nextSeqNumber, all) && Sound(s.wire[i])
    ensures Decode(Encode(s.wire[i])) == Some(s.wire[i])
  {
    assert Known(s.wire[i], s.nextSeqNumber, all);
    assert Sound(all[s.wire[i].seqno - 1]);
    DataRoundTripExact(s.wire[i]);
  }

  lemma CarriedPacket(s: Sender, all: seq<Packet>, endSent: bool, d: bytes)
    requires Stream(all, 1) && WireSound(s, all) && s.nextSeqNumber < 0x1_0000_0000
    requires Carried(s.wire, endSent, s.nextSeqNumber, d)
    ensures Decode(d).Some?
    ensures var p := Decode(d).value;
            || (Known(p, s.nextSeqNumber, all) && Sound(p))
            || (endSent && p.data == [] && p.Intact() && p.seqno == s.nextSeqNumber)
  {
    if i :| 0 <= i < |s.wire| && d == Encode(s.wire[i]) {
      SentPacket(s, all, i);
    } else {
      MarkerPacket(s.nextSeqNumber);
    }
  }

  lemma WirePacket(z: Sys, all: seq<Packet>, d: bytes)
    requires SysInv(z, all) && OnWire(z, d)
    ensures Decode(d).Some? && MayArrive(z, all, Decode(d).value)
  {
    CarriedPacket(z.sender, all, z.endSent, d);
  }

  lemma FaithfulStays(c: Client, d: Client, p: Packet, all: seq<Packet>, bound: nat)
    requires |c.written| == c.expectedSeqno - 1 && |d.written| == d.expectedSeqno - 1
    requires Faithful(c, all, bound) && Known(p, bound, all)
    requires Contents(d) == Contents(c) || Contents(d) == Contents(c)[p.seqno := p.data]
    ensures Faithful(d, all, bound)
  {
  }

  /** The stream does not use up the 32-bit numbers. */
  lemma StreamIsShort(c: Client, p: Packet, all: seq<Packet>, bound: nat)
    requires |c.written| == c.expectedSeqno - 1 && Faithful(c, all, bound) && Known(p, bound, all)
    requires |all| < SEQNO_LIMIT
    ensures !Exhausted(Extended(c, p).Keys)
  {
    assert SEQNO_LIMIT !in Contents(c);
    assert SEQNO_LIMIT !in Extended(c, p);
  }

  lemma StreamReply(c: Client, p: Packet)
    requires ClientInv(c) && !Exhausted(Extended(c, p).Keys) && p.data != [] && p.seqno >= 1
    ensures var (d, reply) := Receive(c, p);
            && ClientInv(d) && d.done == c.done && d.windowSize == c.windowSize
            && c.expectedSeqno <= d.expectedSeqno
            && (Contents(d) == Contents(c) || Contents(d) == Contents(c)[p.seqno := p.data])
            && (reply.AckOf? ==> reply.seqno == p.seqno && p.seqno in Contents(d))
            && (Contents(d) != Contents(c) ==> reply == AckOf(p.seqno))
  {
    ReceiveRefines(c, p);
    assert c.written <= Receive(c, p).0.written;
  }

  /** What the client makes of a packet of the stream, whatever its sender is like. */
  lemma ClientAccepts(c: Client, acks: set<uint32>, all: seq<Packet>, bound: nat, p: Packet)
    requires ClientSound(c, acks, all, bound) && |all| < SEQNO_LIMIT && Known(p, bound, all) && p.data != []
    ensures var (d, reply) := Receive(c, p);
            && ClientSound(d, Answered(acks, reply), all, bound) && d.done == c.done && d.windowSize == c.windowSize
            && c.expectedSeqno <= d.expectedSeqno && Accepted(c) <= Accepted(d)
            && (forall k :: k in Accepted(d) && k !in Accepted(c) ==> reply == AckOf(p.seqno) && k == p.seqno)
  {
    var (d, reply) := Receive(c, p);
    StreamIsShort(c, p, all, bound);
    StreamReply(c, p);
    FaithfulStays(c, d, p, all, bound);
    assert Accepted(c) == Contents(c).Keys && Accepted(d) == Contents(d).Keys;
  }

  /** A packet of the stream reaches the client. */
  lemma StreamPacketArrives(z: Sys, all: seq<Packet>, p: Packet)
    requires SysInv(z, all) && !z.client.done
    requires Known(p, z.sender.nextSeqNumber, all) && p.data != []
    ensures SysInv(ClientStep(z, p), all)
  {
    ClientAccepts(z.client, z.acks, all, z.sender.nextSeqNumber, p);
    BackedMore(z.sender, Accepted(z.client), Accepted(Receive(z.client, p).0));
  }

  lemma BackedMore(s: Sender, acc: set<nat>, acc': set<nat>)
    requires Backed(s, acc) && acc <= acc'
    ensures Backed(s, acc')
  {
  }

  lemma MarkDone(c: Client, acks: set<uint32>, all: seq<Packet>, bound: nat)
    requires ClientSound(c, acks, all, bound)
    ensures Accepted(c.(done := true)) == Accepted(c) && ClientSound(c.(done := true), acks, all, bound)
  {
    var d := c.(done := true);
    assert Accepted(d) == Accepted(c) && Contents(d) == Contents(c);
  }

  /** The end marker reaches the client, which has the whole file by then. */
  lemma MarkerArrives(z: Sys, all: seq<Packet>, p: Packet)
    requires SysInv(z, all) && z.endSent && p.data == [] && p.seqno == z.sender.nextSeqNumber && p.Intact()
    ensures ClientStep(z, p) == z.(client := z.client.(done := true))
    ensures SysInv(ClientStep(z, p), all)
  {
    NeverOutruns(z, all);
    EmptyWindow(z.sender, all);
    assert InWindow(z.client, p.seqno);
    MarkDone(z.client, z.acks, all, z.sender.nextSeqNumber);
  }

  lemma DamagedIgnored(z: Sys, p: Packet)
    requires !p.Intact()
    ensures ClientStep(z, p) == z
  {
  }

  lemma DataKeeps(z: Sys, all: seq<Packet>, d: bytes)
    requires SysInv(z, all) && Enabled(z, DataArrives(d))
    ensures SysInv(Apply(z, DataArrives(d)), all)
  {
    var p := Decode(d).value;
    if !p.Intact() {
      DamagedIgnored(z, p);
    } else {
      WirePacket(z, all, d);
      if z.endSent && p.data == [] && p.seqno == z.sender.nextSeqNumber {
        MarkerArrives(z, all, p);
      } else {
        StreamPacketArrives(z, all, p);
      }
    }
  }

  lemma AckKeeps(z: Sys, all: seq<Packet>, r: bytes, net: Network)
    requires SysInv(z, all) && Enabled(z, AckArrives(r, net))
    ensures SysInv(Apply(z, AckArrives(r, net)), all)
    ensures Follows(z.sender, Apply(z, AckArrives(r, net)).sender)
  {
    var a := DecodeAck(r);
    if AckOnWire(z, r) {
      var k :| k in z.acks && r == EncodeAck(MakeAck(k));
      AckRoundTripExact(MakeAck(k));
    }
    AcknowledgeKeeps(z.sender, all, a, net, Accepted(z.client));
  }

  lemma TimerKeeps(z: Sys, all: seq<Packet>, net: Network)
    requires SysInv(z, all) && Enabled(z, TimerFires(net))
    ensures SysInv(Apply(z, TimerFires(net)), all)
    ensures Follows(z.sender, Apply(z, TimerFires(net)).sender)
  {
    HandleTimeOutKeeps(z.sender, all, net);
    BackedStays(z.sender, HandleTimeOut(z.sender, net), Accepted(z.client));
  }

  lemma StepKeeps(z: Sys, all: seq<Packet>, step: Step)
    requires SysInv(z, all)
    ensures SysInv(Apply(z, step), all)
  {
    if Enabled(z, step) {
      match step
      case DataArrives(d) => DataKeeps(z, all, d);
      case AckArrives(r, net) => AckKeeps(z, all, r, net);
      case TimerFires(net) => TimerKeeps(z, all, net);
      case TransferEnds =>
    }
  }

  lemma {:induction false} RunKeeps(z: Sys, all: seq<Packet>, steps: seq<Step>)
    requires SysInv(z, all)
    ensures SysInv(Exec(z, steps), all)
    decreases |steps|
  {
    if steps != [] {
      StepKeeps(z, all, steps[0]);
      RunKeeps(Apply(z, steps[0]), all, steps[1..]);
    }
  }

  /** Losses for good do not break the invariant. */
  lemma LossKeeps(z: Sys, all: seq<Packet>, acks: set<uint32>, wire: seq<Packet>)
    requires SysInv(z, all) && acks <= z.acks && LeftOf(wire, z.sender.wire)
    ensures SysInv(z.(acks := acks, sender := z.sender.(wire := wire)), all)
  {
    SenderLoses(z.sender, all, wire, Accepted(z.client));
    FewerAcks(z.client, z.acks, acks, all, z.sender.nextSeqNumber);
  }

  lemma SenderLoses(s: Sender, all: seq<Packet>, wire: seq<Packet>, acc: set<nat>)
    requires Inv(s, all) && Backed(s, acc) && LeftOf(wire, s.wire)
    ensures Inv(s.(wire := wire), all) && Backed(s.(wire := wire), acc)
  {
    LeftIsSound(s, all, wire);
  }

  lemma FewerAcks(c: Client, acks: set<uint32>, left: set<uint32>, all: seq<Packet>, bound: nat)
    requires ClientSound(c, acks, all, bound) && left <= acks
    ensures ClientSound(c, left, all, bound)
  {
  }

  lemma LeftIsSound(s: Sender, all: seq<Packet>, wire: seq<Packet>)
    requires WireSound(s, all) && LeftOf(wire, s.wire)
    ensures WireSound(s.(wire := wire), all)
  {
    forall i | 0 <= i < |wire|
      ensures Known(wire[i], s.nextSeqNumber, all)
    {
      assert Contains(s.wire, wire[i]);
      var j :| 0 <= j < |s.wire| && s.wire[j] == wire[i];
      assert Known(s.wire[j], s.nextSeqNumber, all);
    }
  }

  lemma EventKeeps(z: Sys, all: seq<Packet>, event: Event)
    requires SysInv(z, all)
    ensures SysInv(Occur(z, event), all)
  {
    match event
    case Takes(step) => StepKeeps(z, all, step);
    case Loses(acks, wire) =>
      if acks <= z.acks && LeftOf(wire, z.sender.wire) { LossKeeps(z, all, acks, wire); }
  }

  lemma {:induction false} EventsKeep(z: Sys, all: seq<Packet>, events: seq<Event>)
    requires SysInv(z, all)
    ensures SysInv(OccurAll(z, events), all)
    decreases |events|
  {
    if events != [] {
      EventKeeps(z, all, events[0]);
      EventsKeep(Occur(z, events[0]), all, events[1..]);
    }
  }

  /** A run without losses as events. */
  lemma {:induction false} StepsAreEvents(z: Sys, steps: seq<Step>) returns (events: seq<Event>)
    ensures OccurAll(z, events) == Exec(z, steps)
    decreases |steps|
  {
    if steps == [] {
      events := [];
    } else {
      var rest := StepsAreEvents(Apply(z, steps[0]), steps[1..]);
      events := [Takes(steps[0])] + rest;
      assert events[0] == Takes(steps[0]) && events[1..] == rest;
    }
  }

  lemma {:induction false} OccurMore(z: Sys, events: seq<Event>, more: seq<Event>)
    ensures OccurAll(z, events + more) == OccurAll(OccurAll(z, events), more)
    decreases |events|
  {
    if events == [] {
      assert events + more == more;
    } else {
      assert (events + more)[0] == events[0] && (events + more)[1..] == events[1..] + more;
      OccurMore(Occur(z, events[0]), events[1..], more);
    }
  }

  lemma StartHolds(all: seq<Packet>, maxWindowSize: nat, clientWindow: nat, net: Network)
    requires Stream(all, 1) && maxWindowSize >= 1 && clientWindow >= 1
    ensures SysInv(Start(all, maxWindowSize, clientWindow, net), all)
  {
    StartKeeps(all, maxWindowSize, net);
    ClientStarts(all, clientWindow, StartFrom(Initial(all, maxWindowSize), 0, net).nextSeqNumber);
  }

  lemma ClientStarts(all: seq<Packet>, clientWindow: nat, bound: nat)
    requires clientWindow >= 1
    ensures ClientSound(InitialClient(clientWindow), {}, all, bound) && Accepted(InitialClient(clientWindow)) == {}
  {
    assert Accepted(InitialClient(clientWindow)) == {};
  }

  // ---------- the theorems ----------

  /** The packets of a file form a stream as long as its numbers fit into 32 bits. */
  lemma FileStream(file: bytes)
    requires |Chunks(file)| + 1 < 0x1_0000_0000
    ensures Stream(Numbered(Chunks(file), 1), 1)
  {
    ChunksIsCut(file);
    var all := Numbered(Chunks(file), 1);
    forall i | 0 <= i < |all|
      ensures all[i].seqno == 1 + i && Sound(all[i])
    {
      MadePacketIsIntact(Chunks(file)[i], 1 + i);
    }
  }

  /** The states some run of a transfer of this file can reach, with losses at any time. */
  ghost predicate Reachable(file: bytes, z: Sys)
    requires |Chunks(file)| + 1 < 0x1_0000_0000
  {
    exists maxWindowSize: nat, clientWindow: nat, net: Network, events: seq<Event> ::
      maxWindowSize >= 1 && clientWindow >= 1 &&
      z == OccurAll(Start(Numbered(Chunks(file), 1), maxWindowSize, clientWindow, net), events)
  }

  /** What a reachable state becomes is reachable. */
  lemma ReachableMore(file: bytes, z: Sys, event: Event)
    requires |Chunks(file)| + 1 < 0x1_0000_0000 && Reachable(file, z)
    ensures Reachable(file, Occur(z, event))
  {
    var maxWindowSize: nat, clientWindow: nat, net: Network, events: seq<Event> :|
      maxWindowSize >= 1 && clientWindow >= 1 &&
      z == OccurAll(Start(Numbered(Chunks(file), 1), maxWindowSize, clientWindow, net), events);
    OccurMore(Start(Numbered(Chunks(file), 1), maxWindowSize, clientWindow, net), events, [event]);
  }

  /** The invariant holds in every reachable state. */
  lemma ReachableHolds(file: bytes, z: Sys)
    requires |Chunks(file)| + 1 < 0x1_0000_0000 && Reachable(file, z)
    ensures SysInv(z, Numbered(Chunks(file), 1))
  {
    var all := Numbered(Chunks(file), 1);
    var maxWindowSize: nat, clientWindow: nat, net: Network, events: seq<Event> :|
      maxWindowSize >= 1 && clientWindow >= 1 &&
      z == OccurAll(Start(Numbered(Chunks(file), 1), maxWindowSize, clientWindow, net), events);
    FileStream(file);
    StartHolds(all, maxWindowSize, clientWindow, net);
    EventsKeep(Start(all, maxWindowSize, clientWindow, net), all, events);
  }

  /** A sound client has written the first pieces of the file, in order. */
  lemma ClientPieces(c: Client, acks: set<uint32>, cs: seq<bytes>, bound: nat)
    requires |cs| + 1 < 0x1_0000_0000 && ClientSound(c, acks, Numbered(cs, 1), bound)
    ensures |c.written| <= |cs| && c.written == cs[..|c.written|]
  {
    if |c.written| > |cs| { WrittenSoFar(c, acks, Numbered(cs, 1), bound, |cs|); }
    forall i | 0 <= i < |c.written|
      ensures c.written[i] == cs[i]
    {
      WrittenSoFar(c, acks, Numbered(cs, 1), bound, i);
    }
  }

  lemma WrittenPieces(z: Sys, cs: seq<bytes>)
    requires |cs| + 1 < 0x1_0000_0000 && SysInv(z, Numbered(cs, 1))
    ensures |z.client.written| <= |cs| && z.client.written == cs[..|z.client.written|]
  {
    ClientPieces(z.client, z.acks, cs, z.sender.nextSeqNumber);
  }

  /** In every run the client's file is exactly the pieces 1 .. expected_seqno - 1, and so a
      prefix of the file sent. */
  lemma EndToEndSafety(file: bytes, z: Sys)
    requires |Chunks(file)| + 1 < 0x1_0000_0000 && Reachable(file, z)
    ensures z.client.expectedSeqno - 1 == |z.client.written| <= |Chunks(file)|
    ensures z.client.written == Chunks(file)[..|z.client.written|]
    ensures Flatten(z.client.written) <= file
  {
    ReachableHolds(file, z);
    WrittenPieces(z, Chunks(file));
    PiecesAreFile(file, z.client.written);
  }

  /** When the client stops, its file is the whole file. */
  lemma CompletionIsSound(file: bytes, z: Sys)
    requires |Chunks(file)| + 1 < 0x1_0000_0000 && Reachable(file, z) && z.client.done
    ensures Flatten(z.client.written) == file
  {
    ReachableHolds(file, z);
    WrittenPieces(z, Chunks(file));
    PiecesAreFile(file, z.client.written);
  }

  /** In every run the sender never outruns the client: what it has popped is in the client's
      file, and every ACK in flight names a packet the client has delivered or buffered. */
  lemma SenderNeverOutruns(file: bytes, z: Sys)
    requires |Chunks(file)| + 1 < 0x1_0000_0000 && Reachable(file, z)
    ensures z.sender.packetsSent + 1 <= z.client.expectedSeqno <= z.sender.nextSeqNumber <= |Chunks(file)| + 1
    ensures z.client.expectedSeqno - 1 == |z.client.written|
    ensures z.client.written[..z.sender.packetsSent] == Chunks(file)[..z.sender.packetsSent]
    ensures AcksSound(z.acks, Accepted(z.client))
  {
    ReachableHolds(file, z);
    NeverOutruns(z, Numbered(Chunks(file), 1));
    WrittenPieces(z, Chunks(file));
    PrefixOfPrefix(z.client.written, Chunks(file), z.sender.packetsSent);
  }

  lemma PrefixOfPrefix(w: seq<bytes>, cs: seq<bytes>, n: nat)
    requires n <= |w| <= |cs| && w == cs[..|w|]
    ensures w[..n] == cs[..n]
  {
  }

  /** In every run no packet is lost or doubled inside the sender: popped ones aside, window,
      aux and builder hold all of the file's packets in order; the timer index is exactly the
      unacknowledged part of the window, earliest at the front; an empty window means the end. */
  lemma SenderConserves(file: bytes, z: Sys)
    requires |Chunks(file)| + 1 < 0x1_0000_0000 && Reachable(file, z)
    ensures var s := z.sender;
            && s.packetsSent <= |Chunks(file)|
            && PacketsOf(s.window) + PacketsOf(InOrder(s.aux)) + s.todo == Numbered(Chunks(file), 1)[s.packetsSent..]
            && s.unacked == (set p <- s.window | !p.acked :: EntryOf(p))
            && (s.window != [] ==> s.unacked != {} && First(s.unacked) == EntryOf(s.window[0]))
            && (s.window == [] ==> s.packetsSent == |Chunks(file)|)
  {
    var all := Numbered(Chunks(file), 1);
    ReachableHolds(file, z);
    SenderHolds(z.sender, all);
  }

  lemma SenderHolds(s: Sender, all: seq<Packet>)
    requires Inv(s, all)
    ensures s.packetsSent <= |all|
    ensures PacketsOf(s.window) + PacketsOf(InOrder(s.aux)) + s.todo == all[s.packetsSent..]
    ensures s.unacked == set p <- s.window | !p.acked :: EntryOf(p)
    ensures s.window != [] ==> s.unacked != {} && First(s.unacked) == EntryOf(s.window[0])
    ensures s.window == [] ==> s.packetsSent == |all|
  {
    assert s.packetsSent <= |all|;
    Conservation(s, all);
    TimerIndex(s, all);
    if s.window != [] { FirstIsFront(s, all); } else { EmptyWindow(s, all); }
  }
}
