/** The whole Go-Back-N transfer as one transition system: what every run keeps, whatever ACKs
    arrive, and exactly when the end of a transfer can be trusted. */
module GoBackNTransfer {
  import opened Bytes
  import opened PacketUtil
  import opened DataPackets
  import opened PacketBuilders
  import opened SenderParts
  import opened Networks
  import opened GoBackN

  /** Datagrams sent in either direction may arrive any number of times, in any order, or
      never. Data may also arrive damaged, as long as its checksum shows the damage. An ACK
      may arrive with any content, since nothing here looks at its checksum. What is in flight
      may be lost for good. */
  datatype Sys = Sys(
    sender: Sender,
    client: Client,
    acks: set<uint32>,          // the ACKs in flight
    endSent: bool)              // the end marker has been sent

  datatype Step =
    | DataArrives(datagram: bytes)
    | AckArrives(reply: bytes, net: Network)
    | AckLost(seqno: uint32)
    | DataLost(wire: seq<Packet>)               // what is left in flight
    | Resend(position: nat, outcome: Outcome)   // the timer sends a packet of the window again
    | TransferEnds

  ghost predicate OnWire(z: Sys, datagram: bytes) {
    Carried(z.sender.wire, z.endSent, z.sender.nextSeqNumber, datagram)
  }

  ghost predicate Enabled(z: Sys, step: Step) {
    match step
    case DataArrives(d) =>
      !z.client.done && |d| >= HEADER_SIZE && (OnWire(z, d) || !Decode(d).value.Intact())
    case AckArrives(r, _) => z.sender.window != [] && |r| >= ACK_PKT_LEN
    case AckLost(k) => k in z.acks
    case DataLost(wire) => LeftOf(wire, z.sender.wire)
    case Resend(i, _) => i < |z.sender.window|
    case TransferEnds => z.sender.window == [] && !z.endSent
  }

  function ClientStep(z: Sys, p: Packet): Sys {
    var (c, reply) := Receive(z.client, p);
    z.(client := c, acks := Answered(z.acks, reply))
  }

  /** A step that is not enabled changes nothing, so every list of steps is a run. */
  ghost function Apply(z: Sys, step: Step): Sys {
    if !Enabled(z, step) then z
    else
      match step
      case DataArrives(d) => ClientStep(z, Decode(d).value)
      case AckArrives(r, net) => z.(sender := Acknowledge(z.sender, DecodeAck(r).ackno, net))
      case AckLost(k) => z.(acks := z.acks - {k})
      case DataLost(wire) => z.(sender := z.sender.(wire := wire))
      case Resend(i, outcome) => z.(sender := SendPacket(z.sender, i, outcome))
      case TransferEnds => z.(endSent := true)
  }

  ghost function Exec(z: Sys, steps: seq<Step>): Sys
    decreases |steps|
  {
    if steps == [] then z else Exec(Apply(z, steps[0]), steps[1..])
  }

  function Start(all: seq<Packet>, clientWindow: nat, net: Network): Sys {
    Sys(StartFrom(Initial(all), 0, net), InitialClient(clientWindow), {}, false)
  }

  /** The client has written exactly the packets below expected_seqno. */
  ghost predicate Delivered(c: Client, all: seq<Packet>) {
    && |c.written| == c.expectedSeqno <= |all|
    && forall i :: 0 <= i < |c.written| ==> c.written[i] == all[i].data
  }

  /** An ACK in flight acknowledges delivered packets only, except the one that wrapped. */
  ghost predicate AcksCumulative(acks: set<uint32>, expected: nat) {
    forall k {:trigger k in acks} :: k in acks ==> k < expected || k == 0xFFFF_FFFF
  }

  ghost predicate SysInv(z: Sys, all: seq<Packet>) {
    && Stream(all, 0) && Inv(z.sender, all) && Delivered(z.client, all)
    && z.client.expectedSeqno <= z.sender.nextSeqNumber
    && AcksCumulative(z.acks, z.client.expectedSeqno)
    && (z.endSent ==> z.sender.window == [])
  }

  /** The sender has popped nothing that the client still misses. */
  ghost predicate InStep(z: Sys) {
    z.sender.Base() <= z.client.expectedSeqno
  }

  // ---------- one step ----------

  /** What an undamaged datagram holds: a packet already fetched, or the end marker. */
  lemma WirePacket(z: Sys, all: seq<Packet>, d: bytes)
    requires SysInv(z, all) && OnWire(z, d)
    ensures Decode(d).Some?
    ensures var p := Decode(d).value;
            || (p.seqno < z.sender.nextSeqNumber && p == all[p.seqno] && Sound(p))
            || (z.endSent && p.data == [] && p.seqno == z.sender.nextSeqNumber == |all|)
  {
    if i :| 0 <= i < |z.sender.wire| && d == Encode(z.sender.wire[i]) {
      var p := z.sender.wire[i];
      assert p == all[p.seqno] && Sound(all[p.seqno]);
      DataRoundTripExact(p);
    } else {
      NothingLeft(z.sender, all);
      MarkerPacket(z.sender.nextSeqNumber);
    }
  }

  /** The client answers with the last number delivered, and that is sound. */
  lemma NackSound(acks: set<uint32>, c: Client)
    requires AcksCumulative(acks, c.expectedSeqno)
    ensures AcksCumulative(acks + {LastSeqno(c)}, c.expectedSeqno)
  {
    assert c.expectedSeqno > 0 ==> LastSeqno(c) == c.expectedSeqno - 1;
  }

  /** The next packet in order: written, acknowledged, and one more expected. */
  lemma NextPacket(z: Sys, all: seq<Packet>)
    requires SysInv(z, all) && z.client.expectedSeqno < z.sender.nextSeqNumber
    requires InWindow(z.client, z.client.expectedSeqno)
    ensures var y := ClientStep(z, all[z.client.expectedSeqno]);
            && SysInv(y, all) && y.sender == z.sender && y.client.expectedSeqno == z.client.expectedSeqno + 1
            && y.acks == z.acks + {z.client.expectedSeqno} && y.client.done == z.client.done
            && y.client.windowSize == z.client.windowSize
  {
    assert Sound(all[z.client.expectedSeqno]);
  }

  /** Everything else leaves the output alone. */
  lemma OtherPacket(z: Sys, all: seq<Packet>, p: Packet)
    requires SysInv(z, all)
    requires p.seqno != z.client.expectedSeqno || !p.Intact() || p.data == []
    ensures var y := ClientStep(z, p);
            && SysInv(y, all) && y.sender == z.sender && y.client == z.client.(done := y.client.done)
            && y.client.done == (z.client.done || (p.data == [] && InWindow(z.client, p.seqno)))
  {
    NackSound(z.acks, z.client);
  }

  lemma DataKeeps(z: Sys, all: seq<Packet>, d: bytes)
    requires SysInv(z, all) && Enabled(z, DataArrives(d))
    ensures SysInv(ClientStep(z, Decode(d).value), all)
  {
    var p := Decode(d).value;
    if p.seqno == z.client.expectedSeqno && p.Intact() && p.data != [] {
      WirePacket(z, all, d);
      if InWindow(z.client, p.seqno) { NextPacket(z, all); }
    } else {
      OtherPacket(z, all, p);
    }
  }

  lemma AckKeeps(z: Sys, all: seq<Packet>, r: bytes, net: Network)
    requires SysInv(z, all) && Enabled(z, AckArrives(r, net))
    ensures SysInv(Apply(z, AckArrives(r, net)), all)
  {
    AcknowledgeMoves(z.sender, all, DecodeAck(r).ackno, net);
  }

  lemma ResendKeeps(z: Sys, all: seq<Packet>, i: nat, outcome: Outcome)
    requires SysInv(z, all) && i < |z.sender.window|
    ensures SysInv(Apply(z, Resend(i, outcome)), all)
    ensures Apply(z, Resend(i, outcome)) == z.(sender := SendPacket(z.sender, i, outcome))
  {
    SendKeeps(z.sender, all, 0, i, outcome);
  }

  lemma LossKeeps(s: Sender, all: seq<Packet>, wire: seq<Packet>)
    requires Inv(s, all) && LeftOf(wire, s.wire)
    ensures Inv(s.(wire := wire), all)
  {
    forall i | 0 <= i < |wire|
      ensures wire[i].seqno < Min(s.nextSeqNumber, |all|) && wire[i] == all[wire[i].seqno]
    {
      assert Contains(s.wire, wire[i]);
    }
  }

  lemma StepKeeps(z: Sys, all: seq<Packet>, step: Step)
    requires SysInv(z, all)
    ensures SysInv(Apply(z, step), all)
    ensures Apply(z, step).client.windowSize == z.client.windowSize
  {
    if Enabled(z, step) {
      match step
      case DataArrives(d) => DataKeeps(z, all, d);
      case AckArrives(r, net) => AckKeeps(z, all, r, net);
      case AckLost(k) =>
      case DataLost(wire) => LossKeeps(z.sender, all, wire);
      case Resend(i, outcome) => ResendKeeps(z, all, i, outcome);
      case TransferEnds =>
    }
  }

  lemma {:induction false} RunKeeps(z: Sys, all: seq<Packet>, steps: seq<Step>)
    requires SysInv(z, all)
    ensures SysInv(Exec(z, steps), all)
    decreases |steps|
  {
    if steps != [] {
      StepKeeps(z, all, steps[0]);
      RunKeeps(Apply(z, steps[0]), all, steps[1..]);
    }
  }

  lemma StartHolds(all: seq<Packet>, clientWindow: nat, net: Network)
    requires Stream(all, 0)
    ensures SysInv(Start(all, clientWindow, net), all) && InStep(Start(all, clientWindow, net))
  {
    StartKeeps(all, net);
  }

  // ---------- safety of every run ----------

  lemma FileStream(file: bytes)
    requires |Chunks(file)| < 0x1_0000_0000
    ensures Stream(Numbered(Chunks(file), 0), 0)
  {
    ChunksIsCut(file);
    var all := Numbered(Chunks(file), 0);
    forall i | 0 <= i < |all|
      ensures all[i].seqno == i && Sound(all[i])
    {
      MadePacketIsIntact(Chunks(file)[i], i);
    }
  }

  ghost predicate Reachable(file: bytes, z: Sys)
    requires |Chunks(file)| < 0x1_0000_0000
  {
    exists clientWindow: nat, net: Network, steps: seq<Step> ::
      z == Exec(Start(Numbered(Chunks(file), 0), clientWindow, net), steps)
  }

  lemma ReachableHolds(file: bytes, z: Sys)
    requires |Chunks(file)| < 0x1_0000_0000 && Reachable(file, z)
    ensures SysInv(z, Numbered(Chunks(file), 0))
  {
    var all := Numbered(Chunks(file), 0);
    var clientWindow: nat, net: Network, steps: seq<Step> :|
      z == Exec(Start(Numbered(Chunks(file), 0), clientWindow, net), steps);
    FileStream(file);
    StartHolds(all, clientWindow, net);
    RunKeeps(Start(all, clientWindow, net), all, steps);
  }

  lemma WrittenPieces(z: Sys, cs: seq<bytes>)
    requires |cs| < 0x1_0000_0000 && SysInv(z, Numbered(cs, 0))
    ensures z.client.expectedSeqno <= |cs| && z.client.written == cs[..z.client.expectedSeqno]
  {
  }

  /** In every run, with damaged data and with any ACKs: the client's file is exactly the
      pieces below expected_seqno, and so a prefix of the file sent. */
  lemma OutputIsPrefix(file: bytes, z: Sys)
    requires |Chunks(file)| < 0x1_0000_0000 && Reachable(file, z)
    ensures z.client.expectedSeqno <= z.sender.nextSeqNumber <= |Chunks(file)|
    ensures z.client.written == Chunks(file)[..z.client.expectedSeqno]
    ensures Flatten(z.client.written) <= file
  {
    ReachableHolds(file, z);
    WrittenPieces(z, Chunks(file));
    PiecesAreFile(file, z.client.written);
  }

  /** Cumulative ACKs are sound in every run: an ACK in flight that matches a packet of the
      window says that the client has everything up to it. The wrapped one matches nothing. */
  lemma CumulativeAckIsSound(file: bytes, z: Sys, k: uint32)
    requires |Chunks(file)| < 0x1_0000_0000 && Reachable(file, z) && k in z.acks
    ensures IndexOf(z.sender.window, k) < |z.sender.window| ==> k < z.client.expectedSeqno
    ensures k == 0xFFFF_FFFF ==> forall net :: Acknowledge(z.sender, k, net) == z.sender
  {
    var all := Numbered(Chunks(file), 0);
    ReachableHolds(file, z);
    IndexOfNumber(z.sender, all, k);
  }

  /** An ACK with the number of a window packet that the client does not have. */
  ghost predicate Misleads(z: Sys, step: Step) {
    && step.AckArrives? && Enabled(z, step)
    && z.client.expectedSeqno <= DecodeAck(step.reply).ackno < z.sender.nextSeqNumber
  }

  /** Exactly which steps make the sender drop a packet the client does not have. */
  lemma StaysInStepIff(file: bytes, z: Sys, step: Step)
    requires |Chunks(file)| < 0x1_0000_0000 && Reachable(file, z) && InStep(z)
    ensures InStep(Apply(z, step)) <==> !Misleads(z, step)
  {
    ReachableHolds(file, z);
    InStepAfter(z, Numbered(Chunks(file), 0), step);
  }

  /** The same for an ACK by its number alone, in every reachable state. */
  lemma AckNumberIsSafe(file: bytes, z: Sys, ackno: uint32, net: Network)
    requires |Chunks(file)| < 0x1_0000_0000 && Reachable(file, z)
    ensures Acknowledge(z.sender, ackno, net).Base() <= z.client.expectedSeqno
       <==> InStep(z) && !(z.client.expectedSeqno <= ackno < z.sender.nextSeqNumber)
  {
    ReachableHolds(file, z);
    AcknowledgeMoves(z.sender, Numbered(Chunks(file), 0), ackno, net);
  }

  /** Every sender waiting for a packet can be misled by a damaged ACK. */
  lemma AnySenderCanBeMisled(file: bytes, z: Sys, net: Network)
    requires |Chunks(file)| < 0x1_0000_0000 && Reachable(file, z) && InStep(z)
    requires z.client.expectedSeqno < z.sender.nextSeqNumber
    ensures var r := DamagedAck(z.client.expectedSeqno);
            !DecodeAck(r).Intact() && !InStep(Apply(z, AckArrives(r, net)))
  {
    DamagedAckReads(z.client.expectedSeqno);
    StaysInStepIff(file, z, AckArrives(DamagedAck(z.client.expectedSeqno), net));
  }

  lemma InStepAfter(z: Sys, all: seq<Packet>, step: Step)
    requires SysInv(z, all) && InStep(z)
    ensures InStep(Apply(z, step)) <==> !Misleads(z, step)
  {
    if Enabled(z, step) {
      match step
      case DataArrives(d) => ExpectedGrows(z.client, Decode(d).value);
      case AckArrives(r, net) => AcknowledgeMoves(z.sender, all, DecodeAck(r).ackno, net);
      case AckLost(k) =>
      case DataLost(wire) =>
      case Resend(i, outcome) =>
      case TransferEnds =>
    }
  }

  lemma ExpectedGrows(c: Client, p: Packet)
    requires InWindow(c, p.seqno) ==> c.expectedSeqno < 0xFFFF_FFFF
    ensures Receive(c, p).0.expectedSeqno >= c.expectedSeqno
  {
  }

  // ---------- the end of the transfer ----------

  /** A datagram that reads as an empty packet within the client's window arrives. */
  ghost predicate ReadsEmpty(z: Sys, step: Step) {
    && step.DataArrives? && Enabled(z, step)
    && Decode(step.datagram).value.data == [] && InWindow(z.client, Decode(step.datagram).value.seqno)
  }

  /** Such a datagram that the sender has not sent, and so a damaged one. */
  ghost predicate Deceives(z: Sys, step: Step) {
    ReadsEmpty(z, step) && !OnWire(z, step.datagram)
  }

  /** Exactly which steps end the transfer too early; the end marker itself does so only after
      the sender has dropped packets the client does not have. */
  lemma EndsEarlyIff(file: bytes, z: Sys, step: Step)
    requires |Chunks(file)| < 0x1_0000_0000 && Reachable(file, z) && !z.client.done
    ensures Apply(z, step).client.done && Flatten(Apply(z, step).client.written) != file
       <==> ReadsEmpty(z, step) && z.client.expectedSeqno < |Chunks(file)|
    ensures ReadsEmpty(z, step) && z.client.expectedSeqno < |Chunks(file)| ==> Deceives(z, step) || !InStep(z)
  {
    var all := Numbered(Chunks(file), 0);
    ReachableHolds(file, z);
    var y := Apply(z, step);
    if step.DataArrives? && Enabled(z, step) {
      DoneByData(z, all, step.datagram);
      assert y.client.done ==> y.client.written == z.client.written;
    }
    WholeIffAll(file, z);
  }

  lemma DoneByData(z: Sys, all: seq<Packet>, d: bytes)
    requires SysInv(z, all) && Enabled(z, DataArrives(d))
    ensures var p, y := Decode(d).value, ClientStep(z, Decode(d).value);
            && y.client.done == (p.data == [] && InWindow(z.client, p.seqno))
            && (y.client.done ==> y.client.written == z.client.written)
            && (y.client.done && OnWire(z, d) && InStep(z) ==> z.client.expectedSeqno == |all|)
  {
    if OnWire(z, d) {
      WirePacket(z, all, d);
    }
  }

  /** The output is the whole file just when every piece has been written. */
  lemma WholeIffAll(file: bytes, z: Sys)
    requires |Chunks(file)| < 0x1_0000_0000 && SysInv(z, Numbered(Chunks(file), 0))
    ensures Flatten(z.client.written) == file <==> z.client.expectedSeqno == |Chunks(file)|
  {
    WrittenPieces(z, Chunks(file));
    PiecesAreFile(file, z.client.written);
  }

  /** No datagram deceives the client and no ACK misleads the sender. */
  ghost predicate Undeceived(z: Sys, steps: seq<Step>)
    decreases |steps|
  {
    steps != [] ==> !Deceives(z, steps[0]) && !Misleads(z, steps[0]) && Undeceived(Apply(z, steps[0]), steps[1..])
  }

  ghost predicate DoneIsWhole(z: Sys, all: seq<Packet>) {
    InStep(z) && (z.client.done ==> z.client.expectedSeqno == |all|)
  }

  lemma UndeceivedStep(z: Sys, all: seq<Packet>, step: Step)
    requires SysInv(z, all) && DoneIsWhole(z, all) && !Deceives(z, step) && !Misleads(z, step)
    ensures SysInv(Apply(z, step), all) && DoneIsWhole(Apply(z, step), all)
  {
    StepKeeps(z, all, step);
    InStepAfter(z, all, step);
    if step.DataArrives? && Enabled(z, step) {
      DoneByData(z, all, step.datagram);
    }
  }

  lemma {:induction false} UndeceivedRun(z: Sys, all: seq<Packet>, steps: seq<Step>)
    requires SysInv(z, all) && DoneIsWhole(z, all) && Undeceived(z, steps)
    ensures SysInv(Exec(z, steps), all) && DoneIsWhole(Exec(z, steps), all)
    decreases |steps|
  {
    if steps != [] {
      UndeceivedStep(z, all, steps[0]);
      UndeceivedRun(Apply(z, steps[0]), all, steps[1..]);
    }
  }

  /** In a run without such a datagram or ACK the client stops only with the whole file, and
      whatever the sender has popped is in it. */
  lemma CompletionIsSound(file: bytes, clientWindow: nat, net: Network, steps: seq<Step>)
    requires |Chunks(file)| < 0x1_0000_0000
    requires Undeceived(Start(Numbered(Chunks(file), 0), clientWindow, net), steps)
    ensures var z := Exec(Start(Numbered(Chunks(file), 0), clientWindow, net), steps);
            (z.client.done ==> Flatten(z.client.written) == file) && InStep(z)
  {
    var all := Numbered(Chunks(file), 0);
    FileStream(file);
    StartHolds(all, clientWindow, net);
    UndeceivedRun(Start(all, clientWindow, net), all, steps);
    WholeIffAll(file, Exec(Start(all, clientWindow, net), steps));
  }

  /** The client's window has room for every number of the transfer without wrapping. */
  ghost predicate Roomy(z: Sys, all: seq<Packet>) {
    z.client.windowSize >= 1 && |all| + z.client.windowSize < 0x1_0000_0000
  }

  /** A later packet of the window, damaged or not, brings the ACK of the last packet delivered
      back into flight, whether or not it has been lost before, and changes nothing else. */
  lemma LostAckComesBack(z: Sys, all: seq<Packet>, d: bytes)
    requires SysInv(z, all) && Roomy(z, all) && Enabled(z, DataArrives(d)) && Decode(d).value.data != []
    requires 0 < z.client.expectedSeqno < Decode(d).value.seqno < z.client.expectedSeqno + z.client.windowSize
    ensures Apply(z, DataArrives(d)) == z.(acks := z.acks + {z.client.expectedSeqno - 1})
  {
    ReceiveExactly(z.client, Decode(d).value, 0, z.client.expectedSeqno + z.client.windowSize);
  }

  /** That ACK releases the sender: the base catches up with the client. */
  lemma ReturnedAckReleases(z: Sys, all: seq<Packet>, net: Network)
    requires SysInv(z, all) && InStep(z) && z.client.expectedSeqno > 0
    ensures Acknowledge(z.sender, z.client.expectedSeqno - 1, net).Base() == z.client.expectedSeqno
  {
    AcknowledgeMoves(z.sender, all, z.client.expectedSeqno - 1, net);
  }

  /** An empty packet with the given number and a wrong checksum. */
  function Forged(seqno: uint32): Packet {
    var p := MakePacket([], seqno);
    p.(cksum := Wrap16(p.cksum + 1))
  }

  lemma ForgedIsDamaged(seqno: uint32)
    ensures var p := Forged(seqno);
            p.data == [] && p.seqno == seqno && !p.Intact() && Decode(Encode(p)) == Some(p)
  {
    MadePacketIsIntact([], seqno);
    DataRoundTripExact(Forged(seqno));
  }

  lemma ExpectedIsInWindow(c: Client, n: nat)
    requires c.windowSize >= 1 && c.expectedSeqno <= n && n + c.windowSize < 0x1_0000_0000
    ensures InWindow(c, c.expectedSeqno)
  {
    assert Wrap32(c.expectedSeqno + c.windowSize) == c.expectedSeqno + c.windowSize;
  }

  lemma EmptyPacketEnds(z: Sys, p: Packet)
    requires p.data == [] && InWindow(z.client, p.seqno)
    ensures ClientStep(z, p) == z.(client := z.client.(done := true))
  {
  }

  /** A damaged empty packet with the expected number ends the transfer at once. */
  lemma DeceivedBy(z: Sys, all: seq<Packet>, p: Packet)
    requires SysInv(z, all) && Roomy(z, all) && !z.client.done
    requires p.data == [] && p.seqno == z.client.expectedSeqno && !p.Intact() && Decode(Encode(p)) == Some(p)
    ensures Apply(z, DataArrives(Encode(p))) == z.(client := z.client.(done := true))
  {
    ExpectedIsInWindow(z.client, |all|);
    assert Enabled(z, DataArrives(Encode(p)));
    EmptyPacketEnds(z, p);
  }

  /** Every unfinished client can be deceived: the test for the end marker comes before the
      checksum. */
  lemma AnyClientCanBeDeceived(file: bytes, z: Sys)
    requires |Chunks(file)| < 0x1_0000_0000 && Reachable(file, z) && Roomy(z, Numbered(Chunks(file), 0))
    requires !z.client.done && z.client.expectedSeqno < |Chunks(file)|
    ensures var y := Apply(z, DataArrives(Encode(Forged(z.client.expectedSeqno))));
            y.client.done && Flatten(y.client.written) != file && Flatten(y.client.written) <= file
  {
    ReachableHolds(file, z);
    ForgedIsDamaged(z.client.expectedSeqno);
    DeceivedBy(z, Numbered(Chunks(file), 0), Forged(z.client.expectedSeqno));
    WholeIffAll(file, z);
    OutputIsPrefix(file, z);
  }
}
