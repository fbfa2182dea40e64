/** The whole Stop-and-Wait transfer: what every run keeps whatever ACKs arrive, exactly which
    ACKs mislead the sender, and the Selective Repeat transfer that all other runs refine. */
module StopAndWaitTransfer {
  import opened Bytes
  import opened PacketUtil
  import opened DataPackets
  import opened PacketBuilders
  import opened SenderParts
  import opened Networks
  import opened Receiver
  import opened StopAndWait
  import Wide = Transfer

  /** Data travels as in the Selective Repeat transfer, and what is in flight may be lost for
      good. An ACK may arrive with any content, since the sender does not look at its checksum. */
  datatype Sys = Sys(
    sender: Sender,
    client: Client,
    acks: set<uint32>,
    endSent: bool)

  ghost predicate OnWire(y: Sys, datagram: bytes) {
    Carried(y.sender.wire, y.endSent, y.sender.nextSeqNumber, datagram)
  }

  ghost predicate TimerReady(s: Sender) {
    s.unacked != {} && IndexOf(s.window, First(s.unacked).seqno) < |s.window|
  }

  ghost predicate Enabled(y: Sys, step: Wide.Step) {
    match step
    case DataArrives(d) =>
      !y.client.done && |d| >= HEADER_SIZE && (OnWire(y, d) || !Decode(d).value.Intact())
    case AckArrives(r, _) => y.sender.window != [] && |r| >= ACK_PKT_LEN
    case TimerFires(_) => TimerReady(y.sender)
    case TransferEnds => y.sender.window == [] && !y.endSent
  }

  ghost function ClientStep(y: Sys, p: Packet): Sys {
    var (c, reply) := Receive(y.client, p);
    y.(client := c, acks := Answered(y.acks, reply))
  }

  ghost function Apply(y: Sys, step: Wide.Step): Sys {
    if !Enabled(y, step) then y
    else
      match step
      case DataArrives(d) => ClientStep(y, Decode(d).value)
      case AckArrives(r, net) => y.(sender := Acknowledge(y.sender, DecodeAck(r).ackno, net))
      case TimerFires(net) => y.(sender := HandleTimeOut(y.sender, net))
      case TransferEnds => y.(endSent := true)
  }

  ghost function Exec(y: Sys, steps: seq<Wide.Step>): Sys
    decreases |steps|
  {
    if steps == [] then y else Exec(Apply(y, steps[0]), steps[1..])
  }

  ghost predicate CanLose(y: Sys, acks: set<uint32>, wire: seq<Packet>) {
    acks <= y.acks && LeftOf(wire, y.sender.wire)
  }

  function Lossy(y: Sys, acks: set<uint32>, wire: seq<Packet>): Sys {
    y.(acks := acks, sender := y.sender.(wire := wire))
  }

  ghost function Occur(y: Sys, event: Wide.Event): Sys {
    match event
    case Takes(step) => Apply(y, step)
    case Loses(acks, wire) => if CanLose(y, acks, wire) then Lossy(y, acks, wire) else y
  }

  ghost function OccurAll(y: Sys, events: seq<Wide.Event>): Sys
    decreases |events|
  {
    if events == [] then y else OccurAll(Occur(y, events[0]), events[1..])
  }

  ghost function Start(all: seq<Packet>, clientWindow: nat, net: Network): Sys {
    Sys(StopAndWaitStart(all, net), InitialClient(clientWindow), {}, false)
  }

  /** Kept by every step, with any ACKs. A client with a window of one cannot be told too early
      that the transfer has ended. */
  ghost predicate SysInv(y: Sys, all: seq<Packet>) {
    && Stream(all, 1) && Inv(y.sender, all)
    && Wide.ClientSound(y.client, y.acks, all, y.sender.nextSeqNumber)
    && (y.endSent ==> y.sender.window == [])
    && (y.client.done && y.client.windowSize == 1 ==> y.client.expectedSeqno == |all| + 1)
  }

  /** The sender has popped nothing that the client still misses. */
  ghost predicate InStep(y: Sys) {
    y.sender.packetsSent + 1 <= y.client.expectedSeqno
  }

  // ---------- one step ----------

  lemma ExpectedBound(y: Sys, all: seq<Packet>)
    requires SysInv(y, all)
    ensures 1 <= y.client.expectedSeqno <= y.sender.nextSeqNumber <= |all| + 1
  {
    LeastMissing(y.client);
    if y.client.expectedSeqno >= 2 {
      assert y.client.expectedSeqno - 1 in Contents(y.client);
    }
  }

  lemma DamagedIgnored(y: Sys, p: Packet)
    requires !p.Intact()
    ensures ClientStep(y, p) == y
  {
  }

  lemma MarkerReceived(c: Client, p: Packet)
    requires p.data == [] && p.Intact() && p.seqno >= c.expectedSeqno
    ensures Receive(c, p) == (if InWindow(c, p.seqno) then c.(done := true) else c, Silent)
  {
  }

  lemma MarkerArrives(y: Sys, all: seq<Packet>, p: Packet)
    requires SysInv(y, all) && y.endSent && p.data == [] && p.Intact() && p.seqno == y.sender.nextSeqNumber
    ensures SysInv(ClientStep(y, p), all)
    ensures ClientStep(y, p).client == y.client.(done := ClientStep(y, p).client.done)
    ensures ClientStep(y, p).client.done == (y.client.done || InWindow(y.client, p.seqno))
  {
    ExpectedBound(y, all);
    NothingWaiting(y.sender, all);
    MarkerReceived(y.client, p);
    Wide.MarkDone(y.client, y.acks, all, y.sender.nextSeqNumber);
  }

  lemma StreamPacketArrives(y: Sys, all: seq<Packet>, p: Packet)
    requires SysInv(y, all) && !y.client.done
    requires Facts.Known(p, y.sender.nextSeqNumber, all) && p.data != []
    ensures var x := ClientStep(y, p);
            SysInv(x, all) && x.client.expectedSeqno >= y.client.expectedSeqno && !x.client.done
  {
    Wide.ClientAccepts(y.client, y.acks, all, y.sender.nextSeqNumber, p);
  }

  lemma DataKeeps(y: Sys, all: seq<Packet>, d: bytes)
    requires SysInv(y, all) && Enabled(y, Wide.DataArrives(d))
    ensures var x := ClientStep(y, Decode(d).value);
            && SysInv(x, all) && x.client.windowSize == y.client.windowSize
            && x.client.expectedSeqno >= y.client.expectedSeqno
  {
    var p := Decode(d).value;
    if !p.Intact() {
      DamagedIgnored(y, p);
    } else {
      ExpectedBound(y, all);
      Wide.CarriedPacket(Lift(y.sender), all, y.endSent, d);
      if p.data == [] {
        MarkerArrives(y, all, p);
      } else {
        StreamPacketArrives(y, all, p);
        ReceiveRefines(y.client, p);
      }
    }
  }

  lemma BoundGrows(c: Client, acks: set<uint32>, all: seq<Packet>, lo: nat, hi: nat)
    requires Wide.ClientSound(c, acks, all, lo) && lo <= hi
    ensures Wide.ClientSound(c, acks, all, hi)
  {
  }

  lemma AckKeeps(y: Sys, all: seq<Packet>, k: uint32, net: Network)
    requires SysInv(y, all) && y.sender.window != []
    ensures SysInv(y.(sender := Acknowledge(y.sender, k, net)), all)
  {
    AcknowledgeKeeps(y.sender, all, k, net);
    AcknowledgeMoves(y.sender, all, k, net);
    BoundGrows(y.client, y.acks, all, y.sender.nextSeqNumber, Acknowledge(y.sender, k, net).nextSeqNumber);
  }

  lemma ReadyIff(s: Sender, all: seq<Packet>)
    requires Inv(s, all)
    ensures TimerReady(s) <==> s.window != []
  {
    IndexOfOne(s, all);
    if s.window != [] {
      var net: Network := _ => Outcome.Delivered;
      TimeOutMoves(s, all, net);
    }
  }

  lemma TimerKeeps(y: Sys, all: seq<Packet>, net: Network)
    requires SysInv(y, all) && TimerReady(y.sender)
    ensures SysInv(y.(sender := HandleTimeOut(y.sender, net)), all)
    ensures HandleTimeOut(y.sender, net).packetsSent == y.sender.packetsSent
  {
    ReadyIff(y.sender, all);
    TimeOutKeeps(y.sender, all, net);
    TimeOutMoves(y.sender, all, net);
  }

  lemma StepKeeps(y: Sys, all: seq<Packet>, step: Wide.Step)
    requires SysInv(y, all)
    ensures var x := Apply(y, step);
            && SysInv(x, all) && x.client.windowSize == y.client.windowSize
            && x.client.expectedSeqno >= y.client.expectedSeqno
  {
    if Enabled(y, step) {
      match step
      case DataArrives(d) => DataKeeps(y, all, d);
      case AckArrives(r, net) => AckKeeps(y, all, DecodeAck(r).ackno, net);
      case TimerFires(net) => TimerKeeps(y, all, net);
      case TransferEnds =>
    }
  }

  lemma {:induction false} RunKeeps(y: Sys, all: seq<Packet>, steps: seq<Wide.Step>)
    requires SysInv(y, all)
    ensures SysInv(Exec(y, steps), all) && Exec(y, steps).client.windowSize == y.client.windowSize
    decreases |steps|
  {
    if steps != [] {
      StepKeeps(y, all, steps[0]);
      RunKeeps(Apply(y, steps[0]), all, steps[1..]);
    }
  }

  lemma LossKeeps(y: Sys, all: seq<Packet>, acks: set<uint32>, wire: seq<Packet>)
    requires SysInv(y, all) && CanLose(y, acks, wire)
    ensures SysInv(Lossy(y, acks, wire), all)
  {
    SenderLoses(y.sender, all, wire);
    Wide.FewerAcks(y.client, y.acks, acks, all, y.sender.nextSeqNumber);
  }

  lemma SenderLoses(s: Sender, all: seq<Packet>, wire: seq<Packet>)
    requires Inv(s, all) && LeftOf(wire, s.wire)
    ensures Inv(s.(wire := wire), all)
  {
    Wide.LeftIsSound(Lift(s), all, wire);
  }

  lemma EventKeeps(y: Sys, all: seq<Packet>, event: Wide.Event)
    requires SysInv(y, all)
    ensures SysInv(Occur(y, event), all) && Occur(y, event).client.windowSize == y.client.windowSize
  {
    match event
    case Takes(step) => StepKeeps(y, all, step);
    case Loses(acks, wire) =>
      if CanLose(y, acks, wire) { LossKeeps(y, all, acks, wire); }
  }

  lemma {:induction false} EventsKeep(y: Sys, all: seq<Packet>, events: seq<Wide.Event>)
    requires SysInv(y, all)
    ensures SysInv(OccurAll(y, events), all) && OccurAll(y, events).client.windowSize == y.client.windowSize
    decreases |events|
  {
    if events != [] {
      EventKeeps(y, all, events[0]);
      EventsKeep(Occur(y, events[0]), all, events[1..]);
    }
  }

  lemma StartHolds(all: seq<Packet>, clientWindow: nat, net: Network)
    requires Stream(all, 1) && clientWindow >= 1
    ensures SysInv(Start(all, clientWindow, net), all)
  {
    StopAndWait.StartKeeps(all, net);
    Wide.ClientStarts(all, clientWindow, StopAndWaitStart(all, net).nextSeqNumber);
  }

  // ---------- safety of every run ----------

  ghost predicate Reachable(file: bytes, clientWindow: nat, y: Sys)
    requires |Chunks(file)| + 1 < 0x1_0000_0000
  {
    exists net: Network, events: seq<Wide.Event> ::
      y == OccurAll(Start(Numbered(Chunks(file), 1), clientWindow, net), events)
  }

  lemma ReachableHolds(file: bytes, clientWindow: nat, y: Sys)
    requires |Chunks(file)| + 1 < 0x1_0000_0000 && clientWindow >= 1 && Reachable(file, clientWindow, y)
    ensures SysInv(y, Numbered(Chunks(file), 1)) && y.client.windowSize == clientWindow
  {
    var all := Numbered(Chunks(file), 1);
    var net: Network, events: seq<Wide.Event> :|
      y == OccurAll(Start(Numbered(Chunks(file), 1), clientWindow, net), events);
    Wide.FileStream(file);
    StartHolds(all, clientWindow, net);
    EventsKeep(Start(all, clientWindow, net), all, events);
  }

  /** In every Stop-and-Wait run, with damaged data and with any ACKs: the output is the first
      pieces of the file, and with the window of one that the client uses it is the whole
      file once the client is done. */
  lemma StopAndWaitIsSafe(file: bytes, clientWindow: nat, y: Sys)
    requires |Chunks(file)| + 1 < 0x1_0000_0000 && clientWindow >= 1 && Reachable(file, clientWindow, y)
    ensures y.client.expectedSeqno - 1 == |y.client.written| <= |Chunks(file)|
    ensures y.client.written == Chunks(file)[..|y.client.written|] && Flatten(y.client.written) <= file
    ensures y.client.done && clientWindow == 1 ==> Flatten(y.client.written) == file
    ensures |y.sender.window| <= 1
  {
    ReachableHolds(file, clientWindow, y);
    Wide.ClientPieces(y.client, y.acks, Chunks(file), y.sender.nextSeqNumber);
    PiecesAreFile(file, y.client.written);
    IndexOfOne(y.sender, Numbered(Chunks(file), 1));
  }

  // ---------- which ACKs mislead the sender ----------

  /** An ACK naming the packet waiting, which the client does not have. */
  ghost predicate Misleads(y: Sys, step: Wide.Step) {
    && step.AckArrives? && Enabled(y, step)
    && y.sender.window[0].pkt.seqno == DecodeAck(step.reply).ackno == y.client.expectedSeqno
  }

  lemma InStepAfter(y: Sys, all: seq<Packet>, step: Wide.Step)
    requires SysInv(y, all) && InStep(y)
    ensures InStep(Apply(y, step)) <==> !Misleads(y, step)
  {
    StepKeeps(y, all, step);
    if Enabled(y, step) {
      match step
      case DataArrives(d) =>
      case AckArrives(r, net) => PopsOnlyFront(y.sender, all, DecodeAck(r).ackno, net);
      case TimerFires(net) => TimerKeeps(y, all, net);
      case TransferEnds =>
    }
  }

  lemma PopsOnlyFront(s: Sender, all: seq<Packet>, k: nat, net: Network)
    requires Inv(s, all) && s.window != []
    ensures s.window[0].pkt.seqno == s.packetsSent + 1
    ensures Acknowledge(s, k, net).packetsSent == s.packetsSent + if k == s.packetsSent + 1 then 1 else 0
  {
    FrontNumber(s, all);
    AcknowledgeMoves(s, all, k, net);
  }

  /** Exactly which steps make the sender drop a packet the client does not have. */
  lemma StaysInStepIff(file: bytes, clientWindow: nat, y: Sys, step: Wide.Step)
    requires |Chunks(file)| + 1 < 0x1_0000_0000 && clientWindow >= 1 && Reachable(file, clientWindow, y)
    requires InStep(y)
    ensures InStep(Apply(y, step)) <==> !Misleads(y, step)
  {
    ReachableHolds(file, clientWindow, y);
    InStepAfter(y, Numbered(Chunks(file), 1), step);
  }

  /** The same for an ACK by its number alone, in every reachable state. */
  lemma AckNumberIsSafe(file: bytes, clientWindow: nat, y: Sys, k: uint32, net: Network)
    requires |Chunks(file)| + 1 < 0x1_0000_0000 && clientWindow >= 1 && Reachable(file, clientWindow, y)
    ensures Acknowledge(y.sender, k, net).packetsSent + 1 <= y.client.expectedSeqno
       <==> InStep(y) && !(y.sender.window != [] && y.sender.window[0].pkt.seqno == k == y.client.expectedSeqno)
  {
    ReachableHolds(file, clientWindow, y);
    if y.sender.window != [] {
      PopsOnlyFront(y.sender, Numbered(Chunks(file), 1), k, net);
    } else {
      NothingNamed(y.sender, k, net);
    }
  }

  lemma NothingNamed(s: Sender, k: nat, net: Network)
    requires s.window == []
    ensures Acknowledge(s, k, net) == s
  {
  }

  /** Such an ACK exists whenever the client waits for the packet the sender waits for, as it
      does at the start of every transfer of a file that is not empty. */
  lemma AnySenderCanBeMisled(file: bytes, clientWindow: nat, y: Sys, net: Network)
    requires |Chunks(file)| + 1 < 0x1_0000_0000 && clientWindow >= 1 && Reachable(file, clientWindow, y)
    requires y.sender.window != [] && y.sender.packetsSent + 1 == y.client.expectedSeqno
    ensures y.client.expectedSeqno < 0x1_0000_0000
    ensures var r := DamagedAck(y.client.expectedSeqno);
            !DecodeAck(r).Intact() && InStep(y) && !InStep(Apply(y, Wide.AckArrives(r, net)))
  {
    ReachableHolds(file, clientWindow, y);
    FrontNumber(y.sender, Numbered(Chunks(file), 1));
    DamagedAckReads(y.client.expectedSeqno);
    StaysInStepIff(file, clientWindow, y, Wide.AckArrives(DamagedAck(y.client.expectedSeqno), net));
  }

  lemma StartCanBeMisled(file: bytes, net: Network) returns (y: Sys)
    requires 0 < |Chunks(file)| && |Chunks(file)| + 1 < 0x1_0000_0000
    ensures Reachable(file, 1, y) && InStep(y) && !InStep(Apply(y, Wide.AckArrives(DamagedAck(1), net)))
  {
    var all := Numbered(Chunks(file), 1);
    y := Start(all, 1, net);
    var none: seq<Wide.Event> := [];
    assert y == OccurAll(Start(all, 1, net), none);
    ReachableHolds(file, 1, y);
    if y.sender.window == [] { NothingWaiting(y.sender, all); }
    AnySenderCanBeMisled(file, 1, y, net);
  }

  // ---------- all other runs refine Selective Repeat ----------

  /** What the Stop-and-Wait system sees of a Selective Repeat system. */
  function Seen(z: Wide.Sys): Sys {
    Sys(View(z.sender), z.client, z.acks, z.endSent)
  }

  /** The client has acknowledged everything it has accepted. */
  ghost predicate AcksComplete(z: Wide.Sys) {
    forall k :: k in Accepted(z.client) ==> k in z.acks
  }

  ghost predicate Pair(z: Wide.Sys, all: seq<Packet>) {
    Wide.SysInv(z, all) && Single(z.sender, all)
  }

  ghost predicate Twin(z: Wide.Sys, all: seq<Packet>) {
    Pair(z, all) && AcksComplete(z)
  }

  /** The step of the Selective Repeat system that an ACK with any content stands for: the
      undamaged ACK with the same number. */
  function Normal(step: Wide.Step): Wide.Step {
    if step.AckArrives? && |step.reply| >= ACK_PKT_LEN then
      Wide.AckArrives(EncodeAck(MakeAck(DecodeAck(step.reply).ackno)), step.net)
    else step
  }

  lemma PacketComplete(z: Wide.Sys, all: seq<Packet>, p: Packet)
    requires Wide.SysInv(z, all) && AcksComplete(z) && Wide.MayArrive(z, all, p)
    ensures AcksComplete(Wide.ClientStep(z, p))
  {
    if p.data == [] {
      Wide.MarkerArrives(z, all, p);
      Wide.MarkDone(z.client, z.acks, all, z.sender.nextSeqNumber);
    } else {
      Wide.ClientAccepts(z.client, z.acks, all, z.sender.nextSeqNumber, p);
    }
  }

  lemma DataComplete(z: Wide.Sys, all: seq<Packet>, d: bytes)
    requires Wide.SysInv(z, all) && AcksComplete(z)
    ensures AcksComplete(Wide.Apply(z, Wide.DataArrives(d)))
  {
    if Wide.Enabled(z, Wide.DataArrives(d)) {
      var p := Decode(d).value;
      if !p.Intact() {
        Wide.DamagedIgnored(z, p);
      } else {
        Wide.WirePacket(z, all, d);
        PacketComplete(z, all, p);
      }
    }
  }

  lemma DataSame(z: Wide.Sys, d: bytes)
    ensures Apply(Seen(z), Wide.DataArrives(d)) == Seen(Wide.Apply(z, Wide.DataArrives(d)))
    ensures Wide.Apply(z, Wide.DataArrives(d)).sender == z.sender
  {
  }

  /** An ACK with a number that the client has acknowledged. */
  lemma KnownAckSame(z: Wide.Sys, all: seq<Packet>, k: uint32, net: Network)
    requires Pair(z, all) && k in z.acks && z.sender.window != []
    ensures var x := Wide.Apply(z, Wide.AckArrives(EncodeAck(MakeAck(k)), net));
            && x == z.(sender := x.sender) && View(x.sender) == Acknowledge(View(z.sender), k, net)
            && Single(x.sender, all)
  {
    NumberCarried(z.acks, k);
    AcknowledgeSame(z.sender, all, MakeAck(k), net);
  }

  /** Any other ACK leaves both systems alone, unless it misleads. */
  lemma UnknownAckSame(z: Wide.Sys, all: seq<Packet>, k: uint32, net: Network)
    requires Twin(z, all) && k !in z.acks && z.sender.window != []
    requires z.sender.window[0].pkt.seqno != k || k != z.client.expectedSeqno
    ensures Wide.Apply(z, Wide.AckArrives(EncodeAck(MakeAck(k)), net)) == z
    ensures Acknowledge(View(z.sender), k, net) == View(z.sender)
  {
    AckRoundTripExact(MakeAck(k));
    if AckCarried(z.acks, EncodeAck(MakeAck(k))) {
      CarriedNumber(z.acks, EncodeAck(MakeAck(k)));
    }
    Wide.NeverOutruns(z, all);
    LiftView(z.sender, all);
    FrontNumber(View(z.sender), all);
    AcknowledgeMoves(View(z.sender), all, k, net);
    assert forall j :: 1 <= j < z.client.expectedSeqno ==> j in Accepted(z.client);
  }

  lemma AckSame(z: Wide.Sys, all: seq<Packet>, r: bytes, net: Network)
    requires Twin(z, all) && !Misleads(Seen(z), Wide.AckArrives(r, net))
    ensures var x := Wide.Apply(z, Normal(Wide.AckArrives(r, net)));
            Apply(Seen(z), Wide.AckArrives(r, net)) == Seen(x) && Single(x.sender, all) && AcksComplete(x)
  {
    if z.sender.window != [] && |r| >= ACK_PKT_LEN {
      var k := DecodeAck(r).ackno;
      if k in z.acks {
        KnownAckSame(z, all, k, net);
      } else {
        UnknownAckSame(z, all, k, net);
      }
    }
  }

  lemma TimerFiresSame(z: Wide.Sys, net: Network)
    requires z.sender.unacked != {} && z.sender.window != [] && TimerReady(View(z.sender))
    ensures Wide.Apply(z, Wide.TimerFires(net)) == z.(sender := SR.HandleTimeOut(z.sender, net))
    ensures Apply(Seen(z), Wide.TimerFires(net)) == Seen(z).(sender := HandleTimeOut(View(z.sender), net))
  {
  }

  lemma TimerSame(z: Wide.Sys, all: seq<Packet>, net: Network)
    requires Single(z.sender, all)
    ensures Apply(Seen(z), Wide.TimerFires(net)) == Seen(Wide.Apply(z, Wide.TimerFires(net)))
    ensures Single(Wide.Apply(z, Wide.TimerFires(net)).sender, all)
  {
    LiftView(z.sender, all);
    ReadyIff(View(z.sender), all);
    Facts.WindowIffTimer(z.sender, all);
    if z.sender.window != [] {
      TimerFiresSame(z, net);
      TimeOutSame(z.sender, all, net);
    }
  }

  /** Every step that does not mislead the sender is the same in both systems. */
  lemma SystemStepSame(z: Wide.Sys, all: seq<Packet>, step: Wide.Step)
    requires Twin(z, all) && !Misleads(Seen(z), step)
    ensures Apply(Seen(z), step) == Seen(Wide.Apply(z, Normal(step))) && Twin(Wide.Apply(z, Normal(step)), all)
  {
    Wide.StepKeeps(z, all, Normal(step));
    match step
    case DataArrives(d) =>
      DataSame(z, d);
      DataComplete(z, all, d);
    case AckArrives(r, net) => AckSame(z, all, r, net);
    case TimerFires(net) => TimerSame(z, all, net);
    case TransferEnds =>
  }

  // ---------- losses on the way ----------

  /** y is what x becomes when part of what is in flight is lost. */
  ghost predicate IsLossOf(x: Sys, y: Sys) {
    CanLose(x, y.acks, y.sender.wire) && y == Lossy(x, y.acks, y.sender.wire)
  }

  lemma LeftOfAll(wire: seq<Packet>)
    ensures LeftOf(wire, wire)
  {
    forall i | 0 <= i < |wire|
      ensures Contains(wire, wire[i])
    {
    }
  }

  lemma LeftOfLeft(a: seq<Packet>, b: seq<Packet>, c: seq<Packet>)
    requires LeftOf(a, b) && LeftOf(b, c)
    ensures LeftOf(a, c)
  {
    forall i | 0 <= i < |a|
      ensures Contains(c, a[i])
    {
      assert Contains(b, a[i]);
      var j :| 0 <= j < |b| && b[j] == a[i];
      assert Contains(c, b[j]);
    }
  }

  lemma LeftOfMore(a: seq<Packet>, b: seq<Packet>, more: seq<Packet>)
    requires LeftOf(a, b)
    ensures LeftOf(a + more, b + more)
  {
    forall i | 0 <= i < |a + more|
      ensures Contains(b + more, (a + more)[i])
    {
      if i < |a| {
        assert Contains(b, a[i]);
        var j :| 0 <= j < |b| && b[j] == a[i];
        assert (b + more)[j] == a[i];
      } else {
        assert (b + more)[i - |a| + |b|] == more[i - |a|];
      }
    }
  }

  /** Both senders put the same packets on the wire. */
  ghost predicate SendSame(x: Sys, x': Sys, y: Sys, y': Sys) {
    exists more :: x'.sender.wire == x.sender.wire + more && y'.sender.wire == y.sender.wire + more
  }

  lemma SentNothing(x: Sys, x': Sys, y: Sys, y': Sys)
    requires x'.sender.wire == x.sender.wire && y'.sender.wire == y.sender.wire
    ensures SendSame(x, x', y, y')
  {
    var none: seq<Packet> := [];
    assert x'.sender.wire == x.sender.wire + none && y'.sender.wire == y.sender.wire + none;
  }

  /** What a sender does, and what it adds to the wire, does not depend on the wire. */
  lemma AcknowledgeFree(s: Sender, all: seq<Packet>, k: nat, net: Network, wire: seq<Packet>)
    returns (more: seq<Packet>)
    requires Inv(s, all)
    ensures var t := Acknowledge(s, k, net);
            t.wire == s.wire + more && Acknowledge(s.(wire := wire), k, net) == t.(wire := wire + more)
  {
    more := [];
    IndexOfOne(s, all);
    var i := IndexOf(s.window, k);
    if i < |s.window| {
      var marked := s.(window := s.window[0 := s.window[0].(acked := true)],
                       unacked := Erase(s.unacked, s.window[0].stamp));
      StopAndWaitAdvance(marked, net);
      StopAndWaitAdvance(marked.(wire := wire), net);
      if s.todo != [] && !net(s.clock).Lost? { more := [s.todo[0]]; }
    }
  }

  lemma TimeOutFree(s: Sender, all: seq<Packet>, net: Network, wire: seq<Packet>) returns (more: seq<Packet>)
    requires Inv(s, all) && s.window != []
    ensures s.unacked != {} && IndexOf(s.window, First(s.unacked).seqno) == 0
    ensures var t := HandleTimeOut(s, net);
            t.wire == s.wire + more && HandleTimeOut(s.(wire := wire), net) == t.(wire := wire + more)
  {
    TimeOutKeeps(s, all, net);
    more := if net(s.clock).Lost? then [] else [s.window[0].pkt];
  }

  /** The step brings an intact datagram that is no longer in flight. */
  ghost predicate IsLost(y: Sys, step: Wide.Step) {
    && step.DataArrives? && !OnWire(y, step.datagram) && Decode(step.datagram).Some?
    && Decode(step.datagram).value.Intact()
  }

  lemma StillOnWire(x: Sys, y: Sys, d: bytes)
    requires IsLossOf(x, y) && OnWire(y, d)
    ensures OnWire(x, d)
  {
    if i :| 0 <= i < |y.sender.wire| && d == Encode(y.sender.wire[i]) {
      assert Contains(x.sender.wire, y.sender.wire[i]);
    }
  }

  lemma LossySenderStep(x: Sys, y: Sys, s: Sender, more: seq<Packet>)
    requires IsLossOf(x, y) && s.wire == x.sender.wire + more
    ensures var x', y' := x.(sender := s), y.(sender := s.(wire := y.sender.wire + more));
            IsLossOf(x', y') && SendSame(x, x', y, y')
  {
    LeftOfMore(y.sender.wire, x.sender.wire, more);
  }

  lemma LossyData(x: Sys, y: Sys, d: bytes)
    requires IsLossOf(x, y) && !IsLost(y, Wide.DataArrives(d))
    ensures var step := Wide.DataArrives(d);
            IsLossOf(Apply(x, step), Apply(y, step)) && SendSame(x, Apply(x, step), y, Apply(y, step))
  {
    var step := Wide.DataArrives(d);
    if OnWire(y, d) { StillOnWire(x, y, d); }
    SentNothing(x, Apply(x, step), y, Apply(y, step));
  }

  /** A system that has lost part of what was in flight does the same as before, except for
      what it has lost. */
  lemma LossyStep(x: Sys, y: Sys, all: seq<Packet>, step: Wide.Step)
    requires Inv(x.sender, all) && IsLossOf(x, y)
    ensures Misleads(x, step) == Misleads(y, step)
    ensures var x' := if IsLost(y, step) then x else Apply(x, step);
            IsLossOf(x', Apply(y, step)) && SendSame(x, x', y, Apply(y, step))
  {
    match step
    case DataArrives(d) =>
      if IsLost(y, step) { SentNothing(x, x, y, Apply(y, step)); } else { LossyData(x, y, d); }
    case AckArrives(r, net) =>
      if x.sender.window != [] && |r| >= ACK_PKT_LEN {
        var more := AcknowledgeFree(x.sender, all, DecodeAck(r).ackno, net, y.sender.wire);
        LossySenderStep(x, y, Acknowledge(x.sender, DecodeAck(r).ackno, net), more);
      } else {
        SentNothing(x, x, y, y);
      }
    case TimerFires(net) =>
      ReadyIff(x.sender, all);
      if x.sender.window != [] {
        var more := TimeOutFree(x.sender, all, net, y.sender.wire);
        LossySenderStep(x, y, HandleTimeOut(x.sender, net), more);
      } else {
        SentNothing(x, x, y, y);
      }
    case TransferEnds => SentNothing(x, Apply(x, step), y, Apply(y, step));
  }

  // ---------- whole runs ----------

  /** y is the view of z with part of what is in flight lost. */
  ghost predicate Shadow(z: Wide.Sys, y: Sys, all: seq<Packet>) {
    Twin(z, all) && IsLossOf(Seen(z), y)
  }

  /** The step of the Selective Repeat system, which has lost nothing: none for a lost datagram. */
  ghost function Match(y: Sys, step: Wide.Step): Wide.Step {
    if IsLost(y, step) then Wide.AckArrives([], _ => Outcome.Lost) else Normal(step)
  }

  lemma ShadowStep(z: Wide.Sys, y: Sys, all: seq<Packet>, step: Wide.Step)
    requires Shadow(z, y, all) && !Misleads(y, step)
    ensures var z' := Wide.Apply(z, Match(y, step));
            Shadow(z', Apply(y, step), all) && SendSame(Seen(z), Seen(z'), y, Apply(y, step))
  {
    LiftView(z.sender, all);
    LossyStep(Seen(z), y, all, step);
    if !IsLost(y, step) {
      SystemStepSame(z, all, step);
    }
  }

  lemma ShadowLoss(z: Wide.Sys, y: Sys, all: seq<Packet>, acks: set<uint32>, wire: seq<Packet>)
    requires Shadow(z, y, all) && CanLose(y, acks, wire)
    ensures Shadow(z, Lossy(y, acks, wire), all)
  {
    LeftOfLeft(wire, y.sender.wire, z.sender.wire);
  }

  /** No ACK of the run misleads the sender. */
  ghost predicate Honest(y: Sys, events: seq<Wide.Event>)
    decreases |events|
  {
    events != [] ==>
      (events[0].Takes? ==> !Misleads(y, events[0].step)) && Honest(Occur(y, events[0]), events[1..])
  }

  lemma {:induction false} ShadowRun(z: Wide.Sys, y: Sys, all: seq<Packet>, events: seq<Wide.Event>)
    returns (steps: seq<Wide.Step>)
    requires Shadow(z, y, all) && Honest(y, events)
    ensures Shadow(Wide.Exec(z, steps), OccurAll(y, events), all)
    decreases |events|
  {
    if events == [] {
      steps := [];
    } else {
      match events[0]
      case Takes(step) =>
        ShadowStep(z, y, all, step);
        var first := Match(y, step);
        var rest := ShadowRun(Wide.Apply(z, first), Apply(y, step), all, events[1..]);
        steps := [first] + rest;
        assert steps[0] == first && steps[1..] == rest;
      case Loses(acks, wire) =>
        if CanLose(y, acks, wire) { ShadowLoss(z, y, all, acks, wire); }
        steps := ShadowRun(z, Occur(y, events[0]), all, events[1..]);
    }
  }

  lemma StartSame(all: seq<Packet>, clientWindow: nat, net: Network)
    requires Stream(all, 1) && clientWindow >= 1
    ensures Start(all, clientWindow, net) == Seen(Wide.Start(all, 1, clientWindow, net))
    ensures Twin(Wide.Start(all, 1, clientWindow, net), all)
  {
    var none: seq<Event> := [];
    WindowOfOneIsStopAndWait(all, net, none);
    Facts.StartKeeps(all, 1, net);
    Wide.StartHolds(all, 1, clientWindow, net);
    Wide.ClientStarts(all, clientWindow, 1);
  }

  lemma StartShadow(all: seq<Packet>, clientWindow: nat, net: Network)
    requires Stream(all, 1) && clientWindow >= 1
    ensures Shadow(Wide.Start(all, 1, clientWindow, net), Start(all, clientWindow, net), all)
  {
    StartSame(all, clientWindow, net);
    LeftOfAll(Start(all, clientWindow, net).sender.wire);
  }

  /** The states of runs in which no ACK misleads the sender, with losses at any time. */
  ghost predicate HonestlyReachable(file: bytes, y: Sys)
    requires |Chunks(file)| + 1 < 0x1_0000_0000
  {
    exists clientWindow: nat, net: Network, events: seq<Wide.Event> ::
      && clientWindow >= 1 && Honest(Start(Numbered(Chunks(file), 1), clientWindow, net), events)
      && y == OccurAll(Start(Numbered(Chunks(file), 1), clientWindow, net), events)
  }

  /** Every state of such a run is the shadow of a state that a Selective Repeat run reaches
      without any loss. */
  lemma ReachableShadow(file: bytes, y: Sys) returns (z: Wide.Sys)
    requires |Chunks(file)| + 1 < 0x1_0000_0000 && HonestlyReachable(file, y)
    ensures Wide.Reachable(file, z) && Shadow(z, y, Numbered(Chunks(file), 1))
  {
    var all := Numbered(Chunks(file), 1);
    var clientWindow: nat, net: Network, events: seq<Wide.Event> :|
      && clientWindow >= 1 && Honest(Start(Numbered(Chunks(file), 1), clientWindow, net), events)
      && y == OccurAll(Start(Numbered(Chunks(file), 1), clientWindow, net), events);
    Wide.FileStream(file);
    StartShadow(all, clientWindow, net);
    var start := Wide.Start(all, 1, clientWindow, net);
    var steps := ShadowRun(start, Start(all, clientWindow, net), all, events);
    z := Wide.Exec(start, steps);
    var same := Wide.StepsAreEvents(start, steps);
    assert Wide.Reachable(file, z);
  }

  /** And so it is the view of a reachable Selective Repeat state. */
  lemma ReachableTwin(file: bytes, y: Sys) returns (z: Wide.Sys)
    requires |Chunks(file)| + 1 < 0x1_0000_0000 && HonestlyReachable(file, y)
    ensures Wide.Reachable(file, z) && y == Seen(z) && Pair(z, Numbered(Chunks(file), 1))
  {
    var x := ReachableShadow(file, y);
    var all := Numbered(Chunks(file), 1);
    var loss := Wide.Loses(y.acks, y.sender.wire);
    z := Wide.Occur(x, loss);
    Wide.ReachableMore(file, x, loss);
    Wide.LossKeeps(x, all, y.acks, y.sender.wire);
  }

  /** In such a run the client is done only with the whole file, whatever its window. */
  lemma HonestCompletion(file: bytes, y: Sys)
    requires |Chunks(file)| + 1 < 0x1_0000_0000 && HonestlyReachable(file, y) && y.client.done
    ensures Flatten(y.client.written) == file && InStep(y)
  {
    var z := ReachableTwin(file, y);
    Wide.CompletionIsSound(file, z);
    Wide.NeverOutruns(z, Numbered(Chunks(file), 1));
  }
}
