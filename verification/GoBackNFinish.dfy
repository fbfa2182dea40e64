/** Exactly when a Go-Back-N transfer can still end with the whole file over a network that
    damages nothing from now on: with the timer working as it is meant to, and without it. */
module GoBackNFinish {
  import opened Bytes
  import opened DataPackets
  import opened PacketBuilders
  import opened SenderParts
  import opened Networks
  import opened GoBackN
  import opened GoBackNTransfer

  /** What may happen from now on: nothing is damaged, and without the timer nothing is sent
      again. */
  ghost predicate Allowed(z: Sys, step: Step, timer: bool) {
    && (step.DataArrives? ==> OnWire(z, step.datagram))
    && (step.AckArrives? ==> AckCarried(z.acks, step.reply))
    && (step.Resend? ==> timer)
  }

  ghost predicate CleanRun(z: Sys, steps: seq<Step>, timer: bool)
    decreases |steps|
  {
    steps != [] ==> Allowed(z, steps[0], timer) && CleanRun(Apply(z, steps[0]), steps[1..], timer)
  }

  ghost predicate Whole(z: Sys, all: seq<Packet>) {
    z.client.done && z.client.expectedSeqno == |all|
  }

  ghost predicate CanFinish(z: Sys, all: seq<Packet>, timer: bool) {
    exists steps :: CleanRun(z, steps, timer) && Whole(Exec(z, steps), all)
  }

  /** An ACK that lets the sender go on: any that pops a packet while there are others to
      fetch, and only that of the last packet when there are none. */
  ghost predicate Releases(s: Sender, k: nat) {
    (if s.todo == [] then s.nextSeqNumber - 1 else s.Base()) <= k < s.nextSeqNumber
  }

  /** The client has every packet of the window, so it answers none of them any more, and no
      ACK that would release the sender is left. */
  ghost predicate Doomed(z: Sys) {
    && z.sender.window != [] && z.client.expectedSeqno == z.sender.nextSeqNumber
    && forall k {:trigger k in z.acks} :: k in z.acks ==> !Releases(z.sender, k)
  }

  /** Numbers from here on can still be sent: those in the window by the timer, and those not
      fetched yet in any case. */
  function Sendable(z: Sys, timer: bool): int {
    if timer then z.sender.Base() else z.sender.nextSeqNumber
  }

  ghost predicate Hopeful(z: Sys, timer: bool) {
    !Doomed(z) && AllSent(z.sender.wire, z.client.expectedSeqno, Sendable(z, timer))
  }

  // ---------- single moves ----------

  lemma OldPacketIgnored(z: Sys, p: Packet)
    requires p.seqno < z.client.expectedSeqno
    ensures ClientStep(z, p) == z
  {
  }

  lemma CarriedAck(z: Sys, r: bytes, net: Network)
    requires AckCarried(z.acks, r) && z.sender.window != []
    ensures DecodeAck(r).ackno in z.acks
    ensures Apply(z, AckArrives(r, net)) == z.(sender := Acknowledge(z.sender, DecodeAck(r).ackno, net))
  {
    CarriedNumber(z.acks, r);
  }

  lemma SentIsOnWire(z: Sys, all: seq<Packet>, k: nat)
    requires SysInv(z, all) && Sent(z.sender.wire, k)
    ensures k < |all| && OnWire(z, Encode(all[k]))
  {
    var i :| 0 <= i < |z.sender.wire| && z.sender.wire[i].seqno == k;
    assert z.sender.wire[i] == all[k];
  }

  lemma DeliverMove(z: Sys, all: seq<Packet>)
    requires SysInv(z, all) && Roomy(z, all) && z.client.expectedSeqno < z.sender.nextSeqNumber && !z.client.done
    requires Sent(z.sender.wire, z.client.expectedSeqno)
    ensures var d := Encode(all[z.client.expectedSeqno]);
            var y := Apply(z, DataArrives(d));
            && OnWire(z, d) && SysInv(y, all) && Roomy(y, all) && !y.client.done
            && y.sender == z.sender && y.client.expectedSeqno == z.client.expectedSeqno + 1
            && y.acks == z.acks + {z.client.expectedSeqno}
  {
    var p := all[z.client.expectedSeqno];
    SentIsOnWire(z, all, z.client.expectedSeqno);
    assert Sound(p) && p.seqno == z.client.expectedSeqno;
    DataRoundTripExact(p);
    ExpectedIsInWindow(z.client, |all|);
    assert Enabled(z, DataArrives(Encode(p)));
    NextPacket(z, all);
  }

  /** Position of the expected packet in the window. */
  function Missing(z: Sys): int {
    z.client.expectedSeqno - z.sender.Base()
  }

  function Resent(z: Sys): Sys
    requires 0 <= Missing(z) < |z.sender.window|
  {
    z.(sender := SendPacket(z.sender, Missing(z), Outcome.Delivered))
  }

  /** Sending the expected packet again puts it on the wire. */
  lemma ResendMove(z: Sys, all: seq<Packet>)
    requires SysInv(z, all) && InStep(z) && z.client.expectedSeqno < z.sender.nextSeqNumber
    ensures 0 <= Missing(z) < |z.sender.window|
    ensures Apply(z, Resend(Missing(z), Outcome.Delivered)) == Resent(z) && SysInv(Resent(z), all)
    ensures var t := Resent(z).sender;
            && t.Base() == z.sender.Base() && t.nextSeqNumber == z.sender.nextSeqNumber
            && Sent(t.wire, z.client.expectedSeqno)
  {
    ResendKeeps(z, all, Missing(z), Outcome.Delivered);
    SentAgain(z.sender, all, Missing(z));
  }

  lemma SentAgain(s: Sender, all: seq<Packet>, i: nat)
    requires Sequential(all, 0) && Inv(s, all) && i < |s.window|
    ensures var t := SendPacket(s, i, Outcome.Delivered);
            t.Base() == s.Base() && t.nextSeqNumber == s.nextSeqNumber && Sent(t.wire, s.Base() + i)
  {
    var t := SendPacket(s, i, Outcome.Delivered);
    assert s.window[i].pkt == all[s.Base() + i];
    assert t.wire[|s.wire|].seqno == s.Base() + i;
  }

  // ---------- a dead end stays one ----------

  lemma DoomedAck(z: Sys, all: seq<Packet>, k: uint32, net: Network)
    requires SysInv(z, all) && Doomed(z) && k in z.acks
    ensures Doomed(z.(sender := Acknowledge(z.sender, k, net)))
  {
    DoomedNumber(z.sender, all, k, net);
  }

  lemma DoomedNumber(s: Sender, all: seq<Packet>, k: nat, net: Network)
    requires Sequential(all, 0) && Inv(s, all) && s.window != [] && !Releases(s, k)
    ensures var t := Acknowledge(s, k, net);
            && t.window != [] && t.nextSeqNumber == s.nextSeqNumber
            && (t == s || (s.todo == [] && t.todo == []))
  {
    AcknowledgeMoves(s, all, k, net);
  }

  lemma DoomedStep(z: Sys, all: seq<Packet>, step: Step)
    requires SysInv(z, all) && Doomed(z) && !z.client.done && Allowed(z, step, true)
    ensures var y := Apply(z, step); SysInv(y, all) && Doomed(y) && !y.client.done
  {
    StepKeeps(z, all, step);
    if Enabled(z, step) {
      match step
      case DataArrives(d) =>
        WirePacket(z, all, d);
        OldPacketIgnored(z, Decode(d).value);
      case AckArrives(r, net) =>
        CarriedAck(z, r, net);
        DoomedAck(z, all, DecodeAck(r).ackno, net);
      case AckLost(k) =>
      case DataLost(wire) =>
      case Resend(i, outcome) =>
      case TransferEnds =>
    }
  }

  lemma {:induction false} DoomedForever(z: Sys, all: seq<Packet>, steps: seq<Step>, timer: bool)
    requires SysInv(z, all) && Doomed(z) && !z.client.done && CleanRun(z, steps, timer)
    ensures !Exec(z, steps).client.done
    decreases |steps|
  {
    if steps != [] {
      DoomedStep(z, all, steps[0]);
      DoomedForever(Apply(z, steps[0]), all, steps[1..], timer);
    }
  }

  /** The client misses number m, which is not on the wire and cannot be sent any more. */
  ghost predicate Gone(z: Sys, m: nat, timer: bool) {
    z.client.expectedSeqno <= m < Sendable(z, timer) && !Sent(z.sender.wire, m)
  }

  lemma StillUnsent(s: Sender, t: Sender, m: nat)
    requires SendsOnlyNew(s, t) && !Sent(s.wire, m) && m < s.nextSeqNumber
    ensures !Sent(t.wire, m)
  {
    forall i | 0 <= i < |t.wire|
      ensures t.wire[i].seqno != m
    {
      if i < |s.wire| { assert t.wire[i] == s.wire[i]; }
    }
  }

  lemma ExpectedStops(c: Client, p: Packet, m: nat)
    requires c.expectedSeqno <= m && (p.data != [] ==> p.seqno != m)
    ensures Receive(c, p).0.expectedSeqno <= m
  {
  }

  lemma GoneData(z: Sys, all: seq<Packet>, d: bytes, m: nat, timer: bool)
    requires SysInv(z, all) && Gone(z, m, timer) && OnWire(z, d) && Decode(d).Some?
    ensures Gone(ClientStep(z, Decode(d).value), m, timer)
  {
    if Decode(d).value.data != [] {
      WireNumber(z, all, d);
    }
    ExpectedStops(z.client, Decode(d).value, m);
  }

  lemma WireNumber(z: Sys, all: seq<Packet>, d: bytes)
    requires SysInv(z, all) && OnWire(z, d) && Decode(d).Some? && Decode(d).value.data != []
    ensures Sent(z.sender.wire, Decode(d).value.seqno)
  {
    if i :| 0 <= i < |z.sender.wire| && d == Encode(z.sender.wire[i]) {
      var p := z.sender.wire[i];
      assert p == all[p.seqno] && Sound(all[p.seqno]);
      DataRoundTripExact(p);
    } else {
      NothingLeft(z.sender, all);
      MarkerPacket(z.sender.nextSeqNumber);
    }
  }

  lemma GoneAck(z: Sys, all: seq<Packet>, k: uint32, net: Network, m: nat, timer: bool)
    requires SysInv(z, all) && Gone(z, m, timer)
    ensures Gone(z.(sender := Acknowledge(z.sender, k, net)), m, timer)
  {
    GoneNumber(z.sender, all, k, net, m);
  }

  lemma GoneNumber(s: Sender, all: seq<Packet>, k: nat, net: Network, m: nat)
    requires Sequential(all, 0) && Inv(s, all) && !Sent(s.wire, m) && m < s.nextSeqNumber
    ensures var t := Acknowledge(s, k, net);
            !Sent(t.wire, m) && t.Base() >= s.Base() && t.nextSeqNumber >= s.nextSeqNumber
  {
    AcknowledgeMoves(s, all, k, net);
    AcknowledgeWire(s, all, k, net);
    StillUnsent(s, Acknowledge(s, k, net), m);
  }

  lemma GoneResend(s: Sender, all: seq<Packet>, i: nat, outcome: Outcome, m: nat)
    requires Sequential(all, 0) && Inv(s, all) && i < |s.window| && m < s.Base() && !Sent(s.wire, m)
    ensures var t := SendPacket(s, i, outcome);
            !Sent(t.wire, m) && t.Base() == s.Base() && t.nextSeqNumber == s.nextSeqNumber
  {
    var t := SendPacket(s, i, outcome);
    assert s.window[i].pkt == all[s.Base() + i];
    forall j | 0 <= j < |t.wire|
      ensures t.wire[j].seqno != m
    {
      if j < |s.wire| { assert t.wire[j] == s.wire[j]; }
    }
  }

  lemma GoneLoss(wire: seq<Packet>, left: seq<Packet>, m: nat)
    requires !Sent(wire, m) && LeftOf(left, wire)
    ensures !Sent(left, m)
  {
    forall i | 0 <= i < |left|
      ensures left[i].seqno != m
    {
      assert Contains(wire, left[i]);
    }
  }

  lemma GoneStep(z: Sys, all: seq<Packet>, step: Step, m: nat, timer: bool)
    requires SysInv(z, all) && Gone(z, m, timer) && Allowed(z, step, timer)
    ensures SysInv(Apply(z, step), all) && Gone(Apply(z, step), m, timer)
  {
    StepKeeps(z, all, step);
    if Enabled(z, step) {
      match step
      case DataArrives(d) => GoneData(z, all, d, m, timer);
      case AckArrives(r, net) =>
        CarriedAck(z, r, net);
        GoneAck(z, all, DecodeAck(r).ackno, net, m, timer);
      case AckLost(k) =>
      case DataLost(wire) => GoneLoss(z.sender.wire, wire, m);
      case Resend(i, outcome) => GoneResend(z.sender, all, i, outcome, m);
      case TransferEnds =>
    }
  }

  lemma {:induction false} GoneForever(z: Sys, all: seq<Packet>, steps: seq<Step>, m: nat, timer: bool)
    requires SysInv(z, all) && Gone(z, m, timer) && CleanRun(z, steps, timer)
    ensures !Whole(Exec(z, steps), all)
    decreases |steps|
  {
    if steps != [] {
      GoneStep(z, all, steps[0], m, timer);
      GoneForever(Apply(z, steps[0]), all, steps[1..], m, timer);
    }
  }

  lemma NotHopefulFails(z: Sys, all: seq<Packet>, timer: bool)
    requires SysInv(z, all) && !z.client.done && !Hopeful(z, timer)
    ensures !CanFinish(z, all, timer)
  {
    if steps :| CleanRun(z, steps, timer) && Whole(Exec(z, steps), all) {
      if Doomed(z) {
        DoomedForever(z, all, steps, timer);
      } else {
        var m :| z.client.expectedSeqno <= m < Sendable(z, timer) && !Sent(z.sender.wire, m);
        GoneForever(z, all, steps, m, timer);
      }
    }
  }

  // ---------- otherwise it can be finished ----------

  /** One allowed step before a run that finishes. */
  lemma FinishAfter(z: Sys, all: seq<Packet>, step: Step, timer: bool)
    requires Allowed(z, step, timer) && CanFinish(Apply(z, step), all, timer)
    ensures CanFinish(z, all, timer)
  {
    var steps :| CleanRun(Apply(z, step), steps, timer) && Whole(Exec(Apply(z, step), steps), all);
    var longer := [step] + steps;
    assert longer[0] == step && longer[1..] == steps;
    assert CleanRun(z, longer, timer) && Exec(z, longer) == Exec(Apply(z, step), steps);
  }

  lemma WholeFinishes(z: Sys, all: seq<Packet>, timer: bool)
    requires Whole(z, all)
    ensures CanFinish(z, all, timer)
  {
    var none: seq<Step> := [];
    assert CleanRun(z, none, timer) && Exec(z, none) == z;
  }

  lemma MarkerFinishes(z: Sys, all: seq<Packet>, timer: bool)
    requires SysInv(z, all) && Roomy(z, all) && !z.client.done && z.endSent && z.client.expectedSeqno == |all|
    ensures CanFinish(z, all, timer)
  {
    NothingLeft(z.sender, all);
    MarkerPacket(z.sender.nextSeqNumber);
    var p := EndMarker(z.sender.nextSeqNumber);
    ExpectedIsInWindow(z.client, |all|);
    assert Enabled(z, DataArrives(Encode(p)));
    EmptyPacketEnds(z, p);
    WholeFinishes(Apply(z, DataArrives(Encode(p))), all, timer);
    FinishAfter(z, all, DataArrives(Encode(p)), timer);
  }

  lemma EmptyFinishes(z: Sys, all: seq<Packet>, timer: bool)
    requires SysInv(z, all) && Roomy(z, all) && !z.client.done
    requires z.sender.window == [] && z.client.expectedSeqno == z.sender.nextSeqNumber
    ensures CanFinish(z, all, timer)
  {
    NothingLeft(z.sender, all);
    if z.endSent {
      MarkerFinishes(z, all, timer);
    } else {
      StepKeeps(z, all, TransferEnds);
      MarkerFinishes(Apply(z, TransferEnds), all, timer);
      FinishAfter(z, all, TransferEnds, timer);
    }
  }

  /** A releasing ACK over a lossless network advances the base, and there is hope again. */
  lemma ReleaseMove(z: Sys, all: seq<Packet>, k: uint32, net: Network, timer: bool)
    requires SysInv(z, all) && z.sender.window != [] && k in z.acks && Releases(z.sender, k)
    requires z.client.expectedSeqno == z.sender.nextSeqNumber && Lossless(net)
    ensures AckCarried(z.acks, EncodeAck(MakeAck(k)))
    ensures var y := Apply(z, AckArrives(EncodeAck(MakeAck(k)), net));
            SysInv(y, all) && y.client == z.client && y.sender.Base() > z.sender.Base() && Hopeful(y, timer)
  {
    var r := EncodeAck(MakeAck(k));
    NumberCarried(z.acks, k);
    StepKeeps(z, all, AckArrives(r, net));
    CarriedAck(z, r, net);
    ReleasedNumber(z.sender, all, k, net);
  }

  lemma ReleasedNumber(s: Sender, all: seq<Packet>, k: nat, net: Network)
    requires Sequential(all, 0) && Inv(s, all) && s.window != [] && Releases(s, k) && Lossless(net)
    ensures var t := Acknowledge(s, k, net);
            && t.Base() > s.Base() && AllSent(t.wire, s.nextSeqNumber, t.nextSeqNumber)
            && t.Base() <= s.nextSeqNumber && (t.window != [] ==> t.nextSeqNumber > s.nextSeqNumber)
  {
    AcknowledgeMoves(s, all, k, net);
    AcknowledgeWire(s, all, k, net);
  }

  lemma ReleasedFinishes(z: Sys, all: seq<Packet>, k: uint32, timer: bool)
    requires SysInv(z, all) && Roomy(z, all) && !z.client.done && z.sender.window != []
    requires z.client.expectedSeqno == z.sender.nextSeqNumber && k in z.acks && Releases(z.sender, k)
    ensures CanFinish(z, all, timer)
    decreases |all| - z.sender.Base(), 0, 0
  {
    var net: Network := _ => Outcome.Delivered;
    var step := AckArrives(EncodeAck(MakeAck(k)), net);
    ReleaseMove(z, all, k, net, timer);
    HopefulFinishes(Apply(z, step), all, timer);
    FinishAfter(z, all, step, timer);
  }

  /** Nothing else is missing, so the next packet of the file reaches the client. */
  lemma {:induction false} SentFinishes(z: Sys, all: seq<Packet>, timer: bool)
    requires SysInv(z, all) && Roomy(z, all) && !z.client.done
    requires z.client.expectedSeqno < z.sender.nextSeqNumber && Sent(z.sender.wire, z.client.expectedSeqno)
    requires AllSent(z.sender.wire, z.client.expectedSeqno, Sendable(z, timer))
    ensures CanFinish(z, all, timer)
    decreases |all| - z.sender.Base(), 1, z.sender.nextSeqNumber - z.client.expectedSeqno, 0
  {
    var d := Encode(all[z.client.expectedSeqno]);
    DeliverMove(z, all);
    var y := Apply(z, DataArrives(d));
    if Doomed(y) {
      assert z.client.expectedSeqno in y.acks;
      assert Releases(y.sender, z.client.expectedSeqno);
      assert false;
    }
    HopefulFinishes(y, all, timer);
    FinishAfter(z, all, DataArrives(d), timer);
  }

  lemma {:induction false} HopefulFinishes(z: Sys, all: seq<Packet>, timer: bool)
    requires SysInv(z, all) && Roomy(z, all) && !z.client.done && Hopeful(z, timer)
    ensures CanFinish(z, all, timer)
    decreases |all| - z.sender.Base(), 1, z.sender.nextSeqNumber - z.client.expectedSeqno, 1
  {
    if z.client.expectedSeqno == z.sender.nextSeqNumber {
      if z.sender.window == [] {
        EmptyFinishes(z, all, timer);
      } else {
        var k: uint32 :| k in z.acks && Releases(z.sender, k);
        ReleasedFinishes(z, all, k, timer);
      }
    } else if z.client.expectedSeqno < Sendable(z, timer) {
      assert Sent(z.sender.wire, z.client.expectedSeqno);
      SentFinishes(z, all, timer);
    } else {
      ResendMove(z, all);
      SentFinishes(Resent(z), all, timer);
      FinishAfter(z, all, Resend(Missing(z), Outcome.Delivered), timer);
    }
  }

  // ---------- the theorems ----------

  /** The client has stopped, with the whole file. */
  ghost predicate HasFile(c: Client, file: bytes) {
    c.done && Flatten(c.written) == file
  }

  /** CanFinish in terms of the file. */
  lemma CanFinishMeans(file: bytes, z: Sys, timer: bool)
    requires |Chunks(file)| < 0x1_0000_0000 && Reachable(file, z)
    ensures CanFinish(z, Numbered(Chunks(file), 0), timer)
       <==> exists steps :: CleanRun(z, steps, timer) && HasFile(Exec(z, steps).client, file)
  {
    var all := Numbered(Chunks(file), 0);
    ReachableHolds(file, z);
    if steps :| CleanRun(z, steps, timer) && Whole(Exec(z, steps), all) {
      RunKeeps(z, all, steps);
      WholeIffAll(file, Exec(z, steps));
      assert HasFile(Exec(z, steps).client, file);
    }
    if steps :| CleanRun(z, steps, timer) && HasFile(Exec(z, steps).client, file) {
      RunKeeps(z, all, steps);
      WholeIffAll(file, Exec(z, steps));
      assert Whole(Exec(z, steps), all);
    }
  }

  /** Exactly when an unfinished transfer can still end with the whole file, in every state of
      every run, whatever was lost, damaged or misled before: the sender is not waiting for an
      ACK that nobody will send, and every packet the client still needs is in flight or can
      be sent again. Without the timer no packet is sent twice. */
  lemma CanFinishIff(file: bytes, z: Sys, timer: bool)
    requires |Chunks(file)| < 0x1_0000_0000 && Reachable(file, z) && Roomy(z, Numbered(Chunks(file), 0))
    requires !z.client.done
    ensures CanFinish(z, Numbered(Chunks(file), 0), timer)
       <==> !Doomed(z) && AllSent(z.sender.wire, z.client.expectedSeqno, Sendable(z, timer))
  {
    var all := Numbered(Chunks(file), 0);
    ReachableHolds(file, z);
    if Hopeful(z, timer) {
      HopefulFinishes(z, all, timer);
    } else {
      NotHopefulFails(z, all, timer);
    }
  }

  lemma SendWire(s: Sender, i: nat, outcome: Outcome, k: nat)
    requires i < |s.window|
    ensures Sent(SendPacket(s, i, outcome).wire, k)
       <==> Sent(s.wire, k) || (outcome != Lost && s.window[i].pkt.seqno == k)
  {
    var t := SendPacket(s, i, outcome);
    if j :| 0 <= j < |s.wire| && s.wire[j].seqno == k {
      assert t.wire[j].seqno == k;
    }
    if outcome != Lost {
      assert t.wire[|s.wire|] == s.window[i].pkt;
    }
    if j :| 0 <= j < |t.wire| && t.wire[j].seqno == k {
      if j < |s.wire| { assert s.wire[j].seqno == k; }
    }
  }

  lemma {:induction false} StartWire(s: Sender, i: nat, net: Network, k: nat)
    requires i <= |s.window| && s.clock == i
    requires forall j :: 0 <= j < |s.window| ==> s.window[j].pkt.seqno == j
    ensures Sent(StartFrom(s, i, net).wire, k) <==> Sent(s.wire, k) || (i <= k < |s.window| && net(k) != Lost)
    decreases |s.window| - i
  {
    if i < |s.window| {
      SendWire(s, i, net(i), k);
      StartWire(SendPacket(s, i, net(i)), i + 1, net, k);
    }
  }

  /** Without the timer a transfer can end just when none of the first sends is lost. */
  lemma StartFinishesIff(file: bytes, clientWindow: nat, net: Network)
    requires |Chunks(file)| + clientWindow < 0x1_0000_0000 && clientWindow >= 1
    ensures CanFinish(Start(Numbered(Chunks(file), 0), clientWindow, net), Numbered(Chunks(file), 0), false)
       <==> forall k :: 0 <= k < Min(DEFAULT_WINDOW_SIZE, |Chunks(file)|) ==> net(k) != Lost
  {
    var all := Numbered(Chunks(file), 0);
    var z := Start(all, clientWindow, net);
    var none: seq<Step> := [];
    assert z == Exec(Start(all, clientWindow, net), none);
    FileStream(file);
    StartKeeps(all, net);
    CanFinishIff(file, z, false);
    forall k | 0 <= k < z.sender.nextSeqNumber
      ensures Sent(z.sender.wire, k) <==> net(k) != Lost
    {
      StartWire(Initial(all), 0, net, k);
    }
  }

  // ---------- the dead end is always near ----------

  /** Nothing but ACKs is lost in this step. */
  ghost predicate LosesOnlyAcks(step: Step) {
    && !step.DataLost? && (step.Resend? ==> step.outcome != Lost)
    && (step.AckArrives? ==> Lossless(step.net))
  }

  ghost predicate OnlyAcksLost(steps: seq<Step>) {
    forall i :: 0 <= i < |steps| ==> LosesOnlyAcks(steps[i])
  }

  ghost predicate CanBeLost(z: Sys, all: seq<Packet>) {
    exists steps :: CleanRun(z, steps, true) && OnlyAcksLost(steps) && !CanFinish(Exec(z, steps), all, true)
  }

  lemma LostAfter(z: Sys, all: seq<Packet>, step: Step)
    requires Allowed(z, step, true) && LosesOnlyAcks(step) && CanBeLost(Apply(z, step), all)
    ensures CanBeLost(z, all)
  {
    var steps :| CleanRun(Apply(z, step), steps, true) && OnlyAcksLost(steps)
                 && !CanFinish(Exec(Apply(z, step), steps), all, true);
    var longer := [step] + steps;
    assert longer[0] == step && longer[1..] == steps;
    assert CleanRun(z, longer, true) && Exec(z, longer) == Exec(Apply(z, step), steps);
  }

  lemma HopelessIsLost(z: Sys, all: seq<Packet>)
    requires !CanFinish(z, all, true)
    ensures CanBeLost(z, all)
  {
    var none: seq<Step> := [];
    assert CleanRun(z, none, true) && OnlyAcksLost(none) && Exec(z, none) == z;
  }

  /** Losing every ACK in flight dooms a sender whose window the client already has. */
  lemma {:induction false} LosingAcksDooms(z: Sys, all: seq<Packet>)
    requires SysInv(z, all) && z.sender.window != [] && !z.client.done
    requires z.client.expectedSeqno == z.sender.nextSeqNumber
    ensures CanBeLost(z, all)
    decreases |z.acks|
  {
    if z.acks == {} {
      NotHopefulFails(z, all, true);
      HopelessIsLost(z, all);
    } else {
      var k: uint32 :| k in z.acks;
      StepKeeps(z, all, AckLost(k));
      LosingAcksDooms(Apply(z, AckLost(k)), all);
      LostAfter(z, all, AckLost(k));
    }
  }

  lemma {:induction false} CanBeLostFrom(z: Sys, all: seq<Packet>)
    requires SysInv(z, all) && Roomy(z, all) && z.sender.window != [] && !z.client.done
    ensures CanBeLost(z, all)
    decreases z.sender.nextSeqNumber - z.client.expectedSeqno, 1
  {
    if z.client.expectedSeqno == z.sender.nextSeqNumber {
      LosingAcksDooms(z, all);
    } else if Sent(z.sender.wire, z.client.expectedSeqno) {
      DeliveredThenLost(z, all);
    } else if InStep(z) {
      ResendMove(z, all);
      DeliveredThenLost(Resent(z), all);
      LostAfter(z, all, Resend(Missing(z), Outcome.Delivered));
    } else {
      NotHopefulFails(z, all, true);
      HopelessIsLost(z, all);
    }
  }

  lemma DeliveredThenLost(z: Sys, all: seq<Packet>)
    requires SysInv(z, all) && Roomy(z, all) && z.sender.window != [] && !z.client.done
    requires z.client.expectedSeqno < z.sender.nextSeqNumber && Sent(z.sender.wire, z.client.expectedSeqno)
    ensures CanBeLost(z, all)
    decreases z.sender.nextSeqNumber - z.client.expectedSeqno, 0
  {
    DeliverMove(z, all);
    var d := DataArrives(Encode(all[z.client.expectedSeqno]));
    CanBeLostFrom(Apply(z, d), all);
    LostAfter(z, all, d);
  }

  /** From every state with a packet still in the window, a run that loses nothing but ACKs
      leads to a state that cannot end with the whole file any more, even with the timer. */
  lemma DeadEndIsNear(file: bytes, z: Sys)
    requires |Chunks(file)| < 0x1_0000_0000 && Reachable(file, z) && Roomy(z, Numbered(Chunks(file), 0))
    requires z.sender.window != [] && !z.client.done
    ensures exists steps :: CleanRun(z, steps, true) && OnlyAcksLost(steps)
                            && !CanFinish(Exec(z, steps), Numbered(Chunks(file), 0), true)
  {
    ReachableHolds(file, z);
    CanBeLostFrom(z, Numbered(Chunks(file), 0));
  }
}
