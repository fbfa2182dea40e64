/** Liveness of the Selective Repeat transfer: no reachable dead end whatever has been lost, and
    completion of every fair infinite run. */
module Progress {
  import opened Bytes
  import opened DataPackets
  import opened PacketBuilders
  import opened SenderParts
  import opened SelectiveRepeat
  import opened SelectiveRepeatInvariant
  import opened Networks
  import opened Receiver
  import opened Transfer

  // ---------- the three moves that advance the base ----------

  /** The client has acknowledged the packet at the sender's base. */
  ghost predicate BaseAcked(z: Sys) {
    z.sender.packetsSent + 1 in z.acks
  }

  /** While packets are waiting for their ACK the timer may fire, and it resends the front. */
  lemma TimerResendsFront(z: Sys, all: seq<Packet>, net: Network)
    requires SysInv(z, all) && z.sender.window != [] && net(z.sender.clock) != Lost
    ensures var y := Apply(z, TimerFires(net));
            && SysInv(y, all) && y.client == z.client && y.sender.window != []
            && y.sender.packetsSent == z.sender.packetsSent < |all|
            && y.sender.wire == z.sender.wire + [all[z.sender.packetsSent]]
  {
    WindowIffTimer(z.sender, all);
    HandleTimeOutKeeps(z.sender, all, net);
    TimerKeeps(z, all, net);
    assert z.sender.window[0].pkt == all[z.sender.packetsSent];
  }

  /** The client answers the packet at the sender's base whatever it has seen and acknowledged
      before: it is either the one expected next, or an old one, and never one that is only
      buffered. */
  lemma BaseIsAnswered(z: Sys, all: seq<Packet>)
    requires SysInv(z, all) && z.sender.window != [] && z.sender.packetsSent < |all|
    ensures Receive(z.client, all[z.sender.packetsSent]).1 == AckOf(z.sender.packetsSent + 1)
    ensures var y := ClientStep(z, all[z.sender.packetsSent]);
            && SysInv(y, all) && y.sender == z.sender && BaseAcked(y)
  {
    var p := all[z.sender.packetsSent];
    NeverOutruns(z, all);
    assert Sound(p) && Known(p, z.sender.nextSeqNumber, all);
    StreamPacketArrives(z, all, p);
    AnsweredIfDue(z.client, p);
  }

  lemma AnsweredIfDue(c: Client, p: Packet)
    requires ClientInv(c) && Sound(p) && p.seqno <= c.expectedSeqno
    ensures Receive(c, p).1 == AckOf(p.seqno)
  {
    assert p.seqno !in c.window || p.seqno < c.expectedSeqno;
  }

  lemma DeliverIntact(z: Sys, p: Packet)
    requires !z.client.done && OnWire(z, Encode(p)) && p.Packable()
    ensures Enabled(z, DataArrives(Encode(p))) && Decode(Encode(p)) == Some(p)
    ensures Apply(z, DataArrives(Encode(p))) == ClientStep(z, p)
  {
    DataRoundTripExact(p);
  }

  lemma BaseDelivered(z: Sys, all: seq<Packet>)
    requires SysInv(z, all) && z.sender.window != [] && z.sender.packetsSent < |all|
    requires OnWire(z, Encode(all[z.sender.packetsSent]))
    ensures var y := Apply(z, DataArrives(Encode(all[z.sender.packetsSent])));
            && SysInv(y, all) && y.sender == z.sender && BaseAcked(y)
    ensures Enabled(z, DataArrives(Encode(all[z.sender.packetsSent])))
    ensures Decode(Encode(all[z.sender.packetsSent])) == Some(all[z.sender.packetsSent])
  {
    assert Sound(all[z.sender.packetsSent]) && !z.client.done;
    DeliverIntact(z, all[z.sender.packetsSent]);
    BaseIsAnswered(z, all);
  }

  /** The ACK of the front pops it. */
  lemma AckOfBaseAdvances(z: Sys, all: seq<Packet>, net: Network)
    requires SysInv(z, all) && z.sender.window != [] && BaseAcked(z)
    ensures var y := Apply(z, AckArrives(EncodeAck(MakeAck(z.sender.packetsSent + 1)), net));
            SysInv(y, all) && y.sender.packetsSent > z.sender.packetsSent
  {
    var k: uint32 := z.sender.packetsSent + 1;
    var a := MakeAck(k);
    AckRoundTripExact(a);
    assert AckOnWire(z, EncodeAck(a));
    AckKeeps(z, all, EncodeAck(a), net);
    IndexOfNumber(z.sender, all, 0);
    assert Accepts(z.sender, a);
    AcknowledgeKeeps(z.sender, all, a, net, Accepted(z.client));
  }

  // ---------- finite schedules ----------

  ghost predicate StepsTo(z: Sys, step: Step, y: Sys) {
    y == Apply(z, step)
  }

  ghost predicate PathAt(zs: seq<Sys>, steps: seq<Step>, i: nat)
    requires |zs| == |steps| + 1 && i < |steps|
  {
    StepsTo(zs[i], steps[i], zs[i + 1])
  }

  /** The states a finite schedule goes through. */
  ghost predicate Path(zs: seq<Sys>, steps: seq<Step>) {
    |zs| == |steps| + 1 && forall i :: 0 <= i < |steps| ==> PathAt(zs, steps, i)
  }

  lemma {:induction false} PathIsExec(zs: seq<Sys>, steps: seq<Step>)
    requires Path(zs, steps)
    ensures zs[|steps|] == Exec(zs[0], steps)
    decreases |steps|
  {
    if steps != [] {
      assert PathAt(zs, steps, 0);
      forall i | 0 <= i < |steps| - 1
        ensures PathAt(zs[1..], steps[1..], i)
      {
        assert PathAt(zs, steps, i + 1);
      }
      PathIsExec(zs[1..], steps[1..]);
    }
  }

  lemma JoinPaths(xs: seq<Sys>, a: seq<Step>, ys: seq<Sys>, b: seq<Step>)
    requires Path(xs, a) && Path(ys, b) && xs[|a|] == ys[0]
    ensures Path(xs + ys[1..], a + b)
    ensures (xs + ys[1..])[0] == xs[0] && (xs + ys[1..])[|a + b|] == ys[|b|]
  {
    var zs, steps := xs + ys[1..], a + b;
    forall i | 0 <= i < |steps|
      ensures PathAt(zs, steps, i)
    {
      if i < |a| {
        assert PathAt(xs, a, i);
      } else {
        assert zs[i] == ys[i - |a|] && zs[i + 1] == ys[i + 1 - |a|];
        assert PathAt(ys, b, i - |a|);
      }
    }
  }

  ghost predicate GoodState(zs: seq<Sys>, all: seq<Packet>, i: nat)
    requires i < |zs|
  {
    SysInv(zs[i], all)
  }

  ghost predicate GoodStates(zs: seq<Sys>, all: seq<Packet>) {
    forall i :: 0 <= i < |zs| ==> GoodState(zs, all, i)
  }

  lemma {:induction false} SomePath(z: Sys, steps: seq<Step>) returns (zs: seq<Sys>)
    ensures Path(zs, steps) && zs[0] == z
    decreases |steps|
  {
    if steps == [] {
      zs := [z];
    } else {
      var rest := SomePath(Apply(z, steps[0]), steps[1..]);
      zs := [z] + rest;
      forall i | 0 <= i < |steps|
        ensures PathAt(zs, steps, i)
      {
        if i > 0 { assert PathAt(rest, steps[1..], i - 1); }
      }
    }
  }

  /** The first n + 1 states are good. */
  ghost predicate GoodPrefix(zs: seq<Sys>, all: seq<Packet>, n: nat)
    requires n < |zs|
  {
    forall i :: 0 <= i <= n ==> GoodState(zs, all, i)
  }

  lemma GoodOneMore(zs: seq<Sys>, all: seq<Packet>, steps: seq<Step>, n: nat)
    requires Path(zs, steps) && n < |steps| && GoodPrefix(zs, all, n)
    ensures GoodPrefix(zs, all, n + 1)
  {
    assert PathAt(zs, steps, n) && GoodState(zs, all, n);
    StepKeeps(zs[n], all, steps[n]);
  }

  lemma {:induction false} PathIsGood(zs: seq<Sys>, all: seq<Packet>, steps: seq<Step>, n: nat)
    requires Path(zs, steps) && n < |zs| && GoodPrefix(zs, all, 0)
    ensures GoodPrefix(zs, all, n)
  {
    if n > 0 {
      PathIsGood(zs, all, steps, n - 1);
      GoodOneMore(zs, all, steps, n - 1);
    }
  }

  /** Every schedule has its path, and the invariant holds along it. */
  lemma PathOf(z: Sys, all: seq<Packet>, steps: seq<Step>) returns (zs: seq<Sys>)
    requires SysInv(z, all)
    ensures Path(zs, steps) && zs[0] == z && GoodStates(zs, all)
  {
    zs := SomePath(z, steps);
    assert GoodState(zs, all, 0);
    PathIsGood(zs, all, steps, |steps|);
  }

  /** The client may receive the packet at the sender's base. */
  ghost predicate BaseOnWire(z: Sys, all: seq<Packet>) {
    z.sender.packetsSent < |all| && OnWire(z, Encode(all[z.sender.packetsSent]))
  }

  lemma TimerMove(z: Sys, all: seq<Packet>, net: Network, y: Sys)
    requires SysInv(z, all) && z.sender.window != [] && net(z.sender.clock) != Lost
    requires StepsTo(z, TimerFires(net), y)
    ensures y.sender.packetsSent == z.sender.packetsSent && y.sender.window != [] && BaseOnWire(y, all)
  {
    TimerResendsFront(z, all, net);
    assert y.sender.wire[|z.sender.wire|] == all[z.sender.packetsSent];
  }

  lemma DataMove(z: Sys, all: seq<Packet>, y: Sys)
    requires SysInv(z, all) && z.sender.window != [] && BaseOnWire(z, all)
    requires StepsTo(z, DataArrives(Encode(all[z.sender.packetsSent])), y)
    ensures y.sender == z.sender && BaseAcked(y)
  {
    BaseDelivered(z, all);
  }

  lemma AckMove(z: Sys, all: seq<Packet>, step: Step, y: Sys)
    requires SysInv(z, all) && z.sender.window != [] && BaseAcked(z)
    requires step.AckArrives? && step.reply == EncodeAck(MakeAck(z.sender.packetsSent + 1)) && StepsTo(z, step, y)
    ensures y.sender.packetsSent > z.sender.packetsSent
  {
    AckOfBaseAdvances(z, all, step.net);
    assert step == AckArrives(EncodeAck(MakeAck(z.sender.packetsSent + 1)), step.net);
  }

  /** Timeout, front packet, its ACK. */
  ghost predicate IsRescue(steps: seq<Step>, base: nat, clock: nat, all: seq<Packet>) {
    && |steps| == 3 && base < |all| < 0xFFFF_FFFF
    && steps[0].TimerFires? && steps[0].net(clock) != Lost
    && steps[1] == DataArrives(Encode(all[base]))
    && steps[2].AckArrives? && steps[2].reply == EncodeAck(MakeAck(base + 1))
  }

  lemma RescueSends(zs: seq<Sys>, all: seq<Packet>, steps: seq<Step>)
    requires Path(zs, steps) && GoodStates(zs, all) && zs[0].sender.window != []
    requires IsRescue(steps, zs[0].sender.packetsSent, zs[0].sender.clock, all)
    ensures zs[1].sender.packetsSent == zs[0].sender.packetsSent && zs[1].sender.window != [] && BaseOnWire(zs[1], all)
  {
    assert PathAt(zs, steps, 0) && GoodState(zs, all, 0);
    assert steps[0] == TimerFires(steps[0].net);
    TimerMove(zs[0], all, steps[0].net, zs[1]);
  }

  lemma RescueDelivers(zs: seq<Sys>, all: seq<Packet>, steps: seq<Step>)
    requires |steps| == 3 && Path(zs, steps) && GoodStates(zs, all)
    requires IsRescue(steps, zs[1].sender.packetsSent, zs[0].sender.clock, all)
    requires zs[1].sender.window != [] && BaseOnWire(zs[1], all)
    ensures zs[2].sender == zs[1].sender && BaseAcked(zs[2])
  {
    assert PathAt(zs, steps, 1) && GoodState(zs, all, 1);
    DataMove(zs[1], all, zs[2]);
  }

  lemma RescueAcks(zs: seq<Sys>, all: seq<Packet>, steps: seq<Step>)
    requires |steps| == 3 && Path(zs, steps) && GoodStates(zs, all)
    requires IsRescue(steps, zs[2].sender.packetsSent, zs[0].sender.clock, all)
    requires zs[2].sender.window != [] && BaseAcked(zs[2])
    ensures zs[3].sender.packetsSent > zs[2].sender.packetsSent
  {
    assert PathAt(zs, steps, 2) && GoodState(zs, all, 2);
    AckedMove(zs[2], all, steps[2], zs[3], zs[2].sender.packetsSent);
  }

  lemma AckedMove(z: Sys, all: seq<Packet>, step: Step, y: Sys, base: nat)
    requires SysInv(z, all) && z.sender.window != [] && BaseAcked(z) && StepsTo(z, step, y)
    requires step.AckArrives? && base == z.sender.packetsSent < 0xFFFF_FFFF
    requires step.reply == EncodeAck(MakeAck(base + 1))
    ensures y.sender.packetsSent > base
  {
    AckMove(z, all, step, y);
  }

  lemma RescuePath(zs: seq<Sys>, all: seq<Packet>, steps: seq<Step>)
    requires Path(zs, steps) && GoodStates(zs, all) && zs[0].sender.window != []
    requires IsRescue(steps, zs[0].sender.packetsSent, zs[0].sender.clock, all)
    ensures zs[3].sender.packetsSent > zs[0].sender.packetsSent
  {
    RescueSends(zs, all, steps);
    RescueDelivers(zs, all, steps);
    RescueAcks(zs, all, steps);
  }

  /** No dead end: in any reachable unfinished state, with anything lost for good on the way,
      the three steps advance the base, for every pattern of losses and loss events except one
      that drops the resent front. */
  lemma RescueAdvances(file: bytes, z: Sys, steps: seq<Step>)
    requires |Chunks(file)| + 1 < 0x1_0000_0000 && Reachable(file, z) && z.sender.window != []
    requires IsRescue(steps, z.sender.packetsSent, z.sender.clock, Numbered(Chunks(file), 1))
    ensures Exec(z, steps).sender.packetsSent > z.sender.packetsSent
  {
    var all := Numbered(Chunks(file), 1);
    ReachableHolds(file, z);
    var zs := PathOf(z, all, steps);
    RescuePath(zs, all, steps);
    PathIsExec(zs, steps);
  }

  /** A rescue without any loss. */
  lemma SomeRescue(z: Sys, all: seq<Packet>) returns (zs: seq<Sys>, steps: seq<Step>)
    requires SysInv(z, all) && z.sender.window != []
    ensures Path(zs, steps) && |steps| == 3 && zs[0] == z && SysInv(zs[3], all)
    ensures zs[3].sender.packetsSent > z.sender.packetsSent
  {
    var net: Network := _ => Delivered;
    var base := z.sender.packetsSent;
    NeverOutruns(z, all);
    assert base < |all|;
    steps := [TimerFires(net), DataArrives(Encode(all[base])), AckArrives(EncodeAck(MakeAck(base + 1)), net)];
    zs := PathOf(z, all, steps);
    RescuePath(zs, all, steps);
    assert GoodState(zs, all, 3);
  }

  /** Receiving the end marker sets done. */
  lemma MarkerDone(z: Sys, all: seq<Packet>)
    requires SysInv(z, all) && z.endSent
    ensures Apply(z, DataArrives(Encode(EndMarker(z.sender.nextSeqNumber)))).client.done
  {
    EmptyWindow(z.sender, all);
    MarkerPacket(z.sender.nextSeqNumber);
    if !z.client.done {
      MarkerArrives(z, all, EndMarker(z.sender.nextSeqNumber));
      assert OnWire(z, Encode(EndMarker(z.sender.nextSeqNumber)));
    }
  }

  lemma SomeEnding(z: Sys, all: seq<Packet>) returns (zs: seq<Sys>, steps: seq<Step>)
    requires SysInv(z, all) && z.sender.window == []
    ensures Path(zs, steps) && zs[0] == z && zs[|steps|].client.done
  {
    var d := Encode(EndMarker(z.sender.nextSeqNumber));
    steps := [TransferEnds, DataArrives(d)];
    zs := PathOf(z, all, steps);
    assert PathAt(zs, steps, 0) && PathAt(zs, steps, 1) && GoodState(zs, all, 1);
    MarkerDone(zs[1], all);
  }

  lemma {:induction false} CompletingSchedule(z: Sys, all: seq<Packet>) returns (zs: seq<Sys>, steps: seq<Step>)
    requires SysInv(z, all) && z.sender.packetsSent <= |all|
    ensures Path(zs, steps) && zs[0] == z && zs[|steps|].client.done
    decreases |all| - z.sender.packetsSent
  {
    if z.sender.window == [] {
      zs, steps := SomeEnding(z, all);
    } else {
      var first, rescue := SomeRescue(z, all);
      NeverOutruns(first[3], all);
      var rest, more := CompletingSchedule(first[3], all);
      JoinPaths(first, rescue, rest, more);
      zs, steps := first + rest[1..], rescue + more;
    }
  }

  /** From every reachable state, with anything lost for good on the way, some schedule
      delivers the whole file. */
  lemma NoDeadEnd(file: bytes, z: Sys)
    requires |Chunks(file)| + 1 < 0x1_0000_0000 && Reachable(file, z)
    ensures exists steps :: Exec(z, steps).client.done && Flatten(Exec(z, steps).client.written) == file
  {
    ReachableHolds(file, z);
    var all := Numbered(Chunks(file), 1);
    NeverOutruns(z, all);
    var zs, steps := CompletingSchedule(z, all);
    PathIsExec(zs, steps);
    RunKeeps(z, all, steps);
    DoneHasFile(file, Exec(z, steps));
  }

  lemma DoneHasFile(file: bytes, z: Sys)
    requires |Chunks(file)| + 1 < 0x1_0000_0000
    requires SysInv(z, Numbered(Chunks(file), 1)) && z.client.done
    ensures Flatten(z.client.written) == file
  {
    WrittenPieces(z, Chunks(file));
    PiecesAreFile(file, z.client.written);
  }

  // ---------- infinite runs ----------

  ghost predicate NextAt(run: nat -> Sys, schedule: nat -> Step, t: nat) {
    StepsTo(run(t), schedule(t), run(t + 1))
  }

  /** An infinite run, driven by a schedule of attempted steps. */
  ghost predicate IsRun(run: nat -> Sys, schedule: nat -> Step) {
    forall t: nat :: NextAt(run, schedule, t)
  }

  ghost predicate ResendsAt(run: nat -> Sys, schedule: nat -> Step, u: nat) {
    schedule(u).TimerFires? && schedule(u).net(run(u).sender.clock) != Lost
  }

  ghost predicate ResendsAfter(run: nat -> Sys, schedule: nat -> Step, t: nat) {
    exists u :: u >= t && ResendsAt(run, schedule, u)
  }

  ghost predicate ArrivesAt(schedule: nat -> Step, u: nat, d: bytes) {
    schedule(u) == DataArrives(d)
  }

  ghost predicate ArrivesAfter(schedule: nat -> Step, t: nat, d: bytes) {
    exists u :: u >= t && ArrivesAt(schedule, u, d)
  }

  ghost predicate AckArrivesAt(schedule: nat -> Step, u: nat, k: uint32) {
    schedule(u).AckArrives? && schedule(u).reply == EncodeAck(MakeAck(k))
  }

  ghost predicate AckArrivesAfter(schedule: nat -> Step, t: nat, k: uint32) {
    exists u :: u >= t && AckArrivesAt(schedule, u, k)
  }

  ghost predicate EndsAt(schedule: nat -> Step, u: nat) {
    schedule(u).TransferEnds?
  }

  ghost predicate EndsAfter(schedule: nat -> Step, t: nat) {
    exists u :: u >= t && EndsAt(schedule, u)
  }

  ghost predicate ArrivesForever(schedule: nat -> Step, d: bytes) {
    forall t: nat :: ArrivesAfter(schedule, t, d)
  }

  ghost predicate AckArrivesForever(schedule: nat -> Step, k: uint32) {
    forall t: nat :: AckArrivesAfter(schedule, t, k)
  }

  ghost predicate Appended(before: seq<Packet>, wire: seq<Packet>, p: Packet) {
    exists i :: |before| <= i < |wire| && wire[i] == p
  }

  /** The sender puts the packet on the wire at time t. */
  ghost predicate SentAt(run: nat -> Sys, t: nat, p: Packet) {
    Appended(run(t).sender.wire, run(t + 1).sender.wire, p)
  }

  ghost predicate SentAfter(run: nat -> Sys, t: nat, p: Packet) {
    exists u :: u >= t && SentAt(run, u, p)
  }

  ghost predicate SentForever(run: nat -> Sys, p: Packet) {
    forall t: nat :: SentAfter(run, t, p)
  }

  /** The step brings a datagram that the client answers with an ACK for k. */
  ghost predicate Answers(z: Sys, step: Step, k: uint32) {
    && step.DataArrives? && Enabled(z, step)
    && Receive(z.client, Decode(step.datagram).value).1 == AckOf(k)
  }

  /** The client sends an ACK with number k at time t. The quantifier keeps this closed in proofs
      that only pass it on. */
  ghost predicate AnswersAt(run: nat -> Sys, schedule: nat -> Step, t: nat, k: uint32) {
    forall z: Sys, step: Step :: z == run(t) && step == schedule(t) ==> Answers(z, step, k)
  }

  ghost predicate AnswersAfter(run: nat -> Sys, schedule: nat -> Step, t: nat, k: uint32) {
    exists u :: u >= t && AnswersAt(run, schedule, u, k)
  }

  ghost predicate AnswersForever(run: nat -> Sys, schedule: nat -> Step, k: uint32) {
    forall t: nat :: AnswersAfter(run, schedule, t, k)
  }

  ghost predicate MarkerReachesAt(run: nat -> Sys, schedule: nat -> Step, t: nat) {
    run(t).endSent && ArrivesAt(schedule, t, Encode(EndMarker(run(t).sender.nextSeqNumber)))
  }

  ghost predicate MarkerReaches(run: nat -> Sys, schedule: nat -> Step) {
    exists t: nat :: MarkerReachesAt(run, schedule, t)
  }

  /** The network may lose anything for good that is not sent again and again: infinitely many
      timeouts get their packet out; a packet that is sent infinitely often arrives infinitely
      often, and so does an ACK; the end marker, which is sent only once, arrives once; and the
      end of the transfer is noticed. */
  ghost predicate Fair(run: nat -> Sys, schedule: nat -> Step) {
    && (forall t: nat :: ResendsAfter(run, schedule, t))
    && (forall p :: SentForever(run, p) ==> ArrivesForever(schedule, Encode(p)))
    && (forall k: uint32 :: AnswersForever(run, schedule, k) ==> AckArrivesForever(schedule, k))
    && (forall t: nat :: run(t).endSent ==> MarkerReaches(run, schedule))
    && (forall t: nat :: EndsAfter(schedule, t))
  }

  /** What only ever grows along a run. */
  ghost predicate Later(z: Sys, y: Sys) {
    && Follows(z.sender, y.sender) && z.acks <= y.acks
    && (z.endSent ==> y.endSent && y.sender == z.sender) && (z.client.done ==> y.client.done)
  }

  lemma StepLater(z: Sys, all: seq<Packet>, step: Step)
    requires SysInv(z, all)
    ensures Later(z, Apply(z, step))
  {
    if Enabled(z, step) {
      match step
      case DataArrives(d) =>
      case AckArrives(r, net) => AckKeeps(z, all, r, net);
      case TimerFires(net) => TimerKeeps(z, all, net);
      case TransferEnds =>
    }
  }

  lemma NextHolds(run: nat -> Sys, all: seq<Packet>, schedule: nat -> Step, t: nat)
    requires IsRun(run, schedule) && SysInv(run(t), all)
    ensures SysInv(run(t + 1), all) && Later(run(t), run(t + 1))
  {
    assert NextAt(run, schedule, t);
    StepKeeps(run(t), all, schedule(t));
    StepLater(run(t), all, schedule(t));
  }

  ghost predicate GoodAt(run: nat -> Sys, all: seq<Packet>, t: nat) {
    SysInv(run(t), all)
  }

  /** The invariant holds throughout an infinite run. */
  ghost predicate Good(run: nat -> Sys, all: seq<Packet>) {
    forall t: nat :: GoodAt(run, all, t)
  }

  ghost predicate GoodUntil(run: nat -> Sys, all: seq<Packet>, t: nat) {
    forall u: nat :: u <= t ==> GoodAt(run, all, u)
  }

  lemma NextGood(run: nat -> Sys, all: seq<Packet>, schedule: nat -> Step, t: nat)
    requires IsRun(run, schedule) && GoodUntil(run, all, t)
    ensures GoodUntil(run, all, t + 1)
  {
    assert GoodAt(run, all, t);
    NextHolds(run, all, schedule, t);
  }

  lemma {:induction false} AtHolds(run: nat -> Sys, all: seq<Packet>, schedule: nat -> Step, t: nat)
    requires IsRun(run, schedule) && GoodUntil(run, all, 0)
    ensures GoodUntil(run, all, t)
  {
    if t > 0 {
      AtHolds(run, all, schedule, t - 1);
      NextGood(run, all, schedule, t - 1);
    }
  }

  lemma NextLater(run: nat -> Sys, all: seq<Packet>, schedule: nat -> Step, t: nat)
    requires IsRun(run, schedule) && Good(run, all)
    ensures Later(run(t), run(t + 1))
  {
    assert GoodAt(run, all, t);
    NextHolds(run, all, schedule, t);
  }

  lemma {:induction false} AtLater(run: nat -> Sys, all: seq<Packet>, schedule: nat -> Step, t: nat, u: nat)
    requires IsRun(run, schedule) && Good(run, all) && t <= u
    ensures Later(run(t), run(u))
    decreases u
  {
    if t < u {
      AtLater(run, all, schedule, t, u - 1);
      NextLater(run, all, schedule, u - 1);
      LaterTransitive(run(t), run(u - 1), run(u));
    }
  }

  lemma LaterTransitive(x: Sys, y: Sys, z: Sys)
    requires Later(x, y) && Later(y, z)
    ensures Later(x, z)
  {
  }

  /** As long as the base does not move, the window does not run empty. */
  lemma StillWaiting(run: nat -> Sys, all: seq<Packet>, t: nat, u: nat)
    requires Good(run, all) && run(t).sender.window != []
    requires run(u).sender.packetsSent == run(t).sender.packetsSent
    ensures run(u).sender.window != [] && run(t).sender.packetsSent < |all|
  {
    assert GoodAt(run, all, t) && GoodAt(run, all, u);
    if run(u).sender.window == [] { EmptyWindow(run(u).sender, all); }
  }

  lemma ContainedOnWire(z: Sys, p: Packet)
    requires Contains(z.sender.wire, p)
    ensures OnWire(z, Encode(p))
  {
  }

  lemma ContainsStays(z: Sys, y: Sys, p: Packet)
    requires Later(z, y) && Contains(z.sender.wire, p)
    ensures Contains(y.sender.wire, p)
  {
    var i :| 0 <= i < |z.sender.wire| && z.sender.wire[i] == p;
    assert y.sender.wire[i] == p;
  }

  // ---------- a sender that is stuck for ever ----------

  /** The base never moves again. */
  ghost predicate Stuck(run: nat -> Sys, t: nat) {
    forall u: nat :: u >= t ==> run(u).sender.packetsSent == run(t).sender.packetsSent
  }

  lemma ResendAt(run: nat -> Sys, all: seq<Packet>, schedule: nat -> Step, v: nat)
    requires IsRun(run, schedule) && Good(run, all) && run(v).sender.window != []
    requires ResendsAt(run, schedule, v)
    ensures run(v).sender.packetsSent < |all| && SentAt(run, v, all[run(v).sender.packetsSent])
  {
    assert GoodAt(run, all, v) && NextAt(run, schedule, v);
    TimerResendsFront(run(v), all, schedule(v).net);
    assert run(v + 1).sender.wire[|run(v).sender.wire|] == all[run(v).sender.packetsSent];
  }

  /** The packet at its base is sent for ever. */
  lemma StuckSends(run: nat -> Sys, all: seq<Packet>, schedule: nat -> Step, t: nat)
    requires IsRun(run, schedule) && Good(run, all) && Fair(run, schedule)
    requires run(t).sender.window != [] && Stuck(run, t)
    ensures run(t).sender.packetsSent < |all| && SentForever(run, all[run(t).sender.packetsSent])
  {
    StillWaiting(run, all, t, t);
    forall s: nat
      ensures SentAfter(run, s, all[run(t).sender.packetsSent])
    {
      var from := if s >= t then s else t;
      assert ResendsAfter(run, schedule, from);
      var v :| v >= from && ResendsAt(run, schedule, v);
      StillWaiting(run, all, t, v);
      ResendAt(run, all, schedule, v);
    }
  }

  lemma SentIsContained(run: nat -> Sys, t: nat, p: Packet)
    requires SentAt(run, t, p)
    ensures Contains(run(t + 1).sender.wire, p)
  {
  }

  /** Whenever that packet arrives the client answers it, old as it may be. */
  lemma AnswerAt(run: nat -> Sys, all: seq<Packet>, schedule: nat -> Step, v: nat, k: uint32)
    requires IsRun(run, schedule) && Good(run, all) && run(v).sender.window != []
    requires run(v).sender.packetsSent < |all| && Contains(run(v).sender.wire, all[run(v).sender.packetsSent])
    requires ArrivesAt(schedule, v, Encode(all[run(v).sender.packetsSent]))
    requires k == run(v).sender.packetsSent + 1
    ensures AnswersAt(run, schedule, v, k)
  {
    assert GoodAt(run, all, v);
    ContainedOnWire(run(v), all[run(v).sender.packetsSent]);
    BaseDelivered(run(v), all);
    BaseIsAnswered(run(v), all);
    assert Answers(run(v), schedule(v), k);
  }

  /** The packet at its base is answered for ever. */
  lemma StuckIsAnswered(run: nat -> Sys, all: seq<Packet>, schedule: nat -> Step, t: nat, k: uint32)
    requires IsRun(run, schedule) && Good(run, all) && Fair(run, schedule)
    requires run(t).sender.window != [] && Stuck(run, t) && k == run(t).sender.packetsSent + 1
    ensures AnswersForever(run, schedule, k)
  {
    StuckSends(run, all, schedule, t);
    var p := all[run(t).sender.packetsSent];
    assert SentAfter(run, t, p);
    var w :| w >= t && SentAt(run, w, p);
    SentIsContained(run, w, p);
    forall s: nat
      ensures AnswersAfter(run, schedule, s, k)
    {
      AnsweredAgain(run, all, schedule, t, w, s, k);
    }
  }

  lemma AnsweredAgain(
    run: nat -> Sys, all: seq<Packet>, schedule: nat -> Step, t: nat, w: nat, s: nat, k: uint32)
    requires IsRun(run, schedule) && Good(run, all) && t <= w
    requires run(t).sender.window != [] && Stuck(run, t) && k == run(t).sender.packetsSent + 1
    requires run(t).sender.packetsSent < |all| && Contains(run(w + 1).sender.wire, all[run(t).sender.packetsSent])
    requires ArrivesForever(schedule, Encode(all[run(t).sender.packetsSent]))
    ensures AnswersAfter(run, schedule, s, k)
  {
    var p := all[run(t).sender.packetsSent];
    var from := if s > w then s else w + 1;
    assert ArrivesAfter(schedule, from, Encode(p));
    var v :| v >= from && ArrivesAt(schedule, v, Encode(p));
    AtLater(run, all, schedule, w + 1, v);
    ContainsStays(run(w + 1), run(v), p);
    StillWaiting(run, all, t, v);
    AnswerAt(run, all, schedule, v, k);
  }

  lemma AckAt(run: nat -> Sys, all: seq<Packet>, schedule: nat -> Step, v: nat)
    requires IsRun(run, schedule) && Good(run, all) && run(v).sender.window != [] && BaseAcked(run(v))
    requires AckArrivesAt(schedule, v, run(v).sender.packetsSent + 1)
    ensures run(v + 1).sender.packetsSent > run(v).sender.packetsSent
  {
    assert GoodAt(run, all, v) && NextAt(run, schedule, v);
    AckMove(run(v), all, schedule(v), run(v + 1));
  }

  lemma AnswerInFlight(run: nat -> Sys, schedule: nat -> Step, t: nat, k: uint32)
    requires IsRun(run, schedule)
    ensures AnswersAt(run, schedule, t, k) ==> k in run(t + 1).acks
  {
    assert NextAt(run, schedule, t);
    assert AnswersAt(run, schedule, t, k) ==> Answers(run(t), schedule(t), k);
  }

  /** So its ACK arrives, and the sender was not stuck. */
  lemma NeverStuck(run: nat -> Sys, all: seq<Packet>, schedule: nat -> Step, t: nat)
    requires IsRun(run, schedule) && Good(run, all) && Fair(run, schedule) && run(t).sender.window != []
    ensures !Stuck(run, t)
  {
    if Stuck(run, t) {
      StillWaiting(run, all, t, t);
      assert GoodAt(run, all, t);
      var k: uint32 := run(t).sender.packetsSent + 1;
      StuckIsAnswered(run, all, schedule, t, k);
      assert AnswersAfter(run, schedule, t, k);
      var v :| v >= t && AnswersAt(run, schedule, v, k);
      assert AckArrivesAfter(schedule, v + 1, k);
      var w :| w >= v + 1 && AckArrivesAt(schedule, w, k);
      AnsweredMoves(run, all, schedule, t, v, w, k);
    }
  }

  lemma AnsweredMoves(
    run: nat -> Sys, all: seq<Packet>, schedule: nat -> Step, t: nat, v: nat, w: nat, k: uint32)
    requires IsRun(run, schedule) && Good(run, all) && t <= v < w && run(t).sender.window != []
    requires Stuck(run, t) && k == run(t).sender.packetsSent + 1
    requires AnswersAt(run, schedule, v, k) && AckArrivesAt(schedule, w, k)
    ensures run(w + 1).sender.packetsSent > run(t).sender.packetsSent
  {
    AnswerInFlight(run, schedule, v, k);
    AtLater(run, all, schedule, v + 1, w);
    StillWaiting(run, all, t, w);
    AckAt(run, all, schedule, w);
  }

  /** Under fairness the base moves for as long as the window is not empty. */
  lemma AdvancesLater(run: nat -> Sys, all: seq<Packet>, schedule: nat -> Step, t: nat) returns (u: nat)
    requires IsRun(run, schedule) && Good(run, all) && Fair(run, schedule) && run(t).sender.window != []
    ensures u >= t && run(u).sender.packetsSent > run(t).sender.packetsSent
  {
    NeverStuck(run, all, schedule, t);
    u :| u >= t && run(u).sender.packetsSent != run(t).sender.packetsSent;
    AtLater(run, all, schedule, t, u);
  }

  lemma BaseBound(run: nat -> Sys, all: seq<Packet>, t: nat)
    requires Good(run, all)
    ensures run(t).sender.packetsSent <= |all|
  {
    assert GoodAt(run, all, t);
    NeverOutruns(run(t), all);
  }

  lemma StaysEmpty(run: nat -> Sys, all: seq<Packet>, t: nat, u: nat)
    requires Good(run, all) && Later(run(t), run(u)) && run(t).sender.window == []
    ensures run(u).sender.window == []
  {
    assert GoodAt(run, all, t) && GoodAt(run, all, u);
    EmptyWindow(run(t).sender, all);
    NeverOutruns(run(u), all);
    if run(u).sender.window != [] { StillWaiting(run, all, u, t); }
  }

  lemma {:induction false} EmptiesLater(run: nat -> Sys, all: seq<Packet>, schedule: nat -> Step, t: nat)
    returns (u: nat)
    requires IsRun(run, schedule) && Good(run, all) && Fair(run, schedule)
    requires run(t).sender.packetsSent <= |all|
    ensures u >= t && run(u).sender.window == []
    decreases |all| - run(t).sender.packetsSent
  {
    if run(t).sender.window == [] {
      u := t;
    } else {
      var v := AdvancesLater(run, all, schedule, t);
      BaseBound(run, all, v);
      u := EmptiesLater(run, all, schedule, v);
    }
  }

  lemma EndAt(run: nat -> Sys, all: seq<Packet>, schedule: nat -> Step, v: nat)
    requires IsRun(run, schedule) && Good(run, all) && run(v).sender.window == [] && EndsAt(schedule, v)
    ensures run(v + 1).endSent
  {
    assert GoodAt(run, all, v) && NextAt(run, schedule, v);
  }

  lemma MarkerAt(run: nat -> Sys, all: seq<Packet>, schedule: nat -> Step, v: nat)
    requires IsRun(run, schedule) && Good(run, all) && run(v).endSent
    requires ArrivesAt(schedule, v, Encode(EndMarker(run(v).sender.nextSeqNumber)))
    ensures run(v + 1).client.done
  {
    assert GoodAt(run, all, v) && NextAt(run, schedule, v);
    MarkerDone(run(v), all);
  }

  /** Sooner or later the end marker is sent. */
  lemma EndLater(run: nat -> Sys, all: seq<Packet>, schedule: nat -> Step) returns (u: nat)
    requires IsRun(run, schedule) && Good(run, all) && Fair(run, schedule)
    ensures run(u).endSent
  {
    BaseBound(run, all, 0);
    var t := EmptiesLater(run, all, schedule, 0);
    assert EndsAfter(schedule, t);
    var v :| v >= t && EndsAt(schedule, v);
    AtLater(run, all, schedule, t, v);
    StaysEmpty(run, all, t, v);
    EndAt(run, all, schedule, v);
    u := v + 1;
  }

  lemma DoneLater(run: nat -> Sys, all: seq<Packet>, schedule: nat -> Step) returns (u: nat)
    requires IsRun(run, schedule) && Good(run, all) && Fair(run, schedule)
    ensures run(u).client.done
  {
    var v := EndLater(run, all, schedule);
    assert MarkerReaches(run, schedule);
    var w: nat :| MarkerReachesAt(run, schedule, w);
    MarkerAt(run, all, schedule, w);
    u := w + 1;
  }

  ghost predicate Finished(file: bytes, z: Sys) {
    z.client.done && Flatten(z.client.written) == file
  }

  ghost predicate FinishedFrom(file: bytes, run: nat -> Sys, u: nat) {
    forall t: nat :: t >= u ==> Finished(file, run(t))
  }

  lemma DoneIsFinished(file: bytes, run: nat -> Sys, t: nat)
    requires |Chunks(file)| + 1 < 0x1_0000_0000 && Good(run, Numbered(Chunks(file), 1)) && run(t).client.done
    ensures Finished(file, run(t))
  {
    assert GoodAt(run, Numbered(Chunks(file), 1), t);
    DoneHasFile(file, run(t));
  }

  /** Every fair infinite run from a reachable state ends with the client done for ever and
      the whole file written, whatever is repeated, reordered, damaged, or lost for good without
      being sent again for ever, and whatever loss events shrink the window. */
  lemma FairRunsComplete(file: bytes, run: nat -> Sys, schedule: nat -> Step)
    requires |Chunks(file)| + 1 < 0x1_0000_0000 && Reachable(file, run(0))
    requires IsRun(run, schedule) && Fair(run, schedule)
    ensures exists u: nat :: FinishedFrom(file, run, u)
  {
    var all := Numbered(Chunks(file), 1);
    ReachableGood(file, run, schedule);
    var u := DoneLater(run, all, schedule);
    forall t: nat | t >= u
      ensures Finished(file, run(t))
    {
      AtLater(run, all, schedule, u, t);
      DoneIsFinished(file, run, t);
    }
    assert FinishedFrom(file, run, u);
  }

  lemma ReachableGood(file: bytes, run: nat -> Sys, schedule: nat -> Step)
    requires |Chunks(file)| + 1 < 0x1_0000_0000 && Reachable(file, run(0)) && IsRun(run, schedule)
    ensures Good(run, Numbered(Chunks(file), 1))
  {
    var all := Numbered(Chunks(file), 1);
    ReachableHolds(file, run(0));
    forall t: nat
      ensures GoodAt(run, all, t)
    {
      AtHolds(run, all, schedule, t);
    }
  }
}
