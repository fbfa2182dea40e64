/** Exactly when a Stop-and-Wait transfer can still end with the whole file, and the completion
    of its fair runs. */
module StopAndWaitFinish {
  import opened Bytes
  import opened DataPackets
  import opened PacketBuilders
  import opened SenderParts
  import opened Networks
  import opened Receiver
  import opened StopAndWait
  import opened StopAndWaitTransfer
  import Progress

  /** The network damages nothing from now on. */
  ghost predicate Allowed(y: Sys, step: Wide.Step) {
    && (step.DataArrives? ==> OnWire(y, step.datagram))
    && (step.AckArrives? ==> AckCarried(y.acks, step.reply))
  }

  ghost predicate CleanRun(y: Sys, steps: seq<Wide.Step>)
    decreases |steps|
  {
    steps != [] ==> Allowed(y, steps[0]) && CleanRun(Apply(y, steps[0]), steps[1..])
  }

  ghost predicate Whole(y: Sys, all: seq<Packet>) {
    y.client.done && y.client.expectedSeqno == |all| + 1
  }

  ghost predicate CanFinish(y: Sys, all: seq<Packet>) {
    exists steps :: CleanRun(y, steps) && Whole(Exec(y, steps), all)
  }

  /** The client has the packet in its buffer, or it is in flight. */
  ghost predicate InReach(y: Sys, k: nat) {
    k in y.client.window || Sent(y.sender.wire, k)
  }

  /** Every packet that the sender has dropped too early is still in reach. */
  ghost predicate DroppedInReach(y: Sys) {
    forall k :: y.client.expectedSeqno <= k <= y.sender.packetsSent ==> InReach(y, k)
  }

  // ---------- what is gone stays gone ----------

  /** Packet m is popped, not on the wire, and not with the client. */
  ghost predicate Gone(y: Sys, m: nat) {
    1 <= m <= y.sender.packetsSent && m !in Accepted(y.client) && !Sent(y.sender.wire, m)
  }

  lemma StillUnsent(s: Sender, t: Sender, m: nat, lo: nat)
    requires SendsFrom(s, t, lo) && !Sent(s.wire, m) && m < lo
    ensures !Sent(t.wire, m)
  {
    forall i | 0 <= i < |t.wire|
      ensures t.wire[i].seqno != m
    {
      if i < |s.wire| { assert t.wire[i] == s.wire[i]; }
    }
  }

  lemma WireNumber(y: Sys, all: seq<Packet>, d: bytes)
    requires SysInv(y, all) && OnWire(y, d) && Decode(d).Some? && Decode(d).value.data != []
    ensures Sent(y.sender.wire, Decode(d).value.seqno)
  {
    if i :| 0 <= i < |y.sender.wire| && d == Encode(y.sender.wire[i]) {
      Wide.SentPacket(Lift(y.sender), all, i);
    } else {
      ExpectedBound(y, all);
      MarkerPacket(y.sender.nextSeqNumber);
    }
  }

  lemma GoneData(y: Sys, all: seq<Packet>, d: bytes, m: nat)
    requires SysInv(y, all) && Gone(y, m) && OnWire(y, d) && !y.client.done
    ensures Decode(d).Some? && Gone(ClientStep(y, Decode(d).value), m)
  {
    ExpectedBound(y, all);
    Wide.CarriedPacket(Lift(y.sender), all, y.endSent, d);
    var p := Decode(d).value;
    if p.data == [] {
      MarkerReceived(y.client, p);
      Wide.MarkDone(y.client, y.acks, all, y.sender.nextSeqNumber);
    } else {
      WireNumber(y, all, d);
      Wide.ClientAccepts(y.client, y.acks, all, y.sender.nextSeqNumber, p);
    }
  }

  lemma GoneStep(y: Sys, all: seq<Packet>, step: Wide.Step, m: nat)
    requires SysInv(y, all) && Gone(y, m) && Allowed(y, step)
    ensures SysInv(Apply(y, step), all) && Gone(Apply(y, step), m)
  {
    StepKeeps(y, all, step);
    if Enabled(y, step) {
      match step
      case DataArrives(d) => GoneData(y, all, d, m);
      case AckArrives(r, net) =>
        FrontNumber(y.sender, all);
        AcknowledgeMoves(y.sender, all, DecodeAck(r).ackno, net);
        if Apply(y, step).sender != y.sender {
          StillUnsent(y.sender, Apply(y, step).sender, m, y.sender.nextSeqNumber);
        }
      case TimerFires(net) =>
        ReadyIff(y.sender, all);
        TimeOutMoves(y.sender, all, net);
        StillUnsent(y.sender, Apply(y, step).sender, m, y.sender.packetsSent + 1);
      case TransferEnds =>
    }
  }

  lemma {:induction false} GoneForever(y: Sys, all: seq<Packet>, steps: seq<Wide.Step>, m: nat)
    requires SysInv(y, all) && Gone(y, m) && CleanRun(y, steps)
    ensures !Whole(Exec(y, steps), all)
    decreases |steps|
  {
    if steps != [] {
      GoneStep(y, all, steps[0], m);
      GoneForever(Apply(y, steps[0]), all, steps[1..], m);
    } else {
      ExpectedBound(y, all);
      PoppedInStream(y.sender, all);
    }
  }

  lemma PoppedInStream(s: Sender, all: seq<Packet>)
    requires Inv(s, all)
    ensures s.packetsSent <= |all|
  {
  }

  lemma NotInReachFails(y: Sys, all: seq<Packet>)
    requires SysInv(y, all) && !DroppedInReach(y)
    ensures !CanFinish(y, all)
  {
    var m: nat :| y.client.expectedSeqno <= m <= y.sender.packetsSent && !InReach(y, m);
    assert Gone(y, m);
    if steps :| CleanRun(y, steps) && Whole(Exec(y, steps), all) {
      GoneForever(y, all, steps, m);
    }
  }

  // ---------- otherwise it can be finished ----------

  lemma FinishAfter(y: Sys, all: seq<Packet>, step: Wide.Step)
    requires Allowed(y, step) && CanFinish(Apply(y, step), all)
    ensures CanFinish(y, all)
  {
    var steps :| CleanRun(Apply(y, step), steps) && Whole(Exec(Apply(y, step), steps), all);
    var longer := [step] + steps;
    assert longer[0] == step && longer[1..] == steps;
    assert CleanRun(y, longer) && Exec(y, longer) == Exec(Apply(y, step), steps);
  }

  /** The Selective Repeat system that looks the same. */
  function LiftSys(y: Sys): Wide.Sys {
    Wide.Sys(Lift(y.sender), y.client, y.acks, y.endSent)
  }

  lemma LiftIsPair(y: Sys, all: seq<Packet>)
    requires SysInv(y, all) && InStep(y) && !y.client.done
    ensures Pair(LiftSys(y), all) && Seen(LiftSys(y)) == y
  {
    IndexOfOne(y.sender, all);
    assert forall k :: 1 <= k < y.client.expectedSeqno ==> k in Accepted(y.client);
  }

  lemma DamagedAckIgnored(z: Wide.Sys, r: bytes, net: Network)
    requires !AckCarried(z.acks, r)
    ensures Wide.Apply(z, Wide.AckArrives(r, net)) == z
  {
  }

  lemma DamagedDataIgnored(z: Wide.Sys, d: bytes)
    requires !Wide.OnWire(z, d)
    ensures Wide.Apply(z, Wide.DataArrives(d)) == z
  {
    if Wide.Enabled(z, Wide.DataArrives(d)) {
      Wide.DamagedIgnored(z, Decode(d).value);
    }
  }

  lemma CleanStepSame(z: Wide.Sys, all: seq<Packet>, step: Wide.Step)
    requires Pair(z, all) && Allowed(Seen(z), step)
    ensures Apply(Seen(z), step) == Seen(Wide.Apply(z, step))
    ensures Single(Wide.Apply(z, step).sender, all)
  {
    match step
    case DataArrives(d) => DataSame(z, d);
    case AckArrives(r, net) =>
      if z.sender.window != [] {
        var k :| k in z.acks && r == EncodeAck(MakeAck(k));
        AckRoundTripExact(MakeAck(k));
        KnownAckSame(z, all, k, net);
      }
    case TimerFires(net) => TimerSame(z, all, net);
    case TransferEnds =>
  }

  /** Leaving out what is damaged turns a Selective Repeat schedule into one for Stop-and-Wait. */
  lemma {:induction false} CleanSchedule(z: Wide.Sys, all: seq<Packet>, steps: seq<Wide.Step>)
    returns (clean: seq<Wide.Step>)
    requires Pair(z, all)
    ensures CleanRun(Seen(z), clean) && Exec(Seen(z), clean) == Seen(Wide.Exec(z, steps))
    decreases |steps|
  {
    if steps == [] {
      clean := [];
    } else {
      var step := steps[0];
      Wide.StepKeeps(z, all, step);
      if Allowed(Seen(z), step) {
        CleanStepSame(z, all, step);
        var rest := CleanSchedule(Wide.Apply(z, step), all, steps[1..]);
        clean := [step] + rest;
        assert clean[0] == step && clean[1..] == rest;
      } else {
        if step.DataArrives? {
          DamagedDataIgnored(z, step.datagram);
        } else {
          DamagedAckIgnored(z, step.reply, step.net);
        }
        clean := CleanSchedule(z, all, steps[1..]);
      }
    }
  }

  /** A sender in step with the client can always finish. */
  lemma InStepFinishes(y: Sys, all: seq<Packet>)
    requires SysInv(y, all) && InStep(y) && !y.client.done
    ensures CanFinish(y, all)
  {
    var z := LiftSys(y);
    LiftIsPair(y, all);
    Wide.NeverOutruns(z, all);
    var zs, steps := Progress.CompletingSchedule(z, all);
    Progress.PathIsExec(zs, steps);
    Wide.RunKeeps(z, all, steps);
    var clean := CleanSchedule(z, all, steps);
    assert Whole(Exec(y, clean), all);
  }

  lemma SentIsOnWire(y: Sys, all: seq<Packet>, k: nat)
    requires Stream(all, 1) && Inv(y.sender, all) && Sent(y.sender.wire, k)
    ensures 1 <= k <= |all| && OnWire(y, Encode(all[k - 1])) && Facts.Known(all[k - 1], y.sender.nextSeqNumber, all)
    ensures Decode(Encode(all[k - 1])) == Some(all[k - 1]) && Sound(all[k - 1])
  {
    var i :| 0 <= i < |y.sender.wire| && y.sender.wire[i].seqno == k;
    WireFacts(y.sender, all, i);
    InWire(y, i, all[k - 1]);
  }

  lemma WireFacts(s: Sender, all: seq<Packet>, i: nat)
    requires Stream(all, 1) && Inv(s, all) && i < |s.wire|
    ensures var p := s.wire[i];
            && Facts.Known(p, s.nextSeqNumber, all) && p == all[p.seqno - 1] && Sound(p)
            && Decode(Encode(p)) == Some(p)
  {
    Wide.SentPacket(Lift(s), all, i);
  }

  lemma InWire(y: Sys, i: nat, p: Packet)
    requires i < |y.sender.wire| && p == y.sender.wire[i]
    ensures OnWire(y, Encode(p))
  {
  }

  /** The packet expected next arrives. */
  lemma DeliverMove(y: Sys, all: seq<Packet>)
    requires SysInv(y, all) && !y.client.done && Sent(y.sender.wire, y.client.expectedSeqno)
    ensures 1 <= y.client.expectedSeqno <= |all|
    ensures var d := Encode(all[y.client.expectedSeqno - 1]);
            var x := Apply(y, Wide.DataArrives(d));
            && OnWire(y, d) && SysInv(x, all) && x.sender == y.sender && !x.client.done
            && x.client.expectedSeqno > y.client.expectedSeqno && Accepted(y.client) <= Accepted(x.client)
  {
    var p := all[y.client.expectedSeqno - 1];
    SentIsOnWire(y, all, y.client.expectedSeqno);
    DeliverKnown(y, all, p);
    StreamPacketArrives(y, all, p);
    NextAccepted(y.client, y.acks, all, y.sender.nextSeqNumber, p);
  }

  lemma DeliverKnown(y: Sys, all: seq<Packet>, p: Packet)
    requires !y.client.done && OnWire(y, Encode(p)) && Decode(Encode(p)) == Some(p)
    ensures Apply(y, Wide.DataArrives(Encode(p))) == ClientStep(y, p)
  {
  }

  lemma NextAccepted(c: Client, acks: set<uint32>, all: seq<Packet>, bound: nat, p: Packet)
    requires Wide.ClientSound(c, acks, all, bound) && |all| < SEQNO_LIMIT
    requires Facts.Known(p, bound, all) && Sound(p) && p.seqno == c.expectedSeqno
    ensures var d := Receive(c, p).0; d.expectedSeqno > c.expectedSeqno && Accepted(c) <= Accepted(d)
  {
    LeastMissing(c);
    assert Fresh(c, p);
    Wide.StreamIsShort(c, p, all, bound);
    ReceiveRefines(c, p);
    assert c.expectedSeqno in Contents(Receive(c, p).0).Keys;
    Wide.ClientAccepts(c, acks, all, bound, p);
  }

  lemma {:induction false} InReachFinishes(y: Sys, all: seq<Packet>)
    requires SysInv(y, all) && !y.client.done && DroppedInReach(y)
    ensures CanFinish(y, all)
    decreases |all| + 1 - y.client.expectedSeqno
  {
    if InStep(y) {
      InStepFinishes(y, all);
    } else {
      assert InReach(y, y.client.expectedSeqno);
      DeliverMove(y, all);
      var step := Wide.DataArrives(Encode(all[y.client.expectedSeqno - 1]));
      StillInReach(y, Apply(y, step));
      ExpectedBound(Apply(y, step), all);
      InReachFinishes(Apply(y, step), all);
      FinishAfter(y, all, step);
    }
  }

  lemma StillInReach(y: Sys, x: Sys)
    requires DroppedInReach(y) && x.sender == y.sender && Accepted(y.client) <= Accepted(x.client)
    requires x.client.expectedSeqno >= y.client.expectedSeqno
    ensures DroppedInReach(x)
  {
    forall k | x.client.expectedSeqno <= k <= x.sender.packetsSent
      ensures InReach(x, k)
    {
      assert InReach(y, k);
      if k in y.client.window { assert k in Accepted(x.client); }
    }
  }

  /** Exactly when an unfinished transfer can still end with the whole file over a network that
      damages nothing from now on, in every state of every run, whatever ACKs came before and
      whatever has been lost for good: each packet that a misleading ACK made the sender drop is
      still in flight or buffered. */
  lemma CanFinishIff(file: bytes, clientWindow: nat, y: Sys)
    requires |Chunks(file)| + 1 < 0x1_0000_0000 && clientWindow >= 1 && Reachable(file, clientWindow, y)
    requires !y.client.done
    ensures CanFinish(y, Numbered(Chunks(file), 1))
       <==> forall k :: y.client.expectedSeqno <= k <= y.sender.packetsSent ==> InReach(y, k)
  {
    var all := Numbered(Chunks(file), 1);
    ReachableHolds(file, clientWindow, y);
    if DroppedInReach(y) {
      InReachFinishes(y, all);
    } else {
      NotInReachFails(y, all);
    }
  }

  ghost predicate HasFile(c: Client, file: bytes) {
    c.done && Flatten(c.written) == file
  }

  /** CanFinish in terms of the file. */
  lemma CanFinishMeans(file: bytes, clientWindow: nat, y: Sys)
    requires |Chunks(file)| + 1 < 0x1_0000_0000 && clientWindow >= 1 && Reachable(file, clientWindow, y)
    ensures CanFinish(y, Numbered(Chunks(file), 1))
       <==> exists steps :: CleanRun(y, steps) && HasFile(Exec(y, steps).client, file)
  {
    ReachableHolds(file, clientWindow, y);
    if steps :| CleanRun(y, steps) && Whole(Exec(y, steps), Numbered(Chunks(file), 1)) {
      WholeIffFile(file, y, steps);
      assert HasFile(Exec(y, steps).client, file);
    }
    if steps :| CleanRun(y, steps) && HasFile(Exec(y, steps).client, file) {
      WholeIffFile(file, y, steps);
      assert Whole(Exec(y, steps), Numbered(Chunks(file), 1));
    }
  }

  lemma WholeIffFile(file: bytes, y: Sys, steps: seq<Wide.Step>)
    requires |Chunks(file)| + 1 < 0x1_0000_0000 && SysInv(y, Numbered(Chunks(file), 1))
    ensures Whole(Exec(y, steps), Numbered(Chunks(file), 1)) <==> HasFile(Exec(y, steps).client, file)
  {
    var x := Exec(y, steps);
    RunKeeps(y, Numbered(Chunks(file), 1), steps);
    Wide.ClientPieces(x.client, x.acks, Chunks(file), x.sender.nextSeqNumber);
    PiecesAreFile(file, x.client.written);
  }

  /** After any run in which no ACK misled the sender, harmless damaged ones included, and with
      anything lost for good on the way, some schedule completes the transfer. */
  lemma StopAndWaitCanFinish(file: bytes, y: Sys)
    requires |Chunks(file)| + 1 < 0x1_0000_0000 && HonestlyReachable(file, y)
    ensures exists steps :: CleanRun(y, steps) && HasFile(Exec(y, steps).client, file)
  {
    var all := Numbered(Chunks(file), 1);
    var z := ReachableTwin(file, y);
    Wide.NeverOutruns(z, all);
    if y.client.done {
      HonestCompletion(file, y);
      var none: seq<Wide.Step> := [];
      assert CleanRun(y, none) && HasFile(Exec(y, none).client, file);
    } else {
      var clientWindow: nat, net: Network, events: seq<Wide.Event> :|
        && clientWindow >= 1 && Honest(Start(all, clientWindow, net), events)
        && y == OccurAll(Start(all, clientWindow, net), events);
      assert Reachable(file, clientWindow, y);
      CanFinishIff(file, clientWindow, y);
      CanFinishMeans(file, clientWindow, y);
    }
  }

  // ---------- fair infinite runs ----------

  ghost predicate NextAt(run: nat -> Sys, schedule: nat -> Wide.Step, t: nat) {
    run(t + 1) == Apply(run(t), schedule(t))
  }

  ghost predicate HonestAt(run: nat -> Sys, schedule: nat -> Wide.Step, t: nat) {
    !Misleads(run(t), schedule(t))
  }

  /** An infinite run in which no ACK misleads the sender. */
  ghost predicate IsHonestRun(run: nat -> Sys, schedule: nat -> Wide.Step) {
    forall t: nat :: NextAt(run, schedule, t) && HonestAt(run, schedule, t)
  }

  ghost predicate ResendsAt(run: nat -> Sys, schedule: nat -> Wide.Step, u: nat) {
    schedule(u).TimerFires? && schedule(u).net(run(u).sender.clock) != Lost
  }

  ghost predicate ResendsAfter(run: nat -> Sys, schedule: nat -> Wide.Step, t: nat) {
    exists u :: u >= t && ResendsAt(run, schedule, u)
  }

  ghost predicate SentAt(run: nat -> Sys, t: nat, p: Packet) {
    Progress.Appended(run(t).sender.wire, run(t + 1).sender.wire, p)
  }

  ghost predicate SentAfter(run: nat -> Sys, t: nat, p: Packet) {
    exists u :: u >= t && SentAt(run, u, p)
  }

  ghost predicate SentForever(run: nat -> Sys, p: Packet) {
    forall t: nat :: SentAfter(run, t, p)
  }

  ghost predicate AnswersAt(run: nat -> Sys, schedule: nat -> Wide.Step, t: nat, k: uint32) {
    && schedule(t).DataArrives? && Enabled(run(t), schedule(t))
    && Receive(run(t).client, Decode(schedule(t).datagram).value).1 == AckOf(k)
  }

  ghost predicate AnswersAfter(run: nat -> Sys, schedule: nat -> Wide.Step, t: nat, k: uint32) {
    exists u :: u >= t && AnswersAt(run, schedule, u, k)
  }

  ghost predicate AnswersForever(run: nat -> Sys, schedule: nat -> Wide.Step, k: uint32) {
    forall t: nat :: AnswersAfter(run, schedule, t, k)
  }

  ghost predicate MarkerReachesAt(run: nat -> Sys, schedule: nat -> Wide.Step, t: nat) {
    run(t).endSent && Progress.ArrivesAt(schedule, t, Encode(EndMarker(run(t).sender.nextSeqNumber)))
  }

  ghost predicate MarkerReaches(run: nat -> Sys, schedule: nat -> Wide.Step) {
    exists t: nat :: MarkerReachesAt(run, schedule, t)
  }

  /** Fair in the same sense as for Selective Repeat: what is not sent again and again may be
      lost for good. */
  ghost predicate Fair(run: nat -> Sys, schedule: nat -> Wide.Step) {
    && (forall t: nat :: ResendsAfter(run, schedule, t))
    && (forall p :: SentForever(run, p) ==> Progress.ArrivesForever(schedule, Encode(p)))
    && (forall k: uint32 :: AnswersForever(run, schedule, k) ==> Progress.AckArrivesForever(schedule, k))
    && (forall t: nat :: run(t).endSent ==> MarkerReaches(run, schedule))
    && (forall t: nat :: Progress.EndsAfter(schedule, t))
  }

  // ---------- the Selective Repeat run behind it ----------

  /** It has lost nothing, takes no step for a lost datagram, and sees no damaged ACK. */
  ghost function WideAt(z: Wide.Sys, run: nat -> Sys, schedule: nat -> Wide.Step, t: nat): Wide.Sys {
    if t == 0 then z
    else Wide.Apply(WideAt(z, run, schedule, t - 1), Match(run(t - 1), schedule(t - 1)))
  }

  ghost function WideRun(z: Wide.Sys, run: nat -> Sys, schedule: nat -> Wide.Step): nat -> Wide.Sys {
    (t: nat) => WideAt(z, run, schedule, t)
  }

  ghost function WideSchedule(run: nat -> Sys, schedule: nat -> Wide.Step): nat -> Wide.Step {
    (t: nat) => Match(run(t), schedule(t))
  }

  ghost predicate ShadowAt(z: Wide.Sys, all: seq<Packet>, run: nat -> Sys, schedule: nat -> Wide.Step, t: nat) {
    Shadow(WideRun(z, run, schedule)(t), run(t), all)
  }

  ghost predicate ShadowUntil(z: Wide.Sys, all: seq<Packet>, run: nat -> Sys, schedule: nat -> Wide.Step, t: nat) {
    forall u: nat :: u <= t ==> ShadowAt(z, all, run, schedule, u)
  }

  /** Shadowed throughout. */
  ghost predicate ShadowRuns(z: Wide.Sys, all: seq<Packet>, run: nat -> Sys, schedule: nat -> Wide.Step) {
    forall t: nat :: ShadowAt(z, all, run, schedule, t)
  }

  lemma WideNext(z: Wide.Sys, run: nat -> Sys, schedule: nat -> Wide.Step, t: nat)
    ensures WideRun(z, run, schedule)(t + 1)
         == Wide.Apply(WideRun(z, run, schedule)(t), WideSchedule(run, schedule)(t))
  {
  }

  /** One step: both senders send the same. */
  lemma ShadowMove(z: Wide.Sys, all: seq<Packet>, run: nat -> Sys, schedule: nat -> Wide.Step, t: nat)
    requires IsHonestRun(run, schedule) && ShadowAt(z, all, run, schedule, t)
    ensures ShadowAt(z, all, run, schedule, t + 1)
    ensures var w := WideRun(z, run, schedule);
            SendSame(Seen(w(t)), Seen(w(t + 1)), run(t), run(t + 1))
  {
    assert NextAt(run, schedule, t) && HonestAt(run, schedule, t);
    ShadowStep(WideRun(z, run, schedule)(t), run(t), all, schedule(t));
    WideNext(z, run, schedule, t);
  }

  lemma ShadowNext(z: Wide.Sys, all: seq<Packet>, run: nat -> Sys, schedule: nat -> Wide.Step, t: nat)
    requires IsHonestRun(run, schedule) && ShadowUntil(z, all, run, schedule, t)
    ensures ShadowUntil(z, all, run, schedule, t + 1)
  {
    assert ShadowAt(z, all, run, schedule, t);
    ShadowMove(z, all, run, schedule, t);
  }

  lemma {:induction false} ShadowsUntil(
    z: Wide.Sys, all: seq<Packet>, run: nat -> Sys, schedule: nat -> Wide.Step, t: nat)
    requires ShadowUntil(z, all, run, schedule, 0) && IsHonestRun(run, schedule)
    ensures ShadowUntil(z, all, run, schedule, t)
  {
    if t > 0 {
      ShadowsUntil(z, all, run, schedule, t - 1);
      ShadowNext(z, all, run, schedule, t - 1);
    }
  }

  lemma WideIsRun(z: Wide.Sys, run: nat -> Sys, schedule: nat -> Wide.Step)
    ensures Progress.IsRun(WideRun(z, run, schedule), WideSchedule(run, schedule))
  {
    forall t: nat
      ensures Progress.NextAt(WideRun(z, run, schedule), WideSchedule(run, schedule), t)
    {
      WideNext(z, run, schedule, t);
    }
  }

  // ---------- its fairness ----------

  /** Undamaged ACKs are not replaced. */
  lemma NormalKeeps(step: Wide.Step, k: uint32)
    requires step.AckArrives? && step.reply == EncodeAck(MakeAck(k))
    ensures Normal(step) == step
  {
    AckRoundTripExact(MakeAck(k));
  }

  lemma SameClock(z: Wide.Sys, y: Sys, all: seq<Packet>, step: Wide.Step)
    requires Shadow(z, y, all) && step.TimerFires?
    ensures z.sender.clock == y.sender.clock && Match(y, step) == step
  {
  }

  lemma WideResends(z: Wide.Sys, all: seq<Packet>, run: nat -> Sys, schedule: nat -> Wide.Step, t: nat)
    requires ResendsAfter(run, schedule, t) && ShadowRuns(z, all, run, schedule)
    ensures Progress.ResendsAfter(WideRun(z, run, schedule), WideSchedule(run, schedule), t)
  {
    var u :| u >= t && ResendsAt(run, schedule, u);
    assert ShadowAt(z, all, run, schedule, u);
    SameClock(WideRun(z, run, schedule)(u), run(u), all, schedule(u));
    assert WideSchedule(run, schedule)(u) == schedule(u);
    assert Progress.ResendsAt(WideRun(z, run, schedule), WideSchedule(run, schedule), u);
  }

  lemma SameAppended(x: Sys, x': Sys, y: Sys, y': Sys, p: Packet)
    requires SendSame(x, x', y, y') && Progress.Appended(x.sender.wire, x'.sender.wire, p)
    ensures Progress.Appended(y.sender.wire, y'.sender.wire, p)
  {
    var more :| x'.sender.wire == x.sender.wire + more && y'.sender.wire == y.sender.wire + more;
    var i :| |x.sender.wire| <= i < |x'.sender.wire| && x'.sender.wire[i] == p;
    assert y'.sender.wire[i - |x.sender.wire| + |y.sender.wire|] == p;
  }

  lemma SentBoth(
    z: Wide.Sys, all: seq<Packet>, run: nat -> Sys, schedule: nat -> Wide.Step, t: nat, p: Packet)
    requires IsHonestRun(run, schedule) && ShadowRuns(z, all, run, schedule)
    requires Progress.SentAfter(WideRun(z, run, schedule), t, p)
    ensures SentAfter(run, t, p)
  {
    var w := WideRun(z, run, schedule);
    var u :| u >= t && Progress.SentAt(w, u, p);
    assert ShadowAt(z, all, run, schedule, u);
    ShadowMove(z, all, run, schedule, u);
    SameAppended(Seen(w(u)), Seen(w(u + 1)), run(u), run(u + 1), p);
    assert SentAt(run, u, p);
  }

  lemma {:induction false} WireStays(
    z: Wide.Sys, all: seq<Packet>, run: nat -> Sys, schedule: nat -> Wide.Step, t: nat, u: nat, p: Packet)
    requires IsHonestRun(run, schedule) && ShadowRuns(z, all, run, schedule)
    requires t <= u && Contains(run(t).sender.wire, p)
    ensures Contains(run(u).sender.wire, p)
    decreases u
  {
    if t < u {
      WireStays(z, all, run, schedule, t, u - 1, p);
      WireStaysOnce(z, all, run, schedule, u - 1, p);
    }
  }

  lemma WireStaysOnce(
    z: Wide.Sys, all: seq<Packet>, run: nat -> Sys, schedule: nat -> Wide.Step, t: nat, p: Packet)
    requires IsHonestRun(run, schedule) && ShadowRuns(z, all, run, schedule) && Contains(run(t).sender.wire, p)
    ensures Contains(run(t + 1).sender.wire, p)
  {
    var w := WideRun(z, run, schedule);
    assert ShadowAt(z, all, run, schedule, t);
    ShadowMove(z, all, run, schedule, t);
    MoreContains(Seen(w(t)), Seen(w(t + 1)), run(t), run(t + 1), p);
  }

  lemma MoreContains(x: Sys, x': Sys, y: Sys, y': Sys, p: Packet)
    requires SendSame(x, x', y, y') && Contains(y.sender.wire, p)
    ensures Contains(y'.sender.wire, p)
  {
    var more :| x'.sender.wire == x.sender.wire + more && y'.sender.wire == y.sender.wire + more;
    var i :| 0 <= i < |y.sender.wire| && y.sender.wire[i] == p;
    assert y'.sender.wire[i] == p;
  }

  lemma ContainedOnWire(y: Sys, p: Packet)
    requires Contains(y.sender.wire, p)
    ensures OnWire(y, Encode(p))
  {
  }

  /** A packet that is sent for ever arrives there for ever too. */
  lemma WideArrives(
    z: Wide.Sys, all: seq<Packet>, run: nat -> Sys, schedule: nat -> Wide.Step, p: Packet, t: nat)
    requires IsHonestRun(run, schedule) && ShadowRuns(z, all, run, schedule)
    requires SentForever(run, p) && Progress.ArrivesForever(schedule, Encode(p))
    ensures Progress.ArrivesAfter(WideSchedule(run, schedule), t, Encode(p))
  {
    assert SentAfter(run, t, p);
    var w :| w >= t && SentAt(run, w, p);
    assert Contains(run(w + 1).sender.wire, p);
    assert Progress.ArrivesAfter(schedule, w + 1, Encode(p));
    var u :| u >= w + 1 && Progress.ArrivesAt(schedule, u, Encode(p));
    WireStays(z, all, run, schedule, w + 1, u, p);
    ContainedOnWire(run(u), p);
    assert Progress.ArrivesAt(WideSchedule(run, schedule), u, Encode(p));
  }

  lemma WideSends(z: Wide.Sys, all: seq<Packet>, run: nat -> Sys, schedule: nat -> Wide.Step, p: Packet)
    requires IsHonestRun(run, schedule) && ShadowRuns(z, all, run, schedule) && Fair(run, schedule)
    requires Progress.SentForever(WideRun(z, run, schedule), p)
    ensures Progress.ArrivesForever(WideSchedule(run, schedule), Encode(p))
  {
    forall t: nat
      ensures SentAfter(run, t, p)
    {
      assert Progress.SentAfter(WideRun(z, run, schedule), t, p);
      SentBoth(z, all, run, schedule, t, p);
    }
    forall t: nat
      ensures Progress.ArrivesAfter(WideSchedule(run, schedule), t, Encode(p))
    {
      WideArrives(z, all, run, schedule, p, t);
    }
  }

  lemma AnswerBoth(z: Wide.Sys, y: Sys, all: seq<Packet>, step: Wide.Step, k: uint32)
    requires Shadow(z, y, all) && Match(y, step).DataArrives? && Wide.Enabled(z, Match(y, step))
    requires Receive(z.client, Decode(Match(y, step).datagram).value).1 == AckOf(k)
    ensures step.DataArrives? && Enabled(y, step) && Receive(y.client, Decode(step.datagram).value).1 == AckOf(k)
  {
  }

  lemma WideAnswers(z: Wide.Sys, all: seq<Packet>, run: nat -> Sys, schedule: nat -> Wide.Step, k: uint32)
    requires ShadowRuns(z, all, run, schedule) && Fair(run, schedule)
    requires Progress.AnswersForever(WideRun(z, run, schedule), WideSchedule(run, schedule), k)
    ensures Progress.AckArrivesForever(WideSchedule(run, schedule), k)
  {
    var w, s := WideRun(z, run, schedule), WideSchedule(run, schedule);
    forall t: nat
      ensures AnswersAfter(run, schedule, t, k)
    {
      assert Progress.AnswersAfter(w, s, t, k);
      var u :| u >= t && Progress.AnswersAt(w, s, u, k);
      assert ShadowAt(z, all, run, schedule, u);
      assert Progress.Answers(w(u), s(u), k);
      AnswerBoth(w(u), run(u), all, schedule(u), k);
      assert AnswersAt(run, schedule, u, k);
    }
    assert AnswersForever(run, schedule, k);
    assert Progress.AckArrivesForever(schedule, k);
    forall t: nat
      ensures Progress.AckArrivesAfter(s, t, k)
    {
      assert Progress.AckArrivesAfter(schedule, t, k);
      var u :| u >= t && Progress.AckArrivesAt(schedule, u, k);
      NormalKeeps(schedule(u), k);
      assert Progress.AckArrivesAt(s, u, k);
    }
  }

  lemma WideMarker(z: Wide.Sys, all: seq<Packet>, run: nat -> Sys, schedule: nat -> Wide.Step, t: nat)
    requires ShadowRuns(z, all, run, schedule) && Fair(run, schedule) && WideRun(z, run, schedule)(t).endSent
    ensures Progress.MarkerReaches(WideRun(z, run, schedule), WideSchedule(run, schedule))
  {
    assert ShadowAt(z, all, run, schedule, t);
    assert MarkerReaches(run, schedule);
    var u: nat :| MarkerReachesAt(run, schedule, u);
    assert ShadowAt(z, all, run, schedule, u);
    assert OnWire(run(u), Encode(EndMarker(run(u).sender.nextSeqNumber)));
    assert Progress.MarkerReachesAt(WideRun(z, run, schedule), WideSchedule(run, schedule), u);
  }

  lemma WideEnds(run: nat -> Sys, schedule: nat -> Wide.Step, t: nat)
    requires Progress.EndsAfter(schedule, t)
    ensures Progress.EndsAfter(WideSchedule(run, schedule), t)
  {
    var u :| u >= t && Progress.EndsAt(schedule, u);
    assert Progress.EndsAt(WideSchedule(run, schedule), u);
  }

  lemma WideIsFair(z: Wide.Sys, all: seq<Packet>, run: nat -> Sys, schedule: nat -> Wide.Step)
    requires IsHonestRun(run, schedule) && ShadowRuns(z, all, run, schedule) && Fair(run, schedule)
    ensures Progress.Fair(WideRun(z, run, schedule), WideSchedule(run, schedule))
  {
    var w, s := WideRun(z, run, schedule), WideSchedule(run, schedule);
    forall t: nat
      ensures Progress.ResendsAfter(w, s, t) && Progress.EndsAfter(s, t)
    {
      WideResends(z, all, run, schedule, t);
      WideEnds(run, schedule, t);
    }
    forall p | Progress.SentForever(w, p)
      ensures Progress.ArrivesForever(s, Encode(p))
    {
      WideSends(z, all, run, schedule, p);
    }
    forall k: uint32 | Progress.AnswersForever(w, s, k)
      ensures Progress.AckArrivesForever(s, k)
    {
      WideAnswers(z, all, run, schedule, k);
    }
    forall t: nat | w(t).endSent
      ensures Progress.MarkerReaches(w, s)
    {
      WideMarker(z, all, run, schedule, t);
    }
  }

  ghost predicate FinishedFrom(file: bytes, run: nat -> Sys, u: nat) {
    forall t: nat :: t >= u ==> HasFile(run(t).client, file)
  }

  /** Every fair infinite Stop-and-Wait run in which no ACK misleads the sender ends with the
      client done for ever and the whole file written, whatever had been lost before. */
  lemma FairRunsComplete(file: bytes, run: nat -> Sys, schedule: nat -> Wide.Step)
    requires |Chunks(file)| + 1 < 0x1_0000_0000 && HonestlyReachable(file, run(0))
    requires IsHonestRun(run, schedule) && Fair(run, schedule)
    ensures exists u: nat :: FinishedFrom(file, run, u)
  {
    var all := Numbered(Chunks(file), 1);
    var z := ReachableShadow(file, run(0));
    var w, s := WideRun(z, run, schedule), WideSchedule(run, schedule);
    assert ShadowAt(z, all, run, schedule, 0);
    forall t: nat
      ensures ShadowAt(z, all, run, schedule, t)
    {
      ShadowsUntil(z, all, run, schedule, t);
    }
    WideIsRun(z, run, schedule);
    WideIsFair(z, all, run, schedule);
    Progress.FairRunsComplete(file, w, s);
    var u: nat :| Progress.FinishedFrom(file, w, u);
    forall t: nat | t >= u
      ensures HasFile(run(t).client, file)
    {
      assert Progress.Finished(file, w(t)) && ShadowAt(z, all, run, schedule, t);
    }
    assert FinishedFrom(file, run, u);
  }
}
