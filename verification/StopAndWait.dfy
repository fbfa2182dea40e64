/** The Stop-and-Wait sender (server/strategy/stop_and_wait_strategy.cpp) as functions on its
    state, and Selective Repeat with a window of one as its step-for-step equal. */
module StopAndWait {
  import opened Bytes
  import opened DataPackets
  import opened SenderParts
  import SR = SelectiveRepeat
  import Facts = SelectiveRepeatInvariant

  datatype Sender = Sender(
    window: seq<Slot>,
    unacked: set<Entry>,
    todo: seq<Packet>,
    nextSeqNumber: nat,
    packetsSent: nat,
    clock: nat,
    wire: seq<Packet>)

  /** send_packet; a loss event has no effect here. */
  ghost function SendPacket(s: Sender, i: nat, outcome: Outcome): Sender
    requires i < |s.window|
  {
    var p := s.window[i].(stamp := s.clock);
    s.(window := s.window[i := p], unacked := Insert(s.unacked, EntryOf(p)), clock := s.clock + 1,
       wire := if outcome.Lost? then s.wire else s.wire + [p.pkt])
  }

  /** Appends the builder's next packet to the window. */
  function Push(s: Sender): Sender
    requires s.todo != []
  {
    s.(window := s.window + [Slot(s.todo[0], false, 0)], todo := s.todo[1..], nextSeqNumber := s.nextSeqNumber + 1)
  }

  function Pop(s: Sender): Sender
    requires s.window != []
  {
    s.(window := s.window[1..], packetsSent := s.packetsSent + 1)
  }

  /** Pops the acknowledged front; each pop fetches and sends the next packet, if any. */
  ghost function Advance(s: Sender, net: Network): Sender
    decreases |s.window| + |s.todo|
  {
    if s.window != [] && s.window[0].acked then
      var popped := Pop(s);
      if s.todo != [] then Advance(SendPacket(Push(popped), |popped.window|, net(s.clock)), net)
      else Advance(popped, net)
    else s
  }

  /** acknowledge_packet, which looks at the number only and not at the checksum. */
  ghost function Acknowledge(s: Sender, ackno: nat, net: Network): Sender {
    var i := IndexOf(s.window, ackno);
    if i < |s.window| && !s.window[i].acked then
      var marked := s.(window := s.window[i := s.window[i].(acked := true)],
                       unacked := Erase(s.unacked, s.window[i].stamp));
      if i == 0 then Advance(marked, net) else marked
    else s
  }

  /** The timeout branch resends the very packet that the index names first. */
  ghost function HandleTimeOut(s: Sender, net: Network): Sender
    requires s.unacked != {} && IndexOf(s.window, First(s.unacked).seqno) < |s.window|
  {
    var first := First(s.unacked);
    SendPacket(s.(unacked := Erase(s.unacked, first.stamp)), IndexOf(s.window, first.seqno), net(s.clock))
  }

  // ---------- Selective Repeat with a window of one ----------

  /** What Selective Repeat and Stop-and-Wait have in common. */
  function View(s: SR.Sender): Sender {
    Sender(s.window, s.unacked, s.todo, s.nextSeqNumber, s.packetsSent, s.clock, s.wire)
  }

  ghost predicate Single(s: SR.Sender, all: seq<Packet>) {
    Facts.Inv(s, all) && s.maxWindowSize == 1 && s.aux == map[]
  }

  /** A send in a window of one never evicts anything, loss event or not. */
  lemma SingleSend(s: SR.Sender, outcome: Outcome)
    requires |s.window| == 1 && s.windowSize == 1 && s.aux == map[]
    ensures var t := SR.SendPacket(s, 0, outcome);
            && View(t) == SendPacket(View(s), 0, outcome)
            && t.aux == map[] && t.windowSize == 1 && t.maxWindowSize == s.maxWindowSize && |t.window| == 1
  {
    var sent := SR.Transmit(s, 0, outcome);
    var shrunk := SR.Shrink(sent, 0);
    assert sent.window[..1] == sent.window && sent.window[1..] == [];
    assert EraseAll(sent.unacked, []) == sent.unacked;
    assert AuxOf([]) + sent.aux == map[];
  }

  /** With an empty window the refill loop takes and sends exactly one packet. */
  lemma SingleExpand(s: SR.Sender, net: Network)
    requires s.window == [] && s.windowSize == 1 && s.aux == map[]
    ensures var t := SR.Expand(s, net);
            && View(t) == (if s.todo == [] then View(s) else SendPacket(Push(View(s)), 0, net(s.clock)))
            && t.aux == map[] && t.maxWindowSize == s.maxWindowSize
  {
    if s.todo != [] {
      var pulled := SR.Pull(s);
      assert pulled.window == [Slot(s.todo[0], false, 0)];
      SingleSend(pulled, net(s.clock));
      var t := SR.SendPacket(pulled, 0, net(s.clock));
      assert SR.Expand(s, net) == SR.Expand(t, net) == t;
    }
  }

  lemma SingleAdvance(s: SR.Sender)
    requires |s.window| == 1 && s.window[0].acked
    ensures SR.Advance(s) == s.(window := [], packetsSent := s.packetsSent + 1)
  {
    assert s.window[1..] == [];
  }

  lemma StopAndWaitAdvance(s: Sender, net: Network)
    requires |s.window| == 1 && s.window[0].acked
    ensures Advance(s, net) == if s.todo == [] then Pop(s) else SendPacket(Push(Pop(s)), 0, net(s.clock))
  {
    assert Pop(s).window == [];
    if s.todo != [] {
      var t := SendPacket(Push(Pop(s)), 0, net(s.clock));
      assert !t.window[0].acked;
    }
  }

  /** The front is acknowledged: both senders do the same. */
  lemma AcceptedSame(s: SR.Sender, all: seq<Packet>, a: Ack, net: Network)
    requires Single(s, all) && s.window != [] && IndexOf(s.window, a.ackno) == 0 && a.Intact()
    ensures View(SR.Acknowledge(s, a, net)) == Acknowledge(View(s), a.ackno, net)
    ensures SR.Acknowledge(s, a, net).aux == map[] && SR.Acknowledge(s, a, net).maxWindowSize == 1
  {
    assert |s.window| == 1 && s.windowSize == 1;
    var marked := SR.MarkAcked(s, 0);
    SingleAdvance(marked);
    var popped := SR.Adjust(SR.Advance(marked));
    assert popped.windowSize == 1;
    SingleExpand(popped, net);
    StopAndWaitAdvance(View(marked), net);
    assert View(popped) == Pop(View(marked));
    assert SR.Acknowledge(s, a, net) == SR.Expand(popped, net);
    assert Acknowledge(View(s), a.ackno, net) == Advance(View(marked), net);
  }

  /** Every valid ACK, whatever its number. */
  lemma AcknowledgeSame(s: SR.Sender, all: seq<Packet>, a: Ack, net: Network)
    requires Single(s, all) && a.Intact()
    ensures View(SR.Acknowledge(s, a, net)) == Acknowledge(View(s), a.ackno, net)
    ensures Single(SR.Acknowledge(s, a, net), all)
  {
    Facts.AcknowledgeAlwaysKeeps(s, all, a, net);
    if s.window != [] && IndexOf(s.window, a.ackno) == 0 {
      AcceptedSame(s, all, a, net);
    }
  }

  /** A timeout; with a window of one the front is the packet the index names. */
  lemma TimeOutSame(s: SR.Sender, all: seq<Packet>, net: Network)
    requires Single(s, all) && s.window != []
    ensures s.unacked != {} && IndexOf(s.window, First(s.unacked).seqno) == 0
    ensures View(SR.HandleTimeOut(s, net)) == HandleTimeOut(View(s), net)
    ensures Single(SR.HandleTimeOut(s, net), all)
  {
    Facts.FirstIsFront(s, all);
    Facts.HandleTimeOutKeeps(s, all, net);
    var first := First(s.unacked);
    var erased := s.(unacked := Erase(s.unacked, first.stamp));
    var shrunk := SR.Shrink(erased, 1);
    assert |s.window| == 1 && s.windowSize == 1;
    assert erased.window[..1] == erased.window && erased.window[1..] == [];
    assert EraseAll(erased.unacked, []) == erased.unacked;
    assert AuxOf([]) + erased.aux == map[];
    assert View(shrunk) == View(erased);
    SingleSend(shrunk, net(s.clock));
  }

  // ---------- whole runs ----------

  datatype Event = AckComes(ack: Ack, net: Network) | TimerFires(net: Network)

  ghost function SelectiveRepeatStep(s: SR.Sender, e: Event): SR.Sender {
    match e
    case AckComes(a, net) => SR.Acknowledge(s, a, net)
    case TimerFires(net) => if s.unacked != {} && s.window != [] then SR.HandleTimeOut(s, net) else s
  }

  ghost function StopAndWaitStep(s: Sender, e: Event): Sender {
    match e
    case AckComes(a, net) => Acknowledge(s, a.ackno, net)
    case TimerFires(net) =>
      if s.unacked != {} && IndexOf(s.window, First(s.unacked).seqno) < |s.window| then HandleTimeOut(s, net) else s
  }

  ghost function SelectiveRepeatRun(s: SR.Sender, events: seq<Event>): SR.Sender
    decreases |events|
  {
    if events == [] then s else SelectiveRepeatRun(SelectiveRepeatStep(s, events[0]), events[1..])
  }

  ghost function StopAndWaitRun(s: Sender, events: seq<Event>): Sender
    decreases |events|
  {
    if events == [] then s else StopAndWaitRun(StopAndWaitStep(s, events[0]), events[1..])
  }

  lemma StepSame(s: SR.Sender, all: seq<Packet>, e: Event)
    requires Single(s, all) && (e.AckComes? ==> e.ack.Intact())
    ensures View(SelectiveRepeatStep(s, e)) == StopAndWaitStep(View(s), e)
    ensures Single(SelectiveRepeatStep(s, e), all)
  {
    Facts.WindowIffTimer(s, all);
    match e
    case AckComes(a, net) => AcknowledgeSame(s, all, a, net);
    case TimerFires(net) =>
      if s.window != [] { TimeOutSame(s, all, net); }
  }

  lemma {:induction false} RunsSame(s: SR.Sender, all: seq<Packet>, events: seq<Event>)
    requires Single(s, all)
    requires forall i :: 0 <= i < |events| && events[i].AckComes? ==> events[i].ack.Intact()
    ensures View(SelectiveRepeatRun(s, events)) == StopAndWaitRun(View(s), events)
    ensures Single(SelectiveRepeatRun(s, events), all)
    decreases |events|
  {
    if events != [] {
      StepSame(s, all, events[0]);
      RunsSame(SelectiveRepeatStep(s, events[0]), all, events[1..]);
    }
  }

  /** The started Stop-and-Wait sender, whose window size is 1. */
  ghost function StopAndWaitStart(all: seq<Packet>, net: Network): Sender {
    var filled := View(SR.Initial(all, 1));
    if filled.window == [] then filled else SendPacket(filled, 0, net(0))
  }

  /** For any valid ACKs and any timeouts, in any order and with any losses: Selective Repeat
      with max_window_size 1 has the same window, builder position, timer index and packets on
      the wire as Stop-and-Wait, and never uses aux. */
  lemma WindowOfOneIsStopAndWait(all: seq<Packet>, net: Network, events: seq<Event>)
    requires Sequential(all, 1)
    requires forall i :: 0 <= i < |events| && events[i].AckComes? ==> events[i].ack.Intact()
    ensures var s := SelectiveRepeatRun(SR.StartFrom(SR.Initial(all, 1), 0, net), events);
            View(s) == StopAndWaitRun(StopAndWaitStart(all, net), events) && s.aux == map[]
  {
    var initial := SR.Initial(all, 1);
    var s := SR.StartFrom(initial, 0, net);
    Facts.StartKeeps(all, 1, net);
    Facts.InitialCore(all, 1, net);
    if all != [] {
      SingleSend(initial, net(0));
    }
    RunsSame(s, all, events);
  }

  /** Exactly which ACKs the two senders treat alike: all but a damaged one whose number happens
      to be that of the packet waiting. Selective Repeat drops it, Stop-and-Wait accepts it. */
  lemma AgreeIffNotFooled(s: SR.Sender, all: seq<Packet>, a: Ack, net: Network)
    requires Single(s, all)
    ensures View(SR.Acknowledge(s, a, net)) == Acknowledge(View(s), a.ackno, net)
       <==> a.Intact() || s.window == [] || s.window[0].pkt.seqno != a.ackno
  {
    if a.Intact() {
      AcknowledgeSame(s, all, a, net);
    } else if s.window != [] && s.window[0].pkt.seqno == a.ackno {
      var fixed := MakeAck(a.ackno);
      AcknowledgeSame(s, all, fixed, net);
      var acc := Below(|all| + 1) + {a.ackno as nat};
      Facts.IndexOfNumber(s, all, 0);
      assert Facts.Backed(s, acc);
      Facts.AcknowledgeKeeps(s, all, fixed, net, acc);
    }
  }

  // ---------- the invariant of the Stop-and-Wait sender ----------

  /** The Selective Repeat state with a window of one that looks the same. */
  function Lift(s: Sender): SR.Sender {
    SR.Sender(s.window, map[], s.unacked, 1, 1, 1, s.todo, s.nextSeqNumber, s.packetsSent, s.clock, s.wire)
  }

  /** The invariant of Selective Repeat, carried over. */
  ghost predicate Inv(s: Sender, all: seq<Packet>) {
    Single(Lift(s), all)
  }

  lemma LiftView(t: SR.Sender, all: seq<Packet>)
    requires Single(t, all)
    ensures Inv(View(t), all)
  {
  }

  lemma AcknowledgeKeeps(s: Sender, all: seq<Packet>, ackno: uint32, net: Network)
    requires Inv(s, all)
    ensures Inv(Acknowledge(s, ackno, net), all)
  {
    AcknowledgeSame(Lift(s), all, MakeAck(ackno), net);
    LiftView(SR.Acknowledge(Lift(s), MakeAck(ackno), net), all);
  }

  lemma TimeOutKeeps(s: Sender, all: seq<Packet>, net: Network)
    requires Inv(s, all) && s.window != []
    ensures s.unacked != {} && IndexOf(s.window, First(s.unacked).seqno) == 0
    ensures First(s.unacked) == EntryOf(s.window[0])
    ensures Inv(HandleTimeOut(s, net), all)
  {
    Facts.FirstIsFront(Lift(s), all);
    TimeOutSame(Lift(s), all, net);
    LiftView(SR.HandleTimeOut(Lift(s), net), all);
  }

  /** With at most one packet in the window the index holds that packet or nothing. */
  lemma IndexOfOne(s: Sender, all: seq<Packet>)
    requires Inv(s, all)
    ensures |s.window| <= 1
    ensures s.window == [] ==> s.unacked == {}
    ensures s.window != [] ==> !s.window[0].acked && s.unacked == {EntryOf(s.window[0])}
  {
    Facts.WindowIffTimer(Lift(s), all);
    Facts.TimerIndex(Lift(s), all);
    if s.window != [] { assert s.window == [s.window[0]]; }
  }

  lemma StartKeeps(all: seq<Packet>, net: Network)
    requires Sequential(all, 1)
    ensures Inv(StopAndWaitStart(all, net), all)
  {
    var none: seq<Event> := [];
    WindowOfOneIsStopAndWait(all, net, none);
    Facts.StartKeeps(all, 1, net);
    LiftView(SR.StartFrom(SR.Initial(all, 1), 0, net), all);
  }

  /** A packet with this number has been put on the wire. */
  ghost predicate Sent(wire: seq<Packet>, k: nat) {
    exists i :: 0 <= i < |wire| && wire[i].seqno == k
  }

  /** What is new on the wire has a number of at least lo. */
  ghost predicate SendsFrom(s: Sender, t: Sender, lo: nat) {
    s.wire <= t.wire && forall i :: |s.wire| <= i < |t.wire| ==> t.wire[i].seqno >= lo
  }

  lemma FrontNumber(s: Sender, all: seq<Packet>)
    requires Inv(s, all) && s.window != []
    ensures s.window[0].pkt.seqno == s.packetsSent + 1 && |s.window| == 1
    ensures s.packetsSent + 2 == s.nextSeqNumber
  {
    Facts.IndexOfNumber(Lift(s), all, 0);
    IndexOfOne(s, all);
    assert s.packetsSent + 2 in Lift(s).aux <==> s.packetsSent + 2 < s.nextSeqNumber;
  }

  lemma NothingWaiting(s: Sender, all: seq<Packet>)
    requires Inv(s, all) && s.window == []
    ensures s.packetsSent == |all| && s.nextSeqNumber == |all| + 1 && s.todo == []
  {
    Facts.NothingLeft(Lift(s), all);
    assert s.packetsSent + 1 in Lift(s).aux <==> s.packetsSent + 1 < s.nextSeqNumber;
    assert |s.todo| == |all| - (s.nextSeqNumber - 1);
  }

  /** What an ACK with any number does: it pops the packet waiting if it names that, and the
      next one is sent. */
  lemma AcknowledgeMoves(s: Sender, all: seq<Packet>, ackno: nat, net: Network)
    requires Inv(s, all)
    ensures var t := Acknowledge(s, ackno, net);
            if s.window != [] && ackno == s.packetsSent + 1 then
              && t.packetsSent == s.packetsSent + 1 && t.nextSeqNumber >= s.nextSeqNumber
              && SendsFrom(s, t, s.nextSeqNumber)
            else t == s
  {
    if s.window != [] {
      FrontNumber(s, all);
      IndexOfOne(s, all);
      if ackno == s.packetsSent + 1 {
        var marked := s.(window := s.window[0 := s.window[0].(acked := true)],
                         unacked := Erase(s.unacked, s.window[0].stamp));
        StopAndWaitAdvance(marked, net);
        assert s.todo != [] ==> s.todo[0] == all[s.nextSeqNumber - 1];
      }
    }
  }

  lemma TimeOutMoves(s: Sender, all: seq<Packet>, net: Network)
    requires Inv(s, all) && s.window != []
    ensures s.unacked != {} && IndexOf(s.window, First(s.unacked).seqno) == 0
    ensures var t := HandleTimeOut(s, net);
            && t.packetsSent == s.packetsSent && t.nextSeqNumber == s.nextSeqNumber
            && t.window != [] && SendsFrom(s, t, s.packetsSent + 1)
  {
    TimeOutKeeps(s, all, net);
    FrontNumber(s, all);
  }
}
