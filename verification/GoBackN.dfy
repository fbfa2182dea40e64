/** The Go-Back-N sender and client (server/strategy/go_back_N_strategy.cpp,
    client/strategy/client_go_back_N_strategy.cpp) as functions on their state. */
module GoBackN {
  import opened Bytes
  import opened DataPackets
  import opened SenderParts
  import opened Networks

  const DEFAULT_WINDOW_SIZE := 200

  datatype Sender = Sender(
    window: seq<Slot>,          // front first
    todo: seq<Packet>,          // what the packet builder still holds
    nextSeqNumber: nat,         // the number of the first packet in todo
    clock: nat,
    wire: seq<Packet>)          // every packet handed to sendto, in order
  {
    /** The number at the front of the window; all smaller ones have been popped. */
    function Base(): int {
      nextSeqNumber - |window|
    }
  }

  /** The constructor fills the window; numbers start at 0. */
  function Initial(all: seq<Packet>): Sender {
    var n := Min(DEFAULT_WINDOW_SIZE, |all|);
    Sender(seq(n, i requires 0 <= i < n => Slot(all[i], false, 0)), all[n..], n, 0, [])
  }

  function SendPacket(s: Sender, i: nat, outcome: Outcome): Sender
    requires i < |s.window|
  {
    var p := s.window[i].(stamp := s.clock);
    s.(window := s.window[i := p], clock := s.clock + 1,
       wire := if outcome.Lost? then s.wire else s.wire + [p.pkt])
  }

  /** Sends the window from position i on. */
  function StartFrom(s: Sender, i: nat, net: Network): Sender
    requires i <= |s.window|
    decreases |s.window| - i
  {
    if i == |s.window| then s else StartFrom(SendPacket(s, i, net(s.clock)), i + 1, net)
  }

  function Push(s: Sender): Sender
    requires s.todo != []
  {
    s.(window := s.window + [Slot(s.todo[0], false, 0)], todo := s.todo[1..], nextSeqNumber := s.nextSeqNumber + 1)
  }

  function Pop(s: Sender): Sender
    requires s.window != []
  {
    s.(window := s.window[1..])
  }

  /** One round of the loop: pop the front, then fetch and send the next packet, if any. */
  function PopAndSend(s: Sender, net: Network): Sender
    requires s.window != []
  {
    if s.todo != [] then SendPacket(Push(Pop(s)), |s.window| - 1, net(s.clock)) else Pop(s)
  }

  function Advance(s: Sender, net: Network): Sender
    decreases |s.window| + |s.todo|
  {
    if s.window != [] && s.window[0].acked then Advance(PopAndSend(s, net), net) else s
  }

  /** Sets the ACK flag on the positions lo .. hi - 1. */
  function Flagged(window: seq<Slot>, lo: nat, hi: nat): (w: seq<Slot>)
    ensures |w| == |window|
  {
    seq(|window|, i requires 0 <= i < |window| => if lo <= i < hi then window[i].(acked := true) else window[i])
  }

  /** acknowledge_packet looks at the number only: it acknowledges everything up to it. */
  function Acknowledge(s: Sender, ackno: nat, net: Network): Sender {
    var i := IndexOf(s.window, ackno);
    if i < |s.window| then Advance(s.(window := Flagged(s.window, 0, i + 1)), net) else s
  }

  // ---------- the client ----------

  datatype Client = Client(
    expectedSeqno: uint32,
    windowSize: nat,
    written: seq<bytes>,        // the arguments of file_writer::write, in order
    done: bool)

  function InitialClient(windowSize: nat): Client {
    Client(0, windowSize, [], false)
  }

  /** The upper end is computed in 32 bits and may wrap. */
  predicate InWindow(c: Client, seqno: uint32) {
    c.expectedSeqno <= seqno < Wrap32(c.expectedSeqno + c.windowSize)
  }

  function LastSeqno(c: Client): uint32 {
    Wrap32(c.expectedSeqno + 0xFFFF_FFFF)
  }

  /** One call of run() on an unpacked datagram. The test for an empty payload comes first. */
  function Receive(c: Client, p: Packet): (Client, Reply) {
    if InWindow(c, p.seqno) then
      if p.data == [] then (c.(done := true), Silent)
      else if p.seqno == c.expectedSeqno && p.Intact() then
        (c.(written := c.written + [p.data], expectedSeqno := Wrap32(c.expectedSeqno + 1)), AckOf(p.seqno))
      else (c, AckOf(LastSeqno(c)))
    else (c, Silent)
  }

  lemma {:induction false} Wrap32Is(n: nat, q: nat, r: uint32)
    requires n == q * 0x1_0000_0000 + r
    ensures Wrap32(n) == r
    decreases q
  {
    if q > 0 { Wrap32Is(n - 0x1_0000_0000, q - 1, r); }
  }

  /** One packet, with the window written out; its end is taken to 32 bits. Outside the window
      nothing changes and nothing is sent. An empty packet in the window ends the transfer. The
      packet expected, undamaged, is written and acknowledged. Any other is answered with the
      last number delivered, which is the largest there is when none has been. */
  lemma ReceiveExactly(c: Client, p: Packet, q: nat, end: uint32)
    requires c.expectedSeqno + c.windowSize == q * 0x1_0000_0000 + end
    ensures !(c.expectedSeqno <= p.seqno < end) ==> Receive(c, p) == (c, Silent)
    ensures c.expectedSeqno <= p.seqno < end ==>
              if p.data == [] then Receive(c, p) == (c.(done := true), Silent)
              else if p.seqno == c.expectedSeqno && p.Intact() then
                Receive(c, p) == (Client(c.expectedSeqno + 1, c.windowSize, c.written + [p.data], c.done),
                                  AckOf(p.seqno))
              else
                Receive(c, p) == (c, AckOf(if c.expectedSeqno == 0 then 0xFFFF_FFFF else c.expectedSeqno - 1))
  {
    Wrap32Is(c.expectedSeqno + c.windowSize, q, end);
    if c.expectedSeqno > 0 {
      Wrap32Is(c.expectedSeqno + 0xFFFF_FFFF, 1, c.expectedSeqno - 1);
    }
  }

  // ---------- what the sender keeps ----------

  /** The window is the run Base .. nextSeqNumber - 1 of the stream, its first m packets are
      acknowledged and no other, and the builder holds the rest. */
  ghost predicate Ordered(s: Sender, all: seq<Packet>, m: nat) {
    && |s.window| <= s.nextSeqNumber <= |all| && m <= |s.window|
    && s.todo == all[s.nextSeqNumber..]
    && forall i :: 0 <= i < |s.window| ==> s.window[i].pkt == all[s.Base() + i] && (s.window[i].acked <==> i < m)
  }

  /** Only packets that have been fetched are on the wire. */
  ghost predicate WireKnown(s: Sender, all: seq<Packet>) {
    forall i :: 0 <= i < |s.wire| ==> s.wire[i].seqno < Min(s.nextSeqNumber, |all|) && s.wire[i] == all[s.wire[i].seqno]
  }

  /** The window is full or there is nothing left to put into it. */
  ghost predicate Filled(s: Sender) {
    |s.window| <= DEFAULT_WINDOW_SIZE && (s.todo != [] ==> |s.window| == DEFAULT_WINDOW_SIZE)
  }

  ghost predicate Inv(s: Sender, all: seq<Packet>) {
    Ordered(s, all, 0) && WireKnown(s, all) && Filled(s)
  }

  lemma SendKeeps(s: Sender, all: seq<Packet>, m: nat, i: nat, outcome: Outcome)
    requires Sequential(all, 0) && Ordered(s, all, m) && WireKnown(s, all) && i < |s.window|
    ensures var t := SendPacket(s, i, outcome);
            && Ordered(t, all, m) && WireKnown(t, all) && (Filled(s) ==> Filled(t))
            && t.Base() == s.Base() && t.nextSeqNumber == s.nextSeqNumber && s.wire <= t.wire
            && (outcome != Lost ==> t.wire == s.wire + [all[s.Base() + i]])
  {
    var t := SendPacket(s, i, outcome);
    assert s.window[i].pkt == all[s.Base() + i];
    assert t.window[i].pkt == all[s.Base() + i] && t.window[i].acked == s.window[i].acked;
  }

  lemma PopKeeps(s: Sender, all: seq<Packet>, m: nat)
    requires Ordered(s, all, m) && WireKnown(s, all) && m > 0
    ensures var t := Pop(s);
            && Ordered(t, all, m - 1) && WireKnown(t, all) && |t.window| == |s.window| - 1
            && t.Base() == s.Base() + 1 && t.nextSeqNumber == s.nextSeqNumber
  {
    assert forall i :: 0 <= i < |Pop(s).window| ==> Pop(s).window[i] == s.window[i + 1];
  }

  lemma PushKeeps(s: Sender, all: seq<Packet>, m: nat)
    requires Ordered(s, all, m) && WireKnown(s, all) && s.todo != []
    ensures var t := Push(s);
            && Ordered(t, all, m) && WireKnown(t, all) && |t.window| == |s.window| + 1
            && t.Base() == s.Base() && t.nextSeqNumber == s.nextSeqNumber + 1 <= |all|
  {
    assert s.todo[0] == all[s.nextSeqNumber];
  }

  lemma PopAndSendKeeps(s: Sender, all: seq<Packet>, m: nat, net: Network)
    requires Sequential(all, 0) && Ordered(s, all, m) && WireKnown(s, all) && Filled(s) && m > 0
    ensures var t := PopAndSend(s, net);
            && Ordered(t, all, m - 1) && WireKnown(t, all) && Filled(t)
            && t.Base() == s.Base() + 1 && t.nextSeqNumber == Min(s.nextSeqNumber + 1, |all|)
  {
    var popped := Pop(s);
    PopKeeps(s, all, m);
    if s.todo != [] {
      PushKeeps(popped, all, m - 1);
      SendKeeps(Push(popped), all, m - 1, |popped.window|, net(s.clock));
    }
  }

  /** The pop-and-push loop pops exactly the acknowledged prefix and fetches as many packets,
      as far as there are any. */
  lemma {:induction false} AdvanceKeeps(s: Sender, all: seq<Packet>, m: nat, net: Network)
    requires Sequential(all, 0) && Ordered(s, all, m) && WireKnown(s, all) && Filled(s)
    ensures var t := Advance(s, net);
            && Inv(t, all) && t.Base() == s.Base() + m && t.nextSeqNumber == Min(s.nextSeqNumber + m, |all|)
    decreases m
  {
    if m > 0 {
      assert s.window[0].acked;
      PopAndSendKeeps(s, all, m, net);
      AdvanceKeeps(PopAndSend(s, net), all, m - 1, net);
    }
  }

  /** A packet with this number is in flight. */
  ghost predicate Sent(wire: seq<Packet>, k: nat) {
    exists i :: 0 <= i < |wire| && wire[i].seqno == k
  }

  /** From s to t only numbers that s had not fetched yet went onto the wire. */
  ghost predicate SendsOnlyNew(s: Sender, t: Sender) {
    s.wire <= t.wire && forall i :: |s.wire| <= i < |t.wire| ==> t.wire[i].seqno >= s.nextSeqNumber
  }

  ghost predicate AllSent(wire: seq<Packet>, lo: nat, hi: int) {
    forall k :: lo <= k < hi ==> Sent(wire, k)
  }

  lemma PopAndSendWire(s: Sender, all: seq<Packet>, m: nat, net: Network)
    requires Sequential(all, 0) && Ordered(s, all, m) && s.window != []
    ensures var t := PopAndSend(s, net);
            SendsOnlyNew(s, t) && (Lossless(net) ==> AllSent(t.wire, s.nextSeqNumber, t.nextSeqNumber))
  {
    if s.todo != [] {
      var t := PopAndSend(s, net);
      assert s.todo[0] == all[s.nextSeqNumber];
      assert Lossless(net) ==> net(s.clock) != Lost && t.wire[|s.wire|].seqno == s.nextSeqNumber;
    }
  }

  lemma SendsJoin(s: Sender, t: Sender, u: Sender, all: seq<Packet>)
    requires SendsOnlyNew(s, t) && SendsOnlyNew(t, u) && s.nextSeqNumber <= t.nextSeqNumber
    ensures SendsOnlyNew(s, u)
    ensures AllSent(t.wire, s.nextSeqNumber, t.nextSeqNumber) && AllSent(u.wire, t.nextSeqNumber, u.nextSeqNumber)
        ==> AllSent(u.wire, s.nextSeqNumber, u.nextSeqNumber)
  {
    forall k | Sent(t.wire, k)
      ensures Sent(u.wire, k)
    {
      var i :| 0 <= i < |t.wire| && t.wire[i].seqno == k;
      assert u.wire[i].seqno == k;
    }
  }

  /** The loop sends nothing old, and over a lossless network everything it fetches. */
  lemma {:induction false} AdvanceWire(s: Sender, all: seq<Packet>, m: nat, net: Network)
    requires Sequential(all, 0) && Ordered(s, all, m) && WireKnown(s, all) && Filled(s)
    ensures var t := Advance(s, net);
            SendsOnlyNew(s, t) && (Lossless(net) ==> AllSent(t.wire, s.nextSeqNumber, t.nextSeqNumber))
    decreases m
  {
    if m > 0 {
      assert s.window[0].acked;
      var next := PopAndSend(s, net);
      PopAndSendKeeps(s, all, m, net);
      PopAndSendWire(s, all, m, net);
      AdvanceWire(next, all, m - 1, net);
      SendsJoin(s, next, Advance(next, net), all);
    }
  }

  lemma IndexOfNumber(s: Sender, all: seq<Packet>, ackno: nat)
    requires Sequential(all, 0) && Ordered(s, all, 0)
    ensures var i := IndexOf(s.window, ackno);
            if s.Base() <= ackno < s.nextSeqNumber then i == ackno - s.Base() else i == |s.window|
  {
    var i := IndexOf(s.window, ackno);
    if i < |s.window| { assert s.window[i].pkt == all[s.Base() + i]; }
    if s.Base() <= ackno < s.nextSeqNumber {
      assert s.window[ackno - s.Base()].pkt == all[ackno];
    }
  }

  lemma MarkedPrefix(s: Sender, all: seq<Packet>, m: nat)
    requires Ordered(s, all, 0) && m <= |s.window|
    ensures Ordered(s.(window := Flagged(s.window, 0, m)), all, m)
  {
  }

  /** What an ACK does, in terms of the numbers alone: it moves the base past its number if
      that is in the window, fetches as many new packets, and does nothing otherwise. */
  lemma AcknowledgeMoves(s: Sender, all: seq<Packet>, ackno: nat, net: Network)
    requires Sequential(all, 0) && Inv(s, all)
    ensures var t := Acknowledge(s, ackno, net);
            && Inv(t, all)
            && (if s.Base() <= ackno < s.nextSeqNumber then
                  t.Base() == ackno + 1 && t.nextSeqNumber == Min(s.nextSeqNumber + ackno + 1 - s.Base(), |all|)
                else t == s)
  {
    var i := IndexOf(s.window, ackno);
    IndexOfNumber(s, all, ackno);
    if i < |s.window| {
      var marked := s.(window := Flagged(s.window, 0, i + 1));
      MarkedPrefix(s, all, i + 1);
      AdvanceKeeps(marked, all, i + 1, net);
    }
  }

  lemma AcknowledgeWire(s: Sender, all: seq<Packet>, ackno: nat, net: Network)
    requires Sequential(all, 0) && Inv(s, all)
    ensures var t := Acknowledge(s, ackno, net);
            SendsOnlyNew(s, t) && (Lossless(net) ==> AllSent(t.wire, s.nextSeqNumber, t.nextSeqNumber))
  {
    var i := IndexOf(s.window, ackno);
    if i < |s.window| {
      var marked := s.(window := Flagged(s.window, 0, i + 1));
      MarkedPrefix(s, all, i + 1);
      AdvanceWire(marked, all, i + 1, net);
    }
  }

  // ---------- what is sent, exactly ----------

  /** The next n packets of the file as they are in the window after one send each. */
  function Fetched(all: seq<Packet>, next: nat, n: nat, clock: nat): seq<Slot>
    requires next + n <= |all|
  {
    seq(n, j requires 0 <= j < n => Slot(all[next + j], false, clock + j))
  }

  /** The first m packets have left the window, and the next n packets of the file follow. */
  ghost predicate WindowMoved(s: Sender, all: seq<Packet>, m: nat, n: nat, t: Sender) {
    && m <= |s.window| && s.nextSeqNumber + n <= |all|
    && t.window == s.window[m..] + Fetched(all, s.nextSeqNumber, n, s.clock)
    && t.clock == s.clock + n && t.nextSeqNumber == s.nextSeqNumber + n && t.todo == all[s.nextSeqNumber + n..]
  }

  /** The next n packets of the file have been sent, in order and each once. */
  ghost predicate WireMoved(s: Sender, all: seq<Packet>, net: Network, n: nat, t: Sender) {
    && s.nextSeqNumber + n <= |all|
    && t.wire == s.wire + LetThrough(all[s.nextSeqNumber..s.nextSeqNumber + n], net, s.clock)
  }

  ghost predicate Moved(s: Sender, all: seq<Packet>, net: Network, m: nat, n: nat, t: Sender) {
    WindowMoved(s, all, m, n, t) && WireMoved(s, all, net, n, t)
  }

  lemma PopAndSendMoves(s: Sender, all: seq<Packet>, m: nat, net: Network)
    requires Ordered(s, all, m) && s.window != []
    ensures Moved(s, all, net, 1, Min(1, |all| - s.nextSeqNumber), PopAndSend(s, net))
  {
    var t := PopAndSend(s, net);
    var next := s.nextSeqNumber;
    if s.todo != [] {
      assert s.todo[0] == all[next];
      assert t.window == s.window[1..] + [Slot(all[next], false, s.clock)];
      assert Fetched(all, next, 1, s.clock) == [Slot(all[next], false, s.clock)];
      assert all[next..next + 1] == [all[next]];
    } else {
      assert Fetched(all, next, 0, s.clock) == [];
    }
  }

  lemma {:induction false} LetThroughJoins(a: seq<Packet>, b: seq<Packet>, net: Network, from: nat)
    ensures LetThrough(a + b, net, from) == LetThrough(a, net, from) + LetThrough(b, net, from + |a|)
    decreases |a|
  {
    if a == [] {
      assert a + b == b;
    } else {
      assert (a + b)[1..] == a[1..] + b;
      LetThroughJoins(a[1..], b, net, from + 1);
    }
  }

  lemma WindowsJoin(window: seq<Slot>, all: seq<Packet>, next: nat, clock: nat, k: nat, m: nat, n: nat)
    requires m < |window| && next + k + n <= |all|
    ensures (window[1..] + Fetched(all, next, k, clock))[m..] + Fetched(all, next + k, n, clock + k)
         == window[m + 1..] + Fetched(all, next, k + n, clock)
  {
  }

  lemma WiresJoin(wire: seq<Packet>, all: seq<Packet>, next: nat, net: Network, clock: nat, k: nat, n: nat)
    requires next + k + n <= |all|
    ensures wire + LetThrough(all[next..next + k], net, clock) + LetThrough(all[next + k..next + k + n], net, clock + k)
         == wire + LetThrough(all[next..next + k + n], net, clock)
  {
    var a, b := all[next..next + k], all[next + k..next + k + n];
    assert a + b == all[next..next + k + n];
    LetThroughJoins(a, b, net, clock);
    Regroup(wire, LetThrough(a, net, clock), LetThrough(b, net, clock + k));
  }

  lemma Regroup(a: seq<Packet>, b: seq<Packet>, c: seq<Packet>)
    ensures (a + b) + c == a + (b + c)
  {
  }

  lemma WindowsMovedJoin(s: Sender, all: seq<Packet>, u: Sender, k: nat, m: nat, n: nat, t: Sender)
    requires WindowMoved(s, all, 1, k, u) && WindowMoved(u, all, m, n, t) && m < |s.window|
    ensures WindowMoved(s, all, m + 1, k + n, t)
  {
    WindowsJoin(s.window, all, s.nextSeqNumber, s.clock, k, m, n);
  }

  lemma WiresMovedJoin(s: Sender, all: seq<Packet>, net: Network, u: Sender, k: nat, n: nat, t: Sender)
    requires WireMoved(s, all, net, k, u) && WireMoved(u, all, net, n, t)
    requires u.nextSeqNumber == s.nextSeqNumber + k && u.clock == s.clock + k
    ensures WireMoved(s, all, net, k + n, t)
  {
    WiresJoin(s.wire, all, s.nextSeqNumber, net, s.clock, k, n);
  }

  lemma MovesJoin(s: Sender, all: seq<Packet>, net: Network, u: Sender, k: nat, m: nat, n: nat, t: Sender)
    requires Moved(s, all, net, 1, k, u) && Moved(u, all, net, m, n, t) && m < |s.window|
    ensures Moved(s, all, net, m + 1, k + n, t)
  {
    WindowsMovedJoin(s, all, u, k, m, n, t);
    WiresMovedJoin(s, all, net, u, k, n, t);
  }

  /** The first m packets of the window are acknowledged. The quantifier keeps this closed in
      proofs that only pass it on. */
  ghost predicate Marked(s: Sender, all: seq<Packet>, m: nat) {
    Sequential(all, 0) && forall k: nat :: k == m ==> Ordered(s, all, k) && WireKnown(s, all) && Filled(s)
  }

  lemma MarkedStep(s: Sender, all: seq<Packet>, m: nat, net: Network)
    requires Marked(s, all, m) && m > 0
    ensures s.window != [] && s.window[0].acked && m <= |s.window|
    ensures Advance(s, net) == Advance(PopAndSend(s, net), net) && s.nextSeqNumber <= |all|
    ensures var t := PopAndSend(s, net);
            && Marked(t, all, m - 1) && t.nextSeqNumber == Min(s.nextSeqNumber + 1, |all|)
            && Moved(s, all, net, 1, Fetches(s, all, 1), t)
  {
    assert Ordered(s, all, m);
    PopAndSendKeeps(s, all, m, net);
    PopAndSendMoves(s, all, m, net);
  }

  lemma MarkedDone(s: Sender, all: seq<Packet>, net: Network)
    requires Marked(s, all, 0)
    ensures Advance(s, net) == s && Moved(s, all, net, 0, 0, s)
  {
    assert Ordered(s, all, 0);
    assert s.window[0..] + Fetched(all, s.nextSeqNumber, 0, s.clock) == s.window;
    assert s.wire + LetThrough([], net, s.clock) == s.wire;
  }

  /** How many packets m pops fetch. */
  function Fetches(s: Sender, all: seq<Packet>, m: nat): nat {
    if s.nextSeqNumber >= |all| then 0 else Min(m, |all| - s.nextSeqNumber)
  }

  lemma StepThenMoves(s: Sender, all: seq<Packet>, m: nat, net: Network, u: Sender, t: Sender)
    requires 0 < m <= |s.window| && s.nextSeqNumber <= |all| && u.nextSeqNumber == Min(s.nextSeqNumber + 1, |all|)
    requires Moved(s, all, net, 1, Fetches(s, all, 1), u) && Moved(u, all, net, m - 1, Fetches(u, all, m - 1), t)
    ensures Moved(s, all, net, m, Fetches(s, all, m), t)
  {
    MovesJoin(s, all, net, u, Fetches(s, all, 1), m - 1, Fetches(u, all, m - 1), t);
  }

  /** The loop: every pop fetches and sends the next packet, while there is one. */
  lemma {:induction false} AdvanceExactly(s: Sender, all: seq<Packet>, m: nat, net: Network)
    requires Marked(s, all, m)
    ensures Moved(s, all, net, m, Fetches(s, all, m), Advance(s, net))
    decreases m
  {
    if m == 0 {
      MarkedDone(s, all, net);
    } else {
      MarkedStep(s, all, m, net);
      var u := PopAndSend(s, net);
      AdvanceExactly(u, all, m - 1, net);
      StepThenMoves(s, all, m, net, u, Advance(u, net));
    }
  }

  /** What an ACK leaves, in numbers: one in the window takes out everything up to its number and
      sends as many packets, as far as the file goes; any other changes nothing. */
  ghost predicate AckEffect(s: Sender, all: seq<Packet>, ackno: nat, net: Network, t: Sender) {
    if s.Base() <= ackno < s.nextSeqNumber then
      && s.nextSeqNumber <= |all|
      && Moved(s, all, net, ackno + 1 - s.Base(), Min(ackno + 1 - s.Base(), |all| - s.nextSeqNumber), t)
    else t == s
  }

  lemma AcknowledgeExactly(s: Sender, all: seq<Packet>, ackno: nat, net: Network)
    requires Sequential(all, 0) && Inv(s, all)
    ensures AckEffect(s, all, ackno, net, Acknowledge(s, ackno, net))
  {
    IndexOfNumber(s, all, ackno);
    if s.Base() <= ackno < s.nextSeqNumber {
      MarkedBy(s, all, ackno + 1 - s.Base());
      AcknowledgeFrom(s, all, ackno + 1 - s.Base(), ackno, net);
    }
  }

  lemma MarkedBy(s: Sender, all: seq<Packet>, m: nat)
    requires Sequential(all, 0) && Inv(s, all) && m <= |s.window|
    ensures Marked(s.(window := Flagged(s.window, 0, m)), all, m) && s.nextSeqNumber <= |all|
  {
    MarkedPrefix(s, all, m);
  }

  lemma UnflaggedMoves(s: Sender, all: seq<Packet>, net: Network, m: nat, n: nat, t: Sender)
    requires m <= |s.window| && Moved(s.(window := Flagged(s.window, 0, m)), all, net, m, n, t)
    ensures Moved(s, all, net, m, n, t)
  {
    assert Flagged(s.window, 0, m)[m..] == s.window[m..];
  }

  lemma AcknowledgeFrom(s: Sender, all: seq<Packet>, m: nat, ackno: nat, net: Network)
    requires 1 <= m <= |s.window| && IndexOf(s.window, ackno) == m - 1 && s.nextSeqNumber <= |all|
    requires Marked(s.(window := Flagged(s.window, 0, m)), all, m)
    ensures Moved(s, all, net, m, Min(m, |all| - s.nextSeqNumber), Acknowledge(s, ackno, net))
  {
    var marked := s.(window := Flagged(s.window, 0, m));
    AdvanceExactly(marked, all, m, net);
    UnflaggedMoves(s, all, net, m, Fetches(marked, all, m), Advance(marked, net));
  }

  lemma {:induction false} StartFromKeeps(s: Sender, all: seq<Packet>, i: nat, net: Network)
    requires Sequential(all, 0) && Inv(s, all) && i <= |s.window|
    ensures var t := StartFrom(s, i, net);
            Inv(t, all) && t.Base() == s.Base() && t.nextSeqNumber == s.nextSeqNumber
    decreases |s.window| - i
  {
    if i < |s.window| {
      SendKeeps(s, all, 0, i, net(s.clock));
      StartFromKeeps(SendPacket(s, i, net(s.clock)), all, i + 1, net);
    }
  }

  lemma StartKeeps(all: seq<Packet>, net: Network)
    requires Sequential(all, 0)
    ensures var s := StartFrom(Initial(all), 0, net);
            Inv(s, all) && s.Base() == 0
  {
    StartFromKeeps(Initial(all), all, 0, net);
  }

  /** The start puts the first packets of the file into the window, 200 at most, and sends each
      of them once, in order. */
  ghost predicate StartedWith(s: Sender, all: seq<Packet>, net: Network) {
    var n := Min(200, |all|);
    && s.window == Fetched(all, 0, n, 0) && s.wire == LetThrough(all[..n], net, 0)
    && s.clock == s.nextSeqNumber == n && s.todo == all[n..]
  }

  /** Position i of the start: the packets before it have been sent. */
  ghost predicate StartedTo(s: Sender, all: seq<Packet>, net: Network, i: nat) {
    var n := Min(200, |all|);
    && i <= n
    && s.window == Fetched(all, 0, i, 0) + seq(n - i, j requires 0 <= j < n - i => Slot(all[i + j], false, 0))
    && s.wire == LetThrough(all[..i], net, 0) && s.clock == i && s.nextSeqNumber == n && s.todo == all[n..]
  }

  lemma FirstUnsent(all: seq<Packet>, i: nat, n: nat)
    requires i < n <= |all|
    ensures var w := Fetched(all, 0, i, 0) + seq(n - i, j requires 0 <= j < n - i => Slot(all[i + j], false, 0));
            && |w| == n && w[i] == Slot(all[i], false, 0)
            && w[i := w[i].(stamp := i)]
               == Fetched(all, 0, i + 1, 0)
                  + seq(n - (i + 1), j requires 0 <= j < n - (i + 1) => Slot(all[i + 1 + j], false, 0))
  {
  }

  lemma StartSendsNext(s: Sender, all: seq<Packet>, net: Network, i: nat)
    requires StartedTo(s, all, net, i) && i < Min(200, |all|)
    ensures i < |s.window| && StartedTo(SendPacket(s, i, net(s.clock)), all, net, i + 1)
  {
    FirstUnsent(all, i, Min(200, |all|));
    assert all[..i + 1] == all[..i] + [all[i]];
    LetThroughJoins(all[..i], [all[i]], net, 0);
  }

  lemma {:induction false} StartsFrom(s: Sender, all: seq<Packet>, net: Network, i: nat)
    requires StartedTo(s, all, net, i)
    ensures |s.window| == Min(200, |all|) && StartedWith(StartFrom(s, i, net), all, net)
    decreases |all| - i
  {
    if i < Min(200, |all|) {
      StartSendsNext(s, all, net, i);
      StartsFrom(SendPacket(s, i, net(s.clock)), all, net, i + 1);
    }
  }

  lemma StartExactly(all: seq<Packet>, net: Network)
    ensures StartedWith(StartFrom(Initial(all), 0, net), all, net)
  {
    StartsFrom(Initial(all), all, net, 0);
  }

  /** An empty window means that every packet has been fetched and popped. */
  lemma NothingLeft(s: Sender, all: seq<Packet>)
    requires Inv(s, all) && s.window == []
    ensures s.nextSeqNumber == |all| && s.todo == []
  {
  }
}
