/** The Selective Repeat sender as functions on its state
    (server/strategy/selective_repeat_strategy.cpp). */
module SelectiveRepeat {
  import opened Bytes
  import opened DataPackets
  import opened SenderParts

  datatype Sender = Sender(
    window: seq<Slot>,          // front first
    aux: map<nat, Slot>,        // packets pushed back out of the window, by sequence number
    unacked: set<Entry>,        // the timer's index
    windowSize: nat,
    maxWindowSize: nat,
    threshold: nat,
    todo: seq<Packet>,          // what the packet builder still holds
    nextSeqNumber: nat,
    packetsSent: nat,
    clock: nat,
    wire: seq<Packet>)          // every packet handed to sendto, in order

  /** The constructor: an initial window of at most one packet. */
  function Initial(all: seq<Packet>, maxWindowSize: nat): Sender {
    var n := Min(1, |all|);
    Sender(seq(n, i requires 0 <= i < n => Slot(all[i], false, 0)), map[], {}, 1, maxWindowSize,
           maxWindowSize / 2, all[n..], 1 + n, 0, 0, [])
  }

  /** Moves everything past the window size from the window to aux and out of the index. */
  ghost function EvictTail(s: Sender): Sender {
    var keep := Min(|s.window|, s.windowSize);
    var tail := s.window[keep..];
    s.(window := s.window[..keep], aux := AuxOf(tail) + s.aux, unacked := EraseAll(s.unacked, tail))
  }

  ghost function Shrink(s: Sender, newSize: int): Sender {
    EvictTail(s.(threshold := Max(s.windowSize / 2, 1), windowSize := Max(newSize, 1)))
  }

  /** Puts window[i] on the wire unless it is dropped, stamps it, and indexes it. */
  ghost function Transmit(s: Sender, i: nat, outcome: Outcome): Sender
    requires i < |s.window|
  {
    var p := s.window[i].(stamp := s.clock);
    s.(window := s.window[i := p], unacked := Insert(s.unacked, EntryOf(p)),
       clock := s.clock + 1, wire := if outcome.Lost? then s.wire else s.wire + [p.pkt])
  }

  /** send_packet on window[i]: a loss event shrinks the window. */
  ghost function SendPacket(s: Sender, i: nat, outcome: Outcome): Sender
    requires i < |s.window|
  {
    var sent := Transmit(s, i, outcome);
    if outcome.TripleDup? then Shrink(sent, s.windowSize / 2) else sent
  }

  ghost predicate CanPull(s: Sender) {
    s.aux != map[] || s.todo != []
  }

  /** Takes the next packet from aux or from the builder and appends it to the window. */
  ghost function Pull(s: Sender): Sender
    requires CanPull(s)
  {
    if s.aux != map[] then
      var k := MinKey(s.aux);
      s.(aux := s.aux - {k}, window := s.window + [s.aux[k].(acked := false)])
    else
      s.(todo := s.todo[1..], nextSeqNumber := s.nextSeqNumber + 1,
         window := s.window + [Slot(s.todo[0], false, 0)])
  }

  /** The refill loop; a send inside it may halve the window size and evict the tail. */
  ghost function Expand(s: Sender, net: Network): Sender
    decreases s.windowSize, s.windowSize - |s.window|
  {
    if |s.window| < s.windowSize && CanPull(s) then
      var pulled := Pull(s);
      Expand(SendPacket(pulled, |s.window|, net(s.clock)), net)
    else s
  }

  function AdjustedSize(windowSize: nat, threshold: nat, maxWindowSize: nat): nat {
    Min(if windowSize < threshold then windowSize * 2 else windowSize + 1, maxWindowSize)
  }

  function Adjust(s: Sender): Sender {
    s.(windowSize := AdjustedSize(s.windowSize, s.threshold, s.maxWindowSize))
  }

  /** Pops the acknowledged front. */
  function Advance(s: Sender): Sender
    decreases |s.window|
  {
    if s.window != [] && s.window[0].acked then
      Advance(s.(window := s.window[1..], packetsSent := s.packetsSent + 1))
    else s
  }

  ghost function MarkAcked(s: Sender, i: nat): Sender
    requires i < |s.window|
  {
    s.(window := s.window[i := s.window[i].(acked := true)], unacked := Erase(s.unacked, s.window[i].stamp))
  }

  /** An ACK that is intact and names a window packet not yet acknowledged. */
  predicate Accepts(s: Sender, a: Ack) {
    var i := IndexOf(s.window, a.ackno);
    a.Intact() && i < |s.window| && !s.window[i].acked
  }

  ghost function Acknowledge(s: Sender, a: Ack, net: Network): Sender {
    if Accepts(s, a) then
      var i := IndexOf(s.window, a.ackno);
      var marked := MarkAcked(s, i);
      Expand(Adjust(if i == 0 then Advance(marked) else marked), net)
    else s
  }

  /** The timeout branch as one step: it looks up the first member of the index, erases it,
      shrinks the window to one packet, and resends the front of the window. */
  ghost function HandleTimeOut(s: Sender, net: Network): Sender
    requires s.unacked != {} && s.window != []
  {
    var first := First(s.unacked);
    var erased := s.(unacked := Erase(s.unacked, first.stamp));
    SendPacket(Shrink(erased, 1), 0, net(s.clock))
  }

  /** start(): sends the window from position i on. */
  ghost function StartFrom(s: Sender, i: nat, net: Network): Sender
    requires i <= |s.window|
    decreases |s.window| - i
  {
    if i == |s.window| then s
    else
      var next := SendPacket(s, i, net(s.clock));
      if i + 1 <= |next.window| then StartFrom(next, i + 1, net) else next
  }
}
