/** The Selective Repeat sender as an object over shared packet objects: every method is
    proved to do to the heap what the corresponding function does to the state. */
module SelectiveRepeatSender {
  import opened Bytes
  import opened PacketUtil
  import opened DataPackets
  import opened PacketBuilders
  import opened SenderParts
  import opened PacketLinks
  import Spec = SelectiveRepeat
  import Facts = SelectiveRepeatInvariant

  // ---------- single list operations, on values ----------

  ghost function EvictedOne(s: Spec.Sender): Spec.Sender
    requires |s.window| > s.windowSize
  {
    Displaced(s.(unacked := Erase(s.unacked, s.window[s.windowSize].stamp)))
  }

  function Displaced(s: Spec.Sender): Spec.Sender
    requires |s.window| > s.windowSize
  {
    var p := s.window[s.windowSize];
    s.(window := s.window[..s.windowSize] + s.window[s.windowSize + 1..],
       aux := if p.pkt.seqno in s.aux then s.aux else s.aux[p.pkt.seqno := p])
  }

  /** Evicting one packet leaves the rest of the same tail to evict. */
  lemma EvictOne(s: Spec.Sender)
    requires |s.window| > s.windowSize
    ensures Spec.EvictTail(EvictedOne(s)) == Spec.EvictTail(s)
  {
    var n, t := s.windowSize, EvictedOne(s);
    var tail, rest := s.window[n..], t.window[n..];
    assert tail == [s.window[n]] + rest;
    assert tail[1..] == rest && tail[0] == s.window[n];
    assert AuxOf(tail) + s.aux == AuxOf(rest) + t.aux;
    EraseSplit(s.unacked, tail);
    assert t.window[..n] == s.window[..n];
  }

  lemma EraseSplit(u: set<Entry>, slots: seq<Slot>)
    requires slots != []
    ensures EraseAll(u, slots) == EraseAll(Erase(u, slots[0].stamp), slots[1..])
  {
    var v := EraseAll(Erase(u, slots[0].stamp), slots[1..]);
    forall e <- u
      ensures e in EraseAll(u, slots) <==> e in v
    {
      if e in v {
        forall i | 0 <= i < |slots|
          ensures slots[i].stamp != e.stamp
        {
          if i > 0 { assert slots[1..][i - 1].stamp != e.stamp; }
        }
      } else if e.stamp != slots[0].stamp {
        var i :| 0 <= i < |slots[1..]| && slots[1..][i].stamp == e.stamp;
        assert slots[i + 1].stamp == e.stamp;
      }
    }
  }

  lemma NothingToEvict(s: Spec.Sender)
    requires |s.window| <= s.windowSize
    ensures Spec.EvictTail(s) == s
  {
    assert s.window[..|s.window|] == s.window && s.window[|s.window|..] == [];
    assert EraseAll(s.unacked, []) == s.unacked;
    assert AuxOf([]) + s.aux == s.aux;
  }

  /** Spec.Transmit with the test of the insertion decided. */
  function Transmitted(s: Spec.Sender, i: nat, outcome: Outcome, present: bool): Spec.Sender
    requires i < |s.window|
  {
    var p := s.window[i].(stamp := s.clock);
    s.(window := s.window[i := p], unacked := if present then s.unacked else s.unacked + {EntryOf(p)},
       clock := s.clock + 1, wire := if outcome.Lost? then s.wire else s.wire + [p.pkt])
  }

  lemma TransmitIs(s: Spec.Sender, i: nat, outcome: Outcome, unacked: map<nat, DataPacket>, repr: set<DataPacket>)
    requires i < |s.window| && TimersLinked(unacked, s.unacked, repr)
    ensures Spec.Transmit(s, i, outcome) == Transmitted(s, i, outcome, s.clock in unacked)
  {
    if s.clock in unacked {
      assert Entry(s.clock, unacked[s.clock].seqno) in s.unacked;
    }
  }

  /** The packet pulled from aux, in two steps: its ACK flag is cleared, then it moves. */
  lemma PullAfterClear(s: Spec.Sender, k: nat)
    requires IsMinKey(s.aux, k)
    ensures var t := s.(aux := s.aux[k := s.aux[k].(acked := false)]);
            Spec.Pull(s) == t.(aux := t.aux - {k}, window := t.window + [t.aux[k]])
  {
    assert MinKey(s.aux) == k;
    assert s.aux[k := s.aux[k].(acked := false)] - {k} == s.aux - {k};
  }

  function Unfilled(all: seq<Packet>, maxWindowSize: nat): Spec.Sender {
    Spec.Sender([], map[], {}, 1, maxWindowSize, maxWindowSize / 2, all, 1, 0, 0, [])
  }

  function FilledOnce(all: seq<Packet>, maxWindowSize: nat): Spec.Sender
    requires all != []
  {
    Unfilled(all, maxWindowSize).(window := [Slot(all[0], false, 0)], todo := all[1..], nextSeqNumber := 2)
  }

  lemma InitialIs(all: seq<Packet>, maxWindowSize: nat)
    ensures Spec.Initial(all, maxWindowSize)
         == if all == [] then Unfilled(all, maxWindowSize) else FilledOnce(all, maxWindowSize)
  {
    var s := Spec.Initial(all, maxWindowSize);
    if all == [] {
      assert s.window == [] && s.todo == [];
    } else {
      assert s.window == [Slot(all[0], false, 0)];
    }
  }

  class SelectiveRepeatSender {
    var window: seq<DataPacket>
    var auxWindow: map<nat, DataPacket>
    var unackedPackets: map<nat, DataPacket>    // by time stamp
    var windowSize: nat
    const maxWindowSize: nat
    var threshold: nat
    const packetBuilder: PacketBuilder
    var nextSeqNumber: uint32
    var packetsSent: nat
    var clock: nat
    var wire: seq<Packet>
    ghost var repr: set<DataPacket>     // every packet object taken from the builder so far
    ghost var state: Spec.Sender        // the value of all of the above

    ghost predicate CountersLinked()
      reads this
    {
      && state.windowSize == windowSize && state.maxWindowSize == maxWindowSize && state.threshold == threshold
      && state.nextSeqNumber == nextSeqNumber && state.packetsSent == packetsSent
      && state.clock == clock && state.wire == wire
    }

    /** The fields and the packet objects are what state says. */
    ghost predicate Linked()
      reads this, repr, packetBuilder, packetBuilder.packetsReadQueue
    {
      && CountersLinked() && packetBuilder.Holds(nextSeqNumber, state.todo) && WindowLinked(window, state.window, repr)
      && AuxLinked(auxWindow, state.aux, repr) && TimersLinked(unackedPackets, state.unacked, repr)
    }

    /** What the public operations keep. */
    ghost predicate Valid(all: seq<Packet>)
      reads this, repr, packetBuilder, packetBuilder.packetsReadQueue
    {
      Linked() && Facts.Steady(state, all)
    }

    constructor (file: bytes, maxWindowSize: nat)
      requires |Chunks(file)| + 1 < 0x1_0000_0000
      ensures Linked() && state == Spec.Initial(Numbered(Chunks(file), 1), maxWindowSize)
      ensures fresh(packetBuilder) && fresh(repr)
    {
      packetBuilder := new PacketBuilder(file, 1);
      nextSeqNumber := 1;
      windowSize := 1;
      this.maxWindowSize := maxWindowSize;
      threshold := maxWindowSize / 2;
      window, auxWindow, unackedPackets := [], map[], map[];
      packetsSent, clock, wire := 0, 0, [];
      repr := {};
      state := Unfilled([], maxWindowSize);
      new;
      Prepare(file);
    }

    /** Ties the empty sender to its builder and fills the window. */
    method Prepare(ghost file: bytes)
      requires |Chunks(file)| + 1 < 0x1_0000_0000 && Blank()
      requires packetBuilder.Valid() && packetBuilder.queueSize == 1 && packetBuilder.packetsReadQueue == []
      requires packetBuilder.file == file && packetBuilder.Unread() == file
      modifies this, packetBuilder
      ensures Linked() && state == Spec.Initial(Numbered(Chunks(file), 1), maxWindowSize) && fresh(repr)
    {
      packetBuilder.AllRemaining(1);
      state := Unfilled(packetBuilder.Remaining(1), maxWindowSize);
      FillWindow();
    }

    ghost predicate Blank()
      reads this
    {
      && CountersLinked() && state == Unfilled(state.todo, maxWindowSize)
      && window == [] && auxWindow == map[] && unackedPackets == map[] && repr == {}
    }

    /** fill_window, with which the constructor ends. */
    method FillWindow()
      requires Blank() && packetBuilder.Holds(nextSeqNumber, state.todo)
      modifies this, packetBuilder
      ensures Linked() && state == Spec.Initial(old(state.todo), maxWindowSize)
      ensures fresh(repr)
    {
      ghost var all := state.todo;
      packetBuilder.HasNextIffRemaining(nextSeqNumber);
      while |window| < windowSize && packetBuilder.HasNext()
        invariant Linked() && windowSize == 1 && fresh(repr)
        invariant packetBuilder.HasNext() <==> state.todo != []
        invariant state == Unfilled(all, maxWindowSize) || (all != [] && state == FilledOnce(all, maxWindowSize))
        decreases windowSize - |window|
      {
        FillOne();
        packetBuilder.HasNextIffRemaining(nextSeqNumber);
      }
      InitialIs(all, maxWindowSize);
    }

    method FillOne()
      requires Linked() && state == Unfilled(state.todo, maxWindowSize) && state.todo != []
      modifies this, packetBuilder
      ensures Linked() && state == FilledOnce(old(state.todo), maxWindowSize)
      ensures forall p <- repr :: p in old(repr) || fresh(p)
    {
      packetBuilder.HasNextIffRemaining(nextSeqNumber);
      var packet, next := packetBuilder.GetNextPacket(nextSeqNumber);
      nextSeqNumber := next;
      window := window + [packet];
      repr := repr + {packet};
      state := FilledOnce(state.todo, maxWindowSize);
    }

    method ShrinkWindow(newSize: int)
      requires Linked()
      modifies this
      ensures Linked() && state == Spec.Shrink(old(state), newSize)
      ensures repr == old(repr)
    {
      SetSizes(newSize);
      ghost var resized := state;
      while |window| > windowSize
        invariant Linked() && repr == old(repr)
        invariant Spec.EvictTail(state) == Spec.EvictTail(resized)
        decreases |window|
      {
        EvictOne(state);
        EvictPacket();
      }
      NothingToEvict(state);
    }

    method SetSizes(newSize: int)
      requires Linked()
      modifies this`threshold, this`windowSize, this`state
      ensures Linked()
      ensures state == old(state).(threshold := Max(old(windowSize) / 2, 1), windowSize := Max(newSize, 1))
    {
      var newThreshold := windowSize / 2;
      threshold := if newThreshold < 1 then 1 else newThreshold;
      windowSize := if newSize < 1 then 1 else newSize;
      state := state.(threshold := threshold, windowSize := windowSize);
    }

    /** One round of the eviction loop: window[windowSize] goes to aux and out of the index. */
    method EvictPacket()
      requires Linked() && |state.window| > state.windowSize
      modifies this
      ensures Linked() && state == EvictedOne(old(state))
      ensures repr == old(repr)
    {
      EraseStamp(window[windowSize].timeStamp);
      MoveToAux();
    }

    method MoveToAux()
      requires Linked() && |state.window| > state.windowSize
      modifies this
      ensures old(|state.window| > state.windowSize)
      ensures Linked() && state == Displaced(old(state)) && repr == old(repr)
    {
      var p := window[windowSize];
      window, auxWindow, state :=
        window[..windowSize] + window[windowSize + 1..],
        if p.seqno in auxWindow then auxWindow else auxWindow[p.seqno := p],
        Displaced(state);
    }

    /** No other window or aux position holds window[i], and it is not in the timer index. */
    ghost predicate Alone(i: nat)
      reads this
      requires i < |window|
    {
      && (forall j :: 0 <= j < |window| && j != i ==> window[j] != window[i])
      && (forall k :: k in auxWindow ==> auxWindow[k] != window[i])
      && (forall t :: t in unackedPackets ==> unackedPackets[t] != window[i])
    }

    /** The time stamp is set while the packet is outside the set that is ordered by it. */
    method TransmitPacket(packet: DataPacket, ghost i: nat, outcome: Outcome)
      requires Linked() && i < |window| && window[i] == packet && Alone(i)
      modifies this, packet
      ensures Linked() && state == Transmitted(old(state), i, outcome, old(clock in unackedPackets))
      ensures repr == old(repr)
    {
      StampPacket(packet, i);
      IndexPacket(packet, i);
      PutOnWire(packet, i, outcome);
    }

    method StampPacket(packet: DataPacket, ghost i: nat)
      requires Linked() && i < |window| && window[i] == packet && Alone(i)
      modifies this`state, packet
      ensures Linked() && state == old(state).(window := old(state).window[i := old(state).window[i].(stamp := clock)])
    {
      packet.timeStamp := clock;
      state := state.(window := state.window[i := state.window[i].(stamp := clock)]);
    }

    method IndexPacket(packet: DataPacket, ghost i: nat)
      requires Linked() && i < |window| && window[i] == packet
      modifies this`unackedPackets, this`state
      ensures Linked()
      ensures old(packet.timeStamp in unackedPackets) ==> state == old(state)
      ensures old(packet.timeStamp !in unackedPackets) ==>
        state == old(state).(unacked := old(state).unacked + {EntryOf(old(state).window[i])})
    {
      assert SlotOf(packet) == state.window[i];
      if packet.timeStamp !in unackedPackets {
        TimersAdd(unackedPackets, state.unacked, repr, packet);
        unackedPackets, state := unackedPackets[packet.timeStamp := packet],
          state.(unacked := state.unacked + {EntryOf(state.window[i])});
      }
    }

    /** Hands the packet to sendto unless it is dropped; every send advances the clock. */
    method PutOnWire(packet: DataPacket, ghost i: nat, outcome: Outcome)
      requires Linked() && i < |window| && window[i] == packet
      modifies this`wire, this`clock, this`state
      ensures Linked()
      ensures state == old(state).(clock := old(clock) + 1,
        wire := if outcome.Lost? then old(wire) else old(wire) + [old(state).window[i].pkt])
    {
      assert SlotOf(packet) == state.window[i];
      wire, clock, state :=
        if outcome != Lost then wire + [packet.Value()] else wire,
        clock + 1,
        state.(clock := clock + 1, wire := if outcome.Lost? then wire else wire + [packet.Value()]);
    }

    method SendPacket(packet: DataPacket, ghost i: nat, net: Network)
      requires Linked() && i < |window| && window[i] == packet && Alone(i)
      modifies this, packet
      ensures Linked() && state == Spec.SendPacket(old(state), i, net(old(clock)))
      ensures repr == old(repr)
    {
      TransmitIs(state, i, net(clock), unackedPackets, repr);
      var tripleDupAck := net(clock) == TripleDup;
      TransmitPacket(packet, i, net(clock));
      if tripleDupAck {
        ShrinkWindow(windowSize / 2);
      }
    }

    /** Sequence numbers keep packet objects apart. */
    lemma Apart(all: seq<Packet>, i: nat, skip: int)
      requires Linked() && Facts.Core(state, all, skip) && i < |window|
      ensures window[i].seqno == state.packetsSent + i + 1
      ensures forall j :: 0 <= j < |window| && j != i ==> window[j] != window[i]
      ensures forall k :: k in auxWindow ==> auxWindow[k] != window[i] && auxWindow[k].seqno == k
      ensures forall t :: t in unackedPackets && unackedPackets[t] == window[i] ==> i != skip
    {
      forall j | 0 <= j < |window|
        ensures window[j].seqno == state.packetsSent + j + 1
      {
        assert state.window[j].pkt == all[state.packetsSent + j];
      }
      forall k | k in auxWindow
        ensures auxWindow[k].seqno == k && k > state.packetsSent + |window|
      {
        assert state.aux[k].pkt == all[k - 1];
      }
      forall t | t in unackedPackets && unackedPackets[t] == window[i]
        ensures i != skip
      {
        var e := Entry(t, window[i].seqno);
        assert Facts.Owner(state.window, e, e.seqno - state.packetsSent - 1, skip);
      }
    }

    /** Takes the next packet from aux or the builder, clears its ACK flag, and appends it. */
    method PullPacket(ghost all: seq<Packet>) returns (pkt: DataPacket)
      requires Linked() && Facts.Kept(state, all) && Spec.CanPull(state)
      modifies this, packetBuilder, repr
      ensures Linked() && state == Spec.Pull(old(state))
      ensures old(repr) <= repr && fresh(repr - old(repr))
      ensures |window| == |old(window)| + 1 && window[|old(window)|] == pkt
    {
      if auxWindow != map[] {
        pkt := TakeFromAux(all);
      } else {
        pkt := TakeFromBuilder();
      }
    }

    method TakeFromAux(ghost all: seq<Packet>) returns (pkt: DataPacket)
      requires Linked() && Facts.Kept(state, all) && auxWindow != map[]
      modifies this, repr
      ensures Linked() && state == Spec.Pull(old(state)) && repr == old(repr)
      ensures |window| == |old(window)| + 1 && window[|old(window)|] == pkt
    {
      assert Facts.Core(state, all, -1);
      MinKeyExists(auxWindow);
      var k :| IsMinKey(auxWindow, k);
      assert k in state.aux;
      forall i | 0 <= i < |window|
        ensures window[i] != auxWindow[k]
      {
        Apart(all, i, -1);
      }
      AuxApart(all);
      assert IsMinKey(state.aux, k);
      pkt := MoveFromAux(k);
    }

    method MoveFromAux(k: nat) returns (pkt: DataPacket)
      requires Linked() && k in auxWindow && IsMinKey(state.aux, k)
      requires forall i :: 0 <= i < |window| ==> window[i] != auxWindow[k]
      requires forall j :: j in auxWindow ==> auxWindow[j].seqno == j
      modifies this, repr
      ensures Linked() && state == Spec.Pull(old(state)) && repr == old(repr)
      ensures |window| == |old(window)| + 1 && window[|old(window)|] == pkt
    {
      PullAfterClear(state, k);
      pkt := auxWindow[k];
      ClearAck(k);
      AppendFromAux(k);
    }

    method AppendFromAux(k: nat)
      requires Linked() && k in auxWindow
      modifies this`window, this`auxWindow, this`state
      ensures k in old(state).aux && Linked() && window == old(window) + [old(auxWindow[k])]
      ensures state == old(state).(aux := old(state).aux - {k}, window := old(state).window + [old(state).aux[k]])
    {
      window, auxWindow, state := window + [auxWindow[k]], auxWindow - {k},
        state.(aux := state.aux - {k}, window := state.window + [state.aux[k]]);
    }

    method ClearAck(k: nat)
      requires Linked() && k in auxWindow
      requires forall i :: 0 <= i < |window| ==> window[i] != auxWindow[k]
      requires forall j :: j in auxWindow ==> auxWindow[j].seqno == j
      modifies this`state, auxWindow[k]
      ensures k in old(state).aux
      ensures Linked() && state == old(state).(aux := old(state).aux[k := old(state).aux[k].(acked := false)])
    {
      auxWindow[k].acked := false;
      state := state.(aux := state.aux[k := state.aux[k].(acked := false)]);
    }

    lemma AuxApart(all: seq<Packet>)
      requires Linked() && Facts.Core(state, all, -1)
      ensures forall k :: k in auxWindow ==> auxWindow[k].seqno == k
    {
      forall k | k in auxWindow
        ensures auxWindow[k].seqno == k
      {
        assert state.aux[k].pkt == all[k - 1];
      }
    }

    method TakeFromBuilder() returns (pkt: DataPacket)
      requires Linked() && auxWindow == map[] && state.todo != []
      modifies this, packetBuilder
      ensures Linked() && state == Spec.Pull(old(state))
      ensures repr == old(repr) + {pkt} && fresh(pkt)
      ensures |window| == |old(window)| + 1 && window[|old(window)|] == pkt
    {
      packetBuilder.HasNextIffRemaining(nextSeqNumber);
      assert state.aux == map[];
      var next;
      pkt, next := packetBuilder.GetNextPacket(nextSeqNumber);
      nextSeqNumber := next;
      pkt.acked := false;
      window := window + [pkt];
      repr := repr + {pkt};
      state := Spec.Pull(state);
    }

    /** The refill loop terminates although a send inside it may shrink the window. */
    method ExpandWindow(ghost all: seq<Packet>, net: Network)
      requires Linked() && Facts.Kept(state, all)
      modifies this, packetBuilder, repr
      ensures Linked() && state == Spec.Expand(old(state), net)
      ensures old(repr) <= repr && fresh(repr - old(repr))
    {
      ghost var goal := Spec.Expand(state, net);
      var more := HasMore();
      while |window| < windowSize && more
        invariant Linked() && Facts.Kept(state, all)
        invariant Spec.Expand(state, net) == goal
        invariant old(repr) <= repr && fresh(repr - old(repr))
        invariant more <==> Spec.CanPull(state)
        decreases windowSize, windowSize - |window|
      {
        more := SendAndLook(all, net);
      }
      Facts.ExpandDone(state, net);
    }

    /** One round, and the test that decides on another. */
    method SendAndLook(ghost all: seq<Packet>, net: Network) returns (more: bool)
      requires Linked() && Facts.Kept(state, all) && |window| < windowSize && Spec.CanPull(state)
      modifies this, packetBuilder, repr
      ensures Linked() && Facts.Kept(state, all)
      ensures Spec.Expand(state, net) == Spec.Expand(old(state), net) && (more <==> Spec.CanPull(state))
      ensures |window| <= windowSize && (windowSize < old(windowSize)
        || (windowSize == old(windowSize) && windowSize - |window| < old(windowSize - |window|)))
      ensures old(repr) <= repr && fresh(repr - old(repr))
    {
      Facts.RoundUnfolds(state, net);
      SendNext(all, net);
      more := HasMore();
    }

    /** Whether aux or the builder can supply a packet. */
    method HasMore() returns (more: bool)
      requires Linked()
      ensures more <==> Spec.CanPull(state)
    {
      packetBuilder.HasNextIffRemaining(nextSeqNumber);
      assert auxWindow == map[] <==> state.aux == map[];
      return auxWindow != map[] || packetBuilder.HasNext();
    }

    /** One round of the refill loop. */
    method SendNext(ghost all: seq<Packet>, net: Network)
      requires Linked() && Facts.Kept(state, all) && |window| < windowSize && Spec.CanPull(state)
      modifies this, packetBuilder, repr
      ensures Linked() && Facts.Kept(state, all)
      ensures state == Facts.Round(old(state), net(old(clock)))
      ensures |window| <= windowSize && (windowSize < old(windowSize)
        || (windowSize == old(windowSize) && windowSize - |window| < old(windowSize - |window|)))
      ensures old(repr) <= repr && fresh(repr - old(repr))
    {
      ghost var last := |window|;
      Facts.RoundFacts(state, all, net(clock));
      var pkt := PullPacket(all);
      AloneAt(all, last);
      SendPacket(pkt, last, net);
    }

    /** The packet just pulled is held nowhere else. */
    lemma AloneAt(all: seq<Packet>, i: nat)
      requires Linked() && i < |window| && Facts.StampDue(state, all, i)
      ensures Alone(i)
    {
      assert Facts.Core(state, all, i);
      Apart(all, i, i);
    }

    method AdjustWindowSize()
      requires Linked()
      modifies this
      ensures Linked() && state == Spec.Adjust(old(state)) && repr == old(repr)
    {
      var newSize := if windowSize < threshold then windowSize * 2 else windowSize + 1;
      windowSize := if newSize > maxWindowSize then maxWindowSize else newSize;
      state := Spec.Adjust(state);
    }

    method AdvanceWindow()
      requires Linked()
      modifies this
      ensures Linked() && state == Spec.Advance(old(state)) && repr == old(repr)
    {
      while window != [] && window[0].acked
        invariant Linked() && Spec.Advance(state) == Spec.Advance(old(state)) && repr == old(repr)
        decreases |window|
      {
        PopFront();
      }
    }

    method PopFront()
      requires Linked() && window != [] && window[0].acked
      modifies this
      ensures Linked() && repr == old(repr) && old(state).window != [] && old(state).window[0].acked
      ensures |window| == |old(window)| - 1
      ensures state == old(state).(window := old(state).window[1..], packetsSent := old(state).packetsSent + 1)
    {
      window, packetsSent, state := window[1..], packetsSent + 1,
        state.(window := state.window[1..], packetsSent := state.packetsSent + 1);
    }

    /** Sets the ACK flag of window[i] and takes it out of the timer index. */
    method MarkAcked(i: nat)
      requires Linked() && i < |window|
      requires forall j :: 0 <= j < |window| && j != i ==> window[j] != window[i]
      requires forall k :: k in auxWindow ==> auxWindow[k] != window[i]
      modifies this, repr
      ensures Linked() && state == Spec.MarkAcked(old(state), i) && repr == old(repr)
      ensures window == old(window)
    {
      window[i].acked := true;
      unackedPackets, state := unackedPackets - {window[i].timeStamp}, Spec.MarkAcked(state, i);
    }

    /** The scan for the packet an ACK names. */
    method FindPacket(ackno: uint32) returns (it: nat)
      requires Linked()
      ensures it == IndexOf(state.window, ackno)
    {
      it := 0;
      while it < |window| && ackno != window[it].seqno
        invariant it <= |window|
        invariant forall j :: 0 <= j < it ==> state.window[j].pkt.seqno != ackno
      {
        assert SlotOf(window[it]) == state.window[it];
        it := it + 1;
      }
      if it < |window| {
        assert SlotOf(window[it]) == state.window[it];
        IndexOfIs(state.window, ackno, it);
      }
    }

    method AcknowledgePacket(ackPkt: AckPacket, ghost all: seq<Packet>, net: Network)
      requires Valid(all)
      modifies this, packetBuilder, repr
      ensures Valid(all) && state == Spec.Acknowledge(old(state), ackPkt.Value(), net)
      ensures old(repr) <= repr && fresh(repr - old(repr))
    {
      Facts.AcknowledgeStaysSteady(state, all, ackPkt.Value(), net);
      ScanForAck(ackPkt, all, net);
    }

    /** The body of acknowledge_packet between lock and unlock, with the checksum test. */
    method ScanForAck(ackPkt: AckPacket, ghost all: seq<Packet>, net: Network)
      requires Valid(all)
      modifies this, packetBuilder, repr
      ensures Linked() && state == Spec.Acknowledge(old(state), ackPkt.Value(), net)
      ensures old(repr) <= repr && fresh(repr - old(repr))
    {
      var sum := CalculateAckChecksum(ackPkt.len, ackPkt.ackno);
      AcceptedIs(ackPkt.Value(), IndexOf(state.window, ackPkt.ackno), net);
      if ackPkt.cksum == sum.value {
        var it := FindPacket(ackPkt.ackno);
        if it < |window| && !window[it].acked {
          AcceptAck(it, all, net);
        }
      }
    }

    lemma AcceptedIs(a: Ack, it: nat, net: Network)
      requires Linked() && it == IndexOf(state.window, a.ackno)
      ensures Spec.Acknowledge(state, a, net)
           == if a.cksum == AckChecksum(a.len, a.ackno) && it < |window| && !window[it].acked
              then Spec.Expand(Spec.Adjust(Facts.Settled(state, it)), net) else state
    {
      if it < |window| { assert SlotOf(window[it]) == state.window[it]; }
    }

    /** What an accepted ACK for window[it] does. */
    method AcceptAck(it: nat, ghost all: seq<Packet>, net: Network)
      requires Valid(all) && it < |window| && !window[it].acked
      modifies this, packetBuilder, repr
      ensures Linked() && it < |old(state).window| && !old(state).window[it].acked
      ensures state == Spec.Expand(Spec.Adjust(Facts.Settled(old(state), it)), net)
      ensures old(repr) <= repr && fresh(repr - old(repr))
    {
      assert SlotOf(window[it]) == state.window[it];
      SettlePacket(it, all);
      Refill(all, net);
    }

    /** Grows the window size and fills the window up. */
    method Refill(ghost all: seq<Packet>, net: Network)
      requires Linked() && Facts.Kept(Spec.Adjust(state), all)
      modifies this, packetBuilder, repr
      ensures Linked() && state == Spec.Expand(Spec.Adjust(old(state)), net)
      ensures old(repr) <= repr && fresh(repr - old(repr))
    {
      AdjustWindowSize();
      ExpandWindow(all, net);
    }

    /** Marks one packet and, at the front, slides the window. */
    method SettlePacket(it: nat, ghost all: seq<Packet>)
      requires Valid(all) && it < |window| && !state.window[it].acked
      modifies this, repr
      ensures Linked() && state == Facts.Settled(old(state), it) && repr == old(repr)
      ensures Facts.Kept(Spec.Adjust(state), all)
    {
      ApartFromAll(all, it);
      Facts.SettledKept(state, all, it);
      MarkAcked(it);
      if it == 0 {
        AdvanceWindow();
      }
    }

    lemma ApartFromAll(all: seq<Packet>, i: nat)
      requires Valid(all) && i < |window|
      ensures forall j :: 0 <= j < |window| && j != i ==> window[j] != window[i]
      ensures forall k :: k in auxWindow ==> auxWindow[k] != window[i]
    {
      assert Facts.Inv(state, all);
      Apart(all, i, -1);
    }

    /** The timeout branch; its index lookup finds the front of the window. */
    method HandleTimeOut(ghost all: seq<Packet>, net: Network)
      requires Valid(all) && unackedPackets != map[]
      modifies this, repr
      ensures old(state).unacked != {} && old(state).window != []
      ensures Valid(all) && state == Spec.HandleTimeOut(old(state), net)
      ensures repr == old(repr)
    {
      var t := EarliestStamp(all);
      Facts.TimeOutFacts(state, all, net);
      EraseStamp(t);
      ShrinkWindow(1);
      AloneAt(all, 0);
      SendPacket(window[0], 0, net);
    }

    method EarliestStamp(ghost all: seq<Packet>) returns (t: nat)
      requires Valid(all) && unackedPackets != map[]
      ensures state.unacked != {} && state.window != [] && |window| > 0
      ensures t in unackedPackets && t == First(state.unacked).stamp == state.window[0].stamp
    {
      assert Facts.Inv(state, all);
      MinKeyExists(unackedPackets);
      t :| IsMinKey(unackedPackets, t);
      assert Entry(t, unackedPackets[t].seqno) in state.unacked;
      Facts.WindowIffTimer(state, all);
      Facts.FirstIsFront(state, all);
      assert First(state.unacked) in state.unacked;
    }

    /** Erases a member of the index by its stamp. */
    method EraseStamp(t: nat)
      requires Linked()
      modifies this
      ensures Linked() && repr == old(repr)
      ensures state == old(state).(unacked := Erase(old(state).unacked, t))
    {
      unackedPackets, state := unackedPackets - {t}, state.(unacked := Erase(state.unacked, t));
    }

    /** start() sends the initial window, which holds at most one packet. */
    method Start(ghost all: seq<Packet>, net: Network)
      requires Linked() && Sequential(all, 1) && maxWindowSize >= 1 && state == Spec.Initial(all, maxWindowSize)
      modifies this, repr
      ensures Valid(all) && state == Spec.StartFrom(old(state), 0, net) && repr == old(repr)
    {
      Facts.StartFacts(all, maxWindowSize, net);
      SendAll(all, net);
    }

    /** The loop of start(). */
    method SendAll(ghost all: seq<Packet>, net: Network)
      requires Linked() && |state.window| <= 1 && state.windowSize == 1
      requires state.window != [] ==> Facts.StampDue(state, all, 0)
      modifies this, repr
      ensures Linked() && state == Spec.StartFrom(old(state), 0, net) && repr == old(repr)
    {
      var it := 0;
      while it < |window|
        invariant Linked() && repr == old(repr) && it <= |window| && |window| <= 1
        invariant it == 0 ==> state == old(state)
        invariant Spec.StartFrom(state, it, net) == Spec.StartFrom(old(state), 0, net)
      {
        AloneAt(all, 0);
        Facts.SendOnly(state, net(clock));
        SendPacket(window[it], it, net);
        it := it + 1;
      }
    }
  }
}
