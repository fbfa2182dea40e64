/** How the congestion window grows between two loss events
    (server/strategy/selective_repeat_strategy.cpp, adjust_window_size). */
module WindowGrowth {
  import opened Bytes
  import opened DataPackets
  import opened SenderParts
  import opened SelectiveRepeat
  import opened SelectiveRepeatInvariant
  import opened SelectiveRepeatEffects

  /** The least exponent whose power reaches the threshold. */
  function Doublings(threshold: nat): nat {
    if threshold <= 1 then 0 else 1 + Doublings((threshold + 1) / 2)
  }

  lemma {:induction false} DoublingsIsLeast(threshold: nat)
    ensures Pow2(Doublings(threshold)) >= threshold
    ensures Doublings(threshold) > 0 ==> Pow2(Doublings(threshold) - 1) < threshold
  {
    if threshold > 1 {
      var half := (threshold + 1) / 2;
      DoublingsIsLeast(half);
      if Doublings(half) == 0 {
        assert Pow2(0) == 1;
      }
    }
  }

  lemma {:induction false} Pow2Grows(m: nat, n: nat)
    requires m <= n
    ensures Pow2(m) <= Pow2(n)
  {
    if m < n { Pow2Grows(m, n - 1); }
  }

  /** The window size after k accepted ACKs from size 1. */
  function Grown(k: nat, threshold: nat, maxWindowSize: nat): nat {
    if k == 0 then 1 else AdjustedSize(Grown(k - 1, threshold, maxWindowSize), threshold, maxWindowSize)
  }

  /** Doubling up to the threshold, then one by one up to the maximum. */
  function Law(k: nat, threshold: nat, maxWindowSize: nat): int {
    var j := Doublings(threshold);
    if k <= j then Pow2(k) else Min(maxWindowSize, Pow2(j) + k - j)
  }

  /** The closed form; the doubling phase never reaches the clamp. */
  lemma {:induction false} GrowthLaw(k: nat, threshold: nat, maxWindowSize: nat)
    requires maxWindowSize >= 1 && threshold <= Max(1, maxWindowSize / 2)
    ensures Grown(k, threshold, maxWindowSize) == Law(k, threshold, maxWindowSize)
    ensures Pow2(Doublings(threshold)) <= maxWindowSize
  {
    var j := Doublings(threshold);
    DoublingsIsLeast(threshold);
    if j > 0 {
      assert Pow2(j) == 2 * Pow2(j - 1);
    }
    if k > 0 {
      GrowthLaw(k - 1, threshold, maxWindowSize);
      if k <= j {
        Pow2Grows(k - 1, j - 1);
        Pow2Grows(k, j);
        assert Pow2(k) == 2 * Pow2(k - 1);
      } else if k - 1 > j {
        assert Pow2(j) + k - 1 - j >= threshold;
      }
    }
  }

  // ---------- the law in the running sender ----------

  lemma {:induction false} ExpandKeepsSize(s: Sender, net: Network)
    requires NoLossEvent(net)
    ensures Expand(s, net).windowSize == s.windowSize && Expand(s, net).threshold == s.threshold
    ensures Expand(s, net).maxWindowSize == s.maxWindowSize
    decreases s.windowSize, s.windowSize - |s.window|
  {
    if |s.window| < s.windowSize && CanPull(s) {
      assert net(s.clock) != TripleDup;
      ExpandKeepsSize(SendPacket(Pull(s), |s.window|, net(s.clock)), net);
    }
  }

  lemma {:induction false} AdvanceKeepsSize(s: Sender)
    ensures Advance(s).windowSize == s.windowSize && Advance(s).threshold == s.threshold
    ensures Advance(s).maxWindowSize == s.maxWindowSize
    decreases |s.window|
  {
    if s.window != [] && s.window[0].acked {
      AdvanceKeepsSize(s.(window := s.window[1..], packetsSent := s.packetsSent + 1));
    }
  }

  lemma AcknowledgeGrows(s: Sender, a: Ack, net: Network)
    requires NoLossEvent(net)
    ensures var t := Acknowledge(s, a, net);
            && t.threshold == s.threshold && t.maxWindowSize == s.maxWindowSize
            && t.windowSize ==
               if Accepts(s, a) then AdjustedSize(s.windowSize, s.threshold, s.maxWindowSize) else s.windowSize
  {
    if Accepts(s, a) {
      var i := IndexOf(s.window, a.ackno);
      var marked := MarkAcked(s, i);
      AdvanceKeepsSize(marked);
      ExpandKeepsSize(Adjust(if i == 0 then Advance(marked) else marked), net);
    }
  }

  /** How many of the ACKs the sender accepts. */
  ghost function AcceptedCount(s: Sender, acks: seq<Ack>, net: Network): nat
    decreases |acks|
  {
    if acks == [] then 0
    else (if Accepts(s, acks[0]) then 1 else 0) + AcceptedCount(Acknowledge(s, acks[0], net), acks[1..], net)
  }

  lemma OneAck(s: Sender, acks: seq<Ack>, net: Network)
    requires acks != []
    ensures var next := Acknowledge(s, acks[0], net);
            && AcknowledgeAll(s, acks, net) == AcknowledgeAll(next, acks[1..], net)
            && AcceptedCount(s, acks, net)
               == (if Accepts(s, acks[0]) then 1 else 0) + AcceptedCount(next, acks[1..], net)
  {
  }

  lemma OneAckGrows(s: Sender, a: Ack, net: Network, k: nat)
    requires NoLossEvent(net) && s.windowSize == Grown(k, s.threshold, s.maxWindowSize)
    ensures var t := Acknowledge(s, a, net);
            && t.threshold == s.threshold && t.maxWindowSize == s.maxWindowSize
            && t.windowSize == Grown(if Accepts(s, a) then k + 1 else k, s.threshold, s.maxWindowSize)
  {
    AcknowledgeGrows(s, a, net);
  }

  lemma {:induction false} AcksGrow(s: Sender, acks: seq<Ack>, net: Network, k: nat)
    requires NoLossEvent(net) && s.windowSize == Grown(k, s.threshold, s.maxWindowSize)
    ensures AcknowledgeAll(s, acks, net).windowSize
         == Grown(k + AcceptedCount(s, acks, net), s.threshold, s.maxWindowSize)
    decreases |acks|
  {
    if acks != [] {
      OneAck(s, acks, net);
      OneAckGrows(s, acks[0], net, k);
      AcksGrow(Acknowledge(s, acks[0], net), acks[1..], net, if Accepts(s, acks[0]) then k + 1 else k);
    }
  }

  lemma TimeOutResets(s: Sender, all: seq<Packet>, net: Network)
    requires Inv(s, all) && s.window != [] && NoLossEvent(net)
    ensures s.unacked != {}
    ensures var t := HandleTimeOut(s, net);
            && t.windowSize == 1 && t.threshold == Max(s.windowSize / 2, 1) && t.maxWindowSize == s.maxWindowSize
            && t.threshold <= Max(1, t.maxWindowSize / 2) && t.maxWindowSize >= 1
  {
    HandleTimeOutKeeps(s, all, net);
    assert net(s.clock) != TripleDup;
  }

  /** From the start on: the threshold is half the maximum. */
  lemma GrowthFromStart(all: seq<Packet>, maxWindowSize: nat, net: Network, acks: seq<Ack>)
    requires Sequential(all, 1) && maxWindowSize >= 1 && NoLossEvent(net)
    ensures var t := StartFrom(Initial(all, maxWindowSize), 0, net);
            AcknowledgeAll(t, acks, net).windowSize
            == Law(AcceptedCount(t, acks, net), maxWindowSize / 2, maxWindowSize)
  {
    StartExactly(all, maxWindowSize, net);
    var t := StartFrom(Initial(all, maxWindowSize), 0, net);
    AcksGrow(t, acks, net, 0);
    GrowthLaw(AcceptedCount(t, acks, net), maxWindowSize / 2, maxWindowSize);
  }

  /** After a timeout, any ACKs whatsoever, k of them accepted, and no loss event in between:
      the window size follows the law for the threshold the timeout has set. */
  lemma GrowthAfterTimeOut(s: Sender, all: seq<Packet>, net: Network, acks: seq<Ack>)
    requires Inv(s, all) && s.window != [] && NoLossEvent(net)
    ensures s.unacked != {}
    ensures var t := HandleTimeOut(s, net);
            && t.threshold == Max(s.windowSize / 2, 1)
            && AcknowledgeAll(t, acks, net).windowSize
               == Law(AcceptedCount(t, acks, net), Max(s.windowSize / 2, 1), s.maxWindowSize)
  {
    TimeOutResets(s, all, net);
    var t := HandleTimeOut(s, net);
    AcksGrow(t, acks, net, 0);
    GrowthLaw(AcceptedCount(t, acks, net), t.threshold, s.maxWindowSize);
  }
}
