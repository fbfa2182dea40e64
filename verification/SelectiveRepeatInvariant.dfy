/** What every step of the Selective Repeat sender keeps. */
module SelectiveRepeatInvariant {
  import opened Bytes
  import opened DataPackets
  import opened SenderParts
  import opened SelectiveRepeat

  /** Slots holding the packets numbered lo, lo + 1, ... */
  ghost predicate Run(slots: seq<Slot>, lo: nat, all: seq<Packet>) {
    && 1 <= lo && lo + |slots| <= |all| + 1
    && forall i :: 0 <= i < |slots| ==> slots[i].pkt == all[lo + i - 1]
  }

  /** A map holding exactly the packets numbered lo, ..., hi - 1. */
  ghost predicate Range(aux: map<nat, Slot>, lo: nat, hi: nat, all: seq<Packet>) {
    && 1 <= lo <= hi <= |all| + 1
    && (forall k :: k in aux <==> lo <= k < hi)
    && (forall k <- aux :: aux[k].pkt == all[k - 1])
  }

  /** Window, then aux in number order, then the builder: the run base..N, each number once. */
  ghost predicate Conserved(s: Sender, all: seq<Packet>) {
    && Run(s.window, s.packetsSent + 1, all)
    && Range(s.aux, s.packetsSent + |s.window| + 1, s.nextSeqNumber, all)
    && s.todo == all[s.nextSeqNumber - 1..]
  }

  /** Stamps increase along the window and are in the past; position skip is exempt. */
  ghost predicate Stamped(window: seq<Slot>, clock: nat, skip: int) {
    && (forall i, j :: 0 <= i < j < |window| && i != skip && j != skip ==> window[i].stamp < window[j].stamp)
    && (forall i :: 0 <= i < |window| && i != skip ==> window[i].stamp < clock)
  }

  /** The timer index holds exactly the unacknowledged window packets, which are numbered
      from sent + 1; position skip is left out. */
  ghost predicate Indexed(window: seq<Slot>, unacked: set<Entry>, sent: nat, skip: int) {
    && (forall i :: 0 <= i < |window| && i != skip && !window[i].acked ==> EntryOf(window[i]) in unacked)
    && (forall e <- unacked :: Owner(window, e, e.seqno - sent - 1, skip))
  }

  ghost predicate Owner(window: seq<Slot>, e: Entry, i: int, skip: int) {
    0 <= i < |window| && i != skip && !window[i].acked && EntryOf(window[i]) == e
  }

  ghost predicate Sized(s: Sender) {
    && |s.window| <= s.windowSize && 1 <= s.windowSize <= s.maxWindowSize
    && s.threshold <= Max(1, s.maxWindowSize / 2)
  }

  /** A packet of the transfer with a number below the bound. */
  ghost predicate Known(p: Packet, bound: nat, all: seq<Packet>) {
    1 <= p.seqno < bound && p.seqno <= |all| && p == all[p.seqno - 1]
  }

  /** Only packets taken from the builder have been sent. */
  ghost predicate WireSound(s: Sender, all: seq<Packet>) {
    forall i :: 0 <= i < |s.wire| ==> Known(s.wire[i], s.nextSeqNumber, all)
  }

  ghost predicate Core(s: Sender, all: seq<Packet>, skip: int) {
    && Sequential(all, 1)
    && Conserved(s, all) && Stamped(s.window, s.clock, skip)
    && Indexed(s.window, s.unacked, s.packetsSent, skip) && Sized(s) && WireSound(s, all)
  }

  ghost predicate FrontWaiting(s: Sender) {
    s.window != [] ==> !s.window[0].acked
  }

  /** The window is full, or nothing is left to fill it with. */
  ghost predicate Filled(s: Sender) {
    |s.window| == s.windowSize || !CanPull(s)
  }

  ghost predicate Inv(s: Sender, all: seq<Packet>) {
    Core(s, all, -1) && FrontWaiting(s) && Filled(s)
  }

  /** Everything popped, and everything in the window that counts as acknowledged, is in acc. */
  ghost predicate Backed(s: Sender, acc: set<nat>) {
    && (forall k :: 1 <= k <= s.packetsSent ==> k in acc)
    && (forall i :: 0 <= i < |s.window| && s.window[i].acked ==> s.packetsSent + i + 1 in acc)
  }

  /** A later state of the same transfer. */
  ghost predicate Follows(s: Sender, t: Sender) {
    && s.packetsSent <= t.packetsSent && s.nextSeqNumber <= t.nextSeqNumber && s.clock <= t.clock
    && s.maxWindowSize == t.maxWindowSize && s.wire <= t.wire
  }

  // ---------- shrinking ----------

  lemma {:induction false} AuxOfRun(slots: seq<Slot>, lo: nat, all: seq<Packet>)
    requires Sequential(all, 1) && Run(slots, lo, all)
    ensures Range(AuxOf(slots), lo, lo + |slots|, all)
  {
    if slots != [] {
      assert slots[0].pkt == all[lo - 1];
      assert forall i :: 0 <= i < |slots| - 1 ==> slots[1..][i] == slots[i + 1];
      AuxOfRun(slots[1..], lo + 1, all);
    }
  }

  lemma JoinRanges(a: map<nat, Slot>, b: map<nat, Slot>, lo: nat, mid: nat, hi: nat, all: seq<Packet>)
    requires Range(a, lo, mid, all) && Range(b, mid, hi, all)
    ensures Range(a + b, lo, hi, all)
  {
  }

  /** The evicted tail moves to aux, in front of what is there. */
  lemma EvictionConserves(s: Sender, t: Sender, keep: nat, evicted: map<nat, Slot>, all: seq<Packet>)
    requires Conserved(s, all) && keep <= |s.window|
    requires Range(evicted, s.packetsSent + 1 + keep, s.packetsSent + 1 + |s.window|, all)
    requires t.window == s.window[..keep] && t.aux == evicted + s.aux
    requires t.packetsSent == s.packetsSent && t.nextSeqNumber == s.nextSeqNumber && t.todo == s.todo
    ensures Conserved(t, all)
  {
    JoinRanges(evicted, s.aux, s.packetsSent + 1 + keep, s.packetsSent + 1 + |s.window|, s.nextSeqNumber, all);
  }

  lemma ShrinkConserves(s: Sender, all: seq<Packet>, newSize: int)
    requires Sequential(all, 1) && Conserved(s, all)
    ensures Conserved(Shrink(s, newSize), all)
  {
    var keep := Min(|s.window|, Max(newSize, 1));
    TailRuns(s.window, s.packetsSent + 1, keep, all);
    EvictionConserves(s, Shrink(s, newSize), keep, AuxOf(s.window[keep..]), all);
  }

  lemma TailRuns(window: seq<Slot>, lo: nat, keep: nat, all: seq<Packet>)
    requires Sequential(all, 1) && Run(window, lo, all) && keep <= |window|
    ensures Range(AuxOf(window[keep..]), lo + keep, lo + |window|, all)
  {
    var tail := window[keep..];
    assert forall i :: 0 <= i < |tail| ==> tail[i] == window[keep + i];
    AuxOfRun(tail, lo + keep, all);
  }

  /** Erasing the tail from the timer index by stamp takes out the tail and nothing else. */
  lemma TruncateIndex(window: seq<Slot>, unacked: set<Entry>, sent: nat, clock: nat, keep: nat, skip: int)
    requires Stamped(window, clock, skip) && Indexed(window, unacked, sent, skip)
    requires keep <= |window| && (skip < keep || keep == |window|)
    ensures Stamped(window[..keep], clock, skip)
    ensures Indexed(window[..keep], EraseAll(unacked, window[keep..]), sent, skip)
  {
    var w, tail := window[..keep], window[keep..];
    var u := EraseAll(unacked, tail);
    forall i | keep <= i < |window|
      ensures EntryOf(window[i]) !in u
    {
      assert tail[i - keep] == window[i];
    }
    forall e <- u
      ensures Owner(w, e, e.seqno - sent - 1, skip)
    {
      assert Owner(window, e, e.seqno - sent - 1, skip);
    }
    forall i | 0 <= i < |w| && i != skip && !w[i].acked
      ensures EntryOf(w[i]) in u
    {
      var e := EntryOf(window[i]);
      assert e in unacked;
      forall j | 0 <= j < |tail|
        ensures tail[j].stamp != e.stamp
      {
        assert tail[j] == window[keep + j];
      }
    }
  }

  lemma ShrinkKeeps(s: Sender, all: seq<Packet>, skip: int, newSize: int)
    requires Core(s, all, skip) && newSize <= s.maxWindowSize && skip < Max(newSize, 1)
    ensures Core(Shrink(s, newSize), all, skip) && Follows(s, Shrink(s, newSize))
  {
    ShrinkConserves(s, all, newSize);
    TruncateIndex(s.window, s.unacked, s.packetsSent, s.clock, Min(|s.window|, Max(newSize, 1)), skip);
  }

  // ---------- sending ----------

  /** A fresh stamp on the last window packet goes to the end of the index. */
  lemma IndexLast(window: seq<Slot>, unacked: set<Entry>, sent: nat, clock: nat)
    requires window != [] && !window[|window| - 1].acked && window[|window| - 1].pkt.seqno == sent + |window|
    requires Stamped(window, clock, |window| - 1) && Indexed(window, unacked, sent, |window| - 1)
    ensures var p := window[|window| - 1].(stamp := clock);
            && Stamped(window[|window| - 1 := p], clock + 1, -1)
            && Indexed(window[|window| - 1 := p], Insert(unacked, EntryOf(p)), sent, -1)
  {
    var last := |window| - 1;
    var p := window[last].(stamp := clock);
    var w, u := window[last := p], Insert(unacked, EntryOf(p));
    assert forall e <- unacked :: Owner(window, e, e.seqno - sent - 1, last);
    assert u == unacked + {EntryOf(p)};
    forall e <- u
      ensures Owner(w, e, e.seqno - sent - 1, -1)
    {
      if e in unacked { assert Owner(window, e, e.seqno - sent - 1, last); }
    }
  }

  /** A new stamp does not change which packet a slot holds. */
  lemma Restamp(window: seq<Slot>, i: nat, stamp: nat, lo: nat, all: seq<Packet>)
    requires Run(window, lo, all) && i < |window|
    ensures Run(window[i := window[i].(stamp := stamp)], lo, all)
  {
  }

  lemma WireGrows(s: Sender, i: nat, all: seq<Packet>)
    requires Sequential(all, 1) && Conserved(s, all) && WireSound(s, all) && i < |s.window|
    ensures WireSound(s.(wire := s.wire + [s.window[i].pkt]), all)
  {
    assert s.window[i].pkt == all[s.packetsSent + i];
    assert Known(s.window[i].pkt, s.nextSeqNumber, all);
  }

  lemma StampConserves(s: Sender, all: seq<Packet>, outcome: Outcome)
    requires Sequential(all, 1) && Conserved(s, all) && WireSound(s, all) && s.window != []
    ensures var t := Transmit(s, |s.window| - 1, outcome);
            Conserved(t, all) && WireSound(t, all) && Follows(s, t)
  {
    var last := |s.window| - 1;
    Restamp(s.window, last, s.clock, s.packetsSent + 1, all);
    WireGrows(s, last, all);
  }

  lemma StampIndexes(s: Sender, all: seq<Packet>, outcome: Outcome)
    requires Sequential(all, 1) && Run(s.window, s.packetsSent + 1, all)
    requires s.window != [] && !s.window[|s.window| - 1].acked
    requires Stamped(s.window, s.clock, |s.window| - 1) && Indexed(s.window, s.unacked, s.packetsSent, |s.window| - 1)
    ensures var t := Transmit(s, |s.window| - 1, outcome);
            Stamped(t.window, t.clock, -1) && Indexed(t.window, t.unacked, t.packetsSent, -1)
  {
    assert s.window[|s.window| - 1].pkt == all[s.packetsSent + |s.window| - 1];
    IndexLast(s.window, s.unacked, s.packetsSent, s.clock);
  }

  /** Stamping and indexing the last window packet. */
  lemma StampLast(s: Sender, all: seq<Packet>, outcome: Outcome)
    requires s.window != [] && Core(s, all, |s.window| - 1) && !s.window[|s.window| - 1].acked
    ensures var t := Transmit(s, |s.window| - 1, outcome);
            Core(t, all, -1) && Follows(s, t)
  {
    StampConserves(s, all, outcome);
    StampIndexes(s, all, outcome);
  }

  /** Sending the last window packet completes the invariant again, loss event or not. */
  lemma SendLastKeeps(s: Sender, all: seq<Packet>, outcome: Outcome)
    requires s.window != [] && Core(s, all, |s.window| - 1) && !s.window[|s.window| - 1].acked
    ensures var t := SendPacket(s, |s.window| - 1, outcome);
            Core(t, all, -1) && Follows(s, t)
  {
    StampLast(s, all, outcome);
    if outcome.TripleDup? {
      ShrinkKeeps(Transmit(s, |s.window| - 1, outcome), all, -1, s.windowSize / 2);
    }
  }

  // ---------- refilling ----------

  /** The packet taken next carries the next number: aux is drained from below before the
      builder is asked. */
  lemma PullConserves(s: Sender, all: seq<Packet>)
    requires Sequential(all, 1) && Conserved(s, all) && CanPull(s)
    ensures Conserved(Pull(s), all)
  {
    if s.aux != map[] {
      PullFromAux(s, all);
    } else {
      PullFromBuilder(s, all);
    }
  }

  lemma PullFromAux(s: Sender, all: seq<Packet>)
    requires Conserved(s, all) && s.aux != map[]
    ensures Conserved(Pull(s), all)
  {
    var next := s.packetsSent + |s.window| + 1;
    var k := MinKey(s.aux);
    assert k in s.aux && next in s.aux;
    assert k == next;
    DropLowest(s.aux, next, s.nextSeqNumber, all);
    RunAppend(s.window, s.aux[k].(acked := false), s.packetsSent + 1, all);
  }

  lemma PullFromBuilder(s: Sender, all: seq<Packet>)
    requires Conserved(s, all) && s.aux == map[] && s.todo != []
    ensures Conserved(Pull(s), all)
  {
    assert s.packetsSent + |s.window| + 1 !in s.aux;
    RunAppend(s.window, Slot(s.todo[0], false, 0), s.packetsSent + 1, all);
  }

  lemma DropLowest(aux: map<nat, Slot>, lo: nat, hi: nat, all: seq<Packet>)
    requires Range(aux, lo, hi, all) && lo < hi
    ensures Range(aux - {lo}, lo + 1, hi, all)
  {
  }

  lemma RunAppend(window: seq<Slot>, p: Slot, lo: nat, all: seq<Packet>)
    requires Run(window, lo, all) && lo + |window| <= |all| && p.pkt == all[lo + |window| - 1]
    ensures Run(window + [p], lo, all)
  {
  }

  lemma AppendIndex(window: seq<Slot>, p: Slot, unacked: set<Entry>, sent: nat, clock: nat)
    requires Stamped(window, clock, -1) && Indexed(window, unacked, sent, -1)
    ensures Stamped(window + [p], clock, |window|) && Indexed(window + [p], unacked, sent, |window|)
  {
    forall e <- unacked
      ensures Owner(window + [p], e, e.seqno - sent - 1, |window|)
    {
      assert Owner(window, e, e.seqno - sent - 1, -1);
    }
  }

  lemma PullKeeps(s: Sender, all: seq<Packet>)
    requires Core(s, all, -1) && |s.window| < s.windowSize && CanPull(s)
    ensures var t := Pull(s);
            Core(t, all, |s.window|) && Follows(s, t) && !t.window[|s.window|].acked
  {
    var t := Pull(s);
    PullConserves(s, all);
    AppendIndex(s.window, t.window[|s.window|], s.unacked, s.packetsSent, s.clock);
  }

  /** No window packet counts as acknowledged that did not before. */
  ghost predicate NoNewAcks(s: Sender, t: Sender) {
    && t.packetsSent == s.packetsSent
    && forall i :: 0 <= i < |t.window| && t.window[i].acked ==> i < |s.window| && s.window[i].acked
  }

  lemma SendAddsNoAcks(s: Sender, i: nat, outcome: Outcome)
    requires i < |s.window|
    ensures NoNewAcks(s, SendPacket(s, i, outcome))
    ensures SendPacket(s, i, outcome).maxWindowSize == s.maxWindowSize
  {
  }

  /** Pull and send one packet, as one round of the refill loop does. */
  ghost function Round(s: Sender, outcome: Outcome): Sender
    requires CanPull(s)
  {
    SendPacket(Pull(s), |s.window|, outcome)
  }

  lemma NoNewAcksTransitive(s: Sender, t: Sender, u: Sender)
    requires NoNewAcks(s, t) && NoNewAcks(t, u)
    ensures NoNewAcks(s, u)
  {
  }

  lemma FollowsTransitive(s: Sender, t: Sender, u: Sender)
    requires Follows(s, t) && Follows(t, u)
    ensures Follows(s, u)
  {
  }

  lemma RoundAddsNoAcks(s: Sender, outcome: Outcome)
    requires CanPull(s)
    ensures NoNewAcks(s, Round(s, outcome))
  {
    SendAddsNoAcks(Pull(s), |s.window|, outcome);
    NoNewAcksTransitive(s, Pull(s), Round(s, outcome));
  }

  lemma LastPulled(s: Sender)
    requires CanPull(s)
    ensures |Pull(s).window| - 1 == |s.window|
  {
  }

  lemma RoundKeeps(s: Sender, all: seq<Packet>, outcome: Outcome)
    requires Core(s, all, -1) && |s.window| < s.windowSize && CanPull(s)
    ensures Core(Round(s, outcome), all, -1) && Follows(s, Round(s, outcome))
  {
    var pulled := Pull(s);
    PullKeeps(s, all);
    LastPulled(s);
    SendLastKeeps(pulled, all, outcome);
    FollowsTransitive(s, pulled, Round(s, outcome));
  }

  /** The measure that bounds the refill loop: a loss event makes the window size smaller, any
      other round fills one more place. */
  lemma RoundDecreases(s: Sender, outcome: Outcome)
    requires |s.window| < s.windowSize && CanPull(s)
    ensures var t := Round(s, outcome);
            && |t.window| <= t.windowSize
            && (t.windowSize < s.windowSize
                || (t.windowSize == s.windowSize && t.windowSize - |t.window| < s.windowSize - |s.window|))
  {
  }

  lemma RoundUnfolds(s: Sender, net: Network)
    requires |s.window| < s.windowSize && CanPull(s)
    ensures Expand(s, net) == Expand(Round(s, net(s.clock)), net)
  {
  }

  lemma ExpandDone(s: Sender, net: Network)
    requires !(|s.window| < s.windowSize && CanPull(s))
    ensures Expand(s, net) == s
  {
  }

  lemma {:induction false} ExpandAddsNoAcks(s: Sender, net: Network)
    ensures NoNewAcks(s, Expand(s, net))
    decreases s.windowSize, s.windowSize - |s.window|
  {
    if |s.window| < s.windowSize && CanPull(s) {
      var next := Round(s, net(s.clock));
      RoundAddsNoAcks(s, net(s.clock));
      ExpandAddsNoAcks(next, net);
      NoNewAcksTransitive(s, next, Expand(next, net));
    }
  }

  lemma {:induction false} ExpandStops(s: Sender, net: Network)
    ensures var t := Expand(s, net); |t.window| >= t.windowSize || !CanPull(t)
    decreases s.windowSize, s.windowSize - |s.window|
  {
    if |s.window| < s.windowSize && CanPull(s) {
      ExpandStops(Round(s, net(s.clock)), net);
    }
  }

  lemma {:induction false} ExpandCore(s: Sender, all: seq<Packet>, net: Network)
    requires Core(s, all, -1)
    ensures Core(Expand(s, net), all, -1) && Follows(s, Expand(s, net))
    decreases s.windowSize, s.windowSize - |s.window|
  {
    if |s.window| < s.windowSize && CanPull(s) {
      var next := Round(s, net(s.clock));
      RoundKeeps(s, all, net(s.clock));
      ExpandCore(next, all, net);
      FollowsTransitive(s, next, Expand(next, net));
    }
  }

  /** The refill loop keeps the invariant through every nested shrink, and stops only with a
      full window or with nothing left to send. */
  lemma ExpandKeeps(s: Sender, all: seq<Packet>, net: Network)
    requires Core(s, all, -1)
    ensures var t := Expand(s, net);
            Core(t, all, -1) && Follows(s, t) && NoNewAcks(s, t) && Filled(t)
  {
    ExpandCore(s, all, net);
    ExpandAddsNoAcks(s, net);
    ExpandStops(s, net);
  }

  // ---------- acknowledging ----------

  lemma MarkIndex(window: seq<Slot>, unacked: set<Entry>, sent: nat, clock: nat, i: nat)
    requires Stamped(window, clock, -1) && Indexed(window, unacked, sent, -1)
    requires i < |window| && !window[i].acked
    ensures var w := window[i := window[i].(acked := true)];
            && Stamped(w, clock, -1) && Indexed(w, Erase(unacked, window[i].stamp), sent, -1)
  {
    var w := window[i := window[i].(acked := true)];
    var u := Erase(unacked, window[i].stamp);
    assert EntryOf(window[i]) !in u;
    forall e <- u
      ensures Owner(w, e, e.seqno - sent - 1, -1)
    {
      assert Owner(window, e, e.seqno - sent - 1, -1);
    }
    forall j | 0 <= j < |w| && !w[j].acked
      ensures EntryOf(w[j]) in u
    {
      assert w[j] == window[j];
      assert EntryOf(window[j]) in unacked;
    }
  }

  lemma MarkKeeps(s: Sender, all: seq<Packet>, i: nat)
    requires Core(s, all, -1) && i < |s.window| && !s.window[i].acked
    ensures Core(MarkAcked(s, i), all, -1) && Follows(s, MarkAcked(s, i))
  {
    MarkIndex(s.window, s.unacked, s.packetsSent, s.clock, i);
  }

  lemma PopIndex(window: seq<Slot>, unacked: set<Entry>, sent: nat, clock: nat)
    requires Stamped(window, clock, -1) && Indexed(window, unacked, sent, -1)
    requires window != [] && window[0].acked
    ensures Stamped(window[1..], clock, -1) && Indexed(window[1..], unacked, sent + 1, -1)
  {
    forall e <- unacked
      ensures Owner(window[1..], e, e.seqno - (sent + 1) - 1, -1)
    {
      assert Owner(window, e, e.seqno - sent - 1, -1);
    }
  }

  lemma {:induction false} AdvanceKeeps(s: Sender, all: seq<Packet>, acc: set<nat>)
    requires Core(s, all, -1) && Backed(s, acc)
    ensures var t := Advance(s);
            && Core(t, all, -1) && FrontWaiting(t) && Follows(s, t) && Backed(t, acc)
            && (s.window != [] && s.window[0].acked ==> s.packetsSent < t.packetsSent)
            && t.windowSize == s.windowSize
    decreases |s.window|
  {
    if s.window != [] && s.window[0].acked {
      PopKeeps(s, all, acc);
      AdvanceKeeps(Popped(s), all, acc);
    }
  }

  ghost function Popped(s: Sender): Sender
    requires s.window != []
  {
    s.(window := s.window[1..], packetsSent := s.packetsSent + 1)
  }

  lemma PopConserves(s: Sender, all: seq<Packet>)
    requires Conserved(s, all) && s.window != []
    ensures Conserved(Popped(s), all)
  {
    var t := Popped(s);
    assert forall i :: 0 <= i < |t.window| ==> t.window[i] == s.window[i + 1];
  }

  lemma PopBacked(s: Sender, acc: set<nat>)
    requires Backed(s, acc) && s.window != [] && s.window[0].acked
    ensures Backed(Popped(s), acc)
  {
    assert s.packetsSent + 1 in acc;
    var t := Popped(s);
    forall i | 0 <= i < |t.window| && t.window[i].acked
      ensures t.packetsSent + i + 1 in acc
    {
      assert t.window[i] == s.window[i + 1];
    }
  }

  lemma PopKeeps(s: Sender, all: seq<Packet>, acc: set<nat>)
    requires Core(s, all, -1) && Backed(s, acc) && s.window != [] && s.window[0].acked
    ensures Core(Popped(s), all, -1) && Backed(Popped(s), acc) && Follows(s, Popped(s))
  {
    PopIndex(s.window, s.unacked, s.packetsSent, s.clock);
    PopConserves(s, all);
    PopBacked(s, acc);
  }

  /** Window numbers are pairwise different, so the search finds the one slot. */
  lemma IndexOfNumber(s: Sender, all: seq<Packet>, i: nat)
    requires Sequential(all, 1) && Conserved(s, all) && i < |s.window|
    ensures s.window[i].pkt.seqno == s.packetsSent + i + 1
    ensures IndexOf(s.window, s.packetsSent + i + 1) == i
  {
    forall j | 0 <= j < |s.window|
      ensures s.window[j].pkt.seqno == s.packetsSent + j + 1
    {
      assert s.window[j].pkt == all[s.packetsSent + j];
    }
  }

  /** The state after marking window[i] and, for the front, popping. */
  ghost function Settled(s: Sender, i: nat): Sender
    requires i < |s.window|
  {
    if i == 0 then Advance(MarkAcked(s, i)) else MarkAcked(s, i)
  }

  lemma SettleKeeps(s: Sender, all: seq<Packet>, i: nat, acc: set<nat>)
    requires Core(s, all, -1) && FrontWaiting(s) && Backed(s, acc)
    requires i < |s.window| && !s.window[i].acked && s.packetsSent + i + 1 in acc
    ensures var t := Settled(s, i);
            && Core(t, all, -1) && FrontWaiting(t) && Follows(s, t) && Backed(t, acc)
            && (i == 0 ==> s.packetsSent < t.packetsSent) && t.windowSize == s.windowSize
  {
    MarkKeeps(s, all, i);
    assert Backed(MarkAcked(s, i), acc);
    if i == 0 { AdvanceKeeps(MarkAcked(s, i), all, acc); }
  }

  lemma AdjustKeeps(s: Sender, all: seq<Packet>)
    requires Core(s, all, -1)
    ensures Core(Adjust(s), all, -1)
  {
  }

  lemma BackedStays(s: Sender, t: Sender, acc: set<nat>)
    requires Backed(s, acc) && NoNewAcks(s, t)
    ensures Backed(t, acc) && (FrontWaiting(s) ==> FrontWaiting(t))
  {
  }

  lemma RefillKeeps(s: Sender, all: seq<Packet>, net: Network, acc: set<nat>)
    requires Core(s, all, -1) && FrontWaiting(s) && Backed(s, acc)
    ensures var t := Expand(Adjust(s), net);
            Inv(t, all) && Follows(s, t) && Backed(t, acc) && t.packetsSent == s.packetsSent
  {
    AdjustKeeps(s, all);
    var t := Expand(Adjust(s), net);
    ExpandKeeps(Adjust(s), all, net);
    assert NoNewAcks(s, t);
    BackedStays(s, t, acc);
  }

  /** One ACK, whatever it says: the invariant survives, and what counts as acknowledged
      stays within acc as long as acc backs the ACK. */
  lemma AcknowledgeKeeps(s: Sender, all: seq<Packet>, a: Ack, net: Network, acc: set<nat>)
    requires Inv(s, all) && Backed(s, acc) && (Accepts(s, a) ==> a.ackno in acc)
    ensures var t := Acknowledge(s, a, net);
            && Inv(t, all) && Follows(s, t) && Backed(t, acc)
            && (Accepts(s, a) && a.ackno == s.packetsSent + 1 ==> s.packetsSent < t.packetsSent)
  {
    if Accepts(s, a) {
      var i := IndexOf(s.window, a.ackno);
      IndexOfNumber(s, all, i);
      SettleKeeps(s, all, i, acc);
      RefillKeeps(Settled(s, i), all, net, acc);
      assert Acknowledge(s, a, net) == Expand(Adjust(Settled(s, i)), net);
    }
  }

  /** The same without any claim about the receiver. */
  lemma AcknowledgeAlwaysKeeps(s: Sender, all: seq<Packet>, a: Ack, net: Network)
    requires Inv(s, all)
    ensures Inv(Acknowledge(s, a, net), all)
  {
    var acc := Below(|all| + 1) + {a.ackno as nat};
    assert Backed(s, acc);
    AcknowledgeKeeps(s, all, a, net, acc);
  }

  lemma SettledCore(s: Sender, all: seq<Packet>, i: nat)
    requires Inv(s, all) && i < |s.window| && !s.window[i].acked
    ensures Core(Settled(s, i), all, -1) && Core(Adjust(Settled(s, i)), all, -1)
  {
    var acc := Below(|all| + 1);
    assert Backed(s, acc);
    SettleKeeps(s, all, i, acc);
    AdjustKeeps(Settled(s, i), all);
  }

  // ---------- the timer ----------

  lemma FirstOfIndex(window: seq<Slot>, unacked: set<Entry>, sent: nat, clock: nat)
    requires Stamped(window, clock, -1) && Indexed(window, unacked, sent, -1)
    requires window != [] && !window[0].acked
    ensures unacked != {} && First(unacked) == EntryOf(window[0])
  {
    assert EntryOf(window[0]) in unacked;
    var e := First(unacked);
    assert Owner(window, e, e.seqno - sent - 1, -1);
  }

  /** The member of the timer index with the earliest stamp is always the window's front. */
  lemma FirstIsFront(s: Sender, all: seq<Packet>)
    requires Inv(s, all) && s.window != []
    ensures s.unacked != {} && First(s.unacked) == EntryOf(s.window[0])
  {
    FirstOfIndex(s.window, s.unacked, s.packetsSent, s.clock);
  }

  lemma WindowIffTimer(s: Sender, all: seq<Packet>)
    requires Inv(s, all)
    ensures s.unacked != {} <==> s.window != []
  {
    if s.window != [] {
      FirstIsFront(s, all);
    } else {
      assert forall e <- s.unacked :: Owner(s.window, e, e.seqno - s.packetsSent - 1, -1);
      assert s.unacked == {};
    }
  }

  /** Dropping the front's entry leaves the index right for all other packets. */
  lemma UnindexFront(window: seq<Slot>, unacked: set<Entry>, sent: nat, clock: nat)
    requires window != [] && Stamped(window, clock, -1) && Indexed(window, unacked, sent, -1)
    requires !window[0].acked
    ensures Stamped(window, clock, 0) && Indexed(window, Erase(unacked, window[0].stamp), sent, 0)
  {
    var u := Erase(unacked, window[0].stamp);
    forall e <- u
      ensures Owner(window, e, e.seqno - sent - 1, 0)
    {
      assert Owner(window, e, e.seqno - sent - 1, -1);
    }
    forall i | 0 < i < |window| && !window[i].acked
      ensures EntryOf(window[i]) in u
    {
      assert EntryOf(window[i]) in unacked;
    }
  }

  /** A timeout leaves a window of exactly the front packet, freshly stamped, everything else
      conserved in aux, and resends the front. */
  lemma HandleTimeOutKeeps(s: Sender, all: seq<Packet>, net: Network)
    requires Inv(s, all) && s.window != []
    ensures s.unacked != {}
    ensures var t := HandleTimeOut(s, net);
            && Inv(t, all) && Follows(s, t) && NoNewAcks(s, t)
            && t.window == [s.window[0].(stamp := s.clock)] && t.windowSize == 1
            && (net(s.clock) != Lost ==> t.wire == s.wire + [s.window[0].pkt])
  {
    FirstIsFront(s, all);
    ShrinkToFront(s, all);
    var shrunk := Shrink(s.(unacked := Erase(s.unacked, s.window[0].stamp)), 1);
    SendLastKeeps(shrunk, all, net(s.clock));
    SendOnly(shrunk, net(s.clock));
  }

  /** A loss event on the only packet of a window of size one changes nothing more. */
  lemma SendOnly(s: Sender, outcome: Outcome)
    requires |s.window| == 1 && s.windowSize == 1
    ensures var t := SendPacket(s, 0, outcome);
            && t.window == [s.window[0].(stamp := s.clock)] && t.windowSize == 1
            && t.packetsSent == s.packetsSent && t.aux == s.aux
            && t.wire == (if outcome.Lost? then s.wire else s.wire + [s.window[0].pkt])
  {
    assert s.window[..1] == s.window;
  }

  /** The first half of the timeout branch. */
  lemma ShrinkToFront(s: Sender, all: seq<Packet>)
    requires Core(s, all, -1) && s.window != [] && !s.window[0].acked
    ensures var t := Shrink(s.(unacked := Erase(s.unacked, s.window[0].stamp)), 1);
            && Core(t, all, 0) && Follows(s, t) && t.window == [s.window[0]]
            && t.windowSize == 1 && t.clock == s.clock && t.wire == s.wire && t.packetsSent == s.packetsSent
            && t.threshold == Max(s.windowSize / 2, 1) && t.todo == s.todo && t.nextSeqNumber == s.nextSeqNumber
  {
    var erased := s.(unacked := Erase(s.unacked, s.window[0].stamp));
    UnindexFront(s.window, s.unacked, s.packetsSent, s.clock);
    ShrinkKeeps(erased, all, 0, 1);
  }

  // ---------- starting ----------

  /** Before the first send only the stamp and the index entry of the one packet are missing. */
  lemma InitialCore(all: seq<Packet>, maxWindowSize: nat, net: Network)
    requires Sequential(all, 1) && maxWindowSize >= 1
    ensures var s := Initial(all, maxWindowSize);
            && Core(s, all, 0) && |s.window| == Min(1, |all|) && s.windowSize == 1
            && (all != [] ==>
                  StartFrom(s, 0, net) == SendPacket(s, 0, net(0)) && |SendPacket(s, 0, net(0)).window| == 1)
  {
    var s := Initial(all, maxWindowSize);
    if all != [] {
      var t := SendPacket(s, 0, net(0));
      assert |t.window| == 1 && t.windowSize == 1;
      assert StartFrom(s, 0, net) == StartFrom(t, 1, net) == t;
    }
  }

  lemma StartKeeps(all: seq<Packet>, maxWindowSize: nat, net: Network)
    requires Sequential(all, 1) && maxWindowSize >= 1
    ensures var t := StartFrom(Initial(all, maxWindowSize), 0, net);
            Inv(t, all) && t.packetsSent == 0 && Backed(t, {}) && t.maxWindowSize == maxWindowSize
  {
    var s := Initial(all, maxWindowSize);
    InitialCore(all, maxWindowSize, net);
    if all == [] {
      assert Inv(s, all);
    } else {
      SendLastKeeps(s, all, net(0));
      SendAddsNoAcks(s, 0, net(0));
    }
  }

  // ---------- the invariant in plain words ----------

  function PacketsOf(slots: seq<Slot>): (ps: seq<Packet>)
    ensures |ps| == |slots|
  {
    seq(|slots|, i requires 0 <= i < |slots| => slots[i].pkt)
  }

  /** The members of aux in the order of the set. */
  ghost function InOrder(aux: map<nat, Slot>): seq<Slot>
    decreases aux.Keys
  {
    if aux == map[] then []
    else
      var k := MinKey(aux);
      assert (aux - {k}).Keys < aux.Keys by { assert k in aux.Keys; }
      [aux[k]] + InOrder(aux - {k})
  }

  lemma PacketsOfFirst(p: Slot, rest: seq<Slot>, all: seq<Packet>, lo: nat, hi: nat)
    requires 1 <= lo < hi <= |all| + 1 && p.pkt == all[lo - 1] && PacketsOf(rest) == all[lo..hi - 1]
    ensures PacketsOf([p] + rest) == all[lo - 1..hi - 1]
  {
    assert PacketsOf([p] + rest) == [p.pkt] + PacketsOf(rest);
    assert all[lo - 1..hi - 1] == [all[lo - 1]] + all[lo..hi - 1];
  }

  lemma {:induction false} InOrderRange(aux: map<nat, Slot>, lo: nat, hi: nat, all: seq<Packet>)
    requires Range(aux, lo, hi, all)
    ensures PacketsOf(InOrder(aux)) == all[lo - 1..hi - 1]
    decreases hi - lo
  {
    if lo == hi {
      assert aux == map[];
    } else {
      assert lo in aux;
      assert MinKey(aux) == lo;
      DropLowest(aux, lo, hi, all);
      InOrderRange(aux - {lo}, lo + 1, hi, all);
      var rest := InOrder(aux - {lo});
      assert InOrder(aux) == [aux[lo]] + rest;
      PacketsOfFirst(aux[lo], rest, all, lo, hi);
    }
  }

  /** Window, aux and builder together are exactly the packets not yet popped, in order. */
  lemma Conservation(s: Sender, all: seq<Packet>)
    requires Conserved(s, all)
    ensures PacketsOf(s.window) + PacketsOf(InOrder(s.aux)) + s.todo == all[s.packetsSent..]
  {
    var mid := s.packetsSent + |s.window|;
    var x, y := PacketsOf(s.window), PacketsOf(InOrder(s.aux));
    InOrderRange(s.aux, mid + 1, s.nextSeqNumber, all);
    RunPackets(s.window, s.packetsSent + 1, all);
    Glue(x, y, s.todo, all, s.packetsSent, mid, s.nextSeqNumber - 1);
  }

  lemma RunPackets(window: seq<Slot>, lo: nat, all: seq<Packet>)
    requires Run(window, lo, all)
    ensures PacketsOf(window) == all[lo - 1..lo - 1 + |window|] && lo - 1 + |window| <= |all|
  {
  }

  lemma Glue(x: seq<Packet>, y: seq<Packet>, z: seq<Packet>, all: seq<Packet>, a: nat, b: nat, c: nat)
    requires a <= b <= c <= |all| && x == all[a..b] && y == all[b..c] && z == all[c..]
    ensures x + y + z == all[a..]
  {
  }

  /** The timer index as a set. */
  lemma TimerIndex(s: Sender, all: seq<Packet>)
    requires Core(s, all, -1)
    ensures s.unacked == set p <- s.window | !p.acked :: EntryOf(p)
  {
    forall e <- s.unacked
      ensures e in (set p <- s.window | !p.acked :: EntryOf(p))
    {
      var i := e.seqno - s.packetsSent - 1;
      assert Owner(s.window, e, i, -1);
      assert s.window[i] in s.window;
    }
    forall p <- s.window | !p.acked
      ensures EntryOf(p) in s.unacked
    {
      var i :| 0 <= i < |s.window| && s.window[i] == p;
    }
  }

  /** An empty window means that aux and the builder are empty too. */
  lemma NothingLeft(s: Sender, all: seq<Packet>)
    requires Inv(s, all) && s.window == []
    ensures s.aux == map[] && s.todo == [] && s.unacked == {}
  {
    WindowIffTimer(s, all);
  }

  // ---------- the same, folded ----------

  // The quantifiers keep the invariant closed in proofs that only pass it on.

  ghost predicate Steady(s: Sender, all: seq<Packet>) {
    forall t: Sender :: t == s ==> Inv(t, all)
  }

  ghost predicate Kept(s: Sender, all: seq<Packet>) {
    forall skip: int :: skip == -1 ==> Core(s, all, skip)
  }

  /** Everything but the stamp and the index entry of position i is in place. */
  ghost predicate StampDue(s: Sender, all: seq<Packet>, i: nat) {
    forall skip: int :: skip == i ==> Core(s, all, skip)
  }

  lemma RoundFacts(s: Sender, all: seq<Packet>, outcome: Outcome)
    requires Kept(s, all) && |s.window| < s.windowSize && CanPull(s)
    ensures StampDue(Pull(s), all, |s.window|) && Kept(Round(s, outcome), all)
    ensures var t := Round(s, outcome);
            && |t.window| <= t.windowSize
            && (t.windowSize < s.windowSize
                || (t.windowSize == s.windowSize && t.windowSize - |t.window| < s.windowSize - |s.window|))
  {
    assert Core(s, all, -1);
    PullKeeps(s, all);
    RoundKeeps(s, all, outcome);
    RoundDecreases(s, outcome);
  }

  lemma AcknowledgeStaysSteady(s: Sender, all: seq<Packet>, a: Ack, net: Network)
    requires Steady(s, all)
    ensures Steady(Acknowledge(s, a, net), all)
  {
    assert Inv(s, all);
    AcknowledgeAlwaysKeeps(s, all, a, net);
  }

  lemma SettledKept(s: Sender, all: seq<Packet>, i: nat)
    requires Steady(s, all) && i < |s.window| && !s.window[i].acked
    ensures Kept(Adjust(Settled(s, i)), all)
  {
    assert Inv(s, all);
    SettledCore(s, all, i);
  }

  lemma TimeOutFacts(s: Sender, all: seq<Packet>, net: Network)
    requires Steady(s, all) && s.window != []
    ensures s.unacked != {} && First(s.unacked) == EntryOf(s.window[0]) && Steady(HandleTimeOut(s, net), all)
    ensures var t := Shrink(s.(unacked := Erase(s.unacked, s.window[0].stamp)), 1);
            StampDue(t, all, 0) && |t.window| == 1 && t.clock == s.clock
  {
    assert Inv(s, all);
    FirstIsFront(s, all);
    HandleTimeOutKeeps(s, all, net);
    ShrinkToFront(s, all);
  }

  lemma StartFacts(all: seq<Packet>, maxWindowSize: nat, net: Network)
    requires Sequential(all, 1) && maxWindowSize >= 1
    ensures var s := Initial(all, maxWindowSize);
            && Steady(StartFrom(s, 0, net), all) && StampDue(s, all, 0) && |s.window| <= 1 && s.windowSize == 1
  {
    StartKeeps(all, maxWindowSize, net);
    InitialCore(all, maxWindowSize, net);
  }
}
