/** What each operation of the Selective Repeat sender does, in numbers: what it puts on the
    wire, what the window and the timer index hold afterwards, and how large the window is. */
module SelectiveRepeatEffects {
  import opened Bytes
  import opened DataPackets
  import opened SenderParts
  import opened SelectiveRepeat
  import opened SelectiveRepeatInvariant

  // ---------- one send ----------

  /** The timer index holds the unacknowledged packets of the window and nothing else. */
  ghost predicate ExactIndex(window: seq<Slot>, unacked: set<Entry>) {
    unacked == set p <- window | !p.acked :: Entry(p.stamp, p.pkt.seqno)
  }

  /** Aux holds the packets with the numbers lo + 1 .. hi on top of what it held. */
  ghost predicate Joined(aux: map<nat, Slot>, before: map<nat, Slot>, lo: nat, hi: nat) {
    forall k :: k in aux <==> k in before || lo < k <= hi
  }

  lemma EvictedNumbers(s: Sender, all: seq<Packet>, newSize: int)
    requires Sequential(all, 1) && Conserved(s, all)
    ensures var t := Shrink(s, newSize); Joined(t.aux, s.aux, s.packetsSent + |t.window|, s.packetsSent + |s.window|)
  {
    TailRuns(s.window, s.packetsSent + 1, Min(|s.window|, Max(newSize, 1)), all);
  }

  /** What sending the packet at position i leaves, in numbers. A loss event halves the window
      size, sets the threshold to the same number, and cuts the window; the packet itself has
      gone out before. */
  ghost predicate SentAt(s: Sender, i: nat, outcome: Outcome, t: Sender)
    requires i < |s.window|
  {
    var half := Max(s.windowSize / 2, 1);
    var keep := if outcome == TripleDup then Min(|s.window|, half) else |s.window|;
    && t.windowSize == (if outcome == TripleDup then half else s.windowSize)
    && t.threshold == (if outcome == TripleDup then half else s.threshold)
    && t.window == (s.window[..i] + [s.window[i].(stamp := s.clock)] + s.window[i + 1..])[..keep]
    && t.wire == s.wire + (if outcome == Lost then [] else [s.window[i].pkt])
    && t.clock == s.clock + 1 && t.packetsSent == s.packetsSent && t.maxWindowSize == s.maxWindowSize
    && t.todo == s.todo && t.nextSeqNumber == s.nextSeqNumber
  }

  lemma SendExactly(s: Sender, i: nat, outcome: Outcome)
    requires i < |s.window|
    ensures SentAt(s, i, outcome, SendPacket(s, i, outcome))
  {
    var sent := s.window[i := s.window[i].(stamp := s.clock)];
    assert sent == s.window[..i] + [s.window[i].(stamp := s.clock)] + s.window[i + 1..];
    assert sent[..|sent|] == sent;
  }

  lemma SendLastIndex(s: Sender, all: seq<Packet>, outcome: Outcome)
    requires s.window != [] && StampDue(s, all, |s.window| - 1) && !s.window[|s.window| - 1].acked
    ensures var t := SendPacket(s, |s.window| - 1, outcome); ExactIndex(t.window, t.unacked)
  {
    assert Core(s, all, |s.window| - 1);
    SendLastKeeps(s, all, outcome);
    TimerIndex(SendPacket(s, |s.window| - 1, outcome), all);
  }

  lemma SendLastAux(s: Sender, all: seq<Packet>, outcome: Outcome)
    requires s.window != [] && StampDue(s, all, |s.window| - 1) && !s.window[|s.window| - 1].acked
    ensures var t := SendPacket(s, |s.window| - 1, outcome);
            Joined(t.aux, s.aux, s.packetsSent + |t.window|, s.packetsSent + |s.window|)
  {
    assert Core(s, all, |s.window| - 1);
    StampConserves(s, all, outcome);
    if outcome.TripleDup? {
      EvictedNumbers(Transmit(s, |s.window| - 1, outcome), all, s.windowSize / 2);
    }
  }

  /** What is cut off goes to aux and out of the index, and nothing else does. */
  lemma SendLastFiles(s: Sender, all: seq<Packet>, outcome: Outcome)
    requires s.window != [] && StampDue(s, all, |s.window| - 1) && !s.window[|s.window| - 1].acked
    ensures var t := SendPacket(s, |s.window| - 1, outcome);
            && Joined(t.aux, s.aux, s.packetsSent + |t.window|, s.packetsSent + |s.window|)
            && ExactIndex(t.window, t.unacked)
  {
    SendLastIndex(s, all, outcome);
    SendLastAux(s, all, outcome);
  }

  // ---------- the refill ----------

  /** A window size after k loss events: halved each time, but never below 1. */
  function Halved(size: nat, k: nat): nat {
    Max(size / Pow2(k), 1)
  }

  lemma HalvedNever(size: nat)
    requires size >= 1
    ensures Halved(size, 0) == size
  {
    assert Pow2(0) == 1;
  }

  lemma HalfThenDivide(a: nat, b: nat)
    requires b >= 1
    ensures a / 2 / b == a / (2 * b)
  {
    var q, r := a / 2 / b, a / 2 % b;
    assert a / 2 == b * q + r;
    var rest := a - (2 * b) * q;
    assert 0 <= rest < 2 * b;
    assert a == q * (2 * b) + rest;
    QuotientIs(a, 2 * b, q, rest);
  }

  lemma QuotientIs(a: nat, n: nat, q: nat, r: nat)
    requires a == q * n + r && r < n
    ensures a / n == q
  {
    var d: int := a / n - q;
    assert a == a / n * n + a % n;
    assert d * n == r - a % n;
    MultipleBeyond(d, n);
  }

  lemma MultipleBeyond(d: int, n: nat)
    ensures d >= 1 ==> d * n >= n
    ensures d <= -1 ==> d * n + n <= 0
  {
  }

  lemma HalvedOnceMore(size: nat, k: nat)
    ensures Halved(Max(size / 2, 1), k) == Halved(size, k + 1)
  {
    HalfThenDivide(size, Pow2(k));
    assert Pow2(k + 1) == 2 * Pow2(k);
    if size / 2 == 0 {
      assert size / (2 * Pow2(k)) == 0 / Pow2(k) == 0;
      assert 1 / Pow2(k) <= 1;
    }
  }

  /** The window size when n packets have been sent from s on. */
  function SizeAfter(s: Sender, net: Network, n: nat): nat {
    Halved(s.windowSize, LossEvents(net, s.clock, n))
  }

  /** After n packets there is still room in the window and another packet to put there. */
  predicate GoesOn(s: Sender, all: seq<Packet>, net: Network, n: nat) {
    |s.window| + n < SizeAfter(s, net, n) && s.packetsSent + |s.window| + n < |all|
  }

  /** n is the number of packets sent until the refill stops. */
  ghost predicate StopsAfter(s: Sender, all: seq<Packet>, net: Network, n: int) {
    && 0 <= n <= |all| - s.packetsSent - |s.window|
    && !GoesOn(s, all, net, n)
    && forall j :: 0 <= j < n ==> GoesOn(s, all, net, j)
  }

  /** A window with the next n packets of the file behind it, all new and waiting, stamped one
      tick after the other. */
  function Longer(s: Sender, all: seq<Packet>, n: nat): seq<Slot>
    requires s.packetsSent + |s.window| + n <= |all|
  {
    s.window + seq(n, j requires 0 <= j < n => Slot(all[s.packetsSent + |s.window| + j], false, s.clock + j))
  }

  /** Each of the n sends that reports a loss event halves the size; the threshold follows it. */
  ghost predicate Resized(s: Sender, net: Network, n: nat, t: Sender) {
    && t.windowSize == Halved(s.windowSize, LossEvents(net, s.clock, n))
    && t.threshold == (if LossEvents(net, s.clock, n) == 0 then s.threshold else t.windowSize)
  }

  /** The next n packets of the file go out, in order and each once. */
  ghost predicate Sends(s: Sender, all: seq<Packet>, net: Network, n: nat, t: Sender) {
    var next := s.packetsSent + |s.window|;
    next + n <= |all| && t.wire == s.wire + LetThrough(all[next..next + n], net, s.clock)
  }

  /** They follow the window, as far as the size allows. */
  ghost predicate Lengthened(s: Sender, all: seq<Packet>, n: nat, t: Sender) {
    && s.packetsSent + |s.window| + n <= |all|
    && t.window == Longer(s, all, n)[..Min(|s.window| + n, t.windowSize)]
  }

  /** What a refill from s leaves, in numbers. The next packets of the file are sent, in order
      and each once, until the window is full or the file ends; loss events among these sends
      halve the size, and the window is cut to it. */
  ghost predicate Refilled(s: Sender, all: seq<Packet>, net: Network, t: Sender) {
    var n := t.clock - s.clock;
    && StopsAfter(s, all, net, n) && Sends(s, all, net, n, t)
    && Resized(s, net, n, t) && Lengthened(s, all, n, t)
    && t.nextSeqNumber == Max(s.nextSeqNumber, s.packetsSent + |s.window| + n + 1)
    && t.packetsSent == s.packetsSent && t.maxWindowSize == s.maxWindowSize
  }

  /** The packet pulled is the one that follows the window in the file, not acknowledged. */
  ghost predicate Pulled(s: Sender, all: seq<Packet>, t: Sender)
    requires s.packetsSent + |s.window| < |all|
  {
    var next := s.packetsSent + |s.window|;
    && |t.window| == |s.window| + 1
    && t.window == s.window + [Slot(all[next], false, t.window[|s.window|].stamp)]
    && t.nextSeqNumber == Max(s.nextSeqNumber, next + 2)
    && t.windowSize == s.windowSize && t.threshold == s.threshold && t.maxWindowSize == s.maxWindowSize
    && t.packetsSent == s.packetsSent && t.clock == s.clock && t.wire == s.wire
  }

  lemma PullExactly(s: Sender, all: seq<Packet>)
    requires Kept(s, all) && CanPull(s)
    ensures s.packetsSent + |s.window| < |all| && Pulled(s, all, Pull(s))
  {
    var next, t := s.packetsSent + |s.window|, Pull(s);
    assert Core(s, all, -1);
    PullConserves(s, all);
    assert t.window[|s.window|].pkt == all[next];
    assert next + 1 in s.aux <==> next + 1 < s.nextSeqNumber;
  }

  lemma CanPullIff(s: Sender, all: seq<Packet>)
    requires Kept(s, all)
    ensures CanPull(s) <==> s.packetsSent + |s.window| < |all|
  {
    if CanPull(s) {
      PullExactly(s, all);
    } else {
      assert Core(s, all, -1);
      assert s.packetsSent + |s.window| + 1 !in s.aux;
      assert |s.todo| == |all| - (s.nextSeqNumber - 1);
    }
  }

  lemma StampedLast(window: seq<Slot>, p: Slot, clock: nat)
    ensures var w := window + [p];
            w[..|window|] + [w[|window|].(stamp := clock)] + w[|window| + 1..] == window + [p.(stamp := clock)]
  {
  }

  lemma LongerByOne(s: Sender, all: seq<Packet>)
    requires s.packetsSent + |s.window| < |all|
    ensures Longer(s, all, 1) == s.window + [Slot(all[s.packetsSent + |s.window|], false, s.clock)]
  {
  }

  /** What one round leaves, in numbers: the next packet of the file is sent, once. */
  ghost predicate Rounded(s: Sender, all: seq<Packet>, outcome: Outcome, t: Sender)
    requires s.packetsSent + |s.window| < |all|
  {
    var next, half := s.packetsSent + |s.window|, Max(s.windowSize / 2, 1);
    && t.windowSize == (if outcome == TripleDup then half else s.windowSize)
    && t.threshold == (if outcome == TripleDup then half else s.threshold)
    && Lengthened(s, all, 1, t)
    && t.wire == s.wire + (if outcome == Lost then [] else [all[next]])
    && t.clock == s.clock + 1 && t.nextSeqNumber == Max(s.nextSeqNumber, next + 2)
    && t.packetsSent == s.packetsSent && t.maxWindowSize == s.maxWindowSize
  }

  lemma RoundFromParts(s: Sender, all: seq<Packet>, outcome: Outcome, pulled: Sender, t: Sender)
    requires s.packetsSent + |s.window| < |all| && |s.window| < s.windowSize
    requires Pulled(s, all, pulled) && SentAt(pulled, |s.window|, outcome, t)
    ensures Rounded(s, all, outcome, t)
  {
    StampedLast(s.window, pulled.window[|s.window|], s.clock);
    LongerByOne(s, all);
    assert Longer(s, all, 1)[..|s.window| + 1] == Longer(s, all, 1);
  }

  lemma RoundExactly(s: Sender, all: seq<Packet>, outcome: Outcome)
    requires Kept(s, all) && |s.window| < s.windowSize && CanPull(s)
    ensures s.packetsSent + |s.window| < |all| && Rounded(s, all, outcome, Round(s, outcome))
  {
    PullExactly(s, all);
    SendExactly(Pull(s), |s.window|, outcome);
    RoundFromParts(s, all, outcome, Pull(s), Round(s, outcome));
  }

  /** With a full window, or without another packet, nothing is sent. */
  lemma NothingSent(s: Sender, all: seq<Packet>, net: Network)
    requires s.windowSize >= 1 && |s.window| <= s.windowSize && s.packetsSent + |s.window| <= |all|
    requires |s.window| == s.windowSize || s.packetsSent + |s.window| == |all|
    requires s.nextSeqNumber >= s.packetsSent + |s.window| + 1
    ensures Refilled(s, all, net, s)
  {
    HalvedNever(s.windowSize);
    assert Longer(s, all, 0) == s.window == s.window[..|s.window|];
    assert s.wire == s.wire + LetThrough([], net, s.clock);
  }

  // The four lemmas below add one round, which leaves u, in front of a refill from u.

  lemma SizeFirst(s: Sender, all: seq<Packet>, net: Network, u: Sender, n: nat)
    requires s.packetsSent + |s.window| < |all| && Rounded(s, all, net(s.clock), u)
    requires s.windowSize >= 1
    ensures SizeAfter(u, net, n) == SizeAfter(s, net, n + 1)
    ensures LossEvents(net, s.clock, n + 1)
         == (if net(s.clock) == TripleDup then 1 else 0) + LossEvents(net, u.clock, n)
  {
    HalvedOnceMore(s.windowSize, LossEvents(net, u.clock, n));
  }

  lemma StopsFirst(s: Sender, all: seq<Packet>, net: Network, u: Sender, n: nat)
    requires s.packetsSent + |s.window| < |all| && Rounded(s, all, net(s.clock), u)
    requires |s.window| < s.windowSize && StopsAfter(u, all, net, n)
    ensures StopsAfter(s, all, net, n + 1) && (n > 0 ==> |u.window| == |s.window| + 1)
  {
    HalvedNever(s.windowSize);
    HalvedNever(u.windowSize);
    assert GoesOn(s, all, net, 0);
    SizeFirst(s, all, net, u, n);
    assert n > 0 ==> GoesOn(u, all, net, 0);
    forall j | 1 <= j < n + 1
      ensures GoesOn(s, all, net, j)
    {
      SizeFirst(s, all, net, u, j - 1);
      assert GoesOn(u, all, net, j - 1);
    }
    if n == 0 && |u.window| < |s.window| + 1 {
      assert |u.window| == u.windowSize;
    }
  }

  lemma LetThroughFirst(ps: seq<Packet>, rest: seq<Packet>, net: Network, from: nat)
    requires ps != [] && rest == ps[1..]
    ensures LetThrough(ps, net, from)
         == (if net(from) == Lost then [] else [ps[0]]) + LetThrough(rest, net, from + 1)
  {
  }

  lemma SliceFirst(all: seq<Packet>, next: nat, after: nat, n: nat)
    requires next + n + 1 <= |all| && after + n <= |all| && (n > 0 ==> after == next + 1)
    ensures all[next..next + n + 1][1..] == all[after..after + n]
  {
  }

  lemma SendsFirst(s: Sender, all: seq<Packet>, net: Network, u: Sender, n: nat, t: Sender)
    requires u.packetsSent == s.packetsSent && u.clock == s.clock + 1
    requires s.packetsSent + |s.window| + n + 1 <= |all|
    requires u.wire == s.wire + (if net(s.clock) == Lost then [] else [all[s.packetsSent + |s.window|]])
    requires Sends(u, all, net, n, t)
    requires n > 0 ==> |u.window| == |s.window| + 1
    ensures Sends(s, all, net, n + 1, t)
  {
    var next, after := s.packetsSent + |s.window|, u.packetsSent + |u.window|;
    SliceFirst(all, next, after, n);
    LetThroughFirst(all[next..next + n + 1], all[after..after + n], net, s.clock);
    Regroup(s.wire, if net(s.clock) == Lost then [] else [all[next]], LetThrough(all[after..after + n], net, u.clock));
  }

  lemma Regroup(a: seq<Packet>, b: seq<Packet>, c: seq<Packet>)
    ensures (a + b) + c == a + (b + c)
  {
  }

  lemma LengthenedFirst(s: Sender, all: seq<Packet>, u: Sender, n: nat, t: Sender)
    requires s.packetsSent + |s.window| + n + 1 <= |all| && 1 <= u.windowSize
    requires u.packetsSent == s.packetsSent && u.clock == s.clock + 1 && Lengthened(s, all, 1, u)
    requires Lengthened(u, all, n, t)
    requires |u.window| == |s.window| + 1 || (n == 0 && t.windowSize == u.windowSize)
    ensures Lengthened(s, all, n + 1, t)
  {
    if |u.window| == |s.window| + 1 {
      assert u.window == Longer(s, all, 1);
      assert Longer(u, all, n) == Longer(s, all, n + 1);
    } else {
      assert Longer(u, all, 0) == u.window;
    }
  }

  lemma ResizedFirst(s: Sender, all: seq<Packet>, net: Network, u: Sender, n: nat, t: Sender)
    requires s.packetsSent + |s.window| < |all| && Rounded(s, all, net(s.clock), u)
    requires s.windowSize >= 1 && Resized(u, net, n, t)
    ensures Resized(s, net, n + 1, t) && (n == 0 ==> t.windowSize == u.windowSize)
  {
    SizeFirst(s, all, net, u, n);
    HalvedNever(u.windowSize);
  }

  lemma RoundThenRefill(s: Sender, all: seq<Packet>, net: Network, u: Sender, t: Sender, n: nat)
    requires s.packetsSent + |s.window| < |all| && Rounded(s, all, net(s.clock), u)
    requires |s.window| < s.windowSize && Refilled(u, all, net, t) && n == t.clock - u.clock
    ensures Refilled(s, all, net, t)
  {
    StopsFirst(s, all, net, u, n);
    ResizedFirst(s, all, net, u, n, t);
    SendsFirst(s, all, net, u, n, t);
    LengthenedFirst(s, all, u, n, t);
  }

  /** The refill loop, through all nested shrinks: it sends consecutive packets of the file,
      each once, and stops as soon as the window is full or the file ends. */
  lemma {:induction false} ExpandExactly(s: Sender, all: seq<Packet>, net: Network)
    requires Kept(s, all)
    ensures Refilled(s, all, net, Expand(s, net)) && Kept(Expand(s, net), all)
    decreases s.windowSize, s.windowSize - |s.window|
  {
    CanPullIff(s, all);
    if |s.window| < s.windowSize && CanPull(s) {
      var next := Round(s, net(s.clock));
      RoundFacts(s, all, net(s.clock));
      RoundExactly(s, all, net(s.clock));
      ExpandExactly(next, all, net);
      RoundUnfolds(s, net);
      var t := Expand(next, net);
      RoundThenRefill(s, all, net, next, t, t.clock - next.clock);
    } else {
      ExpandDone(s, net);
      KeptBounds(s, all);
      NothingSent(s, all, net);
    }
  }

  lemma KeptBounds(s: Sender, all: seq<Packet>)
    requires Kept(s, all)
    ensures |s.window| <= s.windowSize && 1 <= s.windowSize <= s.maxWindowSize
    ensures s.packetsSent + |s.window| <= |all| && s.nextSeqNumber >= s.packetsSent + |s.window| + 1
  {
    assert Core(s, all, -1);
  }

  // ---------- an ACK ----------

  /** The first m packets of the window are acknowledged and the one after them is not. */
  ghost predicate LeadingAcked(window: seq<Slot>, m: int) {
    && 0 <= m <= |window|
    && (forall j :: 0 <= j < m ==> window[j].acked)
    && (m < |window| ==> !window[m].acked)
  }

  /** Sliding pops exactly the acknowledged packets at the front. */
  lemma {:induction false} AdvanceExactly(s: Sender)
    ensures var t := Advance(s);
            && LeadingAcked(s.window, t.packetsSent - s.packetsSent)
            && t == s.(packetsSent := t.packetsSent, window := s.window[t.packetsSent - s.packetsSent..])
    decreases |s.window|
  {
    if s.window != [] && s.window[0].acked {
      AdvanceExactly(Popped(s));
      var m := Advance(s).packetsSent - s.packetsSent;
      assert s.window[1..][m - 1..] == s.window[m..];
      forall j | 0 <= j < m
        ensures s.window[j].acked
      {
        if j > 0 { assert s.window[j] == s.window[1..][j - 1]; }
      }
    }
  }

  /** Erasing by stamp takes out the entry of that one packet. */
  lemma EraseIsOne(s: Sender, all: seq<Packet>, i: nat)
    requires Core(s, all, -1) && i < |s.window| && !s.window[i].acked
    ensures Erase(s.unacked, s.window[i].stamp) == s.unacked - {Entry(s.window[i].stamp, s.window[i].pkt.seqno)}
    ensures Entry(s.window[i].stamp, s.window[i].pkt.seqno) in s.unacked
  {
    forall e <- s.unacked
      ensures e.stamp == s.window[i].stamp ==> e == EntryOf(s.window[i])
    {
      assert Owner(s.window, e, e.seqno - s.packetsSent - 1, -1);
    }
    assert EntryOf(s.window[i]) in s.unacked;
  }

  lemma SteadyErase(s: Sender, all: seq<Packet>, i: nat)
    requires Steady(s, all) && i < |s.window| && !s.window[i].acked
    ensures Erase(s.unacked, s.window[i].stamp) == s.unacked - {Entry(s.window[i].stamp, s.window[i].pkt.seqno)}
    ensures i > 0 ==> !s.window[0].acked
  {
    assert Inv(s, all);
    EraseIsOne(s, all, i);
  }

  /** The window with packet i acknowledged. */
  function WithAck(window: seq<Slot>, i: nat): seq<Slot>
    requires i < |window|
  {
    window[..i] + [window[i].(acked := true)] + window[i + 1..]
  }

  /** What an ACK for the waiting packet i does before the refill: exactly that packet becomes
      acknowledged and leaves the index, and the acknowledged front is popped. */
  lemma SettledExactly(s: Sender, all: seq<Packet>, i: nat)
    requires Steady(s, all) && i < |s.window| && !s.window[i].acked
    ensures var t := Settled(s, i);
            var m := t.packetsSent - s.packetsSent;
            && LeadingAcked(WithAck(s.window, i), m) && (m > 0 <==> i == 0)
            && t == s.(packetsSent := t.packetsSent, window := WithAck(s.window, i)[m..],
                       unacked := s.unacked - {Entry(s.window[i].stamp, s.window[i].pkt.seqno)})
  {
    SteadyErase(s, all, i);
    var marked := MarkAcked(s, i);
    assert marked.window == WithAck(s.window, i);
    if i == 0 { AdvanceExactly(marked); }
  }

  /** The state between marking and refill: m packets have been popped, and the size is doubled
      below the threshold, one more from there on, and never above the maximum. */
  function Enlarged(s: Sender, i: nat, m: nat): Sender
    requires i < |s.window| && m <= |s.window|
  {
    s.(window := WithAck(s.window, i)[m..], packetsSent := s.packetsSent + m,
       unacked := s.unacked - {Entry(s.window[i].stamp, s.window[i].pkt.seqno)},
       windowSize := Min(if s.windowSize < s.threshold then 2 * s.windowSize else s.windowSize + 1, s.maxWindowSize))
  }

  /** What an ACK for the waiting packet i leaves after the refill. The quantifier keeps the refill
      closed in proofs that only pass it on. */
  ghost predicate Acked(s: Sender, i: nat, all: seq<Packet>, net: Network, t: Sender)
    requires i < |s.window|
  {
    var m := t.packetsSent - s.packetsSent;
    && LeadingAcked(WithAck(s.window, i), m) && (m > 0 <==> i == 0)
    && (forall u: Sender :: u == Enlarged(s, i, m) ==> Refilled(u, all, net, t))
    && ExactIndex(t.window, t.unacked)
  }

  /** How many packets the ACK for packet i pops. */
  ghost function PoppedBy(s: Sender, i: nat): int
    requires i < |s.window|
  {
    Settled(s, i).packetsSent - s.packetsSent
  }

  lemma EnlargedIs(s: Sender, all: seq<Packet>, i: nat)
    requires Steady(s, all) && i < |s.window| && !s.window[i].acked
    ensures var m := PoppedBy(s, i);
            && LeadingAcked(WithAck(s.window, i), m) && (m > 0 <==> i == 0)
            && Adjust(Settled(s, i)) == Enlarged(s, i, m) && Kept(Enlarged(s, i, m), all)
  {
    SettledKept(s, all, i);
    SettledExactly(s, all, i);
  }

  lemma AckedAt(s: Sender, all: seq<Packet>, i: nat, net: Network, m: int)
    requires i < |s.window| && LeadingAcked(WithAck(s.window, i), m) && (m > 0 <==> i == 0)
    requires Kept(Enlarged(s, i, m), all)
    ensures Acked(s, i, all, net, Expand(Enlarged(s, i, m), net))
  {
    RefillFrom(Enlarged(s, i, m), all, net);
  }

  lemma RefillFrom(u: Sender, all: seq<Packet>, net: Network)
    requires Kept(u, all)
    ensures var t := Expand(u, net); Refilled(u, all, net, t) && ExactIndex(t.window, t.unacked)
  {
    ExpandExactly(u, all, net);
    KeptIndex(Expand(u, net), all);
  }

  lemma KeptIndex(t: Sender, all: seq<Packet>)
    requires Kept(t, all)
    ensures ExactIndex(t.window, t.unacked)
  {
    assert Core(t, all, -1);
    TimerIndex(t, all);
  }

  lemma FoundAt(s: Sender, all: seq<Packet>, i: nat)
    requires Steady(s, all) && i < |s.window|
    ensures s.window[i].pkt.seqno == s.packetsSent + i + 1 && IndexOf(s.window, s.packetsSent + i + 1) == i
  {
    assert Inv(s, all);
    IndexOfNumber(s, all, i);
  }

  lemma AcceptedIs(s: Sender, a: Ack, i: nat, net: Network)
    requires a.Intact() && i == IndexOf(s.window, a.ackno) < |s.window| && !s.window[i].acked
    ensures Acknowledge(s, a, net) == Expand(Adjust(Settled(s, i)), net)
  {
  }

  /** An intact ACK with the number of a packet that waits for it. */
  predicate IsAwaited(s: Sender, a: Ack) {
    && a.Intact() && s.packetsSent < a.ackno <= s.packetsSent + |s.window|
    && !s.window[a.ackno - s.packetsSent - 1].acked
  }

  lemma AcceptsIff(s: Sender, all: seq<Packet>, a: Ack)
    requires Steady(s, all)
    ensures Accepts(s, a) <==> IsAwaited(s, a)
  {
    var i := IndexOf(s.window, a.ackno);
    if i < |s.window| { FoundAt(s, all, i); }
    if s.packetsSent < a.ackno <= s.packetsSent + |s.window| { FoundAt(s, all, a.ackno - s.packetsSent - 1); }
  }

  /** Any other ACK changes nothing: a damaged one, one for a number outside the window, and one
      for a packet already acknowledged. */
  lemma OtherAcksIgnored(s: Sender, all: seq<Packet>, a: Ack, net: Network)
    requires Steady(s, all) && !IsAwaited(s, a)
    ensures Acknowledge(s, a, net) == s
  {
    AcceptsIff(s, all, a);
  }

  ghost predicate AckEffect(s: Sender, all: seq<Packet>, a: Ack, net: Network, t: Sender) {
    if IsAwaited(s, a) then Acked(s, a.ackno - s.packetsSent - 1, all, net, t) else t == s
  }

  /** One ACK as a whole, whatever it says. */
  lemma AcknowledgeExactly(s: Sender, all: seq<Packet>, a: Ack, net: Network)
    requires Steady(s, all)
    ensures AckEffect(s, all, a, net, Acknowledge(s, a, net))
  {
    if IsAwaited(s, a) {
      var i := a.ackno - s.packetsSent - 1;
      FoundAt(s, all, i);
      EnlargedIs(s, all, i);
      AckedAt(s, all, i, net, PoppedBy(s, i));
      AcceptedIs(s, a, i, net);
    } else {
      OtherAcksIgnored(s, all, a, net);
    }
  }

  /** The packets behind the old end of the window went out in order, and nothing else did; what
      is in the window now and was not before is among them. */
  ghost predicate SentInOrder(wire: seq<Packet>, clock: nat, end: nat, all: seq<Packet>, t: Sender) {
    var n := t.clock - clock;
    && 0 <= n <= |all| - end && t.wire == wire + all[end..end + n]
    && forall j :: 0 <= j < |t.window| && t.packetsSent + j >= end ==> WentOut(wire, end, t, j)
  }

  /** The packet at position j of the window is in the new part of the wire, at its place. */
  ghost predicate WentOut(wire: seq<Packet>, end: nat, t: Sender, j: int) {
    var k := |wire| + t.packetsSent + j - end;
    0 <= j < |t.window| && |wire| <= k < |t.wire| && t.wire[k] == t.window[j].pkt
  }

  /** Over a network that drops nothing, what an ACK brings into the window is all sent, in
      order, and nothing else is. */
  lemma NewPacketsAreSent(s: Sender, all: seq<Packet>, a: Ack, net: Network)
    requires Steady(s, all) && Lossless(net)
    ensures SentInOrder(s.wire, s.clock, s.packetsSent + |s.window|, all, Acknowledge(s, a, net))
  {
    AcknowledgeExactly(s, all, a, net);
    SteadyBounds(s, all);
    EffectSends(s, all, a, net, Acknowledge(s, a, net));
  }

  lemma SteadyBounds(s: Sender, all: seq<Packet>)
    requires Steady(s, all)
    ensures |s.window| <= s.windowSize && 1 <= s.windowSize <= s.maxWindowSize
    ensures s.packetsSent + |s.window| <= |all|
    ensures s.window != [] ==> !s.window[0].acked
  {
    assert Inv(s, all);
  }

  lemma {:induction false} LosslessPasses(ps: seq<Packet>, net: Network, from: nat)
    requires Lossless(net)
    ensures LetThrough(ps, net, from) == ps
    decreases |ps|
  {
    if ps != [] { LosslessPasses(ps[1..], net, from + 1); }
  }

  lemma NoneSent(s: Sender, all: seq<Packet>)
    requires s.packetsSent + |s.window| <= |all|
    ensures SentInOrder(s.wire, s.clock, s.packetsSent + |s.window|, all, s)
  {
  }

  lemma AckedSends(s: Sender, i: nat, all: seq<Packet>, net: Network, t: Sender)
    requires i < |s.window| && Acked(s, i, all, net, t) && Lossless(net)
    ensures SentInOrder(s.wire, s.clock, s.packetsSent + |s.window|, all, t)
  {
    var u := Enlarged(s, i, t.packetsSent - s.packetsSent);
    assert Refilled(u, all, net, t);
    RefillSends(u, all, net, t);
    assert u.packetsSent + |u.window| == s.packetsSent + |s.window| && u.wire == s.wire && u.clock == s.clock;
  }

  lemma EffectSends(s: Sender, all: seq<Packet>, a: Ack, net: Network, t: Sender)
    requires AckEffect(s, all, a, net, t) && Lossless(net) && s.packetsSent + |s.window| <= |all|
    ensures SentInOrder(s.wire, s.clock, s.packetsSent + |s.window|, all, t)
  {
    if IsAwaited(s, a) {
      AckedSends(s, a.ackno - s.packetsSent - 1, all, net, t);
    } else {
      NoneSent(s, all);
    }
  }

  lemma RefillSends(s: Sender, all: seq<Packet>, net: Network, t: Sender)
    requires Refilled(s, all, net, t) && Lossless(net)
    ensures SentInOrder(s.wire, s.clock, s.packetsSent + |s.window|, all, t)
  {
    var end, n := s.packetsSent + |s.window|, t.clock - s.clock;
    LosslessPasses(all[end..end + n], net, s.clock);
    LengthenedAt(s, all, n, t);
    InOrderFrom(s.wire, s.clock, end, all, n, t);
  }

  lemma InOrderFrom(wire: seq<Packet>, clock: nat, end: nat, all: seq<Packet>, n: nat, t: Sender)
    requires end + n <= |all| && t.clock == clock + n && t.wire == wire + all[end..end + n]
    requires forall j :: 0 <= j < |t.window| && t.packetsSent + j >= end ==>
               t.packetsSent + j < end + n && t.window[j].pkt == all[t.packetsSent + j]
    ensures SentInOrder(wire, clock, end, all, t)
  {
    forall j | 0 <= j < |t.window| && t.packetsSent + j >= end
      ensures WentOut(wire, end, t, j)
    {
      assert t.window[j].pkt == all[t.packetsSent + j];
      assert t.wire[|wire| + t.packetsSent + j - end] == all[end..end + n][t.packetsSent + j - end];
    }
  }

  lemma LengthenedAt(s: Sender, all: seq<Packet>, n: nat, t: Sender)
    requires Lengthened(s, all, n, t) && t.packetsSent == s.packetsSent
    ensures forall j :: 0 <= j < |t.window| && t.packetsSent + j >= s.packetsSent + |s.window| ==>
              j < |s.window| + n && t.window[j].pkt == all[t.packetsSent + j]
  {
    forall j | 0 <= j < |t.window| && j >= |s.window|
      ensures j < |s.window| + n && t.window[j].pkt == all[t.packetsSent + j]
    {
      assert t.window[j] == Longer(s, all, n)[j];
    }
  }

  // ---------- a timeout and the start ----------

  /** What a timeout leaves: the front alone in a window of one, sent once more and waited for
      alone. The threshold is half the old size, or 1 after a loss event. */
  ghost predicate TimedOut(s: Sender, outcome: Outcome, t: Sender)
    requires s.window != []
  {
    && t.window == [s.window[0].(stamp := s.clock)] && t.windowSize == 1
    && t.threshold == (if outcome == TripleDup then 1 else Max(s.windowSize / 2, 1))
    && t.wire == s.wire + (if outcome == Lost then [] else [s.window[0].pkt])
    && t.clock == s.clock + 1 && t.packetsSent == s.packetsSent && t.maxWindowSize == s.maxWindowSize
    && t.nextSeqNumber == s.nextSeqNumber && t.todo == s.todo
    && t.unacked == {Entry(s.clock, s.window[0].pkt.seqno)}
  }

  lemma TimeOutFrom(s: Sender, outcome: Outcome, u: Sender, t: Sender)
    requires s.window != [] && !s.window[0].acked && u.window == [s.window[0]]
    requires u.windowSize == 1 && u.threshold == Max(s.windowSize / 2, 1) && u.maxWindowSize == s.maxWindowSize
    requires u.clock == s.clock && u.wire == s.wire && u.packetsSent == s.packetsSent
    requires u.todo == s.todo && u.nextSeqNumber == s.nextSeqNumber
    requires SentAt(u, 0, outcome, t) && ExactIndex(t.window, t.unacked)
    ensures TimedOut(s, outcome, t)
  {
    assert t.window == [s.window[0].(stamp := s.clock)];
    assert t.unacked == {Entry(s.clock, s.window[0].pkt.seqno)};
  }

  lemma TimeOutExactly(s: Sender, all: seq<Packet>, net: Network)
    requires Steady(s, all) && s.window != []
    ensures s.unacked != {} && TimedOut(s, net(s.clock), HandleTimeOut(s, net))
  {
    var u := Shrink(s.(unacked := Erase(s.unacked, s.window[0].stamp)), 1);
    TimeOutFacts(s, all, net);
    FrontAlone(s, all);
    SendExactly(u, 0, net(s.clock));
    SteadyIndex(HandleTimeOut(s, net), all);
    TimeOutFrom(s, net(s.clock), u, HandleTimeOut(s, net));
  }

  lemma FrontAlone(s: Sender, all: seq<Packet>)
    requires Steady(s, all) && s.window != []
    ensures !s.window[0].acked
    ensures var u := Shrink(s.(unacked := Erase(s.unacked, s.window[0].stamp)), 1);
            && u.window == [s.window[0]]
            && u.windowSize == 1 && u.threshold == Max(s.windowSize / 2, 1) && u.maxWindowSize == s.maxWindowSize
            && u.clock == s.clock && u.wire == s.wire && u.packetsSent == s.packetsSent
            && u.todo == s.todo && u.nextSeqNumber == s.nextSeqNumber
  {
    assert Inv(s, all);
    ShrinkToFront(s, all);
  }

  lemma SteadyIndex(t: Sender, all: seq<Packet>)
    requires Steady(t, all)
    ensures ExactIndex(t.window, t.unacked)
  {
    assert Inv(t, all);
    TimerIndex(t, all);
  }

  /** The started sender: a window of one packet, which has been sent once. */
  ghost predicate Started(all: seq<Packet>, maxWindowSize: nat, outcome: Outcome, t: Sender) {
    var n := if all == [] then 0 else 1;
    && t.window == (if n == 0 then [] else [Slot(all[0], false, 0)]) && t.windowSize == 1
    && t.threshold == (if n == 1 && outcome == TripleDup then 1 else maxWindowSize / 2)
    && t.wire == (if n == 0 || outcome == Lost then [] else [all[0]])
    && t.clock == n && t.packetsSent == 0 && t.maxWindowSize == maxWindowSize
    && t.nextSeqNumber == n + 1 && t.todo == all[n..]
    && t.unacked == (if n == 0 then {} else {Entry(0, all[0].seqno)})
  }

  lemma StartExactly(all: seq<Packet>, maxWindowSize: nat, net: Network)
    requires Sequential(all, 1) && maxWindowSize >= 1
    ensures Started(all, maxWindowSize, net(0), StartFrom(Initial(all, maxWindowSize), 0, net))
  {
    var s := Initial(all, maxWindowSize);
    StartFacts(all, maxWindowSize, net);
    SteadyIndex(StartFrom(s, 0, net), all);
    if all != [] {
      StartIsSend(all, maxWindowSize, net);
      SendExactly(s, 0, net(0));
      StartedFrom(all, maxWindowSize, net(0), s, StartFrom(s, 0, net));
    }
  }

  lemma StartIsSend(all: seq<Packet>, maxWindowSize: nat, net: Network)
    requires Sequential(all, 1) && maxWindowSize >= 1 && all != []
    ensures StartFrom(Initial(all, maxWindowSize), 0, net) == SendPacket(Initial(all, maxWindowSize), 0, net(0))
  {
    InitialCore(all, maxWindowSize, net);
  }

  lemma StartedFrom(all: seq<Packet>, maxWindowSize: nat, outcome: Outcome, s: Sender, t: Sender)
    requires all != [] && s == Initial(all, maxWindowSize)
    requires SentAt(s, 0, outcome, t) && ExactIndex(t.window, t.unacked)
    ensures Started(all, maxWindowSize, outcome, t)
  {
    assert s.window == [Slot(all[0], false, 0)];
    assert t.window == [Slot(all[0], false, 0)];
    assert t.unacked == {Entry(0, all[0].seqno)};
  }

  // ---------- runs of ACKs ----------

  /** The sender counts number k as acknowledged. */
  ghost predicate IsAcked(s: Sender, k: nat) {
    || 1 <= k <= s.packetsSent
    || (s.packetsSent < k <= s.packetsSent + |s.window| && s.window[k - s.packetsSent - 1].acked)
  }

  /** Whatever the network does: an ACK adds its own number, if that is in the window, and takes
      none away but those that a loss event evicts. */
  lemma AckIsRecorded(s: Sender, all: seq<Packet>, a: Ack, net: Network, k: nat)
    requires Steady(s, all)
    ensures var t := Acknowledge(s, a, net);
            IsAcked(t, k) <==>
              && k <= t.packetsSent + |t.window|
              && (IsAcked(s, k)
                  || (a.Intact() && k == a.ackno && s.packetsSent < k <= s.packetsSent + |s.window|))
  {
    AcknowledgeExactly(s, all, a, net);
    Recorded(s, all, a, net, Acknowledge(s, a, net), k);
  }

  lemma Recorded(s: Sender, all: seq<Packet>, a: Ack, net: Network, t: Sender, k: nat)
    requires AckEffect(s, all, a, net, t)
    ensures IsAcked(t, k) <==>
              && k <= t.packetsSent + |t.window|
              && (IsAcked(s, k)
                  || (a.Intact() && k == a.ackno && s.packetsSent < k <= s.packetsSent + |s.window|))
  {
    if IsAwaited(s, a) {
      AckedNumbers(s, a.ackno - s.packetsSent - 1, all, net, t, k);
    }
  }

  lemma AckedNumbers(s: Sender, i: nat, all: seq<Packet>, net: Network, t: Sender, k: nat)
    requires i < |s.window| && Acked(s, i, all, net, t)
    ensures IsAcked(t, k) <==>
              k <= t.packetsSent + |t.window| && (IsAcked(s, k) || k == s.packetsSent + i + 1)
  {
    var m := t.packetsSent - s.packetsSent;
    EnlargedNumbers(s, i, m, k);
    assert Refilled(Enlarged(s, i, m), all, net, t);
    RefillKeepsAcks(Enlarged(s, i, m), all, net, t, k);
  }

  lemma EnlargedNumbers(s: Sender, i: nat, m: nat, k: nat)
    requires i < |s.window| && LeadingAcked(WithAck(s.window, i), m)
    ensures IsAcked(Enlarged(s, i, m), k) <==> IsAcked(s, k) || k == s.packetsSent + i + 1
  {
    var w := WithAck(s.window, i);
    if s.packetsSent < k <= s.packetsSent + |w| {
      assert w[k - s.packetsSent - 1].acked <==> IsAcked(s, k) || k == s.packetsSent + i + 1;
    }
  }

  /** A refill acknowledges nothing and forgets only what it evicts. */
  lemma RefillKeepsAcks(s: Sender, all: seq<Packet>, net: Network, t: Sender, k: nat)
    requires Refilled(s, all, net, t)
    ensures IsAcked(t, k) <==> k <= t.packetsSent + |t.window| && IsAcked(s, k)
  {
    if s.packetsSent < k <= s.packetsSent + |t.window| {
      assert t.window[k - s.packetsSent - 1] == Longer(s, all, t.clock - s.clock)[k - s.packetsSent - 1];
    }
  }

  /** The sender after a list of ACKs. */
  ghost function AcknowledgeAll(s: Sender, acks: seq<Ack>, net: Network): Sender
    decreases |acks|
  {
    if acks == [] then s else AcknowledgeAll(Acknowledge(s, acks[0], net), acks[1..], net)
  }

  lemma {:induction false} NoneCounted(net: Network, from: nat, n: nat)
    requires NoLossEvent(net)
    ensures LossEvents(net, from, n) == 0
    decreases n
  {
    if n > 0 { NoneCounted(net, from + 1, n - 1); }
  }

  /** Without a loss event the window never gives up a number. */
  lemma EndStays(s: Sender, all: seq<Packet>, a: Ack, net: Network)
    requires Steady(s, all) && NoLossEvent(net)
    ensures var t := Acknowledge(s, a, net);
            && Steady(t, all) && s.packetsSent <= t.packetsSent
            && s.packetsSent + |s.window| <= t.packetsSent + |t.window|
  {
    AcknowledgeExactly(s, all, a, net);
    AcknowledgeStaysSteady(s, all, a, net);
    SteadyBounds(s, all);
    EndAfter(s, all, a, net, Acknowledge(s, a, net));
  }

  lemma EndAfter(s: Sender, all: seq<Packet>, a: Ack, net: Network, t: Sender)
    requires AckEffect(s, all, a, net, t) && NoLossEvent(net)
    requires |s.window| <= s.windowSize && 1 <= s.windowSize <= s.maxWindowSize
    ensures s.packetsSent <= t.packetsSent && s.packetsSent + |s.window| <= t.packetsSent + |t.window|
  {
    if IsAwaited(s, a) {
      var u := Enlarged(s, a.ackno - s.packetsSent - 1, t.packetsSent - s.packetsSent);
      assert Refilled(u, all, net, t);
      RefillGrows(u, all, net, t);
    }
  }

  lemma RefillGrows(s: Sender, all: seq<Packet>, net: Network, t: Sender)
    requires Refilled(s, all, net, t) && NoLossEvent(net) && 1 <= s.windowSize && |s.window| <= s.windowSize
    ensures |s.window| <= |t.window| && t.windowSize == s.windowSize && t.threshold == s.threshold
  {
    NoneCounted(net, s.clock, t.clock - s.clock);
    HalvedNever(s.windowSize);
  }

  /** One of the ACKs is intact and has this number. */
  ghost predicate Named(acks: seq<Ack>, k: nat) {
    exists i :: 0 <= i < |acks| && acks[i].Intact() && acks[i].ackno == k
  }

  /** No intact ACK names a packet behind the window. */
  ghost predicate Within(acks: seq<Ack>, end: nat) {
    forall i :: 0 <= i < |acks| && acks[i].Intact() ==> acks[i].ackno <= end
  }

  lemma NamedFirst(acks: seq<Ack>, k: nat)
    requires acks != []
    ensures Named(acks, k) <==> (acks[0].Intact() && acks[0].ackno == k) || Named(acks[1..], k)
  {
    if Named(acks, k) {
      var i :| 0 <= i < |acks| && acks[i].Intact() && acks[i].ackno == k;
      if i > 0 { assert acks[1..][i - 1] == acks[i]; }
    }
    if Named(acks[1..], k) {
      var i :| 0 <= i < |acks[1..]| && acks[1..][i].Intact() && acks[1..][i].ackno == k;
      assert acks[i + 1] == acks[1..][i];
    }
  }

  /** Selective acknowledgement: without a loss event, after any list of ACKs, damaged ones and
      repetitions included, the sender has recorded exactly their numbers, in whatever order
      they came. */
  lemma {:induction false} AcksAreRecorded(s: Sender, all: seq<Packet>, acks: seq<Ack>, net: Network, k: nat)
    requires Steady(s, all) && NoLossEvent(net) && Within(acks, s.packetsSent + |s.window|) && k >= 1
    ensures var t := AcknowledgeAll(s, acks, net);
            Steady(t, all) && (IsAcked(t, k) <==> IsAcked(s, k) || Named(acks, k))
    decreases |acks|
  {
    if acks != [] {
      var next := Acknowledge(s, acks[0], net);
      EndStays(s, all, acks[0], net);
      AckIsRecorded(s, all, acks[0], net, k);
      NamedFirst(acks, k);
      AcksAreRecorded(next, all, acks[1..], net, k);
    }
  }

  /** The base is the least number not acknowledged. */
  lemma BaseIsLeast(s: Sender, all: seq<Packet>, e: nat)
    requires Steady(s, all) && e >= 1
    ensures e == s.packetsSent + 1 <==> !IsAcked(s, e) && forall k :: 1 <= k < e ==> IsAcked(s, k)
  {
    SteadyBounds(s, all);
    if e > s.packetsSent + 1 { assert !IsAcked(s, s.packetsSent + 1); }
  }

  /** The window slides just past the numbers acknowledged without a gap: ACKs for base .. k in
      any order leave k + 1 as the base, unless that has been acknowledged as well. */
  lemma AcksInAnyOrder(s: Sender, all: seq<Packet>, acks: seq<Ack>, net: Network, k: nat)
    requires Steady(s, all) && NoLossEvent(net) && Within(acks, s.packetsSent + |s.window|)
    requires forall j :: s.packetsSent < j <= k ==> Named(acks, j)
    ensures AcknowledgeAll(s, acks, net).packetsSent >= k
    ensures k >= s.packetsSent && !IsAcked(s, k + 1) && !Named(acks, k + 1)
        ==> AcknowledgeAll(s, acks, net).packetsSent == k
  {
    var t := AcknowledgeAll(s, acks, net);
    AcksAreRecorded(s, all, acks, net, k + 1);
    forall j | 1 <= j <= k
      ensures IsAcked(t, j)
    {
      AcksAreRecorded(s, all, acks, net, j);
    }
    BaseIsLeast(t, all, t.packetsSent + 1);
    BaseIsLeast(t, all, k + 1);
  }
}
