/** The loss schedule of server/packet_sender.cpp. */
module PacketSenders {

  /** Sum of the first m entries of the sequence repeated for ever. */
  function PrefixSum(sequence: seq<int>, m: nat): int
    requires sequence != []
  {
    if m == 0 then 0 else PrefixSum(sequence, m - 1) + sequence[(m - 1) % |sequence|]
  }

  /** Call number n (the first is 1) falls on the end of an entry. */
  ghost predicate Scheduled(sequence: seq<int>, n: nat)
    requires sequence != []
  {
    exists m :: m >= 1 && PrefixSum(sequence, m) == n
  }

  ghost predicate Positive(sequence: seq<int>) {
    sequence != [] && forall i :: 0 <= i < |sequence| ==> sequence[i] >= 1
  }

  lemma {:induction false} PrefixSumGrows(sequence: seq<int>, m: nat, k: nat)
    requires Positive(sequence) && m < k
    ensures PrefixSum(sequence, m) < PrefixSum(sequence, k)
    decreases k
  {
    if m < k - 1 { PrefixSumGrows(sequence, m, k - 1); }
  }

  /** Strictly between two neighbouring prefix sums nothing is scheduled. */
  lemma NotScheduledBetween(sequence: seq<int>, m: nat, n: nat)
    requires Positive(sequence) && PrefixSum(sequence, m) < n < PrefixSum(sequence, m + 1)
    ensures !Scheduled(sequence, n)
  {
    forall k | k >= 1
      ensures PrefixSum(sequence, k) != n
    {
      if k < m {
        PrefixSumGrows(sequence, k, m);
      } else if k > m + 1 {
        PrefixSumGrows(sequence, m + 1, k);
      }
    }
  }

  function Sum(sequence: seq<int>): int {
    if sequence == [] then 0 else sequence[0] + Sum(sequence[1..])
  }

  lemma {:induction false} SumAppend(a: seq<int>, x: int)
    ensures Sum(a + [x]) == Sum(a) + x
  {
    if a == [] {
      assert a + [x] == [x];
    } else {
      assert (a + [x])[1..] == a[1..] + [x];
      SumAppend(a[1..], x);
    }
  }

  /** The schedule repeats: the loss events of round q are the running sums of the sequence,
      moved by q times its total. */
  lemma {:induction false} ScheduleRepeats(sequence: seq<int>, q: nat, j: nat)
    requires sequence != [] && j <= |sequence|
    ensures q * |sequence| + j >= 0 && PrefixSum(sequence, q * |sequence| + j) == q * Sum(sequence) + Sum(sequence[..j])
    decreases q, j
  {
    var n := |sequence|;
    if j > 0 {
      ScheduleRepeats(sequence, q, j - 1);
      ModOf(q * n + j - 1, n, q, j - 1);
      assert sequence[..j] == sequence[..j - 1] + [sequence[j - 1]];
      SumAppend(sequence[..j - 1], sequence[j - 1]);
    } else if q > 0 {
      ScheduleRepeats(sequence, q - 1, n);
      assert sequence[..n] == sequence;
      assert (q - 1) * n + n == q * n && (q - 1) * Sum(sequence) + Sum(sequence) == q * Sum(sequence);
    }
  }

  class PacketSender {
    var packetNumber: nat
    var lossSequenceIndex: nat
    const lossSequence: seq<int>
    ghost var calls: nat        // how often SendPacket has returned
    ghost var completed: nat    // how many entries have been used up

    ghost predicate Valid()
      reads this
    {
      && Positive(lossSequence)
      && lossSequenceIndex == completed % |lossSequence|
      && 1 <= packetNumber <= lossSequence[lossSequenceIndex]
      && calls == PrefixSum(lossSequence, completed) + packetNumber - 1
    }

    constructor (sequence: seq<int>)
      requires Positive(sequence)
      ensures Valid() && lossSequence == sequence && calls == 0
    {
      lossSequence := sequence;
      packetNumber := 1;
      lossSequenceIndex := 0;
      calls := 0;
      completed := 0;
    }

    /** Reports a loss event exactly on the scheduled calls; such a call always transmits,
        any other call transmits when the random draw is above the loss probability. */
    method SendPacket(drawAboveProbability: bool) returns (tripleDupAck: bool, transmitted: bool)
      requires Valid()
      modifies this
      ensures Valid() && calls == old(calls) + 1
      ensures tripleDupAck <==> Scheduled(lossSequence, calls)
      ensures transmitted <==> tripleDupAck || drawAboveProbability
    {
      calls := calls + 1;
      RemainderUpTo(packetNumber, lossSequence[lossSequenceIndex]);
      if packetNumber % lossSequence[lossSequenceIndex] != 0 {
        packetNumber := packetNumber + 1;
        transmitted := drawAboveProbability;
        tripleDupAck := false;
        NotScheduledBetween(lossSequence, completed, calls);
      } else {
        transmitted := true;
        assert PrefixSum(lossSequence, completed + 1) == calls;
        packetNumber := 1;
        NextIndex(completed, |lossSequence|);
        lossSequenceIndex := lossSequenceIndex + 1;
        lossSequenceIndex := lossSequenceIndex % |lossSequence|;
        completed := completed + 1;
        tripleDupAck := true;
      }
    }
  }

  lemma RemainderUpTo(a: nat, n: nat)
    requires 1 <= a <= n
    ensures a % n == 0 <==> a == n
  {
  }

  lemma NextIndex(m: nat, n: nat)
    requires n >= 1
    ensures (m % n + 1) % n == (m + 1) % n
    ensures m % n < n && (m + 1) % n < n
  {
    var q, r := m / n, m % n;
    assert m == n * q + r;
    if r + 1 < n {
      ModOf(m + 1, n, q, r + 1);
      ModOf(r + 1, n, 0, r + 1);
    } else {
      assert n * (q + 1) == n * q + n;
      ModOf(m + 1, n, q + 1, 0);
      ModOf(n, n, 1, 0);
    }
  }

  lemma ModOf(x: nat, n: nat, q: nat, r: nat)
    requires r < n && x == n * q + r
    ensures x % n == r
  {
    QuotientUnique(n, q, r, x / n, x % n);
  }

  lemma QuotientUnique(n: nat, q: int, r: nat, q': int, r': nat)
    requires r < n && r' < n && n * q + r == n * q' + r'
    ensures q == q'
  {
    assert n * (q - q') == n * q - n * q';
    if q > q' {
      MulAtLeast(n, q - q');
    } else if q' > q {
      assert n * (q' - q) == n * q' - n * q;
      MulAtLeast(n, q' - q);
    }
  }

  lemma MulAtLeast(n: nat, k: nat)
    requires k >= 1
    ensures n * k >= n
  {
  }
}
