/** The Selective Repeat client (client/strategy/client_selective_repeat_strategy.cpp), which
    also serves Stop-and-Wait with a window of one. */
module Receiver {
  import opened Bytes
  import opened PacketUtil
  import opened DataPackets
  import opened SenderParts
  import opened Networks

  datatype Client = Client(
    window: map<nat, Packet>,   // buffered packets by sequence number
    expectedSeqno: nat,
    windowSize: nat,
    written: seq<bytes>,        // the arguments of file_writer::write, in order
    done: bool)

  function InitialClient(windowSize: nat): Client {
    Client(map[], 1, windowSize, [], false)
  }

  /** The loop over the ordered buffer: deliver while its first packet is the expected one. */
  ghost function Deliver(c: Client): Client
    decreases c.window.Keys
  {
    if c.window != map[] && MinKey(c.window) == c.expectedSeqno then
      var k := MinKey(c.window);
      assert (c.window - {k}).Keys < c.window.Keys by { assert k in c.window.Keys; }
      Deliver(c.(window := c.window - {k}, written := c.written + [c.window[k].data],
                 expectedSeqno := Wrap32(c.expectedSeqno + 1)))
    else c
  }

  predicate InWindow(c: Client, seqno: nat) {
    c.expectedSeqno <= seqno < c.expectedSeqno + c.windowSize
  }

  ghost function Buffer(c: Client, p: Packet): Client {
    var buffered := c.(window := c.window[p.seqno := p]);
    if p.seqno == c.expectedSeqno then Deliver(buffered) else buffered
  }

  /** One call of run() on an unpacked datagram. */
  ghost function Receive(c: Client, p: Packet): (Client, Reply) {
    if InWindow(c, p.seqno) && p.Intact() then
      if p.data == [] then (c.(done := true), Silent)
      else if p.seqno !in c.window then (Buffer(c, p), AckOf(p.seqno))
      else (c, Silent)
    else if p.seqno < c.expectedSeqno && p.Intact() then (c, AckOf(p.seqno))
    else (c, Silent)
  }

  // ---------- what the receiver keeps, whatever arrives ----------

  /** The largest sequence number; after it expected_seqno wraps to 0. */
  const SEQNO_LIMIT: nat := 0xFFFF_FFFF

  ghost predicate Consistent(c: Client, lowest: nat) {
    && c.windowSize >= 1 && 1 <= c.expectedSeqno <= SEQNO_LIMIT
    && |c.written| == c.expectedSeqno - 1
    && (forall i :: 0 <= i < |c.written| ==> c.written[i] != [])
    && forall k <- c.window :: lowest <= k < c.expectedSeqno + c.windowSize && k <= SEQNO_LIMIT
                               && c.window[k].seqno == k && c.window[k].data != []
  }

  /** Buffered numbers lie strictly between expected_seqno and the end of the window. */
  ghost predicate ClientInv(c: Client) {
    Consistent(c, c.expectedSeqno + 1)
  }

  /** The numbers accepted so far: delivered or buffered. */
  ghost function Accepted(c: Client): set<nat> {
    Below(c.expectedSeqno) + c.window.Keys
  }

  ghost function ContentAt(c: Client, k: nat): bytes
    requires k in Accepted(c) && |c.written| == c.expectedSeqno - 1
  {
    if k in Below(c.expectedSeqno) then c.written[k - 1] else c.window[k].data
  }

  /** The payload accepted under each number. */
  ghost function Contents(c: Client): (m: map<nat, bytes>)
    requires |c.written| == c.expectedSeqno - 1
    ensures m.Keys == Accepted(c)
  {
    map k | k in Accepted(c) :: ContentAt(c, k)
  }

  ghost predicate IsLeastMissing(s: set<nat>, e: nat) {
    e >= 1 && e !in s && forall k :: 1 <= k < e ==> k in s
  }

  /** Every number there is has been accepted. */
  ghost predicate Exhausted(accepted: set<nat>) {
    forall k :: 1 <= k <= SEQNO_LIMIT ==> k in accepted
  }

  ghost function DeliverOne(c: Client): Client
    requires c.expectedSeqno in c.window
  {
    var k := c.expectedSeqno;
    c.(window := c.window - {k}, written := c.written + [c.window[k].data], expectedSeqno := Wrap32(k + 1))
  }

  lemma DeliverOneKeeps(c: Client)
    requires Consistent(c, c.expectedSeqno) && c.expectedSeqno in c.window && c.expectedSeqno < SEQNO_LIMIT
    ensures var d := DeliverOne(c);
            && Consistent(d, d.expectedSeqno) && d.expectedSeqno == c.expectedSeqno + 1
            && Contents(d) == Contents(c)
  {
    var d := DeliverOne(c);
    assert Accepted(d) == Accepted(c);
    forall k <- Accepted(c)
      ensures ContentAt(d, k) == ContentAt(c, k)
    {
      if k < c.expectedSeqno { assert d.written[k - 1] == c.written[k - 1]; }
    }
  }

  lemma NotLast(c: Client)
    requires Consistent(c, c.expectedSeqno) && c.expectedSeqno in c.window && !Exhausted(Accepted(c))
    ensures c.expectedSeqno < SEQNO_LIMIT
  {
  }

  /** The file holds the accepted payload of every number, and expected_seqno has wrapped. */
  ghost predicate WrappedWith(d: Client, accepted: map<nat, bytes>)
    requires Exhausted(accepted.Keys)
  {
    && d.expectedSeqno == 0 && d.window == map[] && |d.written| == SEQNO_LIMIT
    && forall k :: 1 <= k <= SEQNO_LIMIT ==> d.written[k - 1] == accepted[k]
  }

  /** Delivering the packet with the largest number. */
  lemma DeliverLast(c: Client)
    requires Consistent(c, c.expectedSeqno) && c.expectedSeqno == SEQNO_LIMIT && c.expectedSeqno in c.window
    ensures DeliverOne(c).window == map[] && DeliverOne(c).expectedSeqno == 0
    ensures Exhausted(Contents(c).Keys) && WrappedWith(DeliverOne(c), Contents(c))
  {
    var d := DeliverOne(c);
    assert d.window == map[];
    forall k | 1 <= k <= SEQNO_LIMIT
      ensures k in Contents(c) && d.written[k - 1] == Contents(c)[k]
    {
      assert k in Accepted(c);
    }
  }

  lemma DeliverUnfolds(c: Client)
    requires Consistent(c, c.expectedSeqno) && c.expectedSeqno in c.window
    ensures Deliver(c) == Deliver(DeliverOne(c))
    ensures DeliverOne(c).window.Keys < c.window.Keys
  {
    assert IsMinKey(c.window, MinKey(c.window));
    assert MinKey(c.window) == c.expectedSeqno;
    assert c.expectedSeqno in c.window.Keys && DeliverOne(c).window.Keys == c.window.Keys - {c.expectedSeqno};
  }

  lemma ExhaustedHasNext(c: Client)
    requires Consistent(c, c.expectedSeqno) && Exhausted(Contents(c).Keys)
    ensures c.expectedSeqno in c.window
  {
    assert c.expectedSeqno in Contents(c);
  }

  /** When every number has been accepted, the loop empties the buffer and expected_seqno wraps. */
  lemma {:induction false} DeliverWraps(c: Client)
    requires Consistent(c, c.expectedSeqno) && Exhausted(Contents(c).Keys)
    ensures var d := Deliver(c);
            WrappedWith(d, Contents(c)) && d.windowSize == c.windowSize && d.done == c.done && c.written <= d.written
    decreases c.window.Keys
  {
    ExhaustedHasNext(c);
    DeliverUnfolds(c);
    if c.expectedSeqno < SEQNO_LIMIT {
      DeliverOneKeeps(c);
      DeliverWraps(DeliverOne(c));
      assert DeliverOne(c).written <= Deliver(DeliverOne(c)).written;
    } else {
      DeliverLast(c);
    }
  }

  /** One pass of the delivery loop moves the maximal consecutive run to the file and changes
      nothing about what has been accepted. */
  lemma {:induction false} DeliverTakesRun(c: Client)
    requires Consistent(c, c.expectedSeqno) && !Exhausted(Accepted(c))
    ensures var d := Deliver(c);
            && ClientInv(d) && d.windowSize == c.windowSize && d.done == c.done
            && Contents(d) == Contents(c)
            && c.written <= d.written
            && (forall k :: c.expectedSeqno <= k < d.expectedSeqno ==> k in c.window)
            && d.expectedSeqno !in c.window
    decreases c.window.Keys
  {
    if c.expectedSeqno in c.window {
      var next := DeliverOne(c);
      NotLast(c);
      DeliverUnfolds(c);
      DeliverOneKeeps(c);
      DeliverTakesRun(next);
      assert next.written <= Deliver(next).written;
    } else {
      assert Deliver(c) == c;
    }
  }

  /** The packet is new: intact, with data, inside the window, and not accepted before. */
  ghost predicate Fresh(c: Client, p: Packet) {
    p.Intact() && p.data != [] && InWindow(c, p.seqno) && p.seqno !in Accepted(c)
  }

  /** What the packet adds to the accepted map. */
  ghost function Extended(c: Client, p: Packet): map<nat, bytes>
    requires |c.written| == c.expectedSeqno - 1
  {
    if Fresh(c, p) then Contents(c)[p.seqno := p.data] else Contents(c)
  }

  /** The receiver refines a growing map from numbers to payloads. A step adds exactly a fresh
      packet; the file is always the payloads of 1 .. e - 1 in order, where e is the least
      number missing; and an ACK answers exactly the fresh packets and those below e. */
  lemma ReceiveRefines(c: Client, p: Packet)
    requires ClientInv(c)
    ensures var (d, reply) := Receive(c, p);
            && d.windowSize == c.windowSize && c.written <= d.written
            && reply == (if Fresh(c, p) || (p.seqno < c.expectedSeqno && p.Intact()) then AckOf(p.seqno) else Silent)
            && d.done == (c.done || (p.Intact() && p.data == [] && InWindow(c, p.seqno)))
    ensures var d := Receive(c, p).0;
            !Exhausted(Extended(c, p).Keys) ==>
              ClientInv(d) && Contents(d) == Extended(c, p) && IsLeastMissing(Contents(d).Keys, d.expectedSeqno)
    ensures var d := Receive(c, p).0;
            Exhausted(Extended(c, p).Keys) ==> WrappedWith(d, Extended(c, p))
  {
    LeastMissing(c);
    if Fresh(c, p) {
      BufferKeeps(c, p);
    }
  }

  /** The least number missing is expected_seqno exactly until every 32-bit number is used up. */
  lemma ExpectsLeastMissingIff(c: Client, p: Packet)
    requires ClientInv(c)
    ensures IsLeastMissing(Extended(c, p).Keys, Receive(c, p).0.expectedSeqno) <==> !Exhausted(Extended(c, p).Keys)
  {
    ReceiveRefines(c, p);
  }

  lemma LeastMissing(c: Client)
    requires ClientInv(c)
    ensures IsLeastMissing(Contents(c).Keys, c.expectedSeqno) && !Exhausted(Contents(c).Keys)
  {
    assert c.expectedSeqno !in Contents(c).Keys;
  }

  lemma BufferKeeps(c: Client, p: Packet)
    requires ClientInv(c) && p.data != [] && InWindow(c, p.seqno) && p.seqno !in Accepted(c)
    ensures var d, accepted := Buffer(c, p), Contents(c)[p.seqno := p.data];
            && d.windowSize == c.windowSize && d.done == c.done && c.written <= d.written
            && (!Exhausted(accepted.Keys) ==>
                  ClientInv(d) && Contents(d) == accepted && IsLeastMissing(accepted.Keys, d.expectedSeqno))
            && (Exhausted(accepted.Keys) ==> WrappedWith(d, accepted))
  {
    var inserted := c.(window := c.window[p.seqno := p]);
    InsertKeeps(c, p);
    assert Contents(inserted).Keys == Accepted(inserted);
    if p.seqno != c.expectedSeqno {
      LeastMissing(inserted);
    } else if Exhausted(Contents(inserted).Keys) {
      DeliverWraps(inserted);
    } else {
      DeliverTakesRun(inserted);
      LeastMissing(Deliver(inserted));
    }
  }

  lemma InsertKeeps(c: Client, p: Packet)
    requires ClientInv(c)
    requires p.data != [] && InWindow(c, p.seqno) && p.seqno !in Accepted(c)
    ensures var d := c.(window := c.window[p.seqno := p]);
            && Consistent(d, if p.seqno == c.expectedSeqno then c.expectedSeqno else c.expectedSeqno + 1)
            && Contents(d) == Contents(c)[p.seqno := p.data]
  {
    var d := c.(window := c.window[p.seqno := p]);
    assert Accepted(d) == Accepted(c) + {p.seqno};
    assert forall k <- Accepted(c) :: ContentAt(d, k) == ContentAt(c, k);
  }

  /** The file written is a function of the accepted map alone. */
  lemma WrittenIsContents(c: Client, i: nat)
    requires ClientInv(c) && i < |c.written|
    ensures i + 1 in Contents(c) && c.written[i] == Contents(c)[i + 1]
  {
  }

  lemma {:induction false} NumbersBetween(s: set<nat>, lo: nat, hi: nat)
    requires lo <= hi && forall k <- s :: lo <= k < hi
    ensures |s| <= hi - lo
    decreases hi - lo
  {
    if lo == hi {
      assert s == {};
    } else {
      NumbersBetween(s - {lo}, lo + 1, hi);
    }
  }

  /** At most window_size - 1 packets are ever buffered. */
  lemma BufferBound(c: Client)
    requires ClientInv(c)
    ensures |c.window| <= c.windowSize - 1
  {
    assert |c.window| == |c.window.Keys|;
    NumbersBetween(c.window.Keys, c.expectedSeqno + 1, c.expectedSeqno + c.windowSize);
  }

  /** All packets of a list, one after another. */
  ghost function ReceiveAll(c: Client, ps: seq<Packet>): Client
    decreases |ps|
  {
    if ps == [] then c else ReceiveAll(Receive(c, ps[0]).0, ps[1..])
  }

  /** Nothing accepted is ever lost or replaced, and the file only grows. */
  ghost predicate Grows(c: Client, d: Client)
    requires |c.written| == c.expectedSeqno - 1 && |d.written| == d.expectedSeqno - 1
  {
    && c.written <= d.written && c.windowSize == d.windowSize
    && forall k :: k in Contents(c) ==> k in Contents(d) && Contents(d)[k] == Contents(c)[k]
  }

  /** Number k is never among the packets: a run that leaves one number out cannot wrap. */
  ghost predicate Spares(ps: seq<Packet>, k: nat) {
    1 <= k <= SEQNO_LIMIT && forall i :: 0 <= i < |ps| ==> ps[i].seqno != k
  }

  lemma ReceiveGrows(c: Client, p: Packet, k: nat)
    requires ClientInv(c) && 1 <= k <= SEQNO_LIMIT && k !in Contents(c) && p.seqno != k
    ensures ClientInv(Receive(c, p).0) && Grows(c, Receive(c, p).0) && k !in Contents(Receive(c, p).0)
  {
    ReceiveRefines(c, p);
    assert k !in Extended(c, p).Keys;
  }

  lemma GrowsTransitive(c: Client, d: Client, e: Client)
    requires |c.written| == c.expectedSeqno - 1 && |d.written| == d.expectedSeqno - 1
    requires |e.written| == e.expectedSeqno - 1
    requires Grows(c, d) && Grows(d, e)
    ensures Grows(c, e)
  {
  }

  lemma {:induction false} ReceiveAllGrows(c: Client, ps: seq<Packet>, k: nat)
    requires ClientInv(c) && Spares(ps, k) && k !in Contents(c)
    ensures ClientInv(ReceiveAll(c, ps)) && Grows(c, ReceiveAll(c, ps))
    decreases |ps|
  {
    if ps != [] {
      var next := Receive(c, ps[0]).0;
      ReceiveGrows(c, ps[0], k);
      ReceiveAllGrows(next, ps[1..], k);
      GrowsTransitive(c, next, ReceiveAll(next, ps[1..]));
    }
  }

  /** For any packets in any order that leave out a number: the client ends up expecting the
      least number it has not accepted, has written the payloads of all smaller ones, and
      keeps its buffer bounded. */
  lemma ReceiverRun(windowSize: nat, ps: seq<Packet>, k: nat)
    requires windowSize >= 1 && Spares(ps, k)
    ensures var d := ReceiveAll(InitialClient(windowSize), ps);
            && |d.written| == d.expectedSeqno - 1 && |d.window| <= windowSize - 1
            && IsLeastMissing(Contents(d).Keys, d.expectedSeqno)
            && forall i :: 0 <= i < |d.written| ==> i + 1 in Contents(d) && d.written[i] == Contents(d)[i + 1]
  {
    var c := InitialClient(windowSize);
    assert Contents(c) == map[];
    ReceiveAllGrows(c, ps, k);
    var d := ReceiveAll(c, ps);
    BufferBound(d);
    LeastMissing(d);
    forall i | 0 <= i < |d.written|
      ensures i + 1 in Contents(d) && d.written[i] == Contents(d)[i + 1]
    {
      WrittenIsContents(d, i);
    }
  }

  // ---------- what one packet does, by its number ----------

  /** One packet, with the window written out: damaged packets and those behind the window change
      nothing and get no answer; old ones get their ACK; an empty one in the window ends the
      transfer; and any new one in the window is accepted and acknowledged, wherever in it. */
  lemma ReceiveExactly(c: Client, p: Packet)
    requires ClientInv(c)
    ensures !p.Intact() || p.seqno >= c.expectedSeqno + c.windowSize ==> Receive(c, p) == (c, Silent)
    ensures p.Intact() && p.seqno < c.expectedSeqno ==> Receive(c, p) == (c, AckOf(p.seqno))
    ensures p.Intact() && c.expectedSeqno <= p.seqno < c.expectedSeqno + c.windowSize ==>
              && (p.data == [] ==> Receive(c, p) == (c.(done := true), Silent))
              && (p.data != [] && p.seqno in Contents(c) ==> Receive(c, p) == (c, Silent))
              && (p.data != [] && p.seqno !in Contents(c) ==> TakenIn(c, p, Receive(c, p)))
  {
    if c.expectedSeqno <= p.seqno < c.expectedSeqno + c.windowSize && p.Intact() && p.data != [] {
      if p.seqno !in Contents(c) {
        ReceiveRefines(c, p);
      }
    }
  }

  /** The packet is acknowledged and its payload accepted under its number. Unless it was the
      last of all 32-bit numbers, the client then expects the least number missing. */
  ghost predicate TakenIn(c: Client, p: Packet, result: (Client, Reply))
    requires |c.written| == c.expectedSeqno - 1
  {
    var (d, reply) := result;
    var accepted := Contents(c)[p.seqno := p.data];
    && reply == AckOf(p.seqno) && d.done == c.done && d.windowSize == c.windowSize && c.written <= d.written
    && if Exhausted(accepted.Keys) then WrappedWith(d, accepted)
       else ClientInv(d) && Contents(d) == accepted && IsLeastMissing(accepted.Keys, d.expectedSeqno)
  }

  /** Packet number i of the list brings payload for k, undamaged. */
  ghost predicate Brings(ps: seq<Packet>, i: int, k: nat) {
    0 <= i < |ps| && ps[i].Intact() && ps[i].data != [] && ps[i].seqno == k
  }

  ghost predicate Brought(ps: seq<Packet>, k: nat) {
    exists i :: Brings(ps, i, k)
  }

  /** No packet has a number behind the window. */
  ghost predicate WithinWindow(c: Client, ps: seq<Packet>) {
    forall i :: 0 <= i < |ps| ==> ps[i].seqno < c.expectedSeqno + c.windowSize
  }

  lemma BroughtFirst(ps: seq<Packet>, k: nat)
    requires ps != []
    ensures Brought(ps, k) <==> Brings(ps, 0, k) || Brought(ps[1..], k)
  {
    if i :| Brings(ps, i, k) {
      if i > 0 { assert Brings(ps[1..], i - 1, k); }
    }
    if i :| Brings(ps[1..], i, k) { assert Brings(ps, i + 1, k); }
  }

  lemma OneRecorded(c: Client, p: Packet, spare: nat, k: nat)
    requires ClientInv(c) && p.seqno < c.expectedSeqno + c.windowSize
    requires 1 <= spare <= SEQNO_LIMIT && spare !in Contents(c) && p.seqno != spare && k >= 1
    ensures var d := Receive(c, p).0;
            && ClientInv(d) && spare !in Contents(d)
            && d.expectedSeqno + d.windowSize >= c.expectedSeqno + c.windowSize
            && (k in Contents(d) <==> k in Contents(c) || (p.Intact() && p.data != [] && p.seqno == k))
  {
    ReceiveGrows(c, p, spare);
    ReceiveExactly(c, p);
  }

  /** The receive window: packets with numbers up to its end are all accepted, in whatever order
      they come and however often, and nothing else is. */
  lemma {:induction false} PacketsAreRecorded(c: Client, ps: seq<Packet>, spare: nat, k: nat)
    requires ClientInv(c) && WithinWindow(c, ps) && Spares(ps, spare) && spare !in Contents(c) && k >= 1
    ensures var d := ReceiveAll(c, ps);
            ClientInv(d) && (k in Contents(d) <==> k in Contents(c) || Brought(ps, k))
    decreases |ps|
  {
    if ps != [] {
      var next := Receive(c, ps[0]).0;
      OneRecorded(c, ps[0], spare, k);
      BroughtFirst(ps, k);
      PacketsAreRecorded(next, ps[1..], spare, k);
    }
  }

  /** The packets expected_seqno .. k in any order leave k + 1 expected, unless that has come as
      well. */
  lemma PacketsInAnyOrder(c: Client, ps: seq<Packet>, spare: nat, k: nat)
    requires ClientInv(c) && WithinWindow(c, ps) && Spares(ps, spare) && spare !in Contents(c)
    requires forall j :: c.expectedSeqno <= j <= k ==> Brought(ps, j)
    ensures var d := ReceiveAll(c, ps);
            && d.expectedSeqno > k
            && (k + 1 >= c.expectedSeqno && k + 1 !in Contents(c) && !Brought(ps, k + 1) ==>
                  d.expectedSeqno == k + 1)
  {
    var d := ReceiveAll(c, ps);
    PacketsAreRecorded(c, ps, spare, k + 1);
    LeastMissing(d);
    if d.expectedSeqno <= k {
      assert d.expectedSeqno < c.expectedSeqno ==> d.expectedSeqno in Contents(c);
      PacketsAreRecorded(c, ps, spare, d.expectedSeqno);
    }
  }

  /** The client object. */
  class SelectiveRepeatClient {
    var window: map<nat, Packet>
    var windowSize: nat
    var expectedSeqno: uint32
    var fileData: bytes
    var done: bool
    var written: seq<bytes>     // the output file, one entry per write

    ghost function State(): Client
      reads this
    {
      Client(window, expectedSeqno, windowSize, written, done)
    }

    constructor (windowSize: nat)
      ensures State() == InitialClient(windowSize) && fileData == []
      ensures this.windowSize == windowSize && expectedSeqno == 1 && !done
    {
      this.window := map[];
      this.windowSize := windowSize;
      this.expectedSeqno := 1;
      this.fileData := [];
      this.done := false;
      this.written := [];
    }

    method DeliverBufferedPackets()
      requires fileData == []
      modifies this
      ensures State() == Deliver(old(State())) && fileData == []
    {
      while window != map[]
        invariant Deliver(State()) == Deliver(old(State())) && fileData == []
        decreases window.Keys
      {
        MinKeyExists(window);
        var k :| IsMinKey(window, k);
        if k != expectedSeqno {
          break;
        }
        assert k == MinKey(window);
        fileData := fileData + window[k].data;
        assert fileData == window[k].data;
        ghost var before := window.Keys;
        window := window - {k};
        assert window.Keys == before - {k};
        written := written + [fileData];
        fileData := [];
        expectedSeqno := Wrap32(expectedSeqno + 1);
      }
    }

    /** One received datagram; ok is false when unpacking a short one throws. */
    method Run(datagram: bytes) returns (ok: bool, reply: Reply)
      requires fileData == []
      modifies this
      ensures ok <==> Decode(datagram).Some?
      ensures ok ==> (State(), reply) == Receive(old(State()), Decode(datagram).value)
      ensures !ok ==> State() == old(State()) && reply == Silent
      ensures fileData == []
    {
      if |datagram| < HEADER_SIZE {
        return false, Silent;
      }
      var packet := new DataPacket.FromBuffer(datagram);
      var seqno := packet.seqno;
      var sum := CalculateDataChecksum(packet.len, packet.seqno, packet.data);
      var corrupted := packet.cksum != sum.value;
      ok, reply := true, Silent;
      if seqno >= expectedSeqno && seqno < expectedSeqno + windowSize && !corrupted {
        if |packet.data| == 0 {
          done := true;
        } else if seqno !in window {
          window := window[seqno := packet.Value()];
          if seqno == expectedSeqno {
            DeliverBufferedPackets();
          }
          reply := AckOf(seqno);
        }
      } else if seqno < expectedSeqno && !corrupted {
        reply := AckOf(seqno);
      }
    }
  }
}
