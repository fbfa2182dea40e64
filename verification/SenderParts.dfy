/** Pieces the three senders share (server/strategy/rdt_strategy.h): queue entries and the
    set of unacknowledged packets that is ordered by time stamp only. */
module SenderParts {
  import opened DataPackets

  /** What one call of packet_sender::send_packet does with the packet. */
  datatype Outcome = Lost | Delivered | TripleDup

  /** The outcome of the send at each clock tick; every send advances the clock by one. */
  type Network = nat -> Outcome

  ghost predicate NoLossEvent(net: Network) {
    forall t: nat :: net(t) != TripleDup
  }

  ghost predicate Lossless(net: Network) {
    forall t: nat :: net(t) != Lost
  }

  /** How many of n sends in a row, the first at the given tick, report a loss event. */
  function LossEvents(net: Network, from: nat, n: nat): nat
    decreases n
  {
    if n == 0 then 0 else (if net(from).TripleDup? then 1 else 0) + LossEvents(net, from + 1, n - 1)
  }

  /** What goes out of packets sent in a row, the first at the given tick. */
  function LetThrough(ps: seq<Packet>, net: Network, from: nat): seq<Packet>
    decreases |ps|
  {
    if ps == [] then []
    else (if net(from).Lost? then [] else [ps[0]]) + LetThrough(ps[1..], net, from + 1)
  }

  /** A queued packet with the sender's bookkeeping. */
  datatype Slot = Slot(pkt: Packet, acked: bool, stamp: nat)

  /** A member of unacked_packets, seen through its time stamp. */
  datatype Entry = Entry(stamp: nat, seqno: nat)

  function EntryOf(p: Slot): Entry {
    Entry(p.stamp, p.pkt.seqno)
  }

  /** Removes whatever the time comparator cannot tell from the given stamp. */
  ghost function Erase(unacked: set<Entry>, stamp: nat): set<Entry> {
    set e <- unacked | e.stamp != stamp
  }

  ghost function EraseAll(unacked: set<Entry>, slots: seq<Slot>): set<Entry> {
    set e <- unacked | forall i :: 0 <= i < |slots| ==> slots[i].stamp != e.stamp
  }

  /** Inserting does nothing when an equivalent member is already there. */
  ghost function Insert(unacked: set<Entry>, e: Entry): set<Entry> {
    if exists f <- unacked :: f.stamp == e.stamp then unacked else unacked + {e}
  }

  ghost predicate IsFirst(unacked: set<Entry>, e: Entry) {
    e in unacked && forall f <- unacked :: e.stamp <= f.stamp
  }

  lemma {:induction false} FirstExists(unacked: set<Entry>)
    requires unacked != {}
    ensures exists e :: IsFirst(unacked, e)
  {
    var e :| e in unacked;
    var rest := unacked - {e};
    if rest == {} {
      assert unacked == {e};
      assert IsFirst(unacked, e);
    } else {
      FirstExists(rest);
      var f :| IsFirst(rest, f);
      assert forall g <- unacked :: g == e || g in rest;
      assert IsFirst(unacked, if e.stamp <= f.stamp then e else f);
    }
  }

  /** The member the timer looks at. */
  ghost function First(unacked: set<Entry>): (e: Entry)
    requires unacked != {}
    ensures IsFirst(unacked, e)
  {
    FirstExists(unacked);
    var e :| IsFirst(unacked, e);
    e
  }

  /** The numbers 1 .. e - 1. */
  function Below(e: nat): (s: set<nat>)
    ensures forall k :: k in s <==> 1 <= k < e
  {
    if e <= 1 then {} else Below(e - 1) + {e - 1}
  }

  predicate IsMinKey<T>(m: map<nat, T>, k: nat) {
    k in m && forall j <- m :: k <= j
  }

  lemma {:induction false} MinKeyExists<T>(m: map<nat, T>)
    requires m != map[]
    ensures exists k :: IsMinKey(m, k)
  {
    var k :| k in m;
    var rest := m - {k};
    if rest == map[] {
      assert forall j <- m :: j == k || j in rest;
      assert IsMinKey(m, k);
    } else {
      assert |rest.Keys| < |m.Keys| by {
        assert rest.Keys < m.Keys;
        assert rest.Keys == m.Keys - {k};
      }
      MinKeyExists(rest);
      var l :| IsMinKey(rest, l);
      assert forall j <- m :: j == k || j in rest;
      assert IsMinKey(m, if k <= l then k else l);
    }
  }

  /** begin() of a set ordered by sequence number. */
  ghost function MinKey<T>(m: map<nat, T>): (k: nat)
    requires m != map[]
    ensures IsMinKey(m, k)
  {
    MinKeyExists(m);
    var k :| IsMinKey(m, k);
    k
  }

  /** The result of inserting the slots one after another: what is there already stays. */
  function AuxOf(slots: seq<Slot>): map<nat, Slot> {
    if slots == [] then map[] else AuxOf(slots[1..])[slots[0].pkt.seqno := slots[0]]
  }

  /** Position of the first slot with the given number, or the length when there is none. */
  function IndexOf(window: seq<Slot>, seqno: nat): (i: nat)
    ensures i <= |window|
    ensures i < |window| ==> window[i].pkt.seqno == seqno
    ensures forall j :: 0 <= j < i ==> window[j].pkt.seqno != seqno
  {
    if window == [] || window[0].pkt.seqno == seqno then 0 else 1 + IndexOf(window[1..], seqno)
  }

  /** The packets of a transfer are numbered from first, within 32 bits. */
  ghost predicate Sequential(all: seq<Packet>, first: nat) {
    && first + |all| < 0x1_0000_0000
    && forall i :: 0 <= i < |all| ==> all[i].seqno == first + i
  }

  /** A packet that carries data, fits its buffer, and passes its own check. */
  predicate Sound(p: Packet) {
    p.data != [] && p.Packable() && p.Intact()
  }

  ghost predicate Stream(all: seq<Packet>, first: nat) {
    Sequential(all, first) && forall i :: 0 <= i < |all| ==> Sound(all[i])
  }
}
