/** What the three transfers share: the end marker, the datagrams in flight, and replies. */
module Networks {
  import opened Bytes
  import opened DataPackets

  datatype Reply = Silent | AckOf(seqno: uint32)

  /** The empty packet that send_empty_packet builds from the sender's counter. */
  function EndMarker(next: nat): Packet {
    MakePacket([], Wrap32(next))
  }

  lemma MarkerPacket(next: nat)
    requires next < 0x1_0000_0000
    ensures var p := EndMarker(next);
            p.data == [] && p.seqno == next && p.Intact() && p.Packable() && Decode(Encode(p)) == Some(p)
  {
    var n: uint32 := next;
    MarkerValue(n);
  }

  lemma MarkerValue(n: uint32)
    ensures var p := MakePacket([], n);
            p.data == [] && p.seqno == n && p.Intact() && p.Packable() && Decode(Encode(p)) == Some(p)
  {
    MadePacketIsIntact([], n);
    DataRoundTripExact(MakePacket([], n));
  }

  /** The datagram is one that the sender has sent, undamaged. */
  ghost predicate Carried(wire: seq<Packet>, endSent: bool, next: nat, datagram: bytes) {
    || (exists i :: 0 <= i < |wire| && datagram == Encode(wire[i]))
    || (endSent && datagram == Encode(EndMarker(next)))
  }

  ghost predicate AckCarried(acks: set<uint32>, reply: bytes) {
    exists k <- acks :: reply == EncodeAck(MakeAck(k))
  }

  ghost predicate Contains(wire: seq<Packet>, p: Packet) {
    exists i :: 0 <= i < |wire| && wire[i] == p
  }

  /** What is left in flight when the network has lost some packets for good. */
  ghost predicate LeftOf(kept: seq<Packet>, wire: seq<Packet>) {
    forall i :: 0 <= i < |kept| ==> Contains(wire, kept[i])
  }

  /** The ACKs in flight after the client's answer. */
  function Answered(acks: set<uint32>, reply: Reply): set<uint32> {
    if reply.Silent? then acks else acks + {reply.seqno}
  }

  lemma CarriedNumber(acks: set<uint32>, reply: bytes)
    requires AckCarried(acks, reply)
    ensures |reply| == ACK_PKT_LEN && DecodeAck(reply).Intact() && DecodeAck(reply).ackno in acks
  {
    var k :| k in acks && reply == EncodeAck(MakeAck(k));
    AckRoundTripExact(MakeAck(k));
  }

  lemma NumberCarried(acks: set<uint32>, k: uint32)
    requires k in acks
    ensures AckCarried(acks, EncodeAck(MakeAck(k))) && DecodeAck(EncodeAck(MakeAck(k))) == MakeAck(k)
  {
    AckRoundTripExact(MakeAck(k));
  }

  /** An ACK datagram with the given number and a wrong checksum. */
  function DamagedAck(k: uint32): (r: bytes)
    ensures |r| == ACK_PKT_LEN
  {
    var a := MakeAck(k);
    EncodeAck(a.(cksum := Wrap16(a.cksum + 1)))
  }

  lemma OtherChecksum(a: Ack, cksum: uint16)
    requires a.Intact() && cksum != a.cksum
    ensures !a.(cksum := cksum).Intact()
  {
  }

  lemma DamagedAckReads(k: uint32)
    ensures !DecodeAck(DamagedAck(k)).Intact() && DecodeAck(DamagedAck(k)).ackno == k
  {
    var a := MakeAck(k);
    var damaged := a.(cksum := Wrap16(a.cksum + 1));
    AckRoundTripExact(damaged);
    OtherChecksum(a, Wrap16(a.cksum + 1));
  }
}
