/** Data and ACK packets and their wire format (shared/data_packet.cpp, shared/ack_packet.cpp). */
module DataPackets {
  import opened Bytes
  import opened PacketUtil

  /** The fields of a data packet that travel on the wire. */
  datatype Packet = Packet(seqno: uint32, len: uint16, cksum: uint16, data: bytes) {
    /** The receiver's test: does the stored checksum match a recomputed one? */
    predicate Intact() {
      cksum == DataChecksum(len, seqno, data)
    }

    /** The buffer that pack() fills has exactly len bytes; anything else is out of bounds. */
    predicate Packable() {
      len == |data| + HEADER_SIZE
    }
  }

  /** The packet a sender builds; the length field is cut to 16 bits. */
  function MakePacket(data: bytes, seqno: uint32): Packet {
    var len := Wrap16(|data| + HEADER_SIZE);
    Packet(seqno, len, DataChecksum(len, seqno, data), data)
  }

  function Header(p: Packet): (s: bytes)
    ensures |s| == HEADER_SIZE
  {
    Encode32(p.seqno) + Encode16(p.len) + Encode16(p.cksum)
  }

  /** The header as the source's shifts and masks produce it, byte by byte. */
  lemma HeaderBytes(p: Packet)
    ensures Header(p) == [p.seqno % 0x100, p.seqno / 0x100 % 0x100, p.seqno / 0x1_0000 % 0x100,
                          p.seqno / 0x100_0000 % 0x100, p.len % 0x100, p.len / 0x100 % 0x100,
                          p.cksum % 0x100, p.cksum / 0x100 % 0x100]
  {
  }

  function Encode(p: Packet): bytes {
    Header(p) + p.data
  }

  /** None stands for the exception that substr(8, ...) throws on a short datagram. A length
      field below 8 makes the substr count huge, and then all remaining bytes are data. */
  function Decode(buf: bytes): (r: Option<Packet>)
    ensures r.Some? <==> |buf| >= HEADER_SIZE
  {
    if |buf| < HEADER_SIZE then None
    else
      var len := Decode16(buf[4], buf[5]);
      Some(Packet(Decode32(buf[0], buf[1], buf[2], buf[3]), len, Decode16(buf[6], buf[7]),
                  if len < HEADER_SIZE then buf[8..] else buf[8..Min(len, |buf|)]))
  }

  /** What unpacking reads, field by field, for any datagram long enough to have a header,
      damaged ones included: the header bytes, and as much payload as the length field claims
      and the datagram has; with a length below the header size all of it. */
  lemma DecodedLayout(buf: bytes)
    requires |buf| >= HEADER_SIZE
    ensures var p := Decode(buf).value;
            && Encode32(p.seqno) == buf[..4] && Encode16(p.len) == buf[4..6] && Encode16(p.cksum) == buf[6..8]
            && p.data <= buf[8..]
            && |p.data| == (if p.len < HEADER_SIZE then |buf| else Min(p.len, |buf|)) - HEADER_SIZE
  {
    Split32(buf[0], buf[1], buf[2], buf[3]);
    Split16(buf[4], buf[5]);
    Split16(buf[6], buf[7]);
  }

  lemma EncodedLayout(p: Packet, tail: bytes)
    ensures var s := Encode(p) + tail;
            && |s| == HEADER_SIZE + |p.data| + |tail|
            && s[0..4] == Encode32(p.seqno) && s[4..6] == Encode16(p.len)
            && s[6..8] == Encode16(p.cksum) && s[8..] == p.data + tail
  {
  }

  /** unpack(pack(p)) is p, also when other bytes follow in the receive buffer. */
  lemma DataRoundTrip(p: Packet, tail: bytes)
    requires p.Packable()
    ensures Decode(Encode(p) + tail) == Some(p)
  {
    var s := Encode(p) + tail;
    EncodedLayout(p, tail);
    RoundTrip32(p.seqno);
    RoundTrip16(p.len);
    RoundTrip16(p.cksum);
    var q := Decode(s).value;
    assert s[0] == s[0..4][0] && s[1] == s[0..4][1] && s[2] == s[0..4][2] && s[3] == s[0..4][3];
    assert s[4] == s[4..6][0] && s[5] == s[4..6][1];
    assert s[6] == s[6..8][0] && s[7] == s[6..8][1];
    assert s[8..p.len] == s[8..][..|p.data|] == p.data;
  }

  /** Without trailing bytes. */
  lemma DataRoundTripExact(p: Packet)
    requires p.Packable()
    ensures Decode(Encode(p)) == Some(p)
  {
    DataRoundTrip(p, []);
    assert Encode(p) + [] == Encode(p);
  }

  /** The other direction: re-packing an unpacked datagram gives back the bytes its length
      field covers, whenever that field is honest. */
  lemma DecodeThenEncode(buf: bytes)
    requires |buf| >= HEADER_SIZE
    requires HEADER_SIZE <= Decode16(buf[4], buf[5]) <= |buf|
    ensures Decode(buf).value.Packable()
    ensures Encode(Decode(buf).value) == buf[..Decode16(buf[4], buf[5])]
  {
    var p := Decode(buf).value;
    var n := p.len;
    Split32(buf[0], buf[1], buf[2], buf[3]);
    Split16(buf[4], buf[5]);
    Split16(buf[6], buf[7]);
    assert buf[..8] == [buf[0], buf[1], buf[2], buf[3]] + [buf[4], buf[5]] + [buf[6], buf[7]];
    assert Header(p) == buf[..8];
    assert buf[..n] == buf[..8] + buf[8..n];
  }

  lemma Split16(b0: byte, b1: byte)
    ensures Encode16(Decode16(b0, b1)) == [b0, b1]
  {
  }

  lemma LowByte(b: byte, rest: nat)
    ensures (b + 0x100 * rest) % 0x100 == b && (b + 0x100 * rest) / 0x100 == rest
  {
  }

  lemma DivideTwice(n: nat)
    ensures n / 0x1_0000 == n / 0x100 / 0x100 && n / 0x100_0000 == n / 0x1_0000 / 0x100
  {
  }

  lemma Split32(b0: byte, b1: byte, b2: byte, b3: byte)
    ensures Encode32(Decode32(b0, b1, b2, b3)) == [b0, b1, b2, b3]
  {
    var rest2 := b2 + 0x100 * (b3 as nat);
    var rest1 := b1 + 0x100 * rest2;
    assert Decode32(b0, b1, b2, b3) == b0 + 0x100 * rest1;
    LowByte(b0, rest1);
    LowByte(b1, rest2);
    LowByte(b2, b3);
    DivideTwice(Decode32(b0, b1, b2, b3));
  }

  /** Every packet is built with its number and data, and passes its own check; if it fits the
      length field it is packable, and otherwise the length is cut to 16 bits. */
  lemma MadePacketIsIntact(data: bytes, seqno: uint32)
    ensures var p := MakePacket(data, seqno);
            && p.seqno == seqno && p.data == data && p.Intact() && p.len == (|data| + 8) % 0x1_0000
            && (|data| + 8 < 0x1_0000 ==> p.Packable())
  {
    Wrap16IsRemainder(|data| + HEADER_SIZE);
  }

  /** A packet object: the wire fields never change, the sender's bookkeeping does. */
  class DataPacket {
    const seqno: uint32
    const len: uint16
    const cksum: uint16
    const data: bytes
    var acked: bool
    var timeStamp: nat

    function Value(): Packet {
      Packet(seqno, len, cksum, data)
    }

    constructor (data: bytes, seqno: uint32)
      ensures Value() == MakePacket(data, seqno)
      ensures !acked && timeStamp == 0
    {
      var length := Wrap16(|data| + HEADER_SIZE);
      var sum := CalculateDataChecksum(length, seqno, data);
      this.data := data;
      this.len := length;
      this.seqno := seqno;
      this.cksum := sum.value;
      this.acked := false;
      this.timeStamp := 0;
    }

    /** Unpacks a received datagram. */
    constructor FromBuffer(buf: bytes)
      requires |buf| >= HEADER_SIZE
      ensures Some(Value()) == Decode(buf)
      ensures !acked && timeStamp == 0
    {
      var length := Decode16(buf[4], buf[5]);
      this.seqno := Decode32(buf[0], buf[1], buf[2], buf[3]);
      this.len := length;
      this.cksum := Decode16(buf[6], buf[7]);
      this.data := if length < HEADER_SIZE then buf[8..] else buf[8..Min(length, |buf|)];
      this.acked := false;
      this.timeStamp := 0;
    }

    method WriteHeader(buf: array<byte>)
      requires buf.Length >= HEADER_SIZE
      modifies buf
      ensures buf[..8] == Header(Value())
    {
      buf[0] := seqno % 0x100;
      buf[1] := seqno / 0x100 % 0x100;
      buf[2] := seqno / 0x1_0000 % 0x100;
      buf[3] := seqno / 0x100_0000 % 0x100;
      buf[4] := len % 0x100;
      buf[5] := len / 0x100 % 0x100;
      buf[6] := cksum % 0x100;
      buf[7] := cksum / 0x100 % 0x100;
      HeaderBytes(Value());
    }

    method Pack() returns (s: bytes)
      requires Value().Packable()
      ensures s == Encode(Value())
    {
      var buf := new byte[len];
      WriteHeader(buf);
      var i, j := 0, 8;
      while i < |data|
        invariant 0 <= i <= |data| && j == i + 8
        invariant buf[..8] == Header(Value())
        invariant buf[8..j] == data[..i]
      {
        buf[j] := data[i];
        i, j := i + 1, j + 1;
        assert buf[8..j] == data[..i - 1] + [data[i - 1]];
      }
      assert buf[..] == buf[..8] + buf[8..j];
      s := buf[..];
    }
  }

  /** The fields of an ACK packet. */
  datatype Ack = Ack(ackno: uint32, len: uint16, cksum: uint16) {
    predicate Intact() {
      cksum == AckChecksum(len, ackno)
    }
  }

  const ACK_PKT_LEN := 8

  function MakeAck(ackno: uint32): (a: Ack)
    ensures a.Intact() && a.ackno == ackno && a.len == 8
  {
    Ack(ackno, ACK_PKT_LEN, AckChecksum(ACK_PKT_LEN, ackno))
  }

  function EncodeAck(a: Ack): (s: bytes)
    ensures |s| == ACK_PKT_LEN
  {
    Encode32(a.ackno) + Encode16(a.len) + Encode16(a.cksum)
  }

  /** The server always reads 8 bytes of its receive buffer. */
  function DecodeAck(buf: bytes): Ack
    requires |buf| >= ACK_PKT_LEN
  {
    Ack(Decode32(buf[0], buf[1], buf[2], buf[3]), Decode16(buf[4], buf[5]), Decode16(buf[6], buf[7]))
  }

  lemma AckBytes(a: Ack)
    ensures EncodeAck(a) == [a.ackno % 0x100, a.ackno / 0x100 % 0x100, a.ackno / 0x1_0000 % 0x100,
                             a.ackno / 0x100_0000 % 0x100, a.len % 0x100, a.len / 0x100 % 0x100,
                             a.cksum % 0x100, a.cksum / 0x100 % 0x100]
  {
  }

  lemma AckRoundTrip(a: Ack, tail: bytes)
    ensures DecodeAck(EncodeAck(a) + tail) == a
  {
    var s := EncodeAck(a) + tail;
    RoundTrip32(a.ackno);
    RoundTrip16(a.len);
    RoundTrip16(a.cksum);
    assert s[0..4] == Encode32(a.ackno) && s[4..6] == Encode16(a.len) && s[6..8] == Encode16(a.cksum);
    assert s[0] == s[0..4][0] && s[1] == s[0..4][1] && s[2] == s[0..4][2] && s[3] == s[0..4][3];
    assert s[4] == s[4..6][0] && s[5] == s[4..6][1];
    assert s[6] == s[6..8][0] && s[7] == s[6..8][1];
  }

  lemma AckRoundTripExact(a: Ack)
    ensures DecodeAck(EncodeAck(a)) == a
  {
    AckRoundTrip(a, []);
    assert EncodeAck(a) + [] == EncodeAck(a);
  }

  class AckPacket {
    const ackno: uint32
    const len: uint16
    const cksum: uint16

    function Value(): Ack {
      Ack(ackno, len, cksum)
    }

    constructor (ackno: uint32)
      ensures Value() == MakeAck(ackno)
    {
      var sum := CalculateAckChecksum(ACK_PKT_LEN, ackno);
      this.len := ACK_PKT_LEN;
      this.ackno := ackno;
      this.cksum := sum.value;
    }

    constructor FromBuffer(buf: bytes)
      requires |buf| >= ACK_PKT_LEN
      ensures Value() == DecodeAck(buf)
    {
      this.ackno := Decode32(buf[0], buf[1], buf[2], buf[3]);
      this.len := Decode16(buf[4], buf[5]);
      this.cksum := Decode16(buf[6], buf[7]);
    }

    method Pack() returns (s: bytes)
      requires len == ACK_PKT_LEN
      ensures s == EncodeAck(Value())
    {
      var buf := new byte[len];
      buf[0] := ackno % 0x100;
      buf[1] := ackno / 0x100 % 0x100;
      buf[2] := ackno / 0x1_0000 % 0x100;
      buf[3] := ackno / 0x100_0000 % 0x100;
      buf[4] := len % 0x100;
      buf[5] := len / 0x100 % 0x100;
      buf[6] := cksum % 0x100;
      buf[7] := cksum / 0x100 % 0x100;
      AckBytes(Value());
      s := buf[..];
    }
  }
}
