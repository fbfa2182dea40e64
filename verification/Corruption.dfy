/** Which single-byte errors on a data packet the receiver's checksum catches. */
module Corruption {
  import opened Bytes
  import opened PacketUtil
  import opened DataPackets

  /** One byte of the datagram replaced by another value. */
  function Damage(p: Packet, i: nat, b: byte): bytes
    requires i < |Encode(p)|
  {
    Encode(p)[i := b]
  }

  /** The one family of single-byte errors that passes: the high byte of the length field gets
      smaller, and the length and payload this cuts off add up to a multiple of 65535. */
  predicate HiddenCut(p: Packet, i: nat, b: byte) {
    var n := p.len % 256 + 256 * b;
    && i == 5 && HEADER_SIZE <= n < p.len && n - HEADER_SIZE <= |p.data|
    && (p.len - n + ByteSum(p.data[n - HEADER_SIZE..])) % 65535 == 0
  }

  /** The same for packets of the protocol's size: the high byte goes from 1 to 0, and the 256
      payload bytes cut off add up to 65279. */
  predicate HiddenTruncation(p: Packet, i: nat, b: byte) {
    && i == 5 && b == 0 && 256 + HEADER_SIZE <= p.len < 512
    && p.len - 256 - HEADER_SIZE <= |p.data|
    && ByteSum(p.data[p.len - 256 - HEADER_SIZE..]) == 65279
  }

  lemma SumOf(q: Packet, b0: byte, b1: byte, b2: byte, b3: byte)
    requires q.seqno == Decode32(b0, b1, b2, b3)
    ensures DataSum(q.len, q.seqno, q.data) == q.len + b0 + 0x100 * b1 + b2 + 0x100 * b3 + ByteSum(q.data)
  {
    Halves(b0, b1, b2, b3);
  }

  lemma ByteSumUpdate(s: bytes, i: nat, b: byte)
    requires i < |s|
    ensures ByteSum(s[i := b]) == ByteSum(s) - s[i] + b
  {
    assert s == s[..i] + ([s[i]] + s[i + 1..]);
    assert s[i := b] == s[..i] + ([b] + s[i + 1..]);
    ByteSumAppend(s[..i], [s[i]] + s[i + 1..]);
    ByteSumAppend(s[..i], [b] + s[i + 1..]);
  }

  /** Error in the sequence number. */
  lemma SeqnoDamage(p: Packet, i: nat, b: byte)
    requires p.Packable() && p.Intact() && i < 4 && Encode(p)[i] != b
    ensures !Decode(Damage(p, i, b)).value.Intact()
  {
    var s, d := Encode(p), Damage(p, i, b);
    var q := Decode(d).value;
    DataRoundTripExact(p);
    assert d[8..Min(p.len, |d|)] == s[8..Min(p.len, |s|)];
    SumOf(p, s[0], s[1], s[2], s[3]);
    SumOf(q, d[0], d[1], d[2], d[3]);
    FoldSeparates(DataSum(p.len, p.seqno, p.data), DataSum(q.len, q.seqno, q.data));
  }

  /** Error in the stored checksum. */
  lemma ChecksumDamage(p: Packet, i: nat, b: byte)
    requires p.Packable() && p.Intact() && 6 <= i < 8 && Encode(p)[i] != b
    ensures !Decode(Damage(p, i, b)).value.Intact()
  {
    var s, d := Encode(p), Damage(p, i, b);
    DataRoundTripExact(p);
    assert d[8..Min(p.len, |d|)] == s[8..Min(p.len, |s|)];
  }

  /** Error in the payload: it changes the sum by less than 256. */
  lemma PayloadDamage(p: Packet, i: nat, b: byte)
    requires p.Packable() && p.Intact() && 8 <= i < |Encode(p)| && Encode(p)[i] != b
    ensures !Decode(Damage(p, i, b)).value.Intact()
  {
    var s, d := Encode(p), Damage(p, i, b);
    var q := Decode(d).value;
    DataRoundTripExact(p);
    assert s[8..] == p.data;
    assert q.data == d[8..] == p.data[i - 8 := b];
    ByteSumUpdate(p.data, i - 8, b);
    FoldSeparates(DataSum(p.len, p.seqno, p.data), DataSum(q.len, q.seqno, q.data));
  }

  /** The packet a receiver sees when only the length field was hit. */
  lemma LengthDamageView(p: Packet, i: nat, b: byte)
    requires p.Packable() && 4 <= i < 6
    ensures var q := Decode(Damage(p, i, b)).value;
            && q.seqno == p.seqno && q.cksum == p.cksum
            && q.len == (if i == 4 then p.len - p.len % 256 + b else p.len % 256 + 256 * b)
            && q.data == if q.len < HEADER_SIZE || q.len >= p.len then p.data else p.data[..q.len - HEADER_SIZE]
  {
    var s, d := Encode(p), Damage(p, i, b);
    DataRoundTripExact(p);
    EncodedLayout(p, []);
    assert s + [] == s;
    assert s[4] == s[4..6][0] == p.len % 256 && s[5] == s[4..6][1] == p.len / 256;
    assert d[8..] == s[8..] == p.data;
    var q := Decode(d).value;
    if HEADER_SIZE <= q.len {
      var m := Min(q.len, |d|);
      assert d[8..m] == d[8..][..m - 8];
      if q.len >= p.len { assert p.data[..|p.data|] == p.data; }
    }
  }

  /** Cutting off a tail takes its length and its bytes out of the sum. */
  lemma TruncationSum(p: Packet, q: Packet)
    requires p.Packable() && q.seqno == p.seqno && HEADER_SIZE <= q.len < p.len
    requires q.data == p.data[..q.len - HEADER_SIZE]
    ensures DataSum(p.len, p.seqno, p.data) - DataSum(q.len, q.seqno, q.data)
         == p.len - q.len + ByteSum(p.data[q.len - HEADER_SIZE..])
    ensures ByteSum(p.data[q.len - HEADER_SIZE..]) <= 255 * (p.len - q.len)
  {
    var n := q.len - HEADER_SIZE;
    assert p.data == p.data[..n] + p.data[n..];
    ByteSumAppend(p.data[..n], p.data[n..]);
    ByteSumBound(p.data[n..]);
  }

  /** When a damaged length field still passes. */
  lemma LengthChange(p: Packet, q: Packet)
    requires p.Packable() && p.Intact() && q.seqno == p.seqno && q.cksum == p.cksum && q.len != p.len
    requires q.data == if q.len < HEADER_SIZE || q.len >= p.len then p.data else p.data[..q.len - HEADER_SIZE]
    requires -65535 < q.len - p.len < 65535
    ensures q.Intact() <==> && HEADER_SIZE <= q.len < p.len
                            && (p.len - q.len + ByteSum(p.data[q.len - HEADER_SIZE..])) % 65535 == 0
  {
    var sp: int, sq: int := DataSum(p.len, p.seqno, p.data), DataSum(q.len, q.seqno, q.data);
    assert q.Intact() <==> Fold(sp) == Fold(sq);
    if q.len < HEADER_SIZE || q.len >= p.len {
      assert sq - sp == q.len - p.len;
      FoldSeparates(sp, sq);
    } else {
      TruncationSum(p, q);
      FoldEqual(sp, sq);
    }
  }

  /** Error in the length field, for packets of any size. */
  lemma LengthDamage(p: Packet, i: nat, b: byte)
    requires p.Packable() && p.Intact() && 4 <= i < 6 && Encode(p)[i] != b
    ensures Decode(Damage(p, i, b)).value.Intact() <==> HiddenCut(p, i, b)
  {
    LengthDamageView(p, i, b);
    LengthDamagedPacket(p, Decode(Damage(p, i, b)).value, i, b);
  }

  lemma LengthDamagedPacket(p: Packet, q: Packet, i: nat, b: byte)
    requires p.Packable() && p.Intact() && 4 <= i < 6 && Encode(p)[i] != b
    requires q.seqno == p.seqno && q.cksum == p.cksum
    requires q.len == if i == 4 then p.len - p.len % 256 + b else p.len % 256 + 256 * b
    requires q.data == if q.len < HEADER_SIZE || q.len >= p.len then p.data else p.data[..q.len - HEADER_SIZE]
    ensures q.Intact() <==> HiddenCut(p, i, b)
  {
    HiddenByLength(p, i, b, q.len);
    LengthChange(p, q);
  }

  /** The hidden case in terms of the length that the receiver reads. */
  lemma HiddenByLength(p: Packet, i: nat, b: byte, n: nat)
    requires p.Packable() && 4 <= i < 6 && Encode(p)[i] != b
    requires n == if i == 4 then p.len - p.len % 256 + b else p.len % 256 + 256 * b
    ensures n != p.len && -65535 < n - p.len < 65535
    ensures HiddenCut(p, i, b)
       <==> HEADER_SIZE <= n < p.len && (p.len - n + ByteSum(p.data[n - HEADER_SIZE..])) % 65535 == 0
  {
    LengthBytes(p);
    LengthRange(p.len, i, b);
    if HEADER_SIZE <= n < p.len && i == 4 {
      ByteSumBound(p.data[n - HEADER_SIZE..]);
      SmallIsNoMultiple(p.len - n + ByteSum(p.data[n - HEADER_SIZE..]));
    }
  }

  lemma SmallIsNoMultiple(x: nat)
    requires 0 < x < 65535
    ensures x % 65535 != 0
  {
  }

  lemma LengthRange(len: uint16, i: nat, b: byte)
    requires 4 <= i < 6 && b != if i == 4 then len % 256 else len / 256
    ensures var n := if i == 4 then len - len % 256 + b else len % 256 + 256 * b;
            n != len && -65535 < n - len < 65535 && (i == 4 ==> len - n <= 255)
  {
  }

  /** What the hidden case comes to for the sizes the protocol uses. */
  lemma HiddenInProtocol(p: Packet, i: nat, b: byte)
    requires p.Packable() && |p.data| <= MAX_DATA_SIZE
    ensures HiddenCut(p, i, b) <==> HiddenTruncation(p, i, b)
  {
    var n := p.len % 256 + 256 * b;
    if HEADER_SIZE <= n < p.len {
      assert b == 0 && n == p.len - 256;
      ByteSumBound(p.data[n - HEADER_SIZE..]);
    }
  }

  lemma LengthBytes(p: Packet)
    ensures Encode(p)[4] == p.len % 256 && Encode(p)[5] == p.len / 256
  {
    assert Encode(p)[4..6] == Encode16(p.len);
    assert Encode(p)[4] == Encode(p)[4..6][0] && Encode(p)[5] == Encode(p)[4..6][1];
  }

  /** For every packet the codec can pack and every change of one byte, wherever it falls: the
      receiver still accepts the packet exactly in the hidden case. */
  lemma SingleByteDamage(p: Packet, i: nat, b: byte)
    requires p.Packable() && p.Intact() && i < |Encode(p)| && Encode(p)[i] != b
    ensures Decode(Damage(p, i, b)).value.Intact() <==> HiddenCut(p, i, b)
  {
    if i < 4 {
      SeqnoDamage(p, i, b);
    } else if i < 6 {
      LengthDamage(p, i, b);
    } else if i < 8 {
      ChecksumDamage(p, i, b);
    } else {
      PayloadDamage(p, i, b);
    }
  }

  function AckDamage(a: Ack, i: nat, b: byte): (s: bytes)
    requires i < ACK_PKT_LEN
    ensures |s| == ACK_PKT_LEN
  {
    EncodeAck(a)[i := b]
  }

  /** Every change of one byte of a packed ACK is noticed. */
  lemma SingleByteAckDamage(a: Ack, i: nat, b: byte)
    requires a.Intact() && i < ACK_PKT_LEN && EncodeAck(a)[i] != b
    ensures !DecodeAck(AckDamage(a, i, b)).Intact()
  {
    var s, d := EncodeAck(a), AckDamage(a, i, b);
    AckRoundTripExact(a);
    AckTest(s);
    AckTest(d);
    if i < 6 {
      WeightedSums(s, i, b);
      FoldSeparates(WeightedSum(s), WeightedSum(d));
    }
  }

  /** The test of an ACK in terms of the bytes received. */
  lemma AckTest(s: bytes)
    requires |s| == ACK_PKT_LEN
    ensures DecodeAck(s).Intact() <==> Decode16(s[6], s[7]) == Fold(WeightedSum(s))
  {
    AckSumOf(s);
  }

  /** What the sender sums over an ACK, in terms of its bytes. */
  function WeightedSum(s: bytes): nat
    requires |s| == ACK_PKT_LEN
  {
    var w: seq<nat> := s;
    w[0] + 0x100 * w[1] + w[2] + 0x100 * w[3] + w[4] + 0x100 * w[5]
  }

  lemma AckSumOf(s: bytes)
    requires |s| == ACK_PKT_LEN
    ensures DecodeAck(s).len + DecodeAck(s).ackno % 0x1_0000 + DecodeAck(s).ackno / 0x1_0000 == WeightedSum(s)
  {
    Halves(s[0], s[1], s[2], s[3]);
  }

  lemma WeightedSums(s: bytes, i: nat, b: byte)
    requires |s| == ACK_PKT_LEN && i < 6 && s[i] != b
    ensures WeightedSum(s[i := b]) != WeightedSum(s) && -65535 < WeightedSum(s[i := b]) - WeightedSum(s) < 65535
  {
  }

  lemma {:induction false} ByteSumConstant(n: nat, b: byte)
    ensures ByteSum(seq(n, _ => b)) == n * b
  {
    if n > 0 {
      ByteSumConstant(n - 1, b);
      assert seq(n, _ => b)[1..] == seq(n - 1, _ => b);
    }
  }

  /** A payload of 256 bytes that add up to 65279 can be cut off whole without notice. */
  lemma WholePayloadCut(p: Packet)
    requires p.Packable() && p.Intact() && |p.data| == 256 && ByteSum(p.data) == 65279
    ensures HiddenTruncation(p, 5, 0) && Encode(p)[5] == 1
    ensures var q := Decode(Damage(p, 5, 0)).value; q.Intact() && q.data == []
  {
    assert p.len == 264 && p.data[0..] == p.data;
    LengthBytes(p);
    LengthDamageView(p, 5, 0);
    HiddenInProtocol(p, 5, 0);
    SingleByteDamage(p, 5, 0);
  }

  /** The hidden case exists: 255 payload bytes of 255 after one of 254. */
  lemma UndetectedExample() returns (p: Packet)
    ensures p == MakePacket([254] + seq(255, _ => 255), 1)
    ensures Encode(p)[5] == 1 && p.data != []
    ensures var q := Decode(Damage(p, 5, 0)).value; q.Intact() && q.data == []
  {
    var data: bytes := [254] + seq(255, _ => 255);
    ByteSumConstant(255, 255);
    assert data[0] == 254 && data[1..] == seq(255, _ => 255);
    assert ByteSum(data) == 254 + 255 * 255;
    p := MakePacket(data, 1);
    MadePacketIsIntact(data, 1);
    WholePayloadCut(p);
  }
}
