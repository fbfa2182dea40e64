/** The 16-bit end-around-carry checksum of shared/packet_util.cpp. */
module PacketUtil {
  import opened Bytes

  const HEADER_SIZE := 8
  const MAX_DATA_SIZE := 500

  /** Folds a carry out of bit 16 back into the low half; the test looks at bit 16 only. */
  function WrapExtraBits(checkSum: nat): nat {
    if checkSum / 0x1_0000 % 2 == 1 then checkSum % 0x1_0000 + 1 else checkSum
  }

  /** End-around carry of a whole sum: 65535 is cast out until the rest fits 16 bits. */
  function Fold(sum: nat): (r: uint16)
    ensures sum == 0 <==> r == 0
  {
    if sum <= 0xFFFF then sum else Fold(sum - 0xFFFF)
  }

  /** A positive sum is reduced to its residue in 1..65535. */
  lemma {:induction false} FoldClosedForm(sum: nat)
    requires sum >= 1
    ensures Fold(sum) == 1 + (sum - 1) % 65535
  {
    if sum > 0xFFFF {
      FoldClosedForm(sum - 0xFFFF);
      var q, r := (sum - 1) / 65535, (sum - 1) % 65535;
      ModUnique(sum - 1 - 65535, q - 1, r);
    }
  }

  /** Adding a 16-bit term and wrapping once is addition of the unreduced sums. */
  lemma FoldStep(sum: nat, term: uint16)
    ensures WrapExtraBits(Fold(sum) + term) == Fold(sum + term)
  {
    if sum > 0 {
      FoldClosedForm(sum);
      FoldClosedForm(sum + term);
      var f := Fold(sum) - 1;
      assert sum - 1 == 65535 * ((sum - 1) / 65535) + f;
      var q := (sum - 1) / 65535;
      if f + term < 65535 {
        assert sum + term - 1 == 65535 * q + (f + term);
        ModUnique(sum + term - 1, q, f + term);
      } else {
        assert sum + term - 1 == 65535 * (q + 1) + (f + term - 65535);
        ModUnique(sum + term - 1, q + 1, f + term - 65535);
      }
    }
  }

  lemma ModUnique(n: nat, q: nat, r: nat)
    requires n == 65535 * q + r && r < 65535
    ensures n % 65535 == r
  {
  }

  /** Two positive sums have the same checksum exactly when they agree modulo 65535. */
  lemma FoldEqual(a: nat, b: nat)
    requires a >= 1 && b >= 1
    ensures Fold(a) == Fold(b) <==> (a - b) % 65535 == 0
  {
    FoldClosedForm(a);
    FoldClosedForm(b);
    var qa, qb := (a - 1) / 65535, (b - 1) / 65535;
    var ra, rb := (a - 1) % 65535, (b - 1) % 65535;
    assert a - b == 65535 * (qa - qb) + (ra - rb);
    if ra == rb {
      assert (65535 * (qa - qb)) % 65535 == 0;
    } else if (a - b) % 65535 == 0 {
      assert false;
    }
  }

  /** A change of the sum by less than 65535 in either direction always shows. */
  lemma FoldSeparates(a: nat, b: nat)
    requires a != b && -65535 < a - b < 65535
    ensures Fold(a) != Fold(b)
  {
    if a >= 1 && b >= 1 { FoldEqual(a, b); }
  }

  /** What the checksum adds up: the length, both halves of the number, and the payload bytes. */
  function DataSum(len: uint16, seqno: uint32, data: bytes): nat {
    len + seqno % 0x1_0000 + seqno / 0x1_0000 + ByteSum(data)
  }

  function DataChecksum(len: uint16, seqno: uint32, data: bytes): uint16 {
    Fold(DataSum(len, seqno, data))
  }

  function AckChecksum(len: uint16, ackno: uint32): uint16 {
    Fold(len + ackno % 0x1_0000 + ackno / 0x1_0000)
  }

  /** One round of the source: add a 16-bit term, then fold the carry. */
  method AddTerm(checkSum: nat, term: uint16, ghost sum: nat) returns (r: nat)
    requires checkSum == Fold(sum)
    ensures r == Fold(sum + term)
  {
    r := WrapExtraBits(checkSum + term);
    FoldStep(sum, term);
  }

  /** The loop of the source computes the closed form for every payload length; the error
      exit for a sum above 0xFFFF (modelled as None) is never taken. */
  method CalculateDataChecksum(len: uint16, seqno: uint32, data: bytes) returns (r: Option<uint16>)
    ensures r == Some(DataChecksum(len, seqno, data))
    ensures var sum := len + seqno % 0x1_0000 + seqno / 0x1_0000 + ByteSum(data);
            r == Some(if sum == 0 then 0 else 1 + (sum - 1) % 65535)
  {
    var low: uint16, high: uint16 := seqno % 0x1_0000, seqno / 0x1_0000;
    ghost var header := len + low + high;
    var checkSum := AddTerm(0, len, 0);
    checkSum := AddTerm(checkSum, low, len);
    checkSum := AddTerm(checkSum, high, len + low);
    for i := 0 to |data|
      invariant checkSum == Fold(header + ByteSum(data[..i]))
    {
      checkSum := AddTerm(checkSum, data[i], header + ByteSum(data[..i]));
      assert data[..i + 1] == data[..i] + [data[i]];
      ByteSumAppend(data[..i], [data[i]]);
    }
    assert data[..|data|] == data;
    if DataSum(len, seqno, data) >= 1 { FoldClosedForm(DataSum(len, seqno, data)); }

    if checkSum > 0xFFFF {
      return None;
    }
    return Some(checkSum);
  }

  method CalculateAckChecksum(len: uint16, ackno: uint32) returns (r: Option<uint16>)
    ensures r == Some(AckChecksum(len, ackno))
    ensures var sum := len + ackno % 0x1_0000 + ackno / 0x1_0000;
            r == Some(if sum == 0 then 0 else 1 + (sum - 1) % 65535)
  {
    var low: uint16, high: uint16 := ackno % 0x1_0000, ackno / 0x1_0000;
    var checkSum := AddTerm(0, len, 0);
    checkSum := AddTerm(checkSum, low, len);
    checkSum := AddTerm(checkSum, high, len + low);
    ghost var sum := len + low + high;
    if sum >= 1 { FoldClosedForm(sum); }
    if checkSum > 0xFFFF {
      return None;
    }
    return Some(checkSum);
  }

  /** Byte order in the payload is invisible to the checksum. */
  lemma ChecksumIgnoresOrder(len: uint16, seqno: uint32, a: bytes, b: bytes)
    requires multiset(a) == multiset(b)
    ensures DataChecksum(len, seqno, a) == DataChecksum(len, seqno, b)
  {
    ByteSumOrder(a, b);
  }

  /** Exactly which payload replacements the checksum cannot see. */
  lemma PayloadSwapUndetected(len: uint16, seqno: uint32, a: bytes, b: bytes)
    requires len >= HEADER_SIZE
    ensures DataChecksum(len, seqno, a) == DataChecksum(len, seqno, b)
       <==> (ByteSum(a) - ByteSum(b)) % 65535 == 0
  {
    FoldEqual(DataSum(len, seqno, a), DataSum(len, seqno, b));
  }
}
