/** Bytes, fixed-width unsigned numbers and the little-endian layout both packet headers use. */
module Bytes {

  type byte = x: int | 0 <= x < 0x100
  type uint16 = x: int | 0 <= x < 0x1_0000
  type uint32 = x: int | 0 <= x < 0x1_0000_0000
  type bytes = seq<byte>

  datatype Option<+T> = None | Some(value: T)

  function Min(a: int, b: int): int { if a <= b then a else b }

  function Max(a: int, b: int): int { if a >= b then a else b }

  function Pow2(n: nat): (p: nat)
    ensures p >= 1
  {
    if n == 0 then 1 else 2 * Pow2(n - 1)
  }

  /** Concatenation of a sequence of byte strings, in order. */
  function Flatten(parts: seq<bytes>): bytes {
    if parts == [] then [] else parts[0] + Flatten(parts[1..])
  }

  lemma Regroup(x: bytes, y: bytes, z: bytes)
    ensures x + (y + z) == (x + y) + z
  {
  }

  lemma {:induction false} FlattenAppend(a: seq<bytes>, b: seq<bytes>)
    ensures Flatten(a + b) == Flatten(a) + Flatten(b)
  {
    if a == [] {
      assert a + b == b;
    } else {
      FlattenAppend(a[1..], b);
      assert (a + b)[0] == a[0] && (a + b)[1..] == a[1..] + b;
      Regroup(a[0], Flatten(a[1..]), Flatten(b));
    }
  }

  /** Sum of the byte values. */
  function ByteSum(s: bytes): nat {
    if s == [] then 0 else s[0] + ByteSum(s[1..])
  }

  lemma {:induction false} ByteSumAppend(a: bytes, b: bytes)
    ensures ByteSum(a + b) == ByteSum(a) + ByteSum(b)
  {
    if a == [] {
      assert a + b == b;
    } else {
      ByteSumAppend(a[1..], b);
      assert (a + b)[0] == a[0] && (a + b)[1..] == a[1..] + b;
    }
  }

  lemma {:induction false} ByteSumBound(s: bytes)
    ensures ByteSum(s) <= 255 * |s|
  {
    if s != [] { ByteSumBound(s[1..]); }
  }

  /** The sum does not depend on the order of the bytes. */
  lemma {:induction false} ByteSumOrder(a: bytes, b: bytes)
    requires multiset(a) == multiset(b)
    ensures ByteSum(a) == ByteSum(b)
  {
    if a == [] {
      assert |multiset(b)| == |b| == 0;
    } else {
      assert a[0] in multiset(b);
      var i :| 0 <= i < |b| && b[i] == a[0];
      var rest := b[..i] + b[i + 1..];
      assert a == [a[0]] + a[1..];
      assert b == b[..i] + ([b[i]] + b[i + 1..]);
      assert multiset(a) == multiset{a[0]} + multiset(a[1..]);
      assert multiset(b) == multiset{b[i]} + multiset(rest);
      assert multiset(a[1..]) == multiset(a) - multiset{a[0]};
      assert multiset(rest) == multiset(b) - multiset{b[i]};
      ByteSumOrder(a[1..], rest);
      ByteSumAppend(b[..i], [b[i]] + b[i + 1..]);
      ByteSumAppend([b[i]], b[i + 1..]);
      ByteSumAppend(b[..i], b[i + 1..]);
    }
  }

  /** Unsigned arithmetic of 16 and 32 bits: the width is cast out until the rest fits. */
  function Wrap16(n: nat): (r: uint16)
    ensures n < 0x1_0000 ==> r == n
  {
    if n < 0x1_0000 then n else Wrap16(n - 0x1_0000)
  }

  function Wrap32(n: nat): (r: uint32)
    ensures n < 0x1_0000_0000 ==> r == n
  {
    if n < 0x1_0000_0000 then n else Wrap32(n - 0x1_0000_0000)
  }

  lemma {:induction false} Wrap16IsRemainder(n: nat)
    ensures Wrap16(n) == n % 0x1_0000
  {
    if n >= 0x1_0000 { Wrap16IsRemainder(n - 0x1_0000); }
  }

  lemma {:induction false} Wrap32IsRemainder(n: nat)
    ensures Wrap32(n) == n % 0x1_0000_0000
  {
    if n >= 0x1_0000_0000 { Wrap32IsRemainder(n - 0x1_0000_0000); }
  }

  /** The two bytes of a 16-bit number, low byte first. */
  function Encode16(n: uint16): (s: bytes)
    ensures |s| == 2
  {
    [n % 0x100, n / 0x100]
  }

  function Decode16(b0: byte, b1: byte): uint16 {
    b0 + 0x100 * b1
  }

  /** The four bytes of a 32-bit number, low byte first. */
  function Encode32(n: uint32): (s: bytes)
    ensures |s| == 4
  {
    [n % 0x100, n / 0x100 % 0x100, n / 0x1_0000 % 0x100, n / 0x100_0000]
  }

  function Decode32(b0: byte, b1: byte, b2: byte, b3: byte): uint32 {
    b0 + 0x100 * b1 + 0x1_0000 * b2 + 0x100_0000 * b3
  }

  lemma RoundTrip16(n: uint16)
    ensures Decode16(Encode16(n)[0], Encode16(n)[1]) == n
  {
  }

  lemma RoundTrip32(n: uint32)
    ensures var s := Encode32(n); Decode32(s[0], s[1], s[2], s[3]) == n
  {
    var s := Encode32(n);
    assert n / 0x1_0000 == (n / 0x100) / 0x100;
    assert n / 0x100_0000 == (n / 0x1_0000) / 0x100;
    assert n == n % 0x100 + 0x100 * (n / 0x100);
    assert n / 0x100 == n / 0x100 % 0x100 + 0x100 * ((n / 0x100) / 0x100);
    assert n / 0x1_0000 == n / 0x1_0000 % 0x100 + 0x100 * ((n / 0x1_0000) / 0x100);
  }

  /** The two 16-bit halves of the number that four little-endian bytes spell. */
  lemma Halves(b0: byte, b1: byte, b2: byte, b3: byte)
    ensures var n := Decode32(b0, b1, b2, b3);
            n % 0x1_0000 == b0 + 0x100 * b1 && n / 0x1_0000 == b2 + 0x100 * b3
  {
    var lo := b0 + 0x100 * b1;
    var hi := b2 + 0x100 * b3;
    assert Decode32(b0, b1, b2, b3) == lo + 0x1_0000 * hi;
  }
}
