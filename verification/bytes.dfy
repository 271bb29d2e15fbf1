/**
  Fixed-width integers of the C# message classes and their little-endian byte
  images (IPMI puts the least-significant byte of a multi-byte field first).
 */
module Bytes {

  /** C# `byte` */
  type byte = x: int | 0 <= x < 0x100

  /** C# `ushort` */
  type uint16 = x: int | 0 <= x < 0x1_0000

  /** C# `int` */
  type int32 = x: int | -0x8000_0000 <= x < 0x8000_0000

  /** 256 to the power n: the number of distinct values n bytes can hold. */
  function Pow256(n: nat): (p: nat)
    ensures p >= 1
  {
    if n == 0 then 1 else 256 * Pow256(n - 1)
  }

  /** Four bytes hold the 2^32 patterns of a 32-bit integer. */
  lemma Pow256Four()
    ensures Pow256(2) == 0x1_0000 && Pow256(4) == 0x1_0000_0000
  {
  }

  lemma {:induction false} Pow256Monotone(m: nat, n: nat)
    requires m <= n
    ensures Pow256(m) <= Pow256(n)
  {
    if m < n {
      Pow256Monotone(m, n - 1);
    }
  }

  /** The n low-order bytes of v, least-significant byte first (higher bytes are dropped, missing ones are zero). */
  function LeBytes(v: nat, n: nat): (bs: seq<byte>)
    ensures |bs| == n
  {
    if n == 0 then [] else [v % 256] + LeBytes(v / 256, n - 1)
  }

  /** The unsigned value of bs read least-significant byte first. */
  function LeValue(bs: seq<byte>): (v: nat)
    ensures v < Pow256(|bs|)
  {
    if bs == [] then 0 else bs[0] + 256 * LeValue(bs[1..])
  }

  /** m times a positive number is at least m. */
  lemma MulAtLeast(m: nat, k: nat)
    requires k >= 1
    ensures m * k >= m
  {
  }

  /** Euclidean division is unique: the quotient and remainder of a decomposition are the ones `/` and `%` give. */
  lemma DivModUnique(v: nat, m: nat, q: nat, r: nat)
    requires 0 < m && r < m && v == m * q + r
    ensures v / m == q && v % m == r
  {
    var q', r' := v / m, v % m;
    assert v == m * q' + r';
    if q' < q {
      MulAtLeast(m, q - q');
      assert false;
    } else if q' > q {
      MulAtLeast(m, q' - q);
      assert false;
    }
  }

  /** Taking v modulo 256·p splits into its low byte and the rest modulo p. */
  lemma ModOfByteShift(v: nat, p: nat)
    requires p >= 1
    ensures v % (256 * p) == v % 256 + 256 * ((v / 256) % p)
  {
    var q, r := v / 256, v % 256;
    var a, b := q / p, q % p;
    assert q == p * a + b;
    assert b <= p - 1;
    assert 256 * b <= 256 * p - 256;
    assert 256 * q == (256 * p) * a + 256 * b;
    DivModUnique(v, 256 * p, a, r + 256 * b);
  }

  /** Reading back n little-endian bytes of v gives v modulo 256^n. */
  lemma {:induction false} LeValueOfLeBytes(v: nat, n: nat)
    ensures LeValue(LeBytes(v, n)) == v % Pow256(n)
  {
    if n > 0 {
      LeValueOfLeBytes(v / 256, n - 1);
      var bs := LeBytes(v, n);
      assert bs[0] == v % 256 && bs[1..] == LeBytes(v / 256, n - 1);
      ModOfByteShift(v, Pow256(n - 1));
    }
  }

  /** A value that fits in n bytes survives the round trip through its n-byte image. */
  lemma LeValueOfLeBytesFits(v: nat, n: nat)
    requires v < Pow256(n)
    ensures LeValue(LeBytes(v, n)) == v
  {
  }

  /** Writing back the value of a byte string at its own width reproduces the string. */
  lemma {:induction false} LeBytesOfLeValue(bs: seq<byte>)
    ensures LeBytes(LeValue(bs), |bs|) == bs
  {
    if bs != [] {
      var w := LeValue(bs[1..]);
      DivModUnique(LeValue(bs), 256, w, bs[0]);
      LeBytesOfLeValue(bs[1..]);
    }
  }

  /** Two's-complement reading of a 32-bit unsigned pattern (C# `int` from four bytes). */
  function ToSigned32(u: nat): (x: int32)
    requires u < 0x1_0000_0000
    ensures x < 0 <==> u >= 0x8000_0000
    ensures x % 0x1_0000_0000 == u
  {
    if u < 0x8000_0000 then u else u - 0x1_0000_0000
  }

  /** The 32-bit pattern of a C# `int`; the inverse of ToSigned32. */
  function ToUnsigned32(x: int32): (u: nat)
    ensures u < 0x1_0000_0000
    ensures ToSigned32(u) == x
  {
    if x >= 0 then x else x + 0x1_0000_0000
  }
}
