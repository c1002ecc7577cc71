/**
 * Machine integers and little-endian byte layout. Rust's fixed-width integer
 * types are modelled as subsets of the unbounded `int`; every truncating
 * cast the source performs is written out with `WrapI32` or `%`.
 */
module Bytes {

  const TWO_32: int := 0x1_0000_0000
  const TWO_64: int := 0x1_0000_0000_0000_0000

  type U8 = x: int | 0 <= x < 0x100
  type U64 = x: int | 0 <= x < 0x1_0000_0000_0000_0000
  type I32 = x: int | -0x8000_0000 <= x < 0x8000_0000

  predicate IsI32(x: int) {
    -0x8000_0000 <= x < 0x8000_0000
  }

  /** Rust's `x as i32`: keep the low 32 bits and read them as two's complement. */
  function WrapI32(x: int): (r: I32)
    ensures (x - r) % TWO_32 == 0
    ensures IsI32(x) ==> r == x
  {
    var m := x % TWO_32;
    if m < 0x8000_0000 then m else m - TWO_32
  }

  function Pow256(n: nat): (r: nat)
    ensures r > 0
  {
    if n == 0 then 1 else 256 * Pow256(n - 1)
  }

  /** Four bytes span 2^32 values and eight span 2^64. */
  lemma Pow256Widths()
    ensures Pow256(4) == TWO_32 && Pow256(8) == TWO_64
  {
    assert Pow256(2) == 0x1_0000;
    assert Pow256(4) == 0x1_0000 * Pow256(2);
    assert Pow256(6) == 0x1_0000 * Pow256(4);
    assert Pow256(8) == 0x1_0000 * Pow256(6);
  }

  /** `to_le_bytes` of the value `v` truncated to `n` bytes. */
  function LeBytes(v: nat, n: nat): (r: seq<U8>)
    ensures |r| == n
  {
    if n == 0 then [] else [v % 256] + LeBytes(v / 256, n - 1)
  }

  /** `from_le_bytes`: the unsigned value of a little-endian byte string. */
  function LeValue(bs: seq<U8>): (r: nat)
    ensures r < Pow256(|bs|)
  {
    if bs == [] then 0 else bs[0] + 256 * LeValue(bs[1..])
  }

  /** The four little-endian bytes of a signed 32-bit value (`i32::to_le_bytes`). */
  function I32Le(x: I32): (r: seq<U8>)
    ensures |r| == 4
    ensures WrapI32(LeValue(r)) == x
  {
    var u := x % TWO_32;
    LeValueOfLeBytes(u, 4);
    Pow256Widths();
    LeBytes(u, 4)
  }

  lemma ModUnique(v: int, m: int, a: int, b: int)
    requires m > 0 && v == m * a + b && 0 <= b < m
    ensures v % m == b && v / m == a
  {
    var q, r := v / m, v % m;
    assert m * (q - a) == b - r by {
      assert v == m * q + r;
      assert m * q - m * a == m * (q - a);
    }
    SmallMultipleIsZero(m, q - a);
  }

  lemma SmallMultipleIsZero(m: int, k: int)
    requires m > 0 && -m < m * k < m
    ensures k == 0
  {
    MultipleBounds(m, k);
  }

  lemma MultipleBounds(m: int, k: int)
    requires m > 0
    ensures k >= 1 ==> m * k >= m
    ensures k <= -1 ==> m * k <= -m
  {
    if k >= 1 {
      assert m * k == m + m * (k - 1);
    } else if k <= -1 {
      assert m * k == -m + m * (k + 1);
    }
  }

  lemma ModSplit(v: nat, p: nat)
    requires p > 0
    ensures v % (256 * p) == v % 256 + 256 * ((v / 256) % p)
  {
    var q, r := v / 256, v % 256;
    var a, b := q / p, q % p;
    assert v == 256 * q + r;
    assert q == p * a + b;
    assert 256 * q == 256 * (p * a) + 256 * b;
    assert 256 * (p * a) == (256 * p) * a;
    assert 0 <= b <= p - 1;
    assert 256 * b <= 256 * (p - 1);
    ModUnique(v, 256 * p, a, 256 * b + r);
  }

  /** Reading back what `to_le_bytes` wrote yields the value modulo 256^n. */
  lemma {:induction false} LeValueOfLeBytes(v: nat, n: nat)
    ensures LeValue(LeBytes(v, n)) == v % Pow256(n)
  {
    if n > 0 {
      LeValueOfLeBytes(v / 256, n - 1);
      ModSplit(v, Pow256(n - 1));
    }
  }

  /** Writing back what `from_le_bytes` read reproduces the bytes. */
  lemma {:induction false} LeBytesOfLeValue(bs: seq<U8>)
    ensures LeBytes(LeValue(bs), |bs|) == bs
  {
    if bs != [] {
      var v := LeValue(bs);
      assert v % 256 == bs[0];
      assert v / 256 == LeValue(bs[1..]);
      LeBytesOfLeValue(bs[1..]);
    }
  }

  /** The first k bytes of an n-byte encoding are the k-byte encoding (truncating store). */
  lemma {:induction false} LeBytesPrefix(v: nat, n: nat, k: nat)
    requires k <= n
    ensures LeBytes(v, n)[..k] == LeBytes(v, k)
  {
    if k > 0 {
      LeBytesPrefix(v / 256, n - 1, k - 1);
    }
  }
}
