/** Octet strings: the big-endian numbers behind `htobe*`/`be*toh`, and `memcmp`. */
module Octets {

  type byte = x: int | 0 <= x < 256

  const U16_MAX: nat := 0xFFFF
  const U32_MAX: nat := 0xFFFF_FFFF
  const U64_MAX: nat := 0xFFFF_FFFF_FFFF_FFFF

  const TWO63: int := 0x8000_0000_0000_0000
  const TWO64: int := 0x1_0000_0000_0000_0000

  function Pow256(k: nat): (p: nat)
    ensures p > 0
  {
    if k == 0 then 1 else 256 * Pow256(k - 1)
  }

  lemma Pow256Values()
    ensures Pow256(1) == 0x100 && Pow256(2) == U16_MAX + 1
    ensures Pow256(4) == U32_MAX + 1 && Pow256(8) == U64_MAX + 1
  {
    assert Pow256(2) == 0x1_0000;
    assert Pow256(3) == 0x100_0000;
    assert Pow256(4) == 0x1_0000_0000;
    assert Pow256(5) == 0x100_0000_0000;
    assert Pow256(6) == 0x1_0000_0000_0000;
    assert Pow256(7) == 0x100_0000_0000_0000;
  }

  /** The `width` low-order octets of `n`, most significant first. */
  function ToBigEndian(n: nat, width: nat): (b: seq<byte>)
    ensures |b| == width
  {
    if width == 0 then [] else ToBigEndian(n / 256, width - 1) + [n % 256]
  }

  function FromBigEndian(b: seq<byte>): nat
  {
    if b == [] then 0 else 256 * FromBigEndian(b[..|b| - 1]) + b[|b| - 1]
  }

  lemma {:induction false} FromToBigEndian(n: nat, width: nat)
    requires n < Pow256(width)
    ensures FromBigEndian(ToBigEndian(n, width)) == n
  {
    if width > 0 {
      FromToBigEndian(n / 256, width - 1);
      assert ToBigEndian(n, width)[..width - 1] == ToBigEndian(n / 256, width - 1);
    }
  }

  lemma {:induction false} ToFromBigEndian(b: seq<byte>)
    ensures FromBigEndian(b) < Pow256(|b|)
    ensures ToBigEndian(FromBigEndian(b), |b|) == b
  {
    if b != [] {
      ToFromBigEndian(b[..|b| - 1]);
      assert b == b[..|b| - 1] + [b[|b| - 1]];
    }
  }

  lemma EmptyNumber()
    ensures FromBigEndian([]) == 0 && ToBigEndian(0, 0) == [] && Pow256(0) == 1
  {
  }

  lemma LastOctet(b: seq<byte>, x: byte)
    ensures FromBigEndian(b + [x]) == 256 * FromBigEndian(b) + x
  {
    assert (b + [x])[..|b|] == b;
  }

  lemma FromBigEndianInjective(a: seq<byte>, b: seq<byte>)
    requires |a| == |b| && FromBigEndian(a) == FromBigEndian(b)
    ensures a == b
  {
    ToFromBigEndian(a);
    ToFromBigEndian(b);
  }

  function Sign(x: int): int
  {
    if x < 0 then -1 else if x == 0 then 0 else 1
  }

  /** `std::memcmp` over the first `n` octets; callers look only at the sign. */
  function Memcmp(a: seq<byte>, b: seq<byte>, n: nat): int
    requires n <= |a| && n <= |b|
  {
    if n == 0 then 0
    else if a[0] != b[0] then a[0] - b[0]
    else Memcmp(a[1..], b[1..], n - 1)
  }

  /** Equal-length heads decide the comparison, unless they are equal. */
  lemma {:induction false} MemcmpConcat(a: seq<byte>, s: seq<byte>, b: seq<byte>, t: seq<byte>, n: nat)
    requires |a| == |b| && |a| <= n <= |a| + |s| && n <= |b| + |t|
    ensures Memcmp(a + s, b + t, n) ==
            if Memcmp(a, b, |a|) != 0 then Memcmp(a, b, |a|) else Memcmp(s, t, n - |a|)
  {
    if a == [] {
      assert a + s == s && b + t == t;
    } else if a[0] == b[0] {
      assert (a + s)[1..] == a[1..] + s && (b + t)[1..] == b[1..] + t;
      MemcmpConcat(a[1..], s, b[1..], t, n - 1);
    }
  }

  /** On octet strings of one length, `memcmp` is the order of the numbers they spell. */
  lemma {:induction false} MemcmpIsNumeric(a: seq<byte>, b: seq<byte>)
    requires |a| == |b|
    ensures Sign(Memcmp(a, b, |a|)) == Sign(FromBigEndian(a) - FromBigEndian(b))
  {
    if a != [] {
      var n := |a| - 1;
      assert a == a[..n] + [a[n]] && b == b[..n] + [b[n]];
      MemcmpConcat(a[..n], [a[n]], b[..n], [b[n]], n + 1);
      MemcmpIsNumeric(a[..n], b[..n]);
      var difference: int := a[n] as int - b[n] as int;
      assert Memcmp([a[n]], [b[n]], 1) == difference;
    }
  }

  // ---- signed integers ----

  /** Two's complement of 64 bits, to which the source narrows or wraps around. */
  function Int64(x: int): (r: int)
    ensures -TWO63 <= r < TWO63 && (-TWO63 <= x < TWO63 ==> r == x)
  {
    (x + TWO63) % TWO64 - TWO63
  }

  lemma Int64Drops(x: int)
    ensures exists k: int :: x == Int64(x) + k * TWO64
  {
    assert x == Int64(x) + (x + TWO63) / TWO64 * TWO64;
  }

  lemma Int64Congruent(x: int, k: int)
    ensures Int64(x + k * TWO64) == Int64(x)
  {
    var y := x + TWO63;
    assert (y + k * TWO64) % TWO64 == y % TWO64;
  }

  lemma Int64Cases(x: int)
    ensures Int64(x) == if x % TWO64 < TWO63 then x % TWO64 else x % TWO64 - TWO64
  {
  }
}
