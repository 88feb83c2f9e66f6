/** Bytes, fixed-width big-endian integers and the two's-complement narrowing of
    the C++ integer types. */
module Bytes {

  type byte = b: int | 0 <= b < 256
  type bytes = seq<byte>

  datatype Option<T> = None | Some(value: T)

  const INT32_MIN: int := -0x8000_0000
  const INT32_MAX: int := 0x7fff_ffff
  const TWO32: int := 0x1_0000_0000
  const TWO64: int := 0x1_0000_0000_0000_0000

  predicate IsInt32(v: int) { INT32_MIN <= v <= INT32_MAX }

  /** The value an `int32_t` holds after `v` is assigned to it. */
  function Wrap32(v: int): (r: int)
    ensures IsInt32(r)
    ensures IsInt32(v) ==> r == v
  {
    (v - INT32_MIN) % TWO32 + INT32_MIN
  }

  /** The value an `int64_t` holds after `v` is assigned to it. */
  function Wrap64(v: int): (r: int)
    ensures -TWO64 / 2 <= r < TWO64 / 2
    ensures -TWO64 / 2 <= v < TWO64 / 2 ==> r == v
  {
    (v + TWO64 / 2) % TWO64 - TWO64 / 2
  }

  /** Narrowing changes a value by a multiple of the width, and the ranges make it unique. */
  lemma WrapUnique(v: int, r: int, k: int)
    requires r == v + k * TWO32 && IsInt32(r)
    ensures Wrap32(v) == r
  {
    ModShift32(v - INT32_MIN, -k);
  }

  lemma ModShift32(z: int, q: int)
    ensures (z - q * TWO32) % TWO32 == z % TWO32
  {
    assert z - q * TWO32 == (z / TWO32 - q) * TWO32 + z % TWO32;
  }

  lemma ModShift64(z: int, q: int)
    ensures (z - q * TWO64) % TWO64 == z % TWO64
  {
    assert z - q * TWO64 == (z / TWO64 - q) * TWO64 + z % TWO64;
  }

  /** Narrowing after every addition gives the same as narrowing once at the end. */
  lemma WrapAdd(a: int, b: int)
    ensures Wrap32(Wrap32(a) + b) == Wrap32(a + b)
    ensures Wrap64(Wrap64(a) + b) == Wrap64(a + b)
  {
    ModShift32(a + b - INT32_MIN, (a - INT32_MIN) / TWO32);
    ModShift64(a + b + TWO64 / 2, (a + TWO64 / 2) / TWO64);
  }

  /** C++ integer division: the quotient is truncated toward zero. */
  function TruncDiv(a: int, b: int): (q: int)
    requires b != 0
  {
    if (a >= 0) == (b > 0) then (if a >= 0 then a else -a) / (if b > 0 then b else -b)
    else -((if a >= 0 then a else -a) / (if b > 0 then b else -b))
  }

  lemma MulMono(a: int, b: int, n: int)
    requires a <= b && n >= 0
    ensures a * n <= b * n
  {
  }

  /** Floor division by a positive `n` is the order adjoint of multiplication by `n`. */
  lemma DivAdjoint(q: int, s: int, n: int)
    requires n > 0
    ensures q * n <= s <==> q <= s / n
  {
    var d, r := s / n, s % n;
    assert s == n * d + r;
    assert n * d == d * n;
    if q <= d {
      MulMono(q, d, n);
    } else {
      MulMono(d + 1, q, n);
      assert (d + 1) * n == d * n + n;
    }
  }

  lemma MulNeg(a: int, n: int)
    ensures (-a) * n == -(a * n)
  {
  }

  /** A truncated mean lies between integers that bound the exact mean. */
  lemma TruncDivBounds(s: int, n: int, lo: int, hi: int)
    requires n > 0
    requires lo * n <= s <= hi * n
    ensures lo <= TruncDiv(s, n) <= hi
  {
    if s >= 0 {
      DivAdjoint(lo, s, n);
      DivAdjoint(hi + 1, s, n);
      assert (hi + 1) * n == hi * n + n;
    } else {
      MulNeg(lo, n);
      MulNeg(hi, n);
      DivAdjoint(-lo + 1, -s, n);
      DivAdjoint(-hi, -s, n);
      assert (-lo + 1) * n == (-lo) * n + n;
    }
  }

  lemma TruncDivMonotone(a: int, b: int, n: int)
    requires n > 0 && a <= b
    ensures TruncDiv(a, n) <= TruncDiv(b, n)
  {
    if a >= 0 {
      DivAdjoint(a / n, a, n);
      DivAdjoint(a / n, b, n);
    } else if b >= 0 {
      DivAdjoint(0, -a, n);
      DivAdjoint(0, b, n);
    } else {
      DivAdjoint((-b) / n, -b, n);
      DivAdjoint((-b) / n, -a, n);
    }
  }

  // ---------------------------------------------------------------- big endian

  function Pow256(n: nat): (p: nat)
    ensures p > 0
  {
    if n == 0 then 1 else 256 * Pow256(n - 1)
  }

  function ToBE(n: nat, v: nat): (s: bytes)
    requires v < Pow256(n)
    ensures |s| == n
  {
    if n == 0 then [] else ToBE(n - 1, v / 256) + [v % 256]
  }

  function FromBE(s: bytes): (v: nat)
    ensures v < Pow256(|s|)
  {
    if s == [] then 0 else 256 * FromBE(s[..|s| - 1]) + s[|s| - 1]
  }

  lemma {:induction false} FromToBE(n: nat, v: nat)
    requires v < Pow256(n)
    ensures FromBE(ToBE(n, v)) == v
  {
    if n > 0 {
      FromToBE(n - 1, v / 256);
      assert ToBE(n, v)[..n - 1] == ToBE(n - 1, v / 256);
    }
  }

  lemma {:induction false} ToFromBE(s: bytes)
    ensures ToBE(|s|, FromBE(s)) == s
  {
    if s != [] {
      ToFromBE(s[..|s| - 1]);
      assert s == s[..|s| - 1] + [s[|s| - 1]];
    }
  }

  // Big-endian numbers by their bytes.

  function Be16(s: bytes, i: nat): nat
    requires i + 2 <= |s|
  {
    var a: int, b: int := s[i], s[i + 1];
    0x100 * a + b
  }

  function Be32(s: bytes, i: nat): nat
    requires i + 4 <= |s|
  {
    var a: int, b: int, c: int, d: int := s[i], s[i + 1], s[i + 2], s[i + 3];
    0x100_0000 * a + 0x1_0000 * b + 0x100 * c + d
  }

  function Be64(s: bytes, i: nat): nat
    requires i + 8 <= |s|
  {
    TWO32 * Be32(s, i) + Be32(s, i + 4)
  }

  lemma FromBESnoc(s: bytes, i: nat, n: nat)
    requires i + n < |s|
    ensures FromBE(s[i..i + n + 1]) == 256 * FromBE(s[i..i + n]) + s[i + n]
  {
    assert s[i..i + n + 1][..n] == s[i..i + n];
  }

  lemma FromBEWords(s: bytes, i: nat)
    ensures i + 2 <= |s| ==> FromBE(s[i..i + 2]) == Be16(s, i)
    ensures i + 4 <= |s| ==> FromBE(s[i..i + 4]) == Be32(s, i)
  {
    if i + 2 <= |s| {
      assert s[i..i] == [] && FromBE([]) == 0;
      FromBESnoc(s, i, 0);
      FromBESnoc(s, i, 1);
    }
    if i + 4 <= |s| {
      FromBESnoc(s, i, 2);
      FromBESnoc(s, i, 3);
    }
  }

  lemma FromBELong(s: bytes, i: nat)
    requires i + 8 <= |s|
    ensures FromBE(s[i..i + 8]) == Be64(s, i)
  {
    FromBEWords(s, i);
    hide FromBE;
    FromBESnoc(s, i, 4);
    FromBESnoc(s, i, 5);
    FromBESnoc(s, i, 6);
    FromBESnoc(s, i, 7);
  }

  lemma Widths()
    ensures Pow256(1) == 0x100 && Pow256(2) == 0x1_0000 && Pow256(4) == TWO32 && Pow256(8) == TWO64
  {
    assert Pow256(4) == 256 * (256 * (256 * (256 * Pow256(0))));
    assert Pow256(8) == 256 * (256 * (256 * (256 * Pow256(4))));
  }

  predicate Signed(n: nat, v: int) { 0 <= 2 * v + Pow256(n) && 2 * v < Pow256(n) }

  /** Two's-complement big-endian bytes of a signed value, and back. */
  function ToSBE(n: nat, v: int): (s: bytes)
    requires Signed(n, v)
    ensures |s| == n
  {
    ToBE(n, if v < 0 then v + Pow256(n) else v)
  }

  function FromSBE(s: bytes): (v: int)
    ensures Signed(|s|, v)
  {
    var u := FromBE(s);
    if 2 * u < Pow256(|s|) then u else u - Pow256(|s|)
  }

  lemma FromSBEWords(s: bytes, i: nat)
    ensures i + 4 <= |s| ==> FromSBE(s[i..i + 4]) == Wrap32(Be32(s, i))
    ensures i + 8 <= |s| ==> FromSBE(s[i..i + 8]) == Wrap64(Be64(s, i))
  {
    Widths();
    if i + 4 <= |s| { FromBEWords(s, i); WrapUnsigned(Be32(s, i), 0); }
    if i + 8 <= |s| { FromBELong(s, i); WrapUnsigned(0, Be64(s, i)); }
  }

  /** Reading the bits of an unsigned number with a sign. */
  lemma WrapUnsigned(u: nat, w: nat)
    ensures u < TWO32 ==> Wrap32(u) == if 2 * u < TWO32 then u else u - TWO32
    ensures w < TWO64 ==> Wrap64(w) == if 2 * w < TWO64 then w else w - TWO64
  {
  }

  lemma FromToSBE(n: nat, v: int)
    requires Signed(n, v)
    ensures FromSBE(ToSBE(n, v)) == v
  {
    FromToBE(n, if v < 0 then v + Pow256(n) else v);
  }

  lemma ToFromSBE(s: bytes)
    ensures ToSBE(|s|, FromSBE(s)) == s
  {
    ToFromBE(s);
  }
}
