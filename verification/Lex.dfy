/** The order LevelDB keeps its keys in: bytewise, a proper prefix first. */
module Lex {
  import opened Bytes

  predicate Le(a: bytes, b: bytes) {
    a == [] || (b != [] && (a[0] < b[0] || (a[0] == b[0] && Le(a[1..], b[1..]))))
  }

  predicate Lt(a: bytes, b: bytes) { !Le(b, a) }

  lemma {:induction false} Total(a: bytes, b: bytes)
    ensures Le(a, b) || Le(b, a)
    ensures Le(a, b) && Le(b, a) <==> a == b
  {
    if a != [] && b != [] {
      Total(a[1..], b[1..]);
      if Le(a, b) && Le(b, a) { assert a == [a[0]] + a[1..] && b == [b[0]] + b[1..]; }
    }
  }

  lemma {:induction false} Trans(a: bytes, b: bytes, c: bytes)
    requires Le(a, b) && Le(b, c)
    ensures Le(a, c)
  {
    if a != [] && a[0] == b[0] && b[0] == c[0] {
      Trans(a[1..], b[1..], c[1..]);
    }
  }

  lemma LtLe(a: bytes, b: bytes, c: bytes)
    requires Lt(a, b) && Le(b, c)
    ensures Lt(a, c) && Le(a, b) && a != b
  {
    Total(a, b);
    if Le(c, a) { Trans(b, c, a); }
  }

  lemma LeLt(a: bytes, b: bytes, c: bytes)
    requires Le(a, b) && Lt(b, c)
    ensures Lt(a, c)
  {
    if Le(c, a) { Trans(c, a, b); }
  }

  /** A common prefix does not matter. */
  lemma {:induction false} Prefix(p: bytes, a: bytes, b: bytes)
    ensures Le(p + a, p + b) <==> Le(a, b)
  {
    if p == [] {
      assert p + a == a && p + b == b;
    } else {
      Prefix(p[1..], a, b);
      assert (p + a)[1..] == p[1..] + a && (p + b)[1..] == p[1..] + b;
    }
  }

  /** Two different strings of one length decide the order whatever follows them. */
  lemma {:induction false} Decided(p: bytes, q: bytes, a: bytes, b: bytes)
    requires |p| == |q| && p != q
    ensures Le(p + a, q + b) <==> Le(p, q)
  {
    assert (p + a)[0] == p[0] && (q + b)[0] == q[0];
    if p[0] == q[0] {
      assert (p + a)[1..] == p[1..] + a && (q + b)[1..] == q[1..] + b;
      assert p[1..] != q[1..] by { assert p == [p[0]] + p[1..] && q == [q[0]] + q[1..]; }
      Decided(p[1..], q[1..], a, b);
    }
  }

  /** The keys between `p + [c] + ...` and `p + [c + 1]` are those that start with `p + [c]`. */
  lemma {:induction false} Between(p: bytes, c: byte, x: bytes, k: bytes)
    requires c < 255
    requires Le(p + [c] + x, k) && Lt(k, p + [c + 1])
    ensures |p| < |k| && k[..|p|] == p && k[|p|] == c
  {
    if p == [] {
      var hi := p + [c + 1];
      assert (p + [c] + x)[0] == c && hi[0] == c + 1 && hi[1..] == [];
      assert Le(hi[1..], k[1..]);
    } else {
      assert (p + [c] + x)[1..] == p[1..] + [c] + x && (p + [c + 1])[1..] == p[1..] + [c + 1];
      assert (p + [c] + x)[0] == p[0] == (p + [c + 1])[0];
      Between(p[1..], c, x, k[1..]);
      assert k[..|p|] == [k[0]] + k[1..][..|p| - 1];
    }
  }

  /** Conversely every key that starts with `p + [c]` is below `p + [c + 1]`. */
  lemma StartsBelow(p: bytes, c: byte, k: bytes)
    requires c < 255
    requires |p| < |k| && k[..|p|] == p && k[|p|] == c
    ensures Lt(k, p + [c + 1])
  {
    assert k == p + k[|p|..];
    Prefix(p, [c + 1], k[|p|..]);
  }
}

/** Decimal text of a number, its order, and `atoll`. */
module Decimal {
  import opened Bytes
  import Lex

  const DIGIT0: byte := 0x30

  function Dec(n: nat): (s: bytes)
    ensures s != [] && forall i | 0 <= i < |s| :: DIGIT0 <= s[i] <= DIGIT0 + 9
  {
    if n < 10 then [DIGIT0 + n] else Dec(n / 10) + [DIGIT0 + n % 10]
  }

  function Pow10(k: nat): (p: nat)
    ensures p > 0
  {
    if k == 0 then 1 else 10 * Pow10(k - 1)
  }

  lemma {:induction false} DecLength(n: nat, k: nat)
    requires k >= 1
    requires n < Pow10(k) && (k > 1 ==> Pow10(k - 1) <= n)
    ensures |Dec(n)| == k
  {
    if k == 1 {
      assert Pow10(1) == 10 * Pow10(0);
    } else {
      assert Pow10(k) == 10 * Pow10(k - 1) && Pow10(k - 1) == 10 * Pow10(k - 2);
      DecLength(n / 10, k - 1);
    }
  }

  /** For texts of one length the bytewise order is the numeric order. */
  lemma {:induction false} DecOrder(a: nat, b: nat)
    requires |Dec(a)| == |Dec(b)|
    ensures Lex.Le(Dec(a), Dec(b)) <==> a <= b
    ensures Dec(a) == Dec(b) <==> a == b
  {
    if a >= 10 && b >= 10 {
      DecOrder(a / 10, b / 10);
      if a / 10 == b / 10 {
        Lex.Prefix(Dec(a / 10), [DIGIT0 + a % 10], [DIGIT0 + b % 10]);
        assert Dec(a)[|Dec(a)| - 1] == DIGIT0 + a % 10 && Dec(b)[|Dec(b)| - 1] == DIGIT0 + b % 10;
      } else {
        Lex.Decided(Dec(a / 10), Dec(b / 10), [DIGIT0 + a % 10], [DIGIT0 + b % 10]);
        assert Dec(a)[..|Dec(a)| - 1] == Dec(a / 10) && Dec(b)[..|Dec(b)| - 1] == Dec(b / 10);
      }
    }
  }

  /** The same with tails: numbers decide first, equal numbers leave it to the tails. */
  lemma DecOrderTail(a: nat, x: bytes, b: nat, y: bytes)
    requires |Dec(a)| == |Dec(b)|
    ensures Lex.Le(Dec(a) + x, Dec(b) + y) <==> a < b || (a == b && Lex.Le(x, y))
  {
    DecOrder(a, b);
    if a == b {
      Lex.Prefix(Dec(a), x, y);
    } else {
      Lex.Decided(Dec(a), Dec(b), x, y);
    }
  }

  lemma DecBelow(a: nat, x: bytes, b: nat)
    requires |Dec(a)| == |Dec(b)| && x != []
    ensures Lex.Le(Dec(a) + x, Dec(b)) <==> a < b
  {
    DecOrderTail(a, x, b, []);
    assert Dec(b) + [] == Dec(b);
  }

  lemma DecBelowLonger(a: nat, x: bytes, b: nat, y: bytes)
    requires |Dec(a)| == |Dec(b)| && x != [] && y != [] && x[0] < y[0]
    ensures Lex.Le(Dec(a) + x, Dec(b) + y) <==> a <= b
  {
    DecOrderTail(a, x, b, y);
  }

  /** The number written by the first ten digits of `n`. */
  function LeadingTen(n: nat): (r: nat)
    ensures r < 10_000_000_000
    ensures n < 10_000_000_000 ==> r == n
    ensures n >= 1_000_000_000 ==> r >= 1_000_000_000
  {
    if n < 10_000_000_000 then n else LeadingTen(n / 10)
  }

  lemma {:induction false} LeadingTenText(n: nat) returns (rest: bytes)
    requires n >= 10_000_000_000
    ensures Dec(n) == Dec(LeadingTen(n)) + rest && rest != [] && DIGIT0 <= rest[0]
  {
    if n / 10 < 10_000_000_000 {
      rest := [DIGIT0 + n % 10];
    } else {
      var r := LeadingTenText(n / 10);
      rest := r + [DIGIT0 + n % 10];
      assert Dec(LeadingTen(n)) + rest == Dec(LeadingTen(n)) + r + [DIGIT0 + n % 10];
    }
  }

  predicate IsDigit(c: byte) { DIGIT0 <= c <= DIGIT0 + 9 }
  predicate IsSpace(c: byte) { c == 0x20 || 0x09 <= c <= 0x0d }

  /** `atoll`: leading blanks, an optional sign, then digits up to the first other byte. */
  function Atoll(s: bytes): int {
    if s != [] && IsSpace(s[0]) then Atoll(s[1..])
    else if s != [] && s[0] == 0x2d then 0 - Digits(s[1..], 0)
    else if s != [] && s[0] == 0x2b then Digits(s[1..], 0)
    else Digits(s, 0)
  }

  function Digits(s: bytes, acc: nat): nat {
    if s == [] || !IsDigit(s[0]) then acc else Digits(s[1..], 10 * acc + (s[0] - DIGIT0))
  }

  lemma {:induction false} DigitsAppend(s: bytes, c: byte, acc: nat)
    requires forall i | 0 <= i < |s| :: IsDigit(s[i])
    requires IsDigit(c)
    ensures Digits(s + [c], acc) == 10 * Digits(s, acc) + (c - DIGIT0)
  {
    if s == [] {
      assert (s + [c])[1..] == [];
    } else {
      assert (s + [c])[1..] == s[1..] + [c];
      DigitsAppend(s[1..], c, 10 * acc + (s[0] - DIGIT0));
    }
  }

  lemma {:induction false} DigitsDec(n: nat)
    ensures Digits(Dec(n), 0) == n
  {
    if n < 10 {
      assert Dec(n)[1..] == [];
    } else {
      DigitsDec(n / 10);
      DigitsAppend(Dec(n / 10), DIGIT0 + n % 10, 0);
    }
  }

  lemma AtollDec(n: nat)
    ensures Atoll(Dec(n)) == n
  {
    DigitsDec(n);
  }
}
