/** Which merged lines keep the order of their numbers: exact bounds for the 32-bit percentile
    sums of a summary and for the unsigned division of a group. */
module LineOrder {
  import opened Bytes
  import opened Groups
  import opened Aggregate

  ghost predicate Between(vs: seq<Info>, lo: int, hi: int) {
    forall i | 0 <= i < |vs| :: lo <= vs[i].min && vs[i].max <= hi
  }

  /** The count and the sum are kept exactly. */
  predicate CountsFit(a: Acc) { IsInt32(a.count) && -TWO64 <= 2 * a.sum < TWO64 }

  /** `n` times every value from `lo` to `hi` is an `int32_t`. */
  predicate SumsFit(n: nat, lo: int, hi: int) { INT32_MIN <= lo * n && hi * n <= INT32_MAX }

  lemma OrderedCountsFit(vs: seq<Info>)
    requires vs != [] && AllOrdered(vs) && Total(vs, OfInfo).count <= INT32_MAX
    ensures CountsFit(Total(vs, OfInfo))
  {
    var a := Total(vs, OfInfo);
    OrderedTotal(vs);
    MulMono(INT32_MIN, a.min, a.count);
    MulMono(a.max, INT32_MAX, a.count);
  }

  lemma {:induction false} TotalBetween(vs: seq<Info>, lo: int, hi: int)
    requires vs != [] && AllOrdered(vs) && Between(vs, lo, hi)
    ensures lo <= Total(vs, OfInfo).min && Total(vs, OfInfo).max <= hi
  {
    var init, last := vs[..|vs| - 1], vs[|vs| - 1];
    if init == [] {
      OrderedOne(last);
    } else {
      TotalBetween(init, lo, hi);
    }
  }

  lemma SumsFitFewer(m: nat, n: nat, lo: int, hi: int)
    requires 1 <= m <= n && SumsFit(n, lo, hi)
    ensures SumsFit(m, lo, hi)
  {
    if lo < 0 {
      MulMono(m, n, -lo);
      assert m * (-lo) == -(lo * m) && n * (-lo) == -(lo * n);
    } else {
      MulMono(0, lo, m);
    }
    if hi >= 0 {
      MulMono(m, n, hi);
      assert m * hi == hi * m && n * hi == hi * n;
    } else {
      MulMono(hi, 0, m);
    }
  }

  /** Up to `n` ordered lines with values from `lo` to `hi` have an ordered summary. */
  lemma WithinOrdered(vs: seq<Info>, n: nat, lo: int, hi: int)
    requires 1 <= |vs| <= n && AllOrdered(vs) && Between(vs, lo, hi) && CountsFit(Total(vs, OfInfo)) && SumsFit(n, lo, hi)
    ensures Ordered(Summary(Total(vs, OfInfo)))
  {
    var a := Total(vs, OfInfo);
    OrderedTotal(vs);
    TotalLines(vs);
    TotalBetween(vs, lo, hi);
    SumsFitFewer(|vs|, n, lo, hi);
    ScaledBounds(lo, hi, a.min, a.max, a.n, a.p10);
    ScaledBounds(lo, hi, a.min, a.max, a.n, a.p90);
    assert Fits(a);
    hide *;
    SummaryOrdered(vs);
  }

  // ------------------------------------------------------------- lines of one value

  /** The line of one event. */
  function OneLine(v: int): Info { Info(0, [], 1, v, v, v, v, v, v, v) }

  function Copies(v: int, n: nat): (vs: seq<Info>)
    ensures |vs| == n && forall i | 0 <= i < n :: vs[i] == OneLine(v)
  {
    seq(n, _ => OneLine(v))
  }

  function CopiesAcc(v: int, n: nat): Acc { Acc(n, v * n, v, v, v * n, v * n, v * n, n) }

  lemma CopiesSnoc(v: int, m: nat)
    ensures Copies(v, m + 1) == Copies(v, m) + [OneLine(v)]
    ensures v * (m + 1) == v * m + v
    ensures m >= 1 ==> Plus(CopiesAcc(v, m), OfInfo(OneLine(v))) == CopiesAcc(v, m + 1)
  {
  }

  lemma CopiesOrdered(v: int, n: nat)
    requires IsInt32(v)
    ensures AllOrdered(Copies(v, n)) && (n == 1 ==> Plus(ZERO, OfInfo(OneLine(v))) == CopiesAcc(v, n))
  {
    assert Ordered(OneLine(v));
  }

  lemma NoCopies(v: int)
    ensures Total(Copies(v, 0), OfInfo) == ZERO
  {
  }

  lemma {:induction false} CopiesTotal(v: int, n: nat)
    requires n >= 1 && IsInt32(v)
    ensures AllOrdered(Copies(v, n)) && Total(Copies(v, n), OfInfo) == CopiesAcc(v, n)
  {
    hide *;
    var m := n - 1;
    CopiesOrdered(v, n);
    CopiesSnoc(v, m);
    TotalSnoc(Copies(v, m), OneLine(v), OfInfo);
    if m == 0 { NoCopies(v); } else { CopiesTotal(v, m); }
    assert Total(Copies(v, n), OfInfo) == CopiesAcc(v, n);
  }

  lemma CopiesFit(v: int, n: nat)
    requires 1 <= n <= INT32_MAX && IsInt32(v)
    ensures CountsFit(CopiesAcc(v, n))
  {
    MulMono(INT32_MIN, v, n);
    MulMono(v, INT32_MAX, n);
  }

  /** Copies of a value whose multiple is no `int32_t` have percentiles outside it. */
  lemma OverflowUnordered(v: int, n: nat)
    requires 1 <= n <= INT32_MAX && IsInt32(v) && !IsInt32(v * n)
    ensures !Ordered(Summary(CopiesAcc(v, n)))
  {
    var w := Wrap32(v * n);
    CopiesFit(v, n);
    if v > 0 {
      MulMono(0, v, n);
      BelowMean(w, v, n);
    } else {
      MulMono(v, 0, n);
      AboveMean(w, v, n);
    }
  }

  lemma BelowMean(w: int, v: int, n: nat)
    requires n > 0 && v > 0 && w < v * n
    ensures TruncDiv(w, n) < v
  {
    if w >= 0 { DivAdjoint(v, w, n); } else { DivAdjoint(0, -w, n); }
  }

  lemma AboveMean(w: int, v: int, n: nat)
    requires n > 0 && v <= 0 && v * n < w
    ensures v < TruncDiv(w, n) || v == 0
  {
    if v < 0 {
      MulNeg(v, n);
      if w >= 0 { DivAdjoint(0, w, n); } else { DivAdjoint(-v, -w, n); }
    }
  }

  // ------------------------------------------------------------- summaries

  /** Every summary of `n` ordered lines with values from `lo` to `hi`, of a count and a sum that
      are kept exactly, is ordered. */
  ghost predicate SummariesOrdered(n: nat, lo: int, hi: int) {
    forall vs | |vs| == n && AllOrdered(vs) && Between(vs, lo, hi) && CountsFit(Total(vs, OfInfo)) ::
      Ordered(Summary(Total(vs, OfInfo)))
  }

  /** The percentile sums are 32 bits wide, so summaries are ordered exactly when `n` times the
      values fit: otherwise `n` equal lines have percentiles below their minimum or above their
      maximum. */
  lemma SummaryOrderedIff(n: nat, lo: int, hi: int)
    requires 1 <= n <= INT32_MAX && INT32_MIN <= lo <= hi <= INT32_MAX
    ensures SummariesOrdered(n, lo, hi) <==> SumsFit(n, lo, hi)
  {
    if SumsFit(n, lo, hi) {
      forall vs | |vs| == n && AllOrdered(vs) && Between(vs, lo, hi) && CountsFit(Total(vs, OfInfo))
        ensures Ordered(Summary(Total(vs, OfInfo)))
      {
        WithinOrdered(vs, n, lo, hi);
      }
    } else {
      var v := if lo * n < INT32_MIN then lo else hi;
      MulMono(lo, hi, n);
      CopiesUnordered(v, n, lo, hi);
    }
  }

  lemma CopiesUnordered(v: int, n: nat, lo: int, hi: int)
    requires 1 <= n <= INT32_MAX && INT32_MIN <= lo <= v <= hi <= INT32_MAX && !IsInt32(v * n)
    ensures !SummariesOrdered(n, lo, hi)
  {
    CopiesTotal(v, n);
    CopiesFit(v, n);
    OverflowUnordered(v, n);
    assert Between(Copies(v, n), lo, hi);
  }

  // ------------------------------------------------------------- groups

  /** Every line of a group of `n` ordered lines with values from `lo` up, whose sums fit their
      accumulators, is ordered. */
  ghost predicate GroupsOrdered(n: nat, lo: int) {
    forall k, vs | |vs| == n && AllOrdered(vs) && Between(vs, lo, INT32_MAX) && Fits(Total(vs, OfInfo)) && Total(vs, OfInfo).n > 0 ::
      Ordered(GroupLine(k, Total(vs, OfInfo)))
  }

  lemma Divides(m: int, n: int, x: int)
    requires n > 0 && m * n == x
    ensures x % n == 0
  {
    DivAdjoint(m, x, n);
    DivAdjoint(m + 1, x, n);
    assert (m + 1) * n == x + n && x == n * (x / n) + x % n;
  }

  /** Only a multiple of 2^32 is the quotient of 2^64 by a divisor of 2^32. */
  lemma AlignedQuotient(m: int, n: int)
    requires 1 <= n <= INT32_MAX && (m * TWO32) * n <= TWO64 < (m * TWO32) * n + n
    ensures TWO32 % n == 0
  {
    assert (m * TWO32) * n == (m * n) * TWO32;
    assert m * n == TWO32;
    Divides(m, n, TWO32);
  }

  lemma WrapsToMinusOne(q: int) returns (m: int)
    requires Wrap32(q) == -1
    ensures q + 1 == m * TWO32
  {
    m := (q + 1) / TWO32;
  }

  lemma QuotientBounds(x: int, n: int)
    requires n > 0
    ensures (x / n + 1) * n - n <= x < (x / n + 1) * n
  {
    DivAdjoint(x / n, x, n);
    DivAdjoint(x / n + 1, x, n);
    assert (x / n + 1) * n == x / n * n + n;
  }

  lemma NegativeMean(n: int)
    requires 1 <= n <= INT32_MAX
    ensures UnsignedMean(-n, n) == Wrap32((TWO64 - n) / n)
  {
    assert (-n) % TWO64 == TWO64 - n;
  }

  /** Lines of value -1 are reported wrongly unless their number divides 2^32. */
  lemma MinusOnesMean(n: int)
    requires 1 <= n <= INT32_MAX && UnsignedMean(-n, n) == -1
    ensures TWO32 % n == 0
  {
    hide *;
    NegativeMean(n);
    var m := WrapsToMinusOne((TWO64 - n) / n);
    QuotientBounds(TWO64 - n, n);
    AlignedQuotient(m, n);
  }

  /** Lines of a group are ordered exactly when negative values cannot occur or the number of
      lines divides 2^32. */
  lemma GroupOrderedIff(n: nat, lo: int)
    requires 1 <= n <= INT32_MAX && IsInt32(lo)
    ensures GroupsOrdered(n, lo) <==> lo >= 0 || TWO32 % n == 0
  {
    if lo >= 0 || TWO32 % n == 0 {
      forall k, vs | |vs| == n && AllOrdered(vs) && Between(vs, lo, INT32_MAX) && Fits(Total(vs, OfInfo)) && Total(vs, OfInfo).n > 0
        ensures Ordered(GroupLine(k, Total(vs, OfInfo)))
      {
        var a := Total(vs, OfInfo);
        OrderedTotal(vs);
        TotalLines(vs);
        TotalBetween(vs, lo, INT32_MAX);
        if lo >= 0 { MulMono(0, a.min, a.n); }
        hide *;
        GroupOrdered(k, vs);
      }
    } else if GroupsOrdered(n, lo) {
      MinusOnesUnordered(n, lo);
    }
  }

  lemma MinusOnesUnordered(n: nat, lo: int)
    requires 1 <= n <= INT32_MAX && lo < 0 && GroupsOrdered(n, lo)
    ensures TWO32 % n == 0
  {
    var vs, a := Copies(-1, n), CopiesAcc(-1, n);
    assert Between(vs, lo, INT32_MAX) && Fits(a);
    CopiesTotal(-1, n);
    MinusOnesLine(n) by {
      hide *;
      assert Ordered(GroupLine(Time(0), a)) by { assert a.n > 0; assert Total(vs, OfInfo) == a; }
    }
  }

  lemma MinusOnesLine(n: int)
    requires 1 <= n <= INT32_MAX && Ordered(GroupLine(Time(0), CopiesAcc(-1, n)))
    ensures TWO32 % n == 0
  {
    assert Wrap32(-1 * n) == -n;
    MinusOnesMean(n);
  }
}
