/** What merged lines report, told from the fields of the lines themselves. */
module Means {
  import opened Bytes
  import opened Groups
  import opened Aggregate

  // ------------------------------------------------------------- sums and means

  function CountOf(i: Info): int { i.count }
  function SumOf(i: Info): int { i.sum }
  function P10Of(i: Info): int { i.p10 }
  function P50Of(i: Info): int { i.p50 }
  function P90Of(i: Info): int { i.p90 }

  function FieldSum(vs: seq<Info>, f: Info -> int): int {
    if vs == [] then 0 else FieldSum(vs[..|vs| - 1], f) + f(vs[|vs| - 1])
  }

  /** `q` is `sum / n` rounded toward zero. */
  predicate TruncatedMean(q: int, sum: int, n: int) {
    n > 0 && if sum >= 0 then q * n <= sum < q * n + n else q * n - n < sum <= q * n
  }

  /** `q` is `sum / n` rounded down. */
  predicate FloorMean(q: int, sum: int, n: int) { n > 0 && q * n <= sum < q * n + n }

  lemma TruncDivMean(a: int, n: int)
    requires n > 0
    ensures TruncatedMean(TruncDiv(a, n), a, n)
  {
    var b := if a >= 0 then a else -a;
    DivAdjoint(b / n, b, n);
    DivAdjoint(b / n + 1, b, n);
    assert (b / n + 1) * n == b / n * n + n;
    MulNeg(b / n, n);
  }

  /** A division by a negative count is that of the negated sum. */
  lemma TruncDivNegative(a: int, n: int)
    requires n < 0
    ensures TruncDiv(a, n) == TruncDiv(-a, -n)
  {
  }

  lemma FloorDivMean(a: int, n: int)
    requires n > 0
    ensures FloorMean(a / n, a, n)
  {
    DivAdjoint(a / n, a, n);
    DivAdjoint(a / n + 1, a, n);
    assert (a / n + 1) * n == a / n * n + n;
  }

  /** The least minimum and the greatest maximum of the lines; the ends of `int32_t` where no
      line reaches beyond them. */
  ghost predicate Extremes(vs: seq<Info>, min: int, max: int) {
    && (forall i | 0 <= i < |vs| :: min <= vs[i].min && vs[i].max <= max)
    && (min == INT32_MAX || exists i :: 0 <= i < |vs| && vs[i].min == min)
    && (max == INT32_MIN || exists i :: 0 <= i < |vs| && vs[i].max == max)
  }

  lemma ExtremesSnoc(vs: seq<Info>, v: Info, min: int, max: int)
    requires Extremes(vs, min, max)
    ensures Extremes(vs + [v], Min(min, v.min), Max(max, v.max))
  {
    var ws, lo, hi := vs + [v], Min(min, v.min), Max(max, v.max);
    assert ws[|vs|] == v;
    if lo != INT32_MAX {
      if lo == v.min { assert ws[|vs|].min == lo; } else { var i :| 0 <= i < |vs| && vs[i].min == min; assert ws[i].min == lo; }
    }
    if hi != INT32_MIN {
      if hi == v.max { assert ws[|vs|].max == hi; } else { var i :| 0 <= i < |vs| && vs[i].max == max; assert ws[i].max == hi; }
    }
  }

  /** The totals are the sums of the fields. */
  ghost predicate Totals(a: Acc, vs: seq<Info>) {
    && a.n == |vs| && a.count == FieldSum(vs, CountOf) && a.sum == FieldSum(vs, SumOf)
    && a.p10 == FieldSum(vs, P10Of) && a.p50 == FieldSum(vs, P50Of) && a.p90 == FieldSum(vs, P90Of)
    && Extremes(vs, a.min, a.max)
  }

  lemma FieldSumSnoc(vs: seq<Info>, v: Info, f: Info -> int)
    ensures FieldSum(vs + [v], f) == FieldSum(vs, f) + f(v)
  {
    assert (vs + [v])[..|vs|] == vs;
  }

  lemma {:induction false} TotalIsSums(vs: seq<Info>)
    ensures Totals(Total(vs, OfInfo), vs)
  {
    if vs != [] {
      var init, v := vs[..|vs| - 1], vs[|vs| - 1];
      assert vs == init + [v];
      TotalIsSums(init);
      TotalSnoc(init, v, OfInfo);
      ExtremesSnoc(init, v, Total(init, OfInfo).min, Total(init, OfInfo).max);
      hide Total; hide Extremes;
      FieldSumSnoc(init, v, CountOf);
      FieldSumSnoc(init, v, SumOf);
      FieldSumSnoc(init, v, P10Of);
      FieldSumSnoc(init, v, P50Of);
      FieldSumSnoc(init, v, P90Of);
    }
  }

  // ------------------------------------------------------------- the summary

  /** The average of a sum and a count in the program's integers. */
  ghost predicate IsAverage(avg: int, sum: int, count: int) {
    exists q :: TruncatedMean(q, if count > 0 then sum else -sum, if count > 0 then count else -count) && avg == Wrap32(q)
  }

  /** A line tells of `vs`: counts and sums as far as 32 and 64 bits go, the truncated means of
      sum and percentiles, the extremes. Without a count there is nothing to divide by. */
  ghost predicate Tells(s: Info, vs: seq<Info>) {
    && s.count == Wrap32(FieldSum(vs, CountOf)) && s.sum == Wrap64(FieldSum(vs, SumOf))
    && if s.count != 0 && vs != [] then
        && IsAverage(s.avg, s.sum, s.count) && Extremes(vs, s.min, s.max)
        && TruncatedMean(s.p10, Wrap32(FieldSum(vs, P10Of)), |vs|)
        && TruncatedMean(s.p50, Wrap32(FieldSum(vs, P50Of)), |vs|)
        && TruncatedMean(s.p90, Wrap32(FieldSum(vs, P90Of)), |vs|)
      else
        && s.avg == s.min == s.max == 0
        && s.p10 == Wrap32(FieldSum(vs, P10Of)) && s.p50 == Wrap32(FieldSum(vs, P50Of)) && s.p90 == Wrap32(FieldSum(vs, P90Of))
  }

  lemma AverageOf(sum: int, count: int)
    requires count != 0
    ensures IsAverage(Wrap32(TruncDiv(sum, count)), sum, count)
  {
    var q := TruncDiv(sum, count);
    if count > 0 {
      TruncDivMean(sum, count);
    } else {
      TruncDivNegative(sum, count);
      TruncDivMean(-sum, -count);
    }
    assert TruncatedMean(q, if count > 0 then sum else -sum, if count > 0 then count else -count);
  }

  /** The summary of any lines tells of them. */
  lemma SummaryTells(vs: seq<Info>)
    ensures Tells(Summary(Total(vs, OfInfo)), vs)
  {
    var a := Total(vs, OfInfo);
    TotalIsSums(vs);
    hide Total; hide FieldSum; hide Extremes; hide TruncatedMean; hide TruncDiv; hide IsAverage; hide Wrap32; hide Wrap64;
    if Wrap32(a.count) != 0 && a.n != 0 {
      AverageOf(Wrap64(a.sum), Wrap32(a.count));
      TruncDivMean(Wrap32(a.p10), a.n);
      TruncDivMean(Wrap32(a.p50), a.n);
      TruncDivMean(Wrap32(a.p90), a.n);
    }
  }

  /** With percentile sums of 32 bits and a count: each percentile is the truncated mean of the
      percentiles of the lines. */
  lemma PercentileMeans(vs: seq<Info>)
    requires vs != [] && Wrap32(FieldSum(vs, CountOf)) != 0
    requires IsInt32(FieldSum(vs, P10Of)) && IsInt32(FieldSum(vs, P50Of)) && IsInt32(FieldSum(vs, P90Of))
    ensures var s := Summary(Total(vs, OfInfo));
      && TruncatedMean(s.p10, FieldSum(vs, P10Of), |vs|)
      && TruncatedMean(s.p50, FieldSum(vs, P50Of), |vs|)
      && TruncatedMean(s.p90, FieldSum(vs, P90Of), |vs|)
  {
    SummaryTells(vs);
    hide Summary; hide Total; hide TruncatedMean; hide FieldSum;
  }

  // ------------------------------------------------------------- the line of a group

  /** The number whose 64-bit pattern is that of `p`, read without a sign. */
  function Unsigned64(p: int): int { if p >= 0 then p else p + TWO64 }

  /** A percentile of a group: the 32-bit sum, read without a sign, divided and cut to 32 bits. */
  ghost predicate UnsignedQuotient(r: int, p: int, n: int) { exists q :: FloorMean(q, Unsigned64(p), n) && r == Wrap32(q) }

  /** A line of a group tells of `vs`, with its percentiles divided as unsigned numbers. */
  ghost predicate TellsGroup(s: Info, vs: seq<Info>) {
    && s.count == Wrap32(FieldSum(vs, CountOf)) && s.sum == Wrap64(FieldSum(vs, SumOf))
    && if s.count > 0 then
        && IsAverage(s.avg, s.sum, s.count) && Extremes(vs, s.min, s.max)
        && UnsignedQuotient(s.p10, Wrap32(FieldSum(vs, P10Of)), |vs|)
        && UnsignedQuotient(s.p50, Wrap32(FieldSum(vs, P50Of)), |vs|)
        && UnsignedQuotient(s.p90, Wrap32(FieldSum(vs, P90Of)), |vs|)
      else
        && s.avg == s.min == s.max == 0
        && s.p10 == Wrap32(FieldSum(vs, P10Of)) && s.p50 == Wrap32(FieldSum(vs, P50Of)) && s.p90 == Wrap32(FieldSum(vs, P90Of))
  }

  lemma UnsignedMeanQuotient(p: int, n: nat)
    requires IsInt32(p) && n > 0
    ensures UnsignedQuotient(UnsignedMean(p, n), p, n)
  {
    assert p % TWO64 == Unsigned64(p);
    FloorDivMean(p % TWO64, n);
    assert FloorMean((p % TWO64) / n, Unsigned64(p), n);
  }

  lemma GroupTells(k: Key, vs: seq<Info>)
    requires vs != []
    ensures var a := Total(vs, OfInfo);
      a.n > 0 && TellsGroup(GroupLine(k, a), vs)
      && GroupLine(k, a).ts == (if k.Time? then k.t else 0) && GroupLine(k, a).tag == if k.Name? then k.s else []
  {
    var a := Total(vs, OfInfo);
    TotalIsSums(vs);
    hide Total; hide FieldSum; hide Extremes; hide UnsignedQuotient; hide UnsignedMean; hide TruncDiv; hide IsAverage; hide Wrap32; hide Wrap64;
    if Wrap32(a.count) > 0 {
      AverageOf(Wrap64(a.sum), Wrap32(a.count));
      UnsignedMeanQuotient(Wrap32(a.p10), a.n);
      UnsignedMeanQuotient(Wrap32(a.p50), a.n);
      UnsignedMeanQuotient(Wrap32(a.p90), a.n);
    }
  }

  /** For sums that are not negative the quotient is the truncated mean. */
  lemma QuotientIsMean(r: int, p: int, n: int)
    requires UnsignedQuotient(r, p, n) && 0 <= p <= INT32_MAX
    ensures TruncatedMean(r, p, n)
  {
    var q :| FloorMean(q, p, n) && r == Wrap32(q);
    DivAdjoint(q, p, n);
    DivAdjoint(q + 1, p, n);
    assert (q + 1) * n == q * n + n;
    FloorIsInt32(p, n);
  }
}
