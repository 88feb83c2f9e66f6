/** The running totals kept while records are merged, and what is reported from them. */
module Aggregate {
  import opened Bytes
  import opened Groups

  /** One line of statistics: a stored record, a group, or the summary. */
  datatype Info = Info(
    ts: int, tag: bytes,
    count: int, sum: int, avg: int,
    min: int, max: int, p10: int, p50: int, p90: int)

  /** Exact (unbounded) totals over merged lines; `n` counts the lines. */
  datatype Acc = Acc(count: int, sum: int, min: int, max: int, p10: int, p50: int, p90: int, n: nat)

  const ZERO: Acc := Acc(0, 0, INT32_MAX, INT32_MIN, 0, 0, 0, 0)

  function Min(a: int, b: int): int { if b < a then b else a }
  function Max(a: int, b: int): int { if b > a then b else a }

  function Plus(a: Acc, b: Acc): Acc {
    Acc(a.count + b.count, a.sum + b.sum, Min(a.min, b.min), Max(a.max, b.max),
        a.p10 + b.p10, a.p50 + b.p50, a.p90 + b.p90, a.n + b.n)
  }

  function OfInfo(i: Info): Acc { Acc(i.count, i.sum, i.min, i.max, i.p10, i.p50, i.p90, 1) }

  /** Totals of a sequence, merged from left to right. */
  function Total<V>(vs: seq<V>, f: V -> Acc): (t: Acc)
    ensures t.min <= INT32_MAX && t.max >= INT32_MIN
  {
    if vs == [] then ZERO else Plus(Total(vs[..|vs| - 1], f), f(vs[|vs| - 1]))
  }

  lemma {:induction false} TotalConcat<V>(a: seq<V>, b: seq<V>, f: V -> Acc)
    ensures Total(a + b, f) == Plus(Total(a, f), Total(b, f))
  {
    if b == [] {
      assert a + b == a;
    } else {
      var init, last := b[..|b| - 1], b[|b| - 1];
      assert a + b == (a + init) + [last] && b == init + [last];
      hide *;
      TotalConcat(a, init, f);
      TotalSnoc(a + init, last, f);
      TotalSnoc(init, last, f);
      PlusAssoc(Total(a, f), Total(init, f), f(last));
    }
  }

  lemma TotalSnoc<V>(a: seq<V>, x: V, f: V -> Acc)
    ensures Total(a + [x], f) == Plus(Total(a, f), f(x))
  {
    assert (a + [x])[..|a|] == a;
  }

  lemma PlusAssoc(a: Acc, b: Acc, c: Acc)
    ensures Plus(Plus(a, b), c) == Plus(a, Plus(b, c))
    ensures Plus(a, b) == Plus(b, a)
  {
  }

  lemma {:induction false} TotalLines(vs: seq<Info>)
    ensures Total(vs, OfInfo).n == |vs|
  {
    if vs != [] { TotalLines(vs[..|vs| - 1]); }
  }

  /** Totals of all groups of a map. */
  function GroupsTotal<V>(gs: seq<Group<V>>, f: V -> Acc): (t: Acc)
    ensures t.min <= INT32_MAX && t.max >= INT32_MIN
  {
    if gs == [] then ZERO else Plus(Total(gs[0].items, f), GroupsTotal(gs[1..], f))
  }

  lemma {:induction false} PushTotal<V>(gs: seq<Group<V>>, k: Key, v: V, f: V -> Acc)
    ensures GroupsTotal(Push(gs, k, v), f) == Plus(GroupsTotal(gs, f), f(v))
  {
    var r := Push(gs, k, v);
    if gs == [] || KeyLt(k, gs[0].key) {
      assert r[1..] == gs;
      TotalSnoc([], v, f);
      assert [] + [v] == [v];
      FirstOne(GroupsTotal(gs, f), f(v));
    } else if gs[0].key == k {
      assert r[1..] == gs[1..];
      TotalSnoc(gs[0].items, v, f);
      InnerOne(Total(gs[0].items, f), GroupsTotal(gs[1..], f), f(v));
    } else {
      assert r[1..] == Push(gs[1..], k, v);
      PushTotal(gs[1..], k, v, f);
      PlusAssoc(Total(gs[0].items, f), GroupsTotal(gs[1..], f), f(v));
    }
  }

  lemma FirstOne(a: Acc, x: Acc)
    requires a.min <= INT32_MAX && a.max >= INT32_MIN
    ensures Plus(Plus(ZERO, x), a) == Plus(a, x)
  {
  }

  lemma InnerOne(a: Acc, b: Acc, x: Acc)
    ensures Plus(Plus(a, x), b) == Plus(Plus(a, b), x)
  {
  }

  /** Grouping loses nothing: the group totals add up to the total of all lines, whatever
      the grouping key. */
  lemma {:induction false} GroupsAddUp<V>(vs: seq<V>, key: V -> Key, f: V -> Acc)
    ensures GroupsTotal(Build(vs, key), f) == Total(vs, f)
  {
    if vs != [] {
      var init, last := vs[..|vs| - 1], vs[|vs| - 1];
      GroupsAddUp(init, key, f);
      PushTotal(Build(init, key), key(last), last, f);
    }
  }

  // ------------------------------------------------------------ reported lines

  /** The summary line made from the totals; the accumulators are 32- and 64-bit. */
  function Summary(a: Acc): Info {
    var count, sum := Wrap32(a.count), Wrap64(a.sum);
    if count != 0 && a.n != 0 then
      Info(0, [], count, sum, Wrap32(TruncDiv(sum, count)), a.min, a.max,
           TruncDiv(Wrap32(a.p10), a.n), TruncDiv(Wrap32(a.p50), a.n), TruncDiv(Wrap32(a.p90), a.n))
    else
      Info(0, [], count, sum, 0, 0, 0, Wrap32(a.p10), Wrap32(a.p50), Wrap32(a.p90))
  }

  /** `int32_t / size_t` assigned to an `int32_t`: the dividend is converted to 64 bits unsigned. */
  function UnsignedMean(p: int, n: nat): int
    requires n > 0
  {
    Wrap32((p % TWO64) / n)
  }

  /** The line of one group made from its totals. */
  function GroupLine(k: Key, a: Acc): Info
    requires a.n > 0
  {
    var ts, tag := if k.Time? then k.t else 0, if k.Name? then k.s else [];
    var count, sum := Wrap32(a.count), Wrap64(a.sum);
    if count > 0 then
      Info(ts, tag, count, sum, Wrap32(TruncDiv(sum, count)), a.min, a.max,
           UnsignedMean(Wrap32(a.p10), a.n), UnsignedMean(Wrap32(a.p50), a.n), UnsignedMean(Wrap32(a.p90), a.n))
    else
      Info(ts, tag, count, sum, 0, 0, 0, Wrap32(a.p10), Wrap32(a.p50), Wrap32(a.p90))
  }

  // ------------------------------------------------------------------ ordering

  /** The inequalities a line of statistics about real data satisfies. */
  predicate Ordered(i: Info) {
    && i.count >= 1
    && i.min <= i.p10 <= i.p50 <= i.p90 <= i.max
    && i.min <= i.avg <= i.max
    && i.min * i.count <= i.sum <= i.max * i.count
    && IsInt32(i.min) && IsInt32(i.max)
  }

  /** The sums fit the accumulators they are kept in. */
  predicate Fits(a: Acc) {
    && IsInt32(a.count) && -TWO64 <= 2 * a.sum < TWO64
    && IsInt32(a.p10) && IsInt32(a.p50) && IsInt32(a.p90)
  }

  predicate OrderedAcc(a: Acc) {
    && 1 <= a.n <= a.count
    && a.min * a.count <= a.sum <= a.max * a.count
    && a.min * a.n <= a.p10 <= a.p50 <= a.p90 <= a.max * a.n
    && IsInt32(a.min) && IsInt32(a.max)
  }

  lemma OrderedOne(i: Info)
    requires Ordered(i)
    ensures OrderedAcc(OfInfo(i)) && Plus(ZERO, OfInfo(i)) == OfInfo(i)
  {
  }

  lemma ScaledBounds(lo: int, hi: int, lo1: int, hi1: int, n1: int, s1: int)
    requires lo <= lo1 && hi1 <= hi && n1 >= 0 && lo1 * n1 <= s1 <= hi1 * n1
    ensures lo * n1 <= s1 <= hi * n1
  {
    MulMono(lo, lo1, n1);
    MulMono(hi1, hi, n1);
  }

  lemma MergedBounds(a: Acc, b: Acc, n1: int, s1: int, n2: int, s2: int)
    requires n1 >= 0 && a.min * n1 <= s1 <= a.max * n1
    requires n2 >= 0 && b.min * n2 <= s2 <= b.max * n2
    ensures Plus(a, b).min * (n1 + n2) <= s1 + s2 <= Plus(a, b).max * (n1 + n2)
  {
    var lo, hi := Min(a.min, b.min), Max(a.max, b.max);
    ScaledBounds(lo, hi, a.min, a.max, n1, s1);
    ScaledBounds(lo, hi, b.min, b.max, n2, s2);
    assert lo * (n1 + n2) == lo * n1 + lo * n2 && hi * (n1 + n2) == hi * n1 + hi * n2;
  }

  lemma OrderedPlus(a: Acc, b: Acc)
    requires OrderedAcc(a) && OrderedAcc(b)
    ensures OrderedAcc(Plus(a, b))
  {
    MergedBounds(a, b, a.count, a.sum, b.count, b.sum);
    MergedBounds(a, b, a.n, a.p10, b.n, b.p10);
    MergedBounds(a, b, a.n, a.p90, b.n, b.p90);
  }

  ghost predicate AllOrdered(vs: seq<Info>) { forall i | 0 <= i < |vs| :: Ordered(vs[i]) }

  lemma {:induction false} OrderedTotal(vs: seq<Info>)
    requires vs != [] && AllOrdered(vs)
    ensures OrderedAcc(Total(vs, OfInfo))
  {
    var last := vs[|vs| - 1];
    OrderedOne(last);
    if |vs| > 1 {
      OrderedTotal(vs[..|vs| - 1]);
      OrderedPlus(Total(vs[..|vs| - 1], OfInfo), OfInfo(last));
    } else {
      assert vs[..|vs| - 1] == [];
    }
  }

  /** Merging ordered lines gives an ordered line again: the truncated averages of the
      summary stay between minimum and maximum and keep the order of the percentiles. */
  lemma SummaryOrdered(vs: seq<Info>)
    requires vs != [] && AllOrdered(vs)
    requires Fits(Total(vs, OfInfo))
    ensures Ordered(Summary(Total(vs, OfInfo)))
  {
    var a := Total(vs, OfInfo);
    OrderedTotal(vs);
    TruncDivBounds(a.sum, a.count, a.min, a.max);
    MeansOrdered(a);
  }

  lemma MeansOrdered(a: Acc)
    requires OrderedAcc(a)
    ensures a.min <= TruncDiv(a.p10, a.n) <= TruncDiv(a.p50, a.n) <= TruncDiv(a.p90, a.n) <= a.max
  {
    ScaledBounds(a.min, a.max, a.min, a.max, a.n, a.p10);
    TruncDivBounds(a.p10, a.n, a.min, a.max);
    TruncDivBounds(a.p90, a.n, a.min, a.max);
    TruncDivMonotone(a.p10, a.p50, a.n);
    TruncDivMonotone(a.p50, a.p90, a.n);
  }

  /** The same for a group, whose percentile sums are divided as unsigned numbers: that is the
      mean when they are not negative, and the floor of the mean when the number of lines
      divides 2^32. */
  lemma GroupOrdered(k: Key, vs: seq<Info>)
    requires vs != [] && AllOrdered(vs)
    requires Fits(Total(vs, OfInfo))
    requires Total(vs, OfInfo).p10 >= 0 || TWO32 % |vs| == 0
    ensures Ordered(GroupLine(k, Total(vs, OfInfo)))
  {
    var a := Total(vs, OfInfo);
    OrderedTotal(vs);
    TotalLines(vs);
    TruncDivBounds(a.sum, a.count, a.min, a.max);
    if a.p10 >= 0 {
      MeansOrdered(a);
      UnsignedMeanRight(a.p10, a.n);
      UnsignedMeanRight(a.p50, a.n);
      UnsignedMeanRight(a.p90, a.n);
    } else {
      FloorsOrdered(a);
      UnsignedMeanFloor(a.p10, a.n);
      UnsignedMeanFloor(a.p50, a.n);
      UnsignedMeanFloor(a.p90, a.n);
    }
  }

  lemma FloorsOrdered(a: Acc)
    requires OrderedAcc(a)
    ensures a.min <= a.p10 / a.n <= a.p50 / a.n <= a.p90 / a.n <= a.max
  {
    DivAdjoint(a.min, a.p10, a.n);
    DivAdjoint(a.p10 / a.n, a.p10, a.n);
    DivAdjoint(a.p10 / a.n, a.p50, a.n);
    DivAdjoint(a.p50 / a.n, a.p50, a.n);
    DivAdjoint(a.p50 / a.n, a.p90, a.n);
    DivAdjoint(a.max + 1, a.p90, a.n);
    assert (a.max + 1) * a.n == a.max * a.n + a.n;
  }

  lemma DivShift(p: int, d: int, n: nat)
    requires n > 0
    ensures (p + d * n) / n == p / n + d
  {
    var q := p / n;
    DivAdjoint(q, p, n);
    DivAdjoint(q + 1, p, n);
    DivAdjoint(q + d, p + d * n, n);
    DivAdjoint(q + d + 1, p + d * n, n);
    assert (q + d) * n == q * n + d * n && (q + d + 1) * n == (q + 1) * n + d * n;
  }

  /** With a number of lines that divides 2^32 the unsigned division rounds down. */
  lemma UnsignedMeanFloor(p: int, n: nat)
    requires IsInt32(p) && n > 0 && TWO32 % n == 0
    ensures UnsignedMean(p, n) == p / n
  {
    var d := TWO32 / n;
    assert TWO32 == d * n;
    FloorIsInt32(p, n);
    if p < 0 {
      assert p % TWO64 == p + TWO64 && TWO64 == (d * TWO32) * n;
      DivShift(p, d * TWO32, n);
      WrapUnique(p / n + d * TWO32, p / n, -d);
    } else {
      assert p % TWO64 == p;
    }
  }

  lemma FloorIsInt32(p: int, n: nat)
    requires IsInt32(p) && n > 0
    ensures IsInt32(p / n)
  {
    DivAdjoint(INT32_MIN, p, n);
    DivAdjoint(INT32_MAX + 1, p, n);
    MulMono(1, n, INT32_MAX + 1);
    assert INT32_MIN * n == -((INT32_MAX + 1) * n) && n * (INT32_MAX + 1) == (INT32_MAX + 1) * n;
  }

  lemma UnsignedMeanRight(p: int, n: nat)
    requires IsInt32(p) && n > 0 && p >= 0
    ensures UnsignedMean(p, n) == TruncDiv(p, n)
  {
    FloorIsInt32(p, n);
    assert p % TWO64 == p;
  }

  /** For groups of two or more lines the unsigned division is the mean for every sum from
      `lo` up exactly when `lo` is not negative: a sum of -1 is always reported wrongly. */
  lemma UnsignedMeanRightIff(n: nat, lo: int)
    requires 2 <= n <= INT32_MAX && IsInt32(lo)
    ensures (forall p | lo <= p <= INT32_MAX :: UnsignedMean(p, n) == TruncDiv(p, n)) <==> lo >= 0
  {
    if lo >= 0 {
      forall p | lo <= p <= INT32_MAX ensures UnsignedMean(p, n) == TruncDiv(p, n) { UnsignedMeanRight(p, n); }
    } else {
      MinusOneWrong(n);
    }
  }

  lemma MinusOneMean(n: nat)
    requires n >= 2
    ensures TruncDiv(-1, n) == 0
  {
    DivAdjoint(1, 1, n);
    DivAdjoint(0, 1, n);
  }

  lemma MinusOneWrong(n: nat)
    requires 2 <= n <= INT32_MAX
    ensures UnsignedMean(-1, n) != TruncDiv(-1, n)
  {
    MinusOneMean(n);
    hide TruncDiv;
    var q := (TWO64 - 1) / n;
    assert UnsignedMean(-1, n) == Wrap32(q) by { assert (-1) % TWO64 == TWO64 - 1; }
    DivAdjoint(q, TWO64 - 1, n);
    DivAdjoint(q + 1, TWO64 - 1, n);
    if Wrap32(q) == 0 {
      var m := q / TWO32;
      assert q == m * TWO32;
      QuotientNotAligned(m, n);
    }
  }

  lemma QuotientNotAligned(m: int, n: nat)
    requires n <= INT32_MAX
    ensures !((m * TWO32) * n < TWO64 < (m * TWO32 + 1) * n + 1)
  {
    var x := m * n;
    assert (m * TWO32) * n == x * TWO32;
    assert (m * TWO32 + 1) * n == x * TWO32 + n;
  }
}
