/** Events of one metric in one slot: removal of repeated messages, grouping by tag, and the
    statistics of a group computed by selection in place. */
module EventStats {
  import opened Bytes
  import opened Seqs
  import opened Groups
  import opened Aggregate

  datatype Event = Event(msgid: int, metric: bytes, tag: bytes, value: int)

  // --------------------------------------------------------------------- dedup

  function Ids(xs: seq<Event>): set<int> { set i | 0 <= i < |xs| :: xs[i].msgid }

  /** Keep the first event of every message id. */
  function Dedup(xs: seq<Event>): (r: seq<Event>)
    ensures |r| <= |xs|
  {
    if xs == [] then []
    else
      var init, last := xs[..|xs| - 1], xs[|xs| - 1];
      if last.msgid in Ids(init) then Dedup(init) else Dedup(init) + [last]
  }

  ghost predicate Distinct(xs: seq<Event>) { forall i, j | 0 <= i < j < |xs| :: xs[i].msgid != xs[j].msgid }

  lemma IdsSnoc(xs: seq<Event>, e: Event)
    ensures Ids(xs + [e]) == Ids(xs) + {e.msgid}
  {
    var s := xs + [e];
    assert s[|xs|] == e;
    forall i | 0 <= i < |xs| ensures xs[i].msgid in Ids(s) { assert s[i] == xs[i]; }
  }

  lemma {:induction false} IdsConcat(xs: seq<Event>, ys: seq<Event>)
    ensures Ids(xs + ys) == Ids(xs) + Ids(ys)
  {
    if ys == [] {
      assert xs + ys == xs;
    } else {
      var init, last := ys[..|ys| - 1], ys[|ys| - 1];
      IdsConcat(xs, init);
      assert xs + ys == (xs + init) + [last] && ys == init + [last];
      IdsSnoc(xs + init, last);
      IdsSnoc(init, last);
    }
  }

  lemma DedupSnoc(xs: seq<Event>, e: Event)
    ensures Dedup(xs + [e]) == if e.msgid in Ids(xs) then Dedup(xs) else Dedup(xs) + [e]
  {
    assert (xs + [e])[..|xs|] == xs;
  }

  /** No id is lost, none occurs twice, so the size is the number of ids. */
  lemma DedupIds(xs: seq<Event>)
    ensures Ids(Dedup(xs)) == Ids(xs) && Distinct(Dedup(xs)) && |Dedup(xs)| == |Ids(xs)|
  {
    DedupKeepsIds(xs);
    DistinctCount(Dedup(xs));
  }

  lemma {:induction false} DedupKeepsIds(xs: seq<Event>)
    ensures Ids(Dedup(xs)) == Ids(xs) && Distinct(Dedup(xs))
  {
    if xs != [] {
      var init, last := xs[..|xs| - 1], xs[|xs| - 1];
      assert xs == init + [last];
      DedupKeepsIds(init);
      hide *;
      DedupSnoc(init, last);
      IdsSnoc(init, last);
      IdsSnoc(Dedup(init), last);
      if last.msgid !in Ids(init) {
        DistinctSnoc(Dedup(init), last);
      } else {
        assert Ids(init) + {last.msgid} == Ids(init);
      }
    }
  }

  lemma {:induction false} DistinctCount(xs: seq<Event>)
    requires Distinct(xs)
    ensures |Ids(xs)| == |xs|
  {
    if xs == [] {
      assert Ids(xs) == {};
    } else {
      var init, last := xs[..|xs| - 1], xs[|xs| - 1];
      assert xs == init + [last];
      assert last.msgid !in Ids(init);
      DistinctCount(init);
      hide *;
      IdsSnoc(init, last);
    }
  }

  lemma DistinctSnoc(xs: seq<Event>, e: Event)
    requires Distinct(xs) && e.msgid !in Ids(xs)
    ensures Distinct(xs + [e])
  {
    forall i | 0 <= i < |xs| ensures xs[i].msgid != e.msgid { assert xs[i].msgid in Ids(xs); }
  }

  /** `e` occurs in `xs` and is the first event there with its id. */
  ghost predicate FirstOfId(xs: seq<Event>, e: Event) {
    exists i :: 0 <= i < |xs| && xs[i] == e && xs[i].msgid !in Ids(xs[..i])
  }

  lemma FirstSnoc(xs: seq<Event>, last: Event, e: Event)
    ensures FirstOfId(xs + [last], e) <==> FirstOfId(xs, e) || (e == last && last.msgid !in Ids(xs))
  {
    var s := xs + [last];
    assert s[..|xs|] == xs;
    if FirstOfId(xs, e) {
      var i :| 0 <= i < |xs| && xs[i] == e && xs[i].msgid !in Ids(xs[..i]);
      assert s[..i] == xs[..i] && s[i] == e;
    }
    if e == last && last.msgid !in Ids(xs) { assert s[|xs|] == e; }
    if FirstOfId(s, e) {
      var i :| 0 <= i < |s| && s[i] == e && s[i].msgid !in Ids(s[..i]);
      if i < |xs| { assert s[..i] == xs[..i] && xs[i] == e; }
    }
  }

  /** The events kept are exactly the first ones of their ids. */
  lemma {:induction false} DedupKeepsFirst(xs: seq<Event>, e: Event)
    ensures e in Dedup(xs) <==> FirstOfId(xs, e)
  {
    if xs != [] {
      var init, last := xs[..|xs| - 1], xs[|xs| - 1];
      assert xs == init + [last];
      DedupKeepsFirst(init, e);
      FirstSnoc(init, last, e);
    }
  }

  lemma {:induction false} DedupDistinct(xs: seq<Event>)
    requires |Ids(xs)| == |xs|
    ensures Dedup(xs) == xs
  {
    DedupIds(xs);
    if xs != [] {
      var init, last := xs[..|xs| - 1], xs[|xs| - 1];
      assert xs == init + [last];
      DedupIds(init);
      DedupDistinct(init);
    }
  }

  /** A repeated delivery changes nothing, whatever was delivered before and after it. */
  lemma {:induction false} DedupRetry(xs: seq<Event>, again: seq<Event>, ys: seq<Event>)
    requires Ids(again) <= Ids(xs)
    ensures Dedup(xs + again + ys) == Dedup(xs + ys)
  {
    if ys != [] {
      var init, last := ys[..|ys| - 1], ys[|ys| - 1];
      DedupRetry(xs, again, init);
      assert xs + again + ys == (xs + again + init) + [last] && xs + ys == (xs + init) + [last];
      DedupSnoc(xs + again + init, last);
      DedupSnoc(xs + init, last);
      IdsConcat(xs + again, init);
      IdsConcat(xs, again);
      IdsConcat(xs, init);
    } else if again != [] {
      var init, last := again[..|again| - 1], again[|again| - 1];
      assert again == init + [last];
      IdsSnoc(init, last);
      DedupRetry(xs, init, []);
      assert xs + again + ys == (xs + init) + [last] && xs + init + [] == xs + init;
      DedupSnoc(xs + init, last);
      IdsConcat(xs, init);
    } else {
      assert xs + again + ys == xs + ys;
    }
  }

  // --------------------------------------------------------- order statistics

  function CountLt(s: seq<int>, v: int): (n: nat)
    ensures n <= |s|
  {
    if s == [] then 0 else CountLt(s[..|s| - 1], v) + if s[|s| - 1] < v then 1 else 0
  }

  /** `v` is the value at position `k` when `s` is put in ascending order. */
  predicate IsKth(s: seq<int>, k: int, v: int) { CountLt(s, v) <= k < CountLt(s, v + 1) }

  lemma {:induction false} CountMonotone(s: seq<int>, v: int, w: int)
    requires v <= w
    ensures CountLt(s, v) <= CountLt(s, w)
  {
    if s != [] { CountMonotone(s[..|s| - 1], v, w); }
  }

  lemma KthOrder(s: seq<int>, k: int, v: int, l: int, w: int)
    requires IsKth(s, k, v) && IsKth(s, l, w) && k <= l
    ensures v <= w && (k == l ==> v == w)
  {
    if w < v { CountMonotone(s, w + 1, v); }
    if v < w { CountMonotone(s, v + 1, w); }
  }

  lemma {:induction false} CountConcat(a: seq<int>, b: seq<int>, v: int)
    ensures CountLt(a + b, v) == CountLt(a, v) + CountLt(b, v)
  {
    if b == [] {
      assert a + b == a;
    } else {
      CountConcat(a, b[..|b| - 1], v);
      assert (a + b)[..|a + b| - 1] == a + b[..|b| - 1];
    }
  }

  lemma {:induction false} CountAllOrNone(s: seq<int>, v: int)
    ensures (forall i | 0 <= i < |s| :: s[i] >= v) ==> CountLt(s, v) == 0
    ensures (forall i | 0 <= i < |s| :: s[i] < v) ==> CountLt(s, v) == |s|
  {
    if s != [] { CountAllOrNone(s[..|s| - 1], v); }
  }

  /** Permuting does not change the counts. */
  lemma {:induction false} CountPermuted(a: seq<int>, b: seq<int>, v: int)
    requires multiset(a) == multiset(b)
    ensures CountLt(a, v) == CountLt(b, v) && |a| == |b|
  {
    if a == [] {
      assert |multiset(b)| == |multiset(a)| == 0;
    } else {
      hide *;
      var i := TakeOut(a, b);
      var init, x := a[..|a| - 1], a[|a| - 1];
      var l, r := b[..i], b[i + 1..];
      assert a == init + [x];
      CountPermuted(init, l + r, v);
      CountConcat(l, [x], v);
      CountConcat(l + [x], r, v);
      CountConcat(l, r, v);
      CountConcat(init, [x], v);
    }
  }

  /** `x` may stand before `y` in the order asked for. */
  predicate Before(desc: bool, x: int, y: int) { if desc then x >= y else x <= y }

  /** The contract of `std::nth_element`: a permutation with nothing that belongs behind
      position `k` before it, and nothing that belongs before it behind. */
  ghost predicate NthDone(s: seq<int>, k: nat, desc: bool) {
    && k < |s|
    && (forall i | 0 <= i < k :: Before(desc, s[i], s[k]))
    && (forall i | k < i < |s| :: Before(desc, s[k], s[i]))
  }

  /** Whatever permutation is left behind, the value at `k` is the order statistic. */
  lemma NthIsKth(s: seq<int>, t: seq<int>, k: nat)
    requires multiset(s) == multiset(t) && NthDone(t, k, false)
    ensures IsKth(s, k, t[k])
  {
    hide CountLt;
    var v := t[k];
    CountPermuted(s, t, v);
    CountPermuted(s, t, v + 1);
    assert t == t[..k] + t[k..] && t == t[..k + 1] + t[k + 1..];
    CountConcat(t[..k], t[k..], v);
    CountAllOrNone(t[k..], v);
    CountConcat(t[..k + 1], t[k + 1..], v + 1);
    CountAllOrNone(t[..k + 1], v + 1);
  }

  lemma NthGreatest(s: seq<int>, t: seq<int>)
    requires multiset(s) == multiset(t) && NthDone(t, 0, true)
    ensures IsKth(s, |s| - 1, t[0])
  {
    var v := t[0];
    CountPermuted(s, t, v);
    CountPermuted(s, t, v + 1);
    CountAllOrNone(t, v + 1);
    assert t == [v] + t[1..];
    CountConcat([v], t[1..], v);
    assert CountLt([v], v) == 0 by { CountAllOrNone([v], v); }
  }

  method FirstFrom(a: array<int>, i: nat, desc: bool) returns (m: nat)
    requires i < a.Length
    ensures i <= m < a.Length
    ensures forall y | i <= y < a.Length :: Before(desc, a[m], a[y])
  {
    m := i;
    for j := i + 1 to a.Length
      invariant i <= m < j
      invariant forall y | i <= y < j :: Before(desc, a[m], a[y])
    {
      if !Before(desc, a[m], a[j]) {
        m := j;
      }
    }
  }

  /** Selection in place, up to position `k`. */
  method NthElement(a: array<int>, k: nat, desc: bool)
    requires k < a.Length
    modifies a
    ensures multiset(a[..]) == old(multiset(a[..]))
    ensures NthDone(a[..], k, desc)
  {
    for i := 0 to k + 1
      invariant multiset(a[..]) == old(multiset(a[..]))
      invariant forall x, y | 0 <= x < i && x < y < a.Length :: Before(desc, a[x], a[y])
    {
      var m := FirstFrom(a, i, desc);
      Swap(a, i, m);
    }
  }

  method Swap(a: array<int>, i: nat, m: nat)
    requires i <= m < a.Length
    modifies a
    ensures a[i] == old(a[m]) && a[m] == old(a[i])
    ensures forall j | 0 <= j < a.Length && j != i && j != m :: a[j] == old(a[j])
    ensures multiset(a[..]) == old(multiset(a[..]))
  {
    a[i], a[m] := a[m], a[i];
  }

  // ---------------------------------------------------------------- statistics

  datatype Stat = Stat(count: int, sum: int, avg: int, min: int, max: int, p10: int, p50: int, p90: int)

  /** The values as `int32_t`, the type of the vector they are kept in. */
  function Values(evs: seq<Event>): (r: seq<int>)
    ensures |r| == |evs| && forall i | 0 <= i < |r| :: r[i] == Wrap32(evs[i].value)
  {
    seq(|evs|, i requires 0 <= i < |evs| => Wrap32(evs[i].value))
  }

  function Sum(evs: seq<Event>): int {
    if evs == [] then 0 else Sum(evs[..|evs| - 1]) + evs[|evs| - 1].value
  }

  /** What is stored about the events of one tag. A group whose 32-bit count comes out as
      zero is skipped by the calculation. */
  ghost predicate IsStat(evs: seq<Event>, s: Stat) {
    && evs != []
    && s.count == Wrap32(|evs|)
    && s.sum == Wrap64(Sum(evs))
    && if s.count == 0 then s.avg == s.min == s.max == s.p10 == s.p50 == s.p90 == 0 else
      && s.avg == Wrap32(TruncDiv(s.sum, s.count))
      && IsKth(Values(evs), 0, s.min)
      && IsKth(Values(evs), |evs| - 1, s.max)
      && IsKth(Values(evs), |evs| / 10, s.p10)
      && IsKth(Values(evs), |evs| / 2, s.p50)
      && IsKth(Values(evs), 9 * |evs| / 10, s.p90)
  }

  /** The statistics are determined by the events: selection in place is free to leave any
      permutation behind. */
  lemma StatUnique(evs: seq<Event>, s: Stat, r: Stat)
    requires IsStat(evs, s) && IsStat(evs, r)
    ensures s == r
  {
    if s.count != 0 {
      var vs, n := Values(evs), |evs|;
      KthOrder(vs, 0, s.min, 0, r.min);
      KthOrder(vs, n - 1, s.max, n - 1, r.max);
      KthOrder(vs, n / 10, s.p10, n / 10, r.p10);
      KthOrder(vs, n / 2, s.p50, n / 2, r.p50);
      KthOrder(vs, 9 * n / 10, s.p90, 9 * n / 10, r.p90);
    }
  }

  function SortInts(s: seq<int>): (r: seq<int>) {
    if s == [] then [] else InsertInt(SortInts(s[1..]), s[0])
  }

  function InsertInt(s: seq<int>, x: int): seq<int> {
    if s == [] || x <= s[0] then [x] + s else [s[0]] + InsertInt(s[1..], x)
  }

  ghost predicate SortedInts(s: seq<int>) { forall i, j | 0 <= i < j < |s| :: s[i] <= s[j] }

  lemma {:induction false} InsertIntBag(s: seq<int>, x: int)
    ensures multiset(InsertInt(s, x)) == multiset(s) + multiset{x}
  {
    if s != [] && x > s[0] {
      InsertIntBag(s[1..], x);
      assert s == [s[0]] + s[1..];
    }
  }

  lemma {:induction false} InsertIntKeeps(s: seq<int>, x: int)
    requires SortedInts(s)
    ensures SortedInts(InsertInt(s, x))
  {
    if s != [] && x > s[0] {
      InsertIntKeeps(s[1..], x);
      var q := InsertInt(s[1..], x);
      InsertIntBag(s[1..], x);
      forall i | 0 <= i < |q| ensures s[0] <= q[i] {
        assert q[i] in multiset(q);
        assert q[i] in s[1..] || q[i] == x;
      }
    }
  }

  lemma {:induction false} SortIntsSorts(s: seq<int>)
    ensures multiset(SortInts(s)) == multiset(s) && |SortInts(s)| == |s|
    ensures SortedInts(SortInts(s))
  {
    if s != [] {
      SortIntsSorts(s[1..]);
      InsertIntKeeps(SortInts(s[1..]), s[0]);
      InsertIntBag(SortInts(s[1..]), s[0]);
      assert s == [s[0]] + s[1..];
      assert |multiset(SortInts(s))| == |multiset(s)|;
    }
  }

  lemma SortedKth(s: seq<int>, k: nat)
    requires k < |s|
    ensures |SortInts(s)| == |s| && IsKth(s, k, SortInts(s)[k])
  {
    SortIntsSorts(s);
    NthIsKth(s, SortInts(s), k);
  }

  ghost function StatOf(evs: seq<Event>): (s: Stat)
    requires evs != []
    ensures IsStat(evs, s)
  {
    var n, count, sum := |evs|, Wrap32(|evs|), Wrap64(Sum(evs));
    if count == 0 then Stat(0, sum, 0, 0, 0, 0, 0, 0)
    else
      SortedKth(Values(evs), 0);
      SortedKth(Values(evs), n - 1);
      SortedKth(Values(evs), n / 10);
      SortedKth(Values(evs), n / 2);
      SortedKth(Values(evs), 9 * n / 10);
      var t := SortInts(Values(evs));
      Stat(count, sum, Wrap32(TruncDiv(sum, count)), t[0], t[n - 1], t[n / 10], t[n / 2], t[9 * n / 10])
  }

  /** `aggregate_by_tag` over the events of one tag: the vector of values, count and sum. */
  method Collect(evs: seq<Event>) returns (values: array<int>, count: int, sum: int)
    ensures values[..] == Values(evs) && count == Wrap32(|evs|) && sum == Wrap64(Sum(evs))
    ensures fresh(values)
  {
    values := new int[|evs|];
    count, sum := 0, 0;
    for i := 0 to |evs|
      invariant count == Wrap32(i) && sum == Wrap64(Sum(evs[..i]))
      invariant values[..i] == Values(evs)[..i]
    {
      CollectStep(evs, i);
      hide *;
      values[i] := Wrap32(evs[i].value);
      count := Wrap32(count + 1);
      sum := Wrap64(sum + evs[i].value);
      assert values[..i + 1] == Values(evs)[..i + 1];
    }
    assert evs[..|evs|] == evs && values[..] == values[..|evs|];
  }

  lemma CollectStep(evs: seq<Event>, i: nat)
    requires i < |evs|
    ensures Wrap32(Wrap32(i) + 1) == Wrap32(i + 1)
    ensures Wrap64(Wrap64(Sum(evs[..i])) + evs[i].value) == Wrap64(Sum(evs[..i + 1]))
    ensures Values(evs)[i] == Wrap32(evs[i].value)
  {
    hide Wrap32; hide Wrap64;
    WrapAdd(i, 1);
    WrapAdd(Sum(evs[..i]), evs[i].value);
    assert evs[..i + 1][..i] == evs[..i];
  }

  method Calculate(evs: seq<Event>) returns (s: Stat)
    requires evs != []
    ensures s == StatOf(evs)
  {
    var values, count, sum := Collect(evs);
    if count == 0 {
      s := Stat(count, sum, 0, 0, 0, 0, 0, 0);
    } else {
      var avg := Wrap32(TruncDiv(sum, count));
      var min, max, p10, p50, p90 := Percentiles(values);
      s := Stat(count, sum, avg, min, max, p10, p50, p90);
    }
    StatUnique(evs, s, StatOf(evs));
  }

  /** Five selections on one array, each on the permutation the previous one left. */
  method Percentiles(values: array<int>) returns (min: int, max: int, p10: int, p50: int, p90: int)
    requires values.Length > 0
    modifies values
    ensures IsKth(old(values[..]), 0, min) && IsKth(old(values[..]), values.Length - 1, max)
    ensures IsKth(old(values[..]), values.Length / 10, p10) && IsKth(old(values[..]), values.Length / 2, p50)
    ensures IsKth(old(values[..]), 9 * values.Length / 10, p90)
  {
    hide CountLt;
    ghost var was := values[..];
    var len := values.Length;
    NthElement(values, 0, false);
    NthIsKth(was, values[..], 0);
    min := values[0];
    NthElement(values, 0, true);
    NthGreatest(was, values[..]);
    max := values[0];
    NthElement(values, len / 10, false);
    NthIsKth(was, values[..], len / 10);
    p10 := values[len / 10];
    NthElement(values, len / 2, false);
    NthIsKth(was, values[..], len / 2);
    p50 := values[len / 2];
    NthElement(values, 9 * len / 10, false);
    NthIsKth(was, values[..], 9 * len / 10);
    p90 := values[9 * len / 10];
  }

  // ---------------------------------------------------- floating-point positions

  function Sixteenth(n: int): real { n as real / 16.0 }

  /** What is used of rounding to a double: it keeps the order and does not change numbers with
      few binary digits. */
  ghost predicate Rounds(round: real -> real) {
    && (forall x, y | x <= y :: round(x) <= round(y))
    && (forall n | 0 <= n < 0x10_0000_0000_0000 :: round(Sixteenth(n)) == Sixteenth(n))
  }

  /** The doubles nearest to 0.1 and 0.9. */
  const TENTH: real := 3602879701896397.0 / 36028797018963968.0
  const NINE_TENTHS: real := 8106479329266893.0 / 9007199254740992.0

  /** `len * c` in floating point, cut to an integer. */
  function Position(round: real -> real, c: real, len: nat): int { round(len as real * c).Floor }

  lemma RoundedFloor(round: real -> real, p: real, k: int)
    requires Rounds(round) && 0 <= k < 0x1_0000_0000_0000 && k as real <= p <= k as real + 0.9375
    ensures round(p).Floor == k
  {
    var lo, hi := Sixteenth(16 * k), Sixteenth(16 * k + 15);
    assert lo == k as real && hi == k as real + 0.9375;
    assert round(lo) <= round(p) <= round(hi);
  }

  /** The positions computed in floating point and cut to integers are the exact ones, for
      vectors of up to 2^32 values. */
  lemma PercentilePositions(round: real -> real, len: nat)
    requires Rounds(round) && len <= TWO32
    ensures Position(round, TENTH, len) == len / 10
    ensures Position(round, 0.5, len) == len / 2
    ensures Position(round, NINE_TENTHS, len) == 9 * len / 10
  {
    var q, r := len / 10, len % 10;
    assert len as real == 10.0 * q as real + r as real;
    RoundedFloor(round, len as real * TENTH, q);
    var h := len / 2;
    assert len as real == 2.0 * h as real + (len % 2) as real;
    RoundedFloor(round, len as real * 0.5, h);
    var k := 9 * len / 10;
    assert 9.0 * len as real == 10.0 * k as real + (9 * len % 10) as real;
    RoundedFloor(round, len as real * NINE_TENTHS, k);
  }

  lemma StatSorted(evs: seq<Event>, s: Stat)
    requires IsStat(evs, s) && s.count != 0
    ensures var sorted, n := SortInts(Values(evs)), |evs|;
      && |sorted| == n && s.min == sorted[0] && s.max == sorted[n - 1]
      && s.p10 == sorted[n / 10] && s.p50 == sorted[n / 2] && s.p90 == sorted[9 * n / 10]
  {
    var n := |evs|;
    KthIsSorted(Values(evs), 0, s.min);
    KthIsSorted(Values(evs), n - 1, s.max);
    KthIsSorted(Values(evs), n / 10, s.p10);
    KthIsSorted(Values(evs), n / 2, s.p50);
    KthIsSorted(Values(evs), 9 * n / 10, s.p90);
  }

  /** The stored percentiles are the values at the positions computed in floating point of the
      sorted values. */
  lemma StatAtPositions(evs: seq<Event>, s: Stat, round: real -> real)
    requires IsStat(evs, s) && s.count != 0 && Rounds(round) && |evs| <= TWO32
    ensures var sorted, n := SortInts(Values(evs)), |evs|;
      var p10, p50, p90 := Position(round, TENTH, n), Position(round, 0.5, n), Position(round, NINE_TENTHS, n);
      && |sorted| == n && s.min == sorted[0] && s.max == sorted[n - 1]
      && 0 <= p10 <= p50 <= p90 < n && s.p10 == sorted[p10] && s.p50 == sorted[p50] && s.p90 == sorted[p90]
  {
    StatSorted(evs, s);
    assert evs != [];
    hide IsStat; hide SortInts; hide Values; hide Rounds; hide Position;
    PercentilePositions(round, |evs|);
  }

  lemma KthIsSorted(vs: seq<int>, k: nat, v: int)
    requires k < |vs| && IsKth(vs, k, v)
    ensures |SortInts(vs)| == |vs| && v == SortInts(vs)[k]
  {
    SortedKth(vs, k);
    KthOrder(vs, k, v, k, SortInts(vs)[k]);
    KthOrder(vs, k, SortInts(vs)[k], k, v);
  }

  // ------------------------------------------------------------------ ordering

  lemma {:induction false} CountExtreme(s: seq<int>, i: nat)
    requires i < |s|
    ensures CountLt(s, s[i]) < |s| && CountLt(s, s[i] + 1) > 0
  {
    assert s == s[..i] + [s[i]] + s[i + 1..];
    CountConcat(s[..i], [s[i]], s[i]);
    CountConcat(s[..i] + [s[i]], s[i + 1..], s[i]);
    CountConcat(s[..i], [s[i]], s[i] + 1);
    CountConcat(s[..i] + [s[i]], s[i + 1..], s[i] + 1);
    CountAllOrNone([s[i]], s[i]);
    CountAllOrNone([s[i]], s[i] + 1);
  }

  lemma ExtremesBound(s: seq<int>, lo: int, hi: int, i: nat)
    requires IsKth(s, 0, lo) && IsKth(s, |s| - 1, hi) && i < |s|
    ensures lo <= s[i] <= hi
  {
    CountExtreme(s, i);
    if s[i] < lo { CountMonotone(s, s[i] + 1, lo); }
    if s[i] > hi { CountMonotone(s, hi + 1, s[i]); }
  }

  lemma {:induction false} SumBounds(evs: seq<Event>, lo: int, hi: int)
    requires forall i | 0 <= i < |evs| :: lo <= evs[i].value <= hi
    ensures lo * |evs| <= Sum(evs) <= hi * |evs|
  {
    if evs != [] {
      SumBounds(evs[..|evs| - 1], lo, hi);
      assert lo * |evs| == lo * (|evs| - 1) + lo && hi * |evs| == hi * (|evs| - 1) + hi;
    }
  }

  /** The stored percentiles and the stored average are ordered as they should be whenever
      the reported values fit the 32-bit vector they are collected in. */
  lemma StatOrdered(evs: seq<Event>, s: Stat, ts: int, tag: bytes)
    requires IsStat(evs, s) && |evs| <= INT32_MAX
    requires forall i | 0 <= i < |evs| :: IsInt32(evs[i].value)
    ensures Ordered(Info(ts, tag, s.count, s.sum, s.avg, s.min, s.max, s.p10, s.p50, s.p90))
    ensures s.count == |evs| && s.sum == Sum(evs)
  {
    var vs, n := Values(evs), |evs|;
    SumExact(evs);
    PercentilesOrdered(evs, s);
    forall i | 0 <= i < n ensures s.min <= evs[i].value <= s.max { ExtremesBound(vs, s.min, s.max, i); }
    KthIsInt32(vs, 0, s.min);
    KthIsInt32(vs, n - 1, s.max);
    SumBounds(evs, s.min, s.max);
    TruncDivBounds(Sum(evs), n, s.min, s.max);
  }

  lemma SumExact(evs: seq<Event>)
    requires |evs| <= INT32_MAX && forall i | 0 <= i < |evs| :: IsInt32(evs[i].value)
    ensures Wrap64(Sum(evs)) == Sum(evs) && Wrap32(|evs|) == |evs|
  {
    SumBounds(evs, INT32_MIN, INT32_MAX);
  }

  lemma PercentilesOrdered(evs: seq<Event>, s: Stat)
    requires IsStat(evs, s) && s.count != 0
    ensures s.min <= s.p10 <= s.p50 <= s.p90 <= s.max
  {
    var vs, n := Values(evs), |evs|;
    KthOrder(vs, 0, s.min, n / 10, s.p10);
    KthOrder(vs, n / 10, s.p10, n / 2, s.p50);
    KthOrder(vs, n / 2, s.p50, 9 * n / 10, s.p90);
    KthOrder(vs, 9 * n / 10, s.p90, n - 1, s.max);
  }

  /** An order statistic is one of the values. */
  lemma {:induction false} KthIsInt32(s: seq<int>, k: int, v: int)
    requires IsKth(s, k, v) && forall i | 0 <= i < |s| :: IsInt32(s[i])
    ensures v in s && IsInt32(v)
  {
    CountStep(s, v);
  }

  lemma {:induction false} CountStep(s: seq<int>, v: int)
    ensures v !in s ==> CountLt(s, v) == CountLt(s, v + 1)
  {
    if s != [] { CountStep(s[..|s| - 1], v); }
  }

  // ------------------------------------------- values wider than the vector

  /** Which block of 2^32 consecutive numbers a value lies in; `int32_t` is block 0. */
  function Block(v: int): int { (v - INT32_MIN) / TWO32 }

  lemma BlockWrap(v: int)
    ensures Wrap32(v) == v - Block(v) * TWO32
  {
  }

  ghost predicate Within(evs: seq<Event>, lo: int, hi: int) {
    && evs != [] && |evs| <= INT32_MAX
    && (forall i | 0 <= i < |evs| :: lo <= evs[i].value <= hi)
    && -TWO64 <= 2 * Sum(evs) < TWO64
  }

  ghost predicate AverageBetween(lo: int, hi: int) {
    forall evs, s | Within(evs, lo, hi) && IsStat(evs, s) :: s.min <= s.avg <= s.max
  }

  lemma {:induction false} BlockMonotone(v: int, w: int)
    requires v <= w
    ensures Block(v) <= Block(w)
  {
  }

  lemma SameBlockBetween(evs: seq<Event>, s: Stat, lo: int, hi: int)
    requires Within(evs, lo, hi) && IsStat(evs, s) && Block(lo) == Block(hi)
    ensures s.min <= s.avg <= s.max
  {
    var vs, n, shift := Values(evs), |evs|, Block(lo) * TWO32;
    forall i | 0 <= i < n ensures s.min + shift <= evs[i].value <= s.max + shift {
      ExtremesBound(vs, s.min, s.max, i);
      BlockMonotone(lo, evs[i].value);
      BlockMonotone(evs[i].value, hi);
      BlockWrap(evs[i].value);
    }
    KthIsInt32(vs, 0, s.min);
    KthIsInt32(vs, n - 1, s.max);
    SumBounds(evs, s.min + shift, s.max + shift);
    TruncDivBounds(Sum(evs), n, s.min + shift, s.max + shift);
    var q := TruncDiv(Sum(evs), n);
    WrapUnique(q, q - shift, -Block(lo));
  }

  lemma SumPair(x: Event, y: Event)
    ensures Sum([x, y]) == x.value + y.value
  {
    assert [x, y][..1] == [x] && [x][..0] == [];
    assert Sum([x]) == Sum([]) + x.value;
  }

  lemma PairStat(x: Event, y: Event, s: Stat)
    requires s.min < s.max && s.p10 == s.min && s.p50 == s.max && s.p90 == s.max
    requires s.count == 2 && s.sum == Wrap64(x.value + y.value) && s.avg == Wrap32(TruncDiv(s.sum, 2))
    requires (Wrap32(x.value) == s.min && Wrap32(y.value) == s.max) || (Wrap32(x.value) == s.max && Wrap32(y.value) == s.min)
    ensures IsStat([x, y], s)
  {
    var evs := [x, y];
    var vs := Values(evs);
    SumPair(x, y);
    assert vs == [Wrap32(x.value), Wrap32(y.value)];
    assert vs[..1] == [vs[0]] && [vs[0]][..0] == [];
    forall v ensures CountLt(vs, v) == (if s.min < v then 1 else 0) + (if s.max < v then 1 else 0) {
      assert CountLt(vs, v) == CountLt([vs[0]], v) + if vs[1] < v then 1 else 0;
      assert CountLt([vs[0]], v) == if vs[0] < v then 1 else 0;
    }
  }

  /** The part of a range in which the sum of two values can be an `int64_t`. */
  function Clip(v: int): int { if v < -TWO64 / 4 then -TWO64 / 4 else if v >= TWO64 / 4 then TWO64 / 4 - 1 else v }

  lemma OneValue(evs: seq<Event>, s: Stat)
    requires IsStat(evs, s) && |evs| == 1 && -TWO64 <= 2 * Sum(evs) < TWO64
    ensures s.min <= s.avg <= s.max
  {
    var v, e := Values(evs), evs[0];
    assert evs[..0] == [] && Sum(evs) == Sum([]) + e.value;
    ExtremesBound(v, s.min, s.max, 0);
    assert TruncDiv(e.value, 1) == e.value by { assert e.value / 1 == e.value && (-e.value) / 1 == -e.value; }
  }

  lemma {:induction false} SumSplit(evs: seq<Event>, i: nat, lo: int, hi: int)
    requires i < |evs| && forall j | 0 <= j < |evs| :: lo <= evs[j].value <= hi
    ensures evs[i].value + lo * (|evs| - 1) <= Sum(evs) <= evs[i].value + hi * (|evs| - 1)
  {
    var n := |evs| - 1;
    if i == n {
      SumBounds(evs[..n], lo, hi);
    } else {
      SumSplit(evs[..n], i, lo, hi);
      assert lo * n == lo * (n - 1) + lo && hi * n == hi * (n - 1) + hi;
    }
  }

  /** Two or more large values overflow the sum unless they lie in the block of 2^62. */
  lemma LargeValues(evs: seq<Event>, lo: int, hi: int, i: nat)
    requires Within(evs, lo, hi) && |evs| >= 2 && i < |evs|
    ensures lo >= TWO64 / 4 + INT32_MIN ==> evs[i].value < TWO64 / 4 - INT32_MIN
    ensures hi < -TWO64 / 4 - INT32_MIN ==> evs[i].value >= -TWO64 / 4 + INT32_MIN
  {
    SumSplit(evs, i, lo, hi);
    if lo >= TWO64 / 4 + INT32_MIN { MulAtLeast(lo, |evs| - 1); }
    if hi < -TWO64 / 4 - INT32_MIN { MulAtLeast(-hi, |evs| - 1); assert hi * (|evs| - 1) == -((-hi) * (|evs| - 1)); }
  }

  lemma MulAtLeast(v: int, n: int)
    requires v >= 0 && n >= 1
    ensures v * n >= v
  {
    MulMono(1, n, v);
    assert v * n == n * v;
  }

  function LowEnd(lo: int): int { if lo < -TWO64 / 4 then -TWO64 / 4 + INT32_MIN else lo }
  function HighEnd(hi: int): int { if hi >= TWO64 / 4 then TWO64 / 4 - INT32_MIN - 1 else hi }

  lemma ClipLow(lo: int, hi: int)
    requires lo <= hi && Block(Clip(lo)) == Block(Clip(hi))
    ensures lo < -TWO64 / 4 ==> hi < -TWO64 / 4 - INT32_MIN
  {
  }

  lemma ClipHigh(lo: int, hi: int)
    requires lo <= hi && Block(Clip(lo)) == Block(Clip(hi))
    ensures hi >= TWO64 / 4 ==> lo >= TWO64 / 4 + INT32_MIN
  {
  }

  lemma EndBlocks(v: int)
    ensures Block(LowEnd(v)) == Block(Clip(v)) || v >= TWO64 / 4
    ensures Block(HighEnd(v)) == Block(Clip(v)) || v < -TWO64 / 4
  {
  }

  lemma BlockOfQuarter(v: int)
    requires TWO64 / 4 + INT32_MIN <= v < TWO64 / 4 - INT32_MIN
    ensures Block(v) == Block(TWO64 / 4 - 1)
  {
  }

  lemma {:induction false} ClippedBetween(evs: seq<Event>, s: Stat, lo: int, hi: int)
    requires Within(evs, lo, hi) && IsStat(evs, s) && Block(Clip(lo)) == Block(Clip(hi))
    ensures s.min <= s.avg <= s.max
  {
    if |evs| == 1 {
      OneValue(evs, s);
    } else {
      assert lo <= evs[0].value <= hi;
      ClipLow(lo, hi);
      ClipHigh(lo, hi);
      EndBlocks(lo);
      EndBlocks(hi);
      forall i | 0 <= i < |evs| ensures LowEnd(lo) <= evs[i].value <= HighEnd(hi) { LargeValues(evs, lo, hi, i); }
      if lo >= TWO64 / 4 { LargeValues(evs, lo, hi, 0); BlockOfQuarter(lo); }
      if hi < -TWO64 / 4 { LargeValues(evs, lo, hi, 0); BlockOfMinusQuarter(hi); }
      assert Block(LowEnd(lo)) == Block(HighEnd(hi));
      hide Block; hide Clip;
      assert Within(evs, LowEnd(lo), HighEnd(hi));
      SameBlockBetween(evs, s, LowEnd(lo), HighEnd(hi));
    }
  }

  lemma BlockOfMinusQuarter(v: int)
    requires -TWO64 / 4 + INT32_MIN <= v < -TWO64 / 4 - INT32_MIN
    ensures Block(v) == Block(-TWO64 / 4)
  {
  }

  /** For a range of three or more `int64_t` values the average always lies between minimum
      and maximum exactly when the range, as far as the sum of two of its values can be an
      `int64_t`, does not straddle two blocks of 2^32. Values that are `int32_t` are one block. */
  lemma AverageBetweenIff(lo: int, hi: int)
    requires lo + 2 <= hi && -TWO64 / 2 <= lo && hi < TWO64 / 2
    ensures AverageBetween(lo, hi) <==> Block(Clip(lo)) == Block(Clip(hi))
  {
    if Block(Clip(lo)) == Block(Clip(hi)) {
      forall evs, s | Within(evs, lo, hi) && IsStat(evs, s) ensures s.min <= s.avg <= s.max {
        ClippedBetween(evs, s, lo, hi);
      }
    } else {
      BlockMonotone(Clip(lo), Clip(hi));
      var k := Block(Clip(lo)) + 1;
      var b := k * TWO32 + INT32_MIN;
      assert Clip(lo) < b <= Clip(hi);
      if lo <= b - 2 {
        StraddleBelow(b, k);
      } else {
        StraddleAbove(b, k);
      }
    }
  }

  lemma PairWithin(v: int, w: int)
    requires -TWO64 / 4 <= v <= w < TWO64 / 4
    ensures var evs := [Event(0, [], [], v), Event(1, [], [], w)];
      Sum(evs) == v + w && forall lo, hi {:trigger Within(evs, lo, hi)} | lo <= v && w <= hi :: Within(evs, lo, hi)
  {
    SumPair(Event(0, [], [], v), Event(1, [], [], w));
  }

  lemma StraddleBelow(b: int, k: int)
    requires b == k * TWO32 + INT32_MIN && -TWO64 / 4 <= b - 2 && b < TWO64 / 4
    ensures forall lo, hi {:trigger AverageBetween(lo, hi)} | lo <= b - 2 && b <= hi :: !AverageBetween(lo, hi)
  {
    var x, y := Event(0, [], [], b - 2), Event(1, [], [], b);
    var s := Stat(2, 2 * b - 2, INT32_MAX, INT32_MIN, INT32_MAX - 1, INT32_MIN, INT32_MAX - 1, INT32_MAX - 1);
    WrapUnique(b - 2, INT32_MAX - 1, -(k - 1));
    WrapUnique(b, INT32_MIN, -k);
    WrapUnique(b - 1, INT32_MAX, -(k - 1));
    assert TruncDiv(2 * b - 2, 2) == b - 1;
    PairStat(x, y, s);
    PairWithin(b - 2, b);
    forall lo, hi | lo <= b - 2 && b <= hi ensures !AverageBetween(lo, hi) {
      assert Within([x, y], lo, hi) && IsStat([x, y], s);
    }
  }

  lemma StraddleAbove(b: int, k: int)
    requires b == k * TWO32 + INT32_MIN && -TWO64 / 4 <= b - 1 && b + 1 < TWO64 / 4
    ensures forall lo, hi {:trigger AverageBetween(lo, hi)} | lo <= b - 1 && b + 1 <= hi :: !AverageBetween(lo, hi)
  {
    var x, y := Event(0, [], [], b - 1), Event(1, [], [], b + 1);
    var s := Stat(2, 2 * b, INT32_MIN, INT32_MIN + 1, INT32_MAX, INT32_MIN + 1, INT32_MAX, INT32_MAX);
    WrapUnique(b - 1, INT32_MAX, -(k - 1));
    WrapUnique(b + 1, INT32_MIN + 1, -k);
    WrapUnique(b, INT32_MIN, -k);
    assert TruncDiv(2 * b, 2) == b;
    PairStat(x, y, s);
    PairWithin(b - 1, b + 1);
    forall lo, hi | lo <= b - 1 && b + 1 <= hi ensures !AverageBetween(lo, hi) {
      assert Within([x, y], lo, hi) && IsStat([x, y], s);
    }
  }
}
