/** Whose keys lie in a scanned range: those of the queried metric, and for some metrics that
    hold the separator keys of other metrics too. */
module KeyRange {
  import opened Bytes
  import Lex
  import opened Decimal
  import opened StoreKey

  predicate InRange(k: bytes, metric: bytes, t: int, interval: int) {
    Lex.Le(UpperKey(metric, t), k) && Lex.Le(k, LowerKey(metric, t, interval))
  }

  /** The metric together with what follows it in a range can read as a key of another metric:
      it splits into two or three parts or, when the range ends behind the metric, into four. */
  predicate Borrows(metric: bytes, interval: int) {
    var v := Split(metric);
    && (|v| == 2 || |v| == 3 || (|v| == 4 && interval <= 0))
    && v[0] != [] && v[1] != [] && (|v| > 2 ==> v[2] != [])
  }

  /** The range does not end before it begins; an eleven-digit limit can sort before the
      ten-digit stamp of the query time. */
  predicate RangeOpen(t: int, interval: int)
    requires t <= STAMP_BASE && 0 <= interval
  {
    interval <= t || STAMP_BASE - t <= LeadingTen(STAMP_BASE - t + interval)
  }

  predicate IsStamp(s: bytes) {
    var ts := STAMP_BASE - Atoll(s);
    1 <= ts <= MAX_TIME && Stamp(ts) == s
  }

  // ------------------------------------------------------------- keys the store writes

  /** A key that splits into a record is one the store writes. */
  predicate StoredKey(k: bytes) {
    var f := ParseKey(k);
    f.Some? ==> FormatKey(f.value) == k && 1 <= f.value.ts <= MAX_TIME
  }

  lemma FourParts(k: bytes)
    requires |Split(k)| == 4
    ensures var v := Split(k); k == v[0] + [HASH] + (v[1] + [HASH] + (v[2] + [HASH] + v[3]))
  {
    var b := SplitHead(k);
    var c := SplitHead(b);
    var d := SplitHead(c);
    OnePart(d);
  }

  lemma {:induction false} OnePart(s: bytes)
    requires |Split(s)| == 1
    ensures Split(s) == [s]
  {
    if s != [] {
      OnePart(s[1..]);
      assert s == [s[0]] + s[1..];
    }
  }

  /** It is one exactly when its second part is the stamp of a storable time. */
  lemma StoredIsStamp(k: bytes)
    requires ParseKey(k).Some?
    ensures StoredKey(k) <==> IsStamp(Split(k)[1])
  {
    var v, f := Split(k), ParseKey(k).value;
    FourParts(k);
    if StoredKey(k) {
      SplitClean(k);
      AtollDec(STAMP_BASE - f.ts);
      StampIsDec(f.ts);
      SplitFour(v[0], Stamp(f.ts), v[2], v[3]);
    }
  }

  // ------------------------------------------------------------- keys of other metrics

  lemma RangePrefix(metric: bytes, t: int, interval: int, k: bytes)
    requires InRange(k, metric, t, interval)
    ensures (|metric| < |k| && k == metric + [HASH] + k[|metric| + 1..]) || (interval <= 0 && k == metric + [DOLLAR])
  {
    var lower, bound := LowerKey(metric, t, interval), metric + [DOLLAR];
    if interval > 0 {
      assert lower[..|metric|] == metric && lower[|metric|] == HASH;
      Lex.StartsBelow(metric, HASH, lower);
      Lex.LeLt(k, lower, bound);
    } else {
      Lex.Total(k, bound);
    }
    if k != bound { Lex.Between(metric, HASH, SignedDec(STAMP_BASE - t), k); }
  }

  lemma OpenWhenReached(metric: bytes, t: int, interval: int, k: bytes)
    requires 0 <= t <= MAX_TIME && 0 <= interval && InRange(k, metric, t, interval)
    ensures RangeOpen(t, interval)
  {
    if interval > t {
      Lex.Trans(UpperKey(metric, t), k, LowerKey(metric, t, interval));
      StampsInOrder(metric, t, interval);
    }
  }

  /** The two ends of a range are in order exactly when it is open. */
  lemma StampsInOrder(metric: bytes, t: int, interval: int)
    requires 0 <= t <= MAX_TIME && 0 < interval
    ensures Lex.Le(UpperKey(metric, t), LowerKey(metric, t, interval)) <==> RangeOpen(t, interval)
    ensures Lex.Le(UpperKey(metric, t) + [HASH], LowerKey(metric, t, interval)) <==> RangeOpen(t, interval)
  {
    var a, n := STAMP_BASE - t, STAMP_BASE - t + interval;
    var head := metric + [HASH];
    hide Dec; hide Lex.Le; hide LeadingTen;
    assert UpperKey(metric, t) == head + Dec(a) && LowerKey(metric, t, interval) == head + Dec(n);
    assert head + Dec(a) + [HASH] == head + (Dec(a) + [HASH]);
    Lex.Prefix(head, Dec(a), Dec(n));
    Lex.Prefix(head, Dec(a) + [HASH], Dec(n));
    if interval <= t {
      TenDigits(t);
      TenDigits(t - interval);
      DecOrder(a, n);
      DecBelow(a, [HASH], n);
    } else {
      TailBelowLongLimit(a, [HASH], n);
      LongLimit(a, n);
    }
  }

  lemma LongLimit(a: nat, n: nat)
    requires STAMP_BASE - MAX_TIME <= a <= STAMP_BASE && n > STAMP_BASE
    ensures Lex.Le(Dec(a), Dec(n)) <==> a <= LeadingTen(n)
  {
    hide Dec; hide LeadingTen;
    var rest := LeadingTenText(n);
    TenDigits(STAMP_BASE - a);
    TenDigits(STAMP_BASE - LeadingTen(n));
    DecOrderTail(a, [], LeadingTen(n), rest);
    assert Dec(a) + [] == Dec(a);
  }

  /** A key of another metric in the range means that the metric borrows. */
  lemma ForeignBorrows(metric: bytes, t: int, interval: int, k: bytes)
    requires InRange(k, metric, t, interval) && ParseKey(k).Some? && ParseKey(k).value.metric != metric
    ensures Borrows(metric, interval) && Split(metric)[1] == Split(k)[1]
  {
    var v := Split(metric);
    RangePrefix(metric, t, interval, k);
    if interval <= 0 && k == metric + [DOLLAR] {
      SplitSnoc(metric, DOLLAR);
    } else {
      SplitJoin(metric, k[|metric| + 1..]);
      if |v| == 1 { OnePart(metric); }
    }
  }

  /** Every key in a scanned range that splits into four fields belongs to the queried metric,
      whatever else is in the database, unless the metric borrows. */
  lemma RangeMetric(metric: bytes, t: int, interval: int, k: bytes)
    requires !Borrows(metric, interval) && InRange(k, metric, t, interval) && ParseKey(k).Some?
    ensures ParseKey(k).value.metric == metric
  {
    if ParseKey(k).value.metric != metric { ForeignBorrows(metric, t, interval, k); }
  }

  /** A key of another metric at the beginning or the end of the range. */
  function ForeignKey(metric: bytes, t: int): bytes {
    if |Split(metric)| == 2 then UpperKey(metric, t) + [HASH]
    else if |Split(metric)| == 3 then UpperKey(metric, t)
    else metric + [DOLLAR]
  }

  lemma ForeignParses(metric: bytes, t: int, interval: int)
    requires 0 <= t <= MAX_TIME && Borrows(metric, interval)
    ensures var p := ParseKey(ForeignKey(metric, t));
      p.Some? && p.value.metric != metric && Split(ForeignKey(metric, t))[1] == Split(metric)[1]
  {
    var v, d := Split(metric), Dec(STAMP_BASE - t);
    assert UpperKey(metric, t) == metric + [HASH] + d;
    SplitRejoin(metric);
    SplitFirst(d, []);
    if |v| == 2 {
      assert metric + [HASH] + d + [HASH] == metric + [HASH] + (d + [HASH] + []);
      SplitJoin(metric, d + [HASH] + []);
    } else if |v| == 3 {
      SplitJoin(metric, d);
    } else {
      SplitSnoc(metric, DOLLAR);
    }
  }

  lemma ForeignInRange(metric: bytes, t: int, interval: int)
    requires 0 <= t <= MAX_TIME && 0 <= interval && Borrows(metric, interval) && RangeOpen(t, interval)
    ensures InRange(ForeignKey(metric, t), metric, t, interval)
  {
    var k, upper := ForeignKey(metric, t), UpperKey(metric, t);
    assert upper == metric + [HASH] + Dec(STAMP_BASE - t);
    Lex.Total(upper, upper);
    Lex.Total(k, k);
    Lex.Prefix(upper, [], [HASH]);
    assert upper + [] == upper;
    if interval > 0 {
      StampsInOrder(metric, t, interval);
    } else {
      EndsBehind(metric, upper);
      EndsBehind(metric, upper + [HASH]);
    }
  }

  lemma EndsBehind(metric: bytes, k: bytes)
    requires metric + [HASH] <= k
    ensures Lex.Le(k, metric + [DOLLAR])
  {
    assert k[..|metric|] == metric && k[|metric|] == HASH;
    Lex.StartsBelow(metric, HASH, k);
    Lex.Total(k, metric + [DOLLAR]);
  }

  /** Every well-formed key in the range has the queried metric exactly when the metric does not
      borrow or the range is empty. */
  lemma RangeMetricIff(metric: bytes, t: int, interval: int)
    requires 0 <= t <= MAX_TIME && 0 <= interval
    ensures (forall k | InRange(k, metric, t, interval) && ParseKey(k).Some? :: ParseKey(k).value.metric == metric)
       <==> !(Borrows(metric, interval) && RangeOpen(t, interval))
  {
    hide InRange; hide ParseKey; hide Borrows; hide RangeOpen; hide Split; hide ForeignKey;
    if Borrows(metric, interval) && RangeOpen(t, interval) {
      ForeignInRange(metric, t, interval);
      ForeignParses(metric, t, interval);
    } else {
      forall k | InRange(k, metric, t, interval) && ParseKey(k).Some? ensures ParseKey(k).value.metric == metric {
        OpenWhenReached(metric, t, interval, k);
        RangeMetric(metric, t, interval, k);
      }
    }
  }

  /** The same for keys the store writes: the second part must be a stamp. */
  predicate BorrowsStored(metric: bytes, t: int, interval: int)
    requires t <= STAMP_BASE && 0 <= interval
  {
    Borrows(metric, interval) && IsStamp(Split(metric)[1]) && RangeOpen(t, interval)
  }

  lemma StoredRangeMetricIff(metric: bytes, t: int, interval: int)
    requires 0 <= t <= MAX_TIME && 0 <= interval
    ensures (forall k | InRange(k, metric, t, interval) && ParseKey(k).Some? && StoredKey(k) :: ParseKey(k).value.metric == metric)
       <==> !BorrowsStored(metric, t, interval)
  {
    hide InRange; hide ParseKey; hide StoredKey; hide IsStamp; hide RangeOpen; hide Split; hide ForeignKey;
    if BorrowsStored(metric, t, interval) {
      ForeignInRange(metric, t, interval);
      ForeignParses(metric, t, interval);
      StoredIsStamp(ForeignKey(metric, t));
    } else {
      forall k | InRange(k, metric, t, interval) && ParseKey(k).Some? && StoredKey(k) ensures ParseKey(k).value.metric == metric {
        if ParseKey(k).value.metric != metric {
          ForeignBorrows(metric, t, interval, k);
          OpenWhenReached(metric, t, interval, k);
          StoredIsStamp(k);
        }
      }
    }
  }

  /** The record (a, 1, T, e), and a metric that is the beginning of its key. */
  const A_FIELDS: Fields := Fields.Fields([0x61], 1, [0x54], [0x65])
  function AStamped(): bytes { [0x61] + [HASH] + Dec(STAMP_BASE - 1) }

  /** A query for the metric "a#9999999998" at time 5 reaches that record of metric "a". */
  lemma SeparatorReachesOther()
    ensures ParseKey(InsertKey(A_FIELDS)) == Some(A_FIELDS) && InRange(InsertKey(A_FIELDS), AStamped(), 5, 0)
    ensures A_FIELDS.metric != AStamped()
  {
    var k, rest := FormatKey(A_FIELDS), [0x54] + [HASH] + [0x65];
    TenDigits(1);
    StampIsDec(1);
    StorableKey(A_FIELDS);
    assert k == AStamped() + [HASH] + rest;
    Lex.Prefix(AStamped() + [HASH], Dec(STAMP_BASE - 5), rest);
    EndsBehind(AStamped(), k);
  }
}
