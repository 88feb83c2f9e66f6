/** One service's database as LevelDB presents it, entries in key order, and the two ways
    the store walks it: a range scan and a skip scan. */
module Index {
  import opened Bytes
  import Lex
  import opened StoreKey
  import opened KeyRange
  import L = Layout
  import opened Aggregate

  datatype Entry = Entry(key: bytes, value: bytes)

  ghost predicate InOrder(db: seq<Entry>) {
    forall i, j | 0 <= i < j < |db| :: Lex.Lt(db[i].key, db[j].key)
  }

  /** The position of the first key that is not below the target. */
  function Seek(db: seq<Entry>, target: bytes): (i: nat)
    ensures i <= |db|
  {
    if db == [] || Lex.Le(target, db[0].key) then 0 else 1 + Seek(db[1..], target)
  }

  lemma {:induction false} SeekSplits(db: seq<Entry>, target: bytes)
    requires InOrder(db)
    ensures forall i | 0 <= i < |db| :: i < Seek(db, target) <==> Lex.Lt(db[i].key, target)
  {
    if db != [] {
      if Lex.Le(target, db[0].key) {
        forall i | 0 <= i < |db| ensures Lex.Le(target, db[i].key) {
          if i > 0 { Lex.Total(db[0].key, db[i].key); Lex.Trans(target, db[0].key, db[i].key); }
        }
      } else {
        SeekSplits(db[1..], target);
        forall i | 0 <= i < |db| ensures i < Seek(db, target) <==> Lex.Lt(db[i].key, target) {
          if i > 0 { assert db[i] == db[1..][i - 1]; }
        }
      }
    }
  }

  function Put(db: seq<Entry>, key: bytes, value: bytes): (r: seq<Entry>) {
    var i := Seek(db, key);
    if i < |db| && db[i].key == key then db[i := Entry(key, value)]
    else db[..i] + [Entry(key, value)] + db[i..]
  }

  ghost predicate Present(db: seq<Entry>, key: bytes) { exists i | 0 <= i < |db| :: db[i].key == key }

  lemma FreshAt(db: seq<Entry>, key: bytes)
    requires InOrder(db)
    ensures var i := Seek(db, key); Present(db, key) <==> i < |db| && db[i].key == key
  {
    var i := Seek(db, key);
    SeekSplits(db, key);
    if Present(db, key) {
      var j :| 0 <= j < |db| && db[j].key == key;
      Lex.Total(key, key);
    }
  }

  /** A put keeps the order. */
  lemma PutSorted(db: seq<Entry>, key: bytes, value: bytes)
    requires InOrder(db)
    ensures InOrder(Put(db, key, value))
  {
    var i := Seek(db, key);
    SeekSplits(db, key);
    FreshAt(db, key);
    var r := Put(db, key, value);
    if !(i < |db| && db[i].key == key) {
      forall a, b | 0 <= a < b < |r| ensures Lex.Lt(r[a].key, r[b].key) {
        if a == i {
          assert r[b] == db[b - 1];
          assert !Present(db, key) && db[b - 1].key != key;
          Lex.Total(key, db[b - 1].key);
        } else {
          var a', b' := if a < i then a else a - 1, if b < i then b else b - 1;
          assert r[a] == db[a'] && (b != i ==> r[b] == db[b']);
        }
      }
    }
  }

  // ---------------------------------------------------------------- conditions

  datatype GroupBy = ByNone | ByTimestamp | ByTag

  datatype Cond = Cond(service: bytes, metric: bytes, tag: bytes, entity: bytes,
                       interval: int, start: int, groupby: GroupBy)

  /** The line read from an entry, or nothing when its key or value is malformed or its tag
      or entity is not the one asked for. The metric is not looked at. */
  function ReadEntry(e: Entry, cond: Cond): Option<Info> {
    match ParseKey(e.key)
    case None => None
    case Some(f) =>
      if cond.tag != [] && f.tag != cond.tag then None
      else if cond.entity != [] && f.entity != cond.entity then None
      else if |e.value| != L.SIZE || e.value[0] != L.MARK then None
      else
        var l := L.Decode(e.value);
        Some(Info(f.ts, f.tag, l.count, l.sum, l.avg, l.min, l.max, l.p10, l.p50, l.p90))
  }

  function AsSeq(o: Option<Info>): seq<Info> { if o.Some? then [o.value] else [] }

  // ---------------------------------------------------------------- range scan

  /** Walk forward until a key beyond `lower`. */
  function Scan(db: seq<Entry>, cond: Cond, lower: bytes): seq<Info> {
    if db == [] || Lex.Lt(lower, db[0].key) then []
    else AsSeq(ReadEntry(db[0], cond)) + Scan(db[1..], cond, lower)
  }

  function Visited(db: seq<Entry>, cond: Cond, t: int): seq<Info> {
    Scan(db[Seek(db, UpperKey(cond.metric, t))..], cond, LowerKey(cond.metric, t, cond.interval))
  }

  /** The naive query: look at every entry, keep the queried metric inside the window. */
  function Matching(db: seq<Entry>, cond: Cond, t: int): seq<Info> {
    if db == [] then []
    else (if Matches(db[0], cond, t) then AsSeq(ReadEntry(db[0], cond)) else []) + Matching(db[1..], cond, t)
  }

  predicate Matches(e: Entry, cond: Cond, t: int) {
    var f := ParseKey(e.key);
    f.Some? && f.value.metric == cond.metric && InWindow(f.value.ts, t, cond.interval)
  }

  /** Every key that splits into a record is one the store writes. Other keys are allowed. */
  ghost predicate WellStored(db: seq<Entry>) {
    forall i | 0 <= i < |db| :: StoredKey(db[i].key)
  }

  lemma {:induction false} MatchingConcat(a: seq<Entry>, b: seq<Entry>, cond: Cond, t: int)
    ensures Matching(a + b, cond, t) == Matching(a, cond, t) + Matching(b, cond, t)
  {
    if a == [] {
      assert a + b == b;
    } else {
      assert (a + b)[1..] == a[1..] + b;
      MatchingConcat(a[1..], b, cond, t);
    }
  }

  lemma {:induction false} MatchingNone(db: seq<Entry>, cond: Cond, t: int)
    requires forall i | 0 <= i < |db| :: !Matches(db[i], cond, t)
    ensures Matching(db, cond, t) == []
  {
    if db != [] { MatchingNone(db[1..], cond, t); }
  }

  /** The range is that of the query: for a metric that records can have, its window fits; for
      any other it holds no key the store writes. */
  predicate ScanRight(metric: bytes, t: int, interval: int)
    requires t <= STAMP_BASE && 0 <= interval
  {
    if NoHash(metric) then metric == [] || WindowFits(t, interval) else !BorrowsStored(metric, t, interval)
  }

  /** What the two ends of the range mean for one entry. */
  lemma EntryInRange(e: Entry, cond: Cond, t: int)
    requires StoredKey(e.key)
    requires 0 <= t <= MAX_TIME && 0 <= cond.interval && ScanRight(cond.metric, t, cond.interval)
    ensures Matches(e, cond, t) <==> ParseKey(e.key).Some? && InRange(e.key, cond.metric, t, cond.interval)
  {
    var p := ParseKey(e.key);
    if p.Some? {
      if p.value.metric == cond.metric {
        SplitClean(e.key);
        UpperExact(p.value, t);
        LowerExact(p.value, t, cond.interval);
        RangeIsWindowIff(t, cond.interval);
      } else if InRange(e.key, cond.metric, t, cond.interval) {
        hide *;
        NotForeign(e.key, cond.metric, t, cond.interval);
      }
    }
  }

  lemma NotForeign(k: bytes, metric: bytes, t: int, interval: int)
    requires 0 <= t <= MAX_TIME && 0 <= interval && ScanRight(metric, t, interval)
    requires StoredKey(k) && ParseKey(k).Some? && InRange(k, metric, t, interval)
    ensures ParseKey(k).value.metric == metric
  {
    hide InRange; hide ParseKey; hide StoredKey; hide BorrowsStored;
    StoredRangeMetricIff(metric, t, interval);
    if NoHash(metric) { PlainBorrowsNothing(metric, t, interval); }
  }

  lemma PlainBorrowsNothing(metric: bytes, t: int, interval: int)
    requires t <= STAMP_BASE && 0 <= interval && NoHash(metric)
    ensures !Borrows(metric, interval) && !BorrowsStored(metric, t, interval)
  {
    SplitFirst(metric, []);
  }

  lemma {:induction false} ScanFiltersTail(db: seq<Entry>, cond: Cond, t: int)
    requires InOrder(db) && WellStored(db)
    requires 0 <= t <= MAX_TIME && 0 <= cond.interval && ScanRight(cond.metric, t, cond.interval)
    requires forall i | 0 <= i < |db| :: Lex.Le(UpperKey(cond.metric, t), db[i].key)
    ensures Scan(db, cond, LowerKey(cond.metric, t, cond.interval)) == Matching(db, cond, t)
  {
    hide ScanRight; hide StoredKey; hide ParseKey; hide Lex.Le; hide UpperKey; hide LowerKey;
    var lower := LowerKey(cond.metric, t, cond.interval);
    if db != [] {
      if Lex.Lt(lower, db[0].key) {
        forall i | 0 <= i < |db| ensures !Matches(db[i], cond, t) {
          if i > 0 { Lex.Total(db[0].key, db[i].key); Lex.LtLe(lower, db[0].key, db[i].key); }
          EntryInRange(db[i], cond, t);
        }
        MatchingNone(db, cond, t);
      } else {
        EntryInRange(db[0], cond, t);
        ScanFiltersTail(db[1..], cond, t);
      }
    }
  }

  lemma NoneBeforeRange(db: seq<Entry>, i: nat, cond: Cond, t: int)
    requires WellStored(db) && i <= |db|
    requires 0 <= t <= MAX_TIME && 0 <= cond.interval && ScanRight(cond.metric, t, cond.interval)
    requires forall j | 0 <= j < i :: Lex.Lt(db[j].key, UpperKey(cond.metric, t))
    ensures Matching(db[..i], cond, t) == []
  {
    hide ScanRight; hide StoredKey; hide ParseKey; hide Lex.Le;
    forall j | 0 <= j < |db[..i]| ensures !Matches(db[..i][j], cond, t) { EntryInRange(db[j], cond, t); }
    MatchingNone(db[..i], cond, t);
  }

  /** The range scan returns exactly the lines the naive query returns, in the same order. */
  lemma ScanIsFilter(db: seq<Entry>, cond: Cond, t: int)
    requires InOrder(db) && WellStored(db)
    requires 0 <= t <= MAX_TIME && 0 <= cond.interval && ScanRight(cond.metric, t, cond.interval)
    ensures Visited(db, cond, t) == Matching(db, cond, t)
  {
    hide Seek; hide Matching; hide Scan; hide Lex.Le; hide UpperKey; hide LowerKey; hide ScanRight;
    var i := Seek(db, UpperKey(cond.metric, t));
    SeekSplits(db, UpperKey(cond.metric, t));
    NoneBeforeRange(db, i, cond, t);
    ScanFiltersTail(db[i..], cond, t);
    MatchingConcat(db[..i], db[i..], cond, t);
    assert db[..i] + db[i..] == db;
  }

  // A database of one entry.

  /** A well-formed value: one event with value zero. */
  function OneEvent(): (v: bytes)
    ensures |v| == L.SIZE && v[0] == L.MARK
  {
    [L.MARK, 1, 0, 0, 0, 1] + seq(L.SIZE - 6, _ => 0)
  }

  /** Any tag, any entity. */
  function Plain(metric: bytes, interval: int): Cond { Cond([], metric, [], [], interval, 0, ByNone) }

  lemma OneEntry(k: bytes, metric: bytes, t: int, interval: int)
    requires ParseKey(k).Some? && StoredKey(k)
    ensures var db, cond := [Entry(k, OneEvent())], Plain(metric, interval);
      && InOrder(db) && WellStored(db)
      && (Visited(db, cond, t) != [] <==> InRange(k, metric, t, interval))
      && (Matching(db, cond, t) != [] <==> Matches(db[0], cond, t))
  {
    var e, cond := Entry(k, OneEvent()), Plain(metric, interval);
    var db, lower := [e], LowerKey(metric, t, interval);
    hide ParseKey; hide StoredKey; hide OneEvent; hide Lex.Le; hide UpperKey; hide LowerKey;
    assert ReadEntry(e, cond).Some?;
    assert db[1..] == [] && db[0..] == db && db[..0] == [];
    assert Seek([], UpperKey(metric, t)) == 0 && Scan([], cond, lower) == [] && Matching([], cond, t) == [];
    assert Scan(db, cond, lower) != [] <==> Lex.Le(k, lower);
    assert Seek(db, UpperKey(metric, t)) == if Lex.Le(UpperKey(metric, t), k) then 0 else 1;
  }

  /** A record of the first second lies in every window from behind the epoch, and a scan whose
      window does not fit misses it. */
  lemma FirstRecordMissed(metric: bytes, t: int, interval: int)
    requires 0 <= t <= MAX_TIME && 0 <= interval && !WindowFits(t, interval)
    requires metric != [] && NoHash(metric)
    ensures var k, cond := FormatKey(Fields.Fields(metric, 1, [0x54], [])), Plain(metric, interval);
      ParseKey(k).Some? && StoredKey(k) && Matches(Entry(k, OneEvent()), cond, t) && !InRange(k, metric, t, interval)
  {
    var f := Fields.Fields(metric, 1, [0x54], []);
    KeyRoundTrip(f);
    LowerExact(f, t, interval);
    assert !AboveLower(1, t, interval) && InWindow(1, t, interval);
    hide FormatKey; hide ParseKey; hide Lex.Le; hide LowerKey; hide UpperKey; hide AboveLower; hide WindowFits; hide OneEvent;
    assert ParseKey(FormatKey(f)) == Some(f);
  }

  /** A key of another metric is read, and matches nothing. */
  lemma ForeignRead(metric: bytes, t: int, interval: int)
    requires 0 <= t <= MAX_TIME && 0 <= interval && BorrowsStored(metric, t, interval)
    ensures var k, cond := ForeignKey(metric, t), Plain(metric, interval);
      ParseKey(k).Some? && StoredKey(k) && !Matches(Entry(k, OneEvent()), cond, t) && InRange(k, metric, t, interval)
  {
    hide Split; hide ParseKey; hide StoredKey; hide InRange; hide ForeignKey; hide IsStamp; hide OneEvent; hide RangeOpen; hide Borrows;
    ForeignInRange(metric, t, interval);
    ForeignParses(metric, t, interval);
    StoredIsStamp(ForeignKey(metric, t));
  }

  /** For every tag, entity and ordered database of stored keys the scan is the naive query. */
  ghost predicate ScansAreFilters(metric: bytes, t: int, interval: int) {
    forall db, cond: Cond | InOrder(db) && WellStored(db) && cond.metric == metric && cond.interval == interval ::
      Visited(db, cond, t) == Matching(db, cond, t)
  }

  lemma ScanIsFilterIff(metric: bytes, t: int, interval: int)
    requires 0 <= t <= MAX_TIME && 0 <= interval
    ensures ScansAreFilters(metric, t, interval) <==> ScanRight(metric, t, interval)
  {
    if ScanRight(metric, t, interval) {
      forall db, cond: Cond | InOrder(db) && WellStored(db) && cond.metric == metric && cond.interval == interval
        ensures Visited(db, cond, t) == Matching(db, cond, t)
      {
        hide *;
        ScanIsFilter(db, cond, t);
      }
    } else if NoHash(metric) {
      var k := FormatKey(Fields.Fields(metric, 1, [0x54], []));
      FirstRecordMissed(metric, t, interval);
      OneEntryDiffers(k, metric, t, interval);
    } else {
      ForeignRead(metric, t, interval);
      OneEntryDiffers(ForeignKey(metric, t), metric, t, interval);
    }
  }

  lemma OneEntryDiffers(k: bytes, metric: bytes, t: int, interval: int)
    requires ParseKey(k).Some? && StoredKey(k)
    requires Matches(Entry(k, OneEvent()), Plain(metric, interval), t) != InRange(k, metric, t, interval)
    ensures !ScansAreFilters(metric, t, interval)
  {
    hide Visited; hide Matching; hide InOrder; hide WellStored; hide Matches; hide InRange;
    OneEntry(k, metric, t, interval);
    var db, cond := [Entry(k, OneEvent())], Plain(metric, interval);
    assert (Visited(db, cond, t) != []) != (Matching(db, cond, t) != []);
  }

  // ------------------------------------------------------------- the assertion on the metric

  predicate OwnMetric(k: bytes, metric: bytes) { ParseKey(k).Some? ==> ParseKey(k).value.metric == metric }

  /** Every well-formed key a scan visits has the queried metric. */
  ghost predicate MetricsAgree(db: seq<Entry>, cond: Cond, t: int) {
    forall i | 0 <= i < |db| && InRange(db[i].key, cond.metric, t, cond.interval) :: OwnMetric(db[i].key, cond.metric)
  }

  /** It does in all ordered databases exactly when the metric borrows nothing or the range is
      empty, and in all that hold stored keys exactly when there is no stored key to borrow. */
  lemma MetricsAgreeIff(cond: Cond, t: int)
    requires 0 <= t <= MAX_TIME && 0 <= cond.interval
    ensures (forall db | InOrder(db) :: MetricsAgree(db, cond, t))
       <==> !(Borrows(cond.metric, cond.interval) && RangeOpen(t, cond.interval))
    ensures (forall db | InOrder(db) && WellStored(db) :: MetricsAgree(db, cond, t)) <==> !BorrowsStored(cond.metric, t, cond.interval)
  {
    hide Borrows; hide RangeOpen; hide BorrowsStored; hide InRange; hide ParseKey; hide StoredKey;
    RangeMetricIff(cond.metric, t, cond.interval);
    StoredRangeMetricIff(cond.metric, t, cond.interval);
    forall k | InRange(k, cond.metric, t, cond.interval) && !OwnMetric(k, cond.metric)
      ensures !MetricsAgree([Entry(k, [])], cond, t) && InOrder([Entry(k, [])])
    {
      assert [Entry(k, [])][0].key == k;
    }
  }

  /** Adding a record under a new key adds its line, if it matches, and changes nothing else. */
  lemma PutMatching(db: seq<Entry>, key: bytes, value: bytes, cond: Cond, t: int)
    requires InOrder(db) && !Present(db, key)
    ensures var e := Entry(key, value);
      Total(Matching(Put(db, key, value), cond, t), OfInfo)
      == Plus(Total(Matching(db, cond, t), OfInfo), Total(Matching([e], cond, t), OfInfo))
  {
    var i, e := Seek(db, key), Entry(key, value);
    FreshAt(db, key);
    var l, r := db[..i], db[i..];
    assert Put(db, key, value) == (l + [e]) + r;
    assert db == l + r;
    hide Matching; hide Total; hide Plus; hide Put; hide Seek; hide Present; hide InOrder;
    MatchingConcat(l, r, cond, t);
    MatchingConcat(l + [e], r, cond, t);
    MatchingConcat(l, [e], cond, t);
    var a, m, b := Matching(l, cond, t), Matching([e], cond, t), Matching(r, cond, t);
    TotalConcat(a + m, b, OfInfo);
    TotalConcat(a, m, OfInfo);
    TotalConcat(a, b, OfInfo);
    InnerOne(Total(a, OfInfo), Total(b, OfInfo), Total(m, OfInfo));
  }

  // ----------------------------------------------------------------- skip scan

  /** The metrics of all well-formed keys. */
  ghost function Metrics(db: seq<Entry>): set<bytes> {
    set i | 0 <= i < |db| && ParseKey(db[i].key).Some? :: ParseKey(db[i].key).value.metric
  }

  lemma KeyOfMetric(key: bytes)
    requires ParseKey(key).Some?
    ensures var m := ParseKey(key).value.metric;
      NoHash(m) && |m| < |key| && key == m + [HASH] + key[|m| + 1..] && Lex.Lt(key, m + [DOLLAR])
  {
    SplitRejoin(key);
    var m := Split(key)[0];
    assert key[..|m|] == m && key[|m|] == HASH;
    Lex.StartsBelow(m, HASH, key);
  }

  lemma SameMetricBetween(key: bytes, other: bytes)
    requires ParseKey(key).Some? && ParseKey(other).Some?
    requires Lex.Le(key, other) && Lex.Lt(other, ParseKey(key).value.metric + [DOLLAR])
    ensures ParseKey(other).value.metric == ParseKey(key).value.metric
  {
    var m := ParseKey(key).value.metric;
    KeyOfMetric(key);
    hide Lex.Le; hide Split;
    Lex.Between(m, HASH, key[|m| + 1..], other);
    assert other == m + [HASH] + other[|m| + 1..];
    SplitFirst(m, other[|m| + 1..]);
  }

  /** From a well-formed key of metric `m`, seeking `m$` moves strictly forward, and every
      well-formed key it jumps over has metric `m` too. */
  lemma SkipOnlySame(db: seq<Entry>, i: nat)
    requires InOrder(db) && i < |db| && ParseKey(db[i].key).Some?
    ensures var m := ParseKey(db[i].key).value.metric;
      var j := Seek(db, m + [DOLLAR]);
      i < j && forall k | i <= k < j && ParseKey(db[k].key).Some? :: ParseKey(db[k].key).value.metric == m
  {
    hide ParseKey; hide Seek; hide NoHash;
    var m := ParseKey(db[i].key).value.metric;
    KeyOfMetric(db[i].key);
    SeekSplits(db, m + [DOLLAR]);
    var j := Seek(db, m + [DOLLAR]);
    forall k | i <= k < j && ParseKey(db[k].key).Some? ensures ParseKey(db[k].key).value.metric == m {
      Lex.Total(db[i].key, db[k].key);
      SameMetricBetween(db[i].key, db[k].key);
    }
  }
}
