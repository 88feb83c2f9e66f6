/** The answer to a query against the records a handler has written. */
module Answers {
  import opened Bytes
  import opened StoreKey
  import opened KeyRange
  import opened Groups
  import opened Aggregate
  import opened Means
  import opened EventStats
  import opened SlotMachine
  import opened Index
  import opened Store
  import opened EventHandling
  import opened Lossless
  import opened EndToEnd
  import opened RecordKeys

  /** The summary line a query returns. */
  function Answer(db: seq<Entry>, cond: Cond, t: int): Info { Summary(Total(Visited(db, cond, t), OfInfo)) }

  /** The line carries the count, sum, average, minimum and maximum of what `d` totals. */
  predicate Exact(s: Info, d: Acc) {
    && s.count == d.count && s.sum == d.sum
    && if d.count == 0 then s.min == s.max == s.avg == 0
       else d.count > 0 && s.min == d.min && s.max == d.max && s.avg == TruncDiv(d.sum, d.count)
  }

  // ------------------------------------------------------------- bounds

  predicate Balanced(a: Acc) {
    && a.count >= 0 && (a.count == 0 ==> a == ZERO)
    && (a.count > 0 ==> IsInt32(a.min) && IsInt32(a.max) && a.min * a.count <= a.sum <= a.max * a.count)
  }

  lemma BalancedPlus(a: Acc, b: Acc)
    requires Balanced(a) && Balanced(b)
    ensures Balanced(Plus(a, b))
  {
    if a.count > 0 && b.count > 0 {
      MergedBounds(a, b, a.count, a.sum, b.count, b.sum);
    } else if a.count == 0 {
      BalancedRange(b);
      PlusZero(b);
    } else {
      BalancedRange(a);
      PlusZero(a);
    }
  }

  lemma BalancedRange(a: Acc)
    requires Balanced(a)
    ensures a.min <= INT32_MAX && a.max >= INT32_MIN
  {
  }

  lemma {:induction false} DirectBalanced(accepted: seq<Stamped>, cond: Cond, t: int, done: set<int>)
    requires SmallHistory(accepted)
    ensures Balanced(Direct(accepted, cond, t, done)) && Direct(accepted, cond, t, done).count <= |accepted|
  {
    if accepted != [] {
      var init, e := accepted[..|accepted| - 1], accepted[|accepted| - 1];
      assert accepted == init + [e];
      var x := If(FirstDelivery(init, e) && Queried(e, cond, t, done), EventAcc(e.ev));
      assert Balanced(x) && x.count <= 1;
      DirectBalanced(init, cond, t, done);
      DirectSnoc(init, e, cond, t, done);
      BalancedPlus(Direct(init, cond, t, done), x);
      assert Plus(Direct(init, cond, t, done), x).count == Direct(init, cond, t, done).count + x.count;
      hide *;
      assert Balanced(Direct(accepted, cond, t, done));
    }
  }

  ghost predicate Counted(rs: seq<Record>) { forall i | 0 <= i < |rs| :: rs[i].count >= 1 }

  /** There are lines exactly when there are events. */
  lemma {:induction false} LinesAndCount(rs: seq<Record>, cond: Cond, t: int)
    requires Counted(rs)
    ensures 0 <= Total(rs, ContributionOf(cond, t)).n <= Total(rs, ContributionOf(cond, t)).count
    ensures Total(rs, ContributionOf(cond, t)).n == 0 ==> Total(rs, ContributionOf(cond, t)).count == 0
  {
    if rs != [] { LinesAndCount(rs[..|rs| - 1], cond, t); }
  }

  lemma SummaryExact(a: Acc, d: Acc)
    requires Core(a) == d && Balanced(d) && d.count <= INT32_MAX && (a.n == 0 <==> a.count == 0)
    ensures Exact(Summary(a), d)
  {
    if d.count > 0 {
      TruncDivBounds(d.sum, d.count, d.min, d.max);
      SumFits(d);
    }
  }

  lemma SumFits(d: Acc)
    requires Balanced(d) && 0 < d.count <= INT32_MAX
    ensures -TWO64 <= 2 * d.sum < TWO64
  {
    MulMono(INT32_MIN, d.min, d.count);
    MulMono(d.max, INT32_MAX, d.count);
  }

  // ------------------------------------------------------------- what can be asked

  /** A query the index is made for. */
  predicate Askable(cond: Cond, t: int) {
    0 <= t <= MAX_TIME && 0 <= cond.interval && ScanRight(cond.metric, t, cond.interval)
  }

  /** An answer tells of the lines visited: percentiles are the truncated means of theirs. */
  lemma AnswerTells(db: seq<Entry>, cond: Cond, t: int)
    ensures Tells(Answer(db, cond, t), Visited(db, cond, t))
  {
    SummaryTells(Visited(db, cond, t));
  }

  /** Records under different keys are all seen. */
  lemma AnswerOfRecords(rs: seq<Record>, cond: Cond, t: int)
    requires Writable(rs) && DistinctKeys(rs) && Askable(cond, t)
    ensures AllTyped(rs) && Answer(StoreAll([], rs), cond, t) == Summary(Total(rs, ContributionOf(cond, t)))
  {
    assert AllTyped(rs);
    var db := StoreAll([], rs);
    assert Answer(db, cond, t) == Summary(Total(Visited(db, cond, t), OfInfo));
    assert 0 <= t <= MAX_TIME && 0 <= cond.interval && ScanRight(cond.metric, t, cond.interval);
    hide *;
    StoreAllTotal(rs, cond, t);
    ScanIsFilter(db, cond, t);
  }

  /** The lines of the records a query asks for: of its metric, inside its window, with its
      entity and tag. */
  function LinesAsked(rs: seq<Record>, cond: Cond, t: int): seq<Info> {
    if rs == [] then []
    else
      var r := rs[|rs| - 1];
      LinesAsked(rs[..|rs| - 1], cond, t)
      + if r.metric == cond.metric && InWindow(r.ts, t, cond.interval) && EntityMatches(r.entity, cond) && TagMatches(r.tag, cond)
        then [r.Line()] else []
  }

  lemma {:induction false} AskedTotal(rs: seq<Record>, cond: Cond, t: int)
    ensures Total(LinesAsked(rs, cond, t), OfInfo) == Total(rs, ContributionOf(cond, t))
  {
    if rs == [] {
      assert LinesAsked(rs, cond, t) == [] && Total(rs, ContributionOf(cond, t)) == ZERO;
    } else {
      var init, r, f := rs[..|rs| - 1], rs[|rs| - 1], ContributionOf(cond, t);
      var lines := LinesAsked(init, cond, t);
      var asked := Contribution(r, cond, t) == OfInfo(r.Line()) && LinesAsked(rs, cond, t) == lines + [r.Line()];
      assert !asked ==> Contribution(r, cond, t) == ZERO && LinesAsked(rs, cond, t) == lines;
      assert rs == init + [r];
      hide LinesAsked; hide Contribution; hide ContributionOf; hide Total; hide Plus; hide OfInfo;
      AskedTotal(init, cond, t);
      TotalSnoc(lines, r.Line(), OfInfo);
      TotalSnoc(init, r, f);
      ContributionAt(r, cond, t);
      PlusZero(Total(lines, OfInfo));
    }
  }

  /** Records under different keys: every number of the answer is told by the lines of the records
      asked for, the percentiles being the truncated means of theirs. */
  lemma RecordsTell(rs: seq<Record>, cond: Cond, t: int)
    requires Writable(rs) && DistinctKeys(rs) && Askable(cond, t)
    ensures AllTyped(rs) && Tells(Answer(StoreAll([], rs), cond, t), LinesAsked(rs, cond, t))
  {
    AnswerOfRecords(rs, cond, t);
    AskedTotal(rs, cond, t);
    hide Tells; hide Summary; hide Total; hide Answer; hide Writable; hide DistinctKeys; hide Askable; hide StoreAll; hide LinesAsked;
    SummaryTells(LinesAsked(rs, cond, t));
  }

  // ------------------------------------------------------------- records written over

  function EntryOf(r: Record): Entry
    requires r.Typed()
  {
    Entry(InsertKey(r.KeyFields()), r.Value())
  }

  ghost predicate HeldBy(e: Entry, rs: seq<Record>)
    requires AllTyped(rs)
  {
    exists i :: 0 <= i < |rs| && e == EntryOf(rs[i])
  }

  ghost predicate EntriesFrom(db: seq<Entry>, rs: seq<Record>)
    requires AllTyped(rs)
  {
    && (forall j | 0 <= j < |db| :: HeldBy(db[j], rs))
    && (forall i | 0 <= i < |rs| :: Present(db, EntryOf(rs[i]).key))
  }

  function Stored(db: seq<Entry>, cond: Cond, t: int): Acc { Total(Matching(db, cond, t), OfInfo) }

  /** Writing over an entry takes away what it contributed. */
  lemma PutOver(db: seq<Entry>, e: Entry, cond: Cond, t: int)
    requires InOrder(db) && Present(db, e.key)
    ensures var i := Seek(db, e.key);
      && i < |db| && db[i].key == e.key
      && Stored(Put(db, e.key, e.value), cond, t).count + Stored([db[i]], cond, t).count
         == Stored(db, cond, t).count + Stored([e], cond, t).count
  {
    hide *;
    var i := Seek(db, e.key);
    PutSplits(db, e);
    Surrounded(db[..i], e, db[i + 1..], cond, t);
    Surrounded(db[..i], db[i], db[i + 1..], cond, t);
  }

  lemma PutSplits(db: seq<Entry>, e: Entry)
    requires InOrder(db) && Present(db, e.key)
    ensures var i := Seek(db, e.key);
      && i < |db| && db[i].key == e.key
      && Put(db, e.key, e.value) == (db[..i] + [e]) + db[i + 1..] && db == (db[..i] + [db[i]]) + db[i + 1..]
  {
    FreshAt(db, e.key);
    var i := Seek(db, e.key);
    assert Put(db, e.key, e.value) == db[i := e] && db[i := db[i]] == db;
    hide *;
    UpdateSplits(db, i, e);
    UpdateSplits(db, i, db[i]);
    assert Put(db, e.key, e.value) == (db[..i] + [e]) + db[i + 1..] && db == (db[..i] + [db[i]]) + db[i + 1..];
  }

  lemma UpdateSplits(db: seq<Entry>, i: nat, e: Entry)
    requires i < |db|
    ensures db[i := e] == (db[..i] + [e]) + db[i + 1..]
  {
  }

  lemma Surrounded(l: seq<Entry>, e: Entry, r: seq<Entry>, cond: Cond, t: int)
    ensures Stored((l + [e]) + r, cond, t).count == Stored(l, cond, t).count + Stored([e], cond, t).count + Stored(r, cond, t).count
  {
    hide Matching; hide Total;
    MatchingConcat(l + [e], r, cond, t);
    MatchingConcat(l, [e], cond, t);
    TotalConcat(Matching(l + [e], cond, t), Matching(r, cond, t), OfInfo);
    TotalConcat(Matching(l, cond, t), Matching([e], cond, t), OfInfo);
  }

  lemma EntriesFromPut(db: seq<Entry>, rs: seq<Record>, r: Record)
    requires InOrder(db) && AllTyped(rs) && r.Typed() && EntriesFrom(db, rs)
    ensures EntriesFrom(Put(db, EntryOf(r).key, EntryOf(r).value), rs + [r])
  {
    hide Put; hide EntryOf; hide Present;
    PutEntries(db, EntryOf(r));
    MoreEntries(db, Put(db, EntryOf(r).key, EntryOf(r).value), rs, r);
  }

  lemma MoreEntries(db: seq<Entry>, p: seq<Entry>, rs: seq<Record>, r: Record)
    requires AllTyped(rs) && r.Typed() && EntriesFrom(db, rs)
    requires forall j | 0 <= j < |p| :: p[j] == EntryOf(r) || exists q :: 0 <= q < |db| && p[j] == db[q]
    requires Present(p, EntryOf(r).key) && (forall k | Present(db, k) :: Present(p, k))
    ensures EntriesFrom(p, rs + [r])
  {
    hide EntryOf; hide Present;
    var more := rs + [r];
    assert more[|rs|] == r;
    forall j | 0 <= j < |p| ensures HeldBy(p[j], more) {
      if p[j] == EntryOf(r) {
        assert p[j] == EntryOf(more[|rs|]);
      } else {
        var q :| 0 <= q < |db| && p[j] == db[q];
        assert HeldBy(db[q], rs);
        var h :| 0 <= h < |rs| && db[q] == EntryOf(rs[h]);
        assert p[j] == EntryOf(more[h]);
      }
    }
  }

  lemma PutEntries(db: seq<Entry>, e: Entry)
    requires InOrder(db)
    ensures var p := Put(db, e.key, e.value);
      && (forall j | 0 <= j < |p| :: p[j] == e || exists q :: 0 <= q < |db| && p[j] == db[q])
      && Present(p, e.key) && (forall k | Present(db, k) :: Present(p, k))
  {
    var i, p := Seek(db, e.key), Put(db, e.key, e.value);
    FreshAt(db, e.key);
    hide Seek;
    assert p[i].key == e.key;
    forall j | 0 <= j < |p| && p[j] != e ensures exists q :: 0 <= q < |db| && p[j] == db[q] {
      assert p[j] == db[if |p| == |db| || j < i then j else j - 1];
    }
    forall k | Present(db, k) ensures Present(p, k) {
      var j :| 0 <= j < |db| && db[j].key == k;
      assert p[if |p| == |db| || j < i then j else j + 1].key == k;
    }
  }

  /** Two records under one key that a query asks for. */
  ghost predicate SharedKey(rs: seq<Record>, cond: Cond, t: int) {
    exists i, j :: 0 <= i < j < |rs| && rs[i].KeyFields() == rs[j].KeyFields() && Contribution(rs[i], cond, t) != ZERO
  }

  lemma SharedSnoc(rs: seq<Record>, r: Record, cond: Cond, t: int)
    requires SharedKey(rs + [r], cond, t)
    ensures SharedKey(rs, cond, t) || exists i :: 0 <= i < |rs| && rs[i].KeyFields() == r.KeyFields() && Contribution(rs[i], cond, t) != ZERO
  {
    var s := rs + [r];
    var i, j :| 0 <= i < j < |s| && s[i].KeyFields() == s[j].KeyFields() && Contribution(s[i], cond, t) != ZERO;
    assert s[i] == rs[i];
    if j < |rs| { assert s[j] == rs[j]; }
  }

  /** What is stored never counts more than what was written, and it counts less as soon as
      a record the query asks for has been written over. */
  lemma {:induction false} StoreAllLoses(rs: seq<Record>, cond: Cond, t: int)
    requires Writable(rs) && Counted(rs)
    ensures var db := StoreAll([], rs);
      && InOrder(db) && EntriesFrom(db, rs)
      && Stored(db, cond, t).count <= Total(rs, ContributionOf(cond, t)).count
      && (SharedKey(rs, cond, t) ==> Stored(db, cond, t).count < Total(rs, ContributionOf(cond, t)).count)
  {
    if rs == [] {
      hide *;
      NothingStored(cond, t);
      NothingShared(cond, t);
    } else {
      var init, r := rs[..|rs| - 1], rs[|rs| - 1];
      assert rs == init + [r];
      var db, e := StoreAll([], init), EntryOf(r);
      StoreAllSnoc(init, r);
      hide *;
      StoreAllLoses(init, cond, t);
      PutSorted(db, e.key, e.value);
      EntriesFromPut(db, init, r);
      TotalSnoc(init, r, ContributionOf(cond, t));
      ContributionAt(r, cond, t);
      PlusCounts(Total(init, ContributionOf(cond, t)), Contribution(r, cond, t));
      OneLoses(db, init, r, cond, t);
      if SharedKey(rs, cond, t) { SharedSnoc(init, r, cond, t); }
    }
  }

  lemma NothingStored(cond: Cond, t: int)
    ensures StoreAll([], []) == [] && EntriesFrom([], []) && InOrder([])
    ensures Stored([], cond, t).count == Total([], ContributionOf(cond, t)).count == 0
  {
  }

  lemma NothingShared(cond: Cond, t: int)
    ensures !SharedKey([], cond, t)
  {
  }

  lemma PlusCounts(a: Acc, b: Acc)
    ensures Plus(a, b).count == a.count + b.count
  {
  }

  lemma StoreAllSnoc(init: seq<Record>, r: Record)
    requires Writable(init + [r]) && Counted(init + [r])
    ensures Writable(init) && Counted(init) && AllTyped(init) && r.Typed()
    ensures StoreAll([], init + [r]) == Put(StoreAll([], init), EntryOf(r).key, EntryOf(r).value)
  {
    var rs := init + [r];
    assert rs[..|rs| - 1] == init && rs[|init|] == r;
    assert forall i | 0 <= i < |init| :: rs[i] == init[i];
    assert r.Accepted();
  }

  lemma OneLoses(db: seq<Entry>, rs: seq<Record>, r: Record, cond: Cond, t: int)
    requires Writable(rs + [r]) && Counted(rs + [r]) && AllTyped(rs) && r.Typed()
    requires InOrder(db) && EntriesFrom(db, rs)
    ensures var stored, was, added := Stored(Put(db, EntryOf(r).key, EntryOf(r).value), cond, t).count, Stored(db, cond, t).count, Contribution(r, cond, t).count;
      && stored <= was + added
      && ((exists i :: 0 <= i < |rs| && rs[i].KeyFields() == r.KeyFields() && Contribution(rs[i], cond, t) != ZERO) ==> stored < was + added)
  {
    var e := EntryOf(r);
    assert (rs + [r])[|rs|] == r;
    EntryContribution(r, cond, t);
    if Present(db, e.key) {
      PutOver(db, e, cond, t);
      var prior := db[Seek(db, e.key)];
      assert HeldBy(prior, rs);
      var i :| 0 <= i < |rs| && prior == EntryOf(rs[i]);
      assert rs[i] == (rs + [r])[i];
      EntryContribution(rs[i], cond, t);
      KeysInjective(rs[i].KeyFields(), r.KeyFields());
      SameKeyCounts(rs, r, i, cond, t);
    } else {
      PutMatching(db, e.key, e.value, cond, t);
      forall i | 0 <= i < |rs| ensures rs[i].KeyFields() != r.KeyFields() { assert Present(db, EntryOf(rs[i]).key); }
    }
  }

  lemma SameKeyCounts(rs: seq<Record>, r: Record, i: nat, cond: Cond, t: int)
    requires Counted(rs + [r]) && i < |rs| && rs[i].KeyFields() == r.KeyFields()
    ensures Contribution(rs[i], cond, t).count >= 0
    ensures (exists j :: 0 <= j < |rs| && rs[j].KeyFields() == r.KeyFields() && Contribution(rs[j], cond, t) != ZERO) ==> Contribution(rs[i], cond, t).count >= 1
  {
    assert (rs + [r])[i] == rs[i] && rs[i].count >= 1;
  }

  lemma StoredNone(cond: Cond, t: int)
    ensures Stored([], cond, t).count == 0
  {
  }

  lemma EntryNonNegative(e: Entry, rs: seq<Record>, cond: Cond, t: int)
    requires Writable(rs) && Counted(rs) && HeldBy(e, rs)
    ensures Stored([e], cond, t).count >= 0
  {
    var i :| 0 <= i < |rs| && e == EntryOf(rs[i]);
    EntryContribution(rs[i], cond, t);
  }

  lemma {:induction false} StoredNonNegative(db: seq<Entry>, rs: seq<Record>, cond: Cond, t: int)
    requires Writable(rs) && Counted(rs) && forall j | 0 <= j < |db| :: HeldBy(db[j], rs)
    ensures Stored(db, cond, t).count >= 0
  {
    if db == [] {
      hide *;
      StoredNone(cond, t);
    } else {
      var e := db[0];
      hide *;
      StoredNonNegative(db[1..], rs, cond, t);
      EntryNonNegative(e, rs, cond, t);
      assert db == ([] + [e]) + db[1..];
      Surrounded([], e, db[1..], cond, t);
      StoredNone(cond, t);
    }
  }

  lemma EntriesWellStored(db: seq<Entry>, rs: seq<Record>)
    requires Writable(rs) && forall j | 0 <= j < |db| :: HeldBy(db[j], rs)
    ensures WellStored(db)
  {
    forall j | 0 <= j < |db| ensures StoredKey(db[j].key) {
      assert HeldBy(db[j], rs);
      var i :| 0 <= i < |rs| && db[j] == EntryOf(rs[i]);
      StorableKey(rs[i].KeyFields());
    }
  }

  /** The query that shows a record written over: its metric, any tag, any time. */
  function Revealing(r: Record): Cond { Cond(r.service, r.metric, [], [], 0, 0, ByNone) }

  lemma OverwriteShows(rs: seq<Record>, i: nat, j: nat)
    requires Writable(rs) && Counted(rs) && i < j < |rs| && rs[i].KeyFields() == rs[j].KeyFields()
    requires Total(rs, ContributionOf(Revealing(rs[i]), MAX_TIME)).count <= INT32_MAX
    ensures Answer(StoreAll([], rs), Revealing(rs[i]), MAX_TIME).count < Total(rs, ContributionOf(Revealing(rs[i]), MAX_TIME)).count
  {
    var cond, t, db := Revealing(rs[i]), MAX_TIME, StoreAll([], rs);
    assert Storable(rs[i].KeyFields());
    assert 0 <= cond.interval && ScanRight(cond.metric, t, cond.interval);
    assert Contribution(rs[i], cond, t).count >= 1;
    assert SharedKey(rs, cond, t);
    assert Answer(db, cond, t) == Summary(Total(Visited(db, cond, t), OfInfo)) && Stored(db, cond, t) == Total(Matching(db, cond, t), OfInfo);
    assert AllTyped(rs);
    hide *;
    StoreAllLoses(rs, cond, t);
    HeldEntries(db, rs);
    EntriesWellStored(db, rs);
    ScanIsFilter(db, cond, t);
    StoredNonNegative(db, rs, cond, t);
    SummaryCount(Stored(db, cond, t));
    assert Answer(db, cond, t).count < Total(rs, ContributionOf(cond, t)).count;
  }

  lemma HeldEntries(db: seq<Entry>, rs: seq<Record>)
    requires AllTyped(rs) && EntriesFrom(db, rs)
    ensures forall j | 0 <= j < |db| :: HeldBy(db[j], rs)
  {
  }

  lemma SummaryCount(a: Acc)
    ensures 0 <= a.count <= INT32_MAX ==> Summary(a).count == a.count
  {
  }
}
