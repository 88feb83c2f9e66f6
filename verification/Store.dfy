/** `StoreLevelDB` over the database of one service: inserting records, the grouped and
    ungrouped queries, and the metric listing. */
module Store {
  import opened Bytes
  import Lex
  import opened StoreKey
  import opened KeyRange
  import L = Layout
  import opened Groups
  import opened Aggregate
  import opened Means
  import opened GroupLines
  import opened Index

  /** A record to be stored: `event_insert_t`. Field widths are those of its declaration. */
  datatype Record = Record(service: bytes, entity: bytes, ts: int, step: byte, metric: bytes, tag: bytes,
                           count: int, sum: int, avg: int, min: int, max: int, p10: int, p50: int, p90: int)
  {
    predicate Typed() {
      && Signed(8, sum)
      && Signed(4, count) && Signed(4, avg) && Signed(4, min) && Signed(4, max)
      && Signed(4, p10) && Signed(4, p50) && Signed(4, p90)
    }

    predicate Accepted() { service != [] && metric != [] && ts != 0 }

    /** The fields its key is made of; an empty tag is stored as "T". */
    function KeyFields(): Fields { Fields.Fields(metric, ts, StoredTag(tag), entity) }

    function Value(): bytes
      requires Typed()
    {
      L.Encode(L.Layout(L.MARK, step, count, sum, avg, min, max, p10, p50, p90))
    }

    function Line(): Info { Info(ts, StoredTag(tag), count, sum, avg, min, max, p10, p50, p90) }
  }

  const T_TAG: bytes := [0x54]

  function StoredTag(tag: bytes): (r: bytes)
    ensures r != []
  {
    if tag == [] then T_TAG else tag
  }

  function InsertInto(db: seq<Entry>, r: Record): seq<Entry>
    requires r.Typed()
  {
    if r.Accepted() then Put(db, InsertKey(r.KeyFields()), r.Value()) else db
  }

  /** A record put under a storable key is read back exactly when tag and entity are asked
      for, with every number it was stored with. */
  lemma ReadBack(r: Record, cond: Cond)
    requires r.Typed() && Storable(r.KeyFields())
    ensures var e := Entry(InsertKey(r.KeyFields()), r.Value());
      && ParseKey(e.key) == Some(r.KeyFields()) && StoredKey(e.key)
      && ReadEntry(e, cond) ==
           if (cond.tag == [] || cond.tag == StoredTag(r.tag)) && (cond.entity == [] || cond.entity == r.entity)
           then Some(r.Line()) else None
  {
    StorableKey(r.KeyFields());
    L.DecodeEncode(L.Layout(L.MARK, r.step, r.count, r.sum, r.avg, r.min, r.max, r.p10, r.p50, r.p90));
  }

  /** What is read from any entry: a line exactly when its key splits into a record with the tag
      and entity asked for and its value is that of a record, and then with the numbers of that
      value. */
  ghost predicate Holds(e: Entry, cond: Cond, i: Info, l: L.Layout) {
    && l.Valid() && l.d == L.MARK && e.value == L.Encode(l)
    && ParseKey(e.key).Some? && var f := ParseKey(e.key).value;
      && (cond.tag == [] || cond.tag == f.tag) && (cond.entity == [] || cond.entity == f.entity)
      && i == Info(f.ts, f.tag, l.count, l.sum, l.avg, l.min, l.max, l.p10, l.p50, l.p90)
  }

  lemma ReadExact(e: Entry, cond: Cond, i: Info)
    ensures ReadEntry(e, cond) == Some(i) <==> exists l :: Holds(e, cond, i, l)
  {
    if ReadEntry(e, cond) == Some(i) {
      L.EncodeDecode(e.value);
      assert Holds(e, cond, i, L.Decode(e.value));
    }
    forall l | Holds(e, cond, i, l) ensures ReadEntry(e, cond) == Some(i) { L.DecodeEncode(l); }
  }

  /** The database stays ordered and holds only keys the store writes. */
  lemma InsertKeeps(db: seq<Entry>, r: Record)
    requires InOrder(db) && WellStored(db) && r.Typed()
    requires r.Accepted() ==> Storable(r.KeyFields())
    ensures InOrder(InsertInto(db, r)) && WellStored(InsertInto(db, r))
  {
    if r.Accepted() {
      var key := InsertKey(r.KeyFields());
      PutSorted(db, key, r.Value());
      StorableKey(r.KeyFields());
      var i := Seek(db, key);
      var db' := Put(db, key, r.Value());
      forall j | 0 <= j < |db'| ensures StoredKey(db'[j].key) {
        if db'[j].key != key {
          assert db'[j] == if |db'| == |db| then db[j] else if j < i then db[j] else db[j - 1];
        }
      }
    }
  }

  // ------------------------------------------------------------------- queries

  /** One merge step: add the sums, lower the minimum, raise the maximum. */
  method Merge(acc: Info, item: Info, ghost ts: int, ghost tag: bytes, ghost a: Acc) returns (r: Info)
    requires acc == Running(ts, tag, a)
    ensures r == Running(ts, tag, Plus(a, OfInfo(item)))
  {
    r := acc;
    r := r.(count := Wrap32(r.count + item.count));
    r := r.(sum := Wrap64(r.sum + item.sum));
    r := r.(p10 := Wrap32(r.p10 + item.p10));
    r := r.(p50 := Wrap32(r.p50 + item.p50));
    r := r.(p90 := Wrap32(r.p90 + item.p90));
    if item.min < r.min { r := r.(min := item.min); }
    if item.max > r.max { r := r.(max := item.max); }
    RunningPlus(ts, tag, a, item);
  }

  lemma RunningPlus(ts: int, tag: bytes, a: Acc, i: Info)
    ensures var r, s := Running(ts, tag, a), Running(ts, tag, Plus(a, OfInfo(i)));
      && s.count == Wrap32(r.count + i.count) && s.sum == Wrap64(r.sum + i.sum)
      && s.p10 == Wrap32(r.p10 + i.p10) && s.p50 == Wrap32(r.p50 + i.p50) && s.p90 == Wrap32(r.p90 + i.p90)
  {
    hide Wrap32; hide Wrap64;
    WrapAdd(a.count, i.count);
    WrapAdd(a.sum, i.sum);
    WrapAdd(a.p10, i.p10);
    WrapAdd(a.p50, i.p50);
    WrapAdd(a.p90, i.p90);
  }

  /** A scan at position `i` that has read `seen` and will read the rest of the visit. */
  ghost predicate Remaining(db: seq<Entry>, i: nat, cond: Cond, t: int, seen: seq<Info>) {
    && i <= |db|
    && (forall j | i <= j < |db| :: Lex.Le(UpperKey(cond.metric, t), db[j].key))
    && Visited(db, cond, t) == seen + Scan(db[i..], cond, LowerKey(cond.metric, t, cond.interval))
  }

  lemma ScanBegin(db: seq<Entry>, cond: Cond, t: int)
    requires InOrder(db)
    ensures Remaining(db, Seek(db, UpperKey(cond.metric, t)), cond, t, [])
    ensures Running(0, [], Total([], OfInfo)) == Info(0, [], 0, 0, 0, INT32_MAX, INT32_MIN, 0, 0, 0)
  {
    SeekSplits(db, UpperKey(cond.metric, t));
  }

  lemma ScanAdvance(db: seq<Entry>, i: nat, cond: Cond, t: int, seen: seq<Info>)
    requires i < |db| && Remaining(db, i, cond, t, seen)
    requires Lex.Le(db[i].key, LowerKey(cond.metric, t, cond.interval))
    ensures Lex.Le(UpperKey(cond.metric, t), db[i].key)
    ensures Remaining(db, i + 1, cond, t, seen + AsSeq(ReadEntry(db[i], cond)))
  {
    ScanUnfold(db, i, cond, LowerKey(cond.metric, t, cond.interval));
  }

  lemma ScanUnfold(db: seq<Entry>, i: nat, cond: Cond, lower: bytes)
    requires i < |db| && Lex.Le(db[i].key, lower)
    ensures Scan(db[i..], cond, lower) == AsSeq(ReadEntry(db[i], cond)) + Scan(db[i + 1..], cond, lower)
  {
    assert db[i..][0] == db[i] && db[i..][1..] == db[i + 1..];
  }

  lemma ScanEnds(db: seq<Entry>, i: nat, cond: Cond, lower: bytes)
    requires i <= |db| && (i < |db| ==> !Lex.Le(db[i].key, lower))
    ensures Scan(db[i..], cond, lower) == []
  {
    if i < |db| { assert db[i..][0] == db[i]; }
  }

  lemma ScanDone(db: seq<Entry>, i: nat, cond: Cond, t: int, seen: seq<Info>)
    requires Remaining(db, i, cond, t, seen)
    requires i < |db| ==> !Lex.Le(db[i].key, LowerKey(cond.metric, t, cond.interval))
    ensures seen == Visited(db, cond, t) && Total(seen, OfInfo).n == |seen|
  {
    ScanEnds(db, i, cond, LowerKey(cond.metric, t, cond.interval));
    assert seen + [] == seen;
    hide *;
    TotalLines(seen);
  }

  lemma NoGroups(key: Info -> Key)
    ensures Build([], key) == []
  {
  }

  lemma BuildMore(seen: seq<Info>, item: Option<Info>, key: Info -> Key)
    ensures Build(seen + AsSeq(item), key) == if item.Some? then Push(Build(seen, key), key(item.value), item.value) else Build(seen, key)
  {
    if item.Some? { BuildSnoc(seen, item.value, key); } else { assert seen + AsSeq(item) == seen; }
  }

  /** The assertion has held for all entries before position `i`. */
  ghost predicate AgreeUpTo(db: seq<Entry>, i: nat, cond: Cond, t: int) {
    forall j | 0 <= j < i && j < |db| && InRange(db[j].key, cond.metric, t, cond.interval) :: OwnMetric(db[j].key, cond.metric)
  }

  lemma AgreeBegin(db: seq<Entry>, cond: Cond, t: int)
    requires InOrder(db)
    ensures AgreeUpTo(db, Seek(db, UpperKey(cond.metric, t)), cond, t)
  {
    SeekSplits(db, UpperKey(cond.metric, t));
  }

  lemma AgreeNext(db: seq<Entry>, i: nat, cond: Cond, t: int)
    requires i < |db| && Lex.Le(UpperKey(cond.metric, t), db[i].key) && Lex.Le(db[i].key, LowerKey(cond.metric, t, cond.interval))
    ensures AgreeUpTo(db, i + 1, cond, t) <==> AgreeUpTo(db, i, cond, t) && OwnMetric(db[i].key, cond.metric)
  {
    hide OwnMetric; hide Lex.Le; hide UpperKey; hide LowerKey;
    assert InRange(db[i].key, cond.metric, t, cond.interval);
  }

  /** Where the scan stops, nothing more is in the range. */
  lemma AgreeDone(db: seq<Entry>, i: nat, cond: Cond, t: int)
    requires InOrder(db) && i <= |db|
    requires i < |db| ==> !Lex.Le(db[i].key, LowerKey(cond.metric, t, cond.interval))
    ensures AgreeUpTo(db, i, cond, t) <==> MetricsAgree(db, cond, t)
  {
    hide OwnMetric; hide UpperKey; hide LowerKey;
    var lower := LowerKey(cond.metric, t, cond.interval);
    forall j | i <= j < |db| ensures !Lex.Le(db[j].key, lower) {
      if i < j { Lex.Total(db[i].key, db[j].key); Lex.LtLe(lower, db[i].key, db[j].key); }
    }
  }

  /** The state of a scan at position `i`: what it has read, the running summary and count, and
      whether the assertion on the metric has held. */
  ghost predicate Scanning(db: seq<Entry>, i: nat, cond: Cond, t: int, seen: seq<Info>, summary: Info, n: nat, held: bool) {
    && Remaining(db, i, cond, t, seen)
    && summary == Running(0, [], Total(seen, OfInfo)) && n == |seen|
    && (held <==> AgreeUpTo(db, i, cond, t))
  }

  const NOTHING: Info := Info(0, [], 0, 0, 0, INT32_MAX, INT32_MIN, 0, 0, 0)

  lemma ScanBegins(db: seq<Entry>, cond: Cond, t: int)
    requires InOrder(db)
    ensures Scanning(db, Seek(db, UpperKey(cond.metric, t)), cond, t, [], NOTHING, 0, true)
  {
    ScanBegin(db, cond, t);
    AgreeBegin(db, cond, t);
  }

  lemma ScanEnded(db: seq<Entry>, i: nat, cond: Cond, t: int, seen: seq<Info>, summary: Info, n: nat, held: bool)
    requires InOrder(db) && Scanning(db, i, cond, t, seen, summary, n, held)
    requires i < |db| ==> !Lex.Le(db[i].key, LowerKey(cond.metric, t, cond.interval))
    ensures seen == Visited(db, cond, t) && Total(seen, OfInfo).n == n && (held <==> MetricsAgree(db, cond, t))
    ensures summary == Running(0, [], Total(seen, OfInfo))
  {
    hide Total; hide Running; hide AgreeUpTo; hide MetricsAgree;
    assert i <= |db|;
    ScanDone(db, i, cond, t, seen);
    AgreeDone(db, i, cond, t);
  }

  datatype Result = Result(ret: int, t: int, summary: Info, info: seq<Info>)

  /** The moment a query looks back from. */
  function QueryTime(cond: Cond, now: int, linger: int): (t: int)
    ensures t <= now - linger && (cond.start > 0 ==> t <= cond.start)
    ensures t == now - linger || (cond.start > 0 && t == cond.start)
  {
    if cond.start > 0 then Min(now - linger, cond.start) else now - linger
  }

  class StoreLevelDB {
    var db: seq<Entry>

    ghost predicate Valid() reads this { InOrder(db) }

    constructor ()
      ensures Valid() && db == []
    {
      db := [];
    }

    method InsertEvStat(stat: Record) returns (ret: int)
      requires Valid() && stat.Typed()
      modifies this
      ensures Valid()
      ensures db == InsertInto(old(db), stat)
      ensures ret == if stat.Accepted() then 0 else -1
    {
      PutSorted(db, InsertKey(stat.KeyFields()), stat.Value());
      if stat.service == [] || stat.metric == [] || stat.ts == 0 {
        return -1;
      }
      var tag := stat.tag;
      if tag == [] {
        tag := T_TAG;
      }
      var key := InsertKey(Fields.Fields(stat.metric, stat.ts, tag, stat.entity));
      var data := L.Layout(L.MARK, stat.step, stat.count, stat.sum, stat.avg, stat.min, stat.max,
                           stat.p10, stat.p50, stat.p90);
      db := Put(db, key, L.Encode(data));
      return 0;
    }

    /** Look at the entry at `i`: whether the assertion on its metric holds, and the line read
        from it, if any, merged into the running summary. */
    method VisitAt(i: nat, cond: Cond, running: Info, n: nat, ghost seen: seq<Info>)
      returns (item: Option<Info>, summary: Info, iteratCount: nat, held: bool)
      requires i < |db|
      requires running == Running(0, [], Total(seen, OfInfo)) && n == |seen|
      ensures item == ReadEntry(db[i], cond)
      ensures summary == Running(0, [], Total(seen + AsSeq(item), OfInfo)) && iteratCount == |seen + AsSeq(item)|
      ensures held <==> OwnMetric(db[i].key, cond.metric)
    {
      var parsed := ParseKey(db[i].key);
      held := parsed.Some? ==> cond.metric == parsed.value.metric;
      item, summary, iteratCount := ReadEntry(db[i], cond), running, n;
      if item.Some? {
        TotalSnoc(seen, item.value, OfInfo);
        summary := Merge(summary, item.value, 0, [], Total(seen, OfInfo));
        iteratCount := iteratCount + 1;
      } else {
        assert seen + AsSeq(item) == seen;
      }
    }

    /** One turn of the loop. */
    method VisitNext(i: nat, cond: Cond, t: int, running: Info, n: nat, before: bool, ghost seen: seq<Info>)
      returns (item: Option<Info>, summary: Info, iteratCount: nat, held: bool)
      requires i < |db| && Scanning(db, i, cond, t, seen, running, n, before)
      requires Lex.Le(db[i].key, LowerKey(cond.metric, t, cond.interval))
      ensures item == ReadEntry(db[i], cond)
      ensures Scanning(db, i + 1, cond, t, seen + AsSeq(item), summary, iteratCount, held)
    {
      hide Remaining; hide AgreeUpTo; hide Running; hide Lex.Le;
      ScanAdvance(db, i, cond, t, seen);
      AgreeNext(db, i, cond, t);
      var own;
      item, summary, iteratCount, own := VisitAt(i, cond, running, n, seen);
      held := before && own;
    }

    method SelectByNone(cond: Cond, t: int) returns (summary: Info, held: bool)
      requires Valid()
      ensures summary == Summary(Total(Visited(db, cond, t), OfInfo)) && Tells(summary, Visited(db, cond, t))
      ensures held <==> MetricsAgree(db, cond, t)
    {
      hide Tells; hide InOrder; hide Lex.Le; hide LowerKey; hide Seek; hide Visited; hide Total; hide Scanning; hide MetricsAgree; hide AsSeq;
      var i := Seek(db, UpperKey(cond.metric, t));
      summary, held := NOTHING, true;
      var iteratCount := 0;
      ghost var seen: seq<Info> := [];
      ScanBegins(db, cond, t);
      while i < |db| && Lex.Le(db[i].key, LowerKey(cond.metric, t, cond.interval))
        invariant Scanning(db, i, cond, t, seen, summary, iteratCount, held)
        decreases |db| - i
      {
        var item;
        item, summary, iteratCount, held := VisitNext(i, cond, t, summary, iteratCount, held, seen);
        seen := seen + AsSeq(item);
        i := i + 1;
      }
      ScanEnded(db, i, cond, t, seen, summary, iteratCount, held);
      summary := FinishSummary(summary, iteratCount, Total(seen, OfInfo));
      SummaryTells(seen);
    }

    method SelectGrouped(cond: Cond, t: int) returns (summary: Info, info: seq<Info>, held: bool)
      requires Valid()
      ensures summary == Summary(Total(Visited(db, cond, t), OfInfo)) && Tells(summary, Visited(db, cond, t))
      ensures info == Lines(Build(Visited(db, cond, t), KeyBy(cond.groupby)))
      ensures if cond.groupby.ByTimestamp? then ByTimes(info, Visited(db, cond, t)) else ByTags(info, Visited(db, cond, t))
      ensures held <==> MetricsAgree(db, cond, t)
    {
      hide ByTimes; hide ByTags; hide Tells; hide InOrder; hide Lex.Le; hide LowerKey; hide Seek; hide Visited; hide Total; hide Scanning; hide MetricsAgree; hide AsSeq;
      hide Build; hide Push;
      var key := KeyBy(cond.groupby);
      var i := Seek(db, UpperKey(cond.metric, t));
      summary, held := NOTHING, true;
      var iteratCount := 0;
      var infosBy: seq<Group<Info>> := [];
      ghost var seen: seq<Info> := [];
      NoGroups(key);
      ScanBegins(db, cond, t);
      while i < |db| && Lex.Le(db[i].key, LowerKey(cond.metric, t, cond.interval))
        invariant Scanning(db, i, cond, t, seen, summary, iteratCount, held)
        invariant infosBy == Build(seen, key)
        decreases |db| - i
      {
        var item;
        item, summary, iteratCount, held := VisitNext(i, cond, t, summary, iteratCount, held, seen);
        BuildMore(seen, item, key);
        if item.Some? {
          infosBy := Push(infosBy, key(item.value), item.value);
        }
        seen := seen + AsSeq(item);
        i := i + 1;
      }
      ScanEnded(db, i, cond, t, seen, summary, iteratCount, held);
      BuildPartitions(seen, key);
      GroupedLines(seen, cond.groupby);
      var ckIteratCount;
      info, ckIteratCount := CollectGroups(infosBy);
      GroupsAddUp(seen, key, OfInfo);
      assert iteratCount == ckIteratCount;
      summary := FinishSummary(summary, iteratCount, Total(seen, OfInfo));
      SummaryTells(seen);
    }

    method SelectEvStat(cond: Cond, now: int, linger: int) returns (r: Result, held: bool)
      requires Valid()
      ensures cond.service == [] ==> r.ret == -1 && held
      ensures cond.service != [] ==> r.t <= now - linger && (cond.start > 0 ==> r.t <= cond.start)
      ensures cond.service != [] ==> r.t == now - linger || (cond.start > 0 && r.t == cond.start)
      ensures cond.service != [] ==>
        var visited := Visited(db, cond, QueryTime(cond, now, linger));
        && r.ret == 0 && r.t == QueryTime(cond, now, linger)
        && r.summary == Summary(Total(visited, OfInfo))
        && r.info == (if cond.groupby.ByNone? then [] else Lines(Build(visited, KeyBy(cond.groupby))))
        && Tells(r.summary, visited)
        && (cond.groupby.ByTimestamp? ==> ByTimes(r.info, visited)) && (cond.groupby.ByTag? ==> ByTags(r.info, visited))
        && (held <==> MetricsAgree(db, cond, QueryTime(cond, now, linger)))
    {
      var nothing := Info(0, [], 0, 0, 0, 0, 0, 0, 0, 0);
      if cond.service == [] {
        return Result(-1, 0, nothing, []), true;
      }
      var t := now - linger;
      if cond.start > 0 {
        t := Min(now - linger, cond.start);
      }
      if cond.groupby.ByNone? {
        var summary;
        summary, held := SelectByNone(cond, t);
        r := Result(0, t, summary, []);
      } else {
        var summary, info;
        summary, info, held := SelectGrouped(cond, t);
        r := Result(0, t, summary, info);
      }
    }

    /** The listing of all metrics, which jumps from each metric to the first key behind it. */
    method SelectMetrics() returns (metrics: seq<bytes>)
      requires InOrder(db)
      ensures forall m :: m in metrics <==> m in Metrics(db)
      ensures forall i, j | 0 <= i < j < |metrics| :: Lex.Lt(metrics[i], metrics[j])
    {
      metrics := [];
      var cached: bytes := [];
      var i := 0;
      while i < |db|
        invariant i <= |db|
        invariant cached == [] || cached in metrics
        invariant forall m | m in metrics :: m in Metrics(db)
        invariant forall k | 0 <= k < i && ParseKey(db[k].key).Some? :: ParseKey(db[k].key).value.metric in metrics
        invariant Ascending(metrics)
      {
        var parsed := ParseKey(db[i].key);
        if parsed.None? {
          i := i + 1;
        } else {
          var m := parsed.value.metric;
          if cached != m {
            cached := m;
            SetInsertKeeps(metrics, m);
            metrics := SetInsert(metrics, m);
          }
          SkipOnlySame(db, i);
          i := Seek(db, cached + [DOLLAR]);
        }
      }
    }
  }

  /** `std::set<std::string>` as an ascending sequence. */
  ghost predicate Ascending(s: seq<bytes>) { forall i, j | 0 <= i < j < |s| :: Lex.Lt(s[i], s[j]) }

  function SetInsert(s: seq<bytes>, x: bytes): seq<bytes> {
    if s == [] || Lex.Lt(x, s[0]) then [x] + s
    else if s[0] == x then s
    else [s[0]] + SetInsert(s[1..], x)
  }

  lemma {:induction false} SetInsertKeeps(s: seq<bytes>, x: bytes)
    requires Ascending(s)
    ensures Ascending(SetInsert(s, x))
    ensures forall y :: y in SetInsert(s, x) <==> y in s || y == x
  {
    if s == [] {
    } else if Lex.Lt(x, s[0]) {
      forall i | 0 < i < |s| ensures Lex.Lt(x, s[i]) { Lex.Total(s[0], s[i]); Lex.LtLe(x, s[0], s[i]); }
    } else if s[0] != x {
      SetInsertKeeps(s[1..], x);
      Lex.Total(s[0], x);
      var r := SetInsert(s[1..], x);
      forall i | 0 <= i < |r| ensures Lex.Lt(s[0], r[i]) { assert r[i] in r; }
      assert s == [s[0]] + s[1..];
    }
  }

  /** Turn the running sums of a scan into averages. */
  method FinishSummary(running: Info, iteratCount: nat, ghost a: Acc) returns (r: Info)
    requires running == Running(0, [], a) && a.n == iteratCount
    ensures r == Summary(a)
  {
    r := running;
    if r.count != 0 && iteratCount != 0 {
      r := r.(avg := Wrap32(TruncDiv(r.sum, r.count)));
      r := r.(p10 := TruncDiv(r.p10, iteratCount));
      r := r.(p50 := TruncDiv(r.p50, iteratCount));
      r := r.(p90 := TruncDiv(r.p90, iteratCount));
    } else {
      r := r.(min := 0, max := 0);
    }
  }

  /** The line of one group. */
  method CollectGroup(g: Group<Info>) returns (collect: Info)
    requires g.items != []
    ensures collect == LineOf(g)
  {
    var items := g.items;
    var ts, tag := if g.key.Time? then g.key.t else 0, if g.key.Name? then g.key.s else [];
    collect := Info(ts, tag, 0, 0, 0, INT32_MAX, INT32_MIN, 0, 0, 0);
    var i := 0;
    assert collect == Running(ts, tag, Total(items[..0], OfInfo));
    while i < |items|
      invariant i <= |items|
      invariant collect == Running(ts, tag, Total(items[..i], OfInfo))
    {
      hide Total;
      assert items[..i + 1] == items[..i] + [items[i]];
      TotalSnoc(items[..i], items[i], OfInfo);
      collect := Merge(collect, items[i], ts, tag, Total(items[..i], OfInfo));
      i := i + 1;
    }
    assert items[..i] == items;
    TotalLines(items);
    collect := FinishGroup(collect, |items|, g.key, Total(items, OfInfo));
  }

  method FinishGroup(running: Info, n: nat, ghost k: Key, ghost a: Acc) returns (r: Info)
    requires n == a.n > 0
    requires running == Running(if k.Time? then k.t else 0, if k.Name? then k.s else [], a)
    ensures r == GroupLine(k, a)
  {
    r := running;
    if r.count > 0 {
      r := r.(avg := Wrap32(TruncDiv(r.sum, r.count)));
      r := r.(p10 := UnsignedMean(r.p10, n));
      r := r.(p50 := UnsignedMean(r.p50, n));
      r := r.(p90 := UnsignedMean(r.p90, n));
    } else {
      r := r.(min := 0, max := 0);
    }
  }

  method CollectGroups(gs: seq<Group<Info>>) returns (info: seq<Info>, ckIteratCount: nat)
    requires forall i | 0 <= i < |gs| :: gs[i].items != []
    ensures info == Lines(gs)
    ensures ckIteratCount == GroupsTotal(gs, OfInfo).n
  {
    info, ckIteratCount := [], 0;
    var g := 0;
    assert gs[0..] == gs;
    while g < |gs|
      invariant g <= |gs|
      invariant info == Lines(gs[..g])
      invariant ckIteratCount + GroupsTotal(gs[g..], OfInfo).n == GroupsTotal(gs, OfInfo).n
    {
      var collect := CollectGroup(gs[g]);
      TotalLines(gs[g].items);
      hide LineOf;
      assert gs[..g + 1][..g] == gs[..g] && gs[g..][1..] == gs[g + 1..] && gs[g..][0] == gs[g];
      info := info + [collect];
      ckIteratCount := ckIteratCount + |gs[g].items|;
      g := g + 1;
    }
    assert gs[..g] == gs;
  }
}
