/** The handlers of a service, one per entity, write into one store; a query sees what all of
    them have written. */
module Writers {
  import opened Bytes
  import opened StoreKey
  import opened KeyRange
  import opened Groups
  import opened Aggregate
  import opened Means
  import opened LineOrder
  import opened EventStats
  import opened SlotMachine
  import opened Index
  import opened Store
  import opened EventHandling
  import opened Lossless
  import opened EndToEnd
  import opened RecordKeys
  import opened Answers

  /** What one handler has accepted and processed. */
  datatype Writer = Writer(entity: bytes, slots: seq<Slot>, accepted: seq<Stamped>)

  /** Every accepted event can be stored: no separator or NUL in its fields, a metric, a time
      whose stamp has ten digits, and a key that fits its buffer. */
  ghost predicate AllStorable(accepted: seq<Stamped>, entity: bytes) {
    forall i | 0 <= i < |accepted| ::
      Storable(Fields.Fields(accepted[i].ev.metric, accepted[i].slot, StoredTag(accepted[i].ev.tag), entity))
  }

  /** Each slot is processed once, with exactly the events accepted for it. */
  ghost predicate Orderly(w: Writer) {
    && SmallHistory(w.accepted) && AllStorable(w.accepted, w.entity)
    && AllFaithful(w.slots, w.accepted) && DistinctTimes(w.slots)
  }

  ghost predicate AllOrderly(ws: seq<Writer>) { forall i | 0 <= i < |ws| :: Orderly(ws[i]) }

  ghost predicate DistinctEntities(ws: seq<Writer>) { forall i, j | 0 <= i < j < |ws| :: ws[i].entity != ws[j].entity }

  function Events(ws: seq<Writer>): nat {
    if ws == [] then 0 else Events(ws[..|ws| - 1]) + |ws[|ws| - 1].accepted|
  }

  ghost function RecordsOf(service: bytes, ws: seq<Writer>): seq<Record> {
    if ws == [] then []
    else RecordsOf(service, ws[..|ws| - 1]) + AllRecords(service, ws[|ws| - 1].entity, ws[|ws| - 1].slots)
  }

  // ------------------------------------------------------------- what the records are

  ghost predicate OrderedLines(rs: seq<Record>) { forall i | 0 <= i < |rs| :: Ordered(rs[i].Line()) }

  lemma SourceWritable(rs: seq<Record>, service: bytes, entity: bytes, accepted: seq<Stamped>)
    requires AllSource(rs, service, entity, accepted) && AllStorable(accepted, entity) && service != []
    ensures Writable(rs) && Counted(rs) && OrderedLines(rs) && forall i | 0 <= i < |rs| :: rs[i].entity == entity
  {
    forall i | 0 <= i < |rs| ensures rs[i].Typed() && rs[i].Accepted() && Storable(rs[i].KeyFields()) {
      assert Source(rs[i], service, entity, accepted);
      var j :| 0 <= j < |accepted| && CameFrom(accepted[j], rs[i]);
      assert rs[i].KeyFields() == Fields.Fields(accepted[j].ev.metric, accepted[j].slot, StoredTag(accepted[j].ev.tag), entity);
    }
    forall i | 0 <= i < |rs| ensures rs[i].count >= 1 && Ordered(rs[i].Line()) && rs[i].entity == entity {
      assert Source(rs[i], service, entity, accepted);
      CarriesOrdered(rs[i], accepted);
    }
  }

  ghost predicate EntityIn(e: bytes, ws: seq<Writer>) { exists i :: 0 <= i < |ws| && ws[i].entity == e }

  ghost predicate Good(rs: seq<Record>, ws: seq<Writer>) {
    Writable(rs) && Counted(rs) && OrderedLines(rs) && forall i | 0 <= i < |rs| :: EntityIn(rs[i].entity, ws)
  }

  lemma GoodConcat(a: seq<Record>, b: seq<Record>, ws: seq<Writer>, w: Writer)
    requires Good(a, ws) && Writable(b) && Counted(b) && OrderedLines(b) && forall i | 0 <= i < |b| :: b[i].entity == w.entity
    ensures Good(a + b, ws + [w])
  {
    var more := ws + [w];
    assert more[|ws|] == w;
    forall i | 0 <= i < |a| ensures EntityIn(a[i].entity, more) {
      assert EntityIn(a[i].entity, ws);
      var j :| 0 <= j < |ws| && ws[j].entity == a[i].entity;
      assert more[j] == ws[j];
    }
  }

  lemma {:induction false} RecordsGood(service: bytes, ws: seq<Writer>)
    requires service != [] && AllOrderly(ws)
    ensures Good(RecordsOf(service, ws), ws)
  {
    if ws != [] {
      var init, w := ws[..|ws| - 1], ws[|ws| - 1];
      assert ws == init + [w];
      RecordsGood(service, init);
      OneWriter(service, w);
      GoodConcat(RecordsOf(service, init), AllRecords(service, w.entity, w.slots), init, w);
    }
  }

  lemma GoodPermuted(rs: seq<Record>, all: seq<Record>, ws: seq<Writer>)
    requires Good(all, ws) && multiset(rs) == multiset(all)
    ensures Good(rs, ws)
  {
    forall i | 0 <= i < |rs|
      ensures rs[i].Typed() && rs[i].Accepted() && Storable(rs[i].KeyFields())
      ensures rs[i].count >= 1 && Ordered(rs[i].Line()) && EntityIn(rs[i].entity, ws)
    {
      assert rs[i] in multiset(all);
      var j :| 0 <= j < |all| && all[j] == rs[i];
      assert all[j].count >= 1 && Storable(all[j].KeyFields()) && Ordered(all[j].Line());
    }
  }

  ghost predicate NoClashes(ws: seq<Writer>) {
    forall i | 0 <= i < |ws| :: NoClash(ws[i].accepted, Times(ws[i].slots))
  }

  lemma OtherEntity(a: seq<Record>, b: seq<Record>, ws: seq<Writer>, w: Writer)
    requires Good(a, ws) && !EntityIn(w.entity, ws) && forall i | 0 <= i < |b| :: b[i].entity == w.entity
    ensures forall i, j | 0 <= i < |a| && 0 <= j < |b| :: a[i].KeyFields() != b[j].KeyFields()
  {
    hide Writable; hide OrderedLines;
    forall i, j | 0 <= i < |a| && 0 <= j < |b| ensures a[i].KeyFields() != b[j].KeyFields() {
      assert EntityIn(a[i].entity, ws);
    }
  }

  lemma OneWriter(service: bytes, w: Writer)
    requires service != [] && Orderly(w)
    ensures var b := AllRecords(service, w.entity, w.slots);
      && Writable(b) && Counted(b) && OrderedLines(b) && (forall i | 0 <= i < |b| :: b[i].entity == w.entity)
      && (DistinctKeys(b) <==> NoClash(w.accepted, Times(w.slots)))
  {
    SlotsSource(service, w.entity, w.slots, w.accepted);
    AllRecordsClash(service, w.entity, w.slots, w.accepted);
    SourceWritable(AllRecords(service, w.entity, w.slots), service, w.entity, w.accepted);
  }

  lemma LastWriter(init: seq<Writer>, w: Writer)
    requires AllOrderly(init + [w]) && DistinctEntities(init + [w])
    ensures AllOrderly(init) && Orderly(w) && DistinctEntities(init) && !EntityIn(w.entity, init)
    ensures NoClashes(init + [w]) <==> NoClashes(init) && NoClash(w.accepted, Times(w.slots))
  {
    var ws := init + [w];
    hide Orderly; hide NoClash;
    assert ws[|init|] == w && forall i | 0 <= i < |init| :: ws[i] == init[i];
  }

  /** No record is written over another one exactly when no tags clash. */
  lemma {:induction false} RecordsClash(service: bytes, ws: seq<Writer>)
    requires service != [] && AllOrderly(ws) && DistinctEntities(ws)
    ensures DistinctKeys(RecordsOf(service, ws)) <==> NoClashes(ws)
  {
    if ws == [] {
      assert RecordsOf(service, ws) == [];
    } else {
      var init, w := ws[..|ws| - 1], ws[|ws| - 1];
      var a, b := RecordsOf(service, init), AllRecords(service, w.entity, w.slots);
      assert RecordsOf(service, ws) == a + b;
      assert ws == init + [w];
      hide *;
      LastWriter(init, w);
      RecordsClash(service, init);
      RecordsGood(service, init);
      OneWriter(service, w);
      OtherEntity(a, b, init, w);
      DistinctConcat(a, b);
    }
  }

  // ------------------------------------------------------------- the expected answer

  /** What one handler adds to a query. */
  function ExpectedOf(cond: Cond, t: int): Writer -> Acc {
    (w: Writer) => If(EntityMatches(w.entity, cond), Direct(w.accepted, cond, t, Times(w.slots)))
  }

  /** Count, sum, minimum and maximum of all events a query asks for. */
  function Expected(ws: seq<Writer>, cond: Cond, t: int): Acc { Total(ws, ExpectedOf(cond, t)) }

  lemma {:induction false} RecordsTotal(service: bytes, ws: seq<Writer>, cond: Cond, t: int)
    requires AllOrderly(ws)
    ensures Total(RecordsOf(service, ws), CoreOf(cond, t)) == Expected(ws, cond, t)
  {
    if ws == [] {
      assert Total(RecordsOf(service, ws), CoreOf(cond, t)) == ZERO == Expected(ws, cond, t);
    } else {
      var init, w := ws[..|ws| - 1], ws[|ws| - 1];
      assert ws == init + [w];
      var a, b := RecordsOf(service, init), AllRecords(service, w.entity, w.slots);
      assert RecordsOf(service, ws) == a + b;
      AllRecordsTotal(service, w.entity, w.slots, w.accepted, cond, t);
      assert ExpectedOf(cond, t)(w) == Total(b, CoreOf(cond, t));
      RecordsTotal(service, init, cond, t);
      assert Expected(ws, cond, t) == Total(ws, ExpectedOf(cond, t)) && Expected(init, cond, t) == Total(init, ExpectedOf(cond, t));
      hide *;
      TotalConcat(a, b, CoreOf(cond, t));
      TotalSnoc(init, w, ExpectedOf(cond, t));
    }
  }

  lemma {:induction false} ExpectedBalanced(ws: seq<Writer>, cond: Cond, t: int)
    requires AllOrderly(ws)
    ensures Balanced(Expected(ws, cond, t)) && Expected(ws, cond, t).count <= Events(ws)
  {
    if ws != [] {
      var init, w := ws[..|ws| - 1], ws[|ws| - 1];
      ExpectedBalanced(init, cond, t);
      DirectBalanced(w.accepted, cond, t, Times(w.slots));
      var x := ExpectedOf(cond, t)(w);
      assert Balanced(x) && x.count <= |w.accepted|;
      BalancedPlus(Expected(init, cond, t), x);
      assert Expected(ws, cond, t) == Plus(Expected(init, cond, t), x);
      assert Events(ws) == Events(init) + |w.accepted|;
    }
  }

  // ------------------------------------------------------------- exact answers

  /** The records of all handlers, written in any order. */
  ghost predicate Written(rs: seq<Record>, service: bytes, ws: seq<Writer>) {
    && service != [] && AllOrderly(ws) && DistinctEntities(ws) && Events(ws) <= INT32_MAX
    && multiset(rs) == multiset(RecordsOf(service, ws))
  }

  lemma WrittenKeeps(rs: seq<Record>, service: bytes, ws: seq<Writer>)
    requires Written(rs, service, ws)
    ensures Writable(rs) && Counted(rs) && OrderedLines(rs)
    ensures DistinctKeys(rs) <==> NoClashes(ws)
  {
    var all := RecordsOf(service, ws);
    RecordsGood(service, ws);
    GoodPermuted(rs, all, ws);
    RecordsClash(service, ws);
    hide *;
    if DistinctKeys(all) { DistinctPermuted(all, rs); }
    if DistinctKeys(rs) { DistinctPermuted(rs, all); }
  }

  lemma WrittenTotal(rs: seq<Record>, service: bytes, ws: seq<Writer>, cond: Cond, t: int)
    requires Written(rs, service, ws)
    ensures Core(Total(rs, ContributionOf(cond, t))) == Expected(ws, cond, t)
    ensures Balanced(Expected(ws, cond, t)) && Expected(ws, cond, t).count <= INT32_MAX
  {
    CoreTotal(rs, cond, t);
    TotalPermuted(rs, RecordsOf(service, ws), CoreOf(cond, t));
    RecordsTotal(service, ws, cond, t);
    ExpectedBalanced(ws, cond, t);
  }

  /** Two-level aggregation is lossless: the count, sum, average, minimum and maximum a query
      returns are those of the deduplicated events it asks for, computed directly. */
  lemma AnswerExact(rs: seq<Record>, service: bytes, ws: seq<Writer>, cond: Cond, t: int)
    requires Written(rs, service, ws) && NoClashes(ws) && Askable(cond, t)
    ensures AllTyped(rs) && Exact(Answer(StoreAll([], rs), cond, t), Expected(ws, cond, t))
  {
    var d := Expected(ws, cond, t);
    WrittenKeeps(rs, service, ws);
    StoreAllTotal(rs, cond, t);
    ScanIsFilter(StoreAll([], rs), cond, t);
    var a := Total(rs, ContributionOf(cond, t));
    LinesAndCount(rs, cond, t);
    WrittenTotal(rs, service, ws, cond, t);
    assert a.count == Core(a).count;
    SummaryExact(a, d);
    assert AllTyped(rs) && Answer(StoreAll([], rs), cond, t) == Summary(a);
    hide *;
    assert Exact(Answer(StoreAll([], rs), cond, t), d);
  }

  /** The percentiles of every answer are the truncated means of those of the records asked for,
      whatever the order in which the handlers wrote them. */
  lemma AnswerPercentiles(rs: seq<Record>, service: bytes, ws: seq<Writer>, cond: Cond, t: int)
    requires Written(rs, service, ws) && NoClashes(ws) && Askable(cond, t)
    ensures AllTyped(rs) && Tells(Answer(StoreAll([], rs), cond, t), LinesAsked(rs, cond, t))
  {
    hide *;
    WrittenKeeps(rs, service, ws);
    RecordsTell(rs, cond, t);
  }

  /** Every query is answered exactly if and only if no tags clash. */
  lemma AnswersExactIff(rs: seq<Record>, service: bytes, ws: seq<Writer>)
    requires Written(rs, service, ws)
    ensures AllTyped(rs)
    ensures (forall cond, t | Askable(cond, t) :: Exact(Answer(StoreAll([], rs), cond, t), Expected(ws, cond, t))) <==> NoClashes(ws)
  {
    WrittenKeeps(rs, service, ws);
    if NoClashes(ws) {
      forall cond, t | Askable(cond, t) ensures Exact(Answer(StoreAll([], rs), cond, t), Expected(ws, cond, t)) {
        AnswerExact(rs, service, ws, cond, t);
      }
    } else {
      var i, j :| 0 <= i < j < |rs| && rs[i].KeyFields() == rs[j].KeyFields();
      ClashInexact(rs, service, ws, i, j);
    }
  }

  lemma ClashInexact(rs: seq<Record>, service: bytes, ws: seq<Writer>, i: nat, j: nat)
    requires Written(rs, service, ws) && AllTyped(rs)
    requires i < j < |rs| && rs[i].KeyFields() == rs[j].KeyFields()
    ensures var cond := Revealing(rs[i]);
      Askable(cond, MAX_TIME) && !Exact(Answer(StoreAll([], rs), cond, MAX_TIME), Expected(ws, cond, MAX_TIME))
  {
    var cond, t := Revealing(rs[i]), MAX_TIME;
    WrittenKeeps(rs, service, ws);
    WrittenTotal(rs, service, ws, cond, t);
    assert Storable(rs[i].KeyFields());
    assert Askable(cond, t);
    var a := Total(rs, ContributionOf(cond, t));
    assert a.count == Core(a).count;
    hide *;
    OverwriteShows(rs, i, j);
    if Exact(Answer(StoreAll([], rs), cond, t), Expected(ws, cond, t)) { ExactCount(Answer(StoreAll([], rs), cond, t), Expected(ws, cond, t)); }
  }

  lemma ExactCount(s: Info, d: Acc)
    requires Exact(s, d)
    ensures s.count == d.count
  {
  }

  // ------------------------------------------------------------- ordered answers

  ghost predicate LineOfOne(i: Info, rs: seq<Record>) { exists j :: 0 <= j < |rs| && i == rs[j].Line() }

  /** Every line is that of a record. */
  ghost predicate LinesOf(vs: seq<Info>, rs: seq<Record>) { forall i | 0 <= i < |vs| :: LineOfOne(vs[i], rs) }

  lemma LinesConcat(a: seq<Info>, b: seq<Info>, rs: seq<Record>)
    requires LinesOf(a, rs) && LinesOf(b, rs)
    ensures LinesOf(a + b, rs)
  {
    hide LineOfOne;
  }

  lemma OneLineOf(rs: seq<Record>, i: nat)
    requires i < |rs|
    ensures LinesOf(AsSeq(Some(rs[i].Line())), rs) && LinesOf(AsSeq(None), rs)
  {
    assert LineOfOne(rs[i].Line(), rs);
  }

  lemma HeldLine(e: Entry, rs: seq<Record>, cond: Cond)
    requires Writable(rs) && HeldBy(e, rs)
    ensures LinesOf(AsSeq(ReadEntry(e, cond)), rs)
  {
    var i :| 0 <= i < |rs| && e == EntryOf(rs[i]);
    assert Storable(rs[i].KeyFields()) && rs[i].Typed() && e == Entry(InsertKey(rs[i].KeyFields()), rs[i].Value());
    hide *;
    ReadBack(rs[i], cond);
    OneLineOf(rs, i);
  }

  lemma {:induction false} MatchingLines(db: seq<Entry>, rs: seq<Record>, cond: Cond, t: int)
    requires Writable(rs) && forall j | 0 <= j < |db| :: HeldBy(db[j], rs)
    ensures LinesOf(Matching(db, cond, t), rs) && |Matching(db, cond, t)| <= |db|
  {
    if db != [] {
      hide ReadEntry; hide HeldBy; hide Matches; hide Writable; hide LinesOf;
      MatchingLines(db[1..], rs, cond, t);
      assert HeldBy(db[0], rs);
      HeldLine(db[0], rs, cond);
      LinesConcat(AsSeq(ReadEntry(db[0], cond)), Matching(db[1..], cond, t), rs);
      assert [] + Matching(db[1..], cond, t) == Matching(db[1..], cond, t);
    }
  }

  lemma LinesOrdered(vs: seq<Info>, rs: seq<Record>)
    requires LinesOf(vs, rs) && OrderedLines(rs)
    ensures AllOrdered(vs)
  {
    hide Ordered;
    forall i | 0 <= i < |vs| ensures Ordered(vs[i]) {
      assert LineOfOne(vs[i], rs);
      var j :| 0 <= j < |rs| && vs[i] == rs[j].Line();
      assert Ordered(rs[j].Line());
    }
  }

  lemma {:induction false} StoreAllSize(rs: seq<Record>)
    requires AllTyped(rs)
    ensures |StoreAll([], rs)| <= |rs|
  {
    if rs != [] { StoreAllSize(rs[..|rs| - 1]); }
  }

  /** The lines a query visits: those of records, ordered, and not more events than accepted. */
  lemma AnswerLines(rs: seq<Record>, service: bytes, ws: seq<Writer>, cond: Cond, t: int)
    requires Written(rs, service, ws) && Askable(cond, t)
    ensures AllTyped(rs)
    ensures var visited := Visited(StoreAll([], rs), cond, t);
      LinesOf(visited, rs) && AllOrdered(visited) && |visited| <= |rs| && Total(visited, OfInfo).count <= Events(ws)
  {
    WrittenKeeps(rs, service, ws);
    var db := StoreAll([], rs);
    assert Stored(db, cond, t) == Total(Matching(db, cond, t), OfInfo);
    var a := Total(rs, ContributionOf(cond, t));
    assert 0 <= t <= MAX_TIME && 0 <= cond.interval && ScanRight(cond.metric, t, cond.interval) && a.count == Core(a).count;
    assert AllOrderly(ws);
    hide *;
    StoreAllLoses(rs, cond, t);
    StoreAllSize(rs);
    HeldEntries(db, rs);
    EntriesWellStored(db, rs);
    ScanIsFilter(db, cond, t);
    MatchingLines(db, rs, cond, t);
    LinesOrdered(Visited(db, cond, t), rs);
    WrittenTotal(rs, service, ws, cond, t);
    ExpectedBalanced(ws, cond, t);
  }

  /** Percentiles and averages of every answer lie between minimum and maximum in their order,
      whether or not tags clash, as long as the sums fit their accumulators. */
  lemma FittingAnswerOrdered(rs: seq<Record>, service: bytes, ws: seq<Writer>, cond: Cond, t: int)
    requires Written(rs, service, ws) && Askable(cond, t)
    ensures AllTyped(rs)
    ensures var visited := Visited(StoreAll([], rs), cond, t);
      visited != [] && Fits(Total(visited, OfInfo)) ==> Ordered(Answer(StoreAll([], rs), cond, t))
  {
    AnswerLines(rs, service, ws, cond, t);
    var visited := Visited(StoreAll([], rs), cond, t);
    assert Answer(StoreAll([], rs), cond, t) == Summary(Total(visited, OfInfo));
    hide *;
    if visited != [] && Fits(Total(visited, OfInfo)) { SummaryOrdered(visited); }
  }

  // Values within bounds.

  ghost predicate Valued(accepted: seq<Stamped>, lo: int, hi: int) {
    forall i | 0 <= i < |accepted| :: lo <= accepted[i].ev.value <= hi
  }

  ghost predicate AllValued(ws: seq<Writer>, lo: int, hi: int) { forall i | 0 <= i < |ws| :: Valued(ws[i].accepted, lo, hi) }

  ghost predicate RecordsBetween(rs: seq<Record>, lo: int, hi: int) {
    forall i | 0 <= i < |rs| :: lo <= rs[i].min && rs[i].max <= hi
  }

  lemma TaggedMembers(accepted: seq<Stamped>, ts: int, metric: bytes, tag: bytes)
    ensures forall e | e in Tagged(accepted, ts, metric, tag) :: Stamped(ts, e) in accepted
  {
    var h := History(accepted, ts, Name(metric));
    HistoryMembers(accepted, ts, Name(metric));
    DedupMembers(h);
    SelectMembers(Dedup(h), TagKeyOf, Name(tag));
    hide History; hide Dedup; hide Select;
    forall e | e in Tagged(accepted, ts, metric, tag) ensures Stamped(ts, e) in accepted {
      assert e in Dedup(h) && e in h;
      var j :| 0 <= j < |h| && h[j] == e;
    }
  }

  lemma CarriesBetween(r: Record, accepted: seq<Stamped>, lo: int, hi: int)
    requires Carries(r, accepted) && Valued(accepted, lo, hi)
    ensures lo <= r.min && r.max <= hi
  {
    var evs := Tagged(accepted, r.ts, r.metric, r.tag);
    TaggedMembers(accepted, r.ts, r.metric, r.tag);
    CarriesOrdered(r, accepted);
    ValuesExact(evs);
    hide Tagged;
    KthIsInt32(Values(evs), 0, r.min);
    KthIsInt32(Values(evs), |evs| - 1, r.max);
    hide Values; hide IsKth;
    var i :| 0 <= i < |evs| && Values(evs)[i] == r.min;
    var j :| 0 <= j < |evs| && Values(evs)[j] == r.max;
    assert Stamped(r.ts, evs[i]) in accepted && Stamped(r.ts, evs[j]) in accepted;
  }

  lemma WriterBetween(service: bytes, w: Writer, lo: int, hi: int)
    requires Orderly(w) && Valued(w.accepted, lo, hi)
    ensures RecordsBetween(AllRecords(service, w.entity, w.slots), lo, hi)
  {
    var rs := AllRecords(service, w.entity, w.slots);
    SlotsSource(service, w.entity, w.slots, w.accepted);
    hide Orderly; hide AllRecords; hide Carries;
    forall i | 0 <= i < |rs| ensures lo <= rs[i].min && rs[i].max <= hi {
      assert Source(rs[i], service, w.entity, w.accepted);
      CarriesBetween(rs[i], w.accepted, lo, hi);
    }
  }

  lemma {:induction false} RecordsWithin(service: bytes, ws: seq<Writer>, lo: int, hi: int)
    requires AllOrderly(ws) && AllValued(ws, lo, hi)
    ensures RecordsBetween(RecordsOf(service, ws), lo, hi)
  {
    if ws != [] {
      var w := ws[|ws| - 1];
      RecordsWithin(service, ws[..|ws| - 1], lo, hi);
      WriterBetween(service, w, lo, hi);
    }
  }

  lemma LinesBetween(vs: seq<Info>, rs: seq<Record>, all: seq<Record>, lo: int, hi: int)
    requires LinesOf(vs, rs) && multiset(rs) == multiset(all) && RecordsBetween(all, lo, hi)
    ensures Between(vs, lo, hi)
  {
    forall i | 0 <= i < |vs| ensures lo <= vs[i].min && vs[i].max <= hi {
      assert LineOfOne(vs[i], rs);
      var j :| 0 <= j < |rs| && vs[i] == rs[j].Line();
      assert rs[j] in multiset(all);
      var h :| 0 <= h < |all| && all[h] == rs[j];
      assert lo <= all[h].min && all[h].max <= hi;
    }
  }

  /** With values from `lo` to `hi` and at most `n` records, every answer is ordered when `n`
      times the values are 32-bit numbers. */
  lemma AnswerOrdered(rs: seq<Record>, service: bytes, ws: seq<Writer>, cond: Cond, t: int, n: nat, lo: int, hi: int)
    requires Written(rs, service, ws) && Askable(cond, t)
    requires AllValued(ws, lo, hi) && |rs| <= n && SumsFit(n, lo, hi)
    ensures AllTyped(rs) && (Visited(StoreAll([], rs), cond, t) != [] ==> Ordered(Answer(StoreAll([], rs), cond, t)))
  {
    AnswerLines(rs, service, ws, cond, t);
    var visited := Visited(StoreAll([], rs), cond, t);
    assert Answer(StoreAll([], rs), cond, t) == Summary(Total(visited, OfInfo));
    assert AllOrderly(ws) && Events(ws) <= INT32_MAX && multiset(rs) == multiset(RecordsOf(service, ws));
    hide *;
    RecordsWithin(service, ws, lo, hi);
    LinesBetween(visited, rs, RecordsOf(service, ws), lo, hi);
    if visited != [] {
      OrderedCountsFit(visited);
      WithinOrdered(visited, n, lo, hi);
    }
  }
}
