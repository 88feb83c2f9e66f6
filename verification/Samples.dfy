/** Slots with a single event: what is stored about it and what a query is told. */
module Samples {
  import opened Bytes
  import opened StoreKey
  import opened Decimal
  import opened Groups
  import opened Aggregate
  import opened LineOrder
  import opened EventStats
  import opened SlotMachine
  import opened Index
  import opened Store
  import opened EventHandling
  import opened Lossless
  import opened EndToEnd
  import opened RecordKeys
  import opened Answers
  import opened Writers

  const METRIC: bytes := [0x6d]
  const TAG: bytes := [0x74]

  /** An event of the metric and tag used here. */
  predicate Sample(e: Event) { e.metric == METRIC && e.tag == TAG }

  function SingleSlot(ts: int, step: int, e: Event): Slot { Slot(ts, step, [Group(Name(e.metric), [e])]) }

  /** All entities, all times. */
  function AnyTime(service: bytes): Cond { Cond(service, METRIC, [], [], 0, 0, ByNone) }

  lemma AnyTimeAskable(service: bytes)
    ensures Askable(AnyTime(service), MAX_TIME)
  {
  }

  // ------------------------------------------------------------- one record

  /** The statistics of one event. */
  function SingleStat(v: int): Stat {
    var w, sum := Wrap32(v), Wrap64(v);
    Stat(1, sum, Wrap32(sum), w, w, w, w, w)
  }

  lemma SingleKth(w: int)
    ensures IsKth([w], 0, w)
  {
    assert [w][..0] == [];
  }

  lemma SingleStatOf(e: Event)
    ensures StatOf([e]) == SingleStat(e.value)
  {
    var s := SingleStat(e.value);
    assert [e][..0] == [] && Sum([e]) == Sum([]) + e.value;
    assert Values([e]) == [Wrap32(e.value)];
    assert TruncDiv(s.sum, 1) == s.sum by { assert s.sum / 1 == s.sum && (-s.sum) / 1 == -s.sum; }
    SingleKth(Wrap32(e.value));
    hide Wrap32; hide Wrap64; hide IsKth; hide TruncDiv;
    StatUnique([e], s, StatOf([e]));
  }

  function SingleRecord(service: bytes, entity: bytes, ts: int, step: int, e: Event): Record {
    RecordOf(service, entity, SingleSlot(ts, step, e), e.metric, e.tag, SingleStat(e.value))
  }

  lemma SingleTags(e: Event)
    ensures ByTags([e]) == [Group(Name(e.tag), [e])]
  {
    assert [e][..0] == [];
    assert Dedup([e]) == [e];
    BuildSnoc([], e, TagKeyOf);
    assert [] + [e] == [e];
  }

  lemma SingleSlotRecords(service: bytes, entity: bytes, ts: int, step: int, e: Event)
    ensures SlotRecords(service, entity, SingleSlot(ts, step, e)) == [SingleRecord(service, entity, ts, step, e)]
  {
    var x := SingleSlot(ts, step, e);
    SingleTags(e);
    SingleStatOf(e);
    hide StatOf; hide SingleStat; hide ByTags;
    assert x.data[..0] == [] && GroupRecords(service, entity, x, []) == [];
    assert MetricRecords(service, entity, x, x.data[0]) == [SingleRecord(service, entity, ts, step, e)];
  }

  predicate ShortEntity(entity: bytes) { NoHash(entity) && 0 !in entity && |entity| <= 10 }

  lemma SampleStorable(e: Event, ts: int, entity: bytes)
    requires Sample(e) && 1 <= ts <= MAX_TIME && ShortEntity(entity)
    ensures Storable(Fields.Fields(e.metric, ts, StoredTag(e.tag), entity))
  {
    TenDigits(ts);
    StampIsDec(ts);
  }

  lemma SingleWritable(service: bytes, entity: bytes, ts: int, step: int, e: Event)
    requires service != [] && Sample(e) && 1 <= ts <= MAX_TIME && ShortEntity(entity)
    ensures var r := SingleRecord(service, entity, ts, step, e); Writable([r]) && Counted([r])
    ensures SingleRecord(service, entity, ts, step, e).KeyFields() == Fields.Fields(METRIC, ts, TAG, entity)
  {
    SingleStatOf(e);
    RecordTyped(service, entity, SingleSlot(ts, step, e), e.metric, e.tag, [e]);
    SampleStorable(e, ts, entity);
  }

  /** What it adds to the query for everything. */
  lemma SingleContribution(service: bytes, entity: bytes, ts: int, step: int, e: Event)
    requires Sample(e) && ts <= MAX_TIME
    ensures var w := Wrap32(e.value);
      Contribution(SingleRecord(service, entity, ts, step, e), AnyTime(service), MAX_TIME) == Acc(1, Wrap64(e.value), w, w, w, w, w, 1)
  {
  }

  // ------------------------------------------------------------- what is expected

  ghost predicate AllSamples(accepted: seq<Stamped>) {
    forall i | 0 <= i < |accepted| :: Sample(accepted[i].ev) && 1 <= accepted[i].slot <= MAX_TIME
  }

  ghost predicate AllFirst(accepted: seq<Stamped>) {
    forall i | 0 <= i < |accepted| :: FirstDelivery(accepted[..i], accepted[i])
  }

  lemma SamplesStorable(accepted: seq<Stamped>, entity: bytes)
    requires AllSamples(accepted) && ShortEntity(entity)
    ensures AllStorable(accepted, entity)
  {
    forall i | 0 <= i < |accepted|
      ensures Storable(Fields.Fields(accepted[i].ev.metric, accepted[i].slot, StoredTag(accepted[i].ev.tag), entity))
    {
      SampleStorable(accepted[i].ev, accepted[i].slot, entity);
    }
  }

  /** Their tags do not clash. */
  lemma SamplesNoClash(accepted: seq<Stamped>, done: set<int>)
    requires AllSamples(accepted)
    ensures NoClash(accepted, done)
  {
    forall ts, m: bytes ensures !SlotClash(accepted, ts, m) { SampleNoClash(accepted, ts, m); }
  }

  lemma SampleNoClash(accepted: seq<Stamped>, ts: int, m: bytes)
    requires AllSamples(accepted)
    ensures !SlotClash(accepted, ts, m)
  {
    var h := History(accepted, ts, Name(m));
    HistoryMembers(accepted, ts, Name(m));
    DedupMembers(h);
    hide History; hide Dedup;
    forall i | 0 <= i < |Dedup(h)| ensures Dedup(h)[i].tag != [] {
      assert Dedup(h)[i] in h;
      var j :| 0 <= j < |h| && h[j] == Dedup(h)[i];
      assert Stamped(ts, h[j]) in accepted;
    }
  }

  /** Every one of them is counted when all are first deliveries of processed slots. */
  lemma {:induction false} AllCounted(accepted: seq<Stamped>, service: bytes, done: set<int>)
    requires AllSamples(accepted) && AllFirst(accepted) && forall i | 0 <= i < |accepted| :: accepted[i].slot in done
    ensures Direct(accepted, AnyTime(service), MAX_TIME, done).count == |accepted|
  {
    var cond, t := AnyTime(service), MAX_TIME;
    if accepted == [] {
      NoEvents(0, cond, t, done);
    } else {
      var init, x := accepted[..|accepted| - 1], accepted[|accepted| - 1];
      assert accepted == init + [x];
      assert AllFirst(init) by { forall i | 0 <= i < |init| ensures FirstDelivery(init[..i], init[i]) { assert init[..i] == accepted[..i]; } }
      assert Queried(x, cond, t, done) && FirstDelivery(init, x);
      AllCounted(init, service, done);
      var d, i := Direct(init, cond, t, done), If(FirstDelivery(init, x) && Queried(x, cond, t, done), EventAcc(x.ev));
      assert Plus(d, i).count == d.count + 1;
      hide *;
      DirectSnoc(init, x, cond, t, done);
    }
  }

  lemma OneWriterExpected(w: Writer, service: bytes)
    ensures Expected([w], AnyTime(service), MAX_TIME) == Plus(ZERO, Direct(w.accepted, AnyTime(service), MAX_TIME, Times(w.slots)))
  {
    var cond, t := AnyTime(service), MAX_TIME;
    assert EntityMatches(w.entity, cond);
    TotalSnoc([], w, ExpectedOf(cond, t));
    assert [] + [w] == [w];
  }

  // ------------------------------------------------------------- what is answered

  /** The answer to the query for everything when one event is stored. */
  lemma SingleAnswer(service: bytes, e: Event)
    requires service != [] && Sample(e)
    ensures var r := SingleRecord(service, [], 10, 1, e);
      && AllTyped([r])
      && var a := Answer(StoreAll([], [r]), AnyTime(service), MAX_TIME); a.count == 1 && a.min == a.max == Wrap32(e.value)
  {
    var r, f := SingleRecord(service, [], 10, 1, e), ContributionOf(AnyTime(service), MAX_TIME);
    SingleWritable(service, [], 10, 1, e);
    AnyTimeAskable(service);
    AnswerOfRecords([r], AnyTime(service), MAX_TIME);
    SingleContribution(service, [], 10, 1, e);
    TotalSnoc([], r, f);
    assert [] + [r] == [r] && f(r) == Contribution(r, AnyTime(service), MAX_TIME);
    hide Contribution; hide Answer; hide SingleRecord; hide StoreAll; hide Writable; hide ContributionOf; hide Wrap64;
    var w := Wrap32(e.value);
    SummaryOne(Acc(1, Wrap64(e.value), w, w, w, w, w, 1)) by { hide *; }
  }

  lemma SummaryOne(a: Acc)
    requires a.count == a.n == 1 && IsInt32(a.min) && IsInt32(a.max)
    ensures var s := Summary(Plus(ZERO, a)); s.count == 1 && s.min == a.min && s.max == a.max
  {
  }
}
