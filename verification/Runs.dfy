/** Whole runs of handlers together with their store: exact answers and keys written once,
    and exactly which runs guarantee them. */
module Runs {
  import opened Bytes
  import opened Seqs
  import opened Groups
  import opened Aggregate
  import opened EventStats
  import opened SlotMachine
  import opened Index
  import StoreKey
  import opened Store
  import opened EventHandling
  import opened Lossless
  import opened EndToEnd
  import opened RecordKeys
  import opened Answers
  import opened Writers
  import opened Samples

  lemma ProcessedFlushed(s: State, i: nat)
    requires multiset(s.flushed) == Places(s) && i < |s.processed|
    ensures s.processed[i] in s.flushed
  {
    hide Concat;
    assert s.processed[i] in multiset(s.processed);
    assert s.processed[i] in multiset(s.flushed);
  }

  /** The processed slots of a run have different times and carry exactly what was accepted. */
  lemma ProcessedOnce(s: State)
    requires Safe(s) && Complete(s)
    ensures AllFaithful(s.processed, s.accepted) && DistinctTimes(s.processed)
  {
    hide Concat; hide Faithful;
    AscendingParts(s.flushed, s.open);
    forall i | 0 <= i < |s.processed| ensures Faithful(s.processed[i], s.accepted) {
      ProcessedFlushed(s, i);
      var h :| 0 <= h < |s.flushed| && s.flushed[h] == s.processed[i];
      FindMember(s.flushed, h);
    }
    forall i, j | 0 <= i < j < |s.processed| ensures s.processed[i].ts != s.processed[j].ts {
      ProcessedFlushed(s, i);
      ProcessedFlushed(s, j);
      var g :| 0 <= g < |s.flushed| && s.flushed[g] == s.processed[i];
      var h :| 0 <= h < |s.flushed| && s.flushed[h] == s.processed[j];
      AscendingOnce(s.flushed, g);
      if g == h { Twice(s.processed, i, j); }
    }
  }

  /** A handler and a run of it. */
  datatype Handler = Handler(entity: bytes, start: State, steps: seq<Step>)

  /** A run from the beginning in which the linger time is never raised and the horizon, the
      clock less the linger time, moves by at most a second between a check and its insertion. */
  ghost predicate Running(service: bytes, h: Handler) {
    Initial(h.start) && Legal(service, h.start, h.steps, 1, true)
  }

  ghost function WriterOf(service: bytes, h: Handler): Writer
    requires Running(service, h)
  {
    var s := Run(service, h.start, h.steps);
    Writer(h.entity, s.processed, s.accepted)
  }

  ghost function WritersOf(service: bytes, hs: seq<Handler>): (ws: seq<Writer>)
    requires forall i | 0 <= i < |hs| :: Running(service, hs[i])
    ensures |ws| == |hs| && forall i | 0 <= i < |hs| :: ws[i] == WriterOf(service, hs[i])
  {
    seq(|hs|, i requires 0 <= i < |hs| => WriterOf(service, hs[i]))
  }

  /** What those who report events respect. */
  ghost predicate GoodEvents(w: Writer) { SmallHistory(w.accepted) && AllStorable(w.accepted, w.entity) }

  lemma HandlerOrderly(service: bytes, h: Handler)
    requires Running(service, h) && GoodEvents(WriterOf(service, h))
    ensures Orderly(WriterOf(service, h))
  {
    CompleteRun(service, h.start, h.steps, 1);
    ProcessedOnce(Run(service, h.start, h.steps));
  }

  /** Handlers of a service and the records of their processed slots, written in any order. */
  ghost predicate Served(service: bytes, hs: seq<Handler>, rs: seq<Record>) {
    && service != [] && (forall i | 0 <= i < |hs| :: Running(service, hs[i]) && GoodEvents(WriterOf(service, hs[i])))
    && DistinctEntities(WritersOf(service, hs)) && Events(WritersOf(service, hs)) <= INT32_MAX
    && multiset(rs) == multiset(RecordsOf(service, WritersOf(service, hs)))
  }

  lemma ServedWritten(service: bytes, hs: seq<Handler>, rs: seq<Record>)
    requires Served(service, hs, rs)
    ensures Written(rs, service, WritersOf(service, hs)) && AllTyped(rs)
  {
    var ws := WritersOf(service, hs);
    forall i | 0 <= i < |ws| ensures Orderly(ws[i]) { HandlerOrderly(service, hs[i]); }
    assert Written(rs, service, ws);
    hide *;
    WrittenKeeps(rs, service, ws);
    WritableTyped(rs);
  }

  lemma WritableTyped(rs: seq<Record>)
    requires Writable(rs)
    ensures AllTyped(rs)
  {
  }

  /** After any runs of the handlers of a service: no key has been written twice exactly when no
      tags clash, and the answers to all queries are exact exactly when no tags clash. */
  lemma RunAnswers(service: bytes, hs: seq<Handler>, rs: seq<Record>)
    requires Served(service, hs, rs)
    ensures AllTyped(rs)
    ensures var ws := WritersOf(service, hs);
      && (DistinctKeys(rs) <==> NoClashes(ws))
      && ((forall cond, t | Askable(cond, t) :: Exact(Answer(StoreAll([], rs), cond, t), Expected(ws, cond, t))) <==> NoClashes(ws))
  {
    var ws := WritersOf(service, hs);
    ServedWritten(service, hs, rs);
    hide *;
    WrittenKeeps(rs, service, ws);
    AnswersExactIff(rs, service, ws);
  }

  // ------------------------------------------------------------- which runs guarantee it

  /** The store after the records of the processed slots have been written. */
  ghost function StoredBy(service: bytes, entity: bytes, slots: seq<Slot>): seq<Entry> {
    AllRecordsTyped(service, entity, slots);
    StoreAll([], AllRecords(service, entity, slots))
  }

  ghost predicate AllExact(service: bytes, w: Writer) {
    forall cond, t | Askable(cond, t) :: Exact(Answer(StoredBy(service, w.entity, w.slots), cond, t), Expected([w], cond, t))
  }

  /** What those who report events respect: not too many, storable, values from `lo` to `hi`. */
  ghost predicate Reportable(w: Writer, lo: int, hi: int) {
    |w.accepted| <= INT32_MAX && Valued(w.accepted, lo, hi) && AllStorable(w.accepted, w.entity)
  }

  /** Whatever a handler does, if nothing is wrong with the events then all answers are exact. */
  ghost predicate AlwaysExact(service: bytes, delay: nat, steady: bool, lo: int, hi: int) {
    forall entity, s0: State, steps | Initial(s0) && Legal(service, s0, steps, delay, steady) ::
      var s := Run(service, s0, steps);
      var w := Writer(entity, s.processed, s.accepted);
      Reportable(w, lo, hi) && NoClash(w.accepted, Times(w.slots)) ==> AllExact(service, w)
  }

  lemma OneWriterRecords(service: bytes, w: Writer)
    ensures RecordsOf(service, [w]) == AllRecords(service, w.entity, w.slots) && Events([w]) == |w.accepted|
  {
    assert [w][..0] == [];
  }

  lemma OneWriterExact(service: bytes, w: Writer)
    requires service != [] && Orderly(w) && NoClash(w.accepted, Times(w.slots))
    ensures AllExact(service, w)
  {
    var rs := AllRecords(service, w.entity, w.slots);
    OneWriterRecords(service, w);
    assert Written(rs, service, [w]) && NoClashes([w]);
    forall cond, t | Askable(cond, t) ensures Exact(Answer(StoredBy(service, w.entity, w.slots), cond, t), Expected([w], cond, t)) {
      AnswerExact(rs, service, [w], cond, t);
    }
  }

  // A slot processed twice, with one event each time.

  function Alone(e: Event): seq<Stamped> { [Stamped(10, e)] }

  ghost predicate TwiceWriter(w: Writer, v: int) {
    && w.entity == [] && w.slots == [TenSlot(EarlyEvent(v)), TenSlot(LateEvent(v))]
    && w.accepted == Alone(EarlyEvent(v)) + Alone(LateEvent(v))
  }

  lemma TwiceSamples(w: Writer, v: int)
    requires TwiceWriter(w, v)
    ensures AllSamples(w.accepted) && AllFirst(w.accepted) && |w.accepted| == 2 && Valued(w.accepted, v, v) && Times(w.slots) == {10}
  {
    assert w.accepted == [Stamped(10, EarlyEvent(v)), Stamped(10, LateEvent(v))];
    assert w.slots[0].ts in Times(w.slots);
  }

  lemma TwiceRecords(service: bytes, w: Writer, v: int)
    requires TwiceWriter(w, v)
    ensures AllRecords(service, w.entity, w.slots)
      == [SingleRecord(service, [], 10, 1, EarlyEvent(v))] + [SingleRecord(service, [], 10, 1, LateEvent(v))]
  {
    assert w.slots[..1] == [w.slots[0]];
    OneSlotRecords(service, [], w.slots[0]);
    SingleSlotRecords(service, [], 10, 1, EarlyEvent(v));
    SingleSlotRecords(service, [], 10, 1, LateEvent(v));
  }

  /** The second record is written over the first, so one of two events is missing. */
  lemma TwiceInexact(service: bytes, w: Writer, v: int)
    requires service != [] && TwiceWriter(w, v)
    ensures !AllExact(service, w)
  {
    var x, y, cond, t := EarlyEvent(v), LateEvent(v), AnyTime(service), StoreKey.MAX_TIME;
    var r, q := SingleRecord(service, [], 10, 1, x), SingleRecord(service, [], 10, 1, y);
    TwiceRecords(service, w, v);
    TwiceSamples(w, v);
    AllCounted(w.accepted, service, {10});
    OneWriterExpected(w, service);
    assert Expected([w], cond, t).count == 2;
    AnyTimeAskable(service);
    SingleWritable(service, [], 10, 1, x);
    SingleWritable(service, [], 10, 1, y);
    SingleContribution(service, [], 10, 1, x);
    SingleContribution(service, [], 10, 1, y);
    assert r.service == service && Revealing(r) == cond;
    hide SingleRecord; hide Contribution; hide Answer; hide Expected; hide StoreAll; hide Askable; hide Writable; hide Counted;
    TwoRecordsShort(r, q, cond);
    assert !Exact(Answer(StoredBy(service, w.entity, w.slots), cond, t), Expected([w], cond, t));
  }

  /** Of two records of one event each under one key, a query sees fewer than two events. */
  lemma TwoRecordsShort(r: Record, q: Record, cond: Cond)
    requires Writable([r]) && Writable([q]) && Counted([r]) && Counted([q]) && r.KeyFields() == q.KeyFields() && Revealing(r) == cond
    requires Contribution(r, cond, StoreKey.MAX_TIME).count == Contribution(q, cond, StoreKey.MAX_TIME).count == 1
    ensures AllTyped([r] + [q]) && Answer(StoreAll([], [r] + [q]), cond, StoreKey.MAX_TIME).count < 2
  {
    var rs, f := [r] + [q], ContributionOf(cond, StoreKey.MAX_TIME);
    assert [r][0] == r && [q][0] == q;
    assert Writable(rs) && Counted(rs) && rs[0] == r && rs[1] == q;
    assert f(r).count == 1 && f(q).count == 1;
    TotalSnoc([], r, f);
    TotalSnoc([r], q, f);
    assert [] + [r] == [r] && Total([], f) == ZERO;
    assert Total(rs, f).count == 2;
    hide *;
    OverwriteShows(rs, 0, 1);
  }

  // A value that is no `int32_t`.

  lemma OnceSamples(w: Writer, v: int)
    requires w == Writer([], [TenSlot(EarlyEvent(v))], Alone(EarlyEvent(v)))
    ensures AllSamples(w.accepted) && Valued(w.accepted, v, v) && Times(w.slots) == {10}
  {
    assert w.slots[0].ts in Times(w.slots);
  }

  lemma OnceDirect(v: int, service: bytes)
    ensures Direct(Alone(EarlyEvent(v)), AnyTime(service), StoreKey.MAX_TIME, {10}) == Plus(ZERO, EventAcc(EarlyEvent(v)))
  {
    var cond, t, x := AnyTime(service), StoreKey.MAX_TIME, Stamped(10, EarlyEvent(v));
    assert FirstDelivery([], x) && Queried(x, cond, t, {10});
    hide Direct; hide FirstDelivery; hide Queried;
    NoEvents(0, cond, t, {10});
    DirectSnoc([], x, cond, t, {10});
    assert [] + [x] == Alone(EarlyEvent(v));
  }

  lemma OnceExpected(w: Writer, v: int, service: bytes)
    requires w == Writer([], [TenSlot(EarlyEvent(v))], Alone(EarlyEvent(v)))
    ensures var d := Expected([w], AnyTime(service), StoreKey.MAX_TIME);
      d.count == 1 && (v > INT32_MAX ==> d.max == v) && (v < INT32_MIN ==> d.min == v)
  {
    hide Expected; hide Direct; hide Times;
    OnceSamples(w, v);
    OneWriterExpected(w, service);
    OnceDirect(v, service);
  }

  /** Its minimum or its maximum is answered wrongly. */
  lemma WideInexact(service: bytes, w: Writer, v: int)
    requires service != [] && !IsInt32(v) && w == Writer([], [TenSlot(EarlyEvent(v))], Alone(EarlyEvent(v)))
    ensures !AllExact(service, w)
  {
    var cond, t := AnyTime(service), StoreKey.MAX_TIME;
    OnceExpected(w, v, service);
    OneSlotRecords(service, [], w.slots[0]);
    SingleSlotRecords(service, [], 10, 1, EarlyEvent(v));
    SingleAnswer(service, EarlyEvent(v));
    AnyTimeAskable(service);
    hide SingleRecord; hide Answer; hide Expected; hide StoreAll; hide Askable; hide AllRecords; hide SlotRecords;
    assert !Exact(Answer(StoredBy(service, w.entity, w.slots), cond, t), Expected([w], cond, t));
  }

  // ------------------------------------------------------------- exactly when

  lemma ExactRuns(service: bytes, delay: nat, lo: int, hi: int)
    requires service != [] && delay <= 1 && IsInt32(lo) && IsInt32(hi)
    ensures AlwaysExact(service, delay, true, lo, hi)
  {
    forall entity, s0: State, steps | Initial(s0) && Legal(service, s0, steps, delay, true)
      ensures var s := Run(service, s0, steps);
        var w := Writer(entity, s.processed, s.accepted);
        Reportable(w, lo, hi) && NoClash(w.accepted, Times(w.slots)) ==> AllExact(service, w)
    {
      var s := Run(service, s0, steps);
      var w := Writer(entity, s.processed, s.accepted);
      CompleteRun(service, s0, steps, delay);
      ProcessedOnce(s);
      if Reportable(w, lo, hi) && NoClash(w.accepted, Times(w.slots)) { OneWriterExact(service, w); }
    }
  }

  lemma WideRun(service: bytes, delay: nat, steady: bool, lo: int, hi: int)
    requires service != [] && lo <= hi && !(IsInt32(lo) && IsInt32(hi))
    ensures !AlwaysExact(service, delay, steady, lo, hi)
  {
    var v := if IsInt32(lo) then hi else lo;
    var s0, run := OneEventRun(service, v, delay, steady);
    hide Run; hide Legal;
    var s := Run(service, s0, run);
    var w := Writer([], s.processed, s.accepted);
    OnceSamples(w, v);
    SamplesStorable(w.accepted, []);
    SamplesNoClash(w.accepted, Times(w.slots));
    WideInexact(service, w, v);
    assert Reportable(w, lo, hi);
  }

  lemma TwiceRun(service: bytes, delay: nat, steady: bool, lo: int, hi: int)
    requires service != [] && lo <= hi && (delay >= 2 || !steady)
    ensures !AlwaysExact(service, delay, steady, lo, hi)
  {
    var s0, run := TwiceFlushed(service, lo, delay, steady);
    hide Run; hide Legal;
    var s := Run(service, s0, run);
    var w := Writer([], s.processed, s.accepted);
    TwiceSamples(w, lo);
    SamplesStorable(w.accepted, []);
    SamplesNoClash(w.accepted, Times(w.slots));
    TwiceInexact(service, w, lo);
    assert Reportable(w, lo, hi);
  }

  /** All answers of all runs are exact, for events that could be stored and do not clash,
      exactly when the horizon never moves back and moves by at most a second between a check
      and its insertion, and the values are 32-bit numbers: otherwise a slot is flushed twice
      and its second record is written over the first, or an extreme value is cut. */
  lemma AlwaysExactIff(service: bytes, delay: nat, steady: bool, lo: int, hi: int)
    requires service != [] && lo <= hi
    ensures AlwaysExact(service, delay, steady, lo, hi) <==> delay <= 1 && steady && INT32_MIN <= lo && hi <= INT32_MAX
  {
    hide AlwaysExact;
    if !(IsInt32(lo) && IsInt32(hi)) {
      WideRun(service, delay, steady, lo, hi);
    } else if delay <= 1 && steady {
      ExactRuns(service, delay, lo, hi);
    } else {
      TwiceRun(service, delay, steady, lo, hi);
    }
  }
}
