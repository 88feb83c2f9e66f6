/** Reports delivered more than once: a run stores exactly what it stores when repeated
    deliveries are not inserted. */
module Retries {
  import opened Bytes
  import opened Seqs
  import opened Groups
  import opened EventStats
  import opened Queue
  import opened SlotMachine
  import opened Index
  import opened Store
  import opened EventHandling
  import opened EndToEnd
  import opened Answers
  import opened Runs

  // ------------------------------------------------------------- alike

  /** The same metrics with the same events once repeated messages are removed. */
  ghost predicate Alike(gs: seq<Group<Event>>, hs: seq<Group<Event>>) {
    |gs| == |hs| && forall i | 0 <= i < |gs| :: gs[i].key == hs[i].key && Dedup(gs[i].items) == Dedup(hs[i].items)
  }

  ghost predicate AlikeSlots(a: seq<Slot>, b: seq<Slot>) {
    |a| == |b| && forall i | 0 <= i < |a| :: a[i].ts == b[i].ts && a[i].step == b[i].step && Alike(a[i].data, b[i].data)
  }

  ghost predicate AlikeBatches(a: seq<seq<Slot>>, b: seq<seq<Slot>>) {
    |a| == |b| && forall i | 0 <= i < |a| :: AlikeSlots(a[i], b[i])
  }

  lemma DedupMore(h: seq<Event>, g: seq<Event>, e: Event)
    requires Dedup(h) == Dedup(g)
    ensures Dedup(h + [e]) == Dedup(g + [e])
  {
    DedupKeepsIds(h);
    DedupKeepsIds(g);
    hide Dedup; hide Ids;
    DedupSnoc(h, e);
    DedupSnoc(g, e);
  }

  lemma AlikeCons(g: Group<Event>, h: Group<Event>, gs: seq<Group<Event>>, hs: seq<Group<Event>>)
    requires g.key == h.key && Dedup(g.items) == Dedup(h.items) && Alike(gs, hs)
    ensures Alike([g] + gs, [h] + hs)
  {
    hide Dedup;
  }

  lemma SlotsCons(x: Slot, y: Slot, a: seq<Slot>, b: seq<Slot>)
    requires x.ts == y.ts && x.step == y.step && Alike(x.data, y.data) && AlikeSlots(a, b)
    ensures AlikeSlots([x] + a, [y] + b)
  {
    hide Alike;
  }

  lemma {:induction false} PushAlike(gs: seq<Group<Event>>, hs: seq<Group<Event>>, k: Key, e: Event)
    requires Alike(gs, hs)
    ensures Alike(Push(gs, k, e), Push(hs, k, e))
  {
    hide Dedup; hide KeyLe;
    if gs == [] || KeyLt(k, gs[0].key) {
      AlikeCons(Group(k, [e]), Group(k, [e]), gs, hs);
    } else if gs[0].key == k {
      DedupMore(gs[0].items, hs[0].items, e);
      AlikeCons(Group(k, gs[0].items + [e]), Group(k, hs[0].items + [e]), gs[1..], hs[1..]);
    } else {
      PushAlike(gs[1..], hs[1..], k, e);
      AlikeCons(gs[0], hs[0], Push(gs[1..], k, e), Push(hs[1..], k, e));
    }
  }

  /** An event whose message id is there already makes no difference. */
  lemma {:induction false} PushRepeat(gs: seq<Group<Event>>, hs: seq<Group<Event>>, k: Key, e: Event)
    requires Sorted(gs) && Alike(gs, hs) && e.msgid in Ids(Items(gs, k))
    ensures Alike(Push(gs, k, e), hs)
  {
    hide Dedup; hide Ids; hide KeyLe;
    if gs == [] || KeyLt(k, gs[0].key) {
      BelowFirstAbsent(gs, k);
      ItemsAbsent(gs, k);
      NoIds();
    } else if gs[0].key == k {
      DedupSnoc(gs[0].items, e);
      AlikeCons(Group(k, gs[0].items + [e]), hs[0], gs[1..], hs[1..]);
      assert hs == [hs[0]] + hs[1..];
    } else {
      PushRepeat(gs[1..], hs[1..], k, e);
      AlikeCons(gs[0], hs[0], Push(gs[1..], k, e), hs[1..]);
      assert hs == [hs[0]] + hs[1..];
    }
  }

  lemma NoIds()
    ensures Ids([]) == {}
  {
  }

  lemma {:induction false} AddDataAlike(gs: seq<Group<Event>>, hs: seq<Group<Event>>, evs: seq<Event>)
    requires Alike(gs, hs)
    ensures Alike(AddData(gs, evs), AddData(hs, evs))
  {
    if evs != [] {
      var init, last := evs[..|evs| - 1], evs[|evs| - 1];
      AddDataAlike(gs, hs, init);
      PushAlike(AddData(gs, init), AddData(hs, init), MetricKey(last), last);
    }
  }

  ghost predicate Repeated(gs: seq<Group<Event>>, evs: seq<Event>) {
    forall i | 0 <= i < |evs| :: evs[i].msgid in Ids(Items(gs, MetricKey(evs[i])))
  }

  lemma {:induction false} AddDataRepeat(gs: seq<Group<Event>>, hs: seq<Group<Event>>, evs: seq<Event>)
    requires Sorted(gs) && Alike(gs, hs) && Repeated(gs, evs)
    ensures Alike(AddData(gs, evs), hs)
  {
    if evs != [] {
      var init, last := evs[..|evs| - 1], evs[|evs| - 1];
      var k := MetricKey(last);
      AddDataRepeat(gs, hs, init);
      AddDataItems(gs, init, k);
      IdsConcat(Items(gs, k), Select(init, MetricKey, k));
      PushRepeat(AddData(gs, init), hs, k, last);
    }
  }

  lemma {:induction false} AddOpenAlike(a: seq<Slot>, b: seq<Slot>, ts: int, step: int, evs: seq<Event>)
    requires AlikeSlots(a, b)
    ensures AlikeSlots(AddOpen(a, ts, step, evs), AddOpen(b, ts, step, evs))
  {
    hide Alike;
    if a == [] || ts < a[0].ts {
      AlikeSelf(AddData([], evs));
      SlotsCons(Slot(ts, step, AddData([], evs)), Slot(ts, step, AddData([], evs)), a, b);
    } else if a[0].ts == ts {
      AddDataAlike(a[0].data, b[0].data, evs);
      SlotsCons(a[0].(data := AddData(a[0].data, evs)), b[0].(data := AddData(b[0].data, evs)), a[1..], b[1..]);
    } else {
      AddOpenAlike(a[1..], b[1..], ts, step, evs);
      SlotsCons(a[0], b[0], AddOpen(a[1..], ts, step, evs), AddOpen(b[1..], ts, step, evs));
    }
  }

  lemma AlikeSelf(gs: seq<Group<Event>>)
    ensures Alike(gs, gs)
  {
  }

  lemma {:induction false} AddOpenRepeat(a: seq<Slot>, b: seq<Slot>, ts: int, step: int, evs: seq<Event>)
    requires SlotMachine.Ascending(a) && AlikeSlots(a, b) && Find(a, ts).Some?
    requires Sorted(Find(a, ts).value.data) && Repeated(Find(a, ts).value.data, evs)
    ensures AlikeSlots(AddOpen(a, ts, step, evs), b)
  {
    hide Alike; hide Repeated;
    assert b == [b[0]] + b[1..];
    if a[0].ts == ts {
      AddDataRepeat(a[0].data, b[0].data, evs);
      SlotsCons(a[0].(data := AddData(a[0].data, evs)), b[0], a[1..], b[1..]);
      assert AddOpen(a, ts, step, evs) == [a[0].(data := AddData(a[0].data, evs))] + a[1..];
    } else {
      FoundLater(a, ts);
      AddOpenRepeat(a[1..], b[1..], ts, step, evs);
      SlotsCons(a[0], b[0], AddOpen(a[1..], ts, step, evs), b[1..]);
      assert AddOpen(a, ts, step, evs) == [a[0]] + AddOpen(a[1..], ts, step, evs);
    }
  }

  lemma FoundLater(a: seq<Slot>, ts: int)
    requires SlotMachine.Ascending(a) && Find(a, ts).Some? && a[0].ts != ts
    ensures a[1..] != [] && a[0].ts < ts
  {
    var x := Find(a, ts).value;
    var i :| 0 <= i < |a| && a[i] == x;
  }

  lemma {:induction false} ExpiredAlike(a: seq<Slot>, b: seq<Slot>, horizon: int)
    requires AlikeSlots(a, b)
    ensures Expired(a, horizon) == Expired(b, horizon)
  {
    if a != [] { ExpiredAlike(a[1..], b[1..], horizon); }
  }

  // ------------------------------------------------------------- runs without retries

  /** Every event of the report has been accepted into the slot the report belongs to. */
  ghost predicate Delivered(s: State, r: Report) {
    s.step > 0 && forall i | 0 <= i < |r.data| :: !FirstDelivery(s.accepted, Stamped(NiceStep(s.step, r.ts), r.data[i]))
  }

  /** The step inserts a report that has been delivered before. */
  ghost predicate Retry(s: State, a: Step) {
    a.Insert? && a.i < |s.checked| && a.i !in s.inserted && Delivered(s, s.checked[a.i].report)
  }

  /** The run with the insertions of repeated deliveries left out. */
  ghost function WithoutRetries(service: bytes, s0: State, steps: seq<Step>): seq<Step>
    requires s0.step > 0
  {
    if steps == [] then []
    else
      var init, a := steps[..|steps| - 1], steps[|steps| - 1];
      WithoutRetries(service, s0, init) + if Retry(Run(service, s0, init), a) then [] else [a]
  }

  /** The two runs differ in nothing but repeated deliveries. */
  ghost predicate Sim(s: State, t: State) {
    && s.now == t.now && s.linger == t.linger && s.step == t.step && s.aux == t.aux && s.checked == t.checked
    && t.inserted <= s.inserted
    && AlikeSlots(s.open, t.open) && AlikeSlots(s.queue, t.queue) && AlikeSlots(s.processed, t.processed)
    && AlikeBatches(s.batches, t.batches)
  }

  /** A repeated report that can still be inserted finds its slot open, with its events in it. */
  lemma RetryFindsSlot(s: State, i: nat)
    requires Safe(s) && Complete(s) && Enabled(s, Insert(i), 1, true) && Delivered(s, s.checked[i].report)
    ensures var r := s.checked[i].report;
      var x := Find(s.open, NiceStep(s.step, r.ts));
      x.Some? && Sorted(x.value.data) && Repeated(x.value.data, r.data)
  {
    var r := s.checked[i].report;
    var slot := NiceStep(s.step, r.ts);
    SafeInsert([], s, i);
    FindFlushedNot(s.flushed, slot);
    assert r.data != [] && !FirstDelivery(s.accepted, Stamped(slot, r.data[0]));
    var j :| 0 <= j < |s.accepted| && Repeats(s.accepted[j], Stamped(slot, r.data[0]));
    assert s.accepted[j] in s.accepted;
    var x := Find(s.open, slot).value;
    assert Faithful(x, s.accepted);
    forall h | 0 <= h < |r.data| ensures r.data[h].msgid in Ids(Items(x.data, MetricKey(r.data[h]))) {
      HistoryIds(s.accepted, Stamped(slot, r.data[h]));
    }
  }

  lemma SimRetry(service: bytes, s: State, t: State, i: nat)
    requires Sim(s, t) && Safe(s) && Complete(s) && Enabled(s, Insert(i), 1, true) && Delivered(s, s.checked[i].report)
    ensures Sim(Next(service, s, Insert(i)), t)
  {
    var r := s.checked[i].report;
    RetryFindsSlot(s, i);
    AscendingParts(s.flushed, s.open);
    AddOpenRepeat(s.open, t.open, NiceStep(s.step, r.ts), s.step, r.data);
  }

  lemma SimStep(service: bytes, s: State, t: State, a: Step, delay: nat)
    requires s.step > 0 && Sim(s, t) && Enabled(s, a, delay, true)
    ensures Enabled(t, a, delay, true) && Sim(Next(service, s, a), Next(service, t, a))
  {
    hide Alike; hide AddOpen; hide Expired; hide NiceStep; hide BatchCount; hide Stamp;
    match a
    case Insert(i) =>
      var r := s.checked[i].report;
      AddOpenAlike(s.open, t.open, NiceStep(s.step, r.ts), s.step, r.data);
    case Flush => ExpiredAlike(s.open, t.open, s.Horizon());
    case _ =>
  }

  lemma {:induction false} SimRun(service: bytes, s0: State, steps: seq<Step>, delay: nat)
    requires Initial(s0) && delay <= 1 && Legal(service, s0, steps, delay, true)
    ensures var once := WithoutRetries(service, s0, steps);
      Legal(service, s0, once, delay, true) && Sim(Run(service, s0, steps), Run(service, s0, once))
  {
    if steps != [] {
      var init, a := steps[..|steps| - 1], steps[|steps| - 1];
      SimRun(service, s0, init, delay);
      CompleteRun(service, s0, init, delay);
      var s, once := Run(service, s0, init), WithoutRetries(service, s0, init);
      var t := Run(service, s0, once);
      if Retry(s, a) {
        assert WithoutRetries(service, s0, steps) == once;
        SimRetry(service, s, t, a.i);
      } else {
        assert WithoutRetries(service, s0, steps) == once + [a];
        assert Enabled(s, a, delay, true);
        hide Sim; hide WithoutRetries; hide Complete; hide Safe; hide Enabled; hide Next;
        SimStep(service, s, t, a, delay);
        assert (once + [a])[..|once|] == once;
      }
    }
  }

  // ------------------------------------------------------------- what is stored

  lemma {:induction false} AlikeGroupRecords(service: bytes, entity: bytes, x: Slot, y: Slot, gs: seq<Group<Event>>, hs: seq<Group<Event>>)
    requires x.ts == y.ts && x.step == y.step && Alike(gs, hs)
    ensures GroupRecords(service, entity, x, gs) == GroupRecords(service, entity, y, hs)
  {
    if gs != [] {
      var n := |gs| - 1;
      AlikeGroupRecords(service, entity, x, y, gs[..n], hs[..n]);
      AlikeMetricRecords(service, entity, x, y, gs[n], hs[n]);
    }
  }

  lemma AlikeMetricRecords(service: bytes, entity: bytes, x: Slot, y: Slot, g: Group<Event>, h: Group<Event>)
    requires x.ts == y.ts && x.step == y.step && g.key == h.key && Dedup(g.items) == Dedup(h.items)
    ensures MetricRecords(service, entity, x, g) == MetricRecords(service, entity, y, h)
  {
    hide StatOf; hide Dedup;
    assert ByTags(g.items) == ByTags(h.items);
  }

  lemma {:induction false} AlikeRecords(service: bytes, entity: bytes, a: seq<Slot>, b: seq<Slot>)
    requires AlikeSlots(a, b)
    ensures AllRecords(service, entity, a) == AllRecords(service, entity, b)
  {
    if a != [] {
      var n := |a| - 1;
      AlikeRecords(service, entity, a[..n], b[..n]);
      AlikeGroupRecords(service, entity, a[n], b[n], a[n].data, b[n].data);
    }
  }

  /** However often reports are delivered again: the run without the repeated deliveries is a
      run too, it processes the same slots and writes the same records, percentiles included,
      so every query gets the same answer from it. */
  lemma RetriesChangeNothing(service: bytes, entity: bytes, s0: State, steps: seq<Step>, delay: nat)
    requires Initial(s0) && delay <= 1 && Legal(service, s0, steps, delay, true)
    ensures var once := WithoutRetries(service, s0, steps);
      && Legal(service, s0, once, delay, true)
      && var many, few := Run(service, s0, steps).processed, Run(service, s0, once).processed;
        && AllRecords(service, entity, many) == AllRecords(service, entity, few)
        && forall cond, t :: Answer(StoredBy(service, entity, many), cond, t) == Answer(StoredBy(service, entity, few), cond, t)
  {
    SimRun(service, s0, steps, delay);
    var once := WithoutRetries(service, s0, steps);
    AlikeRecords(service, entity, Run(service, s0, steps).processed, Run(service, s0, once).processed);
  }

  /** A repeated delivery finds its slot open or is refused: its slot has been flushed and the
      report is too old. */
  lemma RetryOpenOrRefused(service: bytes, s: State, r: Report)
    requires Safe(s) && Complete(s) && Delivered(s, r) && r.data != []
    ensures Find(s.open, NiceStep(s.step, r.ts)).Some? || !Accepts(service, s.now, s.linger, r)
  {
    var slot := NiceStep(s.step, r.ts);
    assert !FirstDelivery(s.accepted, Stamped(slot, r.data[0]));
    var j :| 0 <= j < |s.accepted| && Repeats(s.accepted[j], Stamped(slot, r.data[0]));
    assert s.accepted[j] in s.accepted;
    if Find(s.open, slot).None? { RefusedAfterFlush(service, s, r); }
  }

  // ------------------------------------------------------------- each report once

  /** The reports inserted in a run, in order. */
  ghost function Insertions(service: bytes, s0: State, steps: seq<Step>): seq<Report>
    requires s0.step > 0
  {
    if steps == [] then []
    else
      var init, a := steps[..|steps| - 1], steps[|steps| - 1];
      Insertions(service, s0, init) + InsertedBy(Run(service, s0, init), a)
  }

  ghost predicate AllDifferent(rs: seq<Report>) { forall i, j | 0 <= i < j < |rs| :: rs[i] != rs[j] }

  predicate KeepsStep(steps: seq<Step>, step: int) {
    forall i | 0 <= i < |steps| :: steps[i].Configure? ==> steps[i].step == step
  }

  lemma StillRepeated(accepted: seq<Stamped>, more: seq<Stamped>, e: Stamped)
    requires !FirstDelivery(accepted, e)
    ensures !FirstDelivery(accepted + more, e)
  {
    var i :| 0 <= i < |accepted| && Repeats(accepted[i], e);
    assert (accepted + more)[i] == accepted[i];
  }

  lemma InsertDelivers(service: bytes, s: State, i: nat)
    requires s.step > 0 && i < |s.checked| && i !in s.inserted
    ensures Delivered(Next(service, s, Insert(i)), s.checked[i].report)
  {
    var r := s.checked[i].report;
    var slot := NiceStep(s.step, r.ts);
    var after := s.accepted + Stamp(slot, r.data);
    forall j | 0 <= j < |r.data| ensures !FirstDelivery(after, Stamped(slot, r.data[j])) {
      assert after[|s.accepted| + j] == Stamped(slot, r.data[j]);
      assert Repeats(after[|s.accepted| + j], Stamped(slot, r.data[j]));
    }
  }

  lemma StaysDelivered(service: bytes, s: State, a: Step, r: Report)
    requires Delivered(s, r) && (a.Configure? ==> a.step == s.step)
    ensures Delivered(Next(service, s, a), r)
  {
    if a.Insert? && a.i < |s.checked| && a.i !in s.inserted {
      var q, slot := s.checked[a.i].report, NiceStep(s.step, r.ts);
      forall j | 0 <= j < |r.data| ensures !FirstDelivery(Next(service, s, a).accepted, Stamped(slot, r.data[j])) {
        StillRepeated(s.accepted, Stamp(NiceStep(s.step, q.ts), q.data), Stamped(slot, r.data[j]));
      }
    }
  }

  ghost predicate OnceSoFar(s: State, rs: seq<Report>) {
    AllDifferent(rs) && forall i | 0 <= i < |rs| :: Delivered(s, rs[i])
  }

  lemma OnceStays(service: bytes, s: State, a: Step, rs: seq<Report>)
    requires s.step > 0 && OnceSoFar(s, rs) && (a.Configure? ==> a.step == s.step)
    ensures OnceSoFar(Next(service, s, a), rs)
  {
    forall i | 0 <= i < |rs| ensures Delivered(Next(service, s, a), rs[i]) { StaysDelivered(service, s, a, rs[i]); }
  }

  lemma OnceMore(service: bytes, s: State, i: nat, rs: seq<Report>)
    requires OnceSoFar(s, rs) && s.step > 0 && i < |s.checked| && i !in s.inserted && !Delivered(s, s.checked[i].report)
    ensures OnceSoFar(Next(service, s, Insert(i)), rs + [s.checked[i].report])
  {
    hide Delivered; hide Next;
    OnceStays(service, s, Insert(i), rs);
    InsertDelivers(service, s, i);
  }

  lemma {:induction false} OnceRun(service: bytes, s0: State, steps: seq<Step>, delay: nat)
    requires Initial(s0) && delay <= 1 && Legal(service, s0, steps, delay, true) && KeepsStep(steps, s0.step)
    ensures Run(service, s0, steps).step == s0.step
    ensures OnceSoFar(Run(service, s0, steps), Insertions(service, s0, WithoutRetries(service, s0, steps)))
  {
    if steps == [] {
      assert WithoutRetries(service, s0, steps) == [] && Insertions(service, s0, []) == [];
    } else {
      var init, a := steps[..|steps| - 1], steps[|steps| - 1];
      OnceRun(service, s0, init, delay);
      SimRun(service, s0, init, delay);
      var s, once := Run(service, s0, init), WithoutRetries(service, s0, init);
      var t := Run(service, s0, once);
      assert a.Configure? ==> a.step == s.step;
      assert t.checked == s.checked && t.inserted <= s.inserted && Enabled(s, a, delay, true);
      assert Run(service, s0, steps) == Next(service, s, a) && Next(service, s, a).step == s.step;
      assert WithoutRetries(service, s0, steps) == if Retry(s, a) then once else once + [a];
      InsertionsSnoc(service, s0, once, a);
      hide *;
      OnceStep(service, s, t, a, Insertions(service, s0, once), delay);
    }
  }

  function InsertedBy(s: State, a: Step): seq<Report> {
    if a.Insert? && a.i < |s.checked| && a.i !in s.inserted then [s.checked[a.i].report] else []
  }

  lemma InsertionsSnoc(service: bytes, s0: State, steps: seq<Step>, a: Step)
    requires s0.step > 0
    ensures Insertions(service, s0, steps + [a]) == Insertions(service, s0, steps) + InsertedBy(Run(service, s0, steps), a)
  {
    assert (steps + [a])[..|steps|] == steps;
  }

  lemma OnceStep(service: bytes, s: State, t: State, a: Step, rs: seq<Report>, delay: nat)
    requires s.step > 0 && OnceSoFar(s, rs) && (a.Configure? ==> a.step == s.step) && Enabled(s, a, delay, true)
    requires t.checked == s.checked && t.inserted <= s.inserted
    ensures OnceSoFar(Next(service, s, a), if Retry(s, a) then rs else rs + InsertedBy(t, a))
  {
    if a.Insert? && !Retry(s, a) {
      OnceMore(service, s, a.i, rs);
    } else {
      OnceStays(service, s, a, rs);
      assert rs + [] == rs;
    }
  }

  /** With the step unchanged, a report contributes at most once however often it is delivered:
      the run stores what a run stores that inserts no report twice. */
  lemma ReportsCountOnce(service: bytes, entity: bytes, s0: State, steps: seq<Step>, delay: nat)
    requires Initial(s0) && delay <= 1 && Legal(service, s0, steps, delay, true) && KeepsStep(steps, s0.step)
    ensures var once := WithoutRetries(service, s0, steps);
      && Legal(service, s0, once, delay, true) && AllDifferent(Insertions(service, s0, once))
      && AllRecords(service, entity, Run(service, s0, steps).processed) == AllRecords(service, entity, Run(service, s0, once).processed)
  {
    OnceRun(service, s0, steps, delay);
    RetriesChangeNothing(service, entity, s0, steps, delay);
  }
}
