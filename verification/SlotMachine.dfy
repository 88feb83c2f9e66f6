/** The life of a time slot: events are accepted while the slot lingers, collected under
    their slot, flushed once the slot has expired, handed to a worker and processed. The
    check of a report and its insertion under the lock are two separate steps. */
module SlotMachine {
  import opened Bytes
  import opened Seqs
  import opened Groups
  import opened EventStats
  import opened Queue

  // ------------------------------------------------------------------ bucketing

  /** The C++ remainder, which has the sign of the dividend. */
  function Remainder(t: int, n: int): int
    requires n > 0
  {
    if t >= 0 then t % n else -((-t) % n)
  }

  /** The slot a time belongs to: the end of its step. */
  function NiceStep(step: int, t: int): int
    requires step > 0
  {
    t + (step - Remainder(t, step))
  }

  /** A slot is stamped strictly after its events; for times after the epoch it is the
      least multiple of the step that is. */
  lemma NiceStepBounds(step: int, t: int)
    requires step > 0
    ensures t < NiceStep(step, t) < t + 2 * step
    ensures t >= 0 ==> NiceStep(step, t) == (t / step + 1) * step && NiceStep(step, t) <= t + step
  {
    if t >= 0 {
      assert t == step * (t / step) + t % step;
      assert (t / step + 1) * step == step * (t / step) + step;
    }
  }

  // ---------------------------------------------------------------------- slots

  datatype Report = Report(service: bytes, ts: int, data: seq<Event>)

  /** Events collected for one slot, by metric. */
  datatype Slot = Slot(ts: int, step: int, data: seq<Group<Event>>)

  function MetricKey(e: Event): Key { Name(e.metric) }

  function AddData(data: seq<Group<Event>>, evs: seq<Event>): seq<Group<Event>> {
    if evs == [] then data
    else Push(AddData(data, evs[..|evs| - 1]), MetricKey(evs[|evs| - 1]), evs[|evs| - 1])
  }

  /** Events go to the end of the vector of their metric, in the order reported. */
  lemma {:induction false} AddDataItems(data: seq<Group<Event>>, evs: seq<Event>, k: Key)
    requires Sorted(data)
    ensures Sorted(AddData(data, evs))
    ensures Items(AddData(data, evs), k) == Items(data, k) + Select(evs, MetricKey, k)
  {
    if evs != [] {
      var init, last := evs[..|evs| - 1], evs[|evs| - 1];
      AddDataItems(data, init, k);
      PushSorted(AddData(data, init), MetricKey(last), last);
      PushItems(AddData(data, init), MetricKey(last), last, k);
    }
  }

  /** The open slots are a map keyed by time, here in ascending order. */
  ghost predicate Ascending(slots: seq<Slot>) {
    forall i, j | 0 <= i < j < |slots| :: slots[i].ts < slots[j].ts
  }

  function AddOpen(open: seq<Slot>, ts: int, step: int, evs: seq<Event>): seq<Slot> {
    if open == [] || ts < open[0].ts then [Slot(ts, step, AddData([], evs))] + open
    else if open[0].ts == ts then [open[0].(data := AddData(open[0].data, evs))] + open[1..]
    else [open[0]] + AddOpen(open[1..], ts, step, evs)
  }

  function Find(slots: seq<Slot>, ts: int): (r: Option<Slot>)
    ensures r.Some? ==> r.value in slots && r.value.ts == ts
  {
    if slots == [] then None else if slots[0].ts == ts then Some(slots[0]) else Find(slots[1..], ts)
  }

  lemma {:induction false} FindMember(slots: seq<Slot>, i: nat)
    requires Ascending(slots) && i < |slots|
    ensures Find(slots, slots[i].ts) == Some(slots[i])
  {
    if i > 0 { FindMember(slots[1..], i - 1); }
  }

  lemma {:induction false} FindConcat(a: seq<Slot>, b: seq<Slot>, ts: int)
    ensures Find(a + b, ts) == if Find(a, ts).Some? then Find(a, ts) else Find(b, ts)
  {
    if a == [] {
      assert a + b == b;
    } else {
      assert (a + b)[1..] == a[1..] + b;
      FindConcat(a[1..], b, ts);
    }
  }

  lemma {:induction false} FindBelow(slots: seq<Slot>, ts: int)
    requires forall i | 0 <= i < |slots| :: ts < slots[i].ts
    ensures Find(slots, ts) == None
  {
    if slots != [] { FindBelow(slots[1..], ts); }
  }

  /** The slot of `ts` is extended or created, every other slot stays what it was. */
  lemma {:induction false} AddOpenFind(open: seq<Slot>, ts: int, step: int, evs: seq<Event>, t: int)
    requires Ascending(open)
    ensures Find(AddOpen(open, ts, step, evs), t) ==
      if t != ts then Find(open, t)
      else if Find(open, ts).Some? then Some(Find(open, ts).value.(data := AddData(Find(open, ts).value.data, evs)))
      else Some(Slot(ts, step, AddData([], evs)))
  {
    var r := AddOpen(open, ts, step, evs);
    if open == [] || ts < open[0].ts {
      assert r[1..] == open;
      FindBelow(open, ts);
    } else if open[0].ts == ts {
      assert r[1..] == open[1..];
    } else {
      assert r[1..] == AddOpen(open[1..], ts, step, evs);
      AddOpenFind(open[1..], ts, step, evs, t);
    }
  }

  lemma {:induction false} AddOpenAscending(open: seq<Slot>, ts: int, step: int, evs: seq<Event>)
    requires Ascending(open)
    ensures Ascending(AddOpen(open, ts, step, evs))
    ensures forall i | 0 <= i < |AddOpen(open, ts, step, evs)| ::
      AddOpen(open, ts, step, evs)[i].ts == ts || exists j | 0 <= j < |open| :: open[j].ts == AddOpen(open, ts, step, evs)[i].ts
  {
    var r := AddOpen(open, ts, step, evs);
    if open == [] || ts < open[0].ts {
      forall i | 0 < i < |r| ensures exists j | 0 <= j < |open| :: open[j].ts == r[i].ts { assert open[i - 1] == r[i]; }
    } else if open[0].ts == ts {
      forall i | 0 < i < |r| ensures exists j | 0 <= j < |open| :: open[j].ts == r[i].ts { assert open[i] == r[i]; }
    } else {
      var tail := open[1..];
      var q := AddOpen(tail, ts, step, evs);
      AddOpenAscending(tail, ts, step, evs);
      forall i | 0 <= i < |q| ensures open[0].ts < q[i].ts && (q[i].ts == ts || exists j | 0 <= j < |open| :: open[j].ts == q[i].ts) {
        if q[i].ts != ts { var j :| 0 <= j < |tail| && tail[j].ts == q[i].ts; assert open[j + 1].ts == q[i].ts; }
      }
      assert open[0].ts == r[0].ts;
    }
  }

  /** How many slots from the front have expired. */
  function Expired(open: seq<Slot>, horizon: int): (n: nat)
    ensures n <= |open|
  {
    if open == [] || open[0].ts >= horizon then 0 else 1 + Expired(open[1..], horizon)
  }

  /** The front that is flushed is exactly the expired slots. */
  lemma {:induction false} ExpiredExact(open: seq<Slot>, horizon: int)
    requires Ascending(open)
    ensures forall i | 0 <= i < |open| :: i < Expired(open, horizon) <==> open[i].ts < horizon
  {
    if open != [] && open[0].ts < horizon {
      ExpiredExact(open[1..], horizon);
      forall i | 0 <= i < |open| ensures i < Expired(open, horizon) <==> open[i].ts < horizon {
        if i > 0 { assert open[i] == open[1..][i - 1]; }
      }
    }
  }

  // -------------------------------------------------------------------- machine

  datatype Pending = Pending(report: Report, readAt: int, linger: int)
  datatype Stamped = Stamped(slot: int, ev: Event)

  datatype State = State(
    now: int, linger: int, step: int, aux: nat,
    checked: seq<Pending>,      // accepted by the check
    inserted: set<nat>,         // those of them that have had the lock
    open: seq<Slot>,            // collecting
    queue: seq<Slot>,           // flushed, waiting for a worker
    batches: seq<seq<Slot>>,    // handed to auxiliary tasks
    processed: seq<Slot>,
    flushed: seq<Slot>,         // history: every slot ever flushed
    accepted: seq<Stamped>)     // history: every event ever inserted, with its slot
  {
    /** Reports older than this are refused; slots before this are flushed. */
    function Horizon(): int { now - linger }
  }

  datatype Step =
    | Tick(d: nat)
    | Configure(step: int, linger: int, aux: nat)
    | Check(report: Report)
    | Insert(i: nat)
    | Flush
    | HandOff
    | RunTask(b: nat)
    | MainPop

  function Stamp(slot: int, evs: seq<Event>): (r: seq<Stamped>)
    ensures |r| == |evs| && forall i | 0 <= i < |r| :: r[i] == Stamped(slot, evs[i])
  {
    seq(|evs|, i requires 0 <= i < |evs| => Stamped(slot, evs[i]))
  }

  predicate Accepts(service: bytes, now: int, linger: int, r: Report) {
    r.service == service && now - r.ts <= linger
  }

  /** A step can happen. Reports without events or without a time do not get as far as the
      check, and settings that are not positive are ignored. `delay` limits how far the
      horizon moves between the check of a report and its insertion; `steady` says that a
      configuration change never moves the horizon back. The clock never goes back. */
  predicate Enabled(s: State, a: Step, delay: nat, steady: bool) {
    match a
    case Tick(_) => true
    case Configure(step, linger, aux) => step > 0 && linger > 0 && aux > 0 && (steady ==> linger <= s.linger)
    case Check(r) => r.ts > 0 && r.data != []
    case Insert(i) =>
      i < |s.checked| && i !in s.inserted && s.Horizon() - (s.checked[i].readAt - s.checked[i].linger) <= delay
    case Flush => true
    case HandOff => |s.queue| > 2 * s.aux
    case RunTask(b) => b < |s.batches| && s.batches[b] != []
    case MainPop => s.queue != []
  }

  /** The effect of a step; a step that cannot happen has none. */
  function Next(service: bytes, s: State, a: Step): (r: State)
    requires s.step > 0
    ensures r.step > 0
  {
    match a
    case Tick(d) => s.(now := s.now + d)
    case Configure(step, linger, aux) => if step > 0 then s.(step := step, linger := linger, aux := aux) else s
    case Check(r) =>
      if Accepts(service, s.now, s.linger, r) then s.(checked := s.checked + [Pending(r, s.now, s.linger)]) else s
    case Insert(i) =>
      if i < |s.checked| && i !in s.inserted then
        var r := s.checked[i].report;
        var slot := NiceStep(s.step, r.ts);
        s.(inserted := s.inserted + {i},
           open := AddOpen(s.open, slot, s.step, r.data),
           accepted := s.accepted + Stamp(slot, r.data))
      else s
    case Flush =>
      var n := Expired(s.open, s.Horizon());
      s.(open := s.open[n..], queue := s.queue + s.open[..n], flushed := s.flushed + s.open[..n])
    case HandOff =>
      if s.queue == [] then s else
      var n := BatchCount(s.aux, |s.queue|);
      s.(queue := s.queue[n..], batches := s.batches + [s.queue[..n]])
    case RunTask(b) =>
      if b < |s.batches| && s.batches[b] != [] then
        s.(batches := s.batches[b := s.batches[b][1..]], processed := s.processed + [s.batches[b][0]])
      else s
    case MainPop =>
      if s.queue == [] then s else s.(queue := s.queue[1..], processed := s.processed + [s.queue[0]])
  }

  predicate Initial(s: State) {
    s.step > 0 && s.linger > 0 && s.aux > 0
    && s.checked == [] && s.inserted == {} && s.open == [] && s.queue == [] && s.batches == []
    && s.processed == [] && s.flushed == [] && s.accepted == []
  }

  function Run(service: bytes, s0: State, steps: seq<Step>): (s: State)
    requires s0.step > 0
    ensures s.step > 0
  {
    if steps == [] then s0 else Next(service, Run(service, s0, steps[..|steps| - 1]), steps[|steps| - 1])
  }

  /** Every step of the run can happen when it is taken. */
  predicate Legal(service: bytes, s0: State, steps: seq<Step>, delay: nat, steady: bool)
    requires s0.step > 0
  {
    steps != [] ==>
      var init := steps[..|steps| - 1];
      Legal(service, s0, init, delay, steady) && Enabled(Run(service, s0, init), steps[|steps| - 1], delay, steady)
  }

  // ----------------------------------------------------------------- invariants

  /** What makes a second flush of a slot impossible. */
  ghost predicate Safe(s: State) {
    && s.step > 0
    && Ascending(s.flushed + s.open)
    && (forall i | 0 <= i < |s.flushed| :: s.flushed[i].ts < s.Horizon())
    && (forall i | 0 <= i < |s.checked| :: Recent(s.checked[i], s.Horizon()) && s.checked[i].report.data != [])
  }

  ghost predicate Recent(p: Pending, horizon: int) {
    p.readAt - p.linger <= p.report.ts && p.readAt - p.linger <= horizon
  }

  /** Every slot carries exactly the events inserted for it, per metric and in order, and
      every flushed slot is in one place. */
  ghost predicate Complete(s: State) {
    && (forall t | Find(s.open, t).Some? :: Faithful(Find(s.open, t).value, s.accepted))
    && (forall t | Find(s.flushed, t).Some? :: Faithful(Find(s.flushed, t).value, s.accepted))
    && (forall e | e in s.accepted :: Find(s.open, e.slot).Some? || Find(s.flushed, e.slot).Some?)
    && multiset(s.flushed) == Places(s)
  }

  ghost predicate Faithful(x: Slot, accepted: seq<Stamped>) {
    Sorted(x.data) && forall k :: Items(x.data, k) == History(accepted, x.ts, k)
  }

  /** The events inserted for one slot under one metric, oldest first. */
  function History(accepted: seq<Stamped>, slot: int, k: Key): seq<Event> {
    if accepted == [] then []
    else
      var init, last := accepted[..|accepted| - 1], accepted[|accepted| - 1];
      History(init, slot, k) + (if last.slot == slot && MetricKey(last.ev) == k then [last.ev] else [])
  }

  lemma {:induction false} HistoryStamp(accepted: seq<Stamped>, slot: int, evs: seq<Event>, x: int, k: Key)
    ensures History(accepted + Stamp(slot, evs), x, k) ==
      if x == slot then History(accepted, x, k) + Select(evs, MetricKey, k) else History(accepted, x, k)
  {
    if evs == [] {
      assert accepted + Stamp(slot, evs) == accepted;
    } else {
      var init, last := evs[..|evs| - 1], evs[|evs| - 1];
      HistoryStamp(accepted, slot, init, x, k);
      assert accepted + Stamp(slot, evs) == (accepted + Stamp(slot, init)) + [Stamped(slot, last)];
      HistorySnoc(accepted + Stamp(slot, init), Stamped(slot, last), x, k);
    }
  }

  lemma HistorySnoc(accepted: seq<Stamped>, e: Stamped, x: int, k: Key)
    ensures History(accepted + [e], x, k) ==
      History(accepted, x, k) + if e.slot == x && MetricKey(e.ev) == k then [e.ev] else []
  {
    assert (accepted + [e])[..|accepted|] == accepted;
  }

  lemma {:induction false} HistoryAbsent(accepted: seq<Stamped>, slot: int, k: Key)
    requires forall e | e in accepted :: e.slot != slot
    ensures History(accepted, slot, k) == []
  {
    if accepted != [] { HistoryAbsent(accepted[..|accepted| - 1], slot, k); }
  }

  // ------------------------------------------------------------- flushed at most once

  lemma AscendingParts(a: seq<Slot>, b: seq<Slot>)
    ensures Ascending(a + b) <==> Ascending(a) && Ascending(b) && forall i, j | 0 <= i < |a| && 0 <= j < |b| :: a[i].ts < b[j].ts
  {
    var c := a + b;
    if Ascending(c) {
      forall i, j | 0 <= i < j < |b| ensures b[i].ts < b[j].ts { assert c[|a| + i].ts < c[|a| + j].ts; }
      forall i, j | 0 <= i < |a| && 0 <= j < |b| ensures a[i].ts < b[j].ts { assert c[i].ts < c[|a| + j].ts; }
      forall i, j | 0 <= i < j < |a| ensures a[i].ts < a[j].ts { assert c[i].ts < c[j].ts; }
    }
  }

  lemma SafeInsert(service: bytes, s: State, i: nat)
    requires Safe(s) && Enabled(s, Insert(i), 1, true)
    ensures Safe(Next(service, s, Insert(i)))
    ensures forall j | 0 <= j < |s.flushed| :: s.flushed[j].ts < NiceStep(s.step, s.checked[i].report.ts)
  {
    var p := s.checked[i];
    var slot := NiceStep(s.step, p.report.ts);
    NiceStepBounds(s.step, p.report.ts);
    assert Recent(p, s.Horizon());
    AscendingParts(s.flushed, s.open);
    AddOpenAscending(s.open, slot, s.step, p.report.data);
    var open := AddOpen(s.open, slot, s.step, p.report.data);
    forall h, j | 0 <= h < |s.flushed| && 0 <= j < |open| ensures s.flushed[h].ts < open[j].ts {
      if open[j].ts != slot { var m :| 0 <= m < |s.open| && s.open[m].ts == open[j].ts; }
    }
    AscendingParts(s.flushed, open);
  }

  lemma SafeFlush(service: bytes, s: State)
    requires Safe(s)
    ensures Safe(Next(service, s, Flush))
  {
    var n := Expired(s.open, s.Horizon());
    AscendingParts(s.flushed, s.open);
    ExpiredExact(s.open, s.Horizon());
    assert (s.flushed + s.open[..n]) + s.open[n..] == s.flushed + s.open;
  }

  lemma SafeStep(service: bytes, s: State, a: Step)
    requires Safe(s) && Enabled(s, a, 1, true)
    ensures Safe(Next(service, s, a))
  {
    match a
    case Insert(i) => SafeInsert(service, s, i);
    case Flush => SafeFlush(service, s);
    case _ =>
  }

  lemma {:induction false} SafeRun(service: bytes, s0: State, steps: seq<Step>, delay: nat)
    requires Initial(s0) && delay <= 1 && Legal(service, s0, steps, delay, true)
    ensures Safe(Run(service, s0, steps))
  {
    if steps != [] {
      var init := steps[..|steps| - 1];
      SafeRun(service, s0, init, delay);
      SafeStep(service, Run(service, s0, init), steps[|steps| - 1]);
    }
  }

  /** In every run each slot time is flushed at most once, and in ascending order. */
  ghost predicate AlwaysFlushedOnce(service: bytes, delay: nat, steady: bool) {
    forall s0: State, steps | Initial(s0) && Legal(service, s0, steps, delay, steady) ::
      Ascending(Run(service, s0, steps).flushed)
  }

  lemma Extend(service: bytes, s0: State, steps: seq<Step>, s: State, a: Step, delay: nat, steady: bool) returns (more: seq<Step>)
    requires s0.step > 0 && Legal(service, s0, steps, delay, steady) && Run(service, s0, steps) == s
    requires Enabled(s, a, delay, steady)
    ensures Legal(service, s0, more, delay, steady)
    ensures s.step > 0 && Run(service, s0, more) == Next(service, s, a)
  {
    more := steps + [a];
    assert more[..|steps|] == steps;
  }

  // Two events of second 9 that are reported separately. With second-wide slots they belong
  // to slot 10.

  function EarlyEvent(v: int): Event { Event(1, [0x6d], [0x74], v) }
  function LateEvent(v: int): Event { Event(2, [0x6d], [0x74], v) }
  function NineReport(service: bytes, e: Event): Report { Report(service, 9, [e]) }
  function TenSlot(e: Event): Slot { Slot(10, 1, [Group(Name(e.metric), [e])]) }

  lemma InsertNine(service: bytes, s: State, i: nat, e: Event)
    requires s.step == 1 && s.open == [] && i < |s.checked| && i !in s.inserted && s.checked[i].report == NineReport(service, e)
    ensures Next(service, s, Insert(i))
      == s.(inserted := s.inserted + {i}, open := [TenSlot(e)], accepted := s.accepted + [Stamped(10, e)])
  {
    assert [e][..0] == [];
    assert AddData([], [e]) == [Group(Name(e.metric), [e])];
    assert Stamp(10, [e]) == [Stamped(10, e)];
  }

  lemma FlushTen(service: bytes, s: State, e: Event)
    requires s.step == 1 && s.open == [TenSlot(e)] && s.Horizon() == 11
    ensures Next(service, s, Flush) == s.(open := [], queue := s.queue + s.open, flushed := s.flushed + s.open)
  {
    assert s.open[1..] == [];
    assert Expired(s.open, 11) == 1;
    assert s.open[..1] == s.open;
  }

  function AtTen(checked: seq<Pending>, inserted: set<nat>, open: seq<Slot>, accepted: seq<Stamped>): State {
    State(10, 1, 1, 1, checked, inserted, open, [], [], [], [], accepted)
  }

  function BothChecked(service: bytes, v: int): seq<Pending> {
    [Pending(NineReport(service, EarlyEvent(v)), 10, 1), Pending(NineReport(service, LateEvent(v)), 10, 1)]
  }

  lemma CheckBoth(service: bytes, v: int, delay: nat, steady: bool) returns (run: seq<Step>)
    ensures Legal(service, AtTen([], {}, [], []), run, delay, steady)
    ensures Run(service, AtTen([], {}, [], []), run) == AtTen(BothChecked(service, v), {}, [], [])
  {
    var s0, both := AtTen([], {}, [], []), BothChecked(service, v);
    run := Extend(service, s0, [], s0, Check(both[0].report), delay, steady);
    hide Run; hide Legal;
    run := Extend(service, s0, run, AtTen([both[0]], {}, [], []), Check(both[1].report), delay, steady);
  }

  /** The slot of second 9 when the early event has been flushed at second 12 and the late one
      has passed the check at second 10. */
  function EarlyFlushed(service: bytes, v: int): State {
    var slot := TenSlot(EarlyEvent(v));
    State(12, 1, 1, 1, BothChecked(service, v), {0}, [], [slot], [], [], [slot], [Stamped(10, EarlyEvent(v))])
  }

  lemma FlushEarly(service: bytes, v: int, delay: nat, steady: bool) returns (s0: State, run: seq<Step>)
    ensures Initial(s0) && Legal(service, s0, run, delay, steady)
    ensures Run(service, s0, run) == EarlyFlushed(service, v)
  {
    s0 := AtTen([], {}, [], []);
    run := CheckBoth(service, v, delay, steady);
    hide Run; hide Legal; hide AddOpen; hide Expired; hide Stamp;
    var s := AtTen(BothChecked(service, v), {}, [], []);
    InsertNine(service, s, 0, EarlyEvent(v));
    run := Extend(service, s0, run, s, Insert(0), delay, steady);
    s := AtTen(BothChecked(service, v), {0}, [TenSlot(EarlyEvent(v))], [Stamped(10, EarlyEvent(v))]);
    run := Extend(service, s0, run, s, Tick(2), delay, steady);
    s := s.(now := 12);
    FlushTen(service, s, EarlyEvent(v));
    run := Extend(service, s0, run, s, Flush, delay, steady);
  }

  /** A run that processes one event of value `v` in a slot of its own. */
  lemma OneEventRun(service: bytes, v: int, delay: nat, steady: bool) returns (s0: State, run: seq<Step>)
    ensures Initial(s0) && Legal(service, s0, run, delay, steady)
    ensures var s := Run(service, s0, run); s.processed == [TenSlot(EarlyEvent(v))] && s.accepted == [Stamped(10, EarlyEvent(v))]
  {
    s0, run := FlushEarly(service, v, delay, steady);
    hide Run; hide Legal;
    run := Extend(service, s0, run, EarlyFlushed(service, v), MainPop, delay, steady);
  }

  /** The slot of both events has been flushed twice, with one event each time. */
  ghost predicate FlushedTwice(s: State, v: int) {
    && s.flushed == [TenSlot(EarlyEvent(v)), TenSlot(LateEvent(v))]
    && s.accepted == [Stamped(10, EarlyEvent(v)), Stamped(10, LateEvent(v))]
  }

  lemma InsertAndFlushLate(service: bytes, v: int, s0: State, before: seq<Step>, s: State, i: nat, delay: nat, steady: bool) returns (run: seq<Step>)
    requires s0.step > 0 && Legal(service, s0, before, delay, steady) && Run(service, s0, before) == s
    requires s.step == 1 && s.open == [] && Enabled(s, Insert(i), delay, steady) && s.checked[i].report == NineReport(service, LateEvent(v))
    requires s.Horizon() == 11 || (s.Horizon() < 11 && !steady && s.now == 12)
    requires s.queue == s.flushed == [TenSlot(EarlyEvent(v))] && s.processed == [] && s.accepted == [Stamped(10, EarlyEvent(v))]
    ensures Legal(service, s0, run, delay, steady)
    ensures FlushedTwice(Run(service, s0, run), v) && Run(service, s0, run).processed == Run(service, s0, run).flushed
  {
    InsertNine(service, s, i, LateEvent(v));
    run := Extend(service, s0, before, s, Insert(i), delay, steady);
    hide Run; hide Legal; hide AddOpen; hide Expired; hide Stamp;
    var t := s.(inserted := s.inserted + {i}, open := [TenSlot(LateEvent(v))], accepted := s.accepted + [Stamped(10, LateEvent(v))]);
    if t.Horizon() < 11 {
      run := Extend(service, s0, run, t, Configure(1, 1, 1), delay, steady);
      t := t.(linger := 1, aux := 1);
    }
    FlushTen(service, t, LateEvent(v));
    run := Extend(service, s0, run, t, Flush, delay, steady);
    var both := [TenSlot(EarlyEvent(v)), TenSlot(LateEvent(v))];
    run := PopBoth(service, s0, run, t.(open := [], queue := both, flushed := both), delay, steady);
  }

  lemma PopBoth(service: bytes, s0: State, before: seq<Step>, s: State, delay: nat, steady: bool) returns (run: seq<Step>)
    requires s0.step > 0 && Legal(service, s0, before, delay, steady) && Run(service, s0, before) == s
    requires |s.queue| == 2 && s.processed == []
    ensures Legal(service, s0, run, delay, steady) && Run(service, s0, run) == s.(queue := [], processed := s.queue)
  {
    run := Extend(service, s0, before, s, MainPop, delay, steady);
    hide Run; hide Legal;
    var t := s.(queue := s.queue[1..], processed := [s.queue[0]]);
    run := Extend(service, s0, run, t, MainPop, delay, steady);
    assert s.queue == [s.queue[0]] + [s.queue[1]];
  }

  /** A report checked at second 10 and inserted two seconds later reopens a slot that has
      been flushed in between. */
  lemma SlowInsertFlushesTwice(service: bytes, v: int, delay: nat, steady: bool) returns (s0: State, run: seq<Step>)
    requires delay >= 2
    ensures Initial(s0) && Legal(service, s0, run, delay, steady)
    ensures FlushedTwice(Run(service, s0, run), v) && Run(service, s0, run).processed == Run(service, s0, run).flushed
  {
    s0, run := FlushEarly(service, v, delay, steady);
    run := InsertAndFlushLate(service, v, s0, run, EarlyFlushed(service, v), 1, delay, steady);
  }

  /** Raising the linger time lets a report of a flushed slot in again. */
  lemma RaisedLingerFlushesTwice(service: bytes, v: int, delay: nat) returns (s0: State, run: seq<Step>)
    ensures Initial(s0) && Legal(service, s0, run, delay, false)
    ensures FlushedTwice(Run(service, s0, run), v) && Run(service, s0, run).processed == Run(service, s0, run).flushed
  {
    s0, run := FlushEarly(service, v, delay, false);
    var s, r := EarlyFlushed(service, v), NineReport(service, LateEvent(v));
    hide Run; hide Legal;
    run := Extend(service, s0, run, s, Configure(1, 5, 1), delay, false);
    s := s.(linger := 5);
    run := Extend(service, s0, run, s, Check(r), delay, false);
    s := s.(checked := s.checked + [Pending(r, 12, 5)]);
    run := InsertAndFlushLate(service, v, s0, run, s, 2, delay, false);
  }

  lemma TwiceFlushed(service: bytes, v: int, delay: nat, steady: bool) returns (s0: State, run: seq<Step>)
    requires delay >= 2 || !steady
    ensures Initial(s0) && Legal(service, s0, run, delay, steady)
    ensures FlushedTwice(Run(service, s0, run), v) && Run(service, s0, run).processed == Run(service, s0, run).flushed
  {
    if delay >= 2 {
      s0, run := SlowInsertFlushesTwice(service, v, delay, steady);
    } else {
      s0, run := RaisedLingerFlushesTwice(service, v, delay);
    }
  }

  /** No slot is flushed twice in any run exactly when configuration never moves the horizon
      back and the horizon moves by at most one second between check and insertion. */
  lemma FlushedOnceIff(service: bytes, delay: nat, steady: bool)
    ensures AlwaysFlushedOnce(service, delay, steady) <==> delay <= 1 && steady
  {
    if delay >= 2 || !steady {
      var s0, run := TwiceFlushed(service, 5, delay, steady);
      hide Run; hide Legal;
      assert Run(service, s0, run).flushed[0].ts == Run(service, s0, run).flushed[1].ts;
    } else {
      forall s0: State, steps | Initial(s0) && Legal(service, s0, steps, delay, steady)
        ensures Ascending(Run(service, s0, steps).flushed)
      {
        SafeRun(service, s0, steps, delay);
        var s := Run(service, s0, steps);
        AscendingParts(s.flushed, s.open);
      }
    }
  }

  // ------------------------------------------------------------- nothing lost, nothing doubled

  lemma CompleteInsert(service: bytes, s: State, i: nat)
    requires Safe(s) && Complete(s) && Enabled(s, Insert(i), 1, true)
    ensures Complete(Next(service, s, Insert(i)))
  {
    var evs, slot := s.checked[i].report.data, NiceStep(s.step, s.checked[i].report.ts);
    var r := Next(service, s, Insert(i));
    SafeInsert(service, s, i);
    AscendingParts(s.flushed, s.open);
    FindFlushedNot(s.flushed, slot);
    forall t | Find(r.open, t).Some? ensures Faithful(Find(r.open, t).value, r.accepted) {
      AddOpenFind(s.open, slot, s.step, evs, t);
      if t == slot && Find(s.open, t).None? { NewSlotFaithful(s.accepted, slot, s.step, evs); }
      if t == slot && Find(s.open, t).Some? { OldSlotFaithful(Find(s.open, t).value, s.accepted, evs); }
      if t != slot { OtherSlotFaithful(Find(s.open, t).value, s.accepted, slot, evs); }
    }
    forall t | Find(r.flushed, t).Some? ensures Faithful(Find(r.flushed, t).value, r.accepted) {
      OtherSlotFaithful(Find(s.flushed, t).value, s.accepted, slot, evs);
    }
    forall e | e in r.accepted ensures Find(r.open, e.slot).Some? || Find(r.flushed, e.slot).Some? {
      AddOpenFind(s.open, slot, s.step, evs, e.slot);
    }
  }

  lemma {:induction false} FindFlushedNot(slots: seq<Slot>, ts: int)
    requires forall j | 0 <= j < |slots| :: slots[j].ts < ts
    ensures Find(slots, ts) == None
  {
    if slots != [] { FindFlushedNot(slots[1..], ts); }
  }

  lemma NewSlotFaithful(accepted: seq<Stamped>, slot: int, step: int, evs: seq<Event>)
    requires forall e | e in accepted :: e.slot != slot
    ensures Faithful(Slot(slot, step, AddData([], evs)), accepted + Stamp(slot, evs))
  {
    AddDataItems([], evs, Time(0));
    forall k ensures Items(AddData([], evs), k) == History(accepted + Stamp(slot, evs), slot, k) {
      AddDataItems([], evs, k);
      HistoryStamp(accepted, slot, evs, slot, k);
      HistoryAbsent(accepted, slot, k);
    }
  }

  lemma OldSlotFaithful(x: Slot, accepted: seq<Stamped>, evs: seq<Event>)
    requires Faithful(x, accepted)
    ensures Faithful(x.(data := AddData(x.data, evs)), accepted + Stamp(x.ts, evs))
  {
    AddDataItems(x.data, evs, Time(0));
    forall k ensures Items(AddData(x.data, evs), k) == History(accepted + Stamp(x.ts, evs), x.ts, k) {
      AddDataItems(x.data, evs, k);
      HistoryStamp(accepted, x.ts, evs, x.ts, k);
    }
  }

  lemma OtherSlotFaithful(x: Slot, accepted: seq<Stamped>, slot: int, evs: seq<Event>)
    requires Faithful(x, accepted) && x.ts != slot
    ensures Faithful(x, accepted + Stamp(slot, evs))
  {
    forall k ensures Items(x.data, k) == History(accepted + Stamp(slot, evs), x.ts, k) {
      HistoryStamp(accepted, slot, evs, x.ts, k);
    }
  }

  lemma FindSuffix(slots: seq<Slot>, n: nat, t: int)
    requires Ascending(slots) && n <= |slots| && Find(slots[n..], t).Some?
    ensures Find(slots, t) == Find(slots[n..], t)
  {
    var x := Find(slots[n..], t).value;
    var i :| 0 <= i < |slots[n..]| && slots[n..][i] == x;
    FindMember(slots, n + i);
  }

  lemma CompleteFlush(service: bytes, s: State)
    requires Safe(s) && Complete(s)
    ensures Complete(Next(service, s, Flush))
  {
    var n := Expired(s.open, s.Horizon());
    var r := Next(service, s, Flush);
    AscendingParts(s.flushed, s.open);
    assert s.open == s.open[..n] + s.open[n..];
    forall t | Find(r.open, t).Some? ensures Faithful(Find(r.open, t).value, r.accepted) { FindSuffix(s.open, n, t); }
    forall t | Find(r.flushed, t).Some? ensures Faithful(Find(r.flushed, t).value, r.accepted) {
      FindConcat(s.flushed, s.open[..n], t);
      FindConcat(s.open[..n], s.open[n..], t);
    }
    forall e | e in r.accepted ensures Find(r.open, e.slot).Some? || Find(r.flushed, e.slot).Some? {
      FindConcat(s.flushed, s.open[..n], e.slot);
      FindConcat(s.open[..n], s.open[n..], e.slot);
    }
  }

  /** The slots that have left the collecting stage, wherever they are now. */
  function Places(s: State): multiset<Slot> {
    multiset(s.queue) + multiset(Concat(s.batches)) + multiset(s.processed)
  }

  lemma PlacesHandOff(service: bytes, s: State)
    requires s.step > 0
    ensures Places(Next(service, s, HandOff)) == Places(s)
  {
    if s.queue != [] {
      var n := BatchCount(s.aux, |s.queue|);
      SplitBag(s.queue, n);
      ConcatSnoc(s.batches, s.queue[..n]);
      var r := Next(service, s, HandOff);
      assert r.queue == s.queue[n..] && Concat(r.batches) == Concat(s.batches) + s.queue[..n];
    }
  }

  lemma SplitBag<T>(s: seq<T>, n: nat)
    requires n <= |s|
    ensures multiset(s) == multiset(s[..n]) + multiset(s[n..])
  {
    assert s == s[..n] + s[n..];
  }

  lemma PlacesRunTask(service: bytes, s: State, b: nat)
    requires s.step > 0
    ensures Places(Next(service, s, RunTask(b))) == Places(s)
  {
    if b < |s.batches| && s.batches[b] != [] {
      ConcatPop(s.batches, b);
      hide Concat;
      var r := Next(service, s, RunTask(b));
      assert multiset(r.processed) == multiset(s.processed) + multiset{s.batches[b][0]};
      assert multiset(Concat(s.batches)) == multiset(Concat(r.batches)) + multiset{s.batches[b][0]};
    }
  }

  lemma PlacesMainPop(service: bytes, s: State)
    requires s.step > 0
    ensures Places(Next(service, s, MainPop)) == Places(s)
  {
    if s.queue != [] {
      var r, one := Next(service, s, MainPop), multiset{s.queue[0]};
      hide Concat;
      PopBag(s.queue);
      assert multiset(r.processed) == multiset(s.processed) + one;
      assert r.queue == s.queue[1..] && r.batches == s.batches;
      MovesLast(multiset(r.queue), multiset(Concat(s.batches)), multiset(s.processed), one);
    }
  }

  lemma MovesLast(a: multiset<Slot>, b: multiset<Slot>, c: multiset<Slot>, x: multiset<Slot>)
    ensures a + b + (c + x) == (a + x) + b + c
  {
  }

  /** Slots move from place to place, none is copied or dropped; only a flush adds some. */
  lemma PlacesStep(service: bytes, s: State, a: Step)
    requires s.step > 0 && multiset(s.flushed) == Places(s)
    ensures multiset(Next(service, s, a).flushed) == Places(Next(service, s, a))
  {
    hide Concat;
    match a
    case HandOff => PlacesHandOff(service, s);
    case RunTask(b) => PlacesRunTask(service, s, b);
    case MainPop => PlacesMainPop(service, s);
    case _ =>
  }

  lemma CompleteStep(service: bytes, s: State, a: Step)
    requires Safe(s) && Complete(s) && Enabled(s, a, 1, true)
    ensures Complete(Next(service, s, a))
  {
    PlacesStep(service, s, a);
    match a
    case Insert(i) => CompleteInsert(service, s, i);
    case Flush => CompleteFlush(service, s);
    case _ =>
  }

  /** In every run of a steady handler whose insertions follow their checks within a second:
      every slot carries exactly the events inserted for it, and every flushed slot is in
      exactly one of the queue, a batch, or the processed slots. */
  lemma {:induction false} CompleteRun(service: bytes, s0: State, steps: seq<Step>, delay: nat)
    requires Initial(s0) && delay <= 1 && Legal(service, s0, steps, delay, true)
    ensures Safe(Run(service, s0, steps)) && Complete(Run(service, s0, steps))
  {
    SafeRun(service, s0, steps, delay);
    if steps != [] {
      var init, a := steps[..|steps| - 1], steps[|steps| - 1];
      CompleteRun(service, s0, init, delay);
      CompleteStep(service, Run(service, s0, init), a);
    }
  }

  lemma {:induction false} HistoryHas(accepted: seq<Stamped>, e: Stamped)
    requires e in accepted
    ensures e.ev in History(accepted, e.slot, MetricKey(e.ev))
  {
    var init, last := accepted[..|accepted| - 1], accepted[|accepted| - 1];
    if last != e {
      assert accepted == init + [last];
      HistoryHas(init, e);
    }
  }

  lemma {:induction false} AscendingOnce(slots: seq<Slot>, i: nat)
    requires Ascending(slots) && i < |slots|
    ensures multiset(slots)[slots[i]] == 1
  {
    SplitBag(slots, i);
    assert slots[i..] == [slots[i]] + slots[i + 1..];
    assert slots[i] !in slots[..i] && slots[i] !in slots[i + 1..];
  }

  /** Exactly once: an accepted event is in the slot of its time, under its metric; that slot
      is in exactly one of the four places, once, and no other slot has that time. */
  lemma ExactlyOnePlace(service: bytes, s0: State, steps: seq<Step>, delay: nat, e: Stamped) returns (x: Slot)
    requires Initial(s0) && delay <= 1 && Legal(service, s0, steps, delay, true)
    requires e in Run(service, s0, steps).accepted
    ensures var s := Run(service, s0, steps);
      && x.ts == e.slot && Faithful(x, s.accepted) && e.ev in Items(x.data, MetricKey(e.ev))
      && (multiset(s.open) + Places(s))[x] == 1
      && forall y | y in multiset(s.open) + Places(s) && y.ts == e.slot :: y == x
  {
    var s := Run(service, s0, steps);
    CompleteRun(service, s0, steps, delay);
    HistoryHas(s.accepted, e);
    x := if Find(s.open, e.slot).Some? then Find(s.open, e.slot).value else Find(s.flushed, e.slot).value;
    OnlySlotOfItsTime(s, x);
  }

  lemma OnlySlotOfItsTime(s: State, x: Slot)
    requires Ascending(s.flushed + s.open) && multiset(s.flushed) == Places(s) && (x in s.open || x in s.flushed)
    ensures (multiset(s.open) + Places(s))[x] == 1
    ensures forall y | y in multiset(s.open) + Places(s) && y.ts == x.ts :: y == x
  {
    var all := s.flushed + s.open;
    assert multiset(all) == multiset(s.open) + Places(s);
    assert x in all;
    var i :| 0 <= i < |all| && all[i] == x;
    AscendingOnce(all, i);
    forall y | y in multiset(all) && y.ts == x.ts ensures y == x {
      var j :| 0 <= j < |all| && all[j] == y;
    }
  }

  // -------------------------------------------------------------- repeated reports

  /** Once the slot of a report has been flushed, a repeated delivery is refused. */
  lemma RefusedAfterFlush(service: bytes, s: State, r: Report)
    requires Safe(s) && Find(s.flushed, NiceStep(s.step, r.ts)).Some?
    ensures !Accepts(service, s.now, s.linger, r)
  {
    NiceStepBounds(s.step, r.ts);
  }
}
