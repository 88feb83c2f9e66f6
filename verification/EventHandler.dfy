/** `EventHandler`: the slot machine as the program runs it, and the records it writes. */
module EventHandling {
  import opened Bytes
  import opened Seqs
  import opened Groups
  import opened Aggregate
  import opened EventStats
  import opened SlotMachine
  import opened Queue
  import opened Index
  import opened Store

  function TagKeyOf(e: Event): Key { Name(e.tag) }

  function StringOf(k: Key): bytes { if k.Name? then k.s else [] }

  /** The record written for the events of one metric and tag in a slot. */
  function RecordOf(service: bytes, entity: bytes, x: Slot, metric: bytes, tag: bytes, s: Stat): Record {
    Record(service, entity, x.ts, x.step % 256, metric, tag, s.count, s.sum, s.avg, s.min, s.max, s.p10, s.p50, s.p90)
  }

  ghost predicate NonEmptyGroups(gs: seq<Group<Event>>) { forall i | 0 <= i < |gs| :: gs[i].items != [] }

  /** One record per tag. */
  ghost function TagRecords(service: bytes, entity: bytes, x: Slot, metric: bytes, tags: seq<Group<Event>>): (r: seq<Record>)
    requires NonEmptyGroups(tags)
    ensures |r| == |tags|
    ensures forall i | 0 <= i < |tags| :: r[i] == RecordOf(service, entity, x, metric, StringOf(tags[i].key), StatOf(tags[i].items))
  {
    seq(|tags|, i requires 0 <= i < |tags| => RecordOf(service, entity, x, metric, StringOf(tags[i].key), StatOf(tags[i].items)))
  }

  /** The events of a metric, repeated messages removed, by tag. */
  ghost function ByTags(evs: seq<Event>): (r: seq<Group<Event>>)
    ensures NonEmptyGroups(r)
  {
    BuildPartitions(Dedup(evs), TagKeyOf);
    Build(Dedup(evs), TagKeyOf)
  }

  ghost function MetricRecords(service: bytes, entity: bytes, x: Slot, g: Group<Event>): seq<Record> {
    TagRecords(service, entity, x, StringOf(g.key), ByTags(g.items))
  }

  /** All records written for the metric groups `gs` of a slot. */
  ghost function GroupRecords(service: bytes, entity: bytes, x: Slot, gs: seq<Group<Event>>): seq<Record> {
    if gs == [] then []
    else GroupRecords(service, entity, x, gs[..|gs| - 1]) + MetricRecords(service, entity, x, gs[|gs| - 1])
  }

  ghost function SlotRecords(service: bytes, entity: bytes, x: Slot): seq<Record> {
    GroupRecords(service, entity, x, x.data)
  }

  ghost function AllRecords(service: bytes, entity: bytes, slots: seq<Slot>): seq<Record> {
    if slots == [] then []
    else AllRecords(service, entity, slots[..|slots| - 1]) + SlotRecords(service, entity, slots[|slots| - 1])
  }

  lemma OneSlotRecords(service: bytes, entity: bytes, x: Slot)
    ensures AllRecords(service, entity, [x]) == SlotRecords(service, entity, x)
  {
    assert [x][..0] == [];
  }

  ghost predicate AllTyped(rs: seq<Record>) { forall i | 0 <= i < |rs| :: rs[i].Typed() }

  /** Records written one after the other. */
  ghost function StoreAll(db: seq<Entry>, rs: seq<Record>): seq<Entry>
    requires AllTyped(rs)
  {
    if rs == [] then db else InsertInto(StoreAll(db, rs[..|rs| - 1]), rs[|rs| - 1])
  }

  lemma RecordTyped(service: bytes, entity: bytes, x: Slot, metric: bytes, tag: bytes, evs: seq<Event>)
    requires evs != []
    ensures RecordOf(service, entity, x, metric, tag, StatOf(evs)).Typed()
  {
    var s := StatOf(evs);
    Widths();
    if s.count != 0 {
      var vs := Values(evs);
      KthIsInt32(vs, 0, s.min);
      KthIsInt32(vs, |evs| - 1, s.max);
      KthIsInt32(vs, |evs| / 10, s.p10);
      KthIsInt32(vs, |evs| / 2, s.p50);
      KthIsInt32(vs, 9 * |evs| / 10, s.p90);
    }
  }

  lemma TagRecordsTyped(service: bytes, entity: bytes, x: Slot, metric: bytes, tags: seq<Group<Event>>)
    requires NonEmptyGroups(tags)
    ensures AllTyped(TagRecords(service, entity, x, metric, tags))
  {
    forall i | 0 <= i < |tags| ensures TagRecords(service, entity, x, metric, tags)[i].Typed() {
      RecordTyped(service, entity, x, metric, StringOf(tags[i].key), tags[i].items);
    }
  }

  lemma {:induction false} GroupRecordsTyped(service: bytes, entity: bytes, x: Slot, gs: seq<Group<Event>>)
    ensures AllTyped(GroupRecords(service, entity, x, gs))
  {
    if gs != [] {
      GroupRecordsTyped(service, entity, x, gs[..|gs| - 1]);
      TagRecordsTyped(service, entity, x, StringOf(gs[|gs| - 1].key), ByTags(gs[|gs| - 1].items));
    }
  }

  lemma {:induction false} AllRecordsTyped(service: bytes, entity: bytes, slots: seq<Slot>)
    ensures AllTyped(AllRecords(service, entity, slots))
  {
    if slots != [] {
      AllRecordsTyped(service, entity, slots[..|slots| - 1]);
      GroupRecordsTyped(service, entity, slots[|slots| - 1], slots[|slots| - 1].data);
    }
  }

  lemma {:induction false} StoreAllConcat(db: seq<Entry>, a: seq<Record>, b: seq<Record>)
    requires AllTyped(a) && AllTyped(b)
    ensures AllTyped(a + b) && StoreAll(db, a + b) == StoreAll(StoreAll(db, a), b)
  {
    if b == [] {
      assert a + b == a;
    } else {
      StoreAllConcat(db, a, b[..|b| - 1]);
      assert (a + b)[..|a + b| - 1] == a + b[..|b| - 1];
    }
  }

  /** The first `n` slots are before the horizon; the others are not, when the slots ascend. */
  ghost predicate PassedBefore(open: seq<Slot>, n: int, horizon: int) {
    && 0 <= n <= |open| && (forall i | 0 <= i < n :: open[i].ts < horizon)
    && (SlotMachine.Ascending(open) ==> forall i | n <= i < |open| :: horizon <= open[i].ts)
  }

  lemma {:induction false} ExpiredTimes(open: seq<Slot>, horizon: int)
    ensures PassedBefore(open, Expired(open, horizon), horizon)
  {
    if SlotMachine.Ascending(open) { ExpiredExact(open, horizon); }
    if open != [] && open[0].ts < horizon {
      ExpiredTimes(open[1..], horizon);
      forall i | 0 <= i < Expired(open, horizon) ensures open[i].ts < horizon { if i > 0 { assert open[i] == open[1..][i - 1]; } }
    }
  }

  /** The first `n` slots have moved to the queue, and of the others those are expired that are
      still to be moved. */
  ghost predicate Moving(was: seq<Slot>, before: seq<Slot>, open: seq<Slot>, queue: seq<Slot>, n: nat, horizon: int) {
    n <= |was| && open == was[n..] && queue == before + was[..n] && Expired(was, horizon) == n + Expired(open, horizon)
  }

  lemma MovingBegins(was: seq<Slot>, before: seq<Slot>, horizon: int)
    ensures Moving(was, before, was, before, 0, horizon)
  {
    hide Expired;
    assert was[0..] == was && before + was[..0] == before;
  }

  lemma MovingNext(was: seq<Slot>, before: seq<Slot>, open: seq<Slot>, queue: seq<Slot>, n: nat, horizon: int)
    requires Moving(was, before, open, queue, n, horizon) && open != [] && open[0].ts < horizon
    ensures Moving(was, before, open[1..], queue + [open[0]], n + 1, horizon)
  {
    assert Expired(open, horizon) == 1 + Expired(open[1..], horizon);
    hide Expired;
    assert was[..n + 1] == was[..n] + [was[n]] && open[1..] == was[n + 1..];
  }

  lemma MovingEnds(was: seq<Slot>, before: seq<Slot>, open: seq<Slot>, queue: seq<Slot>, n: nat, horizon: int)
    requires Moving(was, before, open, queue, n, horizon) && (open == [] || open[0].ts >= horizon)
    ensures n == Expired(was, horizon) && open == was[n..] && queue == before + was[..n]
  {
    assert Expired(open, horizon) == 0;
  }

  lemma StoreAllNext(db: seq<Entry>, rs: seq<Record>, i: nat)
    requires AllTyped(rs) && i < |rs|
    ensures StoreAll(db, rs[..i + 1]) == InsertInto(StoreAll(db, rs[..i]), rs[i])
  {
    assert rs[..i + 1][..i] == rs[..i];
  }

  /** Slots before the one looked for are passed over. */
  lemma {:induction false} AddOpenSkip(open: seq<Slot>, i: nat, ts: int, step: int, evs: seq<Event>)
    requires i <= |open| && forall j | 0 <= j < i :: open[j].ts < ts
    ensures AddOpen(open, ts, step, evs) == open[..i] + AddOpen(open[i..], ts, step, evs)
  {
    if i > 0 {
      AddOpenSkip(open[1..], i - 1, ts, step, evs);
      assert open[1..][i - 1..] == open[i..];
      assert open[..i] == [open[0]] + open[1..][..i - 1];
    } else {
      assert open[0..] == open;
    }
  }

  lemma AddOpenAt(open: seq<Slot>, i: nat, ts: int, step: int, evs: seq<Event>)
    requires i <= |open| && (forall j | 0 <= j < i :: open[j].ts < ts) && (i < |open| ==> ts <= open[i].ts)
    ensures AddOpen(open, ts, step, evs) == open[..i] +
      if i < |open| && open[i].ts == ts then [open[i].(data := AddData(open[i].data, evs))] + open[i + 1..]
      else [Slot(ts, step, AddData([], evs))] + open[i..]
  {
    AddOpenSkip(open, i, ts, step, evs);
    if i < |open| {
      assert open[i..][0] == open[i] && open[i..][1..] == open[i + 1..];
    }
  }

  method PushAll(slot: seq<Group<Event>>, data: seq<Event>) returns (r: seq<Group<Event>>)
    ensures r == AddData(slot, data)
  {
    r := slot;
    for j := 0 to |data|
      invariant r == AddData(slot, data[..j])
    {
      assert data[..j + 1][..j] == data[..j];
      r := Push(r, Name(data[j].metric), data[j]);
    }
    assert data[..|data|] == data;
  }

  /** The state without its histories. */
  ghost function Forget(s: State): State { s.(checked := [], inserted := {}, processed := [], flushed := [], accepted := []) }

  lemma RunSnoc(service: bytes, s0: State, steps: seq<Step>, a: Step)
    requires s0.step > 0
    ensures Run(service, s0, steps + [a]) == Next(service, Run(service, s0, steps), a)
    ensures Legal(service, s0, steps + [a], 0, true) <==> Legal(service, s0, steps, 0, true) && Enabled(Run(service, s0, steps), a, 0, true)
  {
    assert (steps + [a])[..|steps|] == steps;
  }

  /** Batches of bounded size have left the queue, in order. */
  ghost predicate Taken(before: seq<Slot>, handed: seq<seq<Slot>>, after: seq<Slot>, aux: nat) {
    && before == Concat(handed) + after
    && forall i | 0 <= i < |handed| :: 1 <= |handed[i]| <= if aux == 0 then 1 else aux
  }

  lemma TakenMore(before: seq<Slot>, handed: seq<seq<Slot>>, after: seq<Slot>, aux: nat)
    requires Taken(before, handed, after, aux) && after != []
    ensures var n := BatchCount(aux, |after|); Taken(before, handed + [after[..n]], after[n..], aux)
  {
    var n := BatchCount(aux, |after|);
    ConcatSnoc(handed, after[..n]);
    hide Concat;
    assert after == after[..n] + after[n..];
  }

  /** A run of hand-offs. */
  ghost predicate HandOffs(service: bytes, s0: State, steps: seq<Step>, s: State, handed: seq<seq<Slot>>) {
    && s0.step > 0 && Legal(service, s0, steps, 0, true) && Run(service, s0, steps) == s
    && s.aux == s0.aux && s.batches == s0.batches + handed && Taken(s0.queue, handed, s.queue, s0.aux)
  }

  lemma HandOffsMore(service: bytes, s0: State, steps: seq<Step>, s: State, handed: seq<seq<Slot>>)
    requires HandOffs(service, s0, steps, s, handed) && |s.queue| > 2 * s.aux
    ensures var n := BatchCount(s.aux, |s.queue|);
      var batch := s.queue[..n];
      HandOffs(service, s0, steps + [HandOff], s.(queue := s.queue[n..], batches := s.batches + [batch]), handed + [batch])
  {
    HandOffRun(service, s0, steps, s);
    hide Run; hide Legal; hide Taken; hide BatchCount;
    TakenMore(s0.queue, handed, s.queue, s.aux);
    var n := BatchCount(s.aux, |s.queue|);
    var batch := s.queue[..n];
    assert s0.batches + handed + [batch] == s0.batches + (handed + [batch]);
    assert HandOffs(service, s0, steps + [HandOff], s.(queue := s.queue[n..], batches := s.batches + [batch]), handed + [batch]);
  }

  lemma HandOffRun(service: bytes, s0: State, steps: seq<Step>, s: State)
    requires s0.step > 0 && Legal(service, s0, steps, 0, true) && Run(service, s0, steps) == s && |s.queue| > 2 * s.aux
    ensures var n := BatchCount(s.aux, |s.queue|);
      && Legal(service, s0, steps + [HandOff], 0, true)
      && Run(service, s0, steps + [HandOff]) == s.(queue := s.queue[n..], batches := s.batches + [s.queue[..n]])
  {
    RunSnoc(service, s0, steps, HandOff);
  }

  lemma PopEnds(service: bytes, s0: State, steps: seq<Step>, s: State, done: seq<Slot>)
    requires s0.step > 0 && Legal(service, s0, steps, 0, true) && Run(service, s0, steps) == s && Forget(s) == s
    requires done == if s.queue == [] then [] else s.queue[..1]
    ensures var more := if done == [] then steps else steps + [MainPop];
      && Legal(service, s0, more, 0, true) && Run(service, s0, more).processed == done
      && Forget(Run(service, s0, more)) == s.(queue := s.queue[|done|..])
  {
    RunSnoc(service, s0, steps, MainPop);
    if s.queue != [] { assert s.queue[..1] == [s.queue[0]]; }
  }

  lemma CheckAndInsert(service: bytes, s: State, r: Report)
    requires s.step > 0 && Forget(s) == s
    ensures Forget(Run(service, s, [Check(r), Insert(0)])) ==
      if Accepts(service, s.now, s.linger, r) then s.(open := AddOpen(s.open, NiceStep(s.step, r.ts), s.step, r.data)) else s
  {
    var both := [Check(r), Insert(0)];
    assert both[..1] == [Check(r)] && both[..1][..0] == [];
    assert Run(service, s, both[..1]) == Next(service, s, Check(r));
  }

  ghost function TaskSteps(n: nat): seq<Step> { seq(n, _ => RunTask(0)) }

  lemma OneTask(service: bytes, s: State, events: seq<Slot>, n: nat)
    requires s.step > 0 && n < |events|
    ensures Next(service, s.(batches := [events[n..]], processed := events[..n]), RunTask(0))
      == s.(batches := [events[n + 1..]], processed := events[..n + 1])
  {
    assert events[n..][1..] == events[n + 1..] && events[..n] + [events[n]] == events[..n + 1];
  }

  lemma {:induction false} TaskRuns(service: bytes, s: State, events: seq<Slot>, n: nat)
    requires s.step > 0 && s.processed == [] && n <= |events|
    ensures Run(service, s.(batches := [events]), TaskSteps(n)) == s.(batches := [events[n..]], processed := events[..n])
  {
    var t := s.(batches := [events]);
    if n == 0 {
      assert TaskSteps(0) == [] && events[0..] == events;
    } else {
      assert TaskSteps(n) == TaskSteps(n - 1) + [RunTask(0)];
      OneTask(service, s, events, n - 1);
      hide *;
      TaskRuns(service, s, events, n - 1);
      RunSnoc(service, t, TaskSteps(n - 1), RunTask(0));
      assert Run(service, t, TaskSteps(n)) == s.(batches := [events[n..]], processed := events[..n]);
    }
  }

  class EventHandler {
    const service: bytes
    const entity: bytes
    var linger: int
    var step: int
    var aux: nat
    var open: seq<Slot>
    const queue: EQueue<Slot>
    var tasks: seq<seq<Slot>>
    const store: StoreLevelDB

    ghost predicate Valid()
      reads this, queue, store
    {
      step > 0 && store.Valid()
    }

    constructor (service: bytes, entity: bytes, linger: int, step: int, aux: nat)
      requires step > 0
      ensures Valid() && fresh(queue) && fresh(store)
      ensures this.service == service && this.entity == entity && this.linger == linger && this.step == step && this.aux == aux
      ensures open == [] && queue.items == [] && tasks == [] && store.db == []
      ensures linger > 0 && aux > 0 ==> forall now :: Initial(View(now))
    {
      this.service, this.entity, this.linger, this.step, this.aux := service, entity, linger, step, aux;
      open, tasks := [], [];
      queue := new EQueue();
      store := new StoreLevelDB();
    }

    /** The handler as the slot machine sees it at a given time, with histories that begin here. */
    ghost function View(now: int): State
      reads this, queue
    {
      State(now, linger, step, aux, [], {}, open, queue.items, tasks, [], [], [])
    }

    /** A report is refused for another service or when it is too old at the time read
        before the lock; otherwise its events go to their slot: a check and, if it succeeds, an
        insertion. */
    method AddEvent(ev: Report, now: int) returns (ret: int)
      requires Valid()
      modifies this`open
      ensures Valid()
      ensures ret == if ev.service == service && now <= ev.ts + linger then 0 else -1
      ensures open == if ret == 0 then AddOpen(old(open), NiceStep(step, ev.ts), step, ev.data) else old(open)
      ensures View(now) == Forget(Run(service, old(View(now)), [Check(ev), Insert(0)]))
    {
      CheckAndInsert(service, View(now), ev);
      if ev.service != service {
        return -1;
      }
      if now - ev.ts > linger {
        return -1;
      }
      DoAddEvent(ev.ts, ev.data);
      return 0;
    }

    method DoAddEvent(evTime: int, data: seq<Event>)
      requires Valid()
      modifies this`open
      ensures open == AddOpen(old(open), NiceStep(step, evTime), step, data)
    {
      var slotTime := evTime + (step - Remainder(evTime, step));
      var i := 0;
      while i < |open| && open[i].ts < slotTime
        invariant i <= |open|
        invariant forall j | 0 <= j < i :: open[j].ts < slotTime
      {
        i := i + 1;
      }
      AddOpenAt(open, i, slotTime, step, data);
      if i < |open| && open[i].ts == slotTime {
        var slotData := PushAll(open[i].data, data);
        open := open[..i] + ([open[i].(data := slotData)] + open[i + 1..]);
      } else {
        var slotData := PushAll([], data);
        open := open[..i] + ([Slot(slotTime, step, slotData)] + open[i..]);
      }
    }

    /** Move every slot whose time plus linger has passed to the queue, oldest first. */
    method LingerCheckRun(now: int)
      requires Valid()
      modifies this`open, queue
      ensures Valid()
      ensures var n := Expired(old(open), now - linger);
        open == old(open)[n..] && queue.items == old(queue.items) + old(open)[..n]
      ensures PassedBefore(old(open), |old(open)| - |open|, now - linger)
      ensures View(now) == Forget(Next(service, old(View(now)), Flush))
    {
      ghost var n := 0;
      hide PassedBefore; hide Expired; hide Moving; hide InOrder;
      MovingBegins(open, queue.items, now - linger);
      while open != [] && open[0].ts + linger < now
        invariant Moving(old(open), old(queue.items), open, queue.items, n, now - linger)
        decreases |open|
      {
        MovingNext(old(open), old(queue.items), open, queue.items, n, now - linger);
        queue.Push(open[0]);
        open := open[1..];
        n := n + 1;
      }
      MovingEnds(old(open), old(queue.items), open, queue.items, n, now - linger);
      ExpiredTimes(old(open), now - linger);
    }

    /** Compute and store the records of one slot. */
    method ProcessEvent(x: Slot)
      requires Valid()
      modifies store
      ensures Valid()
      ensures AllTyped(SlotRecords(service, entity, x)) && store.db == StoreAll(old(store.db), SlotRecords(service, entity, x))
    {
      GroupRecordsTyped(service, entity, x, []);
      for i := 0 to |x.data|
        invariant Valid()
        invariant AllTyped(GroupRecords(service, entity, x, x.data[..i]))
        invariant store.db == StoreAll(old(store.db), GroupRecords(service, entity, x, x.data[..i]))
      {
        assert x.data[..i + 1][..i] == x.data[..i];
        GroupRecordsTyped(service, entity, x, x.data[..i + 1]);
        TagRecordsTyped(service, entity, x, StringOf(x.data[i].key), ByTags(x.data[i].items));
        StoreAllConcat(old(store.db), GroupRecords(service, entity, x, x.data[..i]), MetricRecords(service, entity, x, x.data[i]));
        ProcessMetric(x, x.data[i]);
      }
      assert x.data[..|x.data|] == x.data;
    }

    method ProcessMetric(x: Slot, g: Group<Event>)
      requires Valid()
      modifies store
      ensures Valid()
      ensures AllTyped(MetricRecords(service, entity, x, g)) && store.db == StoreAll(old(store.db), MetricRecords(service, entity, x, g))
    {
      var data := RemoveRepeated(g.items);
      var tagInfo := GroupByTag(data);
      ghost var rs := MetricRecords(service, entity, x, g);
      TagRecordsTyped(service, entity, x, StringOf(g.key), ByTags(g.items));
      for i := 0 to |tagInfo|
        invariant Valid()
        invariant store.db == StoreAll(old(store.db), rs[..i])
      {
        StoreAllNext(old(store.db), rs, i);
        var s := Calculate(tagInfo[i].items);
        var record := RecordOf(service, entity, x, StringOf(g.key), StringOf(tagInfo[i].key), s);
        assert record == rs[i];
        hide StoreAll; hide InsertInto; hide StatOf; hide MetricRecords; hide RecordOf; hide InOrder;
        var ret := store.InsertEvStat(record);
      }
      assert rs[..|tagInfo|] == rs;
    }

    /** An auxiliary task processes its batch to the end, slot by slot. */
    method RunOnceTask(events: seq<Slot>, ghost now: int)
      requires Valid()
      modifies store
      ensures Valid()
      ensures var s := View(now).(batches := [events]);
        Run(service, s, TaskSteps(|events|)) == s.(batches := [[]], processed := events)
      ensures AllTyped(AllRecords(service, entity, events))
      ensures store.db == StoreAll(old(store.db), AllRecords(service, entity, events))
    {
      TaskRuns(service, View(now), events, |events|);
      assert events[..|events|] == events && events[|events|..] == [];
      AllRecordsTyped(service, entity, events);
      for i := 0 to |events|
        invariant Valid()
        invariant AllTyped(AllRecords(service, entity, events[..i]))
        invariant store.db == StoreAll(old(store.db), AllRecords(service, entity, events[..i]))
      {
        assert events[..i + 1][..i] == events[..i];
        AllRecordsTyped(service, entity, events[..i + 1]);
        GroupRecordsTyped(service, entity, events[i], events[i].data);
        StoreAllConcat(old(store.db), AllRecords(service, entity, events[..i]), SlotRecords(service, entity, events[i]));
        ProcessEvent(events[i]);
      }
      assert events[..|events|] == events;
    }

    /** One turn of the main loop: while the queue is long, hand batches to auxiliary tasks;
        then process at most one slot. It is a run of hand-offs and a pop. */
    method RunOnce(ghost now: int) returns (ghost handed: seq<seq<Slot>>, ghost done: seq<Slot>, ghost steps: seq<Step>)
      requires Valid()
      modifies this`tasks, queue, store
      ensures Valid()
      ensures tasks == old(tasks) + handed && forall i | 0 <= i < |handed| :: 1 <= |handed[i]| <= if aux == 0 then 1 else aux
      ensures old(queue.items) == Concat(handed) + done + queue.items
      ensures |done| <= 1 && (done == [] ==> queue.items == []) && |done + queue.items| <= 2 * aux
      ensures AllTyped(AllRecords(service, entity, done)) && store.db == StoreAll(old(store.db), AllRecords(service, entity, done))
      ensures Legal(service, old(View(now)), steps, 0, true)
      ensures View(now) == Forget(Run(service, old(View(now)), steps)) && Run(service, old(View(now)), steps).processed == done
    {
      hide Run; hide Legal; hide Concat; hide StoreAll; hide AllRecords; hide AllTyped; hide InOrder;
      handed, steps := HandOffBatches(now);
      ghost var s := View(now);
      assert Taken(old(queue.items), handed, s.queue, aux);
      done := PopAndProcess();
      assert s.queue == done + queue.items && done == s.queue[..|done|];
      assert Concat(handed) + s.queue == Concat(handed) + done + queue.items;
      PopEnds(service, old(View(now)), steps, s, done);
      steps := if done == [] then steps else steps + [MainPop];
      assert s.queue[|done|..] == queue.items;
    }

    method PopAndProcess() returns (done: seq<Slot>)
      requires Valid()
      modifies queue, store
      ensures Valid()
      ensures old(queue.items) == done + queue.items && |done| <= 1 && (done == [] <==> old(queue.items) == [])
      ensures AllTyped(AllRecords(service, entity, done)) && store.db == StoreAll(old(store.db), AllRecords(service, entity, done))
    {
      done := queue.Pop();
      if done != [] {
        OneSlotRecords(service, entity, done[0]);
        ProcessEvent(done[0]);
      }
    }

    method HandOffBatches(ghost now: int) returns (ghost handed: seq<seq<Slot>>, ghost steps: seq<Step>)
      requires step > 0
      modifies this`tasks, queue
      ensures HandOffs(service, old(View(now)), steps, View(now), handed) && |queue.items| <= 2 * aux
    {
      handed, steps := [], [];
      assert HandOffs(service, View(now), steps, View(now), handed);
      while |queue.items| > 2 * aux
        invariant HandOffs(service, old(View(now)), steps, View(now), handed)
        decreases |queue.items|
      {
        hide HandOffs; hide BatchCount;
        HandOffsMore(service, old(View(now)), steps, View(now), handed);
        var batch := HandOffOne(now);
        steps, handed := steps + [HandOff], handed + [batch];
      }
    }

    method HandOffOne(ghost now: int) returns (batch: seq<Slot>)
      requires queue.items != []
      modifies this`tasks, queue
      ensures old(queue.items) == batch + queue.items && batch != []
      ensures batch == old(queue.items)[..BatchCount(aux, |old(queue.items)|)]
      ensures var n := BatchCount(aux, |old(queue.items)|);
        View(now) == old(View(now)).(queue := old(queue.items)[n..], batches := old(tasks) + [old(queue.items)[..n]])
    {
      batch := queue.PopBatch(aux);
      tasks := tasks + [batch];
      assert old(queue.items)[..|batch|] == batch && old(queue.items)[|batch|..] == queue.items;
    }
  }

  /** `calc_event_info_each_metric`: collect the ids, and when some repeat keep the first
      event of each. */
  method RemoveRepeated(data: seq<Event>) returns (r: seq<Event>)
    ensures r == Dedup(data)
  {
    var ids: set<int> := {};
    for i := 0 to |data|
      invariant ids == Ids(data[..i])
    {
      assert data[..i + 1] == data[..i] + [data[i]];
      IdsSnoc(data[..i], data[i]);
      ids := ids + {data[i].msgid};
    }
    assert data[..|data|] == data;
    if |ids| == |data| {
      DedupDistinct(data);
      return data;
    }
    ghost var all := ids;
    r := [];
    for i := 0 to |data|
      invariant r == Dedup(data[..i])
      invariant ids == all - Ids(data[..i])
    {
      assert data[..i + 1] == data[..i] + [data[i]];
      IdsSnoc(data[..i], data[i]);
      DedupSnoc(data[..i], data[i]);
      assert data[i].msgid in all;
      hide Dedup; hide Ids;
      if data[i].msgid in ids {
        r := r + [data[i]];
        ids := ids - {data[i].msgid};
      }
    }
    DedupIds(data);
    assert |r| == |all|;
  }

  method GroupByTag(data: seq<Event>) returns (infos: seq<Group<Event>>)
    ensures infos == Build(data, TagKeyOf) && NonEmptyGroups(infos)
  {
    infos := [];
    for i := 0 to |data|
      invariant infos == Build(data[..i], TagKeyOf)
    {
      assert data[..i + 1] == data[..i] + [data[i]];
      BuildSnoc(data[..i], data[i], TagKeyOf);
      infos := Push(infos, Name(data[i].tag), data[i]);
    }
    assert data[..|data|] == data;
    BuildPartitions(data, TagKeyOf);
  }
}
