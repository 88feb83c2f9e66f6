/** How often the events of a report can be counted: once, exactly when the step is left alone. */
module RetryCounts {
  import opened Bytes
  import opened Groups
  import opened Aggregate
  import opened EventStats
  import opened SlotMachine
  import opened Index
  import StoreKey
  import opened Store
  import opened EventHandling
  import opened Lossless
  import opened EndToEnd
  import opened RecordKeys
  import opened Answers
  import opened Writers
  import opened Samples
  import opened Runs
  import opened Retries

  function Sizes(rs: seq<Report>): nat {
    if rs == [] then 0 else Sizes(rs[..|rs| - 1]) + |rs[|rs| - 1].data|
  }

  /** Some different reports among those inserted have that many events together. */
  ghost predicate CountedOnce(count: int, reports: seq<Report>) {
    exists rs: seq<Report> :: AllDifferent(rs) && (forall i | 0 <= i < |rs| :: rs[i] in reports) && count <= Sizes(rs)
  }

  /** In every run no query counts more events than the different reports inserted have; `keeps`
      says that the step is not changed. */
  ghost predicate AlwaysCountedOnce(service: bytes, keeps: bool) {
    forall entity, s0: State, steps, cond, t |
      && Initial(s0) && Legal(service, s0, steps, 1, true) && (keeps ==> KeepsStep(steps, s0.step))
      && GoodEvents(Writer(entity, Run(service, s0, steps).processed, Run(service, s0, steps).accepted)) && Askable(cond, t) ::
      CountedOnce(Answer(StoredBy(service, entity, Run(service, s0, steps).processed), cond, t).count, Insertions(service, s0, steps))
  }

  // ------------------------------------------------------------- with the step left alone

  lemma SizesSnoc(rs: seq<Report>, more: seq<Report>)
    requires |more| <= 1
    ensures Sizes(rs + more) == Sizes(rs) + if more == [] then 0 else |more[0].data|
  {
    if more == [] { assert rs + more == rs; } else { assert (rs + more)[..|rs|] == rs; }
  }

  /** The accepted events are those of the reports inserted. */
  lemma {:induction false} AcceptedSizes(service: bytes, s0: State, steps: seq<Step>)
    requires Initial(s0)
    ensures |Run(service, s0, steps).accepted| == Sizes(Insertions(service, s0, steps))
  {
    if steps == [] {
      assert Insertions(service, s0, steps) == [] && Sizes([]) == 0;
    } else {
      var init, a := steps[..|steps| - 1], steps[|steps| - 1];
      var s := Run(service, s0, init);
      assert Run(service, s0, steps) == Next(service, s, a) && Insertions(service, s0, steps) == Insertions(service, s0, init) + InsertedBy(s, a);
      hide *;
      AcceptedSizes(service, s0, init);
      InsertedSize(service, s, a);
      SizesSnoc(Insertions(service, s0, init), InsertedBy(s, a));
    }
  }

  lemma InsertedSize(service: bytes, s: State, a: Step)
    requires s.step > 0
    ensures var more := InsertedBy(s, a);
      |more| <= 1 && |Next(service, s, a).accepted| == |s.accepted| + if more == [] then 0 else |more[0].data|
  {
  }

  ghost predicate Fewer(s: State, t: State) {
    |t.accepted| <= |s.accepted| && forall i | 0 <= i < |t.accepted| :: t.accepted[i] in s.accepted
  }

  lemma FewerStep(service: bytes, s: State, t: State, a: Step, delay: nat)
    requires s.step > 0 && Fewer(s, t) && s.step == t.step && s.checked == t.checked && t.inserted <= s.inserted && Enabled(s, a, delay, true)
    ensures Fewer(Next(service, s, a), Next(service, t, a)) && Fewer(Next(service, s, a), t)
  {
  }

  /** Leaving out repeated deliveries leaves events and insertions out and adds none. */
  lemma {:induction false} OnceFewer(service: bytes, s0: State, steps: seq<Step>)
    requires Initial(s0) && Legal(service, s0, steps, 1, true)
    ensures var once := WithoutRetries(service, s0, steps);
      && Fewer(Run(service, s0, steps), Run(service, s0, once))
      && forall r | r in Insertions(service, s0, once) :: r in Insertions(service, s0, steps)
  {
    if steps != [] {
      var init, a := steps[..|steps| - 1], steps[|steps| - 1];
      assert steps == init + [a];
      OnceFewer(service, s0, init);
      SimRun(service, s0, init, 1);
      var s, once := Run(service, s0, init), WithoutRetries(service, s0, init);
      var t := Run(service, s0, once);
      FewerStep(service, s, t, a, 1);
      assert WithoutRetries(service, s0, steps) == if Retry(s, a) then once else once + [a];
      assert Run(service, s0, once + [a]) == Next(service, t, a) by { assert (once + [a])[..|once|] == once; }
      InsertionsSnoc(service, s0, once, a);
      InsertionsSnoc(service, s0, init, a);
      assert forall r | r in InsertedBy(t, a) :: r in InsertedBy(s, a);
    }
  }

  lemma FewerGood(many: Writer, few: Writer, s: State, t: State)
    requires many.accepted == s.accepted && few.accepted == t.accepted && many.entity == few.entity && Fewer(s, t) && GoodEvents(many)
    ensures GoodEvents(few)
  {
    forall i | 0 <= i < |t.accepted|
      ensures IsInt32(t.accepted[i].ev.value)
      ensures StoreKey.Storable(StoreKey.Fields.Fields(t.accepted[i].ev.metric, t.accepted[i].slot, StoredTag(t.accepted[i].ev.tag), few.entity))
    {
      var j :| 0 <= j < |s.accepted| && s.accepted[j] == t.accepted[i];
    }
  }

  /** No answer counts more than has been accepted. */
  lemma AnswerCount(service: bytes, w: Writer, cond: Cond, t: int)
    requires service != [] && Orderly(w) && Askable(cond, t)
    ensures Answer(StoredBy(service, w.entity, w.slots), cond, t).count <= |w.accepted|
  {
    var rs := AllRecords(service, w.entity, w.slots);
    OneWriterRecords(service, w);
    assert Written(rs, service, [w]);
    AnswerLines(rs, service, [w], cond, t);
    var visited := Visited(StoreAll([], rs), cond, t);
    assert Answer(StoredBy(service, w.entity, w.slots), cond, t) == Summary(Total(visited, OfInfo));
    assert |w.accepted| <= INT32_MAX;
    hide *;
    VisitedCount(visited, |w.accepted|);
  }

  lemma VisitedCount(visited: seq<Info>, n: nat)
    requires AllOrdered(visited) && Total(visited, OfInfo).count <= n <= INT32_MAX
    ensures Summary(Total(visited, OfInfo)).count <= n
  {
    if visited == [] {
      assert Total(visited, OfInfo) == ZERO;
    } else {
      OrderedTotal(visited);
    }
  }

  lemma KeptCountsOnce(service: bytes, entity: bytes, s0: State, steps: seq<Step>, cond: Cond, t: int)
    requires service != [] && Initial(s0) && Legal(service, s0, steps, 1, true) && KeepsStep(steps, s0.step) && Askable(cond, t)
    requires GoodEvents(Writer(entity, Run(service, s0, steps).processed, Run(service, s0, steps).accepted))
    ensures CountedOnce(Answer(StoredBy(service, entity, Run(service, s0, steps).processed), cond, t).count, Insertions(service, s0, steps))
  {
    var once := WithoutRetries(service, s0, steps);
    ReportsCountOnce(service, entity, s0, steps, 1);
    OnceOrderly(service, entity, s0, steps);
    AcceptedSizes(service, s0, once);
    SameStored(service, entity, s0, steps);
    hide Run; hide Legal; hide Initial; hide WithoutRetries; hide Insertions; hide Askable; hide Answer; hide StoredBy; hide Sizes;
    hide GoodEvents; hide KeepsStep; hide AllRecords; hide Orderly; hide AllDifferent; hide CountedOnce;
    var s, few := Run(service, s0, steps), Run(service, s0, once);
    AnswerCount(service, Writer(entity, few.processed, few.accepted), cond, t);
    CountedBy(Answer(StoredBy(service, entity, s.processed), cond, t).count, Insertions(service, s0, steps), Insertions(service, s0, once));
  }

  lemma CountedBy(count: int, reports: seq<Report>, rs: seq<Report>)
    requires AllDifferent(rs) && (forall r | r in rs :: r in reports) && count <= Sizes(rs)
    ensures CountedOnce(count, reports)
  {
  }

  lemma SameStored(service: bytes, entity: bytes, s0: State, steps: seq<Step>)
    requires Initial(s0) && Legal(service, s0, steps, 1, true)
    ensures StoredBy(service, entity, Run(service, s0, steps).processed)
      == StoredBy(service, entity, Run(service, s0, WithoutRetries(service, s0, steps)).processed)
  {
    RetriesChangeNothing(service, entity, s0, steps, 1);
  }

  lemma OnceOrderly(service: bytes, entity: bytes, s0: State, steps: seq<Step>)
    requires Initial(s0) && Legal(service, s0, steps, 1, true)
    requires GoodEvents(Writer(entity, Run(service, s0, steps).processed, Run(service, s0, steps).accepted))
    ensures var once := WithoutRetries(service, s0, steps);
      && Orderly(Writer(entity, Run(service, s0, once).processed, Run(service, s0, once).accepted))
      && forall r | r in Insertions(service, s0, once) :: r in Insertions(service, s0, steps)
  {
    hide Run; hide Legal; hide WithoutRetries; hide Insertions; hide Safe; hide Complete; hide Fewer; hide GoodEvents; hide Orderly; hide Sim;
    var once := WithoutRetries(service, s0, steps);
    SimRun(service, s0, steps, 1);
    OnceFewer(service, s0, steps);
    CompleteRun(service, s0, once, 1);
    var s, few := Run(service, s0, steps), Run(service, s0, once);
    FewerGood(Writer(entity, s.processed, s.accepted), Writer(entity, few.processed, few.accepted), s, few);
    GoodOrderly(Writer(entity, few.processed, few.accepted), few);
  }

  lemma GoodOrderly(w: Writer, s: State)
    requires Safe(s) && Complete(s) && w.slots == s.processed && w.accepted == s.accepted && GoodEvents(w)
    ensures Orderly(w)
  {
    ProcessedOnce(s);
  }

  // ------------------------------------------------------------- a report on both sides of a change

  function Nine(service: bytes): Report { Report(service, 9, [EarlyEvent(5)]) }

  /** Nothing else has been inserted. */
  ghost predicate OnlyNine(service: bytes, s0: State, steps: seq<Step>)
    requires s0.step > 0
  {
    forall r | r in Insertions(service, s0, steps) :: r == Nine(service)
  }

  lemma ExtendNine(service: bytes, s0: State, steps: seq<Step>, s: State, a: Step) returns (more: seq<Step>)
    requires s0.step > 0 && Legal(service, s0, steps, 1, true) && Run(service, s0, steps) == s && OnlyNine(service, s0, steps)
    requires Enabled(s, a, 1, true) && (a.Insert? ==> s.checked[a.i].report == Nine(service))
    ensures Legal(service, s0, more, 1, true) && OnlyNine(service, s0, more)
    ensures s.step > 0 && Run(service, s0, more) == Next(service, s, a)
  {
    more := steps + [a];
    assert more[..|steps|] == steps;
    InsertionsSnoc(service, s0, steps, a);
  }

  /** The slot of the report for each of the two steps. */
  function Ninth(step: int): Slot { SingleSlot(if step == 10 then 10 else 14, step, EarlyEvent(5)) }

  lemma NinthData(service: bytes, step: int)
    requires step == 10 || step == 7
    ensures NiceStep(step, 9) == Ninth(step).ts && Slot(Ninth(step).ts, step, AddData([], Nine(service).data)) == Ninth(step)
    ensures Stamp(Ninth(step).ts, Nine(service).data) == [Stamped(Ninth(step).ts, EarlyEvent(5))]
  {
    var e := EarlyEvent(5);
    assert [e][..0] == [];
    assert AddData([], [e]) == [Group(Name(e.metric), [e])];
  }

  lemma InsertNinth(service: bytes, s: State, i: nat)
    requires (s.step == 10 && s.open == []) || (s.step == 7 && s.open == [Ninth(10)])
    requires i < |s.checked| && i !in s.inserted && s.checked[i].report == Nine(service)
    ensures Next(service, s, Insert(i))
      == s.(inserted := s.inserted + {i}, open := s.open + [Ninth(s.step)], accepted := s.accepted + [Stamped(Ninth(s.step).ts, EarlyEvent(5))])
  {
    NinthData(service, s.step);
    hide AddData; hide Stamp; hide NiceStep;
    var more := AddOpen(s.open, Ninth(s.step).ts, s.step, Nine(service).data);
    if s.step == 7 {
      assert s.open[1..] == [] && more == [s.open[0]] + AddOpen([], 14, 7, Nine(service).data);
    }
    assert more == s.open + [Ninth(s.step)];
  }

  lemma FlushBoth(service: bytes, s: State)
    requires s.step > 0 && s.open == [Ninth(10), Ninth(7)] && s.Horizon() == 15
    ensures Next(service, s, Flush) == s.(open := [], queue := s.queue + s.open, flushed := s.flushed + s.open)
  {
    assert s.open[1..] == [Ninth(7)] && [Ninth(7)][1..] == [];
    assert Expired(s.open, 15) == 2;
    assert s.open[..2] == s.open;
  }

  lemma FirstSide(service: bytes, s0: State) returns (run: seq<Step>)
    requires s0 == State(10, 1, 10, 1, [], {}, [], [], [], [], [], [])
    ensures Legal(service, s0, run, 1, true) && OnlyNine(service, s0, run)
    ensures Run(service, s0, run)
      == State(10, 1, 7, 1, [Pending(Nine(service), 10, 1)], {0}, [Ninth(10)], [], [], [], [], [Stamped(10, EarlyEvent(5))])
  {
    var p := Pending(Nine(service), 10, 1);
    run := ExtendNine(service, s0, [], s0, Check(Nine(service)));
    hide Run; hide Legal; hide OnlyNine; hide AddOpen; hide Stamp;
    var s := s0.(checked := [p]);
    InsertNinth(service, s, 0);
    run := ExtendNine(service, s0, run, s, Insert(0));
    s := s.(inserted := {0}, open := [Ninth(10)], accepted := [Stamped(10, EarlyEvent(5))]);
    run := ExtendNine(service, s0, run, s, Configure(7, 1, 1));
  }

  /** The report is accepted into slot 10, the step is changed from 10 to 7, and its repetition is
      accepted into slot 14. */
  lemma BothSides(service: bytes) returns (s0: State, run: seq<Step>)
    ensures Initial(s0) && Legal(service, s0, run, 1, true) && OnlyNine(service, s0, run)
    ensures var s := Run(service, s0, run);
      s.processed == [Ninth(10), Ninth(7)] && s.accepted == [Stamped(10, EarlyEvent(5)), Stamped(14, EarlyEvent(5))]
  {
    hide Run; hide Legal; hide OnlyNine; hide AddOpen; hide Expired; hide Stamp;
    var p := Pending(Nine(service), 10, 1);
    s0 := State(10, 1, 10, 1, [], {}, [], [], [], [], [], []);
    run := FirstSide(service, s0);
    var s := State(10, 1, 7, 1, [p], {0}, [Ninth(10)], [], [], [], [], [Stamped(10, EarlyEvent(5))]);
    run := ExtendNine(service, s0, run, s, Check(Nine(service)));
    s := s.(checked := [p, p]);
    InsertNinth(service, s, 1);
    run := ExtendNine(service, s0, run, s, Insert(1));
    s := s.(inserted := {0, 1}, open := [Ninth(10), Ninth(7)], accepted := [Stamped(10, EarlyEvent(5)), Stamped(14, EarlyEvent(5))]);
    run := ExtendNine(service, s0, run, s, Tick(6));
    run := FlushAndPop(service, s0, run, s.(now := 16));
  }

  lemma FlushAndPop(service: bytes, s0: State, before: seq<Step>, s: State) returns (run: seq<Step>)
    requires s0.step > 0 && Legal(service, s0, before, 1, true) && Run(service, s0, before) == s && OnlyNine(service, s0, before)
    requires s.step > 0 && s.open == [Ninth(10), Ninth(7)] && s.Horizon() == 15 && s.queue == [] && s.processed == [] && s.flushed == []
    ensures Legal(service, s0, run, 1, true) && OnlyNine(service, s0, run)
    ensures Run(service, s0, run).processed == [Ninth(10), Ninth(7)] && Run(service, s0, run).accepted == s.accepted
  {
    hide Run; hide Legal; hide OnlyNine; hide Expired; hide Ninth;
    FlushBoth(service, s);
    run := ExtendNine(service, s0, before, s, Flush);
    var t := s.(open := [], queue := s.open, flushed := s.open);
    run := ExtendNine(service, s0, run, t, MainPop);
    t := t.(queue := [Ninth(7)], processed := [Ninth(10)]);
    run := ExtendNine(service, s0, run, t, MainPop);
  }

  lemma TwoCounted(service: bytes, w: Writer)
    requires service != [] && Orderly(w) && w.entity == [] && w.slots == [Ninth(10), Ninth(7)]
    requires w.accepted == [Stamped(10, EarlyEvent(5)), Stamped(14, EarlyEvent(5))]
    ensures Answer(StoredBy(service, w.entity, w.slots), AnyTime(service), StoreKey.MAX_TIME).count == 2
  {
    assert w.slots[0].ts == 10 && w.slots[1].ts == 14;
    assert 10 in Times(w.slots) && 14 in Times(w.slots);
    assert AllSamples(w.accepted) && AllFirst(w.accepted);
    hide Times; hide Orderly; hide Direct; hide Expected; hide Answer;
    SamplesNoClash(w.accepted, Times(w.slots));
    OneWriterExact(service, w);
    AllCounted(w.accepted, service, Times(w.slots));
    OneWriterExpected(w, service);
    AnyTimeAskable(service);
  }

  lemma NotCountedOnce(service: bytes, reports: seq<Report>)
    requires forall r | r in reports :: r == Nine(service)
    ensures !CountedOnce(2, reports)
  {
    forall rs: seq<Report> | forall i | 0 <= i < |rs| :: rs[i] in reports ensures AllDifferent(rs) ==> Sizes(rs) <= 1 {
      if |rs| >= 2 { assert rs[0] == rs[1]; }
      if |rs| == 1 { assert rs[0] == Nine(service) && rs[..0] == []; }
    }
  }

  lemma ChangedCountsTwice(service: bytes)
    requires service != []
    ensures !AlwaysCountedOnce(service, false)
  {
    var s0, run := BothSides(service);
    var s := Run(service, s0, run);
    var w := Writer([], s.processed, s.accepted);
    assert AllSamples(w.accepted) && SmallHistory(w.accepted);
    SamplesStorable(w.accepted, []);
    CompleteRun(service, s0, run, 1);
    hide Run; hide Legal; hide Insertions; hide Safe; hide Complete; hide AllStorable;
    GoodOrderly(w, s);
    TwoCounted(service, w);
    AnyTimeAskable(service);
    NotCountedOnce(service, Insertions(service, s0, run));
  }

  /** The events of a report are counted once in all runs, however often it is delivered, exactly
      when the step is never changed. */
  lemma CountedOnceIff(service: bytes, keeps: bool)
    requires service != []
    ensures AlwaysCountedOnce(service, keeps) <==> keeps
  {
    if keeps {
      forall entity, s0: State, steps, cond, t |
        && Initial(s0) && Legal(service, s0, steps, 1, true) && KeepsStep(steps, s0.step)
        && GoodEvents(Writer(entity, Run(service, s0, steps).processed, Run(service, s0, steps).accepted)) && Askable(cond, t)
        ensures CountedOnce(Answer(StoredBy(service, entity, Run(service, s0, steps).processed), cond, t).count, Insertions(service, s0, steps))
      {
        hide *;
        KeptCountsOnce(service, entity, s0, steps, cond, t);
      }
    } else {
      ChangedCountsTwice(service);
    }
  }
}
