/** From accepted events to the answer of a query: the summary read back from the store is
    the one computed directly from the events. */
module EndToEnd {
  import opened Bytes
  import opened StoreKey
  import opened Groups
  import opened Aggregate
  import opened EventStats
  import opened SlotMachine
  import opened Index
  import opened Store
  import opened EventHandling
  import opened Lossless

  // ------------------------------------------------------------- the direct answer

  predicate Repeats(e: Stamped, f: Stamped) {
    e.slot == f.slot && e.ev.metric == f.ev.metric && e.ev.msgid == f.ev.msgid
  }

  /** No event before it has the same slot, metric and message id. */
  predicate FirstDelivery(before: seq<Stamped>, e: Stamped) {
    forall i | 0 <= i < |before| :: !Repeats(before[i], e)
  }

  predicate Queried(e: Stamped, cond: Cond, t: int, done: set<int>) {
    && e.slot in done && InWindow(e.slot, t, cond.interval)
    && e.ev.metric == cond.metric && TagMatches(e.ev.tag, cond)
  }

  /** Count, sum, minimum and maximum of the events a query asks for, straight from the list
      of accepted events: those of a processed slot inside the window with the metric and
      tag asked for, each counted when it is delivered first. */
  function Direct(accepted: seq<Stamped>, cond: Cond, t: int, done: set<int>): (a: Acc)
    ensures a.min <= INT32_MAX && a.max >= INT32_MIN
  {
    if accepted == [] then ZERO
    else
      var init, last := accepted[..|accepted| - 1], accepted[|accepted| - 1];
      Plus(Direct(init, cond, t, done), If(FirstDelivery(init, last) && Queried(last, cond, t, done), EventAcc(last.ev)))
  }

  lemma {:induction false} HistoryIds(before: seq<Stamped>, e: Stamped)
    ensures e.ev.msgid in Ids(History(before, e.slot, MetricKey(e.ev))) <==> !FirstDelivery(before, e)
  {
    if before != [] {
      var init, last := before[..|before| - 1], before[|before| - 1];
      assert before == init + [last];
      HistoryIds(init, e);
      HistorySnoc(init, last, e.slot, MetricKey(e.ev));
      var h := History(init, e.slot, MetricKey(e.ev));
      IdsSnoc(h, last.ev);
      assert h + [] == h;
      hide History; hide Ids;
      assert FirstDelivery(before, e) <==> FirstDelivery(init, e) && !Repeats(last, e);
    }
  }

  /** The events of one slot, repeated messages removed. */
  function SlotTotal(accepted: seq<Stamped>, ts: int, cond: Cond, t: int): Acc {
    If(InWindow(ts, t, cond.interval), Total(Dedup(History(accepted, ts, Name(cond.metric))), Wanted(cond)))
  }

  lemma DedupTotalSnoc(h: seq<Event>, e: Event, cond: Cond)
    ensures Total(Dedup(h + [e]), Wanted(cond))
      == Plus(Total(Dedup(h), Wanted(cond)), If(e.msgid !in Ids(h) && TagMatches(e.tag, cond), EventAcc(e)))
  {
    DedupSnoc(h, e);
    TotalSnoc(Dedup(h), e, Wanted(cond));
    PlusZero(Total(Dedup(h), Wanted(cond)));
    hide Total; hide Dedup; hide Plus;
    assert Total(Dedup(h + [e]), Wanted(cond))
      == Plus(Total(Dedup(h), Wanted(cond)), If(e.msgid !in Ids(h) && TagMatches(e.tag, cond), EventAcc(e)));
  }

  /** One more event changes the total of its own slot only, and only when it is new. */
  lemma SlotTotalSnoc(init: seq<Stamped>, e: Stamped, ts: int, cond: Cond, t: int)
    ensures SlotTotal(init + [e], ts, cond, t)
      == Plus(SlotTotal(init, ts, cond, t), If(FirstDelivery(init, e) && Queried(e, cond, t, {ts}), EventAcc(e.ev)))
  {
    hide Total; hide Dedup; hide History; hide Plus; hide FirstDelivery; hide TagMatches; hide InWindow; hide Ids;
    var k := Name(cond.metric);
    var h := History(init, ts, k);
    HistorySnoc(init, e, ts, k);
    PlusZero(Total(Dedup(h), Wanted(cond)));
    PlusZero(ZERO);
    if e.slot == ts && MetricKey(e.ev) == k {
      HistoryIds(init, e);
      DedupTotalSnoc(h, e.ev, cond);
      assert SlotTotal(init + [e], ts, cond, t)
        == Plus(SlotTotal(init, ts, cond, t), If(FirstDelivery(init, e) && Queried(e, cond, t, {ts}), EventAcc(e.ev)));
    } else {
      assert h + [] == h;
      assert !Queried(e, cond, t, {ts});
      assert SlotTotal(init + [e], ts, cond, t)
        == Plus(SlotTotal(init, ts, cond, t), If(FirstDelivery(init, e) && Queried(e, cond, t, {ts}), EventAcc(e.ev)));
    }
  }

  lemma SplitOne(a: Acc, b: Acc, p: bool, q: bool, x: Acc)
    requires !(p && q) && a.min <= INT32_MAX && a.max >= INT32_MIN && b.min <= INT32_MAX && b.max >= INT32_MIN
    ensures Plus(Plus(a, b), If(p || q, x)) == Plus(Plus(a, If(p, x)), Plus(b, If(q, x)))
  {
    PlusZero(a);
    PlusZero(b);
    PlusZero(Plus(a, b));
    InnerOne(a, b, x);
    PlusAssoc(a, b, x);
    hide Plus;
    assert Plus(Plus(a, b), If(p || q, x)) == Plus(Plus(a, If(p, x)), Plus(b, If(q, x)));
  }

  lemma DirectSnoc(init: seq<Stamped>, e: Stamped, cond: Cond, t: int, done: set<int>)
    ensures Direct(init + [e], cond, t, done)
      == Plus(Direct(init, cond, t, done), If(FirstDelivery(init, e) && Queried(e, cond, t, done), EventAcc(e.ev)))
  {
    assert (init + [e])[..|init|] == init;
  }

  lemma NoEvents(ts: int, cond: Cond, t: int, done: set<int>)
    ensures SlotTotal([], ts, cond, t) == ZERO && Direct([], cond, t, done) == ZERO
  {
    assert Dedup([]) == [] && Total([], Wanted(cond)) == ZERO;
  }

  /** Processing one more slot adds the events of that slot. */
  lemma {:induction false} DirectOneMore(accepted: seq<Stamped>, cond: Cond, t: int, done: set<int>, ts: int)
    requires ts !in done
    ensures Direct(accepted, cond, t, done + {ts}) == Plus(Direct(accepted, cond, t, done), SlotTotal(accepted, ts, cond, t))
  {
    if accepted == [] {
      hide *;
      NoEvents(ts, cond, t, done);
      NoEvents(ts, cond, t, done + {ts});
      PlusZero(ZERO);
    } else {
      var init, e := accepted[..|accepted| - 1], accepted[|accepted| - 1];
      assert accepted == init + [e];
      assert Queried(e, cond, t, done + {ts}) <==> Queried(e, cond, t, done) || Queried(e, cond, t, {ts});
      assert !(Queried(e, cond, t, done) && Queried(e, cond, t, {ts}));
      var first, d, s := FirstDelivery(init, e), Direct(init, cond, t, done), SlotTotal(init, ts, cond, t);
      hide *;
      DirectOneMore(init, cond, t, done, ts);
      SlotTotalSnoc(init, e, ts, cond, t);
      DirectSnoc(init, e, cond, t, done);
      DirectSnoc(init, e, cond, t, done + {ts});
      SlotTotalRange(init, ts, cond, t);
      SplitOne(d, s, first && Queried(e, cond, t, done), first && Queried(e, cond, t, {ts}), EventAcc(e.ev));
      assert Direct(accepted, cond, t, done + {ts}) == Plus(Direct(accepted, cond, t, done), SlotTotal(accepted, ts, cond, t));
    }
  }

  lemma SlotTotalRange(accepted: seq<Stamped>, ts: int, cond: Cond, t: int)
    ensures SlotTotal(accepted, ts, cond, t).min <= INT32_MAX && SlotTotal(accepted, ts, cond, t).max >= INT32_MIN
  {
  }

  lemma {:induction false} NothingDone(accepted: seq<Stamped>, cond: Cond, t: int)
    ensures Direct(accepted, cond, t, {}) == ZERO
  {
    if accepted == [] {
      hide *;
      NoEvents(0, cond, t, {});
    } else {
      var init, e := accepted[..|accepted| - 1], accepted[|accepted| - 1];
      assert accepted == init + [e];
      assert If(FirstDelivery(init, e) && Queried(e, cond, t, {}), EventAcc(e.ev)) == ZERO;
      hide *;
      NothingDone(init, cond, t);
      DirectSnoc(init, e, cond, t, {});
      PlusZero(ZERO);
    }
  }

  // ------------------------------------------------------------- records of processed slots

  ghost predicate SmallHistory(accepted: seq<Stamped>) {
    |accepted| <= INT32_MAX && forall i | 0 <= i < |accepted| :: IsInt32(accepted[i].ev.value)
  }

  lemma {:induction false} HistoryMembers(accepted: seq<Stamped>, ts: int, k: Key)
    ensures |History(accepted, ts, k)| <= |accepted|
    ensures forall i | 0 <= i < |History(accepted, ts, k)| ::
      MetricKey(History(accepted, ts, k)[i]) == k && Stamped(ts, History(accepted, ts, k)[i]) in accepted
  {
    if accepted != [] { HistoryMembers(accepted[..|accepted| - 1], ts, k); }
  }

  lemma FaithfulMetrics(x: Slot, accepted: seq<Stamped>)
    requires Faithful(x, accepted) && SmallHistory(accepted)
    ensures MetricGroups(x.data)
  {
    forall i | 0 <= i < |x.data| ensures Small(x.data[i].items) && (x.data[i].key.Time? ==> x.data[i].items == []) {
      var k, items := x.data[i].key, x.data[i].items;
      ItemsAt(x.data, i);
      HistoryMembers(accepted, x.ts, k);
      assert items == History(accepted, x.ts, k);
      forall j | 0 <= j < |items| ensures IsInt32(items[j].value) { assert Stamped(x.ts, items[j]) in accepted; }
      if items != [] { assert MetricKey(items[0]) == k; }
    }
  }

  lemma SlotRecordsTotal(service: bytes, entity: bytes, x: Slot, accepted: seq<Stamped>, cond: Cond, t: int)
    requires Faithful(x, accepted) && SmallHistory(accepted)
    ensures Total(SlotRecords(service, entity, x), CoreOf(cond, t)) == If(EntityMatches(entity, cond), SlotTotal(accepted, x.ts, cond, t))
  {
    FaithfulMetrics(x, accepted);
    GroupRecordsTotal(service, entity, x, x.data, cond, t);
    hide Total; hide GroupRecords; hide Dedup; hide History; hide Items; hide InWindow; hide EntityMatches;
    assert Items(x.data, Name(cond.metric)) == History(accepted, x.ts, Name(cond.metric));
    assert SlotDirect(entity, x.ts, Items(x.data, Name(cond.metric)), cond, t) == If(EntityMatches(entity, cond), SlotTotal(accepted, x.ts, cond, t));
  }

  function Times(slots: seq<Slot>): set<int> { set i | 0 <= i < |slots| :: slots[i].ts }

  ghost predicate DistinctTimes(slots: seq<Slot>) { forall i, j | 0 <= i < j < |slots| :: slots[i].ts != slots[j].ts }

  ghost predicate AllFaithful(slots: seq<Slot>, accepted: seq<Stamped>) {
    forall i | 0 <= i < |slots| :: Faithful(slots[i], accepted)
  }

  lemma TimesSnoc(slots: seq<Slot>)
    requires slots != [] && DistinctTimes(slots)
    ensures var init, last := slots[..|slots| - 1], slots[|slots| - 1];
      Times(slots) == Times(init) + {last.ts} && last.ts !in Times(init)
  {
    var init, last := slots[..|slots| - 1], slots[|slots| - 1];
    forall ts | ts in Times(slots) ensures ts in Times(init) + {last.ts} {
      var i :| 0 <= i < |slots| && slots[i].ts == ts;
      if i < |init| { assert init[i].ts == ts; }
    }
    forall ts | ts in Times(init) ensures ts in Times(slots) {
      var i :| 0 <= i < |init| && init[i].ts == ts;
      assert slots[i].ts == ts;
    }
    assert slots[|slots| - 1].ts in Times(slots);
  }

  lemma IfBoth(b: bool, x: Acc, y: Acc)
    ensures Plus(If(b, x), If(b, y)) == If(b, Plus(x, y))
  {
    hide Plus;
    PlusZero(ZERO);
    assert Plus(If(b, x), If(b, y)) == If(b, Plus(x, y));
  }

  /** The records of the processed slots add up to the direct answer. */
  lemma {:induction false} AllRecordsTotal(service: bytes, entity: bytes, slots: seq<Slot>, accepted: seq<Stamped>, cond: Cond, t: int)
    requires DistinctTimes(slots) && AllFaithful(slots, accepted) && SmallHistory(accepted)
    ensures Total(AllRecords(service, entity, slots), CoreOf(cond, t))
      == If(EntityMatches(entity, cond), Direct(accepted, cond, t, Times(slots)))
  {
    var f, m := CoreOf(cond, t), EntityMatches(entity, cond);
    if slots == [] {
      assert Times(slots) == {};
      assert Total(AllRecords(service, entity, slots), f) == ZERO == If(m, ZERO);
      hide *;
      NothingDone(accepted, cond, t);
    } else {
      var init, x := slots[..|slots| - 1], slots[|slots| - 1];
      var rs, more := AllRecords(service, entity, init), SlotRecords(service, entity, x);
      assert AllRecords(service, entity, slots) == rs + more;
      AllRecordsTotal(service, entity, init, accepted, cond, t);
      SlotRecordsTotal(service, entity, x, accepted, cond, t);
      hide *;
      TimesSnoc(slots);
      TotalConcat(rs, more, f);
      DirectOneMore(accepted, cond, t, Times(init), x.ts);
      IfBoth(m, Direct(accepted, cond, t, Times(init)), SlotTotal(accepted, x.ts, cond, t));
      assert Total(AllRecords(service, entity, slots), f) == If(m, Direct(accepted, cond, t, Times(slots)));
    }
  }
}
