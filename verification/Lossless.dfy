/** Two-level aggregation end to end: what a query reads back from the records of processed
    slots equals what is computed directly from the events. */
module Lossless {
  import opened Bytes
  import opened Seqs
  import opened StoreKey
  import opened KeyRange
  import opened Groups
  import opened Aggregate
  import opened EventStats
  import opened SlotMachine
  import opened Index
  import opened Store
  import opened EventHandling

  // ------------------------------------------------------------- what a record adds

  predicate EntityMatches(entity: bytes, cond: Cond) { cond.entity == [] || cond.entity == entity }
  predicate TagMatches(tag: bytes, cond: Cond) { cond.tag == [] || cond.tag == StoredTag(tag) }

  function Contribution(r: Record, cond: Cond, t: int): Acc {
    if r.metric == cond.metric && InWindow(r.ts, t, cond.interval) && EntityMatches(r.entity, cond) && TagMatches(r.tag, cond)
    then OfInfo(r.Line()) else ZERO
  }

  function ContributionOf(cond: Cond, t: int): Record -> Acc { (r: Record) => Contribution(r, cond, t) }

  lemma EntryContribution(r: Record, cond: Cond, t: int)
    requires r.Typed() && Storable(r.KeyFields())
    ensures Total(Matching([Entry(InsertKey(r.KeyFields()), r.Value())], cond, t), OfInfo) == Contribution(r, cond, t)
  {
    var e := Entry(InsertKey(r.KeyFields()), r.Value());
    ReadBack(r, cond);
    MatchingOne(e, cond, t);
    TypedRange(r);
    TotalOne(r.Line());
  }

  lemma MatchingOne(e: Entry, cond: Cond, t: int)
    ensures Matching([e], cond, t) == if Matches(e, cond, t) then AsSeq(ReadEntry(e, cond)) else []
  {
    assert [e][1..] == [];
    assert Matching([], cond, t) == [];
  }

  lemma TypedRange(r: Record)
    requires r.Typed()
    ensures r.min <= INT32_MAX && r.max >= INT32_MIN
  {
    Widths();
  }

  lemma TotalOne(i: Info)
    requires i.min <= INT32_MAX && i.max >= INT32_MIN
    ensures Total([i], OfInfo) == OfInfo(i)
  {
    TotalSnoc([], i, OfInfo);
    assert [] + [i] == [i];
  }

  ghost predicate Writable(rs: seq<Record>) {
    AllTyped(rs) && forall i | 0 <= i < |rs| :: rs[i].Accepted() && Storable(rs[i].KeyFields())
  }

  ghost predicate DistinctKeys(rs: seq<Record>) {
    forall i, j | 0 <= i < j < |rs| :: rs[i].KeyFields() != rs[j].KeyFields()
  }

  lemma PutPresent(db: seq<Entry>, key: bytes, value: bytes, k: bytes)
    requires InOrder(db)
    ensures Present(Put(db, key, value), k) ==> Present(db, k) || k == key
  {
    var i, r := Seek(db, key), Put(db, key, value);
    if Present(r, k) && k != key {
      var j :| 0 <= j < |r| && r[j].key == k;
      assert db[if |r| == |db| then j else if j < i then j else j - 1].key == k;
    }
  }

  /** Every key in the database is the key of a record. */
  ghost predicate KeysFrom(db: seq<Entry>, rs: seq<Record>) {
    forall k | Present(db, k) :: exists i | 0 <= i < |rs| :: InsertKey(rs[i].KeyFields()) == k
  }

  lemma KeysFromPut(db: seq<Entry>, rs: seq<Record>, r: Record, value: bytes)
    requires InOrder(db) && KeysFrom(db, rs)
    ensures KeysFrom(Put(db, InsertKey(r.KeyFields()), value), rs + [r])
  {
    var key, more := InsertKey(r.KeyFields()), rs + [r];
    forall k | Present(Put(db, key, value), k) ensures exists i | 0 <= i < |more| :: InsertKey(more[i].KeyFields()) == k {
      PutPresent(db, key, value, k);
      hide InsertKey; hide Put; hide Present;
      if k == key {
        assert InsertKey(more[|rs|].KeyFields()) == k;
      } else {
        var i :| 0 <= i < |rs| && InsertKey(rs[i].KeyFields()) == k;
        assert InsertKey(more[i].KeyFields()) == k;
      }
    }
  }

  lemma NewKeyAbsent(db: seq<Entry>, rs: seq<Record>, r: Record)
    requires Writable(rs + [r]) && DistinctKeys(rs + [r]) && KeysFrom(db, rs)
    ensures !Present(db, InsertKey(r.KeyFields()))
  {
    var all := rs + [r];
    if Present(db, InsertKey(r.KeyFields())) {
      var i :| 0 <= i < |rs| && InsertKey(rs[i].KeyFields()) == InsertKey(r.KeyFields());
      assert all[i] == rs[i] && all[|rs|] == r;
      KeysInjective(rs[i].KeyFields(), r.KeyFields());
    }
  }

  /** Writing records with different keys into an empty database makes every query see the
      sum of what the records contribute. */
  lemma {:induction false} StoreAllTotal(rs: seq<Record>, cond: Cond, t: int)
    requires Writable(rs) && DistinctKeys(rs)
    ensures var db := StoreAll([], rs);
      && InOrder(db) && WellStored(db) && KeysFrom(db, rs)
      && Total(Matching(db, cond, t), OfInfo) == Total(rs, ContributionOf(cond, t))
  {
    if rs != [] {
      var n := |rs| - 1;
      var init, last := rs[..n], rs[n];
      assert rs == init + [last];
      StoreAllTotal(init, cond, t);
      var db, key := StoreAll([], init), InsertKey(last.KeyFields());
      assert last.Accepted() && StoreAll([], rs) == Put(db, key, last.Value());
      InsertKeeps(db, last);
      assert InOrder(StoreAll([], rs)) && WellStored(StoreAll([], rs));
      assert Storable(last.KeyFields());
      hide *;
      NewKeyAbsent(db, init, last);
      KeysFromPut(db, init, last, last.Value());
      PutMatching(db, key, last.Value(), cond, t);
      EntryContribution(last, cond, t);
      TotalSnoc(init, last, ContributionOf(cond, t));
      assert Total(Matching(StoreAll([], rs), cond, t), OfInfo) == Total(rs, ContributionOf(cond, t)) by { ContributionAt(last, cond, t); }
    }
  }

  lemma ContributionAt(r: Record, cond: Cond, t: int)
    ensures ContributionOf(cond, t)(r) == Contribution(r, cond, t)
  {
  }

  lemma {:induction false} TotalPermuted<V>(a: seq<V>, b: seq<V>, f: V -> Acc)
    requires multiset(a) == multiset(b)
    ensures Total(a, f) == Total(b, f)
  {
    if a == [] {
      assert |multiset(b)| == |multiset(a)| == 0;
    } else {
      hide *;
      var i := TakeOut(a, b);
      var init, x := a[..|a| - 1], a[|a| - 1];
      var l, r := b[..i], b[i + 1..];
      assert a == init + [x];
      TotalPermuted(init, l + r, f);
      TotalSnoc(init, x, f);
      TotalConcat(l + [x], r, f);
      TotalSnoc(l, x, f);
      TotalConcat(l, r, f);
      InnerOne(Total(l, f), Total(r, f), f(x));
      assert Total(a, f) == Total(b, f);
    }
  }

  lemma DistinctOnce(a: seq<Record>, h: nat)
    requires DistinctKeys(a) && h < |a|
    ensures multiset(a)[a[h]] == 1
  {
    assert a == a[..h] + [a[h]] + a[h + 1..];
    assert a[h] !in a[..h] && a[h] !in a[h + 1..];
  }

  lemma DistinctPermuted(a: seq<Record>, b: seq<Record>)
    requires multiset(a) == multiset(b) && DistinctKeys(a)
    ensures DistinctKeys(b)
  {
    forall i, j | 0 <= i < j < |b| ensures b[i].KeyFields() != b[j].KeyFields() {
      assert b[i] in multiset(a) && b[j] in multiset(a);
      var h :| 0 <= h < |a| && a[h] == b[i];
      var k :| 0 <= k < |a| && a[k] == b[j];
      DistinctOnce(a, h);
      if b[i] == b[j] { Twice(b, i, j); }
    }
  }

  // ------------------------------------------------------------- events of one tag

  /** Count, sum, minimum and maximum only. */
  function Core(a: Acc): Acc { a.(p10 := 0, p50 := 0, p90 := 0, n := 0) }

  lemma CorePlus(a: Acc, b: Acc)
    ensures Core(Plus(a, b)) == Plus(Core(a), Core(b))
  {
  }

  function EventAcc(e: Event): Acc { Acc(1, e.value, e.value, e.value, 0, 0, 0, 0) }

  function Wanted(cond: Cond): Event -> Acc { (e: Event) => if TagMatches(e.tag, cond) then EventAcc(e) else ZERO }

  ghost predicate Small(evs: seq<Event>) {
    |evs| <= INT32_MAX && forall i | 0 <= i < |evs| :: IsInt32(evs[i].value)
  }

  /** What the total of some events means. */
  ghost predicate Describes(a: Acc, evs: seq<Event>) {
    && Core(a) == a && a.count == |evs| && a.sum == Sum(evs)
    && (forall i | 0 <= i < |evs| :: a.min <= evs[i].value <= a.max)
    && (exists i | 0 <= i < |evs| :: evs[i].value == a.min)
    && (exists i | 0 <= i < |evs| :: evs[i].value == a.max)
  }

  lemma DescribesSnoc(b: Acc, evs: seq<Event>, e: Event)
    requires Describes(b, evs)
    ensures Describes(Plus(b, EventAcc(e)), evs + [e])
  {
    var a, s := Plus(b, EventAcc(e)), evs + [e];
    assert s[..|evs|] == evs;
    var i :| 0 <= i < |evs| && evs[i].value == b.min;
    var j :| 0 <= j < |evs| && evs[j].value == b.max;
    assert s[if e.value < b.min then |evs| else i].value == a.min;
    assert s[if e.value > b.max then |evs| else j].value == a.max;
  }

  lemma DescribesOne(e: Event)
    requires IsInt32(e.value)
    ensures Describes(Plus(ZERO, EventAcc(e)), [e])
  {
    assert [e][..0] == [];
    assert [e][0].value == e.value;
  }

  lemma {:induction false} TotalEvents(evs: seq<Event>)
    requires evs != [] && forall i | 0 <= i < |evs| :: IsInt32(evs[i].value)
    ensures Describes(Total(evs, EventAcc), evs)
  {
    var n := |evs| - 1;
    var init, last := evs[..n], evs[n];
    assert evs == init + [last];
    TotalSnoc(init, last, EventAcc);
    if n == 0 {
      assert init == [] && evs == [last];
      DescribesOne(last);
    } else {
      TotalEvents(init);
      DescribesSnoc(Total(init, EventAcc), init, last);
    }
  }

  lemma ValuesExact(evs: seq<Event>)
    requires Small(evs)
    ensures forall i | 0 <= i < |evs| :: Values(evs)[i] == evs[i].value
  {
  }

  lemma ExtremesExact(evs: seq<Event>, s: Stat, a: Acc)
    requires Small(evs) && Describes(a, evs)
    requires IsKth(Values(evs), 0, s.min) && IsKth(Values(evs), |evs| - 1, s.max)
    ensures s.min == a.min && s.max == a.max
  {
    var vs := Values(evs);
    ValuesExact(evs);
    KthIsInt32(vs, 0, s.min);
    KthIsInt32(vs, |evs| - 1, s.max);
    hide CountLt; hide IsKth; hide Values;
    var i :| 0 <= i < |evs| && evs[i].value == a.min;
    var j :| 0 <= j < |evs| && evs[j].value == a.max;
    ExtremesBound(vs, s.min, s.max, i);
    ExtremesBound(vs, s.min, s.max, j);
    var k :| 0 <= k < |vs| && vs[k] == s.min;
    var l :| 0 <= l < |vs| && vs[l] == s.max;
    assert a.min <= evs[k].value && evs[l].value <= a.max;
  }

  /** A stored line carries the exact count, sum, minimum and maximum of its events. */
  lemma StatIsTotal(evs: seq<Event>, ts: int, tag: bytes)
    requires evs != [] && Small(evs)
    ensures var s := StatOf(evs);
      && Core(OfInfo(Info(ts, tag, s.count, s.sum, s.avg, s.min, s.max, s.p10, s.p50, s.p90))) == Total(evs, EventAcc)
      && s.count >= 1
  {
    var s, a := StatOf(evs), Total(evs, EventAcc);
    StatOrdered(evs, s, ts, tag);
    TotalEvents(evs);
    ExtremesExact(evs, s, a);
  }

  lemma PlusZero(a: Acc)
    requires a.min <= INT32_MAX && a.max >= INT32_MIN
    ensures Plus(ZERO, a) == a && Plus(a, ZERO) == a
  {
  }

  lemma {:induction false} TotalSame<V>(vs: seq<V>, f: V -> Acc, g: V -> Acc)
    requires forall i | 0 <= i < |vs| :: f(vs[i]) == g(vs[i])
    ensures Total(vs, f) == Total(vs, g)
  {
    if vs != [] { TotalSame(vs[..|vs| - 1], f, g); }
  }

  lemma {:induction false} TotalNone<V>(vs: seq<V>, f: V -> Acc)
    requires forall i | 0 <= i < |vs| :: f(vs[i]) == ZERO
    ensures Total(vs, f) == ZERO
  {
    if vs == [] {
      assert Total(vs, f) == ZERO;
    } else {
      hide *;
      var init, last := vs[..|vs| - 1], vs[|vs| - 1];
      assert vs == init + [last];
      TotalSnoc(init, last, f);
      TotalNone(init, f);
      PlusZero(ZERO);
      assert Total(vs, f) == ZERO;
    }
  }

  lemma OneTagWanted(evs: seq<Event>, tag: bytes, cond: Cond)
    requires forall i | 0 <= i < |evs| :: evs[i].tag == tag
    ensures Total(evs, Wanted(cond)) == if TagMatches(tag, cond) then Total(evs, EventAcc) else ZERO
  {
    hide Total;
    if TagMatches(tag, cond) {
      TotalSame(evs, Wanted(cond), EventAcc);
    } else {
      TotalNone(evs, Wanted(cond));
    }
  }

  /** Each group holds events of its own tag. */
  ghost predicate OwnTag(g: Group<Event>) {
    g.items != [] && Small(g.items) && forall j | 0 <= j < |g.items| :: TagKeyOf(g.items[j]) == g.key
  }

  predicate SlotMatches(entity: bytes, x: Slot, metric: bytes, cond: Cond, t: int) {
    metric == cond.metric && InWindow(x.ts, t, cond.interval) && EntityMatches(entity, cond)
  }

  function If(b: bool, a: Acc): Acc { if b then a else ZERO }

  function CoreOf(cond: Cond, t: int): Record -> Acc { (r: Record) => Core(Contribution(r, cond, t)) }

  lemma {:induction false} CoreTotal(rs: seq<Record>, cond: Cond, t: int)
    ensures Core(Total(rs, ContributionOf(cond, t))) == Total(rs, CoreOf(cond, t))
  {
    if rs != [] {
      CoreTotal(rs[..|rs| - 1], cond, t);
      CorePlus(Total(rs[..|rs| - 1], ContributionOf(cond, t)), Contribution(rs[|rs| - 1], cond, t));
    }
  }

  lemma OneRecord(service: bytes, entity: bytes, x: Slot, metric: bytes, g: Group<Event>, cond: Cond, t: int)
    requires OwnTag(g)
    ensures var r := RecordOf(service, entity, x, metric, StringOf(g.key), StatOf(g.items));
      Core(Contribution(r, cond, t)) == If(SlotMatches(entity, x, metric, cond, t), Total(g.items, Wanted(cond)))
  {
    var r := RecordOf(service, entity, x, metric, StringOf(g.key), StatOf(g.items));
    StatIsTotal(g.items, r.ts, StoredTag(r.tag));
    assert TagKeyOf(g.items[0]) == g.key;
    OneTagWanted(g.items, StringOf(g.key), cond);
    assert Core(ZERO) == ZERO;
  }

  lemma IfPlus(b: bool, x: Acc, y: Acc)
    requires x.min <= INT32_MAX && x.max >= INT32_MIN
    ensures Plus(Plus(ZERO, If(b, x)), If(b, y)) == If(b, Plus(x, y))
  {
    hide Plus;
    PlusZero(x);
    PlusZero(ZERO);
    assert Plus(Plus(ZERO, If(b, x)), If(b, y)) == If(b, Plus(x, y));
  }

  lemma TotalCons<V>(v: V, vs: seq<V>, f: V -> Acc)
    ensures Total([v] + vs, f) == Plus(Plus(ZERO, f(v)), Total(vs, f))
  {
    TotalConcat([v], vs, f);
    TotalSnoc([], v, f);
    assert [] + [v] == [v];
  }

  lemma TagRecordsCons(service: bytes, entity: bytes, x: Slot, metric: bytes, tags: seq<Group<Event>>)
    requires tags != [] && NonEmptyGroups(tags)
    ensures NonEmptyGroups(tags[1..]) && TagRecords(service, entity, x, metric, tags) ==
      [RecordOf(service, entity, x, metric, StringOf(tags[0].key), StatOf(tags[0].items))] + TagRecords(service, entity, x, metric, tags[1..])
  {
    hide StatOf;
  }

  lemma {:induction false} TagRecordsTotal(service: bytes, entity: bytes, x: Slot, metric: bytes, tags: seq<Group<Event>>, cond: Cond, t: int)
    requires NonEmptyGroups(tags) && forall i | 0 <= i < |tags| :: OwnTag(tags[i])
    ensures Total(TagRecords(service, entity, x, metric, tags), CoreOf(cond, t))
      == If(SlotMatches(entity, x, metric, cond, t), GroupsTotal(tags, Wanted(cond)))
  {
    hide Plus; hide StatOf; hide SlotMatches;
    var rs, f, m := TagRecords(service, entity, x, metric, tags), CoreOf(cond, t), SlotMatches(entity, x, metric, cond, t);
    if tags == [] {
      assert Total(rs, f) == If(m, GroupsTotal(tags, Wanted(cond)));
    } else {
      var g, rest := tags[0], tags[1..];
      OneRecord(service, entity, x, metric, g, cond, t);
      TagRecordsTotal(service, entity, x, metric, rest, cond, t);
      var more := TagRecords(service, entity, x, metric, rest);
      var w, r := Wanted(cond), RecordOf(service, entity, x, metric, StringOf(g.key), StatOf(g.items));
      TagRecordsCons(service, entity, x, metric, tags);
      assert f(r) == If(m, Total(g.items, w)) && GroupsTotal(tags, w) == Plus(Total(g.items, w), GroupsTotal(rest, w));
      hide *;
      TotalCons(r, more, f);
      IfPlus(m, Total(g.items, w), GroupsTotal(rest, w));
      assert Total(rs, f) == If(m, GroupsTotal(tags, w));
    }
  }

  lemma {:induction false} SelectMembers<V>(vs: seq<V>, key: V -> Key, k: Key)
    ensures |Select(vs, key, k)| <= |vs|
    ensures forall i | 0 <= i < |Select(vs, key, k)| :: key(Select(vs, key, k)[i]) == k && Select(vs, key, k)[i] in vs
  {
    if vs != [] { SelectMembers(vs[..|vs| - 1], key, k); }
  }

  lemma {:induction false} DedupMembers(evs: seq<Event>)
    ensures forall i | 0 <= i < |Dedup(evs)| :: Dedup(evs)[i] in evs
  {
    if evs != [] { DedupMembers(evs[..|evs| - 1]); }
  }

  /** The tags of a metric, each with events of its own. */
  lemma TagsOwn(evs: seq<Event>)
    requires Small(evs)
    ensures forall i | 0 <= i < |ByTags(evs)| :: OwnTag(ByTags(evs)[i])
  {
    var d := Dedup(evs);
    var tags := Build(d, TagKeyOf);
    DedupMembers(evs);
    BuildPartitions(d, TagKeyOf);
    forall i | 0 <= i < |tags| ensures OwnTag(tags[i]) {
      ItemsAt(tags, i);
      SelectMembers(d, TagKeyOf, tags[i].key);
      assert tags[i].items == Select(d, TagKeyOf, tags[i].key);
    }
  }

  lemma MetricTotal(service: bytes, entity: bytes, x: Slot, g: Group<Event>, cond: Cond, t: int)
    requires Small(g.items)
    ensures Total(MetricRecords(service, entity, x, g), CoreOf(cond, t))
      == If(SlotMatches(entity, x, StringOf(g.key), cond, t), Total(Dedup(g.items), Wanted(cond)))
  {
    TagsOwn(g.items);
    TagRecordsTotal(service, entity, x, StringOf(g.key), ByTags(g.items), cond, t);
    GroupsAddUp(Dedup(g.items), TagKeyOf, Wanted(cond));
  }

  lemma {:induction false} ItemsSnoc(gs: seq<Group<Event>>, g: Group<Event>, k: Key)
    requires !HasKey(gs, g.key)
    ensures Items(gs + [g], k) == if g.key == k then g.items else Items(gs, k)
  {
    if gs == [] {
      assert gs + [g] == [g] && [g][1..] == [];
    } else {
      assert (gs + [g])[1..] == gs[1..] + [g];
      HasKeyCons(gs[0], gs[1..], g.key);
      assert [gs[0]] + gs[1..] == gs;
      ItemsSnoc(gs[1..], g, k);
    }
  }

  lemma SortedSnoc(gs: seq<Group<Event>>)
    requires gs != [] && Sorted(gs)
    ensures Sorted(gs[..|gs| - 1]) && !HasKey(gs[..|gs| - 1], gs[|gs| - 1].key)
  {
    var n := |gs| - 1;
    forall i | 0 <= i < n ensures gs[i].key != gs[n].key { KeyTotal(gs[i].key, gs[n].key); }
  }

  /** Groups are metrics; only a metric that was reported has events. */
  ghost predicate MetricGroups(gs: seq<Group<Event>>) {
    forall i | 0 <= i < |gs| :: Small(gs[i].items) && (gs[i].key.Time? ==> gs[i].items == [])
  }

  /** What the events of one slot add to a query. */
  function SlotDirect(entity: bytes, ts: int, evs: seq<Event>, cond: Cond, t: int): Acc {
    If(InWindow(ts, t, cond.interval) && EntityMatches(entity, cond), Total(Dedup(evs), Wanted(cond)))
  }

  lemma {:induction false} GroupRecordsTotal(service: bytes, entity: bytes, x: Slot, gs: seq<Group<Event>>, cond: Cond, t: int)
    requires Sorted(gs) && MetricGroups(gs)
    ensures Total(GroupRecords(service, entity, x, gs), CoreOf(cond, t))
      == SlotDirect(entity, x.ts, Items(gs, Name(cond.metric)), cond, t)
  {
    var k, f := Name(cond.metric), CoreOf(cond, t);
    if gs == [] {
      assert Dedup([]) == [] && Total([], Wanted(cond)) == ZERO;
      assert Total(GroupRecords(service, entity, x, gs), f) == ZERO;
    } else {
      var init, last := gs[..|gs| - 1], gs[|gs| - 1];
      assert gs == init + [last];
      SortedSnoc(gs);
      ItemsSnoc(init, last, k);
      if last.key == k { ItemsAbsent(init, k); }
      GroupRecordsTotal(service, entity, x, init, cond, t);
      MetricTotal(service, entity, x, last, cond, t);
      assert GroupRecords(service, entity, x, gs) == GroupRecords(service, entity, x, init) + MetricRecords(service, entity, x, last);
      OneMetricMore(entity, x, Items(init, k), last, cond, t);
      hide *;
      TotalConcat(GroupRecords(service, entity, x, init), MetricRecords(service, entity, x, last), f);
      assert Total(GroupRecords(service, entity, x, gs), f) == SlotDirect(entity, x.ts, if last.key == k then last.items else Items(init, k), cond, t);
    }
  }

  lemma OneMetricMore(entity: bytes, x: Slot, before: seq<Event>, g: Group<Event>, cond: Cond, t: int)
    requires g.key.Time? ==> g.items == []
    requires g.key == Name(cond.metric) ==> before == []
    ensures Plus(SlotDirect(entity, x.ts, before, cond, t),
                 If(SlotMatches(entity, x, StringOf(g.key), cond, t), Total(Dedup(g.items), Wanted(cond))))
      == SlotDirect(entity, x.ts, if g.key == Name(cond.metric) then g.items else before, cond, t)
  {
    hide Plus;
    var f := Wanted(cond);
    assert Dedup([]) == [] && Total([], f) == ZERO;
    PlusZero(Total(Dedup(before), f));
    PlusZero(Total(Dedup(g.items), f));
    PlusZero(ZERO);
    assert g.key.Name? && g.key.s == cond.metric <==> g.key == Name(cond.metric);
    assert Plus(SlotDirect(entity, x.ts, before, cond, t),
                 If(SlotMatches(entity, x, StringOf(g.key), cond, t), Total(Dedup(g.items), f)))
      == SlotDirect(entity, x.ts, if g.key == Name(cond.metric) then g.items else before, cond, t);
  }
}
