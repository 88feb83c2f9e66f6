/** Which record keys a handler writes: every record comes from accepted events, and two
    records share a key only when the empty tag meets the tag "T" it is stored as. */
module RecordKeys {
  import opened Bytes
  import opened StoreKey
  import opened Groups
  import opened Aggregate
  import opened EventStats
  import opened SlotMachine
  import opened Index
  import opened Store
  import opened EventHandling
  import opened Lossless
  import opened EndToEnd

  // ------------------------------------------------------------- where records come from

  predicate CameFrom(e: Stamped, r: Record) { e.slot == r.ts && e.ev.metric == r.metric && e.ev.tag == r.tag }

  /** The events accepted for a slot, metric and tag, repeated messages removed. */
  function Tagged(accepted: seq<Stamped>, ts: int, metric: bytes, tag: bytes): seq<Event> {
    Select(Dedup(History(accepted, ts, Name(metric))), TagKeyOf, Name(tag))
  }

  function StatIn(r: Record): Stat { Stat(r.count, r.sum, r.avg, r.min, r.max, r.p10, r.p50, r.p90) }

  /** The record carries the statistics of exactly the events it stands for. */
  ghost predicate Carries(r: Record, accepted: seq<Stamped>) {
    var evs := Tagged(accepted, r.ts, r.metric, r.tag);
    Small(evs) && IsStat(evs, StatIn(r))
  }

  ghost predicate Source(r: Record, service: bytes, entity: bytes, accepted: seq<Stamped>) {
    && r.service == service && r.entity == entity && r.Typed() && Carries(r, accepted)
    && exists i :: 0 <= i < |accepted| && CameFrom(accepted[i], r)
  }

  /** So it has events, and its numbers are ordered. */
  lemma CarriesOrdered(r: Record, accepted: seq<Stamped>)
    requires Carries(r, accepted)
    ensures r.count >= 1 && Ordered(r.Line())
  {
    StatOrdered(Tagged(accepted, r.ts, r.metric, r.tag), StatIn(r), r.ts, StoredTag(r.tag));
  }

  ghost predicate AllSource(rs: seq<Record>, service: bytes, entity: bytes, accepted: seq<Stamped>) {
    forall i | 0 <= i < |rs| :: Source(rs[i], service, entity, accepted)
  }

  lemma MetricSource(service: bytes, entity: bytes, x: Slot, g: Group<Event>, accepted: seq<Stamped>)
    requires SmallHistory(accepted) && g.items == History(accepted, x.ts, g.key)
    ensures var rs := MetricRecords(service, entity, x, g);
      AllSource(rs, service, entity, accepted) && forall i | 0 <= i < |rs| :: rs[i].ts == x.ts && Name(rs[i].metric) == g.key
  {
    var rs := MetricRecords(service, entity, x, g);
    forall i | 0 <= i < |rs| ensures Source(rs[i], service, entity, accepted) && rs[i].ts == x.ts && Name(rs[i].metric) == g.key {
      OneSource(service, entity, x, g, accepted, i);
    }
  }

  lemma OneSource(service: bytes, entity: bytes, x: Slot, g: Group<Event>, accepted: seq<Stamped>, i: nat)
    requires SmallHistory(accepted) && g.items == History(accepted, x.ts, g.key) && i < |ByTags(g.items)|
    ensures var r := MetricRecords(service, entity, x, g)[i];
      Source(r, service, entity, accepted) && r.ts == x.ts && Name(r.metric) == g.key
  {
    var tags := ByTags(g.items);
    var tag := tags[i];
    var r := RecordOf(service, entity, x, StringOf(g.key), StringOf(tag.key), StatOf(tag.items));
    assert r == MetricRecords(service, entity, x, g)[i];
    HistoryMembers(accepted, x.ts, g.key);
    SmallItems(accepted, x.ts, g.key);
    TagSource(g.items, i);
    TagCarries(g.items, i);
    RecordTyped(service, entity, x, StringOf(g.key), StringOf(tag.key), tag.items);
    var j :| 0 <= j < |g.items| && TagKeyOf(g.items[j]) == tag.key;
    assert Stamped(x.ts, g.items[j]) in accepted && MetricKey(g.items[j]) == g.key;
    assert StatIn(r) == StatOf(tag.items) && tag.items == Tagged(accepted, r.ts, r.metric, r.tag);
    assert Carries(r, accepted);
    hide StatOf; hide ByTags; hide History; hide Carries; hide RecordOf; hide MetricRecords;
    var h :| 0 <= h < |accepted| && accepted[h] == Stamped(x.ts, g.items[j]);
    assert CameFrom(accepted[h], r);
    assert Source(r, service, entity, accepted);
  }

  lemma TagCarries(evs: seq<Event>, i: nat)
    requires Small(evs) && i < |ByTags(evs)|
    ensures var g := ByTags(evs)[i];
      g.key.Name? && g.items == Select(Dedup(evs), TagKeyOf, g.key) && Small(g.items) && IsStat(g.items, StatOf(g.items))
  {
    TagsOwn(evs);
    BuildPartitions(Dedup(evs), TagKeyOf);
    ItemsAt(ByTags(evs), i);
    assert OwnTag(ByTags(evs)[i]);
    assert TagKeyOf(ByTags(evs)[i].items[0]) == ByTags(evs)[i].key;
  }

  lemma TagSource(evs: seq<Event>, i: nat)
    requires Small(evs) && i < |ByTags(evs)|
    ensures exists j :: 0 <= j < |evs| && TagKeyOf(evs[j]) == ByTags(evs)[i].key
  {
    var tags, d := ByTags(evs), Dedup(evs);
    BuildPartitions(d, TagKeyOf);
    ItemsAt(tags, i);
    SelectMembers(d, TagKeyOf, tags[i].key);
    DedupMembers(evs);
    var e := tags[i].items[0];
    assert e == Select(d, TagKeyOf, tags[i].key)[0];
    assert e in d && e in evs;
    var j :| 0 <= j < |evs| && evs[j] == e;
    assert TagKeyOf(evs[j]) == tags[i].key;
  }

  ghost predicate GroupsFaithful(gs: seq<Group<Event>>, ts: int, accepted: seq<Stamped>) {
    && Sorted(gs)
    && forall i | 0 <= i < |gs| :: gs[i].items == History(accepted, ts, gs[i].key)
  }

  lemma FaithfulGroups(x: Slot, accepted: seq<Stamped>)
    requires Faithful(x, accepted)
    ensures GroupsFaithful(x.data, x.ts, accepted)
  {
    forall i | 0 <= i < |x.data| ensures x.data[i].items == History(accepted, x.ts, x.data[i].key) { ItemsAt(x.data, i); }
  }

  ghost predicate InGroups(rs: seq<Record>, ts: int, gs: seq<Group<Event>>) {
    forall i | 0 <= i < |rs| :: rs[i].ts == ts && HasKey(gs, Name(rs[i].metric))
  }

  lemma InGroupsMore(a: seq<Record>, b: seq<Record>, ts: int, gs: seq<Group<Event>>, g: Group<Event>)
    requires InGroups(a, ts, gs) && forall i | 0 <= i < |b| :: b[i].ts == ts && Name(b[i].metric) == g.key
    ensures InGroups(a + b, ts, gs + [g])
  {
    var more := gs + [g];
    assert more[|gs|] == g;
    forall i | 0 <= i < |a| ensures HasKey(more, Name(a[i].metric)) {
      var j :| 0 <= j < |gs| && gs[j].key == Name(a[i].metric);
      assert more[j].key == Name(a[i].metric);
    }
  }

  lemma {:induction false} GroupSource(service: bytes, entity: bytes, x: Slot, gs: seq<Group<Event>>, accepted: seq<Stamped>)
    requires SmallHistory(accepted) && GroupsFaithful(gs, x.ts, accepted)
    ensures AllSource(GroupRecords(service, entity, x, gs), service, entity, accepted)
    ensures InGroups(GroupRecords(service, entity, x, gs), x.ts, gs)
  {
    if gs != [] {
      var init, g := gs[..|gs| - 1], gs[|gs| - 1];
      assert gs == init + [g];
      var a, b := GroupRecords(service, entity, x, init), MetricRecords(service, entity, x, g);
      assert GroupRecords(service, entity, x, gs) == a + b && GroupsFaithful(init, x.ts, accepted) && g.items == History(accepted, x.ts, g.key);
      hide GroupRecords; hide MetricRecords; hide AllSource; hide InGroups; hide GroupsFaithful; hide History; hide SmallHistory;
      GroupSource(service, entity, x, init, accepted);
      MetricSource(service, entity, x, g, accepted);
      SourceConcat(a, b, service, entity, accepted);
      InGroupsMore(a, b, x.ts, init, g);
    }
  }

  lemma SourceConcat(a: seq<Record>, b: seq<Record>, service: bytes, entity: bytes, accepted: seq<Stamped>)
    requires AllSource(a, service, entity, accepted) && AllSource(b, service, entity, accepted)
    ensures AllSource(a + b, service, entity, accepted)
  {
    hide Source;
  }

  lemma {:induction false} SlotsSource(service: bytes, entity: bytes, slots: seq<Slot>, accepted: seq<Stamped>)
    requires SmallHistory(accepted) && AllFaithful(slots, accepted)
    ensures var rs := AllRecords(service, entity, slots);
      AllSource(rs, service, entity, accepted) && forall i | 0 <= i < |rs| :: rs[i].ts in Times(slots)
  {
    if slots != [] {
      var init, x := slots[..|slots| - 1], slots[|slots| - 1];
      SlotsSource(service, entity, init, accepted);
      FaithfulGroups(x, accepted);
      GroupSource(service, entity, x, x.data, accepted);
      var a, b := AllRecords(service, entity, init), SlotRecords(service, entity, x);
      assert AllRecords(service, entity, slots) == a + b;
      assert forall ts | ts in Times(init) :: ts in Times(slots) by {
        forall ts | ts in Times(init) ensures ts in Times(slots) {
          var i :| 0 <= i < |init| && init[i].ts == ts;
          assert slots[i].ts == ts;
        }
      }
      assert slots[|slots| - 1].ts in Times(slots);
    }
  }

  /** Every record is stamped with the time and, in eight bits, the step of a processed slot. */
  lemma {:induction false} RecordSteps(service: bytes, entity: bytes, slots: seq<Slot>)
    ensures forall r | r in AllRecords(service, entity, slots) :: exists i :: 0 <= i < |slots| && r.ts == slots[i].ts && r.step == slots[i].step % 256
  {
    if slots != [] {
      var init, x := slots[..|slots| - 1], slots[|slots| - 1];
      RecordSteps(service, entity, init);
      GroupSteps(service, entity, x, x.data);
      assert AllRecords(service, entity, slots) == AllRecords(service, entity, init) + SlotRecords(service, entity, x);
      hide AllRecords; hide GroupRecords;
      forall r | r in AllRecords(service, entity, slots) ensures exists i :: 0 <= i < |slots| && r.ts == slots[i].ts && r.step == slots[i].step % 256 {
        if r in AllRecords(service, entity, init) {
          var i :| 0 <= i < |init| && r.ts == init[i].ts && r.step == init[i].step % 256;
          assert slots[i] == init[i];
        } else {
          assert slots[|slots| - 1] == x;
        }
      }
    }
  }

  lemma {:induction false} GroupSteps(service: bytes, entity: bytes, x: Slot, gs: seq<Group<Event>>)
    ensures forall r | r in GroupRecords(service, entity, x, gs) :: r.ts == x.ts && r.step == x.step % 256
  {
    if gs != [] {
      GroupSteps(service, entity, x, gs[..|gs| - 1]);
      hide StatOf; hide ByTags;
    }
  }

  // ------------------------------------------------------------- shared keys

  ghost predicate HasTag(evs: seq<Event>, tag: bytes) { exists i :: 0 <= i < |evs| && evs[i].tag == tag }

  /** Events that would be stored under one key although their tags differ. */
  ghost predicate Clash(evs: seq<Event>) { HasTag(Dedup(evs), []) && HasTag(Dedup(evs), T_TAG) }

  lemma {:induction false} SelectHas(vs: seq<Event>, key: Event -> Key, i: nat)
    requires i < |vs|
    ensures vs[i] in Select(vs, key, key(vs[i]))
  {
    if i < |vs| - 1 { SelectHas(vs[..|vs| - 1], key, i); }
  }

  lemma TagsHaveKey(evs: seq<Event>, tag: bytes)
    ensures HasKey(ByTags(evs), Name(tag)) <==> HasTag(Dedup(evs), tag)
  {
    var d := Dedup(evs);
    var tags := Build(d, TagKeyOf);
    BuildPartitions(d, TagKeyOf);
    assert Items(tags, Name(tag)) == Select(d, TagKeyOf, Name(tag));
    if HasKey(tags, Name(tag)) {
      var i :| 0 <= i < |tags| && tags[i].key == Name(tag);
      ItemsAt(tags, i);
      SelectMembers(d, TagKeyOf, Name(tag));
      var e := Select(d, TagKeyOf, Name(tag))[0];
      var j :| 0 <= j < |d| && d[j] == e;
      assert d[j].tag == tag;
    } else {
      ItemsAbsent(tags, Name(tag));
      forall i | 0 <= i < |d| ensures d[i].tag != tag { SelectHas(d, TagKeyOf, i); }
    }
  }

  lemma SameStored(a: bytes, b: bytes)
    ensures StoredTag(a) == StoredTag(b) <==> a == b || (a == [] && b == T_TAG) || (a == T_TAG && b == [])
  {
  }

  lemma TagRecordKey(service: bytes, entity: bytes, x: Slot, metric: bytes, tags: seq<Group<Event>>, i: nat)
    requires NonEmptyGroups(tags) && i < |tags|
    ensures TagRecords(service, entity, x, metric, tags)[i].KeyFields() == Fields.Fields(metric, x.ts, StoredTag(StringOf(tags[i].key)), entity)
  {
    hide StatOf;
  }

  lemma TagRecordsClash(service: bytes, entity: bytes, x: Slot, metric: bytes, tags: seq<Group<Event>>)
    requires Sorted(tags) && NonEmptyGroups(tags) && forall i | 0 <= i < |tags| :: tags[i].key.Name?
    ensures DistinctKeys(TagRecords(service, entity, x, metric, tags)) <==> !(HasKey(tags, Name([])) && HasKey(tags, Name(T_TAG)))
  {
    var rs := TagRecords(service, entity, x, metric, tags);
    hide TagRecords; hide KeyLe; hide StoredTag;
    if HasKey(tags, Name([])) && HasKey(tags, Name(T_TAG)) {
      var i :| 0 <= i < |tags| && tags[i].key == Name([]);
      var j :| 0 <= j < |tags| && tags[j].key == Name(T_TAG);
      TagRecordKey(service, entity, x, metric, tags, i);
      TagRecordKey(service, entity, x, metric, tags, j);
      SameStored([], T_TAG);
      assert rs[i].KeyFields() == rs[j].KeyFields();
    } else {
      forall i, j | 0 <= i < j < |rs| ensures rs[i].KeyFields() != rs[j].KeyFields() {
        TagRecordKey(service, entity, x, metric, tags, i);
        TagRecordKey(service, entity, x, metric, tags, j);
        StoredTagsDiffer(tags, i, j);
      }
    }
  }

  lemma StoredTagsDiffer(tags: seq<Group<Event>>, i: nat, j: nat)
    requires Sorted(tags) && i < j < |tags| && tags[i].key.Name? && tags[j].key.Name?
    requires !(HasKey(tags, Name([])) && HasKey(tags, Name(T_TAG)))
    ensures StoredTag(tags[i].key.s) != StoredTag(tags[j].key.s)
  {
    hide KeyLe;
    KeyTotal(tags[i].key, tags[j].key);
    SameStored(tags[i].key.s, tags[j].key.s);
    assert HasKey(tags, tags[i].key) && HasKey(tags, tags[j].key);
  }

  /** The records of one metric in one slot have different keys exactly when the tags do not
      clash. */
  lemma MetricRecordsClash(service: bytes, entity: bytes, x: Slot, g: Group<Event>)
    requires Small(g.items)
    ensures DistinctKeys(MetricRecords(service, entity, x, g)) <==> !Clash(g.items)
  {
    var tags := ByTags(g.items);
    BuildPartitions(Dedup(g.items), TagKeyOf);
    TagsOwn(g.items);
    forall i | 0 <= i < |tags| ensures tags[i].key.Name? { assert OwnTag(tags[i]); assert TagKeyOf(tags[i].items[0]) == tags[i].key; }
    TagRecordsClash(service, entity, x, StringOf(g.key), tags);
    TagsHaveKey(g.items, []);
    TagsHaveKey(g.items, T_TAG);
  }

  lemma DistinctConcat(a: seq<Record>, b: seq<Record>)
    requires forall i, j | 0 <= i < |a| && 0 <= j < |b| :: a[i].KeyFields() != b[j].KeyFields()
    ensures DistinctKeys(a + b) <==> DistinctKeys(a) && DistinctKeys(b)
  {
    var c := a + b;
    if DistinctKeys(c) {
      forall i, j | 0 <= i < j < |a| ensures a[i].KeyFields() != a[j].KeyFields() { assert c[i] == a[i] && c[j] == a[j]; }
      forall i, j | 0 <= i < j < |b| ensures b[i].KeyFields() != b[j].KeyFields() { assert c[|a| + i] == b[i] && c[|a| + j] == b[j]; }
    }
  }

  ghost predicate NoneClash(gs: seq<Group<Event>>) { forall i | 0 <= i < |gs| :: !Clash(gs[i].items) }

  lemma NoneClashSnoc(init: seq<Group<Event>>, g: Group<Event>)
    ensures NoneClash(init + [g]) <==> NoneClash(init) && !Clash(g.items)
  {
    hide Clash;
    var gs := init + [g];
    assert gs[|init|] == g && forall i | 0 <= i < |init| :: gs[i] == init[i];
  }

  lemma OtherMetric(a: seq<Record>, b: seq<Record>, ts: int, gs: seq<Group<Event>>, g: Group<Event>)
    requires InGroups(a, ts, gs) && !HasKey(gs, g.key) && forall i | 0 <= i < |b| :: b[i].ts == ts && Name(b[i].metric) == g.key
    ensures forall i, j | 0 <= i < |a| && 0 <= j < |b| :: a[i].KeyFields() != b[j].KeyFields()
  {
    hide HasKey;
    forall i, j | 0 <= i < |a| && 0 <= j < |b| ensures a[i].KeyFields() != b[j].KeyFields() {
      assert HasKey(gs, Name(a[i].metric)) && Name(b[j].metric) == g.key;
    }
  }

  lemma LastGroup(gs: seq<Group<Event>>, ts: int, accepted: seq<Stamped>)
    requires gs != [] && GroupsFaithful(gs, ts, accepted)
    ensures var init, g := gs[..|gs| - 1], gs[|gs| - 1];
      GroupsFaithful(init, ts, accepted) && g.items == History(accepted, ts, g.key) && !HasKey(init, g.key)
  {
    hide KeyLe; hide History;
    SortedSnoc(gs);
  }

  lemma {:induction false} GroupRecordsClash(service: bytes, entity: bytes, x: Slot, gs: seq<Group<Event>>, accepted: seq<Stamped>)
    requires SmallHistory(accepted) && GroupsFaithful(gs, x.ts, accepted)
    ensures DistinctKeys(GroupRecords(service, entity, x, gs)) <==> NoneClash(gs)
  {
    if gs != [] {
      var init, g := gs[..|gs| - 1], gs[|gs| - 1];
      var a, b := GroupRecords(service, entity, x, init), MetricRecords(service, entity, x, g);
      assert gs == init + [g] && GroupRecords(service, entity, x, gs) == a + b;
      hide *;
      LastGroup(gs, x.ts, accepted);
      GroupRecordsClash(service, entity, x, init, accepted);
      GroupSource(service, entity, x, init, accepted);
      MetricSource(service, entity, x, g, accepted);
      SmallItems(accepted, x.ts, g.key);
      MetricRecordsClash(service, entity, x, g);
      OtherMetric(a, b, x.ts, init, g);
      DistinctConcat(a, b);
      NoneClashSnoc(init, g);
    }
  }

  lemma SmallItems(accepted: seq<Stamped>, ts: int, k: Key)
    requires SmallHistory(accepted)
    ensures Small(History(accepted, ts, k))
  {
    var items := History(accepted, ts, k);
    HistoryMembers(accepted, ts, k);
    forall j | 0 <= j < |items| ensures IsInt32(items[j].value) { assert Stamped(ts, items[j]) in accepted; }
  }

  ghost predicate SlotClash(accepted: seq<Stamped>, ts: int, metric: bytes) { Clash(History(accepted, ts, Name(metric))) }

  lemma NothingClashes()
    ensures !Clash([])
  {
    assert Dedup([]) == [];
  }

  lemma SlotRecordsClash(service: bytes, entity: bytes, x: Slot, accepted: seq<Stamped>)
    requires SmallHistory(accepted) && Faithful(x, accepted)
    ensures DistinctKeys(SlotRecords(service, entity, x)) <==> forall m: bytes :: !SlotClash(accepted, x.ts, m)
  {
    FaithfulGroups(x, accepted);
    GroupRecordsClash(service, entity, x, x.data, accepted);
    NothingClashes();
    hide Clash; hide GroupRecords; hide History; hide Items;
    forall m: bytes | SlotClash(accepted, x.ts, m) ensures exists i :: 0 <= i < |x.data| && Clash(x.data[i].items) {
      ClashingGroup(x, accepted, m);
    }
    forall i | 0 <= i < |x.data| && Clash(x.data[i].items) ensures exists m: bytes :: SlotClash(accepted, x.ts, m) {
      var k := x.data[i].key;
      HistoryMembers(accepted, x.ts, k);
      var h := History(accepted, x.ts, k);
      assert h == x.data[i].items && h != [];
      assert MetricKey(h[0]) == k;
      assert SlotClash(accepted, x.ts, k.s);
    }
  }

  lemma ClashingGroup(x: Slot, accepted: seq<Stamped>, m: bytes)
    requires Faithful(x, accepted) && SlotClash(accepted, x.ts, m)
    ensures exists i :: 0 <= i < |x.data| && Clash(x.data[i].items)
  {
    NothingClashes();
    hide Clash; hide History; hide Items;
    assert Items(x.data, Name(m)) == History(accepted, x.ts, Name(m)) != [];
    if !HasKey(x.data, Name(m)) { ItemsAbsent(x.data, Name(m)); }
    var i :| 0 <= i < |x.data| && x.data[i].key == Name(m);
    ItemsAt(x.data, i);
  }

  /** No processed slot has, for one metric, first deliveries tagged "" as well as "T". */
  ghost predicate NoClash(accepted: seq<Stamped>, done: set<int>) {
    forall ts, m: bytes | ts in done :: !SlotClash(accepted, ts, m)
  }

  /** The records of all processed slots have different keys, so that no record is written
      over another one, exactly when no tags clash. */
  lemma {:induction false} AllRecordsClash(service: bytes, entity: bytes, slots: seq<Slot>, accepted: seq<Stamped>)
    requires SmallHistory(accepted) && AllFaithful(slots, accepted) && DistinctTimes(slots)
    ensures DistinctKeys(AllRecords(service, entity, slots)) <==> NoClash(accepted, Times(slots))
  {
    if slots == [] {
      assert Times(slots) == {} && AllRecords(service, entity, slots) == [];
    } else {
      var init, x := slots[..|slots| - 1], slots[|slots| - 1];
      AllRecordsClash(service, entity, init, accepted);
      SlotRecordsClash(service, entity, x, accepted);
      SlotsSource(service, entity, init, accepted);
      FaithfulGroups(x, accepted);
      GroupSource(service, entity, x, x.data, accepted);
      TimesSnoc(slots);
      var a, b := AllRecords(service, entity, init), SlotRecords(service, entity, x);
      assert AllRecords(service, entity, slots) == a + b;
      hide AllRecords; hide GroupRecords; hide SlotClash; hide Times; hide AllSource;
      forall i, j | 0 <= i < |a| && 0 <= j < |b| ensures a[i].KeyFields() != b[j].KeyFields() {
        assert a[i].ts in Times(init) && b[j].ts == x.ts;
      }
      DistinctConcat(a, b);
    }
  }
}
