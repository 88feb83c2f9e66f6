/** Grouped and ungrouped queries agree: the same summary, and groups that add up to it. */
module Grouping {
  import opened Bytes
  import opened StoreKey
  import opened Groups
  import opened Aggregate
  import opened Index
  import opened Store
  import opened GroupLines
  import opened Lossless
  import opened Answers

  lemma {:induction false} ScanIgnoresGrouping(db: seq<Entry>, cond: Cond, g: GroupBy, lower: bytes)
    ensures Scan(db, cond.(groupby := g), lower) == Scan(db, cond, lower)
  {
    if db != [] { ScanIgnoresGrouping(db[1..], cond, g, lower); }
  }

  /** All three ways of grouping report the same summary for the same condition. */
  lemma SameSummary(db: seq<Entry>, cond: Cond, g: GroupBy, t: int)
    ensures Answer(db, cond.(groupby := g), t) == Answer(db, cond, t)
  {
    ScanIgnoresGrouping(db[Seek(db, UpperKey(cond.metric, t))..], cond, g, LowerKey(cond.metric, t, cond.interval));
  }

  // ------------------------------------------------------------- groups add up

  function LineCore(i: Info): Acc { Core(OfInfo(i)) }

  /** Every line counts something and the whole count fits. */
  ghost predicate Countable(vs: seq<Info>) {
    (forall i | 0 <= i < |vs| :: vs[i].count >= 1) && Total(vs, OfInfo).count <= INT32_MAX
  }

  lemma {:induction false} CountsAdd(vs: seq<Info>)
    requires forall i | 0 <= i < |vs| :: vs[i].count >= 1
    ensures Total(vs, OfInfo).count >= |vs|
  {
    if vs != [] { CountsAdd(vs[..|vs| - 1]); }
  }

  /** What the line of a group carries of its totals. */
  lemma LineCarries(g: Group<Info>)
    requires g.items != []
    ensures var a, l := Total(g.items, OfInfo), LineOf(g);
      && l.count == Wrap32(a.count) && l.sum == Wrap64(a.sum)
      && (1 <= a.count <= INT32_MAX ==> l.min == a.min && l.max == a.max)
  {
    TotalLines(g.items);
  }

  lemma {:induction false} GroupsTotalSnoc(gs: seq<Group<Info>>, g: Group<Info>)
    ensures GroupsTotal(gs + [g], OfInfo) == Plus(GroupsTotal(gs, OfInfo), Total(g.items, OfInfo))
  {
    var t := Total(g.items, OfInfo);
    if gs == [] {
      assert gs + [g] == [g] && [g][1..] == [];
      assert GroupsTotal([g], OfInfo) == Plus(t, GroupsTotal([], OfInfo)) && GroupsTotal([], OfInfo) == ZERO;
      hide *;
      PlusZero(t) by { TotalRange(g.items); }
    } else {
      assert (gs + [g])[1..] == gs[1..] + [g] && (gs + [g])[0] == gs[0];
      var a, b := Total(gs[0].items, OfInfo), GroupsTotal(gs[1..], OfInfo);
      assert GroupsTotal(gs + [g], OfInfo) == Plus(a, GroupsTotal(gs[1..] + [g], OfInfo)) && GroupsTotal(gs, OfInfo) == Plus(a, b);
      hide *;
      GroupsTotalSnoc(gs[1..], g);
      PlusAssoc(a, b, t);
    }
  }

  lemma TotalRange(vs: seq<Info>)
    ensures Total(vs, OfInfo).min <= INT32_MAX && Total(vs, OfInfo).max >= INT32_MIN
  {
  }

  ghost predicate NonEmpty(gs: seq<Group<Info>>) { forall i | 0 <= i < |gs| :: gs[i].items != [] }

  lemma WrapBoth(a: int, b: int, c: int)
    requires Wrap32(a) == Wrap32(b)
    ensures Wrap32(a + Wrap32(c)) == Wrap32(b + c)
  {
    hide Wrap32;
    WrapAdd(c, a);
    WrapAdd(a, c);
    WrapAdd(b, c);
  }

  lemma WrapBoth64(a: int, b: int, c: int)
    requires Wrap64(a) == Wrap64(b)
    ensures Wrap64(a + Wrap64(c)) == Wrap64(b + c)
  {
    hide Wrap64;
    WrapAdd(c, a);
    WrapAdd(a, c);
    WrapAdd(b, c);
  }

  predicate SameWrapped(d: Acc, t: Acc) { Wrap32(d.count) == Wrap32(t.count) && Wrap64(d.sum) == Wrap64(t.sum) }

  lemma WrappedPlus(d: Acc, t: Acc, l: Info, a: Acc)
    requires SameWrapped(d, t) && l.count == Wrap32(a.count) && l.sum == Wrap64(a.sum)
    ensures SameWrapped(Plus(d, LineCore(l)), Plus(t, a))
  {
    hide Wrap32; hide Wrap64;
    WrapBoth(d.count, t.count, a.count);
    WrapBoth64(d.sum, t.sum, a.sum);
  }

  lemma NoLines()
    ensures Total(Lines([]), LineCore) == GroupsTotal([], OfInfo) == ZERO
  {
  }

  lemma LinesSnoc(gs: seq<Group<Info>>)
    requires gs != []
    ensures Lines(gs) == Lines(gs[..|gs| - 1]) + [LineOf(gs[|gs| - 1])]
  {
  }

  /** The reported counts and sums of the groups add up to their totals, as far as 32 and 64
      bits go. */
  lemma {:induction false} LinesAddUp(gs: seq<Group<Info>>)
    requires NonEmpty(gs)
    ensures SameWrapped(Total(Lines(gs), LineCore), GroupsTotal(gs, OfInfo))
  {
    if gs == [] {
      NoLines();
      hide *;
      assert SameWrapped(Total(Lines(gs), LineCore), GroupsTotal(gs, OfInfo));
    } else {
      var init, g := gs[..|gs| - 1], gs[|gs| - 1];
      assert gs == init + [g] && g.items != [] && NonEmpty(init);
      hide *;
      LinesSnoc(gs);
      LinesAddUp(init);
      LineCarries(g);
      GroupsTotalSnoc(init, g);
      TotalSnoc(Lines(init), LineOf(g), LineCore);
      WrappedPlus(Total(Lines(init), LineCore), GroupsTotal(init, OfInfo), LineOf(g), Total(g.items, OfInfo));
      assert SameWrapped(Total(Lines(gs), LineCore), GroupsTotal(gs, OfInfo));
    }
  }

  lemma PlusCount(a: Acc, b: Acc)
    ensures Plus(a, b).count == a.count + b.count
  {
  }

  ghost predicate CountedGroups(gs: seq<Group<Info>>) {
    forall i | 0 <= i < |gs| :: gs[i].items != [] && forall j | 0 <= j < |gs[i].items| :: gs[i].items[j].count >= 1
  }

  predicate SameEnds(d: Acc, t: Acc) { d.min == t.min && d.max == t.max }

  lemma EndsPlus(d: Acc, t: Acc, l: Info, a: Acc)
    requires SameEnds(d, t) && l.min == a.min && l.max == a.max
    ensures SameEnds(Plus(d, LineCore(l)), Plus(t, a))
  {
  }

  lemma {:induction false} GroupCounts(gs: seq<Group<Info>>)
    requires CountedGroups(gs)
    ensures GroupsTotal(gs, OfInfo).count >= |gs|
  {
    if gs != [] {
      CountsAdd(gs[0].items);
      GroupCounts(gs[1..]);
    }
  }

  lemma LastCounted(gs: seq<Group<Info>>)
    requires gs != [] && CountedGroups(gs)
    ensures CountedGroups(gs[..|gs| - 1]) && gs[|gs| - 1].items != [] && Total(gs[|gs| - 1].items, OfInfo).count >= 1
  {
    CountsAdd(gs[|gs| - 1].items);
  }

  /** Their minima and maxima fold to those of all lines. */
  lemma {:induction false} LinesFold(gs: seq<Group<Info>>)
    requires CountedGroups(gs) && GroupsTotal(gs, OfInfo).count <= INT32_MAX
    ensures SameEnds(Total(Lines(gs), LineCore), GroupsTotal(gs, OfInfo))
  {
    if gs == [] {
      NoLines();
      hide *;
      assert SameEnds(Total(Lines(gs), LineCore), GroupsTotal(gs, OfInfo));
    } else {
      var init, g := gs[..|gs| - 1], gs[|gs| - 1];
      hide *;
      LastCounted(gs);
      assert gs == init + [g];
      LinesSnoc(gs);
      GroupsTotalSnoc(init, g);
      PlusCount(GroupsTotal(init, OfInfo), Total(g.items, OfInfo));
      GroupCounts(init);
      LinesFold(init);
      LineCarries(g);
      TotalSnoc(Lines(init), LineOf(g), LineCore);
      EndsPlus(Total(Lines(init), LineCore), GroupsTotal(init, OfInfo), LineOf(g), Total(g.items, OfInfo));
      assert SameEnds(Total(Lines(gs), LineCore), GroupsTotal(gs, OfInfo));
    }
  }

  /** The groups partition what was visited, whatever the grouping key: their counts and sums
      add up to the summary in the arithmetic of its accumulators, and when every line counts
      something and the count fits, their minima and maxima fold to it. */
  lemma GroupsMakeSummary(vs: seq<Info>, key: Info -> Key)
    ensures var d, s := Total(Lines(Build(vs, key)), LineCore), Summary(Total(vs, OfInfo));
      && s.count == Wrap32(d.count) && s.sum == Wrap64(d.sum)
      && (vs != [] && Countable(vs) ==> s.min == d.min && s.max == d.max)
  {
    var gs, a := Build(vs, key), Total(vs, OfInfo);
    TotalLines(vs);
    SummaryFields(a);
    if Countable(vs) { CountsAdd(vs); }
    hide Total; hide Lines; hide Build; hide Summary;
    GroupsOf(vs, key);
    GroupsAddUp(vs, key, OfInfo);
    LinesAddUp(gs);
    if Countable(vs) { LinesFold(gs); }
  }

  lemma SummaryFields(a: Acc)
    ensures Summary(a).count == Wrap32(a.count) && Summary(a).sum == Wrap64(a.sum)
    ensures 1 <= a.count <= INT32_MAX && a.n != 0 ==> Summary(a).min == a.min && Summary(a).max == a.max
  {
  }

  lemma GroupsOf(vs: seq<Info>, key: Info -> Key)
    ensures NonEmpty(Build(vs, key))
    ensures (forall i | 0 <= i < |vs| :: vs[i].count >= 1) ==> CountedGroups(Build(vs, key))
  {
    var gs := Build(vs, key);
    BuildPartitions(vs, key);
    forall i | 0 <= i < |gs| ensures gs[i].items != [] && forall j | 0 <= j < |gs[i].items| :: gs[i].items[j] in vs {
      ItemsAt(gs, i);
      SelectMembers(vs, key, gs[i].key);
      assert gs[i].items == Select(vs, key, gs[i].key);
    }
  }
}
