/** The lines of a grouped query: one for every time, or one for every tag, of the lines
    visited. */
module GroupLines {
  import opened Bytes
  import Lex
  import opened Groups
  import opened Aggregate
  import opened Means
  import opened Index

  function TimeKey(i: Info): Key { Time(i.ts) }
  function TagKey(i: Info): Key { Name(i.tag) }
  function KeyBy(g: GroupBy): Info -> Key { if g.ByTimestamp? then TimeKey else TagKey }

  /** The accumulators while lines are merged. */
  function Running(ts: int, tag: bytes, a: Acc): Info {
    Info(ts, tag, Wrap32(a.count), Wrap64(a.sum), 0, a.min, a.max, Wrap32(a.p10), Wrap32(a.p50), Wrap32(a.p90))
  }

  /** The lines reported for all groups, in key order. */
  function Lines(gs: seq<Group<Info>>): (r: seq<Info>)
    ensures |r| == |gs|
  {
    if gs == [] then []
    else Lines(gs[..|gs| - 1]) + [LineOf(gs[|gs| - 1])]
  }

  function LineOf(g: Group<Info>): Info {
    if Total(g.items, OfInfo).n == 0 then Running(0, [], ZERO) else GroupLine(g.key, Total(g.items, OfInfo))
  }

  // ------------------------------------------------------------- told from the fields

  function AtTime(vs: seq<Info>, t: int): seq<Info> {
    if vs == [] then []
    else AtTime(vs[..|vs| - 1], t) + if vs[|vs| - 1].ts == t then [vs[|vs| - 1]] else []
  }

  function WithTag(vs: seq<Info>, tag: bytes): seq<Info> {
    if vs == [] then []
    else WithTag(vs[..|vs| - 1], tag) + if vs[|vs| - 1].tag == tag then [vs[|vs| - 1]] else []
  }

  ghost predicate HasTime(vs: seq<Info>, t: int) { exists i :: 0 <= i < |vs| && vs[i].ts == t }
  ghost predicate HasTag(vs: seq<Info>, tag: bytes) { exists i :: 0 <= i < |vs| && vs[i].tag == tag }

  /** Exactly one line for every time, in ascending order, without a tag, each telling of the
      lines of its time. */
  ghost predicate ByTimes(info: seq<Info>, vs: seq<Info>) {
    && (forall i, j | 0 <= i < j < |info| :: info[i].ts < info[j].ts)
    && (forall t :: HasTime(info, t) <==> HasTime(vs, t))
    && (forall i | 0 <= i < |info| :: info[i].tag == [] && TellsGroup(info[i], AtTime(vs, info[i].ts)))
  }

  /** The same for tags. */
  ghost predicate ByTags(info: seq<Info>, vs: seq<Info>) {
    && (forall i, j | 0 <= i < j < |info| :: Lex.Lt(info[i].tag, info[j].tag))
    && (forall tag :: HasTag(info, tag) <==> HasTag(vs, tag))
    && (forall i | 0 <= i < |info| :: info[i].ts == 0 && TellsGroup(info[i], WithTag(vs, info[i].tag)))
  }

  lemma {:induction false} SelectTime(vs: seq<Info>, t: int)
    ensures Select(vs, TimeKey, Time(t)) == AtTime(vs, t)
    ensures AtTime(vs, t) != [] <==> HasTime(vs, t)
  {
    if vs != [] {
      var init, v := vs[..|vs| - 1], vs[|vs| - 1];
      SelectTime(init, t);
      if HasTime(init, t) { var i :| 0 <= i < |init| && init[i].ts == t; assert vs[i].ts == t; }
      if HasTime(vs, t) && v.ts != t { var i :| 0 <= i < |vs| && vs[i].ts == t; assert init[i].ts == t; }
    }
  }

  lemma {:induction false} SelectTag(vs: seq<Info>, tag: bytes)
    ensures Select(vs, TagKey, Name(tag)) == WithTag(vs, tag)
    ensures WithTag(vs, tag) != [] <==> HasTag(vs, tag)
  {
    if vs != [] {
      var init, v := vs[..|vs| - 1], vs[|vs| - 1];
      SelectTag(init, tag);
      if HasTag(init, tag) { var i :| 0 <= i < |init| && init[i].tag == tag; assert vs[i].tag == tag; }
      if HasTag(vs, tag) && v.tag != tag { var i :| 0 <= i < |vs| && vs[i].tag == tag; assert init[i].tag == tag; }
    }
  }

  lemma {:induction false} SelectOther(vs: seq<Info>, key: Info -> Key, k: Key)
    requires forall i | 0 <= i < |vs| :: key(vs[i]) != k
    ensures Select(vs, key, k) == []
  {
    if vs != [] { SelectOther(vs[..|vs| - 1], key, k); }
  }

  lemma {:induction false} LinesAt(gs: seq<Group<Info>>, i: nat)
    requires i < |gs|
    ensures Lines(gs)[i] == LineOf(gs[i])
  {
    if i < |gs| - 1 { LinesAt(gs[..|gs| - 1], i); }
  }

  /** The line of the `i`-th group carries its key and tells of the lines of that key. */
  lemma LineTells(vs: seq<Info>, key: Info -> Key, i: nat)
    requires i < |Build(vs, key)|
    ensures var k, l := Build(vs, key)[i].key, Lines(Build(vs, key))[i];
      && Select(vs, key, k) != [] && TellsGroup(l, Select(vs, key, k))
      && l.ts == (if k.Time? then k.t else 0) && l.tag == if k.Name? then k.s else []
  {
    var gs := Build(vs, key);
    BuildPartitions(vs, key);
    ItemsAt(gs, i);
    assert gs[i].items == Select(vs, key, gs[i].key);
    LinesAt(gs, i);
    hide Build; hide Lines; hide Select; hide TellsGroup; hide GroupLine; hide Total;
    GroupTells(gs[i].key, gs[i].items);
  }

  lemma KeyIsTime(vs: seq<Info>, i: nat)
    requires i < |Build(vs, TimeKey)|
    ensures Build(vs, TimeKey)[i].key.Time?
  {
    LineTells(vs, TimeKey, i);
    var k := Build(vs, TimeKey)[i].key;
    if k.Name? { SelectOther(vs, TimeKey, k); }
  }

  lemma KeyIsName(vs: seq<Info>, i: nat)
    requires i < |Build(vs, TagKey)|
    ensures Build(vs, TagKey)[i].key.Name?
  {
    LineTells(vs, TagKey, i);
    var k := Build(vs, TagKey)[i].key;
    if k.Time? { SelectOther(vs, TagKey, k); }
  }

  /** Every key with lines has a group. */
  lemma KeyHasGroup(vs: seq<Info>, key: Info -> Key, k: Key) returns (i: nat)
    requires Select(vs, key, k) != []
    ensures i < |Build(vs, key)| && Build(vs, key)[i].key == k
  {
    var gs := Build(vs, key);
    BuildPartitions(vs, key);
    assert Items(gs, k) != [];
    if !HasKey(gs, k) { ItemsAbsent(gs, k); }
    i :| 0 <= i < |gs| && gs[i].key == k;
  }

  lemma TimeLines(vs: seq<Info>)
    ensures ByTimes(Lines(Build(vs, TimeKey)), vs)
  {
    var gs := Build(vs, TimeKey);
    var info := Lines(gs);
    BuildPartitions(vs, TimeKey);
    hide Build; hide Lines; hide Select; hide TellsGroup; hide AtTime;
    forall i | 0 <= i < |info| ensures gs[i].key == Time(info[i].ts) && info[i].tag == [] && TellsGroup(info[i], AtTime(vs, info[i].ts)) && HasTime(vs, info[i].ts) {
      LineTells(vs, TimeKey, i);
      KeyIsTime(vs, i);
      SelectTime(vs, gs[i].key.t);
    }
    forall t | HasTime(vs, t) ensures HasTime(info, t) {
      SelectTime(vs, t);
      var i := KeyHasGroup(vs, TimeKey, Time(t));
      assert info[i].ts == t;
    }
  }

  lemma TagLines(vs: seq<Info>)
    ensures ByTags(Lines(Build(vs, TagKey)), vs)
  {
    var gs := Build(vs, TagKey);
    var info := Lines(gs);
    BuildPartitions(vs, TagKey);
    hide Build; hide Lines; hide Select; hide TellsGroup; hide WithTag; hide Lex.Le;
    forall i | 0 <= i < |info| ensures gs[i].key == Name(info[i].tag) && info[i].ts == 0 && TellsGroup(info[i], WithTag(vs, info[i].tag)) && HasTag(vs, info[i].tag) {
      LineTells(vs, TagKey, i);
      KeyIsName(vs, i);
      SelectTag(vs, gs[i].key.s);
    }
    forall tag | HasTag(vs, tag) ensures HasTag(info, tag) {
      SelectTag(vs, tag);
      var i := KeyHasGroup(vs, TagKey, Name(tag));
      assert info[i].tag == tag;
    }
  }

  /** Grouped by timestamp the lines are those of the times visited, grouped by tag those of the
      tags. */
  lemma GroupedLines(vs: seq<Info>, g: GroupBy)
    ensures if g.ByTimestamp? then ByTimes(Lines(Build(vs, KeyBy(g))), vs) else ByTags(Lines(Build(vs, KeyBy(g))), vs)
  {
    hide ByTimes; hide ByTags;
    if g.ByTimestamp? { TimeLines(vs); } else { TagLines(vs); }
  }
}
