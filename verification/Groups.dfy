/** `std::map<K, std::vector<V>>`: vectors in ascending key order, grown by `push_back`. */
module Groups {
  import opened Bytes
  import Lex

  /** The map keys used in the program: timestamps and strings. */
  datatype Key = Time(t: int) | Name(s: bytes)

  predicate KeyLe(a: Key, b: Key) {
    match (a, b)
    case (Time(x), Time(y)) => x <= y
    case (Time(_), Name(_)) => true
    case (Name(_), Time(_)) => false
    case (Name(x), Name(y)) => Lex.Le(x, y)
  }

  predicate KeyLt(a: Key, b: Key) { !KeyLe(b, a) }

  lemma KeyTotal(a: Key, b: Key)
    ensures KeyLe(a, b) || KeyLe(b, a)
    ensures KeyLe(a, b) && KeyLe(b, a) <==> a == b
  {
    if a.Name? && b.Name? { Lex.Total(a.s, b.s); }
  }

  lemma KeyTrans(a: Key, b: Key, c: Key)
    requires KeyLe(a, b) && KeyLe(b, c)
    ensures KeyLe(a, c)
  {
    if a.Name? { Lex.Trans(a.s, b.s, c.s); }
  }

  lemma KeyLtTrans(a: Key, b: Key, c: Key)
    requires KeyLt(a, b) && KeyLt(b, c)
    ensures KeyLt(a, c) && a != b
  {
    KeyTotal(a, b);
    KeyTotal(b, c);
    if KeyLe(c, a) { KeyTrans(c, a, b); }
  }

  datatype Group<V> = Group(key: Key, items: seq<V>)

  ghost predicate Sorted<V>(gs: seq<Group<V>>) {
    forall i, j | 0 <= i < j < |gs| :: KeyLt(gs[i].key, gs[j].key)
  }

  /** `find` the group of `k`, create it if it is missing, `push_back` the value. */
  function Push<V>(gs: seq<Group<V>>, k: Key, v: V): (r: seq<Group<V>>) {
    if gs == [] || KeyLt(k, gs[0].key) then [Group(k, [v])] + gs
    else if gs[0].key == k then [Group(k, gs[0].items + [v])] + gs[1..]
    else [gs[0]] + Push(gs[1..], k, v)
  }

  function Items<V>(gs: seq<Group<V>>, k: Key): (r: seq<V>) {
    if gs == [] then [] else if gs[0].key == k then gs[0].items else Items(gs[1..], k)
  }

  ghost predicate HasKey<V>(gs: seq<Group<V>>, k: Key) { exists i | 0 <= i < |gs| :: gs[i].key == k }

  lemma {:induction false} PushKeys<V>(gs: seq<Group<V>>, k: Key, v: V)
    ensures forall j {:trigger HasKey(gs, j)} :: HasKey(Push(gs, k, v), j) <==> HasKey(gs, j) || j == k
  {
    var r := Push(gs, k, v);
    if gs == [] || KeyLt(k, gs[0].key) {
      forall j ensures HasKey(r, j) <==> HasKey(gs, j) || j == k {
        if HasKey(gs, j) { var i :| 0 <= i < |gs| && gs[i].key == j; assert r[i + 1].key == j; }
        if j == k { assert r[0].key == k; }
        if HasKey(r, j) && j != k { var i :| 0 <= i < |r| && r[i].key == j; assert gs[i - 1].key == j; }
      }
    } else if gs[0].key == k {
      forall j ensures HasKey(r, j) <==> HasKey(gs, j) || j == k {
        if HasKey(gs, j) { var i :| 0 <= i < |gs| && gs[i].key == j; assert r[i].key == j; }
        if j == k { assert r[0].key == k; }
        if HasKey(r, j) { var i :| 0 <= i < |r| && r[i].key == j; assert gs[i].key == j; }
      }
    } else {
      PushKeys(gs[1..], k, v);
      var q := Push(gs[1..], k, v);
      forall j ensures HasKey(r, j) <==> HasKey(gs, j) || j == k {
        assert HasKey(q, j) <==> HasKey(gs[1..], j) || j == k;
        HasKeyCons(gs[0], gs[1..], j);
        HasKeyCons(gs[0], q, j);
        assert [gs[0]] + gs[1..] == gs;
      }
    }
  }

  lemma HasKeyCons<V>(g: Group<V>, gs: seq<Group<V>>, j: Key)
    ensures HasKey([g] + gs, j) <==> g.key == j || HasKey(gs, j)
  {
    if g.key == j { assert ([g] + gs)[0].key == j; }
    if HasKey(gs, j) { var i :| 0 <= i < |gs| && gs[i].key == j; assert ([g] + gs)[i + 1].key == j; }
    if HasKey([g] + gs, j) && g.key != j { var i :| 0 <= i < |[g] + gs| && ([g] + gs)[i].key == j; assert gs[i - 1].key == j; }
  }

  /** Pushing keeps the keys strictly ascending. */
  lemma {:induction false} PushSorted<V>(gs: seq<Group<V>>, k: Key, v: V)
    requires Sorted(gs)
    ensures Sorted(Push(gs, k, v))
  {
    var r := Push(gs, k, v);
    if gs == [] {
    } else if KeyLt(k, gs[0].key) {
      forall i, j | 0 <= i < j < |r| ensures KeyLt(r[i].key, r[j].key) {
        if i == 0 && j > 1 { KeyLtTrans(k, gs[0].key, gs[j - 1].key); }
      }
    } else if gs[0].key == k {
    } else {
      var q := Push(gs[1..], k, v);
      PushSorted(gs[1..], k, v);
      PushKeys(gs[1..], k, v);
      forall i, j | 0 <= i < j < |r| ensures KeyLt(r[i].key, r[j].key) {
        if i == 0 {
          var key := q[j - 1].key;
          assert HasKey(q, key);
          assert HasKey(gs[1..], key) || key == k;
          KeyTotal(gs[0].key, k);
          if HasKey(gs[1..], key) { var m :| 0 <= m < |gs[1..]| && gs[1..][m].key == key; }
        }
      }
    }
  }

  lemma {:induction false} ItemsAbsent<V>(gs: seq<Group<V>>, k: Key)
    requires !HasKey(gs, k)
    ensures Items(gs, k) == []
  {
    if gs != [] {
      HasKeyCons(gs[0], gs[1..], k);
      assert [gs[0]] + gs[1..] == gs;
      ItemsAbsent(gs[1..], k);
    }
  }

  lemma BelowFirstAbsent<V>(gs: seq<Group<V>>, k: Key)
    requires Sorted(gs) && (gs == [] || KeyLt(k, gs[0].key))
    ensures !HasKey(gs, k)
  {
    forall i | 0 <= i < |gs| ensures gs[i].key != k {
      KeyTotal(k, gs[0].key);
      if i > 0 { KeyLtTrans(k, gs[0].key, gs[i].key); }
      KeyTotal(k, gs[i].key);
    }
  }

  /** Pushing appends to the vector of its key and to no other. */
  lemma {:induction false} PushItems<V>(gs: seq<Group<V>>, k: Key, v: V, j: Key)
    requires Sorted(gs)
    ensures Items(Push(gs, k, v), j) == if j == k then Items(gs, j) + [v] else Items(gs, j)
  {
    var r := Push(gs, k, v);
    if gs == [] || KeyLt(k, gs[0].key) {
      assert r[1..] == gs;
      BelowFirstAbsent(gs, k);
      ItemsAbsent(gs, k);
    } else if gs[0].key == k {
      assert r[1..] == gs[1..];
    } else {
      assert r[1..] == Push(gs[1..], k, v);
      PushItems(gs[1..], k, v, j);
    }
  }

  /** In a sorted map a group holds exactly the vector found under its key. */
  lemma {:induction false} ItemsAt<V>(gs: seq<Group<V>>, i: nat)
    requires Sorted(gs) && i < |gs|
    ensures Items(gs, gs[i].key) == gs[i].items
  {
    if i > 0 {
      KeyTotal(gs[0].key, gs[i].key);
      ItemsAt(gs[1..], i - 1);
    }
  }

  /** The values of all groups. */
  function Flatten<V>(gs: seq<Group<V>>): seq<V> {
    if gs == [] then [] else gs[0].items + Flatten(gs[1..])
  }

  lemma {:induction false} PushFlatten<V>(gs: seq<Group<V>>, k: Key, v: V)
    ensures multiset(Flatten(Push(gs, k, v))) == multiset(Flatten(gs)) + multiset{v}
  {
    var r := Push(gs, k, v);
    if gs == [] || KeyLt(k, gs[0].key) {
      assert r[1..] == gs;
    } else if gs[0].key == k {
      assert r[1..] == gs[1..];
      assert Flatten(r) == gs[0].items + [v] + Flatten(gs[1..]);
    } else {
      assert r[1..] == Push(gs[1..], k, v);
      PushFlatten(gs[1..], k, v);
    }
  }

  // -------------------------------------------------- grouping a whole sequence

  /** The map built by pushing every value under its key, in order. */
  function Build<V>(vs: seq<V>, key: V -> Key): (gs: seq<Group<V>>) {
    if vs == [] then [] else Push(Build(vs[..|vs| - 1], key), key(vs[|vs| - 1]), vs[|vs| - 1])
  }

  lemma BuildSnoc<V>(vs: seq<V>, v: V, key: V -> Key)
    ensures Build(vs + [v], key) == Push(Build(vs, key), key(v), v)
  {
    assert (vs + [v])[..|vs|] == vs;
  }

  /** The values of `vs` whose key is `k`, in order. */
  function Select<V>(vs: seq<V>, key: V -> Key, k: Key): (r: seq<V>) {
    if vs == [] then []
    else Select(vs[..|vs| - 1], key, k) + (if key(vs[|vs| - 1]) == k then [vs[|vs| - 1]] else [])
  }

  /** Grouping is a partition: ascending distinct keys, under each key the values of that
      key in order, and nothing else. */
  lemma {:induction false} BuildPartitions<V>(vs: seq<V>, key: V -> Key)
    ensures Sorted(Build(vs, key))
    ensures forall k :: Items(Build(vs, key), k) == Select(vs, key, k)
    ensures multiset(Flatten(Build(vs, key))) == multiset(vs)
    ensures forall i | 0 <= i < |Build(vs, key)| :: Build(vs, key)[i].items != []
  {
    if vs != [] {
      var init, last := vs[..|vs| - 1], vs[|vs| - 1];
      BuildPartitions(init, key);
      PushSorted(Build(init, key), key(last), last);
      PushFlatten(Build(init, key), key(last), last);
      PushNonempty(Build(init, key), key(last), last);
      assert vs == init + [last];
      forall k ensures Items(Build(vs, key), k) == Select(vs, key, k) {
        PushItems(Build(init, key), key(last), last, k);
      }
    }
  }

  lemma {:induction false} PushNonempty<V>(gs: seq<Group<V>>, k: Key, v: V)
    requires forall i | 0 <= i < |gs| :: gs[i].items != []
    ensures forall i | 0 <= i < |Push(gs, k, v)| :: Push(gs, k, v)[i].items != []
  {
    if gs != [] && !KeyLt(k, gs[0].key) && gs[0].key != k { PushNonempty(gs[1..], k, v); }
  }
}
