/** Sequences of sequences, and permutations. */
module Seqs {

  function Concat<T>(ss: seq<seq<T>>): seq<T> {
    if ss == [] then [] else ss[0] + Concat(ss[1..])
  }

  lemma {:induction false} ConcatSnoc<T>(ss: seq<seq<T>>, s: seq<T>)
    ensures Concat(ss + [s]) == Concat(ss) + s
  {
    if ss == [] {
      assert ss + [s] == [s] && [s][1..] == [];
    } else {
      assert (ss + [s])[1..] == ss[1..] + [s];
      ConcatSnoc(ss[1..], s);
    }
  }

  lemma ConcatFirst<T>(ss: seq<seq<T>>)
    requires ss != []
    ensures multiset(Concat(ss)) == multiset(ss[0]) + multiset(Concat(ss[1..]))
  {
  }

  lemma PopBag<T>(s: seq<T>)
    requires s != []
    ensures multiset(s) == multiset(s[1..]) + multiset{s[0]}
  {
    assert s == [s[0]] + s[1..];
  }

  lemma {:induction false} ConcatPop<T>(ss: seq<seq<T>>, b: nat)
    requires b < |ss| && ss[b] != []
    ensures multiset(Concat(ss)) == multiset(Concat(ss[b := ss[b][1..]])) + multiset{ss[b][0]}
  {
    var rest := ss[b := ss[b][1..]];
    var tail, after, head, one := multiset(Concat(ss[1..])), multiset(Concat(rest[1..])), multiset(ss[0]), multiset{ss[b][0]};
    ConcatFirst(ss);
    ConcatFirst(rest);
    hide *;
    if b == 0 {
      PopBag(ss[0]);
      assert rest[1..] == ss[1..];
      BagMoves(multiset(ss[0][1..]), tail, one);
    } else {
      assert rest[1..] == ss[1..][b - 1 := ss[b][1..]];
      ConcatPop(ss[1..], b - 1);
      BagMoves(head, after, one);
    }
  }

  lemma BagMoves<T>(a: multiset<T>, b: multiset<T>, x: multiset<T>)
    ensures (a + x) + b == (a + b) + x && a + (b + x) == (a + b) + x
  {
  }

  /** The last element of a sequence taken out of a permutation of it. */
  lemma TakeOut<V>(a: seq<V>, b: seq<V>) returns (i: nat)
    requires multiset(a) == multiset(b) && a != []
    ensures i < |b| && b[i] == a[|a| - 1] && b == (b[..i] + [b[i]]) + b[i + 1..]
    ensures multiset(a[..|a| - 1]) == multiset(b[..i] + b[i + 1..])
  {
    var init, x := a[..|a| - 1], a[|a| - 1];
    assert a == init + [x];
    assert x in multiset(b);
    i :| 0 <= i < |b| && b[i] == x;
    assert b == (b[..i] + [x]) + b[i + 1..];
    assert multiset(init) == multiset(a) - multiset{x} && multiset(b[..i] + b[i + 1..]) == multiset(b) - multiset{x};
  }

  lemma Twice<T>(s: seq<T>, i: nat, j: nat)
    requires i < j < |s| && s[i] == s[j]
    ensures multiset(s)[s[i]] >= 2
  {
    assert s == s[..j] + [s[j]] + s[j + 1..];
    assert s[..j][i] == s[j];
  }
}
