/** The connection pool: connections are idle or lent, never more of them than the capacity. */
module ConnPool {
  import opened Bytes

  /** The pool under its lock. `made` numbers the connections created so far, `asleep` counts
      the requesters waiting to be notified. */
  datatype Pool = Pool(capacity: nat, busy: set<nat>, idle: seq<nat>, made: nat, asleep: nat)

  predicate Available(p: Pool) { p.idle != [] || |p.idle| + |p.busy| < p.capacity }

  /** `do_request_conn`: the oldest idle connection, else a new one, which may fail to come up. */
  function Request(p: Pool, comesUp: bool): (Pool, Option<nat>) {
    if p.idle != [] then (p.(idle := p.idle[1..], busy := p.busy + {p.idle[0]}), Some(p.idle[0]))
    else if |p.idle| + |p.busy| < p.capacity then
      if comesUp then (p.(busy := p.busy + {p.made}, made := p.made + 1), Some(p.made)) else (p, None)
    else (p, None)
  }

  /** `free_conn`: a healthy connection goes back to the end of the idle queue; everybody who
      waits is woken. */
  function Free(p: Pool, conn: nat, healthy: bool): Pool {
    p.(idle := if healthy then p.idle + [conn] else p.idle, busy := p.busy - {conn}, asleep := 0)
  }

  datatype Step =
    | Acquire(comesUp: bool)
    | Wait
    | Release(conn: nat, healthy: bool)
    | Trim(i: nat)

  /** A requester gets past its wait loop exactly when something is available, and goes to
      sleep when nothing is. `disciplined` says that only lent connections are given back. */
  predicate Enabled(p: Pool, a: Step, disciplined: bool) {
    match a
    case Acquire(_) => Available(p)
    case Wait => !Available(p)
    case Release(conn, _) => conn < p.made && (disciplined ==> conn in p.busy)
    case Trim(i) => i < |p.idle|
  }

  function Next(p: Pool, a: Step): Pool {
    match a
    case Acquire(comesUp) => Request(p, comesUp).0
    case Wait => p.(asleep := p.asleep + 1)
    case Release(conn, healthy) => Free(p, conn, healthy)
    case Trim(i) => if i < |p.idle| then p.(idle := p.idle[..i] + p.idle[i + 1..]) else p
  }

  predicate Initial(p: Pool) { p.capacity > 0 && p.busy == {} && p.idle == [] && p.made == 0 && p.asleep == 0 }

  function Run(p0: Pool, steps: seq<Step>): Pool {
    if steps == [] then p0 else Next(Run(p0, steps[..|steps| - 1]), steps[|steps| - 1])
  }

  predicate Legal(p0: Pool, steps: seq<Step>, disciplined: bool) {
    steps != [] ==>
      var init := steps[..|steps| - 1];
      Legal(p0, init, disciplined) && Enabled(Run(p0, init), steps[|steps| - 1], disciplined)
  }

  // ------------------------------------------------------------------ safety

  /** No connection is in two places, there are never too many, and nobody sleeps while a
      connection could be had. */
  ghost predicate Safe(p: Pool) {
    && p.capacity > 0
    && (forall i, j | 0 <= i < j < |p.idle| :: p.idle[i] != p.idle[j])
    && (forall i | 0 <= i < |p.idle| :: p.idle[i] !in p.busy && p.idle[i] < p.made)
    && (forall c | c in p.busy :: c < p.made)
    && |p.idle| + |p.busy| <= p.capacity
    && (p.asleep > 0 ==> !Available(p))
  }

  /** A request that got past its wait returns nothing only when a new connection did not
      come up; what it returns was not lent before and is lent now. */
  lemma RequestLends(p: Pool, comesUp: bool)
    requires Safe(p) && Available(p)
    ensures Safe(Request(p, comesUp).0)
    ensures Request(p, comesUp).1 == None <==> p.idle == [] && !comesUp
    ensures var r := Request(p, comesUp); r.1.Some? ==> r.1.value !in p.busy && r.0.busy == p.busy + {r.1.value}
    ensures Request(p, comesUp).1 == None ==> Request(p, comesUp).0 == p
  {
  }

  /** A request has to wait exactly when as many connections as the capacity allows are lent. */
  lemma WaitsWhenFull(p: Pool)
    requires Safe(p)
    ensures !Available(p) <==> p.idle == [] && |p.busy| == p.capacity
  {
  }

  lemma FreeKeeps(p: Pool, conn: nat, healthy: bool)
    requires Safe(p) && conn in p.busy
    ensures Safe(Free(p, conn, healthy)) && Available(Free(p, conn, healthy))
  {
    assert |p.busy - {conn}| == |p.busy| - 1;
  }

  lemma TrimKeeps(p: Pool, i: nat)
    requires Safe(p) && i < |p.idle|
    ensures Safe(Next(p, Trim(i)))
  {
    var r := Next(p, Trim(i)).idle;
    forall a, b | 0 <= a < b < |r| ensures r[a] != r[b] {
      assert r[a] == p.idle[if a < i then a else a + 1] && r[b] == p.idle[if b < i then b else b + 1];
    }
    forall a | 0 <= a < |r| ensures r[a] !in p.busy && r[a] < p.made { assert r[a] == p.idle[if a < i then a else a + 1]; }
  }

  lemma {:induction false} SafeRun(p0: Pool, steps: seq<Step>)
    requires Initial(p0) && Legal(p0, steps, true)
    ensures Safe(Run(p0, steps)) && Run(p0, steps).capacity == p0.capacity
  {
    if steps != [] {
      var init, a := steps[..|steps| - 1], steps[|steps| - 1];
      SafeRun(p0, init);
      var p := Run(p0, init);
      match a
      case Acquire(comesUp) => RequestLends(p, comesUp);
      case Wait =>
      case Release(conn, healthy) => FreeKeeps(p, conn, healthy);
      case Trim(i) => TrimKeeps(p, i);
    }
  }

  /** In every run a connection that is handed out is not in use by anybody else. */
  ghost predicate NeverLentTwice(disciplined: bool) {
    forall p0, steps, comesUp | Initial(p0) && Legal(p0, steps + [Acquire(comesUp)], disciplined) ::
      var p := Run(p0, steps); Request(p, comesUp).1.Some? ==> Request(p, comesUp).1.value !in p.busy
  }

  lemma Extend(p0: Pool, steps: seq<Step>, a: Step, disciplined: bool)
    ensures Run(p0, steps + [a]) == Next(Run(p0, steps), a)
    ensures Legal(p0, steps + [a], disciplined) <==> Legal(p0, steps, disciplined) && Enabled(Run(p0, steps), a, disciplined)
  {
    assert (steps + [a])[..|steps|] == steps;
  }

  lemma Grow(p0: Pool, steps: seq<Step>, p: Pool, a: Step) returns (more: seq<Step>)
    requires Legal(p0, steps, false) && Run(p0, steps) == p && Enabled(p, a, false)
    ensures Legal(p0, more, false) && Run(p0, more) == Next(p, a)
  {
    more := steps + [a];
    Extend(p0, steps, a, false);
  }

  /** A connection that has been lent once and given back twice. */
  lemma FreedTwice(p0: Pool) returns (run: seq<Step>)
    requires p0 == Pool(1, {}, [], 0, 0)
    ensures Legal(p0, run, false) && Run(p0, run) == Pool(1, {}, [0, 0], 1, 0)
  {
    run := Grow(p0, [], p0, Acquire(true));
    hide Run; hide Legal;
    run := Grow(p0, run, Pool(1, {0}, [], 1, 0), Release(0, true));
    assert {0} - {0} == {};
    run := Grow(p0, run, Pool(1, {}, [0], 1, 0), Release(0, true));
    assert {} - {0} == {};
  }

  /** It is idle twice, and is lent to two at once. */
  lemma FreedTwiceLentTwice()
    ensures !NeverLentTwice(false)
  {
    hide Run; hide Legal;
    var p0 := Pool(1, {}, [], 0, 0);
    var run := FreedTwice(p0);
    run := Grow(p0, run, Pool(1, {}, [0, 0], 1, 0), Acquire(true));
    var p := Pool(1, {0}, [0], 1, 0);
    assert [0, 0][1..] == [0] && Run(p0, run) == p;
    Extend(p0, run, Acquire(true), false);
    assert Legal(p0, run + [Acquire(true)], false) && Request(p, true).1 == Some(0);
  }

  /** No connection is lent twice at once, in any run, exactly when only lent connections are
      given back. */
  lemma NeverLentTwiceIff(disciplined: bool)
    ensures NeverLentTwice(disciplined) <==> disciplined
  {
    if disciplined {
      forall p0, steps, comesUp | Initial(p0) && Legal(p0, steps + [Acquire(comesUp)], disciplined)
        ensures var p := Run(p0, steps); Request(p, comesUp).1.Some? ==> Request(p, comesUp).1.value !in p.busy
      {
        Extend(p0, steps, Acquire(comesUp), disciplined);
        SafeRun(p0, steps);
        RequestLends(Run(p0, steps), comesUp);
      }
    } else {
      FreedTwiceLentTwice();
    }
  }

  // ------------------------------------------------------------------ given back

  ghost predicate Gone(p: Pool, c: nat) { c < p.made && c !in p.busy && c !in p.idle }

  lemma GoneStays(p: Pool, a: Step, c: nat)
    requires Gone(p, c) && Enabled(p, a, true)
    ensures Gone(Next(p, a), c)
  {
  }

  lemma GoneNow(p: Pool, c: nat)
    requires Safe(p) && c in p.busy
    ensures Gone(Free(p, c, false), c)
  {
  }

  lemma GoneUnseen(p: Pool, c: nat, comesUp: bool)
    requires Gone(p, c)
    ensures Request(p, comesUp).1 != Some(c)
  {
  }

  /** In every run a connection that was given back unhealthy is gone: it is neither idle nor
      lent, and no request gets it again. */
  lemma {:induction false} UnhealthyGone(p0: Pool, steps: seq<Step>, i: nat, c: nat, comesUp: bool)
    requires Initial(p0) && Legal(p0, steps, true) && i < |steps| && steps[i] == Release(c, false)
    ensures Gone(Run(p0, steps), c) && Request(Run(p0, steps), comesUp).1 != Some(c)
  {
    var n := |steps| - 1;
    var init, a := steps[..n], steps[n];
    var p := Run(p0, init);
    assert Run(p0, steps) == Next(p, a) && Enabled(p, a, true) && Legal(p0, init, true);
    assert i == n ==> Next(p, a) == Free(p, c, false) && c in p.busy;
    hide Run; hide Legal; hide Gone; hide Request; hide Safe; hide Next; hide Free; hide Enabled; hide Initial;
    SafeRun(p0, init);
    if i < n {
      UnhealthyGone(p0, init, i, c, comesUp);
      GoneStays(p, a, c);
    } else {
      GoneNow(p, c);
    }
    GoneUnseen(Run(p0, steps), c, comesUp);
  }

  /** The connections given back healthy, in order. */
  function Returned(steps: seq<Step>): seq<nat> {
    if steps == [] then []
    else
      var a := steps[|steps| - 1];
      Returned(steps[..|steps| - 1]) + if a.Release? && a.healthy then [a.conn] else []
  }

  /** The idle connections that requests were given, in order. */
  function Reused(p0: Pool, steps: seq<Step>): seq<nat> {
    if steps == [] then []
    else
      var init := steps[..|steps| - 1];
      Reused(p0, init) + ReusedBy(Run(p0, init), steps[|steps| - 1])
  }

  function ReusedBy(p: Pool, a: Step): seq<nat> {
    if a.Acquire? && p.idle != [] && Request(p, a.comesUp).1.Some? then [Request(p, a.comesUp).1.value] else []
  }

  predicate Trims(steps: seq<Step>) { exists i | 0 <= i < |steps| :: steps[i].Trim? }

  /** `a` is `b` with elements left out. */
  predicate Within(a: seq<nat>, b: seq<nat>) {
    a == [] || (b != [] &&
      var x, y := a[..|a| - 1], b[..|b| - 1];
      (a[|a| - 1] == b[|b| - 1] && Within(x, y)) || Within(a, y))
  }

  lemma WithinSnoc(a: seq<nat>, b: seq<nat>, x: nat)
    requires Within(a, b)
    ensures Within(a + [x], b + [x]) && Within(a, b + [x])
  {
    assert (a + [x])[..|a|] == a && (b + [x])[..|b|] == b;
  }

  lemma {:induction false} WithinRemove(a: seq<nat>, b: seq<nat>, i: nat)
    requires Within(a, b) && i < |a|
    ensures Within(a[..i] + a[i + 1..], b)
  {
    var n := |a| - 1;
    var x, y, r := a[..n], b[..|b| - 1], a[..i] + a[i + 1..];
    assert b == y + [b[|b| - 1]];
    if Within(a, y) {
      WithinRemove(a, y, i);
      WithinSnoc(r, y, b[|b| - 1]);
    } else if i == n {
      assert r == x;
      WithinSnoc(x, y, b[|b| - 1]);
    } else {
      WithinRemove(x, y, i);
      assert r == (x[..i] + x[i + 1..]) + [a[n]];
      WithinSnoc(x[..i] + x[i + 1..], y, a[n]);
    }
  }

  /** What a step does to the connections lent again followed by the idle ones. */
  lemma StepMoves(p: Pool, a: Step, before: seq<nat>)
    requires a.Trim? ==> a.i < |p.idle|
    ensures var was, after := before + p.idle, before + ReusedBy(p, a) + Next(p, a).idle;
      match a
      case Release(conn, true) => after == was + [conn]
      case Trim(i) => var k := |before| + i; after == was[..k] + was[k + 1..]
      case _ => after == was
  {
    match a
    case Acquire(_) => if p.idle != [] { assert p.idle == [p.idle[0]] + p.idle[1..]; }
    case _ =>
  }

  lemma LentStep(p: Pool, a: Step, before: seq<nat>, returned: seq<nat>)
    requires Within(before + p.idle, returned) && (a.Trim? ==> a.i < |p.idle|)
    ensures var more := returned + if a.Release? && a.healthy then [a.conn] else [];
      Within(before + ReusedBy(p, a) + Next(p, a).idle, more)
      && (!a.Trim? && before + p.idle == returned ==> before + ReusedBy(p, a) + Next(p, a).idle == more)
  {
    StepMoves(p, a, before);
    hide Next; hide ReusedBy; hide Within;
    var was := before + p.idle;
    assert returned + [] == returned;
    if a.Release? && a.healthy {
      WithinSnoc(was, returned, a.conn);
    } else if a.Trim? {
      WithinRemove(was, returned, |before| + a.i);
    }
  }

  lemma TrimsSnoc(init: seq<Step>, a: Step)
    ensures Trims(init + [a]) <==> Trims(init) || a.Trim?
  {
    var steps := init + [a];
    if Trims(init) { var i :| 0 <= i < |init| && init[i].Trim?; assert steps[i].Trim?; }
    assert steps[|init|] == a;
  }

  /** In every run idle connections are lent again in the order in which they came back, the
      trimmed ones left out: what was lent again and what is idle now is what was given back. */
  lemma {:induction false} LentInOrder(p0: Pool, steps: seq<Step>, disciplined: bool)
    requires Initial(p0) && Legal(p0, steps, disciplined)
    ensures Within(Reused(p0, steps) + Run(p0, steps).idle, Returned(steps))
    ensures !Trims(steps) ==> Reused(p0, steps) + Run(p0, steps).idle == Returned(steps)
  {
    if steps != [] {
      var n := |steps| - 1;
      var init, a := steps[..n], steps[n];
      var p := Run(p0, init);
      assert steps == init + [a] && Run(p0, steps) == Next(p, a) && Enabled(p, a, disciplined) && Legal(p0, init, disciplined);
      assert Reused(p0, steps) == Reused(p0, init) + ReusedBy(p, a);
      assert Returned(steps) == Returned(init) + if a.Release? && a.healthy then [a.conn] else [];
      hide Within; hide Trims; hide Run; hide Legal; hide Reused; hide Returned; hide ReusedBy; hide Next;
      LentInOrder(p0, init, disciplined);
      TrimsSnoc(init, a);
      LentStep(p, a, Reused(p0, init), Returned(init));
    }
  }

  // ------------------------------------------------------------------ the pool object

  class Connections {
    const capacity: nat
    var busy: set<nat>
    var idle: seq<nat>
    var made: nat
    var asleep: nat

    ghost function View(): Pool
      reads this
    {
      Pool(capacity, busy, idle, made, asleep)
    }

    constructor (capacity: nat)
      requires capacity > 0
      ensures this.capacity == capacity && Initial(View())
    {
      this.capacity := capacity;
      busy, idle, made, asleep := {}, [], 0, 0;
    }

    method DoCheckAvailable() returns (r: bool)
      ensures r == Available(View())
    {
      return idle != [] || |idle| + |busy| < capacity;
    }

    /** A request: it goes to sleep when nothing is available, else it takes a connection. */
    method RequestConn(comesUp: bool) returns (slept: bool, conn: Option<nat>)
      requires Safe(View())
      modifies this
      ensures Safe(View()) && slept == !Available(old(View()))
      ensures if slept then View() == Next(old(View()), Wait) && conn == None
              else (View(), conn) == Request(old(View()), comesUp)
      ensures conn.Some? ==> conn.value !in old(busy) && conn.value in busy
    {
      var available := DoCheckAvailable();
      if !available {
        asleep := asleep + 1;
        return true, None;
      }
      RequestLends(View(), comesUp);
      slept := false;
      conn := DoRequestConn(comesUp);
    }

    method DoRequestConn(comesUp: bool) returns (conn: Option<nat>)
      modifies this
      ensures (View(), conn) == Request(old(View()), comesUp)
    {
      if idle != [] {
        var first := idle[0];
        idle := idle[1..];
        busy := busy + {first};
        return Some(first);
      }
      if |idle| + |busy| < capacity {
        if !comesUp {
          return None;
        }
        busy := busy + {made};
        made := made + 1;
        return Some(made - 1);
      }
      return None;
    }

    method FreeConn(conn: nat, healthy: bool)
      requires Safe(View()) && conn in busy
      modifies this
      ensures Safe(View()) && View() == Free(old(View()), conn, healthy)
      ensures conn !in busy && Available(View()) && asleep == 0
    {
      FreeKeeps(View(), conn, healthy);
      if healthy {
        idle := idle + [conn];
      }
      busy := busy - {conn};
      asleep := 0;
    }
  }
}
