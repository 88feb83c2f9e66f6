/** The reporting client: events are numbered, collected for the current second and queued
    as reports of bounded size. */
module Client {
  import opened Bytes
  import opened EventStats
  import opened Queue

  /** A queued report: events and the second they were recorded in. */
  datatype Sent = Sent(ts: int, data: seq<Event>)

  /** An event with the clock reading it was recorded at. */
  datatype Logged = Logged(at: int, ev: Event)

  datatype State = State(
    enabled: bool, size: int, msgid: int, time: int, slot: seq<Event>,
    queued: seq<Sent>,      // every report ever queued
    log: seq<Logged>,       // history: every event recorded, in order
    ids: seq<int>)          // history: the message id of every call

  datatype Step =
    | Report(metric: bytes, value: int, tag: bytes, now: int)
    | Resize(size: int)
    | Enable(on: bool)

  /** The message id of a call: one more than the last, and one more again in a new second,
      where numbers that have left 32 bits start over. */
  function NextId(msgid: int, newSecond: bool): int {
    if !newSecond then msgid + 1
    else (if msgid + 1 >= INT32_MAX then 0 else msgid + 1) + 1
  }

  function OnReport(s: State, metric: bytes, value: int, tag: bytes, now: int): State {
    if !s.enabled then s
    else
      var flush := |s.slot| >= s.size || now != s.time;
      var id := NextId(s.msgid, now != s.time);
      var ev := Event(id, metric, tag, value);
      s.(msgid := id, time := now, ids := s.ids + [id],
         queued := if flush && s.slot != [] then s.queued + [Sent(s.time, s.slot)] else s.queued,
         slot := (if flush then [] else s.slot) + (if metric == [] then [] else [ev]),
         log := s.log + (if metric == [] then [] else [Logged(now, ev)]))
  }

  function Next(s: State, a: Step): State {
    match a
    case Report(metric, value, tag, now) => OnReport(s, metric, value, tag, now)
    case Resize(size) => if size > 0 then s.(size := size) else s
    case Enable(on) => s.(enabled := on)
  }

  function Run(s0: State, steps: seq<Step>): State {
    if steps == [] then s0 else Next(Run(s0, steps[..|steps| - 1]), steps[|steps| - 1])
  }

  predicate Initial(s: State) {
    s.size > 0 && s.msgid == 0 && s.time == 0 && s.slot == [] && s.queued == [] && s.log == [] && s.ids == []
  }

  // ---------------------------------------------------------------- conservation

  function LoggedOf(r: Sent): (l: seq<Logged>)
    ensures |l| == |r.data| && forall i | 0 <= i < |l| :: l[i] == Logged(r.ts, r.data[i])
  {
    seq(|r.data|, i requires 0 <= i < |r.data| => Logged(r.ts, r.data[i]))
  }

  function LogOf(rs: seq<Sent>): seq<Logged> {
    if rs == [] then [] else LogOf(rs[..|rs| - 1]) + LoggedOf(rs[|rs| - 1])
  }

  lemma LogOfSnoc(rs: seq<Sent>, r: Sent)
    ensures LogOf(rs + [r]) == LogOf(rs) + LoggedOf(r)
  {
    assert (rs + [r])[..|rs|] == rs;
  }

  /** The queued reports followed by the current slot are the recorded events, in order, each
      under the second the clock read; no report is empty. */
  ghost predicate Conserved(s: State) {
    && s.log == LogOf(s.queued) + LoggedOf(Sent(s.time, s.slot))
    && forall i | 0 <= i < |s.queued| :: s.queued[i].data != []
  }

  lemma ReportConserves(s: State, metric: bytes, value: int, tag: bytes, now: int)
    requires Conserved(s)
    ensures Conserved(OnReport(s, metric, value, tag, now))
  {
    hide LoggedOf; hide LogOf; hide NextId;
    if s.enabled {
      var ev := Event(NextId(s.msgid, now != s.time), metric, tag, value);
      var added: seq<Event> := if metric == [] then [] else [ev];
      OneLogged(now, metric, ev);
      if |s.slot| >= s.size || now != s.time {
        FlushLog(s.queued, Sent(s.time, s.slot));
        assert [] + added == added;
      } else {
        KeepLog(s.queued, now, s.slot, added);
      }
    }
  }

  lemma KeepLog(queued: seq<Sent>, now: int, slot: seq<Event>, added: seq<Event>)
    ensures LogOf(queued) + LoggedOf(Sent(now, slot + added)) == (LogOf(queued) + LoggedOf(Sent(now, slot))) + LoggedOf(Sent(now, added))
  {
    LoggedAppend(now, slot, added);
    hide LoggedOf; hide LogOf;
  }

  lemma OneLogged(now: int, metric: bytes, ev: Event)
    ensures LoggedOf(Sent(now, if metric == [] then [] else [ev])) == if metric == [] then [] else [Logged(now, ev)]
  {
  }

  lemma FlushLog(queued: seq<Sent>, r: Sent)
    ensures LogOf(queued) + LoggedOf(r) == LogOf(if r.data != [] then queued + [r] else queued)
  {
    LogOfSnoc(queued, r);
  }

  lemma LoggedAppend(ts: int, a: seq<Event>, b: seq<Event>)
    ensures LoggedOf(Sent(ts, a + b)) == LoggedOf(Sent(ts, a)) + LoggedOf(Sent(ts, b))
  {
  }

  /** Over every run, whatever the clock and the configuration do, no recorded event is lost,
      repeated, reordered or put under another second. */
  lemma {:induction false} RunConserves(s0: State, steps: seq<Step>)
    requires Initial(s0)
    ensures Conserved(Run(s0, steps))
  {
    if steps != [] {
      var init, a := steps[..|steps| - 1], steps[|steps| - 1];
      RunConserves(s0, init);
      var s := Run(s0, init);
      match a
      case Report(metric, value, tag, now) => ReportConserves(s, metric, value, tag, now);
      case _ =>
    }
  }

  // ---------------------------------------------------------------- what was reported

  /** A call that records an event: what was passed, the clock, and the number of the call. */
  datatype Told = Told(at: int, metric: bytes, tag: bytes, value: int, call: nat)

  /** Whether the client is enabled after some steps, from the steps alone. */
  function OnAfter(on: bool, steps: seq<Step>): bool {
    if steps == [] then on
    else
      var a := steps[|steps| - 1];
      if a.Enable? then a.on else OnAfter(on, steps[..|steps| - 1])
  }

  /** How many calls were made while it was enabled. */
  function Calls(on: bool, steps: seq<Step>): nat {
    if steps == [] then 0
    else
      var init := steps[..|steps| - 1];
      Calls(on, init) + if steps[|steps| - 1].Report? && OnAfter(on, init) then 1 else 0
  }

  /** The calls that record an event: those made while enabled with a metric. */
  function ToldBy(on: bool, steps: seq<Step>): seq<Told> {
    if steps == [] then []
    else
      var init, a := steps[..|steps| - 1], steps[|steps| - 1];
      ToldBy(on, init)
      + if a.Report? && OnAfter(on, init) && a.metric != [] then [Told(a.now, a.metric, a.tag, a.value, Calls(on, init))] else []
  }

  /** Every event carries what its call was given, the clock of the call and its message id. */
  ghost predicate Carried(l: seq<Logged>, told: seq<Told>, ids: seq<int>) {
    |l| == |told| && forall i | 0 <= i < |l| ::
      && l[i].at == told[i].at && l[i].ev.metric == told[i].metric && l[i].ev.tag == told[i].tag && l[i].ev.value == told[i].value
      && told[i].call < |ids| && l[i].ev.msgid == ids[told[i].call]
  }

  /** One call adds its id and, with a metric, an event that carries what was passed. */
  lemma ReportCarries(s: State, told: seq<Told>, metric: bytes, value: int, tag: bytes, now: int)
    requires s.enabled && Carried(s.log, told, s.ids)
    ensures var r := OnReport(s, metric, value, tag, now);
      && r.enabled && |r.ids| == |s.ids| + 1
      && Carried(r.log, told + (if metric != [] then [Told(now, metric, tag, value, |s.ids|)] else []), r.ids)
  {
    hide NextId;
  }

  lemma {:induction false} LogCarries(s0: State, steps: seq<Step>)
    requires Initial(s0)
    ensures var s := Run(s0, steps);
      s.enabled == OnAfter(s0.enabled, steps) && |s.ids| == Calls(s0.enabled, steps) && Carried(s.log, ToldBy(s0.enabled, steps), s.ids)
  {
    if steps != [] {
      var init, a := steps[..|steps| - 1], steps[|steps| - 1];
      LogCarries(s0, init);
      var s, told := Run(s0, init), ToldBy(s0.enabled, init);
      assert Run(s0, steps) == Next(s, a) && told + [] == told;
      if a.Report? && s.enabled {
        hide Carried; hide OnReport; hide Run;
        ReportCarries(s, told, a.metric, a.value, a.tag, a.now);
      }
    }
  }

  /** In every run the queued reports followed by the current slot are exactly the events of the
      calls made while enabled with a metric, in order, with the metric, tag and value passed,
      under the second of the call. */
  lemma RunReports(s0: State, steps: seq<Step>)
    requires Initial(s0)
    ensures var s := Run(s0, steps);
      Carried(LogOf(s.queued) + LoggedOf(Sent(s.time, s.slot)), ToldBy(s0.enabled, steps), s.ids)
  {
    RunConserves(s0, steps);
    LogCarries(s0, steps);
  }

  // ---------------------------------------------------------------- batch sizes

  predicate SlotFits(s: State) { |s.slot| <= s.size }

  /** The call runs into the assertion the program makes before it queues a report. */
  predicate Trips(s: State, a: Step) {
    a.Report? && s.enabled && (|s.slot| >= s.size || a.now != s.time) && !SlotFits(s)
  }

  /** The sizes set in a run, in order; a size that is not positive is not set. */
  function Sizes(steps: seq<Step>): seq<int> {
    if steps == [] then []
    else Sizes(steps[..|steps| - 1]) + SizeSet(steps[|steps| - 1])
  }

  function SizeSet(a: Step): seq<int> { if a.Resize? && a.size > 0 then [a.size] else [] }

  predicate Growing(sizes: seq<int>) { forall i | 0 <= i < |sizes| - 1 :: sizes[i] <= sizes[i + 1] }

  ghost predicate Bounded(s: State) {
    0 < s.size && SlotFits(s) && forall i | 0 <= i < |s.queued| :: 1 <= |s.queued[i].data| <= s.size
  }

  /** While the size is never lowered each queued report holds between one and the configured
      number of events. */
  lemma {:induction false} ReportsBounded(s0: State, steps: seq<Step>)
    requires Initial(s0) && Growing([s0.size] + Sizes(steps))
    ensures var sizes := [s0.size] + Sizes(steps);
      Bounded(Run(s0, steps)) && Run(s0, steps).size == sizes[|sizes| - 1]
  {
    if steps != [] {
      var init, a := steps[..|steps| - 1], steps[|steps| - 1];
      var before, after := [s0.size] + Sizes(init), [s0.size] + Sizes(steps);
      assert after == before + SizeSet(a);
      forall i | 0 <= i < |before| - 1 ensures before[i] <= before[i + 1] { assert after[i] <= after[i + 1]; }
      ReportsBounded(s0, init);
      if SizeSet(a) != [] { assert after[|before| - 1] <= after[|before|]; }
    }
  }

  /** No call runs into the assertion, in any run in which these sizes are set, in this order,
      beginning with the first. */
  ghost predicate NeverTrips(sizes: seq<int>) {
    forall s0, steps, a | Initial(s0) && [s0.size] + Sizes(steps) <= sizes :: !Trips(Run(s0, steps), a)
  }

  lemma Extend(s0: State, before: seq<Step>, s: State, a: Step) returns (run: seq<Step>)
    requires Run(s0, before) == s
    ensures Run(s0, run) == Next(s, a) && Sizes(run) == Sizes(before) + SizeSet(a)
  {
    run := before + [a];
    assert run[..|before|] == before;
  }

  function Unused(size: int): State { State(true, size, 0, 0, [], [], [], []) }

  lemma {:induction false} SetSizes(sizes: seq<int>, i: nat) returns (run: seq<Step>)
    requires i < |sizes| && forall j | 0 <= j < |sizes| :: sizes[j] > 0
    ensures Run(Unused(sizes[0]), run) == Unused(sizes[i]) && Sizes(run) == sizes[1..i + 1]
  {
    if i == 0 {
      run := [];
      assert Sizes(run) == [] && sizes[1..1] == [] && Run(Unused(sizes[0]), run) == Unused(sizes[0]);
    } else {
      assert Next(Unused(sizes[i - 1]), Resize(sizes[i])) == Unused(sizes[i]) && SizeSet(Resize(sizes[i])) == [sizes[i]];
      assert sizes[1..i + 1] == sizes[1..i] + [sizes[i]];
      hide *;
      run := SetSizes(sizes, i - 1);
      run := Extend(Unused(sizes[0]), run, Unused(sizes[i - 1]), Resize(sizes[i]));
    }
  }

  const SECOND: int := 1_500_000_000

  function Reported(): Step { Report([1], 0, [], SECOND) }

  /** Events of one second, up to the size of a report. */
  lemma {:induction false} CollectMany(s0: State, before: seq<Step>, size: int, k: nat) returns (run: seq<Step>)
    requires Run(s0, before) == Unused(size) && 1 <= k <= size
    ensures var s := Run(s0, run); s.enabled && s.size == size && |s.slot| == k && s.time == SECOND
    ensures Sizes(run) == Sizes(before)
  {
    if k == 1 {
      run := Extend(s0, before, Unused(size), Reported());
    } else {
      run := CollectMany(s0, before, size, k - 1);
      run := Extend(s0, run, Run(s0, run), Reported());
    }
  }

  /** A full report has been collected when the size is lowered. */
  lemma LoweredSizeTrips(sizes: seq<int>, i: nat)
    requires i + 1 < |sizes| && (forall j | 0 <= j < |sizes| :: sizes[j] > 0) && sizes[i] > sizes[i + 1]
    ensures !NeverTrips(sizes)
  {
    var s0, low := Unused(sizes[0]), sizes[i + 1];
    assert Initial(s0) && s0.size == sizes[0] && SizeSet(Resize(low)) == [low];
    assert [sizes[0]] + (sizes[1..i + 1] + [low]) == sizes[..i + 2];
    hide Run; hide Sizes; hide Initial; hide Unused;
    var run := SetSizes(sizes, i);
    run := CollectMany(s0, run, sizes[i], sizes[i]);
    var s := Run(s0, run);
    ResizeTrips(s, low);
    run := Extend(s0, run, s, Resize(low));
    assert [s0.size] + Sizes(run) <= sizes && Trips(Run(s0, run), Reported());
  }

  lemma ResizeTrips(s: State, low: int)
    requires s.enabled && |s.slot| > low > 0 && s.time == SECOND
    ensures Trips(Next(s, Resize(low)), Reported())
  {
  }

  /** The program's assertion holds in every run in which the sizes set are these, exactly when
      they never go down. */
  lemma NeverTripsIff(sizes: seq<int>)
    requires forall j | 0 <= j < |sizes| :: sizes[j] > 0
    ensures NeverTrips(sizes) <==> Growing(sizes)
  {
    if Growing(sizes) {
      forall s0, steps, a | Initial(s0) && [s0.size] + Sizes(steps) <= sizes ensures !Trips(Run(s0, steps), a) {
        GrowingPrefix([s0.size] + Sizes(steps), sizes);
        ReportsBounded(s0, steps);
      }
    } else {
      var i :| 0 <= i < |sizes| - 1 && sizes[i] > sizes[i + 1];
      LoweredSizeTrips(sizes, i);
    }
  }

  lemma GrowingPrefix(a: seq<int>, b: seq<int>)
    requires a <= b && Growing(b)
    ensures Growing(a)
  {
    forall i | 0 <= i < |a| - 1 ensures a[i] <= a[i + 1] { assert b[i] <= b[i + 1]; }
  }

  // ---------------------------------------------------------------- message ids

  const REUSE: int := 0x4000_0000

  /** A number that never starts over: the id plus everything given up by starting over. */
  ghost function Unwrapped(newSeconds: seq<bool>): (r: (int, int))
    ensures r.0 >= 0
  {
    if newSeconds == [] then (0, 0)
    else
      var n := |newSeconds| - 1;
      var p := Unwrapped(newSeconds[..n]);
      (NextId(p.0, newSeconds[n]), if newSeconds[n] && p.0 + 1 >= INT32_MAX then p.1 + p.0 + 1 else p.1)
  }

  lemma {:induction false} UnwrappedGrows(flags: seq<bool>, i: nat)
    requires i <= |flags|
    ensures var p, q := Unwrapped(flags[..i]), Unwrapped(flags);
      && |flags| - i <= (q.0 + q.1) - (p.0 + p.1) <= 2 * (|flags| - i)
      && (q.1 == p.1 || q.1 - p.1 >= INT32_MAX)
  {
    if i == |flags| {
      assert flags[..i] == flags;
    } else {
      var n := |flags| - 1;
      assert flags[..n][..i] == flags[..i];
      UnwrappedGrows(flags[..n], i);
    }
  }

  /** Two calls with the same message id are at least 2^30 calls apart. */
  lemma SameIdFarApart(flags: seq<bool>, i: nat, j: nat)
    requires i < j <= |flags| && Unwrapped(flags[..i]).0 == Unwrapped(flags[..j]).0
    ensures j - i >= REUSE
  {
    assert flags[..j][..i] == flags[..i];
    UnwrappedGrows(flags[..j], i);
  }

  /** For every call of a run, whether it saw a new second. */
  ghost function Flags(s0: State, steps: seq<Step>): seq<bool> {
    if steps == [] then []
    else
      var init, a := steps[..|steps| - 1], steps[|steps| - 1];
      Flags(s0, init) + if a.Report? && Run(s0, init).enabled then [a.now != Run(s0, init).time] else []
  }

  ghost predicate IdsMatch(ids: seq<int>, msgid: int, flags: seq<bool>) {
    && |ids| == |flags| && msgid == Unwrapped(flags).0
    && forall k | 0 <= k < |flags| :: ids[k] == Unwrapped(flags[..k + 1]).0
  }

  lemma {:induction false} RunIds(s0: State, steps: seq<Step>)
    requires Initial(s0)
    ensures IdsMatch(Run(s0, steps).ids, Run(s0, steps).msgid, Flags(s0, steps))
  {
    if steps != [] {
      var init, a := steps[..|steps| - 1], steps[|steps| - 1];
      RunIds(s0, init);
      var s, r, f := Run(s0, init), Run(s0, steps), Flags(s0, init);
      if a.Report? && s.enabled {
        var b := a.now != s.time;
        assert Flags(s0, steps) == f + [b] && r.msgid == NextId(s.msgid, b) && r.ids == s.ids + [NextId(s.msgid, b)];
        hide *;
        IdsSnoc(s.ids, s.msgid, f, b);
      } else {
        assert Flags(s0, steps) == f && r.ids == s.ids && r.msgid == s.msgid;
      }
    }
  }

  lemma IdsSnoc(ids: seq<int>, msgid: int, f: seq<bool>, b: bool)
    requires IdsMatch(ids, msgid, f)
    ensures IdsMatch(ids + [NextId(msgid, b)], NextId(msgid, b), f + [b])
  {
    var g := f + [b];
    assert g[..|f|] == f && g[..|f| + 1] == g;
    forall k | 0 <= k < |g| ensures (ids + [NextId(msgid, b)])[k] == Unwrapped(g[..k + 1]).0 {
      if k < |f| { assert g[..k + 1] == f[..k + 1]; }
    }
  }

  /** In every run, whatever the clock reads, two calls given the same message id have at
      least `d` calls from one to the other. */
  ghost predicate IdsApart(d: int) {
    forall s0, steps, i: int, j: int {:trigger Run(s0, steps).ids[i], Run(s0, steps).ids[j]} ::
      Initial(s0) && 0 <= i < j < |Run(s0, steps).ids| && Run(s0, steps).ids[i] == Run(s0, steps).ids[j] ==> j - i >= d
  }

  lemma RunIdsApart(s0: State, steps: seq<Step>, i: nat, j: nat)
    requires Initial(s0) && i < j < |Run(s0, steps).ids| && Run(s0, steps).ids[i] == Run(s0, steps).ids[j]
    ensures j - i >= REUSE
  {
    RunIds(s0, steps);
    SameIdFarApart(Flags(s0, steps), i + 1, j + 1);
  }

  /** One call a second. */
  function Ticking(n: nat): (r: seq<Step>)
    ensures |r| == n
  {
    seq(n, k => Report([], 0, [], SECOND + k))
  }

  /** The ids are even until they have to start over, then odd. */
  function TickId(n: nat): int
    requires 1 <= n <= 2 * REUSE
  {
    if n < REUSE then 2 * n else if n < 2 * REUSE then 2 * (n - REUSE) + 1 else 1
  }

  lemma {:induction false} TickingIds(n: nat)
    requires 1 <= n <= 2 * REUSE
    ensures var s := Run(Unused(5000), Ticking(n));
      && s.enabled && s.time == SECOND + n - 1 && s.msgid == TickId(n) && |s.ids| == n && s.ids[n - 1] == TickId(n)
      && (n >= REUSE ==> s.ids[REUSE - 1] == 1)
  {
    var steps := Ticking(n);
    assert steps[..n - 1] == Ticking(n - 1) && steps[n - 1] == Report([], 0, [], SECOND + n - 1);
    if n == 1 {
      assert Run(Unused(5000), Ticking(0)) == Unused(5000);
    } else {
      TickingIds(n - 1);
    }
  }

  /** 2^30 is exactly the distance that is guaranteed. */
  lemma IdsApartIff(d: int)
    ensures IdsApart(d) <==> d <= REUSE
  {
    if d <= REUSE {
      forall s0, steps, i: int, j: int | Initial(s0) && 0 <= i < j < |Run(s0, steps).ids| && Run(s0, steps).ids[i] == Run(s0, steps).ids[j]
        ensures j - i >= d
      {
        RunIdsApart(s0, steps, i, j);
      }
    } else {
      TickingIds(2 * REUSE);
      var s0, steps := Unused(5000), Ticking(2 * REUSE);
      hide Run;
      assert Initial(s0) && Run(s0, steps).ids[REUSE - 1] == Run(s0, steps).ids[2 * REUSE - 1];
    }
  }

  // ---------------------------------------------------------------- the client object

  /** What is left when one report has been taken and some have been queued. */
  lemma TurnLeaves(all: seq<Sent>, sent: seq<Sent>, before: seq<Sent>, queued: seq<Sent>)
    requires all == sent + before
    ensures sent == all[..|sent|] && forall k | 0 <= k <= |before + queued| :: (before + queued)[k..] == (all + queued)[|sent| + k..]
  {
    assert all + queued == sent + (before + queued);
  }

  class HeraclesClient {
    var enabled: bool
    var size: int
    var queueLimit: nat
    var msgid: int
    var time: int
    var slot: seq<Event>
    const submit: EQueue<Sent>

    constructor (size: int, queueLimit: nat)
      requires size > 0
      ensures enabled && this.size == size && this.queueLimit == queueLimit
      ensures msgid == 0 && time == 0 && slot == [] && submit.items == [] && fresh(submit)
    {
      enabled, this.size, this.queueLimit := true, size, queueLimit;
      msgid, time, slot := 0, 0, [];
      submit := new EQueue();
    }

    /** The state as the specification sees it, with histories that begin here. */
    ghost function View(): State
      reads this
    {
      State(enabled, size, msgid, time, slot, [], [], [])
    }

    method ReportEvent(metric: bytes, value: int, tag: bytes, now: int)
      requires SlotFits(View())
      modifies this, submit
      ensures var r := OnReport(old(View()), metric, value, tag, now);
        View() == r.(queued := [], log := [], ids := []) && submit.items == old(submit.items) + r.queued
      ensures queueLimit == old(queueLimit)
    {
      if !enabled {
        return;
      }
      msgid := msgid + 1;
      var id := msgid;
      if |slot| >= size || now != time {
        assert |slot| <= size;
        if slot != [] {
          submit.Push(Sent(time, slot));
          slot := [];
        }
      }
      if now != time {
        time := now;
        if msgid >= INT32_MAX {
          msgid := 0;
        }
        msgid := msgid + 1;
        id := msgid;
      }
      if metric != [] {
        slot := slot + [Event(id, metric, tag, value)];
      }
    }

    /** One turn of the submitting thread: send the oldest report, or push out what has been
        collected; then drop the oldest reports beyond the limit. */
    method RunOnce(start: int, later: int) returns (sent: seq<Sent>, ghost queued: seq<Sent>, ghost dropped: nat)
      requires SlotFits(View())
      modifies this, submit
      ensures |sent| <= 1 && (sent == [] <==> old(submit.items) == [])
      ensures queued == (if sent == [] || later != start then OnReport(old(View()), [], 0, [], later).queued else [])
      ensures dropped <= |old(submit.items) + queued| - |sent|
      ensures submit.items == (old(submit.items) + queued)[|sent| + dropped..]
      ensures dropped > 0 ==> sent != [] && queueLimit != 0 && |submit.items| == queueLimit
      ensures sent != [] && queueLimit != 0 ==> |submit.items| <= queueLimit
      ensures sent == old(submit.items)[..|sent|]
    {
      hide OnReport;
      sent := submit.Pop();
      queued, dropped := [], 0;
      if sent == [] {
        ReportEvent([], 0, [], later);
        queued := submit.items;
        return;
      }
      ghost var before := submit.items;
      if later != start {
        ReportEvent([], 0, [], later);
        queued := submit.items[|before|..];
        assert submit.items == before + queued;
      }
      TurnLeaves(old(submit.items), sent, before, queued);
      assert submit.items == (before + queued)[0..];
      if queueLimit != 0 && |submit.items| > queueLimit {
        dropped := submit.ShrinkFront(queueLimit);
        assert submit.items == (before + queued)[dropped..];
      }
    }
  }
}
