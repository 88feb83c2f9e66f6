/** Which reports get in and which slots go out, told from times alone: the age check, what an
    insertion adds to the accepted events, and what a flush moves. */
module Acceptance {
  import opened Bytes
  import opened EventStats
  import opened SlotMachine

  /** A report of this service that is not older than the linger time. */
  predicate InTime(service: bytes, s: State, r: Report) { r.service == service && s.now <= r.ts + s.linger }

  /** A report in time becomes pending, any other leaves everything as it was. */
  lemma CheckExact(service: bytes, s: State, r: Report)
    requires s.step > 0
    ensures Next(service, s, Check(r)) ==
      if InTime(service, s, r) then s.(checked := s.checked + [Pending(r, s.now, s.linger)]) else s
  {
  }

  // ------------------------------------------------------------- over runs

  /** At step `i` a report was checked in time; at step `j` that report was inserted, with the
      step width of that moment, and `e` is one of its events. */
  ghost predicate GotIn(service: bytes, s0: State, steps: seq<Step>, i: nat, j: nat, e: Stamped)
    requires s0.step > 0
  {
    && i < j < |steps| && steps[i].Check? && InTime(service, Run(service, s0, steps[..i]), steps[i].report)
    && steps[j] == Insert(|Run(service, s0, steps[..i]).checked|)
    && e.slot == NiceStep(Run(service, s0, steps[..j]).step, steps[i].report.ts) && e.ev in steps[i].report.data
  }

  lemma PrefixOfPrefix(steps: seq<Step>, n: nat, i: nat)
    requires i <= n <= |steps|
    ensures steps[..n][..i] == steps[..i]
  {
  }

  /** A pending report has been checked in time. */
  lemma {:induction false} CheckedFrom(service: bytes, s0: State, steps: seq<Step>, p: nat) returns (i: nat)
    requires Initial(s0) && p < |Run(service, s0, steps).checked|
    ensures i < |steps| && steps[i] == Check(Run(service, s0, steps).checked[p].report)
    ensures InTime(service, Run(service, s0, steps[..i]), steps[i].report) && |Run(service, s0, steps[..i]).checked| == p
  {
    var n := |steps| - 1;
    var init, a := steps[..n], steps[n];
    var s := Run(service, s0, init);
    if p < |s.checked| {
      i := CheckedFrom(service, s0, init, p);
      PrefixOfPrefix(steps, n, i);
    } else {
      i := n;
    }
  }

  /** A report checked in time stays among the pending ones, in its place. */
  lemma {:induction false} CheckedStays(service: bytes, s0: State, steps: seq<Step>, i: nat)
    requires Initial(s0) && i < |steps| && steps[i].Check? && InTime(service, Run(service, s0, steps[..i]), steps[i].report)
    ensures var p := |Run(service, s0, steps[..i]).checked|;
      p < |Run(service, s0, steps).checked| && Run(service, s0, steps).checked[p].report == steps[i].report
  {
    var n := |steps| - 1;
    var s := Run(service, s0, steps[..n]);
    assert Run(service, s0, steps) == Next(service, s, steps[n]);
    hide Run; hide Next; hide Initial;
    if i < n {
      PrefixOfPrefix(steps, n, i);
      CheckedStays(service, s0, steps[..n], i);
      CheckedKept(service, s, steps[n]);
    } else {
      CheckExact(service, s, steps[n].report);
    }
  }

  lemma CheckedKept(service: bytes, s: State, a: Step)
    requires s.step > 0
    ensures s.checked <= Next(service, s, a).checked
  {
  }

  lemma InsertAdds(service: bytes, s: State, p: nat, delay: nat, steady: bool, e: Stamped)
    requires s.step > 0 && Enabled(s, Insert(p), delay, steady)
    ensures e in Next(service, s, Insert(p)).accepted <==>
      e in s.accepted || (e.slot == NiceStep(s.step, s.checked[p].report.ts) && e.ev in s.checked[p].report.data)
  {
    var r, slot := s.checked[p].report, NiceStep(s.step, s.checked[p].report.ts);
    var more := Stamp(slot, r.data);
    if e.slot == slot && e.ev in r.data {
      var k :| 0 <= k < |r.data| && r.data[k] == e.ev;
      assert more[k] == e;
    }
    if e in more { var k :| 0 <= k < |more| && more[k] == e; }
  }

  lemma OthersKeep(service: bytes, s: State, a: Step)
    requires s.step > 0 && !a.Insert?
    ensures Next(service, s, a).accepted == s.accepted
  {
  }

  lemma GotInEarlier(service: bytes, s0: State, steps: seq<Step>, n: nat, i: nat, j: nat, e: Stamped)
    requires s0.step > 0 && n <= |steps| && j < n
    ensures GotIn(service, s0, steps[..n], i, j, e) <==> GotIn(service, s0, steps, i, j, e)
  {
    if i < j {
      PrefixOfPrefix(steps, n, i);
      PrefixOfPrefix(steps, n, j);
    }
  }

  ghost predicate Entered(service: bytes, s0: State, steps: seq<Step>, e: Stamped)
    requires s0.step > 0
  {
    exists i: nat, j: nat :: GotIn(service, s0, steps, i, j, e)
  }

  lemma EnteredLast(service: bytes, s0: State, steps: seq<Step>, p: nat, e: Stamped)
    requires Initial(s0) && steps != [] && steps[|steps| - 1] == Insert(p) && p < |Run(service, s0, steps[..|steps| - 1]).checked|
    ensures var n := |steps| - 1;
      var s := Run(service, s0, steps[..n]);
      (exists i: nat :: GotIn(service, s0, steps, i, n, e))
      <==> e.slot == NiceStep(s.step, s.checked[p].report.ts) && e.ev in s.checked[p].report.data
  {
    var n := |steps| - 1;
    var init := steps[..n];
    var s := Run(service, s0, init);
    var h := CheckedFrom(service, s0, init, p);
    PrefixOfPrefix(steps, n, h);
    if e.slot == NiceStep(s.step, s.checked[p].report.ts) && e.ev in s.checked[p].report.data {
      assert GotIn(service, s0, steps, h, n, e);
    }
    forall i: nat | GotIn(service, s0, steps, i, n, e) ensures e.slot == NiceStep(s.step, s.checked[p].report.ts) && e.ev in s.checked[p].report.data {
      PrefixOfPrefix(steps, n, i);
      CheckedStays(service, s0, init, i);
    }
  }

  lemma EnteredSnoc(service: bytes, s0: State, steps: seq<Step>, e: Stamped)
    requires s0.step > 0 && steps != []
    ensures var n := |steps| - 1;
      Entered(service, s0, steps, e) <==> Entered(service, s0, steps[..n], e) || exists i: nat :: GotIn(service, s0, steps, i, n, e)
  {
    var n := |steps| - 1;
    if Entered(service, s0, steps, e) {
      var i: nat, j: nat :| GotIn(service, s0, steps, i, j, e);
      if j < n { GotInEarlier(service, s0, steps, n, i, j, e); }
    }
    if Entered(service, s0, steps[..n], e) {
      var i: nat, j: nat :| GotIn(service, s0, steps[..n], i, j, e);
      GotInEarlier(service, s0, steps, n, i, j, e);
    }
  }

  /** In every run the accepted events are exactly those of the reports that were checked in time
      and then inserted, each under the slot of its time. */
  lemma {:induction false} AcceptedExactly(service: bytes, s0: State, steps: seq<Step>, delay: nat, steady: bool, e: Stamped)
    requires Initial(s0) && Legal(service, s0, steps, delay, steady)
    ensures e in Run(service, s0, steps).accepted <==> Entered(service, s0, steps, e)
  {
    if steps != [] {
      var n := |steps| - 1;
      var init, a := steps[..n], steps[n];
      var s := Run(service, s0, init);
      assert Run(service, s0, steps) == Next(service, s, a) && Enabled(s, a, delay, steady);
      AcceptedExactly(service, s0, init, delay, steady, e);
      EnteredSnoc(service, s0, steps, e);
      hide Run; hide Entered; hide Next;
      if a.Insert? {
        InsertAdds(service, s, a.i, delay, steady, e);
        EnteredLast(service, s0, steps, a.i, e);
      } else {
        OthersKeep(service, s, a);
        assert forall i: nat :: !GotIn(service, s0, steps, i, n, e);
      }
    }
  }

  // ------------------------------------------------------------- settings and clock

  datatype Settings = Settings(step: int, linger: int, aux: nat)

  /** The settings configured last, from the steps alone. */
  function Configured(first: Settings, steps: seq<Step>): Settings {
    if steps == [] then first
    else
      match steps[|steps| - 1]
      case Configure(step, linger, aux) => Settings(step, linger, aux)
      case _ => Configured(first, steps[..|steps| - 1])
  }

  /** The time that has passed. */
  function Elapsed(steps: seq<Step>): nat {
    if steps == [] then 0
    else Elapsed(steps[..|steps| - 1]) + match steps[|steps| - 1] { case Tick(d) => d case _ => 0 }
  }

  /** In every run the settings in force are those configured last, and the clock has advanced by
      its ticks. */
  lemma {:induction false} SettingsInForce(service: bytes, s0: State, steps: seq<Step>, delay: nat, steady: bool)
    requires Initial(s0) && Legal(service, s0, steps, delay, steady)
    ensures var s := Run(service, s0, steps);
      Settings(s.step, s.linger, s.aux) == Configured(Settings(s0.step, s0.linger, s0.aux), steps) && s.now == s0.now + Elapsed(steps)
  {
    if steps != [] {
      var init, a := steps[..|steps| - 1], steps[|steps| - 1];
      SettingsInForce(service, s0, init, delay, steady);
      SettingsStep(service, Run(service, s0, init), a, delay, steady);
      hide Next; hide Enabled; hide Initial;
    }
  }

  lemma SettingsStep(service: bytes, s: State, a: Step, delay: nat, steady: bool)
    requires s.step > 0 && Enabled(s, a, delay, steady)
    ensures var r := Next(service, s, a);
      && Settings(r.step, r.linger, r.aux) == (match a
         case Configure(step, linger, aux) => Settings(step, linger, aux)
         case _ => Settings(s.step, s.linger, s.aux))
      && r.now == s.now + match a { case Tick(d) => d case _ => 0 }
  {
  }

  // ------------------------------------------------------------- flushing

  /** A flush moves exactly the slots whose time and linger have passed to the end of the queue,
      in order. */
  lemma FlushExact(service: bytes, s: State) returns (moved: seq<Slot>)
    requires s.step > 0 && Ascending(s.open)
    ensures var r := Next(service, s, Flush);
      && s.open == moved + r.open && r.queue == s.queue + moved && r.flushed == s.flushed + moved
      && (forall i | 0 <= i < |moved| :: moved[i].ts + s.linger < s.now)
      && (forall i | 0 <= i < |r.open| :: r.open[i].ts + s.linger >= s.now)
  {
    var n := Expired(s.open, s.Horizon());
    ExpiredExact(s.open, s.Horizon());
    moved := s.open[..n];
  }
}
