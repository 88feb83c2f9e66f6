/** The batch runner: it pops a batch of tasks, starts a thread for each and joins them all.
    Starting a thread waits while the limit is reached, on a condition nobody ever notifies,
    so a wait that begins never ends. */
module TinyTask {
  import opened Bytes
  import opened Queue

  /** `spawn` limits a batch, `limit` the threads. `batch` are popped tasks without a thread
      yet, `live` the threads not yet joined; `stuck` is set when a wait has begun. `writing`
      is the second write of a change of size that has made its first. */
  datatype State = State(spawn: nat, limit: nat, tasks: seq<int>, batch: seq<int>, live: seq<int>, stuck: bool, writing: Option<nat>)

  datatype Step = Push(task: int) | Pop | Add | Join | Modify(n: nat) | Finish

  /** The constructor takes the configured size as an 8-bit number. */
  function Narrow8(n: int): nat { n % 256 }

  function Start(configured: int): State {
    State(Narrow8(configured), Narrow8(configured), [], [], [], false, None)
  }

  predicate Enabled(s: State, a: Step) {
    match a
    case Push(_) => true
    case Pop => !s.stuck && s.batch == [] && s.live == [] && s.tasks != []
    case Add => !s.stuck && s.batch != []
    case Join => !s.stuck && s.batch == [] && s.live != []
    case Modify(_) => s.writing.None?
    case Finish => s.writing.Some?
  }

  /** A change of size is two writes without a lock: `Modify` makes the first, `Finish` the
      second. A size of zero or the size it is already changes nothing. */
  function Next(s: State, a: Step): State {
    match a
    case Push(t) => s.(tasks := s.tasks + [t])
    case Pop => var n := BatchCount(s.spawn, |s.tasks|); s.(tasks := s.tasks[n..], batch := s.tasks[..n])
    case Add =>
      if s.batch == [] then s
      else if |s.live| >= s.limit then s.(stuck := true)
      else s.(batch := s.batch[1..], live := s.live + [s.batch[0]])
    case Join => s.(live := [])
    case Modify(n) => if n == 0 || n == s.spawn then s else s.(spawn := n, writing := Some(n))
    case Finish => if s.writing.None? then s else s.(limit := s.writing.value, writing := None)
  }

  function Run(s0: State, steps: seq<Step>): State {
    if steps == [] then s0 else Next(Run(s0, steps[..|steps| - 1]), steps[|steps| - 1])
  }

  predicate Legal(s0: State, steps: seq<Step>) {
    steps != [] ==>
      var init := steps[..|steps| - 1];
      Legal(s0, init) && Enabled(Run(s0, init), steps[|steps| - 1])
  }

  /** The sizes asked for in a run, in order. */
  function Asked(steps: seq<Step>): seq<nat> {
    if steps == [] then []
    else Asked(steps[..|steps| - 1]) + match steps[|steps| - 1] { case Modify(n) => [n] case _ => [] }
  }

  /** No run of a runner configured like this, in which no other sizes are asked for than
      these, in this order, ever waits for a thread slot. */
  ghost predicate NeverStuck(configured: int, sizes: seq<nat>) {
    forall steps | Legal(Start(configured), steps) && Asked(steps) <= sizes :: !Run(Start(configured), steps).stuck
  }

  // ------------------------------------------------------------------ left alone

  /** The sizes asked for leave the runner as it was constructed. */
  predicate NoChange(configured: int, sizes: seq<nat>) {
    forall i | 0 <= i < |sizes| :: sizes[i] == 0 || sizes[i] == Narrow8(configured)
  }

  /** Every batch fits the limit together with the threads that are still there. */
  ghost predicate Fits(s: State, limit: nat) {
    s.spawn == s.limit == limit && s.writing.None? && !s.stuck && |s.batch| + |s.live| <= limit
  }

  lemma {:induction false} FitsRun(configured: int, sizes: seq<nat>, steps: seq<Step>)
    requires Narrow8(configured) >= 1 && NoChange(configured, sizes)
    requires Legal(Start(configured), steps) && Asked(steps) <= sizes
    ensures Fits(Run(Start(configured), steps), Narrow8(configured))
  {
    if steps != [] {
      var init, a := steps[..|steps| - 1], steps[|steps| - 1];
      FitsRun(configured, sizes, init);
      if a.Modify? { assert Asked(steps)[|Asked(init)|] == a.n; }
    }
  }

  // ------------------------------------------------------------------ runs that wait

  lemma Extend(s0: State, before: seq<Step>, s: State, a: Step) returns (run: seq<Step>)
    requires Legal(s0, before) && Run(s0, before) == s && Enabled(s, a)
    ensures Legal(s0, run) && Run(s0, run) == Next(s, a)
    ensures Asked(run) == Asked(before) + match a { case Modify(n) => [n] case _ => [] }
  {
    run := before + [a];
    assert run[..|before|] == before;
  }

  function Tasks(k: nat): (r: seq<int>)
    ensures |r| == k
  {
    seq(k, i => i)
  }

  lemma {:induction false} PushMany(s0: State, before: seq<Step>, s: State, k: nat) returns (run: seq<Step>)
    requires Legal(s0, before) && Run(s0, before) == s && s.tasks == []
    ensures Legal(s0, run) && Run(s0, run) == s.(tasks := Tasks(k)) && Asked(run) == Asked(before)
  {
    if k == 0 {
      run := before;
      assert Tasks(0) == [];
    } else {
      run := PushMany(s0, before, s, k - 1);
      run := Extend(s0, run, s.(tasks := Tasks(k - 1)), Push(k - 1));
      assert Tasks(k) == Tasks(k - 1) + [k - 1];
    }
  }

  lemma {:induction false} AddMany(s0: State, before: seq<Step>, s: State, k: nat) returns (run: seq<Step>)
    requires Legal(s0, before) && Run(s0, before) == s && !s.stuck && s.live == []
    requires k <= |s.batch| && k <= s.limit
    ensures Legal(s0, run) && Run(s0, run) == s.(batch := s.batch[k..], live := s.batch[..k]) && Asked(run) == Asked(before)
  {
    if k == 0 {
      run := before;
      assert s.batch[0..] == s.batch;
    } else {
      run := AddMany(s0, before, s, k - 1);
      var t := s.(batch := s.batch[k - 1..], live := s.batch[..k - 1]);
      run := Extend(s0, run, t, Add);
      assert t.batch[1..] == s.batch[k..] && s.batch[..k] == t.live + [t.batch[0]];
    }
  }

  /** A batch with more tasks than threads are allowed is never started. */
  lemma LargeBatchSticks(s0: State, before: seq<Step>, s: State) returns (run: seq<Step>)
    requires Legal(s0, before) && Run(s0, before) == s && !s.stuck && s.live == [] && |s.batch| > s.limit
    ensures Legal(s0, run) && Run(s0, run).stuck && Asked(run) == Asked(before)
  {
    run := AddMany(s0, before, s, s.limit);
    hide Run; hide Legal; hide Asked;
    run := Extend(s0, run, s.(batch := s.batch[s.limit..], live := s.batch[..s.limit]), Add);
  }

  /** Pop a batch of `k` tasks. */
  lemma PopMany(s0: State, before: seq<Step>, s: State, k: nat) returns (run: seq<Step>)
    requires Legal(s0, before) && Run(s0, before) == s && !s.stuck && s.live == [] && s.batch == [] && s.tasks == []
    requires 1 <= k && (k == 1 || k <= s.spawn)
    ensures Legal(s0, run) && Run(s0, run) == s.(batch := Tasks(k)) && Asked(run) == Asked(before)
  {
    run := PushMany(s0, before, s, k);
    hide Run; hide Legal; hide Asked; hide Tasks;
    run := Extend(s0, run, s.(tasks := Tasks(k)), Pop);
    assert Tasks(k)[..k] == Tasks(k) && Tasks(k)[k..] == [];
  }

  /** Configured as a multiple of 256 the limit is zero: a batch still has one task. */
  lemma ZeroSticks(configured: int, sizes: seq<nat>)
    requires Narrow8(configured) == 0
    ensures !NeverStuck(configured, sizes)
  {
    var s0 := Start(configured);
    var none: seq<Step> := [];
    var run := PopMany(s0, none, s0, 1);
    run := LargeBatchSticks(s0, run, s0.(batch := Tasks(1)));
  }

  /** Raised: a batch popped between the two writes is larger than the threads allowed. */
  lemma RaisedSticks(s0: State, before: seq<Step>, s: State, n: nat) returns (run: seq<Step>)
    requires Legal(s0, before) && Run(s0, before) == s && Idle(s) && s.limit >= 1 && n > s.limit
    ensures Legal(s0, run) && Run(s0, run).stuck && Asked(run) == Asked(before) + [n]
  {
    run := Extend(s0, before, s, Modify(n));
    hide Run; hide Legal; hide Asked;
    var t := s.(spawn := n, writing := Some(n));
    run := PopMany(s0, run, t, s.limit + 1);
    run := LargeBatchSticks(s0, run, t.(batch := Tasks(s.limit + 1)));
  }

  /** Lowered: a batch popped before the change is larger than the threads allowed after it. */
  lemma LoweredSticks(s0: State, before: seq<Step>, s: State, n: nat) returns (run: seq<Step>)
    requires Legal(s0, before) && Run(s0, before) == s && Idle(s) && 1 <= n < s.limit
    ensures Legal(s0, run) && Run(s0, run).stuck && Asked(run) == Asked(before) + [n]
  {
    run := PopMany(s0, before, s, n + 1);
    hide Run; hide Legal; hide Asked;
    var t := s.(batch := Tasks(n + 1));
    run := Extend(s0, run, t, Modify(n));
    t := t.(spawn := n, writing := Some(n));
    run := Extend(s0, run, t, Finish);
    run := LargeBatchSticks(s0, run, t.(limit := n, writing := None));
  }

  ghost predicate Idle(s: State) {
    s.spawn == s.limit && s.tasks == [] && s.batch == [] && s.live == [] && !s.stuck && s.writing.None?
  }

  /** Asking for sizes that change nothing. */
  lemma {:induction false} AskInVain(configured: int, sizes: seq<nat>) returns (run: seq<Step>)
    requires NoChange(configured, sizes)
    ensures Legal(Start(configured), run) && Run(Start(configured), run) == Start(configured) && Asked(run) == sizes
  {
    if sizes == [] {
      run := [];
    } else {
      var n := |sizes| - 1;
      run := AskInVain(configured, sizes[..n]);
      run := Extend(Start(configured), run, Start(configured), Modify(sizes[n]));
      assert sizes[..n] + [sizes[n]] == sizes;
    }
  }

  /** The first size that changes something makes some run wait for ever. */
  lemma ChangeSticks(configured: int, sizes: seq<nat>, i: nat)
    requires Narrow8(configured) >= 1 && i < |sizes| && NoChange(configured, sizes[..i])
    requires sizes[i] != 0 && sizes[i] != Narrow8(configured)
    ensures !NeverStuck(configured, sizes)
  {
    var s0 := Start(configured);
    var run := AskInVain(configured, sizes[..i]);
    hide Run; hide Legal; hide Asked;
    if sizes[i] > Narrow8(configured) {
      run := RaisedSticks(s0, run, s0, sizes[i]);
    } else {
      run := LoweredSticks(s0, run, s0, sizes[i]);
    }
    assert sizes[..i] + [sizes[i]] <= sizes;
    assert Legal(s0, run) && Asked(run) <= sizes && Run(s0, run).stuck;
  }

  /** A runner configured with some size never waits for a thread slot, whatever tasks arrive
      and whenever sizes are asked for, exactly when the size is not a multiple of 256 and
      nothing but its lower 8 bits (or zero, which is ignored) is ever asked for. */
  lemma NeverStuckIff(configured: int, sizes: seq<nat>)
    requires configured > 0
    ensures NeverStuck(configured, sizes) <==> configured % 256 != 0 && NoChange(configured, sizes)
  {
    if configured % 256 == 0 {
      ZeroSticks(configured, sizes);
    } else if NoChange(configured, sizes) {
      forall steps | Legal(Start(configured), steps) && Asked(steps) <= sizes ensures !Run(Start(configured), steps).stuck {
        FitsRun(configured, sizes, steps);
      }
    } else {
      var i := FirstChange(configured, sizes);
      ChangeSticks(configured, sizes, i);
    }
  }

  lemma {:induction false} FirstChange(configured: int, sizes: seq<nat>) returns (i: nat)
    requires !NoChange(configured, sizes)
    ensures i < |sizes| && NoChange(configured, sizes[..i]) && sizes[i] != 0 && sizes[i] != Narrow8(configured)
  {
    var n := |sizes| - 1;
    if NoChange(configured, sizes[..n]) {
      i := n;
    } else {
      i := FirstChange(configured, sizes[..n]);
      assert sizes[..n][..i] == sizes[..i];
    }
  }

  // ------------------------------------------------------------------ the runner object

  class ThreadMng {
    var limit: nat
    var threads: seq<int>

    constructor (limit: nat)
      ensures this.limit == limit && threads == []
    {
      this.limit, threads := limit, [];
    }

    /** Start a thread; `added` is false when the call would wait for ever. */
    method AddTask(task: int) returns (added: bool)
      modifies this
      ensures limit == old(limit) && added == (|old(threads)| < limit)
      ensures threads == if added then old(threads) + [task] else old(threads)
    {
      if |threads| >= limit {
        return false;
      }
      threads := threads + [task];
      return true;
    }

    method JoinAll()
      modifies this
      ensures limit == old(limit) && threads == []
    {
      threads := [];
    }

    method ModifySpawnSize(n: nat)
      modifies this`limit
      ensures limit == if n == 0 then old(limit) else n
    {
      if n == 0 {
        return;
      }
      if n != limit {
        limit := n;
      }
    }
  }

  class Runner {
    var spawn: nat
    const tasks: EQueue<int>
    const mng: ThreadMng

    /** Between two turns. */
    ghost predicate Valid()
      reads this, mng
    {
      mng.limit == spawn && mng.threads == []
    }

    constructor (configured: int)
      requires configured > 0
      ensures Valid() && spawn == Narrow8(configured) && tasks.items == [] && fresh(tasks) && fresh(mng)
    {
      spawn := Narrow8(configured);
      tasks := new EQueue();
      mng := new ThreadMng(Narrow8(configured));
    }

    method ModifySpawnSize(n: nat)
      requires Valid()
      modifies this, mng
      ensures Valid() && spawn == if n == 0 then old(spawn) else n
    {
      if n == 0 {
        return;
      }
      if n != spawn {
        spawn := n;
        mng.ModifySpawnSize(n);
      }
    }

    /** One turn with nobody changing the size: every task of the batch gets its thread without
        waiting, oldest first, and all threads are joined. Only a limit of zero waits. */
    method RunOnce() returns (started: seq<int>, waits: bool)
      requires Valid()
      modifies tasks, mng
      ensures waits <==> spawn == 0 && old(tasks.items) != []
      ensures !waits ==> Valid() && old(tasks.items) == started + tasks.items && |started| == BatchCount(spawn, |old(tasks.items)|)
    {
      waits := false;
      var batch := tasks.PopBatch(spawn);
      started := batch;
      for i := 0 to |batch|
        invariant mng.limit == spawn && mng.threads == batch[..i]
        invariant tasks.items == old(tasks.items)[|batch|..]
        invariant spawn == 0 ==> i == 0
      {
        var added := mng.AddTask(batch[i]);
        if !added {
          waits := true;
          return;
        }
      }
      mng.JoinAll();
    }
  }
}
