/** The worker threads of an executor: how many are wanted, and how the pool gets there. */
module ThreadPool {
  import opened Bytes

  // ------------------------------------------------------------------ target

  /** `executor_threads_adjust`: one more thread for every `step` waiting requests. */
  function Target(base: int, hard: int, step: int, waiting: nat): int
    requires step > 0
  {
    var wanted := if waiting > step then base + waiting / step else base;
    if wanted > hard then hard else wanted
  }

  lemma QuotientMonotone(a: nat, b: nat, n: int)
    requires n > 0 && a <= b
    ensures 0 <= a / n <= b / n
  {
    DivAdjoint(0, a, n);
    DivAdjoint(a / n, a, n);
    DivAdjoint(a / n, b, n);
  }

  /** The target lies between the base and the hard limit for every queue length exactly when
      the limits are in that order, and it grows with the queue. */
  lemma TargetBounds(base: int, hard: int, step: int)
    requires step > 0
    ensures (forall w: nat :: base <= Target(base, hard, step, w) <= hard) <==> base <= hard
    ensures forall v: nat, w: nat | v <= w :: Target(base, hard, step, v) <= Target(base, hard, step, w)
  {
    forall v: nat, w: nat | v <= w ensures Target(base, hard, step, v) <= Target(base, hard, step, w) {
      QuotientMonotone(v, w, step);
      QuotientMonotone(0, v, step);
    }
    if base <= hard {
      forall w: nat ensures base <= Target(base, hard, step, w) <= hard { QuotientMonotone(0, w, step); }
    } else {
      assert !(base <= Target(base, hard, step, 0));
    }
  }

  /** One thread more than the base for every full `step` of waiting requests once more than one
      step waits, as far as the hard limit allows. */
  predicate RightTarget(target: int, base: int, hard: int, step: int, waiting: nat) {
    if waiting <= step then target == base
    else
      || (target == hard && (hard - base) * step <= waiting)
      || (target <= hard && (target - base) * step <= waiting < (target - base + 1) * step)
  }

  lemma TargetExact(base: int, hard: int, step: int, waiting: nat)
    requires step > 0 && base <= hard
    ensures RightTarget(Target(base, hard, step, waiting), base, hard, step, waiting)
  {
    var q := waiting / step;
    DivAdjoint(q, waiting, step);
    DivAdjoint(q + 1, waiting, step);
    DivAdjoint(hard - base, waiting, step);
  }

  /** Nothing else meets it. */
  lemma RightTargetUnique(t: int, u: int, base: int, hard: int, step: int, waiting: nat)
    requires step > 0 && RightTarget(t, base, hard, step, waiting) && RightTarget(u, base, hard, step, waiting)
    ensures t == u
  {
    if waiting > step {
      DivAdjoint(t - base, waiting, step);
      DivAdjoint(t - base + 1, waiting, step);
      DivAdjoint(u - base, waiting, step);
      DivAdjoint(u - base + 1, waiting, step);
      DivAdjoint(hard - base, waiting, step);
    }
  }

  // ------------------------------------------------------------------ pool

  const MAX_TRY: nat := 50

  ghost predicate Numbered(workers: seq<nat>, made: nat) {
    && (forall i | 0 <= i < |workers| :: workers[i] < made)
    && (forall i, j | 0 <= i < j < |workers| :: workers[i] != workers[j])
  }

  lemma RemoveOne(workers: seq<nat>, i: nat, made: nat)
    requires Numbered(workers, made) && i < |workers|
    ensures var r := workers[..i] + workers[i + 1..];
      Numbered(r, made) && multiset(r) == multiset(workers) - multiset{workers[i]} && |r| == |workers| - 1
  {
    var r := workers[..i] + workers[i + 1..];
    assert workers == workers[..i] + [workers[i]] + workers[i + 1..];
    assert forall j | 0 <= j < |r| :: r[j] == workers[if j < i then j else j + 1];
  }

  /** Threads are known by number. Whether a thread that was told to stop is dead when the
      wait for it ends is not known beforehand. */
  class Pool {
    var poolSize: int
    var workers: seq<nat>
    var made: nat

    ghost predicate Valid()
      reads this
    {
      poolSize == |workers| && Numbered(workers, made)
    }

    /** Start `size` workers in an empty pool; `works` says how many threads can be created. */
    constructor (size: nat, works: nat)
      ensures |workers| == if size <= works then size else works
      ensures Valid() <==> size <= works
      ensures poolSize == size
    {
      poolSize, workers, made := size, [], 0;
      new;
      while made < size && made < works
        invariant |workers| == made <= size && made <= works && poolSize == size
        invariant forall i | 0 <= i < |workers| :: workers[i] == i
      {
        workers := workers + [made];
        made := made + 1;
      }
    }

    method SpawnTask(num: nat, works: nat) returns (ret: int)
      requires Valid()
      modifies this
      ensures Valid()
      ensures ret == if num <= works then 0 else -1
      ensures |workers| == |old(workers)| + if num <= works then num else works
      ensures workers[..|old(workers)|] == old(workers)
    {
      var i := 0;
      while i < num
        invariant i <= num && i <= works && Valid()
        invariant |workers| == |old(workers)| + i && workers[..|old(workers)|] == old(workers)
      {
        if i >= works {
          return -1;
        }
        workers := workers + [made];
        made := made + 1;
        poolSize := poolSize + 1;
        i := i + 1;
      }
      return 0;
    }

    method GracefulStop(worker: nat, dies: bool) returns (ok: bool)
      requires Valid()
      modifies this
      ensures Valid() && made == old(made)
      ensures ok == (worker in old(workers) && dies)
      ensures if ok then multiset(workers) == multiset(old(workers)) - multiset{worker} && |workers| == |old(workers)| - 1
              else workers == old(workers)
    {
      if worker !in workers {
        return false;
      }
      if !dies {
        return false;
      }
      var i :| 0 <= i < |workers| && workers[i] == worker;
      RemoveOne(workers, i, made);
      poolSize := poolSize - 1;
      workers := workers[..i] + workers[i + 1..];
      return true;
    }

    /** Stop up to `num` workers, giving up after fifty attempts. `dies` answers attempt by
        attempt whether the thread was dead in time. */
    method ReduceTask(num: nat, dies: nat -> bool) returns (ret: int)
      requires Valid() && num >= 1
      modifies this
      ensures Valid()
      ensures |old(workers)| - |workers| <= num && |old(workers)| - |workers| <= MAX_TRY && |workers| <= |old(workers)|
      ensures multiset(workers) <= multiset(old(workers))
      ensures ret == if |old(workers)| - |workers| == num then 0 else -1
      ensures (forall k :: dies(k)) ==> |old(workers)| - |workers| == Least(num, |old(workers)|)
    {
      var maxTry := MAX_TRY;
      var currSize := |workers|;
      while workers != [] && maxTry > 0 && currSize - |workers| < num
        invariant Valid() && 0 <= maxTry <= MAX_TRY
        invariant 0 <= currSize - |workers| <= num && currSize - |workers| <= MAX_TRY - maxTry
        invariant multiset(workers) <= multiset(old(workers))
        invariant (forall k :: dies(k)) ==> currSize - |workers| == MAX_TRY - maxTry
        decreases maxTry
      {
        assert workers[0] in workers;
        var _ := GracefulStop(workers[0], dies(maxTry));
        maxTry := maxTry - 1;
      }
      return if currSize - |workers| >= num then 0 else -1;
    }

    /** Zero means that the pool has exactly the number of workers asked for. */
    method ResizeThreadPool(num: nat, works: nat, dies: nat -> bool) returns (ret: int)
      requires Valid()
      modifies this
      ensures Valid()
      ensures ret == 0 <==> |workers| == num
      ensures |workers| >= |old(workers)| - MAX_TRY
      ensures (forall k :: dies(k)) && num <= |old(workers)| + works ==> |workers| == Resized(|old(workers)|, num)
    {
      var diff := num - |workers|;
      if diff == 0 {
        return 0;
      } else if diff > 0 {
        ret := SpawnTask(diff, works);
      } else {
        ret := ReduceTask(-diff, dies);
      }
    }

    /** Stop every worker. */
    method GracefulStopTasks()
      requires Valid()
      modifies this
      ensures Valid() && workers == [] && poolSize == 0
    {
      while workers != []
        invariant Valid()
        decreases |workers|
      {
        poolSize := poolSize - 1;
        workers := workers[1..];
      }
    }
  }

  /** One tick of the timer: compute the target step by step and resize the pool to it. */
  method AdjustThreads(pool: Pool, base: int, hard: int, step: int, waiting: nat, works: nat, dies: nat -> bool) returns (target: nat)
    requires pool.Valid() && step > 0 && 0 < base <= hard
    modifies pool
    ensures pool.Valid() && target == Target(base, hard, step, waiting) && base <= target <= hard
    ensures RightTarget(target, base, hard, step, waiting)
    ensures (forall k :: dies(k)) && target <= |old(pool.workers)| + works ==> |pool.workers| == Resized(|old(pool.workers)|, target)
  {
    TargetBounds(base, hard, step);
    TargetExact(base, hard, step, waiting);
    hide RightTarget;
    var wanted := base;
    if waiting > step {
      wanted := wanted + waiting / step;
    }
    if wanted > hard {
      wanted := hard;
    }
    assert wanted == Target(base, hard, step, waiting);
    target := wanted;
    var _ := pool.ResizeThreadPool(target, works, dies);
  }

  function Least(num: nat, size: nat): (r: nat) {
    var n := if num < MAX_TRY then num else MAX_TRY;
    if n < size then n else size
  }

  // ------------------------------------------------------------------ convergence

  /** The size after one adjustment whose threads all start and stop in time. */
  function Resized(size: nat, num: nat): nat { if size <= num + MAX_TRY then num else size - MAX_TRY }

  function Adjusted(size: nat, num: nat, ticks: nat): nat {
    if ticks == 0 then size else Resized(Adjusted(size, num, ticks - 1), num)
  }

  /** With a steady target the pool reaches it, exactly when the timer has ticked once per
      fifty surplus threads, and at once when it has to grow. */
  lemma {:induction false} Converges(size: nat, num: nat, ticks: nat)
    ensures Adjusted(size, num, ticks) ==
      if ticks == 0 then size else if size <= num + MAX_TRY * ticks then num else size - MAX_TRY * ticks
  {
    if ticks > 0 { Converges(size, num, ticks - 1); }
  }
}
