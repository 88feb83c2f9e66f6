/** Over whole runs: which values and how many records guarantee ordered answers. */
module OrderedRuns {
  import opened Bytes
  import opened StoreKey
  import opened Decimal
  import opened Groups
  import opened Aggregate
  import opened LineOrder
  import opened EventStats
  import opened SlotMachine
  import opened Index
  import opened Store
  import opened EventHandling
  import opened Lossless
  import opened EndToEnd
  import opened RecordKeys
  import opened Answers
  import opened Writers
  import opened Samples
  import opened Runs

  /** Whatever the handlers of a service do, with events of values from `lo` to `hi` and at most
      `n` records, every answer that has lines is ordered. */
  ghost predicate AlwaysOrdered(service: bytes, n: nat, lo: int, hi: int) {
    forall hs, rs: seq<Record>, cond, t |
      && Served(service, hs, rs) && AllTyped(rs) && AllValued(WritersOf(service, hs), lo, hi) && |rs| <= n
      && Askable(cond, t) && Visited(StoreAll([], rs), cond, t) != [] ::
      Ordered(Answer(StoreAll([], rs), cond, t))
  }

  // ------------------------------------------------------------- n handlers with one event each

  /** Different entities of ten digits. */
  function EntityName(i: nat): bytes { Dec(1_000_000_000 + i) }

  lemma EntityNames(i: nat, j: nat)
    requires i <= INT32_MAX && j <= INT32_MAX
    ensures ShortEntity(EntityName(i)) && (EntityName(i) == EntityName(j) <==> i == j)
  {
    TenDigits(STAMP_BASE - 1_000_000_000 - i);
    TenDigits(STAMP_BASE - 1_000_000_000 - j);
    DecOrder(1_000_000_000 + i, 1_000_000_000 + j);
  }

  function CrowdWriter(v: int, i: nat): Writer { Writer(EntityName(i), [TenSlot(EarlyEvent(v))], Alone(EarlyEvent(v))) }

  function Crowd(v: int, n: nat): (ws: seq<Writer>)
    ensures |ws| == n && forall i | 0 <= i < n :: ws[i] == CrowdWriter(v, i)
  {
    seq(n, i requires 0 <= i < n => CrowdWriter(v, i))
  }

  lemma CrowdSnoc(v: int, m: nat)
    ensures Crowd(v, m + 1) == Crowd(v, m) + [CrowdWriter(v, m)]
  {
  }

  lemma RecordsSnoc(service: bytes, ws: seq<Writer>, w: Writer)
    ensures RecordsOf(service, ws + [w]) == RecordsOf(service, ws) + AllRecords(service, w.entity, w.slots)
    ensures Events(ws + [w]) == Events(ws) + |w.accepted|
  {
    assert (ws + [w])[..|ws|] == ws;
  }

  lemma NoWriters(service: bytes, v: int)
    ensures RecordsOf(service, Crowd(v, 0)) == [] && Events(Crowd(v, 0)) == 0
  {
  }

  lemma CrowdMember(service: bytes, v: int, i: nat)
    requires IsInt32(v)
    ensures var w, r := CrowdWriter(v, i), SingleRecord(service, EntityName(i), 10, 1, EarlyEvent(v));
      && AllRecords(service, w.entity, w.slots) == [r] && |w.accepted| == 1
      && Contribution(r, AnyTime(service), MAX_TIME) == OfInfo(OneLine(v))
  {
    var w, e := CrowdWriter(v, i), EarlyEvent(v);
    OneSlotRecords(service, w.entity, TenSlot(e));
    SingleSlotRecords(service, w.entity, 10, 1, e);
    SingleContribution(service, w.entity, 10, 1, e);
  }

  lemma OneCopy(v: int)
    requires IsInt32(v)
    ensures Plus(ZERO, OfInfo(OneLine(v))) == CopiesAcc(v, 1)
  {
  }

  lemma CrowdStep(service: bytes, v: int, m: nat)
    requires IsInt32(v)
    ensures var r := SingleRecord(service, EntityName(m), 10, 1, EarlyEvent(v));
      && RecordsOf(service, Crowd(v, m + 1)) == RecordsOf(service, Crowd(v, m)) + [r] && Events(Crowd(v, m + 1)) == Events(Crowd(v, m)) + 1
      && ContributionOf(AnyTime(service), MAX_TIME)(r) == OfInfo(OneLine(v))
  {
    hide RecordsOf; hide Crowd; hide CrowdWriter; hide Events; hide SingleRecord; hide AllRecords; hide Contribution;
    CrowdSnoc(v, m);
    RecordsSnoc(service, Crowd(v, m), CrowdWriter(v, m));
    CrowdMember(service, v, m);
  }

  /** Their records add up to `n` copies of one line. */
  lemma {:induction false} CrowdRecords(service: bytes, v: int, n: nat)
    requires n >= 1 && IsInt32(v)
    ensures |RecordsOf(service, Crowd(v, n))| == n && Events(Crowd(v, n)) == n
    ensures Total(RecordsOf(service, Crowd(v, n)), ContributionOf(AnyTime(service), MAX_TIME)) == CopiesAcc(v, n)
  {
    var m, f := n - 1, ContributionOf(AnyTime(service), MAX_TIME);
    var before, r := RecordsOf(service, Crowd(v, m)), SingleRecord(service, EntityName(m), 10, 1, EarlyEvent(v));
    hide *;
    CrowdStep(service, v, m);
    TotalSnoc(before, r, f);
    if m == 0 {
      NoWriters(service, v);
      TotalEmpty(f);
      OneCopy(v);
    } else {
      CrowdRecords(service, v, m);
      CopiesSnoc(v, m);
    }
    assert Total(RecordsOf(service, Crowd(v, n)), f) == CopiesAcc(v, n);
  }

  lemma TotalEmpty(f: Record -> Acc)
    ensures Total([], f) == ZERO
  {
  }

  lemma CrowdGood(v: int, i: nat)
    requires IsInt32(v) && i <= INT32_MAX
    ensures GoodEvents(CrowdWriter(v, i)) && NoClash(CrowdWriter(v, i).accepted, Times(CrowdWriter(v, i).slots))
    ensures Valued(CrowdWriter(v, i).accepted, v, v)
  {
    var w := CrowdWriter(v, i);
    OnceSamples(Writer([], w.slots, w.accepted), v);
    EntityNames(i, i);
    SamplesStorable(w.accepted, w.entity);
    SamplesNoClash(w.accepted, Times(w.slots));
  }

  lemma CrowdApart(v: int, n: nat)
    requires n <= INT32_MAX
    ensures DistinctEntities(Crowd(v, n))
  {
    forall i, j | 0 <= i < j < n ensures Crowd(v, n)[i].entity != Crowd(v, n)[j].entity { EntityNames(i, j); }
  }

  function Handlers(s0: State, run: seq<Step>, n: nat): (hs: seq<Handler>)
    ensures |hs| == n && forall i | 0 <= i < n :: hs[i] == Handler(EntityName(i), s0, run)
  {
    seq(n, i requires 0 <= i < n => Handler(EntityName(i), s0, run))
  }

  lemma CrowdHandlers(service: bytes, v: int, n: nat, s0: State, run: seq<Step>)
    requires IsInt32(v) && n <= INT32_MAX && Initial(s0) && Legal(service, s0, run, 1, true)
    requires var s := Run(service, s0, run); s.processed == [TenSlot(EarlyEvent(v))] && s.accepted == Alone(EarlyEvent(v))
    ensures var hs := Handlers(s0, run, n);
      && (forall i | 0 <= i < n :: Runs.Running(service, hs[i]) && GoodEvents(WriterOf(service, hs[i])))
      && WritersOf(service, hs) == Crowd(v, n)
  {
    var hs := Handlers(s0, run, n);
    hide Run; hide Legal; hide GoodEvents;
    forall i | 0 <= i < n ensures Runs.Running(service, hs[i]) && WriterOf(service, hs[i]) == CrowdWriter(v, i) && GoodEvents(CrowdWriter(v, i)) {
      CrowdGood(v, i);
    }
  }

  lemma CrowdRuns(service: bytes, v: int, n: nat) returns (hs: seq<Handler>)
    requires service != [] && 1 <= n <= INT32_MAX && IsInt32(v)
    ensures Served(service, hs, RecordsOf(service, Crowd(v, n))) && WritersOf(service, hs) == Crowd(v, n)
  {
    hide Run; hide Legal; hide Initial; hide GoodEvents; hide Runs.Running; hide RecordsOf; hide Events; hide Crowd; hide Handlers; hide WritersOf;
    hide DistinctEntities; hide WriterOf;
    var s0, run := OneEventRun(service, v, 1, true);
    hs := Handlers(s0, run, n);
    CrowdHandlers(service, v, n, s0, run);
    CrowdApart(v, n);
    CrowdRecords(service, v, n);
  }

  lemma CrowdClear(v: int, n: nat)
    requires IsInt32(v) && n <= INT32_MAX
    ensures NoClashes(Crowd(v, n)) && AllValued(Crowd(v, n), v, v)
  {
    hide NoClash; hide Valued;
    forall i | 0 <= i < n ensures NoClash(Crowd(v, n)[i].accepted, Times(Crowd(v, n)[i].slots)) && Valued(Crowd(v, n)[i].accepted, v, v) {
      CrowdGood(v, i);
    }
  }

  /** The query for everything over their records. */
  lemma CrowdAnswer(service: bytes, v: int, n: nat, hs: seq<Handler>)
    requires 1 <= n <= INT32_MAX && IsInt32(v)
    requires Served(service, hs, RecordsOf(service, Crowd(v, n))) && WritersOf(service, hs) == Crowd(v, n)
    ensures var rs := RecordsOf(service, Crowd(v, n));
      && AllTyped(rs) && Answer(StoreAll([], rs), AnyTime(service), MAX_TIME) == Summary(CopiesAcc(v, n))
      && Visited(StoreAll([], rs), AnyTime(service), MAX_TIME) != []
  {
    var rs, cond := RecordsOf(service, Crowd(v, n)), AnyTime(service);
    hide *;
    ServedWritten(service, hs, rs);
    WrittenKeeps(rs, service, Crowd(v, n));
    CrowdClear(v, n);
    AnyTimeAskable(service);
    AnswerOfRecords(rs, cond, MAX_TIME);
    CrowdRecords(service, v, n);
    CopiesCount(v, n);
    AnswerLinesExist(StoreAll([], rs), cond, MAX_TIME);
  }

  lemma CopiesCount(v: int, n: nat)
    requires 1 <= n <= INT32_MAX
    ensures Summary(CopiesAcc(v, n)).count == n
  {
  }

  lemma AnswerLinesExist(db: seq<Entry>, cond: Cond, t: int)
    ensures Answer(db, cond, t).count != 0 ==> Visited(db, cond, t) != []
  {
  }

  lemma CrowdUnordered(service: bytes, v: int, n: nat, lo: int, hi: int)
    requires service != [] && 1 <= n <= INT32_MAX && lo <= v <= hi && IsInt32(v) && !IsInt32(v * n)
    ensures !AlwaysOrdered(service, n, lo, hi)
  {
    hide Served; hide AllTyped; hide AllValued; hide Askable; hide Visited; hide StoreAll; hide Answer; hide Ordered; hide Summary;
    hide RecordsOf; hide Crowd; hide Events; hide Total; hide CopiesAcc; hide AnyTime; hide ContributionOf; hide NoClashes;
    var hs := CrowdRuns(service, v, n);
    CrowdRecords(service, v, n);
    CrowdWithin(v, n, lo, hi);
    CrowdAnswer(service, v, n, hs);
    OverflowUnordered(v, n);
    AnyTimeAskable(service);
  }

  lemma CrowdWithin(v: int, n: nat, lo: int, hi: int)
    requires lo <= v <= hi && IsInt32(v) && n <= INT32_MAX
    ensures AllValued(Crowd(v, n), lo, hi)
  {
    CrowdClear(v, n);
  }

  /** Answers are ordered in all runs exactly when the number of records times the values fits
      32 bits: otherwise `n` handlers with one event each get an answer with percentiles below
      its minimum or above its maximum. */
  lemma AlwaysOrderedIff(service: bytes, n: nat, lo: int, hi: int)
    requires service != [] && 1 <= n <= INT32_MAX && INT32_MIN <= lo <= hi <= INT32_MAX
    ensures AlwaysOrdered(service, n, lo, hi) <==> INT32_MIN <= lo * n && hi * n <= INT32_MAX
  {
    if SumsFit(n, lo, hi) {
      forall hs, rs: seq<Record>, cond, t |
        && Served(service, hs, rs) && AllTyped(rs) && AllValued(WritersOf(service, hs), lo, hi) && |rs| <= n
        && Askable(cond, t) && Visited(StoreAll([], rs), cond, t) != []
        ensures Ordered(Answer(StoreAll([], rs), cond, t))
      {
        ServedWritten(service, hs, rs);
        hide *;
        AnswerOrdered(rs, service, WritersOf(service, hs), cond, t, n, lo, hi);
      }
    } else {
      var v := if lo * n < INT32_MIN then lo else hi;
      MulMono(lo, hi, n);
      hide *;
      CrowdUnordered(service, v, n, lo, hi);
    }
  }
}
