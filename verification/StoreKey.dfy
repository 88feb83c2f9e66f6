/** Record keys `metric#(9999999999-ts)#tag#entity`: writing, splitting, and their place
    in the bytewise order. */
module StoreKey {
  import opened Bytes
  import Lex
  import opened Decimal

  const HASH: byte := 0x23
  const DOLLAR: byte := 0x24
  const STAMP_BASE: int := 9_999_999_999
  const MAX_TIME: int := 8_999_999_999
  const KEY_BUFFER: nat := 4096

  datatype Fields = Fields(metric: bytes, ts: int, tag: bytes, entity: bytes)

  predicate NoHash(s: bytes) { HASH !in s }

  // ------------------------------------------------------------------- writing

  /** `%s` prints a `c_str()`: the text stops at the first NUL. */
  function CStr(s: bytes): bytes {
    if s == [] || s[0] == 0 then [] else [s[0]] + CStr(s[1..])
  }

  lemma {:induction false} CStrWhole(s: bytes)
    ensures CStr(s) == s <==> 0 !in s
  {
    if s != [] && s[0] != 0 {
      CStrWhole(s[1..]);
      assert s == [s[0]] + s[1..];
      assert CStr(s)[1..] == CStr(s[1..]);
    }
  }

  function Stamp(ts: int): bytes { Dec((STAMP_BASE - ts) % TWO64) }

  function FormatKey(f: Fields): bytes {
    f.metric + [HASH] + (Stamp(f.ts) + [HASH] + (f.tag + [HASH] + f.entity))
  }

  /** What `snprintf` into the 4096-byte buffer leaves. */
  function InsertKey(f: Fields): bytes {
    var k := FormatKey(f.(metric := CStr(f.metric), tag := CStr(f.tag), entity := CStr(f.entity)));
    if |k| < KEY_BUFFER then k else k[..KEY_BUFFER - 1]
  }

  // ------------------------------------------------------------------- reading

  function Split(s: bytes): (v: seq<bytes>)
    ensures |v| >= 1
  {
    if s == [] then [[]]
    else
      var r := Split(s[1..]);
      if s[0] == HASH then [[]] + r else [[s[0]] + r[0]] + r[1..]
  }

  function ParseKey(k: bytes): Option<Fields> {
    var v := Split(k);
    if |v| != 4 || v[0] == [] || v[1] == [] || v[2] == [] then None
    else Some(Fields(v[0], STAMP_BASE - Atoll(v[1]), v[2], v[3]))
  }

  lemma {:induction false} SplitFirst(a: bytes, b: bytes)
    requires NoHash(a)
    ensures Split(a + [HASH] + b) == [a] + Split(b)
    ensures Split(a) == [a]
  {
    if a == [] {
      assert (a + [HASH] + b)[1..] == b;
    } else {
      SplitFirst(a[1..], b);
      var s := a + [HASH] + b;
      assert s[1..] == a[1..] + [HASH] + b;
      assert [a[0]] + a[1..] == a;
    }
  }

  lemma {:induction false} SplitJoin(a: bytes, b: bytes)
    ensures Split(a + [HASH] + b) == Split(a) + Split(b)
  {
    var s := a + [HASH] + b;
    if a == [] {
      assert s[1..] == b;
    } else {
      assert s[1..] == a[1..] + [HASH] + b;
      SplitJoin(a[1..], b);
    }
  }

  /** Another byte at the end changes the last part only. */
  lemma {:induction false} SplitSnoc(a: bytes, c: byte)
    requires c != HASH
    ensures var v, w := Split(a), Split(a + [c]); |w| == |v| && forall i | 0 <= i < |v| - 1 :: w[i] == v[i]
  {
    var s := a + [c];
    if a == [] {
      assert s[1..] == [];
    } else {
      assert s[1..] == a[1..] + [c];
      SplitSnoc(a[1..], c);
    }
  }

  lemma {:induction false} SplitClean(s: bytes)
    ensures forall i | 0 <= i < |Split(s)| :: NoHash(Split(s)[i])
  {
    if s != [] { SplitClean(s[1..]); }
  }

  /** The first part, the separator and what the other parts came from. */
  lemma {:induction false} SplitRejoin(s: bytes)
    requires |Split(s)| > 1
    ensures NoHash(Split(s)[0]) && |Split(s)[0]| < |s|
    ensures s == Split(s)[0] + [HASH] + s[|Split(s)[0]| + 1..]
  {
    if s[0] != HASH {
      SplitRejoin(s[1..]);
      var h := Split(s[1..])[0];
      assert Split(s)[0] == [s[0]] + h;
      assert s == [s[0]] + s[1..];
      assert s[|h| + 2..] == s[1..][|h| + 1..];
    } else {
      assert s == [HASH] + s[1..];
    }
  }

  lemma SplitHead(s: bytes) returns (rest: bytes)
    requires |Split(s)| > 1
    ensures s == Split(s)[0] + [HASH] + rest && Split(rest) == Split(s)[1..] && |rest| < |s|
  {
    SplitRejoin(s);
    rest := s[|Split(s)[0]| + 1..];
    SplitFirst(Split(s)[0], rest);
  }

  function Hashes(s: bytes): nat {
    if s == [] then 0 else (if s[0] == HASH then 1 else 0) + Hashes(s[1..])
  }

  lemma {:induction false} HashesConcat(a: bytes, b: bytes)
    ensures Hashes(a + b) == Hashes(a) + Hashes(b)
  {
    if a == [] {
      assert a + b == b;
    } else {
      assert (a + b)[1..] == a[1..] + b;
      HashesConcat(a[1..], b);
    }
  }

  lemma {:induction false} SplitCount(s: bytes)
    ensures |Split(s)| == Hashes(s) + 1
    ensures Hashes(s) == 0 <==> NoHash(s)
  {
    if s != [] {
      SplitCount(s[1..]);
      assert s == [s[0]] + s[1..];
    }
  }

  lemma SplitFour(a: bytes, b: bytes, c: bytes, d: bytes)
    requires NoHash(a) && NoHash(b) && NoHash(c) && NoHash(d)
    ensures Split(a + [HASH] + (b + [HASH] + (c + [HASH] + d))) == [a, b, c, d]
  {
    SplitFirst(a, b + [HASH] + (c + [HASH] + d));
    SplitFirst(b, c + [HASH] + d);
    SplitFirst(c, d);
    SplitFirst(d, []);
  }

  lemma HashesJoin(a: bytes, b: bytes)
    ensures Hashes(a + [HASH] + b) == Hashes(a) + 1 + Hashes(b)
  {
    HashesConcat(a + [HASH], b);
    HashesConcat(a, [HASH]);
    assert Hashes([HASH]) == 1 + Hashes([HASH][1..]);
  }

  lemma SplitMore(a: bytes, b: bytes, c: bytes, d: bytes)
    requires !NoHash(a) || !NoHash(b) || !NoHash(c) || !NoHash(d)
    ensures |Split(a + [HASH] + (b + [HASH] + (c + [HASH] + d)))| > 4
  {
    HashesJoin(c, d);
    HashesJoin(b, c + [HASH] + d);
    HashesJoin(a, b + [HASH] + (c + [HASH] + d));
    SplitCount(a);
    SplitCount(b);
    SplitCount(c);
    SplitCount(d);
    SplitCount(a + [HASH] + (b + [HASH] + (c + [HASH] + d)));
  }

  /** A written key is read back as the record that was written exactly when no field
      contains the separator and neither metric nor tag is empty. */
  lemma KeyRoundTrip(f: Fields)
    requires STAMP_BASE - TWO64 < f.ts <= STAMP_BASE
    ensures ParseKey(FormatKey(f)) == Some(f)
       <==> NoHash(f.metric) && NoHash(f.tag) && NoHash(f.entity) && f.metric != [] && f.tag != []
  {
    var stamp := Stamp(f.ts);
    AtollDec(STAMP_BASE - f.ts);
    if NoHash(f.metric) && NoHash(f.tag) && NoHash(f.entity) {
      SplitFour(f.metric, stamp, f.tag, f.entity);
      assert Split(FormatKey(f)) == [f.metric, stamp, f.tag, f.entity];
    } else {
      SplitMore(f.metric, stamp, f.tag, f.entity);
      assert |Split(FormatKey(f))| > 4;
    }
  }

  /** What the writer of a record must respect for the record to be found again. */
  predicate Storable(f: Fields) {
    && NoHash(f.metric) && NoHash(f.tag) && NoHash(f.entity)
    && 0 !in f.metric && 0 !in f.tag && 0 !in f.entity
    && f.metric != [] && f.tag != []
    && 1 <= f.ts <= MAX_TIME
    && |FormatKey(f)| < KEY_BUFFER
  }

  lemma StorableKey(f: Fields)
    requires Storable(f)
    ensures InsertKey(f) == FormatKey(f) && ParseKey(InsertKey(f)) == Some(f)
  {
    CStrWhole(f.metric);
    CStrWhole(f.tag);
    CStrWhole(f.entity);
    KeyRoundTrip(f);
  }

  /** The first part of a text that has been cut. */
  lemma CutFirst(a: bytes, b: bytes, n: nat)
    requires NoHash(a) && n <= |a + [HASH] + b|
    ensures var v := Split((a + [HASH] + b)[..n]);
      if n <= |a| then |v| == 1 else v == [a] + Split(b[..n - |a| - 1])
  {
    var s := a + [HASH] + b;
    if n <= |a| {
      assert s[..n] == a[..n];
      SplitFirst(a[..n], []);
    } else {
      assert s[..n] == a + [HASH] + b[..n - |a| - 1];
      SplitFirst(a, b[..n - |a| - 1]);
    }
  }

  lemma {:induction false} CStrPrefix(s: bytes)
    ensures CStr(s) <= s
  {
    if s != [] && s[0] != 0 { CStrPrefix(s[1..]); }
  }

  lemma CStrClean(s: bytes)
    requires NoHash(s)
    ensures NoHash(CStr(s))
  {
    CStrPrefix(s);
    forall i | 0 <= i < |CStr(s)| ensures CStr(s)[i] != HASH { assert CStr(s)[i] == s[i]; }
  }

  /** When a cut key splits into four parts, the first three are whole. */
  lemma CutParts(g: Fields, n: nat)
    requires NoHash(g.metric) && NoHash(g.tag) && NoHash(g.entity) && 1 <= g.ts <= MAX_TIME
    requires n <= |FormatKey(g)| && |Split(FormatKey(g)[..n])| == 4
    ensures var m := |FormatKey(g)| - n;
      m <= |g.entity| && Split(FormatKey(g)[..n]) == [g.metric, Stamp(g.ts), g.tag, g.entity[..|g.entity| - m]]
  {
    var rest := g.tag + [HASH] + g.entity;
    var stamped := Stamp(g.ts) + [HASH] + rest;
    CutFirst(g.metric, stamped, n);
    var n1 := n - |g.metric| - 1;
    CutFirst(Stamp(g.ts), rest, n1);
    var n2 := n1 - |Stamp(g.ts)| - 1;
    CutFirst(g.tag, g.entity, n2);
    var last := g.entity[..n2 - |g.tag| - 1];
    SplitFirst(last, []);
  }

  lemma ParsedStorable(f: Fields)
    requires 1 <= f.ts <= MAX_TIME && ParseKey(InsertKey(f)) == Some(f)
    ensures Storable(f)
  {
    var g := f.(metric := CStr(f.metric), tag := CStr(f.tag), entity := CStr(f.entity));
    var k := FormatKey(g);
    var n := if |k| < KEY_BUFFER then |k| else KEY_BUFFER - 1;
    assert InsertKey(f) == k[..n];
    SplitClean(k[..n]);
    var v := Split(k[..n]);
    assert f.metric == v[0] && f.tag == v[2] && f.entity == v[3] && f.metric != [] && f.tag != [];
    hide *;
    ParsedWhole(f, g, n);
  }

  lemma ParsedWhole(f: Fields, g: Fields, n: nat)
    requires 1 <= f.ts <= MAX_TIME && NoHash(f.metric) && NoHash(f.tag) && NoHash(f.entity) && f.metric != [] && f.tag != []
    requires g == f.(metric := CStr(f.metric), tag := CStr(f.tag), entity := CStr(f.entity))
    requires n == if |FormatKey(g)| < KEY_BUFFER then |FormatKey(g)| else KEY_BUFFER - 1
    requires var v := Split(FormatKey(g)[..n]); |v| == 4 && v[0] == f.metric && v[2] == f.tag && v[3] == f.entity
    ensures Storable(f)
  {
    CStrClean(f.metric);
    CStrClean(f.tag);
    CStrClean(f.entity);
    CutParts(g, n);
    CStrPrefix(f.entity);
    assert |g.entity| <= |f.entity| <= |g.entity| - (|FormatKey(g)| - n);
    CStrWhole(f.metric);
    CStrWhole(f.tag);
    CStrWhole(f.entity);
    assert g.entity == f.entity && g == f;
  }

  /** For times whose stamp has ten digits, the key that has passed through the buffer reads
      back as the record exactly when the record is storable: a separator, a NUL, an empty
      metric or tag or a key of 4096 bytes or more makes it another record or none. */
  lemma InsertKeyRoundTrip(f: Fields)
    requires 1 <= f.ts <= MAX_TIME
    ensures ParseKey(InsertKey(f)) == Some(f) <==> Storable(f)
    ensures Storable(f) ==> InsertKey(f) == FormatKey(f)
  {
    if Storable(f) {
      StorableKey(f);
    } else if ParseKey(InsertKey(f)) == Some(f) {
      ParsedStorable(f);
    }
  }

  lemma KeysInjective(f: Fields, g: Fields)
    requires Storable(f) && Storable(g) && InsertKey(f) == InsertKey(g)
    ensures f == g
  {
    StorableKey(f);
    StorableKey(g);
  }

  lemma {:induction false} CStrConcat(a: bytes, b: bytes)
    requires 0 !in a
    ensures CStr(a + b) == a + CStr(b)
  {
    if a == [] {
      assert a + b == b;
    } else {
      assert (a + b)[1..] == a[1..] + b;
      CStrConcat(a[1..], b);
    }
  }

  lemma FormatMore(f: Fields, more: bytes)
    ensures FormatKey(f.(entity := f.entity + more)) == FormatKey(f) + more
  {
  }

  /** Keys that are too long collide: whatever an entity is extended with beyond the buffer, the
      record is written under the same key. */
  lemma LongKeysCollide(f: Fields, more: bytes)
    requires 0 !in f.metric && 0 !in f.tag && 0 !in f.entity && |FormatKey(f)| >= KEY_BUFFER - 1
    ensures InsertKey(f.(entity := f.entity + more)) == InsertKey(f)
  {
    hide CStr; hide FormatKey;
    CStrWhole(f.metric);
    CStrWhole(f.tag);
    CStrWhole(f.entity);
    CStrConcat(f.entity, more);
    FormatMore(f, CStr(more));
    assert f.(metric := f.metric, tag := f.tag, entity := f.entity) == f;
  }

  // ---------------------------------------------------------------- key ranges

  /** `lexical_cast` of a signed number. */
  function SignedDec(n: int): bytes { if n < 0 then [0x2d] + Dec(-n) else Dec(n) }

  function UpperKey(metric: bytes, t: int): bytes {
    metric + [HASH] + SignedDec(STAMP_BASE - t)
  }

  function LowerKey(metric: bytes, t: int, interval: int): bytes {
    if interval > 0 then metric + [HASH] + SignedDec(STAMP_BASE - (t - interval)) else metric + [DOLLAR]
  }

  /** The window a query asks for: times after `t - interval` up to `t`; an interval of zero
      means no lower limit. */
  predicate InWindow(ts: int, t: int, interval: int) {
    ts <= t && (interval > 0 ==> t - interval < ts)
  }

  lemma TenDigits(ts: int)
    requires 0 <= ts <= MAX_TIME
    ensures |Dec(STAMP_BASE - ts)| == 10
  {
    assert Pow10(9) == 1_000_000_000 && Pow10(10) == 10_000_000_000 by {
      assert Pow10(3) == 1000;
      assert Pow10(6) == 1000 * Pow10(3);
      assert Pow10(9) == 1000 * Pow10(6);
      assert Pow10(10) == 10 * Pow10(9);
    }
    DecLength(STAMP_BASE - ts, 10);
  }

  /** Where the upper end of the scan falls: the record is at or after it exactly when it
      is not newer than `t`. */
  lemma UpperExact(f: Fields, t: int)
    requires 1 <= f.ts <= MAX_TIME && 0 <= t <= MAX_TIME
    ensures Lex.Le(UpperKey(f.metric, t), FormatKey(f)) <==> f.ts <= t
  {
    var tail := [HASH] + (f.tag + [HASH] + f.entity);
    TenDigits(f.ts);
    TenDigits(t);
    StampIsDec(f.ts);
    assert FormatKey(f) == f.metric + [HASH] + (Stamp(f.ts) + tail);
    Lex.Prefix(f.metric + [HASH], Dec(STAMP_BASE - t), Stamp(f.ts) + tail);
    assert Dec(STAMP_BASE - t) == Dec(STAMP_BASE - t) + [];
    DecOrderTail(STAMP_BASE - t, [], STAMP_BASE - f.ts, tail);
  }

  /** Which records lie at or before the lower end of the scan. An interval that reaches
      behind the epoch makes the limit an eleven-digit stamp, which is compared by its
      first ten digits. */
  predicate AboveLower(ts: int, t: int, interval: int)
    requires t <= STAMP_BASE
  {
    if interval <= 0 then true
    else if interval <= t then t - interval < ts
    else STAMP_BASE - ts <= LeadingTen(STAMP_BASE - t + interval)
  }

  lemma LowerExact(f: Fields, t: int, interval: int)
    requires 1 <= f.ts <= MAX_TIME && 0 <= t <= MAX_TIME
    ensures Lex.Le(FormatKey(f), LowerKey(f.metric, t, interval)) <==> AboveLower(f.ts, t, interval)
  {
    var tail := [HASH] + (f.tag + [HASH] + f.entity);
    StampIsDec(f.ts);
    assert FormatKey(f) == f.metric + [HASH] + (Stamp(f.ts) + tail);
    if interval <= 0 {
      assert FormatKey(f)[..|f.metric|] == f.metric && FormatKey(f)[|f.metric|] == HASH;
      Lex.StartsBelow(f.metric, HASH, FormatKey(f));
      Lex.Total(FormatKey(f), f.metric + [DOLLAR]);
    } else {
      var n := STAMP_BASE - t + interval;
      Lex.Prefix(f.metric + [HASH], Stamp(f.ts) + tail, Dec(n));
      if interval <= t {
        TailBelowLimit(STAMP_BASE - f.ts, tail, n);
      } else {
        TailBelowLongLimit(STAMP_BASE - f.ts, tail, n);
      }
    }
  }

  lemma StampIsDec(ts: int)
    requires STAMP_BASE - TWO64 < ts <= STAMP_BASE
    ensures Stamp(ts) == Dec(STAMP_BASE - ts)
  {
  }

  lemma TailBelowLimit(a: nat, tail: bytes, n: nat)
    requires STAMP_BASE - MAX_TIME <= a <= STAMP_BASE && STAMP_BASE - MAX_TIME <= n <= STAMP_BASE
    requires tail != []
    ensures Lex.Le(Dec(a) + tail, Dec(n)) <==> a < n
  {
    TenDigits(STAMP_BASE - a);
    TenDigits(STAMP_BASE - n);
    DecBelow(a, tail, n);
  }

  lemma TailBelowLongLimit(a: nat, tail: bytes, n: nat)
    requires STAMP_BASE - MAX_TIME <= a <= STAMP_BASE && n > STAMP_BASE
    requires tail != [] && tail[0] == HASH
    ensures Lex.Le(Dec(a) + tail, Dec(n)) <==> a <= LeadingTen(n)
  {
    hide Dec; hide LeadingTen; hide Lex.Le;
    var rest := LeadingTenText(n);
    var m := LeadingTen(n);
    TenDigits(STAMP_BASE - a);
    TenDigits(STAMP_BASE - m);
    DecBelowLonger(a, tail, m, rest);
  }

  /** The window does not reach behind the epoch, or the eleven-digit limit of one that does
      still covers everything. */
  predicate WindowFits(t: int, interval: int)
    requires t <= STAMP_BASE && 0 <= interval
  {
    interval <= t || t == 0 || LeadingTen(STAMP_BASE - t + interval) >= STAMP_BASE - 1
  }

  /** The scanned range is the window for every storable time exactly when the window fits. */
  lemma RangeIsWindowIff(t: int, interval: int)
    requires 0 <= t <= MAX_TIME && 0 <= interval
    ensures (forall ts | 1 <= ts <= MAX_TIME :: ts <= t && AboveLower(ts, t, interval) <==> InWindow(ts, t, interval))
       <==> WindowFits(t, interval)
  {
    if !WindowFits(t, interval) {
      assert InWindow(1, t, interval) && !AboveLower(1, t, interval);
    }
  }

  /** The condition of the SQL store: `F_timestamp <= t AND F_timestamp > t - interval`. */
  predicate InSqlWindow(ts: int, t: int, interval: int) { ts <= t && t - interval < ts }

  /** The two stores look at the same times exactly when the interval is positive and its
      window fits, or there is nothing to look at: for an interval of zero the SQL condition
      is never met, while the scan goes back to the beginning. */
  lemma RangeIsSqlWindowIff(t: int, interval: int)
    requires 0 <= t <= MAX_TIME && 0 <= interval
    ensures (forall ts | 1 <= ts <= MAX_TIME :: ts <= t && AboveLower(ts, t, interval) <==> InSqlWindow(ts, t, interval))
       <==> (t == 0 || (interval > 0 && WindowFits(t, interval)))
  {
    if t > 0 && interval == 0 {
      assert AboveLower(1, t, interval) && !InSqlWindow(1, t, interval);
    } else if interval > 0 && !WindowFits(t, interval) {
      assert InSqlWindow(1, t, interval) && !AboveLower(1, t, interval);
    }
  }

  /** A query for the last 3e9 seconds made at time 2e9 misses a record written at 1e9. */
  lemma WindowBehindEpochMissesRecords()
    ensures InWindow(1_000_000_000, 2_000_000_000, 3_000_000_000)
    ensures !AboveLower(1_000_000_000, 2_000_000_000, 3_000_000_000)
  {
    assert LeadingTen(10_999_999_999) == LeadingTen(1_099_999_999);
  }
}
