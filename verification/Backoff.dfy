/** The retry policy: computeBackoffMs, and FailJob reading the attempt before it fails the job. */
module Backoff {
  import opened Wrappers
  import opened Jobs
  import Lifecycle
  import Timing

  function Pow2(n: nat): (p: nat)
    ensures p > 0
  {
    if n == 0 then 1 else 2 * Pow2(n - 1)
  }

  /** int64(math.Pow(2, k)): 0 for a negative k, and whatever the platform makes of a value beyond int64. */
  function Pow2AsInt64(k: int, beyond: Int64): int {
    if k < 0 then 0 else if k <= 62 then Pow2(k) else beyond
  }

  function BaseDelay(m: Metadata): Millis {
    if m.backoffDelay.Some? then m.backoffDelay.value else 1000
  }

  /** The delay before jitter. */
  function Unjittered(m: Metadata, attempt: nat, beyond: Int64): Int64 {
    if m.backoffType == "exponential" then Wrap64(BaseDelay(m) * Pow2AsInt64(attempt - 1, beyond)) else BaseDelay(m)
  }

  /** Jitter keeps half the delay and draws the rest; none when the random source would panic. */
  ghost predicate IsDelay(m: Metadata, attempt: nat, beyond: Int64, delay: Option<Int64>) {
    var ms := Unjittered(m, attempt, beyond);
    if !m.backoffJitter then delay == Some(ms)
    else if TruncDiv(ms, 2) + 1 <= 0 then delay == None
    else delay.Some? && TruncDiv(ms, 2) <= delay.value <= 2 * TruncDiv(ms, 2)
  }

  /** computeBackoffMs on the row it read; `draw` is the random source and None stands for the panic of rand.Intn. */
  method ComputeBackoffMs(row: JobRow, draw: nat, beyond: Int64) returns (delay: Option<Int64>)
    ensures IsDelay(row.metadata, row.attempt, beyond, delay)
  {
    var baseDelay := 1000;
    if row.metadata.backoffDelay.Some? {
      baseDelay := row.metadata.backoffDelay.value;
    }
    var ms: int;
    if row.metadata.backoffType == "exponential" {
      ms := Wrap64(baseDelay * Pow2AsInt64(row.attempt - 1, beyond));
    } else {
      ms := baseDelay;
    }
    if row.metadata.backoffJitter {
      var bound := TruncDiv(ms, 2) + 1;
      if bound <= 0 {
        return None;
      }
      ms := TruncDiv(ms, 2) + draw % bound;
    }
    return Some(ms);
  }

  // ----- the delays -----

  lemma {:induction false} Pow2Monotone(a: nat, b: nat)
    requires a <= b
    ensures Pow2(a) <= Pow2(b)
    decreases b
  {
    if a < b {
      Pow2Monotone(a, b - 1);
    }
  }

  lemma {:induction false} Pow2Sum(a: nat, b: nat)
    ensures Pow2(a + b) == Pow2(a) * Pow2(b)
  {
    if b > 0 {
      Pow2Sum(a, b - 1);
    }
  }

  lemma Pow2Double(n: nat, p: nat)
    requires Pow2(n) == p
    ensures Pow2(n + n) == p * p
  {
    Pow2Sum(n, n);
  }

  lemma Pow2Values()
    ensures Pow2(16) == 0x1_0000 && Pow2(32) == 0x1_0000_0000 && Pow2(63) == MAX_INT64 + 1
  {
    assert Pow2(8) == 256;
    Pow2Double(8, 256);
    Pow2Double(16, 0x1_0000);
    assert Pow2(32) == 2 * Pow2(31);
    Pow2Sum(32, 31);
  }

  lemma AtLeast(b: nat, p: nat)
    requires b >= 1
    ensures b * p >= p
  {
  }

  /** The exact exponential delay of an attempt. */
  function Exact(m: Metadata, attempt: nat): nat
    requires attempt >= 1
  {
    BaseDelay(m) * Pow2(attempt - 1)
  }

  /** The exact delay fits a 64-bit integer. */
  predicate Fits(m: Metadata, attempt: nat) {
    attempt >= 1 && Exact(m, attempt) <= MAX_INT64
  }

  lemma FitsMeansExact(m: Metadata, attempt: nat, beyond: Int64)
    requires m.backoffType == "exponential" && Fits(m, attempt)
    ensures Unjittered(m, attempt, beyond) == Exact(m, attempt)
  {
    if BaseDelay(m) >= 1 {
      Pow2Values();
      AtLeast(BaseDelay(m), Pow2(attempt - 1));
      if attempt - 1 >= 63 {
        Pow2Monotone(63, attempt - 1);
      }
    }
  }

  lemma ExactDoubles(m: Metadata, attempt: nat)
    requires attempt >= 1
    ensures Exact(m, attempt + 1) == 2 * Exact(m, attempt)
  {
    assert Pow2(attempt) == 2 * Pow2(attempt - 1);
  }

  /** Within range the random source never panics, and the delay lies between half the exact delay and twice that
      half. */
  lemma DelayInRange(m: Metadata, attempt: nat, beyond: Int64, delay: Option<Int64>)
    requires m.backoffType == "exponential" && Fits(m, attempt) && IsDelay(m, attempt, beyond, delay)
    ensures delay.Some?
    ensures Exact(m, attempt) / 2 <= delay.value <= Exact(m, attempt)
    ensures m.backoffJitter ==> delay.value <= 2 * (Exact(m, attempt) / 2)
  {
    FitsMeansExact(m, attempt, beyond);
  }

  /** Any other policy waits a fixed time, whatever the attempt: the delay asked for, or a second when none was; with
      jitter anything from half of it to twice that half.  It never panics. */
  lemma FixedDelay(m: Metadata, attempt: nat, beyond: Int64, delay: Option<Int64>)
    requires m.backoffType != "exponential" && IsDelay(m, attempt, beyond, delay)
    ensures var base := if m.backoffDelay.Some? then m.backoffDelay.value else 1000;
      && delay.Some?
      && (!m.backoffJitter ==> delay.value == base)
      && (m.backoffJitter ==> base / 2 <= delay.value <= 2 * (base / 2))
  {
  }

  /** Every draw in that range can come up. */
  lemma FixedDraws(m: Metadata, attempt: nat, beyond: Int64, drawn: Int64)
    requires m.backoffType != "exponential" && m.backoffJitter
    ensures var base := if m.backoffDelay.Some? then m.backoffDelay.value else 1000;
      base / 2 <= drawn <= 2 * (base / 2) ==> IsDelay(m, attempt, beyond, Some(drawn))
  {
  }

  /** The base delay of an exponential policy is the delay asked for, or a second, and doubles with every attempt. */
  lemma ExponentialDelay(m: Metadata, attempt: nat, beyond: Int64, delay: Option<Int64>, exact: nat)
    requires m.backoffType == "exponential" && attempt >= 1 && IsDelay(m, attempt, beyond, delay)
    requires exact == (if m.backoffDelay.Some? then m.backoffDelay.value else 1000) * Pow2(attempt - 1) <= MAX_INT64
    ensures delay.Some?
    ensures !m.backoffJitter ==> delay.value == exact
    ensures m.backoffJitter ==> exact / 2 <= delay.value <= 2 * (exact / 2)
  {
    DelayInRange(m, attempt, beyond, delay);
    FitsMeansExact(m, attempt, beyond);
  }

  /** A job that was never claimed has no exponential delay yet: half a base delay is cut to none. */
  lemma NoDelayBeforeFirstAttempt(m: Metadata, beyond: Int64, delay: Option<Int64>)
    requires m.backoffType == "exponential" && IsDelay(m, 0, beyond, delay)
    ensures delay == Some(0)
  {
  }

  /** Whatever is drawn, a later attempt never waits less than an earlier one. */
  lemma DelaysNeverShrink(m: Metadata, attempt: nat, beyond: Int64, delay: Option<Int64>, next: Option<Int64>)
    requires m.backoffType == "exponential" && Fits(m, attempt) && Fits(m, attempt + 1)
    requires IsDelay(m, attempt, beyond, delay) && IsDelay(m, attempt + 1, beyond, next)
    ensures delay.Some? && next.Some? && delay.value <= next.value
  {
    DelayInRange(m, attempt, beyond, delay);
    DelayInRange(m, attempt + 1, beyond, next);
    ExactDoubles(m, attempt);
  }

  /** The delays keep growing exactly as long as they fit 64 bits: at the first attempt that does not, the delay has
      wrapped below zero (or the random source panics).  Base delays of 0 ms always fit; a base delay of 1 ms first
      fails to fit at attempt 64, where the result of math.Pow is beyond int64 itself. */
  lemma DelaysShrinkExactly(m: Metadata, attempt: nat, beyond: Int64, delay: Option<Int64>, next: Option<Int64>)
    requires m.backoffType == "exponential" && BaseDelay(m) >= 2 && Fits(m, attempt)
    requires IsDelay(m, attempt, beyond, delay) && IsDelay(m, attempt + 1, beyond, next)
    ensures delay.Some?
    ensures next.Some? && delay.value <= next.value <==> Fits(m, attempt + 1)
  {
    DelayInRange(m, attempt, beyond, delay);
    if Fits(m, attempt + 1) {
      DelaysNeverShrink(m, attempt, beyond, delay, next);
    } else {
      FirstUnfit(m, attempt, beyond);
    }
  }

  lemma LateIsUnfit(m: Metadata, attempt: nat)
    requires BaseDelay(m) >= 2 && attempt >= 63
    ensures !Fits(m, attempt)
  {
    Pow2High();
    Pow2Monotone(62, attempt - 1);
    assert BaseDelay(m) * Pow2(attempt - 1) >= 2 * Pow2(attempt - 1);
  }

  lemma FirstUnfit(m: Metadata, attempt: nat, beyond: Int64)
    requires m.backoffType == "exponential" && BaseDelay(m) >= 2 && Fits(m, attempt) && !Fits(m, attempt + 1)
    ensures Unjittered(m, attempt + 1, beyond) <= -2
  {
    ExactDoubles(m, attempt);
    if attempt >= 63 {
      LateIsUnfit(m, attempt);
    }
    assert Unjittered(m, attempt + 1, beyond) == Wrap64(2 * Exact(m, attempt));
  }

  /** The time spent waiting after the first n attempts; delays[i] follows attempt i + 1. */
  function Total(delays: seq<Int64>, n: nat): int
    requires n <= |delays|
  {
    if n == 0 then 0 else Total(delays, n - 1) + delays[n - 1]
  }

  ghost predicate DelayAt(m: Metadata, beyond: Int64, delays: seq<Int64>, i: nat)
    requires i < |delays|
  {
    Fits(m, i + 1) && IsDelay(m, i + 1, beyond, Some(delays[i]))
  }

  lemma Geometric(b: int, p: int)
    ensures b * (p - 1) + b * p == b * (2 * p - 1)
  {
  }

  /** The delays of the first n attempts add up to at most base * (2^n - 1). */
  lemma {:induction false} TotalDelayBounded(m: Metadata, beyond: Int64, delays: seq<Int64>, n: nat)
    requires m.backoffType == "exponential" && n <= |delays|
    requires forall i: nat :: i < n ==> DelayAt(m, beyond, delays, i)
    ensures Total(delays, n) <= BaseDelay(m) * (Pow2(n) - 1)
  {
    if n > 0 {
      TotalDelayBounded(m, beyond, delays, n - 1);
      assert DelayAt(m, beyond, delays, n - 1);
      DelayInRange(m, n, beyond, Some(delays[n - 1]));
      Geometric(BaseDelay(m), Pow2(n - 1));
    }
  }

  /** rand.Intn panics exactly when jitter is on and the computed delay has wrapped to -2 or below. */
  lemma PanicsExactly(m: Metadata, attempt: nat, beyond: Int64, delay: Option<Int64>)
    requires IsDelay(m, attempt, beyond, delay)
    ensures delay == None <==> m.backoffJitter && Unjittered(m, attempt, beyond) <= -2
  {
  }

  lemma Pow2Is24()
    ensures Pow2(24) == 0x100_0000
  {
    Pow2Sum(8, 8);
    Pow2Sum(16, 8);
    assert Pow2(8) == 256;
  }

  /** The wrap-around can happen: a base delay of 3 * 2^38 ms panics at attempt 25. */
  lemma WrapCanPanic(beyond: Int64, delay: Option<Int64>)
    requires IsDelay(Metadata("exponential", Some(3 * 0x40_0000_0000), true), 25, beyond, delay)
    ensures delay == None
  {
    var m := Metadata("exponential", Some(3 * 0x40_0000_0000), true);
    Pow2Is24();
    assert Unjittered(m, 25, beyond) == Wrap64(0xC000_0000_0000_0000);
    assert Wrap64(0xC000_0000_0000_0000) == -0x4000_0000_0000_0000;
    PanicsExactly(m, 25, beyond, delay);
  }

  // ----- the 32-bit parameter -----

  /** The database takes this backoff of a job it is to retry. */
  predicate Takes(d: Dialect, t: nat, backoffMs: Int64) {
    Accepts(d, backoffMs) && RetryAt(d, t, backoffMs).Some?
  }

  ghost predicate AllTaken(d: Dialect, t: nat, m: Metadata, attempt: nat, beyond: Int64) {
    forall delay: Int64 :: IsDelay(m, attempt, beyond, Some(delay)) ==> Takes(d, t, delay)
  }

  ghost predicate NoneTaken(d: Dialect, t: nat, m: Metadata, attempt: nat, beyond: Int64) {
    forall delay: Int64 :: IsDelay(m, attempt, beyond, Some(delay)) ==> !Takes(d, t, delay)
  }

  /** What each database takes: Postgres 32 bits; SQLite no negative number of seconds, and none past the year 9999. */
  lemma TakesExactly(t: nat, backoffMs: Int64)
    ensures Takes(Postgres, t, backoffMs) <==> MIN_INT32 <= backoffMs <= MAX_INT32
    ensures Takes(SQLite, t, backoffMs) <==>
      -1998 <= backoffMs <= MAX_INT64 - 999
      && t / 1000 + (if backoffMs < 0 then 0 else (backoffMs + 999) / 1000) <= LAST_SECOND
  {
    assert BackoffSec(backoffMs) < 0 <==> backoffMs < -1998 || backoffMs > MAX_INT64 - 999;
  }

  lemma ShorterTaken(d: Dialect, t: nat, shorter: Int64, longer: Int64)
    requires 0 <= shorter <= longer && Takes(d, t, longer)
    ensures Takes(d, t, shorter)
  {
    TakesExactly(t, shorter);
    TakesExactly(t, longer);
  }

  /** Which draws of the policy a database takes.  Without jitter there is only one.  With jitter it takes all exactly
      when it takes twice the half delay, and none exactly when it does not take the half delay. */
  lemma PolicyTakenExactly(d: Dialect, t: nat, m: Metadata, attempt: nat, beyond: Int64)
    requires m.backoffJitter ==> Unjittered(m, attempt, beyond) > -2
    ensures var ms := Unjittered(m, attempt, beyond);
      var least := if m.backoffJitter then TruncDiv(ms, 2) else ms;
      var most := if m.backoffJitter then 2 * TruncDiv(ms, 2) else ms;
      && (AllTaken(d, t, m, attempt, beyond) <==> Takes(d, t, most))
      && (NoneTaken(d, t, m, attempt, beyond) <==> !Takes(d, t, least))
  {
    var ms := Unjittered(m, attempt, beyond);
    var least := if m.backoffJitter then TruncDiv(ms, 2) else ms;
    var most := if m.backoffJitter then 2 * TruncDiv(ms, 2) else ms;
    assert IsDelay(m, attempt, beyond, Some(least)) && IsDelay(m, attempt, beyond, Some(most));
    forall delay: Int64 | IsDelay(m, attempt, beyond, Some(delay))
      ensures Takes(d, t, most) ==> Takes(d, t, delay)
      ensures Takes(d, t, delay) ==> Takes(d, t, least)
    {
      if m.backoffJitter && Takes(d, t, most) {
        ShorterTaken(d, t, delay, most);
      }
      if m.backoffJitter && Takes(d, t, delay) {
        ShorterTaken(d, t, least, delay);
      }
    }
  }

  /** Powers of two around the last delay of the default policy that fits 64 bits. */
  lemma Pow2High()
    ensures Pow2(53) == 0x20_0000_0000_0000 && Pow2(54) == 0x40_0000_0000_0000 && Pow2(55) == 0x80_0000_0000_0000
    ensures Pow2(56) == 0x100_0000_0000_0000 && Pow2(57) == 0x200_0000_0000_0000 && Pow2(58) == 0x400_0000_0000_0000
    ensures Pow2(59) == 0x800_0000_0000_0000 && Pow2(60) == 0x1000_0000_0000_0000 && Pow2(61) == 0x2000_0000_0000_0000
    ensures Pow2(62) == 0x4000_0000_0000_0000
  {
    Pow2Values();
    Pow2Sum(32, 16);
    Pow2Sum(48, 5);
    assert Pow2(5) == 32;
    assert Pow2(53) == 0x20_0000_0000_0000;
    assert Pow2(54) == 2 * Pow2(53);
    assert Pow2(55) == 2 * Pow2(54);
    assert Pow2(56) == 2 * Pow2(55);
    assert Pow2(57) == 2 * Pow2(56);
    assert Pow2(58) == 2 * Pow2(57);
    assert Pow2(59) == 2 * Pow2(58);
    assert Pow2(60) == 2 * Pow2(59);
    assert Pow2(61) == 2 * Pow2(60);
    assert Pow2(62) == 2 * Pow2(61);
  }

  predicate DefaultPolicy(m: Metadata) {
    m.backoffType == "exponential" && m.backoffDelay == None
  }

  /** The default delays, before jitter: exact up to attempt 54, then wrapped far beyond 32 bits, then 0. */
  lemma DefaultDelays(m: Metadata, attempt: nat, beyond: Int64)
    requires DefaultPolicy(m) && 1 <= attempt <= 63
    ensures var ms := Unjittered(m, attempt, beyond);
      && (attempt <= 54 ==> ms == 1000 * Pow2(attempt - 1))
      && (55 <= attempt <= 61 && attempt != 60 ==> ms <= -0x400_0000_0000_0000)
      && (attempt == 60 ==> ms == 0x4000_0000_0000_0000)
      && (attempt >= 62 ==> ms == 0)
  {
    if attempt <= 54 {
      ExactDefaultDelay(m, attempt, beyond);
    } else {
      Pow2High();
    }
  }

  lemma ExactDefaultDelay(m: Metadata, attempt: nat, beyond: Int64)
    requires DefaultPolicy(m) && 1 <= attempt <= 54
    ensures Pow2(attempt - 1) <= 0x20_0000_0000_0000 && Unjittered(m, attempt, beyond) == 1000 * Pow2(attempt - 1)
  {
    Pow2High();
    Pow2Monotone(attempt - 1, 53);
  }

  /** With the default delay of 1000 * p ms, p being the power of two, and half of that at least with jitter. */
  lemma DefaultTaken(d: Dialect, t: nat, m: Metadata, attempt: nat, beyond: Int64) returns (p: nat)
    requires DefaultPolicy(m) && 1 <= attempt <= 54
    ensures p == Pow2(attempt - 1) <= 0x20_0000_0000_0000
    ensures AllTaken(d, t, m, attempt, beyond) <==> Takes(d, t, 1000 * p)
    ensures NoneTaken(d, t, m, attempt, beyond) <==> !Takes(d, t, if m.backoffJitter then 500 * p else 1000 * p)
  {
    p := Pow2(attempt - 1);
    ExactDefaultDelay(m, attempt, beyond);
    assert TruncDiv(1000 * p, 2) == 500 * p;
    PolicyTakenExactly(d, t, m, attempt, beyond);
  }

  /** Where attempt lies, told from its power of two. */
  lemma PowerBounds(attempt: nat, p: nat, k: nat, at: nat)
    requires attempt >= 1 && p == Pow2(attempt - 1) && at == Pow2(k)
    ensures attempt <= k ==> 2 * p <= at
    ensures attempt == k + 1 ==> p == at
    ensures attempt >= k + 2 ==> p >= 2 * at
  {
    if attempt <= k {
      Pow2Monotone(attempt, k);
      assert Pow2(attempt) == 2 * p;
    } else if attempt >= k + 2 {
      Pow2Monotone(k + 1, attempt - 1);
      assert Pow2(k + 1) == 2 * at;
    }
  }

  lemma Pow2AboutInt32()
    ensures Pow2(22) == 0x40_0000
  {
    Pow2Sum(16, 6);
    Pow2Values();
    assert Pow2(6) == 64;
  }

  /** Postgres takes every default backoff exactly up to attempt 22, while jobs get 25 attempts by default; jitter lets
      some draws through at attempt 23. */
  lemma DefaultBackoffOverflowsPostgres(t: nat, m: Metadata, attempt: nat, beyond: Int64)
    requires DefaultPolicy(m) && 1 <= attempt <= 54
    ensures AllTaken(Postgres, t, m, attempt, beyond) <==> attempt <= 22
    ensures NoneTaken(Postgres, t, m, attempt, beyond) <==> attempt >= if m.backoffJitter then 24 else 23
  {
    var p := DefaultTaken(Postgres, t, m, attempt, beyond);
    Pow2AboutInt32();
    PowerBounds(attempt, p, 22, 0x40_0000);
    TakesExactly(t, 1000 * p);
    TakesExactly(t, 500 * p);
  }

  lemma Pow2AboutLastSecond()
    ensures Pow2(38) == 0x40_0000_0000
  {
    Pow2Values();
    Pow2Sum(32, 6);
    assert Pow2(6) == 64;
  }

  /** SQLite takes every default backoff exactly up to attempt 38, as long as the clock is 2^37 seconds short of the
      year 10000; jitter lets some draws through at attempt 39. */
  lemma DefaultBackoffOverflowsSQLite(t: nat, m: Metadata, attempt: nat, beyond: Int64)
    requires DefaultPolicy(m) && 1 <= attempt <= 54 && t / 1000 + 0x20_0000_0000 <= LAST_SECOND
    ensures AllTaken(SQLite, t, m, attempt, beyond) <==> attempt <= 38
    ensures NoneTaken(SQLite, t, m, attempt, beyond) <==> attempt >= if m.backoffJitter then 40 else 39
  {
    var p := DefaultTaken(SQLite, t, m, attempt, beyond);
    Pow2AboutLastSecond();
    PowerBounds(attempt, p, 38, 0x40_0000_0000);
    TakesExactly(t, 1000 * p);
    TakesExactly(t, 500 * p);
  }

  /** Beyond attempt 54 the default delays have wrapped: both databases refuse those of attempts 55 to 61, and take the
      backoff of 0 at attempts 62 and 63. */
  lemma WrappedDefaultBackoff(d: Dialect, t: nat, m: Metadata, attempt: nat, beyond: Int64)
    requires DefaultPolicy(m) && !m.backoffJitter && 55 <= attempt <= 63 && t / 1000 <= LAST_SECOND
    ensures AllTaken(d, t, m, attempt, beyond) <==> attempt >= 62
    ensures NoneTaken(d, t, m, attempt, beyond) <==> attempt <= 61
  {
    DefaultDelays(m, attempt, beyond);
    PolicyTakenExactly(d, t, m, attempt, beyond);
    TakesExactly(t, Unjittered(m, attempt, beyond));
  }

  /** SQLite fails, and changes nothing, exactly when the row would be retried and either the seconds come out negative
      (below -1998 ms, or where adding 999 wraps 64 bits) or the retry is due past the year 9999. */
  lemma SQLiteRefusesExactly(lockNs: nat, s: Store, t: nat, id: JobId, message: string, backoffMs: Int64)
    ensures var c, st := Config(SQLite, lockNs), Step(t, Event.FailJob(id, message, backoffMs));
      && (Result(c, s, st) == ErrDatabase <==>
            && id in s.jobs && s.jobs[id].status.Running? && s.jobs[id].attempt < s.jobs[id].maxAttempts
            && (backoffMs < -1998 || backoffMs > MAX_INT64 - 999
                || t / 1000 + (if backoffMs < 0 then 0 else (backoffMs + 999) / 1000) > LAST_SECOND))
      && (Result(c, s, st) != Done ==> Apply(c, s, st) == s)
  {
    var c, st := Config(SQLite, lockNs), Step(t, Event.FailJob(id, message, backoffMs));
    TakesExactly(t, backoffMs);
    if Result(c, s, st) != Done {
      assert Apply(c, s, st).jobs == s.jobs;
    }
  }

  /** Postgres fails, and changes nothing, exactly when the backoff does not fit 32 bits, whatever the row. */
  lemma PostgresRefusesExactly(lockNs: nat, s: Store, t: nat, id: JobId, message: string, backoffMs: Int64)
    ensures var c, st := Config(Postgres, lockNs), Step(t, Event.FailJob(id, message, backoffMs));
      && (Result(c, s, st) == ErrDatabase <==> backoffMs < MIN_INT32 || backoffMs > MAX_INT32)
      && (Result(c, s, st) != Done ==> Apply(c, s, st) == s)
  {
    var c, st := Config(Postgres, lockNs), Step(t, Event.FailJob(id, message, backoffMs));
    if Result(c, s, st) != Done {
      assert Apply(c, s, st).jobs == s.jobs;
    }
  }

  // ----- a delay that wraps below zero -----

  /** The policy delay is negative and Postgres takes it. */
  predicate WrapsEarly(d: Dialect, m: Metadata, attempt: nat, beyond: Int64) {
    d.Postgres? && !m.backoffJitter && MIN_INT32 <= Unjittered(m, attempt, beyond) < 0
  }

  /** Failing this running row with a delay of its policy makes it due earlier than it was. */
  ghost predicate MovesBack(c: Config, st: Step, j: Job, beyond: Int64) {
    && st.event.FailJob? && j.status.Running? && j.scheduledAt <= Stamp(c.dialect, st.at)
    && IsDelay(j.metadata, j.attempt, beyond, Some(st.event.backoffMs))
    && RowAfter(c, st, st.event.id, j).scheduledAt < j.scheduledAt
  }

  lemma MovesBackOnlyIfWrapped(c: Config, st: Step, j: Job, beyond: Int64)
    requires MovesBack(c, st, j, beyond)
    ensures WrapsEarly(c.dialect, j.metadata, j.attempt, beyond)
  {
    Timing.RetryNotBefore(c.dialect, st.at, st.event.backoffMs);
  }

  /** The policy moves the due time of some row backwards exactly when the delay, without jitter, has wrapped to a
      negative 32-bit number on Postgres. */
  lemma PolicyMovesBackExactly(c: Config, m: Metadata, attempt: nat, beyond: Int64)
    ensures (exists st: Step, j: Job :: j.metadata == m && j.attempt == attempt && MovesBack(c, st, j, beyond))
      <==> WrapsEarly(c.dialect, m, attempt, beyond)
  {
    if st: Step, j: Job :| j.metadata == m && j.attempt == attempt && MovesBack(c, st, j, beyond) {
      MovesBackOnlyIfWrapped(c, st, j, beyond);
    }
    if WrapsEarly(c.dialect, m, attempt, beyond) {
      var j := Job("", "", Running, 1, attempt, attempt + 1, 0, "", m, None, [], [], 0, 0, Some(0), None, Some(0));
      assert MovesBack(c, Step(0, Event.FailJob(0, "", Unjittered(m, attempt, beyond))), j, beyond);
    }
  }

  /** If step k fails the job, its backoff is a delay of the policy for the row as it was read before some earlier step,
      and that delay had not wrapped to a negative 32-bit number. */
  ghost predicate FromPolicy(c: Config, s: Store, steps: seq<Step>, beyond: Int64, id: JobId, k: nat)
    requires k < |steps|
  {
    steps[k].event.FailJob? && steps[k].event.id == id ==> exists i: nat :: ReadForFail(c, s, steps, beyond, i, k)
  }

  ghost predicate ReadForFail(c: Config, s: Store, steps: seq<Step>, beyond: Int64, i: nat, k: nat)
    requires k < |steps| && steps[k].event.FailJob?
  {
    var id := steps[k].event.id;
    && i <= k && id in At(c, s, steps, i).jobs
    && var j := At(c, s, steps, i).jobs[id];
      && IsDelay(j.metadata, j.attempt, beyond, Some(steps[k].event.backoffMs))
      && !WrapsEarly(c.dialect, j.metadata, j.attempt, beyond)
  }

  /** So while no delay of its policy has wrapped that way, no run moves the due time of a job backwards. */
  lemma PolicyKeepsSchedule(c: Config, s: Store, steps: seq<Step>, from: nat, beyond: Int64, id: JobId, i: nat, k: nat)
    requires i <= k <= |steps| && Valid(c, s, steps) && Timing.ClockedFrom(steps, from) && Timing.OnTime(c, s, from)
    requires forall n: nat :: n < |steps| ==> FromPolicy(c, s, steps, beyond, id, n)
    requires id in At(c, s, steps, i).jobs
    ensures id in At(c, s, steps, k).jobs
    ensures At(c, s, steps, i).jobs[id].scheduledAt <= At(c, s, steps, k).jobs[id].scheduledAt
  {
    forall n: nat | n < |steps|
      ensures Timing.NoEarlyRetry(c.dialect, steps[n], id)
    {
      assert FromPolicy(c, s, steps, beyond, id, n);
    }
    Timing.ScheduleNeverMovesBack(c, s, steps, from, id, i, k);
  }

  // ----- reading first, failing later -----

  /** The service reads the row at step i and fails the job at step k, with any statements in between: if the job
      still runs, the attempt read is at most the one failed, and the backoff is at most the one that attempt calls
      for. */
  lemma StaleReadNeverWaitsLonger(c: Config, s: Store, steps: seq<Step>, id: JobId, i: nat, k: nat, beyond: Int64)
    requires i <= k <= |steps|
    requires id in At(c, s, steps, i).jobs
    ensures id in At(c, s, steps, k).jobs
    ensures At(c, s, steps, k).jobs[id].metadata == At(c, s, steps, i).jobs[id].metadata
    ensures At(c, s, steps, i).jobs[id].attempt <= At(c, s, steps, k).jobs[id].attempt
    ensures var read, failed := At(c, s, steps, i).jobs[id], At(c, s, steps, k).jobs[id];
      Fits(failed.metadata, failed.attempt) ==>
        Unjittered(read.metadata, read.attempt, beyond) <= Unjittered(failed.metadata, failed.attempt, beyond)
  {
    Lifecycle.RunExtends(c, s, steps, i, k);
    var read, failed := At(c, s, steps, i).jobs[id], At(c, s, steps, k).jobs[id];
    assert Lifecycle.Evolves(read, failed);
    if Fits(failed.metadata, failed.attempt) {
      DelayMonotone(read.metadata, read.attempt, failed.attempt, beyond);
    }
  }

  lemma EarlierFits(m: Metadata, a: nat, b: nat)
    requires 1 <= a <= b && Fits(m, b)
    ensures Fits(m, a) && Exact(m, a) <= Exact(m, b)
  {
    Pow2Monotone(a - 1, b - 1);
    TimesMonotone(BaseDelay(m), Pow2(a - 1), Pow2(b - 1));
  }

  lemma TimesMonotone(base: nat, p: nat, q: nat)
    requires p <= q
    ensures base * p <= base * q
  {
  }

  lemma DelayMonotone(m: Metadata, a: nat, b: nat, beyond: Int64)
    requires a <= b && Fits(m, b)
    ensures Unjittered(m, a, beyond) <= Unjittered(m, b, beyond)
  {
    if m.backoffType == "exponential" {
      FitsMeansExact(m, b, beyond);
      if a >= 1 {
        EarlierFits(m, a, b);
        FitsMeansExact(m, a, beyond);
      }
    }
  }
}
