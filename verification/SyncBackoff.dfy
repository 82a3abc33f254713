/**
Exponential backoff between failed synchronizations of an integration connection: the delay, computed
on 64-bit integers, the gate that uses it, and what a run of failures behind that gate looks like.
*/
module SyncBackoff {
  import opened Wrappers

  const U64_MAX: int := 0xFFFF_FFFF_FFFF_FFFF

  type u64 = x: int | 0 <= x <= U64_MAX

  /** The most seconds a `TimeDelta` holds; beyond them, `TimeDelta::seconds` panics. */
  const DELTA_LIMIT: int := 9_223_372_036_854_775

  const NANOS: int := 1_000_000_000

  function Pow2(n: nat): (p: nat)
    ensures p >= 1
  {
    if n == 0 then 1 else 2 * Pow2(n - 1)
  }

  function SaturatingMul(x: u64, y: u64): u64 {
    if x * y > U64_MAX then U64_MAX else x * y
  }

  /** `1u64.checked_shl(n)`: refused from a shift of 64 on. */
  function CheckedShl(n: nat): Option<u64> {
    if n < 64 then PowBelow(n); Some(Pow2(n)) else None
  }

  /** `as i64`: the upper half of the range turns negative. */
  function AsI64(x: u64): int {
    if x > 0x7FFF_FFFF_FFFF_FFFF then x - (U64_MAX + 1) else x
  }

  function DelaySeconds(failures: nat, base: u64, cap: u64): u64
    requires failures > 0
  {
    var factor := match CheckedShl(failures - 1) case Some(f) => f case None => U64_MAX;
    var delay := SaturatingMul(base, factor);
    if delay < cap then delay else cap
  }

  /** `sync_backoff_delay` in seconds; `None` is the panic of `TimeDelta::seconds`. */
  function SyncBackoffDelay(failures: nat, base: u64, cap: u64): Option<int> {
    if failures == 0 then Some(0)
    else
      var seconds := AsI64(DelaySeconds(failures, base, cap));
      if -DELTA_LIMIT <= seconds <= DELTA_LIMIT then Some(seconds) else None
  }

  /** The delay over unbounded integers. */
  function Ideal(failures: nat, base: nat, cap: nat): (d: nat)
    ensures d <= cap
  {
    if failures == 0 then 0
    else if base * Pow2(failures - 1) < cap then base * Pow2(failures - 1) else cap
  }

  /******* Powers of two *******/

  lemma {:induction false} PowGrows(m: nat, n: nat)
    requires m <= n
    ensures Pow2(m) <= Pow2(n)
    decreases n
  {
    if m < n { PowGrows(m, n - 1); }
  }

  lemma PowSteps(n: nat)
    ensures Pow2(n + 8) == 256 * Pow2(n)
  {
    assert Pow2(n + 2) == 4 * Pow2(n);
    assert Pow2(n + 4) == 4 * Pow2(n + 2);
    assert Pow2(n + 6) == 4 * Pow2(n + 4);
    assert Pow2(n + 8) == 4 * Pow2(n + 6);
  }

  lemma PowAt63()
    ensures Pow2(63) == 0x8000_0000_0000_0000 && Pow2(64) == U64_MAX + 1
  {
    assert Pow2(1) == 2 * Pow2(0) && Pow2(64) == 2 * Pow2(63);
    hide Pow2;
    PowSteps(0); PowSteps(8); PowSteps(16); PowSteps(24); PowSteps(32); PowSteps(40); PowSteps(48); PowSteps(56);
  }

  lemma PowBelow(n: nat)
    ensures n < 64 ==> Pow2(n) <= U64_MAX
    ensures n >= 64 ==> Pow2(n) > U64_MAX
  {
    PowAt63();
    if n < 64 { PowGrows(n, 63); } else { PowGrows(64, n); }
  }

  lemma ScaleUp(base: nat, p: nat, q: nat)
    requires p <= q
    ensures base * p <= base * q && (base > 0 ==> q <= base * q)
  {
  }

  /******* The delay *******/

  /** For all failure counts, shifts of 64 and more included: the saturating form is the unbounded one. */
  lemma SaturationIsHarmless(failures: nat, base: u64, cap: u64)
    requires failures > 0
    ensures DelaySeconds(failures, base, cap) == Ideal(failures, base, cap)
  {
    var n := failures - 1;
    PowBelow(n);
  }

  /**
  For all failure counts, bases and caps: the delay is min(base * 2^(failures - 1), cap) exactly when
  that fits a `TimeDelta`; past it the cast makes the delay negative, or the call panics.
  */
  lemma DelayIs(failures: nat, base: u64, cap: u64)
    ensures var d := Ideal(failures, base, cap);
            SyncBackoffDelay(failures, base, cap) ==
            if d <= DELTA_LIMIT then Some(d)
            else if d > U64_MAX - DELTA_LIMIT then Some(d - U64_MAX - 1)
            else None
  {
    if failures > 0 { SaturationIsHarmless(failures, base, cap); }
  }

  lemma LargeFailures(base: u64, cap: u64)
    requires base > 0
    ensures Ideal(65, base, cap) == cap
  {
    PowBelow(64);
  }

  /** A configuration is safe for every failure count exactly when its cap fits (or its base is 0). */
  lemma SafeConfigurationIff(base: u64, cap: u64)
    ensures (forall failures: nat :: SyncBackoffDelay(failures, base, cap) == Some(Ideal(failures, base, cap)))
            <==> base == 0 || cap <= DELTA_LIMIT
  {
    if base == 0 || cap <= DELTA_LIMIT {
      forall failures: nat ensures SyncBackoffDelay(failures, base, cap) == Some(Ideal(failures, base, cap)) {
        DelayIs(failures, base, cap);
      }
    } else {
      LargeFailures(base, cap);
      DelayIs(65, base, cap);
      assert SyncBackoffDelay(65, base, cap) != Some(Ideal(65, base, cap));
    }
  }

  /** For all failure counts: one more failure never shortens the delay. */
  lemma IdealGrows(failures: nat, more: nat, base: nat, cap: nat)
    requires failures <= more
    ensures Ideal(failures, base, cap) <= Ideal(more, base, cap)
  {
    if failures > 0 {
      PowGrows(failures - 1, more - 1);
      ScaleUp(base, Pow2(failures - 1), Pow2(more - 1));
    }
  }

  lemma DelayGrows(failures: nat, more: nat, base: u64, cap: u64)
    requires failures <= more && (base == 0 || cap <= DELTA_LIMIT)
    ensures SyncBackoffDelay(failures, base, cap).Some? && SyncBackoffDelay(more, base, cap).Some?
    ensures 0 <= SyncBackoffDelay(failures, base, cap).value <= SyncBackoffDelay(more, base, cap).value <= cap
  {
    DelayIs(failures, base, cap);
    DelayIs(more, base, cap);
    IdealGrows(failures, more, base, cap);
  }

  /******* The gate *******/

  /** The failure bookkeeping of one kind of synchronization. */
  datatype Failures = Failures(count: nat, lastFailedAt: Option<int>)

  /** The delays in force, and the first and last instants a date can hold. */
  datatype Config = Config(base: u64, cap: u64, earliest: int, latest: int)

  predicate IsInstant(c: Config, at: int) {
    c.earliest <= at <= c.latest
  }

  /** `is_sync_in_backoff` at time `now`, in nanoseconds; `None` is a panic. */
  function InBackoff(f: Failures, now: int, c: Config): Option<bool> {
    if f.count == 0 || f.lastFailedAt.None? then Some(false)
    else
      match SyncBackoffDelay(f.count, c.base, c.cap)
      case None => None
      case Some(seconds) =>
        var until := f.lastFailedAt.value + seconds * NANOS;
        if !IsInstant(c, until) then None else Some(now < until)
  }

  /** The bookkeeping after a failed, and after a completed, synchronization. */
  function Failed(f: Failures, at: int): Failures {
    Failures(f.count + 1, Some(at))
  }

  function Completed(): Failures {
    Failures(0, None)
  }

  /** Once the gate turns false it stays false until the next failure. */
  lemma GateStaysOpen(f: Failures, now: int, later: int, c: Config)
    requires now <= later && InBackoff(f, now, c) == Some(false)
    ensures InBackoff(f, later, c) == Some(false)
  {
  }

  /** An open gate after a failure: its delay was computed and has passed. */
  lemma OpenGate(count: nat, failedAt: int, now: int, c: Config)
    requires count > 0 && InBackoff(Failures(count, Some(failedAt)), now, c) == Some(false)
    ensures SyncBackoffDelay(count, c.base, c.cap).Some?
    ensures Ideal(count, c.base, c.cap) <= DELTA_LIMIT ==> now >= failedAt + Ideal(count, c.base, c.cap) * NANOS
  {
    DelayIs(count, c.base, c.cap);
  }

  /******* Runs of failures *******/

  /** One failed attempt: when it passed the gate and when its failure was recorded. */
  datatype Attempt = Attempt(start: int, failed: int)

  function After(run: seq<Attempt>): Failures {
    if run == [] then Completed() else Failed(After(run[..|run| - 1]), run[|run| - 1].failed)
  }

  /** Every attempt starts when the gate is false, and fails no earlier than it starts, at instants a date can hold. */
  predicate IsRun(run: seq<Attempt>, c: Config) {
    run == [] ||
    var last := run[|run| - 1];
    && IsRun(run[..|run| - 1], c)
    && InBackoff(After(run[..|run| - 1]), last.start, c) == Some(false)
    && last.start <= last.failed && IsInstant(c, last.start) && IsInstant(c, last.failed)
  }

  function SumOfDelays(n: nat, base: nat, cap: nat): nat {
    if n == 0 then 0 else SumOfDelays(n - 1, base, cap) + Ideal(n, base, cap)
  }

  lemma {:induction false} CountIsLength(run: seq<Attempt>)
    ensures After(run).count == |run|
    ensures run != [] ==> After(run) == Failures(|run|, Some(run[|run| - 1].failed))
  {
    if run != [] { CountIsLength(run[..|run| - 1]); }
  }

  function FirstDelay(c: Config): nat {
    if c.base < c.cap then c.base else c.cap
  }

  lemma FirstDelayIs(c: Config)
    ensures Ideal(1, c.base, c.cap) == FirstDelay(c)
  {
    assert c.base * Pow2(0) == c.base;
  }

  /**
  The first delay does not turn negative, or it turns into so many seconds that no instant a date can
  hold lies that long after another.
  */
  predicate FirstDelayFits(c: Config) {
    || FirstDelay(c) <= U64_MAX - DELTA_LIMIT
    || (U64_MAX + 1 - FirstDelay(c)) * NANOS > c.latest - c.earliest
  }

  /** A delay at most doubles, so it cannot get past the delays that panic. */
  lemma DelayAtMostDoubles(n: nat, base: nat, cap: nat)
    requires n > 0
    ensures Ideal(n + 1, base, cap) <= 2 * Ideal(n, base, cap)
  {
  }

  /** An open gate after the first failure: the delay did not turn negative. */
  lemma FirstGateFits(failedAt: int, now: int, c: Config)
    requires FirstDelayFits(c) && IsInstant(c, failedAt) && InBackoff(Failures(1, Some(failedAt)), now, c) == Some(false)
    ensures Ideal(1, c.base, c.cap) <= DELTA_LIMIT
  {
    hide Ideal, SyncBackoffDelay;
    FirstDelayIs(c);
    DelayIs(1, c.base, c.cap);
  }

  lemma LaterDelayFits(n: nat, c: Config)
    requires n > 1 && SyncBackoffDelay(n, c.base, c.cap).Some? && Ideal(n - 1, c.base, c.cap) <= DELTA_LIMIT
    ensures Ideal(n, c.base, c.cap) <= DELTA_LIMIT
  {
    hide Ideal, SyncBackoffDelay;
    DelayIs(n, c.base, c.cap);
    DelayAtMostDoubles(n - 1, c.base, c.cap);
  }

  /**
  In every run, the time from the first failure to the last is at least the sum of the delays, and
  every delay that was waited for fits.
  */
  lemma {:induction false} FailuresAreSpread(run: seq<Attempt>, c: Config)
    requires run != [] && IsRun(run, c) && FirstDelayFits(c)
    ensures run[|run| - 1].failed - run[0].failed >= SumOfDelays(|run| - 1, c.base, c.cap) * NANOS
    ensures |run| > 1 ==> Ideal(|run| - 1, c.base, c.cap) <= DELTA_LIMIT
  {
    var n := |run| - 1;
    if n > 0 {
      var before := run[..n];
      FailuresAreSpread(before, c);
      CountIsLength(before);
      OpenGate(n, before[n - 1].failed, run[n].start, c);
      if n == 1 { FirstGateFits(before[0].failed, run[1].start, c); } else { LaterDelayFits(n, c); }
    }
  }

  ghost predicate AlwaysSpread(c: Config) {
    forall run: seq<Attempt> :: run != [] && IsRun(run, c) ==>
      run[|run| - 1].failed - run[0].failed >= SumOfDelays(|run| - 1, c.base, c.cap) * NANOS
  }

  /** Where the first delay does not fit, a failure late enough leaves the gate open at once: the second attempt does not wait. */
  lemma SecondAttemptDoesNotWait(c: Config)
    requires !FirstDelayFits(c)
    ensures var run := [Attempt(c.latest, c.latest), Attempt(c.latest, c.latest)];
            IsRun(run, c) && SumOfDelays(1, c.base, c.cap) > 0
  {
    hide Ideal, SyncBackoffDelay;
    var a := Attempt(c.latest, c.latest);
    assert [a][..0] == [] && [a, a][..1] == [a];
    CountIsLength([a]);
    FirstDelayIs(c);
    DelayIs(1, c.base, c.cap);
    assert IsRun([], c);
    assert IsRun([a], c);
    assert SumOfDelays(0, c.base, c.cap) == 0;
  }

  /** For every configuration: all its runs are spread exactly when its first delay fits. */
  lemma AlwaysSpreadIff(c: Config)
    ensures AlwaysSpread(c) <==> FirstDelayFits(c)
  {
    if FirstDelayFits(c) {
      forall run: seq<Attempt> | run != [] && IsRun(run, c)
        ensures run[|run| - 1].failed - run[0].failed >= SumOfDelays(|run| - 1, c.base, c.cap) * NANOS
      {
        FailuresAreSpread(run, c);
      }
    } else {
      hide IsRun, SumOfDelays;
      SecondAttemptDoesNotWait(c);
      var run := [Attempt(c.latest, c.latest), Attempt(c.latest, c.latest)];
      assert run[|run| - 1].failed - run[0].failed == 0;
    }
  }

  lemma UncappedDelay(n: nat, base: nat, cap: nat)
    requires n > 0 && base * Pow2(n - 1) <= cap
    ensures Ideal(n, base, cap) == base * Pow2(n - 1)
    ensures n > 1 ==> base * Pow2(n - 2) <= cap
  {
    if n > 1 { ScaleUp(base, Pow2(n - 2), Pow2(n - 1)); }
  }

  /** While uncapped, the delays double, and sum to base * (2^n - 1). */
  lemma {:induction false} UncappedSum(n: nat, base: nat, cap: nat)
    requires n > 0 ==> base * Pow2(n - 1) <= cap
    ensures SumOfDelays(n, base, cap) == base * (Pow2(n) - 1)
  {
    if n > 0 {
      UncappedDelay(n, base, cap);
      hide Ideal;
      UncappedSum(n - 1, base, cap);
    }
  }

  /** In every run that stays under the cap, the n-th failure after the first comes base * (2^n - 1) later or more. */
  lemma UncappedRun(run: seq<Attempt>, c: Config)
    requires run != [] && IsRun(run, c) && FirstDelayFits(c)
    requires |run| > 1 ==> c.base * Pow2(|run| - 2) <= c.cap
    ensures run[|run| - 1].failed - run[0].failed >= c.base * (Pow2(|run| - 1) - 1) * NANOS
  {
    FailuresAreSpread(run, c);
    UncappedSum(|run| - 1, c.base, c.cap);
  }

  /******* The gate opens when the wait is over *******/

  /**
  For all failures, instants and configurations whose delay and end of the wait can be represented:
  the gate is closed exactly until the delay has passed.
  */
  lemma ClosedUntil(f: Failures, now: int, c: Config)
    requires f.count > 0 && f.lastFailedAt.Some? && Ideal(f.count, c.base, c.cap) <= DELTA_LIMIT
    requires IsInstant(c, f.lastFailedAt.value + Ideal(f.count, c.base, c.cap) * 1_000_000_000)
    ensures InBackoff(f, now, c) == Some(now < f.lastFailedAt.value + Ideal(f.count, c.base, c.cap) * 1_000_000_000)
  {
    DelayIs(f.count, c.base, c.cap);
  }

  /** Without a failure on record there is nothing to wait for: at first, and after each completed synchronization. */
  lemma OpenWithoutFailure(f: Failures, at: int, now: int, c: Config)
    requires f.count == 0 || f.lastFailedAt.None?
    ensures InBackoff(f, now, c) == Some(false) && InBackoff(Completed(), now, c) == Some(false)
    ensures Failed(Completed(), at) == Failures(1, Some(at))
  {
  }

  /** Attempts that each start, and fail, exactly one delay after the failure before. */
  function PromptRun(first: int, n: nat, base: nat, cap: nat): (run: seq<Attempt>)
    ensures |run| == n + 1 && run[0] == Attempt(first, first)
    ensures run[n].failed == first + SumOfDelays(n, base, cap) * NANOS
  {
    if n == 0 then [Attempt(first, first)]
    else
      var before := PromptRun(first, n - 1, base, cap);
      var at := before[n - 1].failed + Ideal(n, base, cap) * NANOS;
      before + [Attempt(at, at)]
  }

  /**
  For every number of failures whose delays and instants can be represented: prompt attempts pass the
  gate, so the bound on the time between failures is attained.
  */
  lemma {:induction false} PromptRunPasses(first: int, n: nat, c: Config)
    requires Ideal(n, c.base, c.cap) <= DELTA_LIMIT
    requires IsInstant(c, first) && IsInstant(c, first + SumOfDelays(n, c.base, c.cap) * NANOS)
    ensures IsRun(PromptRun(first, n, c.base, c.cap), c)
    ensures var run := PromptRun(first, n, c.base, c.cap);
            run[|run| - 1].failed - run[0].failed == SumOfDelays(|run| - 1, c.base, c.cap) * NANOS
  {
    hide IsRun, Ideal, SumOfDelays, PromptRun;
    if n == 0 {
      FirstAttemptPasses(first, c);
      PromptStart(first, c);
    } else {
      IdealGrows(n - 1, n, c.base, c.cap);
      PromptStep(first, n, c);
      PromptRunPasses(first, n - 1, c);
      var at := first + SumOfDelays(n, c.base, c.cap) * NANOS;
      PromptAttemptPasses(PromptRun(first, n - 1, c.base, c.cap), at, n, c);
    }
  }

  lemma PromptStart(first: int, c: Config)
    ensures PromptRun(first, 0, c.base, c.cap) == [Attempt(first, first)] && SumOfDelays(0, c.base, c.cap) == 0
  {
  }

  lemma PromptStep(first: int, n: nat, c: Config)
    requires n > 0
    ensures var at := first + SumOfDelays(n, c.base, c.cap) * NANOS;
            PromptRun(first, n, c.base, c.cap) == PromptRun(first, n - 1, c.base, c.cap) + [Attempt(at, at)]
    ensures SumOfDelays(n, c.base, c.cap) == SumOfDelays(n - 1, c.base, c.cap) + Ideal(n, c.base, c.cap)
  {
    hide Ideal;
  }

  lemma FirstAttemptPasses(first: int, c: Config)
    requires IsInstant(c, first)
    ensures IsRun([Attempt(first, first)], c)
  {
    assert [Attempt(first, first)][..0] == [] && IsRun([], c);
  }

  lemma PromptAttemptPasses(before: seq<Attempt>, at: int, n: nat, c: Config)
    requires n > 0 && |before| == n && IsRun(before, c) && Ideal(n, c.base, c.cap) <= DELTA_LIMIT
    requires at == before[n - 1].failed + Ideal(n, c.base, c.cap) * NANOS && IsInstant(c, at)
    ensures IsRun(before + [Attempt(at, at)], c)
  {
    hide Ideal, SyncBackoffDelay, InBackoff;
    var run := before + [Attempt(at, at)];
    CountIsLength(before);
    assert run[..n] == before;
    ClosedUntil(After(before), at, c);
  }
}
