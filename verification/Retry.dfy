/** Retrying with backoff (pkg/reliability/retry.go), alone and through the circuit breaker
    (pkg/imap/client.go:1397-1405). Durations are nanoseconds; the arithmetic on floats is done
    over reals and truncated where the source truncates. */
module Retry {
  import opened Common
  import opened Breaker

  datatype Config = Config(maxAttempts: int, initialDelay: int, maxDelay: int, backoffFactor: real, jitter: bool)

  const SECOND: int := 1000000000
  const BREAKER_WAIT: int := 150 * SECOND

  // ---------- the configuration ----------

  /** The guards at the top of RetryWithBackoff. */
  function Sanitized(c: Config): (r: Config)
    ensures Sane(r)
    ensures Sane(c) ==> r == c
    ensures r.maxAttempts == if c.maxAttempts >= 1 then c.maxAttempts else 1
    ensures r.initialDelay == (if c.initialDelay > 0 then c.initialDelay else 100000000) && r.jitter == c.jitter
    ensures r.maxDelay == r.initialDelay || r.maxDelay == if c.maxDelay > 0 then c.maxDelay else 30 * SECOND
    ensures r.backoffFactor == if c.backoffFactor > 1.0 then c.backoffFactor else 2.0
  {
    var attempts := if c.maxAttempts <= 0 then 1 else c.maxAttempts;
    var initial := if c.initialDelay <= 0 then SECOND / 10 else c.initialDelay;
    var max := if c.maxDelay <= 0 then 30 * SECOND else c.maxDelay;
    var factor := if c.backoffFactor <= 1.0 then 2.0 else c.backoffFactor;
    Config(attempts, initial, if max < initial then initial else max, factor, c.jitter)
  }

  predicate Sane(c: Config) {
    c.maxAttempts >= 1 && 0 < c.initialDelay <= c.maxDelay && c.backoffFactor > 1.0
  }

  // ---------- the delay ----------

  function Pow(f: real, n: nat): real { if n == 0 then 1.0 else f * Pow(f, n - 1) }

  function Least(a: real, b: real): real { if a < b then a else b }

  /** min(Initial * factor^n, Max) */
  function BaseDelay(c: Config, n: nat): real {
    Least(c.initialDelay as real * Pow(c.backoffFactor, n), c.maxDelay as real)
  }

  lemma {:induction false} PowGrows(f: real, n: nat)
    requires f > 1.0
    ensures 1.0 <= Pow(f, n) < Pow(f, n + 1)
  {
    if n > 0 {
      PowGrows(f, n - 1);
      Times(f, 1.0, Pow(f, n));
    } else {
      assert Pow(f, 1) == f * Pow(f, 0);
    }
  }

  /** y <= b and f > 1 give y < f * b for a positive b. */
  lemma Times(f: real, a: real, b: real)
    requires f > 1.0 && a <= b && a > 0.0
    ensures b < f * b
  {
    assert f * b - b == (f - 1.0) * b;
  }

  lemma DelaysGrow(c: Config, n: nat)
    requires Sane(c)
    ensures c.initialDelay as real <= BaseDelay(c, n) <= BaseDelay(c, n + 1) <= c.maxDelay as real
    ensures BaseDelay(c, n) < BaseDelay(c, n + 1) <==> BaseDelay(c, n) < c.maxDelay as real
  {
    hide Pow;
    PowGrows(c.backoffFactor, n);
    LeastGrows(c.initialDelay as real, Pow(c.backoffFactor, n), Pow(c.backoffFactor, n + 1), c.maxDelay as real);
  }

  lemma PowStep(f: real, n: nat)
    ensures Pow(f, 0) == 1.0 && Pow(f, n + 1) == f * Pow(f, n)
  {
  }

  /** Exponential backoff: each base delay is the one before times the factor, up to the maximum. */
  lemma DelaysMultiply(c: Config, n: nat)
    requires Sane(c)
    ensures BaseDelay(c, 0) == c.initialDelay as real
    ensures BaseDelay(c, n + 1) == Least(BaseDelay(c, n) * c.backoffFactor, c.maxDelay as real)
  {
    FirstDelay(c);
    var x := NextDelay(c, n);
    CappedTimes(x, BaseDelay(c, n), c.backoffFactor, c.maxDelay as real);
  }

  lemma NextDelay(c: Config, n: nat) returns (x: real)
    ensures BaseDelay(c, n) == Least(x, c.maxDelay as real)
    ensures BaseDelay(c, n + 1) == Least(x * c.backoffFactor, c.maxDelay as real)
  {
    PowStep(c.backoffFactor, n);
    hide Pow;
    x := c.initialDelay as real * Pow(c.backoffFactor, n);
    Reordered(c.initialDelay as real, c.backoffFactor, Pow(c.backoffFactor, n));
    assert x * c.backoffFactor == c.initialDelay as real * Pow(c.backoffFactor, n + 1);
  }

  lemma FirstDelay(c: Config)
    requires Sane(c)
    ensures BaseDelay(c, 0) == c.initialDelay as real
  {
  }

  lemma Reordered(i: real, f: real, p: real)
    ensures i * (f * p) == (i * p) * f
  {
  }

  lemma CappedTimes(x: real, d: real, f: real, m: real)
    requires d == Least(x, m) && f > 1.0 && m > 0.0
    ensures Least(x * f, m) == Least(d * f, m)
  {
    if x >= m {
      Times(f, m, x);
      Times(f, m, m);
      assert x * f == f * x && m * f == f * m;
    }
  }

  lemma LeastGrows(i: real, p: real, q: real, m: real)
    requires 0.0 < i <= m && 1.0 <= p < q
    ensures i <= Least(i * p, m) <= Least(i * q, m) <= m
    ensures Least(i * p, m) < Least(i * q, m) <==> Least(i * p, m) < m
  {
    Monotone(i, 1.0, p);
    assert i * q - i * p == i * (q - p);
    Monotone(i, 0.0, q - p);
    assert i * (q - p) > 0.0;
  }

  lemma Monotone(i: real, a: real, b: real)
    requires i > 0.0 && a <= b
    ensures i * a <= i * b
  {
  }

  /** The source compares exponents; on reals that is comparing the product with the maximum. */
  lemma OvershootMeans(i: real, p: real, m: real)
    requires i > 0.0
    ensures p > m / i <==> i * p > m
  {
    var q := m / i;
    assert q * i == m;
    assert i * p - m == i * (p - q);
  }

  /** The overflow test and the cap. */
  function CappedDelay(initial: real, multiplier: real, max: real): (d: real)
    requires initial > 0.0
    ensures d == Least(initial * multiplier, max)
  {
    OvershootMeans(initial, multiplier, max);
    if multiplier > max / initial then max else Least(initial * multiplier, max)
  }

  function Stretched(delay: real, random: real): real { delay * (1.0 + 0.25 * random) }

  /** Up to a quarter on top, but not past the maximum. */
  function Jittered(delay: real, random: real, max: real): (d: real)
    requires 0.0 < delay <= max && 0.0 <= random < 1.0
    ensures delay <= d <= max && d <= delay * 1.25
    ensures d == Least(Stretched(delay, random), max)
  {
    JitterBounds(delay, random);
    assert random * (delay * 0.25) == delay * (0.25 * random);
    Least(delay + random * (delay * 0.25), max)
  }

  function CalculateDelay(c: Config, attempt: nat, random: real): (d: int)
    requires Sane(c) && 0.0 <= random < 1.0
    ensures BaseDelay(c, attempt).Floor <= d <= c.maxDelay
    ensures d as real <= BaseDelay(c, attempt) * 1.25
    ensures !c.jitter ==> d == BaseDelay(c, attempt).Floor
    ensures c.jitter ==> d == Least(Stretched(BaseDelay(c, attempt), random), c.maxDelay as real).Floor
  {
    hide Pow, Jittered, Stretched;
    DelaysGrow(c, attempt);
    var max := c.maxDelay as real;
    var delay := CappedDelay(c.initialDelay as real, Pow(c.backoffFactor, attempt), max);
    (if c.jitter then Jittered(delay, random, max) else delay).Floor
  }

  lemma JitterBounds(delay: real, random: real)
    requires delay > 0.0 && 0.0 <= random < 1.0
    ensures delay <= delay + random * (delay * 0.25) <= delay * 1.25
  {
    var q := delay * 0.25;
    assert 0.0 <= random * q <= q by { assert q - random * q == (1.0 - random) * q; }
  }

  // ---------- which errors are tried again ----------

  function ShouldRetry(err: Error): bool {
    err.CircuitBreakerOpen? || err.TooManyRequests? ||
    err.category in {Temporary, Network, Timeout}
  }

  function WaitAfter(c: Config, attempt: nat, err: Error, random: real): (d: int)
    requires Sane(c) && 0.0 <= random < 1.0
  {
    var delay := CalculateDelay(c, attempt, random);
    if (err.CircuitBreakerOpen? || err.TooManyRequests?) && delay < BREAKER_WAIT then BREAKER_WAIT else delay
  }

  /** The schedule: at least the base delay, never above the maximum except after a refusal by
      the breaker, which is waited out for at least 150 seconds. */
  lemma WaitBounds(c: Config, attempt: nat, err: Error, random: real)
    requires Sane(c) && 0.0 <= random < 1.0
    ensures var w := WaitAfter(c, attempt, err, random);
      && BaseDelay(c, attempt).Floor <= w
      && (err.Other? ==> w <= c.maxDelay && w == CalculateDelay(c, attempt, random))
      && (!err.Other? ==> w >= BREAKER_WAIT && (w <= c.maxDelay || w == BREAKER_WAIT))
  {
  }

  // ---------- the loop ----------

  /** What the environment contributes to attempt n: the function's own error, the time it and
      the lock take, whether the context is found cancelled, the random number, and by how much
      the timer fires late. */
  datatype Attempt = Attempt(
    result: Option<Error>, lockTime: nat, runTime: nat,
    cancelled: bool, cancelledWaiting: bool, random: real, late: nat)

  /** One attempt as it happened: asked for when, did the inner function run, what came back. */
  datatype Tried = Tried(at: int, ran: bool, err: Option<Error>)

  datatype Outcome = Done | Failed(error: Error) | Cancelled

  ghost predicate Continues(c: Config, n: nat, err: Option<Error>, a: Attempt) {
    err.Some? && n != c.maxAttempts - 1 && ShouldRetry(err.value) && !a.cancelled && !a.cancelledWaiting
  }

  ghost predicate Randomized(world: nat -> Attempt) { forall n: nat :: 0.0 <= world(n).random < 1.0 }

  ghost function OutcomeOf(c: Config, n: nat, err: Option<Error>, a: Attempt): Outcome {
    if err.None? then Done
    else if n == c.maxAttempts - 1 || !ShouldRetry(err.value) then Failed(err.value)
    else Cancelled
  }

  /** When attempt n + 1 starts, if there is one: after attempt n's own time, the wait, and the
      timer's lateness. */
  ghost function NextAt(c: Config, n: nat, t: Tried, a: Attempt): int
    requires Sane(c) && 0.0 <= a.random < 1.0
  {
    if t.err.None? then t.at
    else t.at + a.lockTime + a.runTime + WaitAfter(c, n, t.err.value, a.random) + a.late
  }

  ghost predicate Schedule(c: Config, world: nat -> Attempt, trace: seq<Tried>, start: int)
    requires Sane(c) && Randomized(world)
  {
    && (trace != [] ==> trace[0].at == start)
    && forall i: nat :: i + 1 < |trace| ==>
      Continues(c, i, trace[i].err, world(i)) && trace[i + 1].at == NextAt(c, i, trace[i], world(i))
  }

  /** `trace` is over, and the next attempt is due at `now`. */
  ghost predicate Reached(c: Config, world: nat -> Attempt, trace: seq<Tried>, start: int, now: int)
    requires Sane(c) && Randomized(world)
  {
    && Schedule(c, world, trace, start)
    && if trace == [] then now == start
       else
         var n := |trace| - 1;
         Continues(c, n, trace[n].err, world(n)) && now == NextAt(c, n, trace[n], world(n))
  }

  lemma ReachedGrows(c: Config, world: nat -> Attempt, trace: seq<Tried>, start: int, now: int, t: Tried)
    requires Sane(c) && Randomized(world) && Reached(c, world, trace, start, now) && t.at == now
    ensures Schedule(c, world, trace + [t], start)
    ensures Continues(c, |trace|, t.err, world(|trace|)) ==>
      Reached(c, world, trace + [t], start, NextAt(c, |trace|, t, world(|trace|)))
  {
    hide Continues, NextAt;
  }

  /** What each attempt returned: the function's own error, or the breaker's refusal. */
  ghost predicate Answers(world: nat -> Attempt, trace: seq<Tried>, direct: bool) {
    forall i: nat :: i < |trace| ==>
      && (direct ==> trace[i].ran)
      && trace[i].err == if trace[i].ran then world(i).result else Some(CircuitBreakerOpen)
  }

  /** Two refusals in a row never happen. */
  ghost predicate NoDoubleRefusal(trace: seq<Tried>) {
    forall i: nat :: i + 1 < |trace| ==> trace[i].ran || trace[i + 1].ran
  }

  /** fn: through the breaker when there is one. */
  method Try(breaker: CircuitBreaker?, a: Attempt, now: int) returns (ran: bool, err: Option<Error>)
    requires breaker != null ==> breaker.Valid()
    modifies breaker, if breaker == null then null else breaker.observer
    ensures breaker == null ==> ran && err == a.result
    ensures breaker != null ==>
      && breaker.Valid() && breaker.observer == old(breaker.observer)
      && (ran <==> Allowed(old(breaker.history), breaker.maxFailures, breaker.timeout, now))
      && err == (if ran then a.result else Some(CircuitBreakerOpen))
      && breaker.history == (if ran then old(breaker.history) + [Ran(a.result.None?, now + a.lockTime + a.runTime)]
                             else old(breaker.history))
      && (old(breaker.Mirrored()) ==> breaker.Mirrored())
  {
    hide Allowed, Trailing, ModeAfter, Chain, ChangesOf, Reports, CircuitBreaker.Mirrored, CircuitBreaker.Valid;
    if breaker == null {
      return true, a.result;
    }
    var finished := now + a.lockTime + a.runTime;
    ran, err := breaker.Execute(a.result, now, now + a.lockTime, finished, now + a.lockTime, finished);
  }

  ghost predicate PastHistory(h: seq<Ran>, now: int) { h != [] ==> h[|h| - 1].at <= now }

  lemma AllowedAfterWait(h: seq<Ran>, maxFailures: nat, timeout: int, now: int, later: int)
    requires maxFailures > 0 && PastHistory(h, now) && timeout < BREAKER_WAIT && later >= now + BREAKER_WAIT
    ensures Allowed(h, maxFailures, timeout, later)
  {
    TrailingIsFailed(h);
  }

  /** The last attempt ran, or the next one will. */
  ghost predicate Patient(h: seq<Ran>, maxFailures: nat, timeout: int, trace: seq<Tried>, now: int)
    requires maxFailures > 0
  {
    && PastHistory(h, now)
    && (timeout < BREAKER_WAIT ==>
          && NoDoubleRefusal(trace)
          && (trace != [] && !trace[|trace| - 1].ran ==> Allowed(h, maxFailures, timeout, now)))
  }

  lemma WaitIsForward(c: Config, n: nat, t: Tried, a: Attempt)
    requires Sane(c) && 0.0 <= a.random < 1.0
    ensures NextAt(c, n, t, a) >= t.at
    ensures t.err.Some? ==> NextAt(c, n, t, a) >= t.at + a.lockTime + a.runTime
    ensures t.err == Some(CircuitBreakerOpen) ==> NextAt(c, n, t, a) >= t.at + BREAKER_WAIT
  {
    if t.err.Some? {
      WaitBounds(c, n, t.err.value, a.random);
      DelaysGrow(c, n);
    }
  }

  /** fn is tried at most MaxAttempts times (once if that is not positive), each time but the
      last because it failed with an error worth retrying and nobody cancelled; the attempts
      follow the schedule; and with a sole caller and a breaker timeout below 150 seconds, a
      refused attempt is never followed by another refused one. */
  method RetryWithBackoff(config: Config, breaker: CircuitBreaker?, world: nat -> Attempt, start: int)
    returns (outcome: Outcome, trace: seq<Tried>)
    requires Randomized(world)
    requires breaker != null ==> breaker.Valid() && PastHistory(breaker.history, start)
    modifies breaker, if breaker == null then null else breaker.observer
    ensures 1 <= |trace| <= if config.maxAttempts >= 1 then config.maxAttempts else 1
    ensures Schedule(Sanitized(config), world, trace, start)
    ensures var n := |trace| - 1;
      && !Continues(Sanitized(config), n, trace[n].err, world(n))
      && outcome == OutcomeOf(Sanitized(config), n, trace[n].err, world(n))
    ensures Answers(world, trace, breaker == null)
    ensures breaker != null && breaker.timeout < BREAKER_WAIT ==> NoDoubleRefusal(trace)
    ensures breaker != null ==> breaker.Valid() && (old(breaker.Mirrored()) ==> breaker.Mirrored())
  {
    hide WaitAfter, Allowed, Schedule, NextAt, Sanitized, Trailing, Reached, Patient;
    hide Continues, OutcomeOf, Answers, ShouldRetry, CircuitBreaker.Mirrored;
    var c := Sanitized(config);
    var attempt, now := 0, start;
    var lastErr := Other(Temporary);
    trace := [];
    Starts(c, world, start, breaker == null);
    if breaker != null { PatientAtFirst(breaker.history, breaker.maxFailures, breaker.timeout, start); }
    while attempt < c.maxAttempts
      invariant 0 <= attempt < c.maxAttempts && |trace| == attempt
      invariant Reached(c, world, trace, start, now)
      invariant Answers(world, trace, breaker == null)
      invariant breaker != null ==> breaker.Valid()
      invariant breaker != null ==> breaker.observer == old(breaker.observer)
      invariant breaker != null ==> old(breaker.Mirrored()) ==> breaker.Mirrored()
      invariant breaker != null ==> Patient(breaker.history, breaker.maxFailures, breaker.timeout, trace, now)
    {
      var a := world(attempt);
      ghost var before := if breaker == null then [] else breaker.history;
      var ran, err := Try(breaker, a, now);
      var t := Tried(now, ran, err);
      ReachedGrows(c, world, trace, start, now, t);
      AnswersGrow(world, trace, breaker == null, t);
      StopsOrGoesOn(c, attempt, err, a);
      if breaker != null { Progress(c, breaker.maxFailures, breaker.timeout, before, trace, t, attempt, a); }
      trace := trace + [t];
      if err == None {
        return Done, trace;
      }
      lastErr := err.value;
      if attempt == c.maxAttempts - 1 {
        break;
      }
      if !ShouldRetry(err.value) {
        return Failed(err.value), trace;
      }
      if a.cancelled {
        return Cancelled, trace;
      }
      var delay := WaitAfter(c, attempt, err.value, a.random);
      if a.cancelledWaiting {
        return Cancelled, trace;
      }
      NextIs(c, attempt, t, a);
      now := now + a.lockTime + a.runTime + delay + a.late;
      attempt := attempt + 1;
    }
    return Failed(lastErr), trace;
  }

  lemma AnswersGrow(world: nat -> Attempt, trace: seq<Tried>, direct: bool, t: Tried)
    requires Answers(world, trace, direct) && (direct ==> t.ran)
    requires t.err == if t.ran then world(|trace|).result else Some(CircuitBreakerOpen)
    ensures Answers(world, trace + [t], direct)
  {
  }

  /** The tests after an attempt, in the order the source makes them. */
  lemma StopsOrGoesOn(c: Config, n: nat, err: Option<Error>, a: Attempt)
    ensures err.None? ==> !Continues(c, n, err, a) && OutcomeOf(c, n, err, a) == Done
    ensures err.Some? && (n == c.maxAttempts - 1 || !ShouldRetry(err.value)) ==>
      !Continues(c, n, err, a) && OutcomeOf(c, n, err, a) == Failed(err.value)
    ensures err.Some? && n != c.maxAttempts - 1 && ShouldRetry(err.value) ==>
      if a.cancelled || a.cancelledWaiting then !Continues(c, n, err, a) && OutcomeOf(c, n, err, a) == Cancelled
      else Continues(c, n, err, a)
  {
  }

  /** An error of authentication or a permanent one is not worth another attempt. */
  predicate Fatal(err: Error) { err.Other? && (err.category.Authentication? || err.category.Permanent?) }

  /** What the outcome and the length of a trace say about its errors: nothing is tried again after
      a success or a fatal error, and a loop that fails early fails for a fatal error. */
  lemma FatalErrorsEnd(c: Config, world: nat -> Attempt, trace: seq<Tried>, start: int, outcome: Outcome)
    requires Sane(c) && Randomized(world) && Schedule(c, world, trace, start) && 1 <= |trace| <= c.maxAttempts
    requires var n := |trace| - 1;
      && !Continues(c, n, trace[n].err, world(n))
      && outcome == OutcomeOf(c, n, trace[n].err, world(n))
    ensures forall i :: 0 <= i < |trace| - 1 ==> trace[i].err.Some? && !Fatal(trace[i].err.value)
    ensures var last := trace[|trace| - 1].err;
      && (outcome.Done? <==> last.None?)
      && (last.Some? && Fatal(last.value) ==> outcome == Failed(last.value))
      && (outcome.Failed? ==> last == Some(outcome.error) && (Fatal(outcome.error) || |trace| == c.maxAttempts))
      && (outcome.Cancelled? ==> world(|trace| - 1).cancelled || world(|trace| - 1).cancelledWaiting)
  {
    forall i | 0 <= i < |trace| - 1 ensures trace[i].err.Some? && !Fatal(trace[i].err.value) {
      assert Continues(c, i, trace[i].err, world(i));
    }
  }

  lemma NextIs(c: Config, n: nat, t: Tried, a: Attempt)
    requires Sane(c) && 0.0 <= a.random < 1.0 && t.err.Some?
    ensures NextAt(c, n, t, a) == t.at + a.lockTime + a.runTime + WaitAfter(c, n, t.err.value, a.random) + a.late
  {
  }

  lemma Starts(c: Config, world: nat -> Attempt, start: int, direct: bool)
    requires Sane(c) && Randomized(world)
    ensures Reached(c, world, [], start, start) && Answers(world, [], direct)
  {
  }

  lemma PatientAtFirst(h: seq<Ran>, maxFailures: nat, timeout: int, now: int)
    requires maxFailures > 0 && PastHistory(h, now)
    ensures Patient(h, maxFailures, timeout, [], now)
  {
  }

  /** The breaker's history after an attempt, given the one when it was asked. */
  ghost function HistoryAfter(h: seq<Ran>, t: Tried, a: Attempt): seq<Ran> {
    if t.ran then h + [Ran(a.result.None?, t.at + a.lockTime + a.runTime)] else h
  }

  lemma Progress(c: Config, maxFailures: nat, timeout: int, h: seq<Ran>,
                 trace: seq<Tried>, t: Tried, n: nat, a: Attempt)
    requires Sane(c) && 0.0 <= a.random < 1.0
    requires maxFailures > 0 && Patient(h, maxFailures, timeout, trace, t.at)
    requires t.ran <==> Allowed(h, maxFailures, timeout, t.at)
    requires !t.ran ==> t.err == Some(CircuitBreakerOpen)
    ensures timeout < BREAKER_WAIT ==> NoDoubleRefusal(trace + [t])
    ensures t.err.Some? ==> Patient(HistoryAfter(h, t, a), maxFailures, timeout, trace + [t], NextAt(c, n, t, a))
  {
    hide Allowed, NextAt;
    WaitIsForward(c, n, t, a);
    if !t.ran && timeout < BREAKER_WAIT {
      AllowedAfterWait(h, maxFailures, timeout, t.at, NextAt(c, n, t, a));
    }
  }
}
