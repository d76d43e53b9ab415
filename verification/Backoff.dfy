/** Retrying GETs: exponential backoff in 64-bit nanoseconds, Retry-After, and
    the retry loop. */
module Backoff {
  import opened Ordering
  import opened Int64

  const SECOND: int := 1_000_000_000

  function Pow2(n: nat): (r: nat)
    ensures r >= 1
  {
    if n == 0 then 1 else 2 * Pow2(n - 1)
  }

  function Min(a: int, b: int): int {
    if a < b then a else b
  }

  /** `base << attempt` on int64, capped. */
  function Delay(attempt: nat, base: int, max: int): (d: int)
    ensures d <= max
  {
    var shifted := Wrap(base * Pow2(attempt));
    if shifted <= 0 || shifted > max then max else shifted
  }

  lemma {:induction false} Pow2Sum(a: nat, b: nat)
    ensures Pow2(a + b) == Pow2(a) * Pow2(b)
  {
    if a == 0 {
    } else {
      Pow2Sum(a - 1, b);
    }
  }

  lemma Pow2Of64()
    ensures Pow2(64) == TWO64
  {
    assert Pow2(4) == 16;
    Pow2Sum(4, 4);
    Pow2Sum(8, 8);
    Pow2Sum(16, 16);
    Pow2Sum(32, 32);
  }

  lemma MultipleIsLarge(d: int, p: int, k: int)
    requires p > 0 && d > 0 && d == p * k
    ensures d >= p
  {
    Monotone(p, k, 0);
    Monotone(p, k, 1);
  }

  lemma Monotone(p: int, a: int, b: int)
    requires p > 0
    ensures a <= b ==> p * a <= p * b
    ensures a >= b ==> p * a >= p * b
  {
  }

  /** What a shifted value wraps to is still a multiple of the power of two. */
  lemma WrapKeepsFactor(base: int, attempt: nat) returns (k: int)
    requires attempt <= 64
    ensures Wrap(base * Pow2(attempt)) == Pow2(attempt) * k
  {
    var p, x := Pow2(attempt), base * Pow2(attempt);
    Pow2Of64();
    Pow2Sum(attempt, 64 - attempt);
    var c := Pow2(64 - attempt);
    var q := (x + TWO63) / TWO64;
    assert Wrap(x) == x - q * TWO64;
    k := base - q * c;
    Distribute(p, base, q, c);
  }

  lemma Distribute(p: int, b: int, q: int, c: int)
    ensures p * (b - q * c) == p * b - q * (p * c)
  {
    assert p * (q * c) == q * (p * c);
  }

  lemma BigShiftWrapsToZero(base: int, attempt: nat)
    requires attempt >= 64
    ensures Wrap(base * Pow2(attempt)) == 0
  {
    Pow2Of64();
    Pow2Sum(attempt - 64, 64);
    var c := Pow2(attempt - 64);
    Associate(base, c, TWO64);
    MultipleWrapsToZero(base * c);
  }

  lemma Associate(a: int, b: int, c: int)
    ensures a * (b * c) == a * b * c
  {
  }

  lemma MultipleWrapsToZero(k: int)
    ensures Wrap(k * TWO64) == 0
  {
    assert (k * 0x1_0000_0000_0000_0000 + 0x8000_0000_0000_0000) % 0x1_0000_0000_0000_0000 == 0x8000_0000_0000_0000;
  }

  lemma LargerFactor(base: int, p: int, max: int)
    requires base > 0 && base * max < base * p
    ensures max < p
  {
    Monotone(base, max, p);
  }

  /** The shift of this attempt fits an int64, or wraps to something the cap
      replaces. */
  predicate Harmless(attempt: nat, base: int, max: int) {
    var shifted := base * Pow2(attempt);
    shifted < TWO63 || Wrap(shifted) <= 0 || Wrap(shifted) >= max
  }

  lemma DelayExactIff(attempt: nat, base: int, max: int)
    requires base > 0 && 0 < max < TWO63
    ensures Delay(attempt, base, max) == Min(base * Pow2(attempt), max) <==> Harmless(attempt, base, max)
  {
    Positive(base, Pow2(attempt));
  }

  /** The delay is base * 2^attempt capped at max on every attempt, if and only
      if the first 64 shifts are harmless: from the 64th on the shift is zero. */
  lemma DelayAlwaysExactIff(base: int, max: int)
    requires base > 0 && 0 < max < TWO63
    ensures (forall a: nat :: Delay(a, base, max) == Min(base * Pow2(a), max))
            <==> forall a: nat :: a < 64 ==> Harmless(a, base, max)
  {
    forall a: nat ensures Delay(a, base, max) == Min(base * Pow2(a), max) <==> Harmless(a, base, max) {
      DelayExactIff(a, base, max);
    }
    forall a: nat | a >= 64 ensures Harmless(a, base, max) { BigShiftWrapsToZero(base, a); }
  }

  /** A bound that needs no enumeration: the product of base and max fits an
      int64. */
  lemma DelaySaturates(attempt: nat, base: int, max: int)
    requires base > 0 && max > 0 && base * max < TWO63
    ensures Delay(attempt, base, max) == Min(base * Pow2(attempt), max)
  {
    assert max <= base * max by { Monotone(max, 1, base); }
    forall a: nat | a < 64 ensures Harmless(a, base, max) { SmallProductHarmless(a, base, max); }
    DelayAlwaysExactIff(base, max);
  }

  lemma SmallProductHarmless(attempt: nat, base: int, max: int)
    requires attempt < 64 && base > 0 && max > 0 && base * max < TWO63
    ensures Harmless(attempt, base, max)
  {
    var p := Pow2(attempt);
    var x := base * p;
    if x >= TWO63 {
      LargerFactor(base, p, max);
      var k := WrapKeepsFactor(base, attempt);
      if Wrap(x) > 0 { MultipleIsLarge(Wrap(x), p, k); }
    }
  }

  lemma Positive(a: int, b: int)
    requires a > 0 && b > 0
    ensures a * b > 0
  {
  }

  /** A harmful shift: 5 * 2^62 wraps to a positive value below the cap. */
  lemma DelayCanUndershoot()
    ensures !Harmless(62, 5, TWO62 + 1)
    ensures Delay(62, 5, TWO62 + 1) == TWO62 < Min(5 * Pow2(62), TWO62 + 1)
  {
    Pow2Of64();
    assert Pow2(64) == 4 * Pow2(62);
  }

  /** Retry-After seconds when the header holds a non-negative integer,
      otherwise the backoff. The product with a second wraps. */
  function RetryDelay(header: Option<int>, attempt: nat, base: int, max: int): (d: int)
    ensures d <= max
  {
    if header.Some? && header.value >= 0 then
      var d := Wrap(header.value * SECOND);
      if d > max then max else d
    else Delay(attempt, base, max)
  }

  /** A Retry-After of n seconds is honoured up to the cap exactly when its
      nanoseconds fit an int64 or wrap to at least the cap. */
  lemma RetryAfterHonouredIff(n: int, attempt: nat, base: int, max: int)
    requires n >= 0 && 0 < max < TWO63
    ensures RetryDelay(Some(n), attempt, base, max) == Min(n * SECOND, max)
            <==> n * SECOND < TWO63 || Wrap(n * SECOND) >= max
  {
  }

  lemma LongRetryAfterIsIgnored(attempt: nat, base: int, max: int)
    requires max > 0
    ensures RetryDelay(Some(9223372037), attempt, base, max) < 0
  {
    assert 9223372037 * SECOND == 9223372037000000000;
  }

  // ---------------------------------------------------------------------
  // The retry loop
  // ---------------------------------------------------------------------

  /** How one request ends. */
  datatype Response = TransportError | Status(code: int, retryAfter: Option<int>, readable: bool)

  datatype Outcome = Body | ReadFailed | NotFound | RateLimited | ServerFailure | Unexpected(code: int)

  predicate Retryable(r: Response) {
    r.TransportError? || (r.code != 200 && r.code != 404 && (r.code == 429 || r.code >= 500))
  }

  /** What a response that ends the loop, or is the last one, amounts to. */
  function Verdict(r: Response): Outcome {
    match r
    case TransportError => ServerFailure
    case Status(code, _, readable) =>
      if code == 200 then (if readable then Body else ReadFailed)
      else if code == 404 then NotFound
      else if code == 429 then RateLimited
      else if code >= 500 then ServerFailure
      else Unexpected(code)
  }

  /** How long a retryable response makes the loop sleep. */
  function SleepAfter(r: Response, attempt: nat, base: int, max: int): (d: nat)
    ensures max >= 0 ==> d <= max
  {
    var d := if r.Status? && r.code == 429 then RetryDelay(r.retryAfter, attempt, base, max)
      else Delay(attempt, base, max);
    if d <= 0 then 0 else d
  }

  function SleepBefore(responses: nat -> Response, n: nat, base: int, max: int): (d: nat)
  {
    if n == 0 then 0 else SleepBefore(responses, n - 1, base, max) + SleepAfter(responses(n - 1), n - 1, base, max)
  }

  function OrDefault(x: int, d: int): int {
    if x <= 0 then d else x
  }

  /** `responses(k)` is what attempt k gets. The last failing attempt also
      sleeps before the loop gives up. */
  method Get(responses: nat -> Response, maxRetries: int, baseDelay: int, maxDelay: int)
    returns (outcome: Outcome, requests: nat, slept: nat)
    ensures 1 <= requests <= (if maxRetries <= 0 then 3 else maxRetries) + 1
    ensures forall k: nat ::
      k < requests - 1 ==> responses(k).TransportError? || responses(k).code == 429 || responses(k).code >= 500
    ensures var last := responses(requests - 1);
      && (outcome == Body <==> last.Status? && last.code == 200 && last.readable)
      && (outcome == ReadFailed <==> last.Status? && last.code == 200 && !last.readable)
      && (outcome == NotFound <==> last.Status? && last.code == 404)
      && (outcome == RateLimited <==> last.Status? && last.code == 429)
      && (outcome == ServerFailure <==> last.TransportError? || last.code >= 500)
      && (outcome.Unexpected? ==> last.Status? && last.code == outcome.code)
    ensures outcome == RateLimited || outcome == ServerFailure ==>
      requests == (if maxRetries <= 0 then 3 else maxRetries) + 1
    ensures slept == SleepBefore(responses,
      if outcome == RateLimited || outcome == ServerFailure then requests else requests - 1,
      if baseDelay <= 0 then 500_000_000 else baseDelay, if maxDelay <= 0 then 30_000_000_000 else maxDelay)
    ensures slept <= requests * (if maxDelay <= 0 then 30_000_000_000 else maxDelay)
  {
    outcome, requests, slept :=
      Retry(responses, OrDefault(maxRetries, 3), OrDefault(baseDelay, SECOND / 2), OrDefault(maxDelay, 30 * SECOND));
    VerdictMeans(responses(requests - 1));
  }

  lemma VerdictMeans(r: Response)
    ensures Retryable(r) <==> Verdict(r) == RateLimited || Verdict(r) == ServerFailure
    ensures Verdict(r) == ServerFailure <==> r.TransportError? || r.code >= 500
  {
  }

  /** The loop, with the defaults filled in. */
  method Retry(responses: nat -> Response, retries: nat, base: int, max: nat)
    returns (outcome: Outcome, requests: nat, slept: nat)
    ensures 1 <= requests <= retries + 1
    ensures outcome == Verdict(responses(requests - 1))
    ensures forall k: nat :: k < requests - 1 ==> Retryable(responses(k))
    ensures Retryable(responses(requests - 1)) ==> requests == retries + 1
    ensures slept == SleepBefore(responses, if Retryable(responses(requests - 1)) then requests else requests - 1,
      base, max)
    ensures slept <= requests * max
  {
    requests, slept := 0, 0;
    outcome := ServerFailure;
    for attempt := 0 to retries + 1
      invariant requests == attempt
      invariant attempt > 0 ==> outcome == Verdict(responses(attempt - 1))
      invariant forall k: nat :: k < attempt ==> Retryable(responses(k))
      invariant slept == SleepBefore(responses, attempt, base, max)
    {
      requests := requests + 1;
      var r := responses(attempt);
      outcome := Verdict(r);
      if !Retryable(r) {
        SleepBounded(responses, attempt, base, max, requests);
        return;
      }
      slept := slept + SleepAfter(r, attempt, base, max);
    }
    SleepBounded(responses, retries + 1, base, max, requests);
  }

  lemma {:induction false} SleepBounded(responses: nat -> Response, n: nat, base: int, max: int, m: nat)
    requires max >= 0 && n <= m
    ensures SleepBefore(responses, n, base, max) <= m * max
  {
    if n == 0 {
    } else {
      SleepBounded(responses, n - 1, base, max, m - 1);
      assert (m - 1) * max + max == m * max;
    }
  }

  /** What one sleep comes to while base and cap are small enough not to wrap:
      a Retry-After in seconds on 429, otherwise the doubled base, both capped. */
  lemma SleepMeans(r: Response, attempt: nat, base: int, max: int)
    requires base > 0 && max > 0 && base * max < TWO63
    ensures r.TransportError? || r.code != 429 || r.retryAfter.None? || r.retryAfter.value < 0 ==>
      SleepAfter(r, attempt, base, max)
      == if base * Pow2(attempt) <= max then base * Pow2(attempt) else max
    ensures r.Status? && r.code == 429 && r.retryAfter.Some? && 0 <= r.retryAfter.value < 9_223_372_036 ==>
      SleepAfter(r, attempt, base, max)
      == if r.retryAfter.value * 1_000_000_000 <= max then r.retryAfter.value * 1_000_000_000 else max
  {
    DelaySaturates(attempt, base, max);
    Positive(base, Pow2(attempt));
  }

  /** A run of n failures without a Retry-After, all below the cap, sleeps the
      geometric sum. */
  lemma {:induction false} FailuresSleepGeometrically(responses: nat -> Response, n: nat, base: int, max: int)
    requires base > 0 && max > 0 && base * max < TWO63 && base * Pow2(n) <= 2 * max
    requires forall k: nat ::
      k < n ==> responses(k).TransportError? || responses(k).code != 429 || responses(k).retryAfter.None?
    ensures SleepBefore(responses, n, base, max) == base * Pow2(n) - base
  {
    if n == 0 {
    } else {
      var p := Pow2(n - 1);
      assert base * Pow2(n) == 2 * (base * p) by { Associate(base, 2, p); Associate(2, base, p); }
      Positive(base, p);
      FailuresSleepGeometrically(responses, n - 1, base, max);
      SleepMeans(responses(n - 1), n - 1, base, max);
    }
  }
}
