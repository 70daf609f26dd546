/** Backoff arithmetic (src/config/retry.rs) and the retry loop around transaction creation
    (src/clients/wallet_caller.rs, create_unsigned_transaction_with_retry). */
module Retry {
  import opened Primitives

  datatype RetryConfig = RetryConfig(maxAttempts: u32, initialDelayMs: u64, maxDelayMs: u64)

  datatype RetryConfigError = ZeroMaxAttempts | ZeroInitialDelay | InvalidDelayRange(initial: u64, max: u64)

  function Validate(c: RetryConfig): Result<(), RetryConfigError> {
    if c.maxAttempts == 0 then Err(ZeroMaxAttempts)
    else if c.initialDelayMs == 0 then Err(ZeroInitialDelay)
    else if c.maxDelayMs < c.initialDelayMs then Err(InvalidDelayRange(c.initialDelayMs, c.maxDelayMs))
    else Ok(())
  }

  /** Which error an invalid configuration gets, by the first of the three conditions that fails. */
  lemma ConfigErrorIsExact(c: RetryConfig)
    ensures var r := Validate(c);
      && (r == Err(ZeroMaxAttempts) <==> c.maxAttempts < 1)
      && (r == Err(ZeroInitialDelay) <==> c.maxAttempts >= 1 && c.initialDelayMs < 1)
      && (forall initial, max :: r == Err(InvalidDelayRange(initial, max)) <==>
            c.maxAttempts >= 1 && 1 <= c.initialDelayMs == initial && max == c.maxDelayMs < c.initialDelayMs)
  {
  }

  // ----- backoff -----

  function Pow2(n: nat): (p: nat)
    ensures p >= 1
  {
    if n == 0 then 1 else 2 * Pow2(n - 1)
  }

  function SaturatingMul(a: nat, b: nat): u64 {
    if a * b <= U64_MAX then a * b else U64_MAX
  }

  function CalculateDelayMs(c: RetryConfig, attempt: u32): u64 {
    if attempt == 0 then 0
    else
      var shift := Min(attempt - 1, 63);
      Min(SaturatingMul(c.initialDelayMs, Pow2(shift)), c.maxDelayMs)
  }

  lemma {:induction false} Pow2Monotone(m: nat, n: nat)
    requires m <= n
    ensures Pow2(m) <= Pow2(n)
  {
    if m < n {
      Pow2Monotone(m, n - 1);
    }
  }

  lemma Pow2At63()
    ensures Pow2(63) == 0x8000_0000_0000_0000
    ensures Pow2(64) == U64_MAX + 1
  {
    assert Pow2(10) == 0x400;
    assert Pow2(20) == 0x10_0000;
    assert Pow2(30) == 0x4000_0000;
    assert Pow2(40) == 0x100_0000_0000;
    assert Pow2(50) == 0x4_0000_0000_0000;
    assert Pow2(60) == 0x1000_0000_0000_0000;
  }

  lemma MulMonotone(a: nat, b: nat, k: nat)
    requires a <= b
    ensures k * a <= k * b
  {
  }

  /** Delays never decrease from one attempt to the next and never exceed the maximum. */
  lemma DelayMonotoneAndBounded(c: RetryConfig, a: u32, b: u32)
    requires a <= b
    ensures CalculateDelayMs(c, a) <= CalculateDelayMs(c, b) <= c.maxDelayMs
  {
    if a > 0 {
      var s, t := Min(a - 1, 63), Min(b - 1, 63);
      Pow2Monotone(s, t);
      MulMonotone(Pow2(s), Pow2(t), c.initialDelayMs);
    }
  }

  /** A configuration is valid exactly when it makes an attempt and the first backoff is the
      configured initial delay, not zero and not cut short. */
  lemma ValidMeansUsable(c: RetryConfig)
    ensures Validate(c).Ok? <==> c.maxAttempts >= 1 && 0 < CalculateDelayMs(c, 1) == c.initialDelayMs
  {
    assert Pow2(0) == 1;
  }

  /** The unbounded doubling the backoff stands for. */
  function IdealDelay(c: RetryConfig, attempt: u32): nat
    requires attempt >= 1
  {
    Min(c.initialDelayMs * Pow2(attempt - 1), c.maxDelayMs)
  }

  /** Saturation and the shift limit are invisible except in one corner: a 1 ms initial delay with a
      maximum above 2^63 ms stops doubling after attempt 64. */
  lemma BackoffIsExact(c: RetryConfig, attempt: u32)
    requires attempt >= 1
    ensures CalculateDelayMs(c, attempt) == IdealDelay(c, attempt)
      <==> !(attempt > 64 && c.initialDelayMs == 1 && c.maxDelayMs > Pow2(63))
  {
    if attempt > 64 {
      Pow2At63();
      Pow2Monotone(64, attempt - 1);
      var initial := c.initialDelayMs;
      if initial >= 2 {
        MulMonotone(2, initial, Pow2(63));
        MulMonotone(1, initial, Pow2(attempt - 1));
        assert initial * Pow2(63) > U64_MAX;
        assert initial * Pow2(attempt - 1) >= Pow2(attempt - 1) > U64_MAX;
      }
    }
  }

  // ----- jitter -----

  type Percent = p: int | -25 <= p <= 25

  function AbsPercent(p: Percent): nat {
    if p < 0 then -p else p
  }

  function Product(a: nat, b: nat): nat {
    a * b
  }

  /** The random draw is a parameter. */
  function AddJitter(delay: u64, percent: Percent): u64 {
    var product := Product(delay, AbsPercent(percent));
    var amount := if product <= U64_MAX then product / 100 else 0;
    if percent >= 0 then Min(delay + amount, U64_MAX)
    else Max(delay - amount, 0)
  }

  /** Jitter stays within a quarter of the delay either way, and is dropped altogether only when the
      product overflows. */
  lemma JitterWithinQuarter(delay: u64, percent: Percent)
    ensures delay - delay / 4 <= AddJitter(delay, percent) <= delay + delay / 4
    ensures 3 * delay <= 4 * AddJitter(delay, percent) <= 5 * delay
    ensures delay * AbsPercent(percent) > U64_MAX ==> AddJitter(delay, percent) == delay
  {
    var p := AbsPercent(percent);
    MulMonotone(p, 25, delay);
    var product := delay * p;
    assert product <= 25 * delay;
    assert product / 100 <= delay / 4;
  }

  /** How much jitter: the drawn percentage of the delay, rounded down, on the side of its sign, up to
      the end of the type; none when the product overflows. */
  lemma JitterIsExact(delay: u64, percent: Percent)
    ensures var p := if percent < 0 then -percent else percent;
      if delay * p > U64_MAX then AddJitter(delay, percent) == delay
      else
        exists amount: nat :: 100 * amount <= delay * p < 100 * (amount + 1)
          && AddJitter(delay, percent) == (if percent < 0 then delay - amount else Min(delay + amount, U64_MAX))
  {
    var p := AbsPercent(percent);
    MulMonotone(p, 25, delay);
    var product := Product(delay, p);
    assert product <= 25 * delay;
    var amount := product / 100;
    assert 100 * amount <= product < 100 * (amount + 1);
  }

  // ----- the retry loop -----

  /** A gRPC failure: whether its code is ResourceExhausted, and its message. */
  datatype Status = Status(resourceExhausted: bool, message: string)

  datatype WalletError =
    | TransactionCreationFailed(status: Status)
    | OtherFailure(code: int)
    | RetryExhausted(attempts: u32)

  predicate Contains(s: string, part: string) {
    exists i :: 0 <= i <= |s| && part <= s[i..]
  }

  predicate IsNoFundsError(lower: string -> string, status: Status) {
    || status.resourceExhausted
    || Contains(lower(status.message), "no funds")
    || Contains(lower(status.message), "utxo exhausted")
    || Contains(lower(status.message), "insufficient utxo")
  }

  predicate IsUtxoExhaustionError(lower: string -> string, e: WalletError) {
    e.TransactionCreationFailed? && IsNoFundsError(lower, e.status)
  }

  predicate Retryable<T>(lower: string -> string, r: Result<T, WalletError>) {
    r.Err? && IsUtxoExhaustionError(lower, r.error)
  }

  lemma ContainsIsExact(s: string, part: string)
    ensures Contains(s, part) <==> exists before: string, after: string :: s == before + part + after
  {
    if Contains(s, part) {
      var i :| 0 <= i <= |s| && part <= s[i..];
      assert s == s[..i] + part + s[i..][|part|..];
    }
    if before: string, after: string :| s == before + part + after {
      assert s[|before|..] == part + after;
    }
  }

  /** Exactly these failures are tried again: a creation the daemon refuses as ResourceExhausted, or
      with one of three phrases somewhere in its message, whatever the case. */
  lemma RetryableIsExact<T>(lower: string -> string, r: Result<T, WalletError>)
    ensures Retryable(lower, r) <==>
      && r.Err? && r.error.TransactionCreationFailed?
      && (|| r.error.status.resourceExhausted
          || exists before: string, phrase, after: string ::
               && phrase in {"no funds", "utxo exhausted", "insufficient utxo"}
               && lower(r.error.status.message) == before + phrase + after)
  {
    if r.Err? && r.error.TransactionCreationFailed? {
      var text := lower(r.error.status.message);
      ContainsIsExact(text, "no funds");
      ContainsIsExact(text, "utxo exhausted");
      ContainsIsExact(text, "insufficient utxo");
    }
  }

  function Total(xs: seq<nat>): nat {
    if xs == [] then 0 else Total(xs[..|xs| - 1]) + xs[|xs| - 1]
  }

  /** `answer(k)` is the daemon's reply to attempt `k`, `draw(k)` the jitter drawn after it. The
      result is the first reply that is not a UTXO exhaustion, or RetryExhausted. */
  method CreateWithRetry<T>(c: RetryConfig, lower: string -> string,
                            answer: nat -> Result<T, WalletError>, draw: nat -> Percent)
    returns (r: Result<T, WalletError>, calls: nat, sleeps: seq<nat>)
    ensures calls <= c.maxAttempts
    ensures forall k: nat :: 1 <= k < calls ==> Retryable(lower, answer(k))
    ensures
      if calls >= 1 && !Retryable(lower, answer(calls)) then r == answer(calls)
      else calls == c.maxAttempts && r == Err(RetryExhausted(c.maxAttempts))
    ensures |sleeps| == if calls == 0 then 0 else calls - 1
    ensures forall i :: 0 <= i < |sleeps| ==> sleeps[i] == AddJitter(CalculateDelayMs(c, i + 1), draw(i + 1))
  {
    var lastError: Option<WalletError> := None;
    calls, sleeps := 0, [];
    var attempt: nat := 1;
    while attempt <= c.maxAttempts
      invariant 1 <= attempt <= c.maxAttempts + 1
      invariant calls == attempt - 1
      invariant forall k: nat :: 1 <= k < attempt ==> Retryable(lower, answer(k))
      invariant |sleeps| == if calls == c.maxAttempts && calls > 0 then calls - 1 else calls
      invariant forall i :: 0 <= i < |sleeps| ==> sleeps[i] == AddJitter(CalculateDelayMs(c, i + 1), draw(i + 1))
      invariant lastError.Some? <==> attempt > 1
      invariant lastError.Some? ==> lastError.value.TransactionCreationFailed?
    {
      var reply := answer(attempt);
      calls := calls + 1;
      if reply.Ok? {
        return reply, calls, sleeps;
      }
      if !IsUtxoExhaustionError(lower, reply.error) {
        return reply, calls, sleeps;
      }
      lastError := Some(reply.error);
      if attempt < c.maxAttempts {
        var delay := CalculateDelayMs(c, attempt);
        sleeps := sleeps + [AddJitter(delay, draw(attempt))];
      }
      attempt := attempt + 1;
    }
    match lastError
    case None => r := Err(RetryExhausted(c.maxAttempts));
    case Some(e) =>
      if e.TransactionCreationFailed? {
        r := Err(RetryExhausted(c.maxAttempts));
      } else {
        r := Err(e);
      }
  }

  lemma OneSleepBound(c: RetryConfig, attempt: u32, percent: Percent)
    ensures 4 * AddJitter(CalculateDelayMs(c, attempt), percent) <= 5 * c.maxDelayMs
  {
    DelayMonotoneAndBounded(c, attempt, attempt);
    JitterWithinQuarter(CalculateDelayMs(c, attempt), percent);
  }

  lemma OneMore(n: nat, k: nat)
    ensures (n + 1) * k == n * k + k
  {
  }

  lemma TotalIsSum(xs: seq<nat>, x: nat)
    ensures Total([]) == 0 && Total(xs + [x]) == Total(xs) + x
  {
    assert (xs + [x])[..|xs|] == xs;
  }

  /** All sleeping of one submission is bounded by the configuration alone. */
  lemma {:induction false} TotalSleepBound(c: RetryConfig, draw: nat -> Percent, sleeps: seq<nat>)
    requires |sleeps| <= U32_MAX
    requires forall i :: 0 <= i < |sleeps| ==> sleeps[i] == AddJitter(CalculateDelayMs(c, i + 1), draw(i + 1))
    ensures 4 * Total(sleeps) <= 5 * (|sleeps| * c.maxDelayMs)
  {
    if sleeps != [] {
      var n := |sleeps| - 1;
      TotalSleepBound(c, draw, sleeps[..n]);
      OneSleepBound(c, n + 1, draw(n + 1));
      OneMore(n, c.maxDelayMs);
    }
  }
}
