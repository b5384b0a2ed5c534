/** `pollForTerminalResult` against an arbitrary server and clock, and the normalization of its options. */
module TransactionPolling {
  import opened Collections

  /** What one status request answers. */
  datatype Response = Succeeded | FailedOnChain | NotFound(oldestLedger: int) | RpcError

  datatype Outcome =
    | Success(attempts: nat)
    | Failed(attempts: nat)
    | Unavailable(attempts: nat)
    | Timeout(attempts: nat)
    | Threw(attempts: nat)

  /**
   * `responses(k)` answers attempt `k`, counted from 1. `elapsed(k)` is the clock, measured from the
   * start, when attempt `k` has been answered. A sleep asked for `d` lasts at least `d`.
   */
  ghost predicate IsRun(elapsed: nat -> int, interval: int, timeout: int) {
    && elapsed(1) >= 0
    && forall k: nat :: k >= 1 && elapsed(k) < timeout ==>
         elapsed(k + 1) >= elapsed(k) + Min(interval, timeout - elapsed(k))
  }

  /** The loop goes on after attempt `k`. */
  predicate GoesOn(responses: nat -> Response, elapsed: nat -> int, ledger: int, timeout: int, k: nat) {
    responses(k).NotFound? && ledger >= responses(k).oldestLedger && elapsed(k) < timeout
  }

  /** How the loop ends at attempt `k`, when it does. */
  predicate EndsAs(responses: nat -> Response, elapsed: nat -> int, ledger: int, timeout: int, k: nat, r: Outcome) {
    match responses(k)
    case Succeeded => r == Success(k)
    case FailedOnChain => r == Failed(k)
    case RpcError => r == Threw(k)
    case NotFound(oldest) =>
      if ledger < oldest then r == Unavailable(k) else elapsed(k) >= timeout && r == Timeout(k)
  }

  /** The first attempt that does not go on decides. */
  ghost predicate IsOutcome(responses: nat -> Response, elapsed: nat -> int, ledger: int, timeout: int, r: Outcome) {
    && r.attempts >= 1
    && (forall k: nat :: 1 <= k < r.attempts ==> GoesOn(responses, elapsed, ledger, timeout, k))
    && EndsAs(responses, elapsed, ledger, timeout, r.attempts, r)
  }

  /** Some number of attempts bounds every run with these options, by `BoundedIff`. */
  predicate HasBound(interval: int, timeout: int) { interval >= 1 || timeout <= 0 }

  /** The most attempts a run makes: ceil(timeout / interval) + 1. */
  function MaxAttempts(interval: int, timeout: int): int
    requires HasBound(interval, timeout)
  {
    if timeout <= 0 then 1 else (timeout + interval - 1) / interval + 1
  }

  /** After `k` undecided attempts at least `(k - 1) * interval` has elapsed, or the whole timeout. */
  lemma {:induction false} ElapsedGrows(elapsed: nat -> int, interval: int, timeout: int, k: nat)
    requires IsRun(elapsed, interval, timeout) && interval >= 1 && k >= 1
    requires forall j: nat :: 1 <= j < k ==> elapsed(j) < timeout
    ensures elapsed(k) >= Min(timeout, (k - 1) * interval)
  {
    if k > 1 {
      ElapsedGrows(elapsed, interval, timeout, k - 1);
      assert (k - 1) * interval == (k - 2) * interval + interval;
      assert elapsed(k - 1 + 1) == elapsed(k);
    }
  }

  lemma AttemptsBound(elapsed: nat -> int, interval: int, timeout: int, k: nat)
    requires IsRun(elapsed, interval, timeout) && HasBound(interval, timeout) && k >= 1
    requires forall j: nat :: 1 <= j < k ==> elapsed(j) < timeout
    ensures k <= MaxAttempts(interval, timeout)
  {
    if k > 1 {
      assert elapsed(1) < timeout;
      ElapsedGrows(elapsed, interval, timeout, k - 1);
      assert elapsed(k - 1) < timeout;
      assert (k - 2) * interval < timeout;
      CeilingBound(k - 2, interval, timeout);
    }
  }

  lemma CeilingBound(n: nat, interval: int, timeout: int)
    requires interval >= 1 && n * interval < timeout
    ensures n + 1 <= (timeout + interval - 1) / interval
  {
    var q := (timeout + interval - 1) / interval;
    assert timeout + interval - 1 < (q + 1) * interval;
    assert (q + 1) * interval == q * interval + interval;
    if q <= n { ProductGrows(q, n, interval); }
  }

  lemma ProductGrows(a: int, b: int, factor: nat)
    requires a <= b
    ensures a * factor <= b * factor
  {
    assert (b - a) * factor >= 0;
  }

  /** Some attempt decides. */
  ghost predicate Ends(responses: nat -> Response, elapsed: nat -> int, ledger: int, timeout: int) {
    exists n: nat :: DecidedBy(responses, elapsed, ledger, timeout, n)
  }

  ghost predicate DecidedBy(responses: nat -> Response, elapsed: nat -> int, ledger: int, timeout: int, n: nat) {
    exists k: nat :: 1 <= k <= n && !GoesOn(responses, elapsed, ledger, timeout, k)
  }

  /**
   * Polls until the first attempt that decides, within the bound when there is one; without such an
   * attempt it never ends.
   */
  method PollForTerminalResult(
      responses: nat -> Response, elapsed: nat -> int, ledger: int, ghost interval: int, timeout: int)
    returns (r: Outcome)
    requires Ends(responses, elapsed, ledger, timeout)
    ensures IsOutcome(responses, elapsed, ledger, timeout, r)
    ensures IsRun(elapsed, interval, timeout) && HasBound(interval, timeout) ==>
      r.attempts <= MaxAttempts(interval, timeout)
  {
    ghost var n: nat :| DecidedBy(responses, elapsed, ledger, timeout, n);
    var attempts: nat := 0;
    while true
      invariant forall k: nat :: 1 <= k <= attempts ==> GoesOn(responses, elapsed, ledger, timeout, k)
      invariant attempts < n
      decreases n - attempts
    {
      attempts := attempts + 1;
      WithinBound(responses, elapsed, ledger, interval, timeout, attempts);
      var response := responses(attempts);
      if response.RpcError? { return Threw(attempts); }
      if response.Succeeded? { return Success(attempts); }
      if response.FailedOnChain? { return Failed(attempts); }
      if ledger < response.oldestLedger { return Unavailable(attempts); }
      if elapsed(attempts) >= timeout { return Timeout(attempts); }
    }
  }

  lemma WithinBound(
      responses: nat -> Response, elapsed: nat -> int, ledger: int, interval: int, timeout: int, k: nat)
    requires k >= 1 && forall j: nat :: 1 <= j < k ==> GoesOn(responses, elapsed, ledger, timeout, j)
    ensures IsRun(elapsed, interval, timeout) && HasBound(interval, timeout) ==> k <= MaxAttempts(interval, timeout)
  {
    if IsRun(elapsed, interval, timeout) && HasBound(interval, timeout) {
      forall j: nat | 1 <= j < k ensures elapsed(j) < timeout {
        assert GoesOn(responses, elapsed, ledger, timeout, j);
      }
      AttemptsBound(elapsed, interval, timeout, k);
    }
  }

  /** Server and clock determine the outcome. */
  lemma OutcomeIsUnique(responses: nat -> Response, elapsed: nat -> int, ledger: int, timeout: int, r: Outcome,
      s: Outcome)
    requires IsOutcome(responses, elapsed, ledger, timeout, r) && IsOutcome(responses, elapsed, ledger, timeout, s)
    ensures r == s
  {
    Decides(responses, elapsed, ledger, timeout, r);
    Decides(responses, elapsed, ledger, timeout, s);
  }

  lemma Decides(responses: nat -> Response, elapsed: nat -> int, ledger: int, timeout: int, r: Outcome)
    requires IsOutcome(responses, elapsed, ledger, timeout, r)
    ensures !GoesOn(responses, elapsed, ledger, timeout, r.attempts)
  {}

  /** A final answer is returned exactly when it comes before any miss that ends the run. */
  lemma FinalAnswerIff(responses: nat -> Response, elapsed: nat -> int, ledger: int, timeout: int, r: Outcome, n: nat)
    requires IsOutcome(responses, elapsed, ledger, timeout, r) && n >= 1
    ensures r == Success(n) <==>
      responses(n).Succeeded? && forall k: nat :: 1 <= k < n ==> GoesOn(responses, elapsed, ledger, timeout, k)
    ensures r == Failed(n) <==>
      responses(n).FailedOnChain? && forall k: nat :: 1 <= k < n ==> GoesOn(responses, elapsed, ledger, timeout, k)
  {
    if forall k: nat :: 1 <= k < n ==> GoesOn(responses, elapsed, ledger, timeout, k) {
      if responses(n).Succeeded? { OutcomeIsUnique(responses, elapsed, ledger, timeout, r, Success(n)); }
      if responses(n).FailedOnChain? { OutcomeIsUnique(responses, elapsed, ledger, timeout, r, Failed(n)); }
    }
  }

  /** Attempt `n` is reached: each before it found nothing, within retention and before the timeout. */
  ghost predicate IsReached(responses: nat -> Response, elapsed: nat -> int, ledger: int, timeout: int, n: nat) {
    forall k: nat :: 1 <= k < n ==>
      responses(k).NotFound? && responses(k).oldestLedger <= ledger && elapsed(k) < timeout
  }

  lemma ReachedIff(responses: nat -> Response, elapsed: nat -> int, ledger: int, timeout: int, n: nat)
    ensures IsReached(responses, elapsed, ledger, timeout, n) <==>
      forall k: nat :: 1 <= k < n ==> GoesOn(responses, elapsed, ledger, timeout, k)
  {
    if forall k: nat :: 1 <= k < n ==> GoesOn(responses, elapsed, ledger, timeout, k) {
      forall k: nat | 1 <= k < n
        ensures responses(k).NotFound? && responses(k).oldestLedger <= ledger && elapsed(k) < timeout
      {
        assert GoesOn(responses, elapsed, ledger, timeout, k);
      }
    }
  }

  /** The five outcomes, each with the answer and the clock that give it. */
  lemma OutcomesIff(responses: nat -> Response, elapsed: nat -> int, ledger: int, timeout: int, r: Outcome)
    ensures var n := r.attempts;
      IsOutcome(responses, elapsed, ledger, timeout, r) <==>
        && n >= 1 && IsReached(responses, elapsed, ledger, timeout, n)
        && (r.Success? <==> responses(n) == Succeeded)
        && (r.Failed? <==> responses(n) == FailedOnChain)
        && (r.Threw? <==> responses(n) == RpcError)
        && (r.Unavailable? <==> responses(n).NotFound? && responses(n).oldestLedger > ledger)
        && (r.Timeout? <==> responses(n).NotFound? && responses(n).oldestLedger <= ledger && elapsed(n) >= timeout)
  {
    ReachedIff(responses, elapsed, ledger, timeout, r.attempts);
  }

  /** The clock of a run: after an attempt before the timeout, the interval or what is left of the timeout passes. */
  lemma RunIff(elapsed: nat -> int, interval: int, timeout: int)
    ensures IsRun(elapsed, interval, timeout) <==>
      && 0 <= elapsed(1)
      && forall k: nat :: 1 <= k && elapsed(k) < timeout ==>
           elapsed(k + 1) >= timeout || elapsed(k + 1) - elapsed(k) >= interval
  {}

  /**
   * Timeouts are reported late enough, and with the whole timeout elapsed at no earlier attempt;
   * misses out of retention come first.
   */
  lemma MissesAreHonest(responses: nat -> Response, elapsed: nat -> int, ledger: int, timeout: int, r: Outcome)
    requires IsOutcome(responses, elapsed, ledger, timeout, r)
    ensures r.Timeout? ==>
      elapsed(r.attempts) >= timeout && forall k: nat :: 1 <= k < r.attempts ==> elapsed(k) < timeout
    ensures r.Unavailable? ==>
      && responses(r.attempts).NotFound? && ledger < responses(r.attempts).oldestLedger
      && forall k: nat :: 1 <= k < r.attempts ==> responses(k).NotFound? && ledger >= responses(k).oldestLedger
  {
    forall k: nat | 1 <= k < r.attempts
      ensures elapsed(k) < timeout && responses(k).NotFound? && ledger >= responses(k).oldestLedger
    {
      assert GoesOn(responses, elapsed, ledger, timeout, k);
    }
  }

  // ----- Options -----

  /** A supplied option: absent, not a finite number, or a number. */
  datatype Supplied = Absent | NotFinite | Number(value: real)

  /** `normalizePositiveInteger` */
  function Normalize(value: Supplied, fallback: int): int {
    match value
    case Absent => fallback
    case NotFinite => fallback
    case Number(x) => if x <= 0.0 then fallback else x.Floor
  }

  /** The result is positive exactly unless a positive number below one was supplied, given a positive fallback. */
  lemma NormalizedIsPositiveIff(value: Supplied, fallback: int)
    requires fallback >= 1
    ensures Normalize(value, fallback) >= 1 <==> !(value.Number? && 0.0 < value.value < 1.0)
    ensures Normalize(value, fallback) >= 0
  {
    if value.Number? && value.value > 0.0 {
      var x := value.value;
      assert x.Floor as real <= x < x.Floor as real + 1.0;
    }
  }

  /** The fallback where no positive number is supplied, otherwise the greatest integer not above the number. */
  lemma NormalizeIs(value: Supplied, fallback: int)
    ensures value == Absent || value == NotFinite ==> Normalize(value, fallback) == fallback
    ensures value.Number? && value.value <= 0.0 ==> Normalize(value, fallback) == fallback
    ensures value.Number? && value.value > 0.0 ==>
      Normalize(value, fallback) as real <= value.value < (Normalize(value, fallback) + 1) as real
  {
    if value.Number? { assert value.value.Floor as real <= value.value < (value.value.Floor + 1) as real; }
  }

  /** Half a millisecond normalizes to an interval of zero. */
  lemma HalfNormalizesToZero(fallback: int)
    ensures Normalize(Number(0.5), fallback) == 0
  {}

  // ----- When polling is bounded at all -----

  /** Attempt `n` is the latest at which any run with these options goes on no further. */
  ghost predicate IsBound(interval: int, timeout: int, n: nat) {
    forall responses: nat -> Response, elapsed: nat -> int, ledger: int ::
      IsRun(elapsed, interval, timeout) ==> DecidedBy(responses, elapsed, ledger, timeout, n)
  }

  /**
   * With no interval no number of attempts bounds the run: a clock that stands still keeps every rule
   * and never decides.
   */
  lemma ZeroIntervalNeedNotEnd(interval: int, timeout: int, n: nat)
    requires interval <= 0 < timeout
    ensures !IsBound(interval, timeout, n)
  {
    var responses, elapsed := (k: nat) => NotFound(0), (k: nat) => 0;
    assert IsRun(elapsed, interval, timeout);
    assert !DecidedBy(responses, elapsed, 0, timeout, n);
  }

  /** Some number of attempts bounds every permitted run exactly when the interval is positive or the timeout is not. */
  lemma BoundedIff(interval: int, timeout: int)
    ensures (exists n: nat :: IsBound(interval, timeout, n)) <==> interval >= 1 || timeout <= 0
  {
    if HasBound(interval, timeout) {
      BoundHolds(interval, timeout);
    } else {
      forall n: nat ensures !IsBound(interval, timeout, n) { ZeroIntervalNeedNotEnd(interval, timeout, n); }
    }
  }

  lemma BoundHolds(interval: int, timeout: int)
    requires HasBound(interval, timeout)
    ensures MaxAttempts(interval, timeout) >= 1 && IsBound(interval, timeout, MaxAttempts(interval, timeout))
  {
    if timeout > 0 { CeilingBound(0, interval, timeout); }
    var n := MaxAttempts(interval, timeout);
    forall responses: nat -> Response, elapsed: nat -> int, ledger: int | IsRun(elapsed, interval, timeout)
      ensures DecidedBy(responses, elapsed, ledger, timeout, n)
    {
      if !DecidedBy(responses, elapsed, ledger, timeout, n) {
        forall j: nat | 1 <= j < n + 1 ensures elapsed(j) < timeout {
          assert GoesOn(responses, elapsed, ledger, timeout, j);
        }
        AttemptsBound(elapsed, interval, timeout, n + 1);
      }
    }
  }

  /** A clock on which every sleep lasts exactly as long as asked. */
  function Punctual(interval: int, timeout: int): nat -> int {
    (k: nat) => if k <= 1 then 0 else Min((k - 1) * interval, timeout)
  }

  lemma PunctualIsRun(interval: int, timeout: int)
    requires interval >= 1 && timeout > 0
    ensures IsRun(Punctual(interval, timeout), interval, timeout)
  {
    var elapsed := Punctual(interval, timeout);
    forall k: nat | k >= 1 && elapsed(k) < timeout
      ensures elapsed(k + 1) >= elapsed(k) + Min(interval, timeout - elapsed(k))
    {
      assert k * interval == (k - 1) * interval + interval;
    }
  }

  lemma PunctualGoesOn(interval: int, timeout: int, k: nat)
    requires interval >= 1 && timeout > 0 && 1 <= k < MaxAttempts(interval, timeout)
    ensures Punctual(interval, timeout)(k) < timeout
  {
    var q := (timeout + interval - 1) / interval;
    assert q * interval <= timeout + interval - 1;
    ProductGrows(k, q, interval);
    assert k * interval == (k - 1) * interval + interval;
  }

  /** The bound cannot be lowered: it is the least number of attempts within which every permitted run is decided. */
  lemma LeastBound(interval: int, timeout: int, n: nat)
    requires HasBound(interval, timeout)
    ensures IsBound(interval, timeout, n) <==> n >= MaxAttempts(interval, timeout)
  {
    BoundHolds(interval, timeout);
    if n >= MaxAttempts(interval, timeout) {
      BoundGrows(interval, timeout, MaxAttempts(interval, timeout), n);
    } else if timeout > 0 {
      PunctualIsRun(interval, timeout);
      StillPending(interval, timeout, Punctual(interval, timeout), n);
    } else {
      var elapsed := (k: nat) => 0;
      assert IsRun(elapsed, interval, timeout);
      assert !DecidedBy((k: nat) => NotFound(0), elapsed, 0, timeout, n);
    }
  }

  lemma StillPending(interval: int, timeout: int, elapsed: nat -> int, n: nat)
    requires interval >= 1 && timeout > 0 && n < MaxAttempts(interval, timeout)
    requires elapsed == Punctual(interval, timeout) && IsRun(elapsed, interval, timeout)
    ensures !IsBound(interval, timeout, n)
  {
    var responses := (k: nat) => NotFound(0);
    forall k: nat | 1 <= k <= n ensures GoesOn(responses, elapsed, 0, timeout, k) {
      PunctualGoesOn(interval, timeout, k);
    }
    assert !DecidedBy(responses, elapsed, 0, timeout, n);
  }

  lemma BoundGrows(interval: int, timeout: int, m: nat, n: nat)
    requires m <= n && IsBound(interval, timeout, m)
    ensures IsBound(interval, timeout, n)
  {
    forall responses: nat -> Response, elapsed: nat -> int, ledger: int | IsRun(elapsed, interval, timeout)
      ensures DecidedBy(responses, elapsed, ledger, timeout, n)
    {
      assert DecidedBy(responses, elapsed, ledger, timeout, m);
    }
  }
}
