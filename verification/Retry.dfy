/** The retry loop shared by the LLM drivers and the Action's writes, and its two classifiers. */
module Retry {
  import opened Optional

  datatype Outcome<T, E> = Success(value: T) | Failure(error: E)

  datatype Decision<E> = GiveUp(throwAs: Option<E>) | Again(delayMs: real)

  const DEFAULT_MAX_ATTEMPTS := 10

  function Bound(maxAttempts: Option<int>): (max: int)
    ensures 1 <= max
  {
    Max(1, if maxAttempts.Some? then maxAttempts.value else DEFAULT_MAX_ATTEMPTS)
  }

  // ----- what a run is -----

  /** Call `i` fails and the classifier asks for another try. */
  predicate RetriedAt<T, E>(fn: nat -> Outcome<T, E>, classify: (E, nat) -> Decision<E>, i: nat) {
    fn(i).Failure? && classify(fn(i).error, i).Again?
  }

  datatype Run<T, E> = Run(result: Outcome<T, E>, calls: nat, sleeps: seq<real>, classified: seq<(E, nat)>)

  /** How the last call settles the result. */
  predicate Settles<T(==), E(==)>(last: Outcome<T, E>, classify: (E, nat) -> Decision<E>, i: nat, max: int,
      result: Outcome<T, E>)
  {
    match last
    case Success(_) => result == last
    case Failure(error) =>
      match classify(error, i)
      case GiveUp(throwAs) => result == Failure(if throwAs.Some? then throwAs.value else error)
      case Again(_) => i + 1 == max && result == last
  }

  predicate IsRun<T(==), E(==)>(fn: nat -> Outcome<T, E>, classify: (E, nat) -> Decision<E>, max: int, run: Run<T, E>) {
    1 <= run.calls <= max &&
    |run.sleeps| == run.calls - 1 &&
    (forall i: nat :: i < run.calls - 1 ==>
      RetriedAt(fn, classify, i) && run.sleeps[i] == classify(fn(i).error, i).delayMs) &&
    |run.classified| == (if fn(run.calls - 1).Success? then run.calls - 1 else run.calls) &&
    (forall i: nat :: i < |run.classified| ==> fn(i).Failure? && run.classified[i] == (fn(i).error, i)) &&
    Settles(fn(run.calls - 1), classify, run.calls - 1, max, run.result)
  }

  // ----- the loop -----

  /** `fn(i)` is the outcome of the call with index `i`, `classify` the caller's decision function. */
  method WithRetry<T(==), E(==)>(fn: nat -> Outcome<T, E>, classify: (E, nat) -> Decision<E>, maxAttempts: Option<int>)
    returns (run: Run<T, E>)
    ensures IsRun(fn, classify, Bound(maxAttempts), run)
  {
    var max := Bound(maxAttempts);
    var sleeps: seq<real> := [];
    var classified: seq<(E, nat)> := [];
    var attempt: nat := 0;
    while true
      invariant attempt < max && |sleeps| == attempt == |classified|
      invariant forall i: nat :: i < attempt ==>
        RetriedAt(fn, classify, i) && sleeps[i] == classify(fn(i).error, i).delayMs && classified[i] == (fn(i).error, i)
      decreases max - attempt
    {
      var outcome := fn(attempt);
      if outcome.Success? {
        return Run(outcome, attempt + 1, sleeps, classified);
      }
      var error := outcome.error;
      var decision := classify(error, attempt);
      classified := classified + [(error, attempt)];
      if decision.GiveUp? {
        var thrown := if decision.throwAs.Some? then decision.throwAs.value else error;
        return Run(Failure(thrown), attempt + 1, sleeps, classified);
      }
      if attempt + 1 >= max {
        return Run(outcome, attempt + 1, sleeps, classified);
      }
      sleeps := sleeps + [decision.delayMs];
      attempt := attempt + 1;
    }
  }

  // ----- every run -----

  /** The outcomes, the classifier and the bound leave no choice: there is one run. */
  lemma OneRun<T, E>(fn: nat -> Outcome<T, E>, classify: (E, nat) -> Decision<E>, max: int, a: Run<T, E>, b: Run<T, E>)
    requires IsRun(fn, classify, max, a) && IsRun(fn, classify, max, b)
    ensures a == b
  {
    assert a.sleeps == b.sleeps && a.classified == b.classified;
  }

  ghost predicate ReachesSuccess<T(!new), E(!new)>(fn: nat -> Outcome<T, E>, classify: (E, nat) -> Decision<E>, max: int, k: nat) {
    k < max && fn(k).Success? && forall i: nat :: i < k ==> RetriedAt(fn, classify, i)
  }

  /** A run succeeds exactly when some call within the bound does and every failure before it is retried;
      it returns the first success and makes no call after it. */
  lemma SucceedsExactly<T(!new), E(!new)>(fn: nat -> Outcome<T, E>, classify: (E, nat) -> Decision<E>, max: int,
      run: Run<T, E>)
    requires IsRun(fn, classify, max, run)
    ensures run.result.Success? <==> exists k: nat :: ReachesSuccess(fn, classify, max, k)
    ensures forall k: nat :: ReachesSuccess(fn, classify, max, k) ==> run.calls == k + 1 && run.result == fn(k)
  {
    if run.result.Success? {
      assert ReachesSuccess(fn, classify, max, run.calls - 1);
    }
    forall k: nat | ReachesSuccess(fn, classify, max, k) ensures run.calls == k + 1 && run.result == fn(k) {
      var atK, atEnd := RetriedAt(fn, classify, k), RetriedAt(fn, classify, run.calls - 1);
    }
  }

  /** The bound, and not the classifier, ends the run. */
  predicate CapDecides<T, E>(fn: nat -> Outcome<T, E>, classify: (E, nat) -> Decision<E>, run: Run<T, E>) {
    run.calls >= 1 && RetriedAt(fn, classify, run.calls - 1)
  }

  /** The bound ends a run exactly when every call it allows fails and is found worth retrying. */
  lemma CapDecidesExactly<T, E>(fn: nat -> Outcome<T, E>, classify: (E, nat) -> Decision<E>, max: int, run: Run<T, E>)
    requires IsRun(fn, classify, max, run)
    ensures CapDecides(fn, classify, run) <==> forall i: nat :: i < max ==> RetriedAt(fn, classify, i)
  {
  }

  // ----- the LLM classifier -----

  datatype Kind = RateLimit | Overloaded | Transient | Auth | Fatal | ContextLength

  /** What a driver's `classifyError` says of an error. */
  datatype Reported = Reported(kind: Kind, retryAfterMs: Option<real>)

  /** A driver: how it reports an error, and the context-length error that stands in for one. */
  datatype Driver<!E> = Driver(classifyError: E -> Reported, contextLength: E -> E)

  function Limit(kind: Kind): nat
    requires kind.RateLimit? || kind.Overloaded? || kind.Transient?
  {
    if kind.RateLimit? then 5 else 3
  }

  const LLM_MAX_ATTEMPTS := 6

  function Backoff(attempt: nat): real {
    match Min(attempt, 4)
    case 0 => 1000.0
    case 1 => 2000.0
    case 2 => 4000.0
    case 3 => 8000.0
    case _ => 16000.0
  }

  const JITTER := 0.2

  function Jitter(base: real, draw: real): real { base * JITTER * (draw * 2.0 - 1.0) }

  function NonNegative(x: real): real { if x >= 0.0 then x else 0.0 }

  function Base(reported: Reported, attempt: nat): real {
    if reported.retryAfterMs.Some? then reported.retryAfterMs.value else Backoff(attempt)
  }

  predicate Curable(kind: Kind) { kind.RateLimit? || kind.Overloaded? || kind.Transient? }

  function LlmClassify<E>(driver: Driver<E>, e: E, attempt: nat, random: nat -> real): Decision<E> {
    var reported := driver.classifyError(e);
    if reported.kind.Auth? || reported.kind.Fatal? then GiveUp(None)
    else if reported.kind.ContextLength? then GiveUp(Some(driver.contextLength(e)))
    else if attempt >= Limit(reported.kind) then GiveUp(None)
    else
      var base := Base(reported, attempt);
      Again(NonNegative(base + Jitter(base, random(attempt))))
  }

  /** A draw of the random source before each possible sleep. */
  ghost predicate Draws(random: nat -> real) {
    forall i: nat :: 0.0 <= random(i) < 1.0
  }

  function LlmPolicy<E>(driver: Driver<E>, random: nat -> real): (E, nat) -> Decision<E> {
    (e: E, attempt: nat) => LlmClassify(driver, e, attempt, random)
  }

  method LlmWithRetry<T(==), E(==)>(driver: Driver<E>, fn: nat -> Outcome<T, E>, random: nat -> real) returns (run: Run<T, E>)
    ensures IsRun(fn, LlmPolicy(driver, random), LLM_MAX_ATTEMPTS, run)
  {
    run := WithRetry(fn, LlmPolicy(driver, random), Some(LLM_MAX_ATTEMPTS));
  }

  predicate RetryWithin<T, E>(driver: Driver<E>, outcome: Outcome<T, E>, calls: nat) {
    outcome.Failure? && Curable(driver.classifyError(outcome.error).kind) &&
    calls <= Limit(driver.classifyError(outcome.error).kind) + 1
  }

  /** The classifier always stops first, and a run is no longer than the limit of the last kind it retried allows. */
  lemma CapNeverDecides<T, E>(driver: Driver<E>, fn: nat -> Outcome<T, E>, random: nat -> real, run: Run<T, E>)
    requires IsRun(fn, LlmPolicy(driver, random), LLM_MAX_ATTEMPTS, run)
    ensures !CapDecides(fn, LlmPolicy(driver, random), run)
    ensures forall i: nat :: i == run.calls - 2 ==> RetryWithin(driver, fn(i), run.calls)
  {
    if run.calls >= 2 {
      assert RetriedAt(fn, LlmPolicy(driver, random), run.calls - 2);
    }
  }

  /** Raising the bound of the loop changes nothing: every larger one gives the same run. */
  lemma AnyLargerCap<T, E>(driver: Driver<E>, fn: nat -> Outcome<T, E>, random: nat -> real, max: int, run: Run<T, E>)
    requires IsRun(fn, LlmPolicy(driver, random), LLM_MAX_ATTEMPTS, run) && max >= LLM_MAX_ATTEMPTS
    ensures IsRun(fn, LlmPolicy(driver, random), max, run)
  {
    CapNeverDecides(driver, fn, random, run);
  }

  /** A failure that waiting cannot cure is the last call, and only a context-length failure is renamed. */
  lemma HardFailureStops<T, E>(driver: Driver<E>, fn: nat -> Outcome<T, E>, random: nat -> real, run: Run<T, E>, i: nat)
    requires IsRun(fn, LlmPolicy(driver, random), LLM_MAX_ATTEMPTS, run) && i < run.calls
    requires fn(i).Failure? && !Curable(driver.classifyError(fn(i).error).kind)
    ensures i == run.calls - 1
    ensures run.result == Failure(if driver.classifyError(fn(i).error).kind.ContextLength?
      then driver.contextLength(fn(i).error) else fn(i).error)
  {
  }

  /** How often each kind of failure may still be tried again, counting the calls from nought. */
  predicate TriesLeft(kind: Kind, call: nat) {
    match kind
    case RateLimit => call < 5
    case Overloaded => call < 3
    case Transient => call < 3
    case _ => false
  }

  /** A failed call is followed by another exactly while its kind has tries left. */
  lemma FollowedExactly<T, E>(driver: Driver<E>, fn: nat -> Outcome<T, E>, random: nat -> real, run: Run<T, E>, i: nat)
    requires IsRun(fn, LlmPolicy(driver, random), LLM_MAX_ATTEMPTS, run) && i < run.calls && fn(i).Failure?
    ensures i + 1 < run.calls <==> TriesLeft(driver.classifyError(fn(i).error).kind, i)
  {
    if i + 1 < run.calls {
      assert RetriedAt(fn, LlmPolicy(driver, random), i);
    } else {
      CapNeverDecides(driver, fn, random, run);
    }
  }

  // ----- how long a run can sleep -----

  function Total(xs: seq<real>): real {
    if xs == [] then 0.0 else Total(xs[..|xs| - 1]) + xs[|xs| - 1]
  }

  function BackoffTotal(n: nat): real {
    if n == 0 then 0.0 else BackoffTotal(n - 1) + Backoff(n - 1)
  }

  predicate Jittered(sleep: real, attempt: nat) {
    0.8 * Backoff(attempt) <= sleep <= 1.2 * Backoff(attempt)
  }

  lemma ScaledWithin(w: real, d: real)
    requires w >= 0.0 && -1.0 <= d <= 1.0
    ensures -w <= w * d <= w
  {
    assert w * (1.0 - d) >= 0.0 && w * (1.0 - d) == w - w * d;
    assert w * (1.0 + d) >= 0.0 && w * (1.0 + d) == w + w * d;
  }

  lemma JitterBounds(base: real, draw: real)
    requires base > 0.0 && 0.0 <= draw < 1.0
    ensures 0.8 * base <= NonNegative(base + Jitter(base, draw)) <= 1.2 * base
  {
    var w, d := base * JITTER, draw * 2.0 - 1.0;
    assert w == 0.2 * base;
    ScaledWithin(w, d);
    assert Jitter(base, draw) == w * d;
  }

  lemma {:induction false} TotalBounded(sleeps: seq<real>)
    requires forall i :: 0 <= i < |sleeps| ==> Jittered(sleeps[i], i)
    ensures 0.8 * BackoffTotal(|sleeps|) <= Total(sleeps) <= 1.2 * BackoffTotal(|sleeps|)
  {
    if sleeps != [] {
      var n := |sleeps| - 1;
      TotalBounded(sleeps[..n]);
      assert Jittered(sleeps[n], n);
    }
  }

  /** With no Retry-After, a run sleeps at most 1.2 times the whole schedule of 31 seconds, and each sleep is within
      a fifth of its place in the schedule. */
  lemma SleepBounded<T, E>(driver: Driver<E>, fn: nat -> Outcome<T, E>, random: nat -> real, run: Run<T, E>)
    requires IsRun(fn, LlmPolicy(driver, random), LLM_MAX_ATTEMPTS, run) && Draws(random)
    requires forall i: nat :: i < |run.sleeps| ==> driver.classifyError(fn(i).error).retryAfterMs.None?
    ensures forall i :: 0 <= i < |run.sleeps| ==> Jittered(run.sleeps[i], i)
    ensures 0.8 * BackoffTotal(|run.sleeps|) <= Total(run.sleeps) <= 1.2 * BackoffTotal(|run.sleeps|)
    ensures Total(run.sleeps) <= 37200.0
  {
    forall i | 0 <= i < |run.sleeps| ensures Jittered(run.sleeps[i], i) {
      assert RetriedAt(fn, LlmPolicy(driver, random), i);
      JitterBounds(Backoff(i), random(i));
    }
    TotalBounded(run.sleeps);
    ScheduleTotal(|run.sleeps|);
  }

  lemma {:induction false} ScheduleTotal(n: nat)
    requires n <= 5
    ensures BackoffTotal(n) <= 31000.0
  {
    assert BackoffTotal(1) == 1000.0;
    assert BackoffTotal(2) == 3000.0;
    assert BackoffTotal(3) == 7000.0;
    assert BackoffTotal(4) == 15000.0;
    assert BackoffTotal(5) == 31000.0;
  }

  /** What a wait starts from when the provider names none. */
  predicate Scheduled(call: nat, waitMs: real) {
    (call == 0 ==> waitMs == 1000.0) && (call == 1 ==> waitMs == 2000.0) && (call == 2 ==> waitMs == 4000.0) &&
    (call == 3 ==> waitMs == 8000.0) && (call >= 4 ==> waitMs == 16000.0)
  }

  /** The sleep is `asked` scaled by a factor that the draw moves from 0.8 up to 1.2, and never negative. */
  predicate SleepsFor(sleep: real, asked: real, draw: real) {
    sleep == if asked <= 0.0 then 0.0 else asked * (0.8 + 0.4 * draw)
  }

  lemma SleepIsScaled(base: real, draw: real)
    requires 0.0 <= draw < 1.0
    ensures SleepsFor(NonNegative(base + Jitter(base, draw)), base, draw)
  {
    var factor := 0.8 + 0.4 * draw;
    assert Jitter(base, draw) == base * (factor - 1.0) by {
      assert base * JITTER * (draw * 2.0 - 1.0) == base * (JITTER * (draw * 2.0 - 1.0));
    }
    assert base + base * (factor - 1.0) == base * factor;
    ProductSign(base, factor);
  }

  lemma ProductSign(x: real, y: real)
    requires y > 0.0
    ensures x > 0.0 ==> x * y > 0.0
    ensures x <= 0.0 ==> x * y <= 0.0
  {
  }

  /** A Retry-After decides the wait after its failure; without one the schedule does. */
  lemma SleepsExactly<T, E>(driver: Driver<E>, fn: nat -> Outcome<T, E>, random: nat -> real, run: Run<T, E>, i: nat)
    requires IsRun(fn, LlmPolicy(driver, random), LLM_MAX_ATTEMPTS, run) && Draws(random) && i < |run.sleeps|
    ensures fn(i).Failure?
    ensures match driver.classifyError(fn(i).error).retryAfterMs
            case Some(asked) => SleepsFor(run.sleeps[i], asked, random(i))
            case None => exists wait: real :: Scheduled(i, wait) && SleepsFor(run.sleeps[i], wait, random(i))
  {
    assert RetriedAt(fn, LlmPolicy(driver, random), i);
    var base := Base(driver.classifyError(fn(i).error), i);
    SleepIsScaled(base, random(i));
    assert driver.classifyError(fn(i).error).retryAfterMs.None? ==> Scheduled(i, base);
  }

  // ----- the Action's wrapper -----

  /** A failed write; the status is absent for an error that never reached HTTP. */
  datatype HttpError = Http(status: Option<int>) | BadAttempts(attempts: int)

  predicate IsRetriable(e: HttpError) {
    match e
    case BadAttempts(_) => true
    case Http(None) => true
    case Http(Some(status)) =>
      if status == 429 then true
      else if status >= 500 && status < 600 then true
      else if status >= 400 && status < 500 then false
      else true
  }

  const DEFAULT_DELAYS_MS: seq<real> := [1000.0, 3000.0, 9000.0, 9000.0, 9000.0]

  /** The last delay repeats; an empty schedule means no wait. */
  function DelayAt(delays: seq<real>, attempt: nat): real {
    if delays == [] then 0.0 else delays[Min(attempt, |delays| - 1)]
  }

  function HttpPolicy(retriable: HttpError -> bool, delays: seq<real>): (HttpError, nat) -> Decision<HttpError> {
    (e: HttpError, attempt: nat) => if retriable(e) then Again(DelayAt(delays, attempt)) else GiveUp(None)
  }

  datatype LogLine = LogLine(attempt: nat, total: int, delayMs: real, error: HttpError)

  /** One line as the classifier emits it, just before the sleep it announces. */
  function LineFor(retriable: HttpError -> bool, delays: seq<real>, total: int, seen: (HttpError, nat)): seq<LogLine> {
    if retriable(seen.0) && seen.1 + 1 < total then
      [LogLine(seen.1 + 1, total, DelayAt(delays, seen.1), seen.0)]
    else []
  }

  predicate Announces(line: LogLine, i: nat, total: int, sleep: real, failure: Outcome<bool, HttpError>) {
    line.attempt == i + 1 && line.total == total && line.delayMs == sleep && failure == Failure(line.error)
  }

  /** `result` carries only whether the write went through; `attempts` counts the first call too. */
  method ActionWithRetry(fn: nat -> Outcome<bool, HttpError>, attempts: int, retriable: HttpError -> bool,
      delays: seq<real>, logger: bool)
    returns (run: Run<bool, HttpError>, log: seq<LogLine>)
    ensures attempts <= 0 ==> run == Run(Failure(BadAttempts(attempts)), 0, [], []) && log == []
    ensures attempts > 0 ==> IsRun(fn, HttpPolicy(retriable, delays), Min(attempts, 10), run)
    ensures |log| == if logger then |run.sleeps| else 0
    ensures forall i :: 0 <= i < |log| ==> Announces(log[i], i, Min(attempts, 10), run.sleeps[i], fn(i))
  {
    log := [];
    if attempts <= 0 {
      run := Run(Failure(BadAttempts(attempts)), 0, [], []);
      return;
    }
    var total := Min(attempts, 10);
    run := WithRetry(fn, HttpPolicy(retriable, delays), Some(total));
    if logger {
      for k := 0 to |run.classified|
        invariant |log| == Min(k, |run.sleeps|)
        invariant forall i :: 0 <= i < |log| ==> Announces(log[i], i, total, run.sleeps[i], fn(i))
      {
        assert k < |run.sleeps| ==> RetriedAt(fn, HttpPolicy(retriable, delays), k);
        log := log + LineFor(retriable, delays, total, run.classified[k]);
      }
    }
  }

  predicate Hopeless(e: HttpError) {
    e.Http? && e.status.Some? && 400 <= e.status.value < 500 && e.status.value != 429
  }

  /** A client error other than 429 is never retried; with the default test, nothing else stops a run early. */
  lemma ClientErrorsStopExactly(fn: nat -> Outcome<bool, HttpError>, delays: seq<real>, max: int, run: Run<bool, HttpError>)
    requires IsRun(fn, HttpPolicy(IsRetriable, delays), max, run) && run.calls < max && run.result.Failure?
    requires forall i: nat :: fn(i).Failure? ==> fn(i).error.Http?
    ensures run.result == fn(run.calls - 1) && Hopeless(run.result.error)
    ensures forall i: nat :: i < run.calls - 1 ==> !Hopeless(fn(i).error)
  {
    assert !IsRetriable(fn(run.calls - 1).error);
    forall i: nat | i < run.calls - 1 ensures IsRetriable(fn(i).error) {
      assert RetriedAt(fn, HttpPolicy(IsRetriable, delays), i);
    }
  }

  /** With the default test and delays a failed call is followed by another exactly when it was no client error but a
      429 and calls are left, and the sleep before it is one second, then three, then nine. */
  lemma ActionFollowedExactly(fn: nat -> Outcome<bool, HttpError>, attempts: int, run: Run<bool, HttpError>, i: nat)
    requires attempts > 0 && IsRun(fn, HttpPolicy(IsRetriable, DEFAULT_DELAYS_MS), Min(attempts, 10), run)
    requires i < run.calls && fn(i).Failure?
    ensures i + 1 < run.calls <==> !Hopeless(fn(i).error) && i + 1 < attempts && i < 9
    ensures i + 1 < run.calls ==> run.sleeps[i] == if i == 0 then 1000.0 else if i == 1 then 3000.0 else 9000.0
  {
    assert IsRetriable(fn(i).error) <==> !Hopeless(fn(i).error);
    if i + 1 < run.calls {
      assert RetriedAt(fn, HttpPolicy(IsRetriable, DEFAULT_DELAYS_MS), i);
      DefaultDelay(i);
    }
  }

  /** The default schedule summed up: one second, three, then nine each time. */
  function ScheduleSum(n: nat): real {
    if n == 0 then 0.0 else if n == 1 then 1000.0 else 4000.0 + 9000.0 * (n - 2) as real
  }

  lemma DefaultDelay(i: nat)
    ensures DelayAt(DEFAULT_DELAYS_MS, i) == if i == 0 then 1000.0 else if i == 1 then 3000.0 else 9000.0
  {
  }

  lemma {:induction false} DefaultTotal(sleeps: seq<real>)
    requires forall i :: 0 <= i < |sleeps| ==> sleeps[i] == DelayAt(DEFAULT_DELAYS_MS, i)
    ensures Total(sleeps) == ScheduleSum(|sleeps|)
  {
    if sleeps != [] {
      var n := |sleeps| - 1;
      DefaultTotal(sleeps[..n]);
      DefaultDelay(n);
    }
  }

  /** With the default delays the time slept depends on the number of calls alone, and never exceeds 67 seconds. */
  lemma ActionSleepExactly(fn: nat -> Outcome<bool, HttpError>, retriable: HttpError -> bool, attempts: int,
      run: Run<bool, HttpError>)
    requires attempts > 0 && IsRun(fn, HttpPolicy(retriable, DEFAULT_DELAYS_MS), Min(attempts, 10), run)
    ensures Total(run.sleeps) == ScheduleSum(run.calls - 1) <= 67000.0
  {
    forall i | 0 <= i < |run.sleeps| ensures run.sleeps[i] == DelayAt(DEFAULT_DELAYS_MS, i) {
      assert RetriedAt(fn, HttpPolicy(retriable, DEFAULT_DELAYS_MS), i);
    }
    DefaultTotal(run.sleeps);
  }
}
