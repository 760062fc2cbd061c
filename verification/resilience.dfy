/** The breaker object and the retrying decorator around it. */
module Resilience {
  import opened BreakerOps

  datatype Exc =
    | ConnectError
    | TimeoutException
    | HTTPStatusError(code: int, hasResponse: bool)
    | CancelledError
    | OtherError

  datatype Outcome = Returned | Raised(e: Exc)

  /** What a call gives its caller; `Rejected` is this breaker's own CircuitOpen. */
  datatype Answer = Value | Failed(e: Exc) | Rejected

  predicate IsTransient(e: Exc) {
    match e
    case ConnectError => true
    case TimeoutException => true
    case HTTPStatusError(code, hasResponse) => hasResponse && code in {502, 503, 504}
    case _ => false
  }

  /** A failure that may pass: no connection, a timeout, or one of three gateway statuses. */
  ghost predicate WorthRetrying(e: Exc) {
    e == ConnectError || e == TimeoutException
    || exists code :: code in [502, 503, 504] && e == HTTPStatusError(code, true)
  }

  lemma TransientExactly(e: Exc)
    ensures IsTransient(e) <==> WorthRetrying(e)
  {
    if e.HTTPStatusError? && e.hasResponse && e.code in {502, 503, 504} { assert e.code in [502, 503, 504]; }
  }

  /** The decorated function by run number, and the clock by attempt number: once on reading the state,
      once on recording a failure. */
  datatype Script = Script(fn: nat -> Outcome, before: nat -> real, after: nat -> real)

  datatype Sim = Sim(b: Breaker, attempts: nat, runs: nat, hist: seq<Event>)

  /** One `breaker.call(fn(...))`. */
  function Attempt(s: Sim, c: Config, x: Script): (Sim, Answer) {
    var now := x.before(s.attempts);
    var b := Observe(s.b, c, now);
    var h := s.hist + [Read(now)];
    if b.phase == OPEN then (Sim(b, s.attempts + 1, s.runs, h), Rejected)
    else match x.fn(s.runs)
      case Returned => (Sim(RecordSuccess(b), s.attempts + 1, s.runs + 1, h + [Success]), Value)
      case Raised(e) =>
        if e.CancelledError? then (Sim(b, s.attempts + 1, s.runs + 1, h), Failed(e))
        else
          var late := x.after(s.attempts);
          (Sim(RecordFailure(b, c, late), s.attempts + 1, s.runs + 1, h + [Failure(late)]), Failed(e))
  }

  predicate Retried(a: Answer) { a.Failed? && IsTransient(a.e) }

  const ATTEMPTS := 3

  /** A decorated call with `left` attempts to go. */
  function Decorated(s: Sim, c: Config, x: Script, left: nat): (Sim, Answer)
    requires left > 0
    decreases left
  {
    var (t, a) := Attempt(s, c, x);
    if Retried(a) && left > 1 then Decorated(t, c, x, left - 1) else (t, a)
  }

  /** Runs that ended by cancellation. */
  function Cancellations(x: Script, lo: nat, hi: nat): nat
    decreases hi - lo
  {
    if lo >= hi then 0 else Cancellations(x, lo, hi - 1) + if x.fn(hi - 1) == Raised(CancelledError) then 1 else 0
  }

  lemma {:induction false} CancellationsSplit(x: Script, lo: nat, mid: nat, hi: nat)
    requires lo <= mid <= hi
    ensures Cancellations(x, lo, hi) == Cancellations(x, lo, mid) + Cancellations(x, mid, hi)
    decreases hi
  {
    if mid < hi { CancellationsSplit(x, lo, mid, hi - 1); }
  }

  lemma Snoc(c: Config, h: seq<Event>, e: Event)
    ensures Play(c, h + [e]) == After(Play(c, h), c, e)
    ensures Recorded(h + [e]) == Recorded(h) + if e.Read? then 0 else 1
  {
    hide After;
    assert (h + [e])[..|h|] == h;
  }

  lemma OneRun(x: Script, n: nat)
    ensures Cancellations(x, n, n) == 0
    ensures Cancellations(x, n, n + 1) == if x.fn(n) == Raised(CancelledError) then 1 else 0
  {
    assert Cancellations(x, n, n) == 0;
  }

  lemma AttemptFacts(s: Sim, c: Config, x: Script)
    requires s.b == Play(c, s.hist)
    ensures (var (t, a) := Attempt(s, c, x);
             && t.b == Play(c, t.hist) && s.runs <= t.runs <= s.runs + 1
             && Recorded(t.hist) + Cancellations(x, s.runs, t.runs) == Recorded(s.hist) + t.runs - s.runs
             && (a.Rejected? <==> t.runs == s.runs)
             && (a.Failed? ==> x.fn(s.runs) == Raised(a.e)) && (a.Value? ==> x.fn(s.runs) == Returned))
  {
    var now, late := x.before(s.attempts), x.after(s.attempts);
    var h := s.hist + [Read(now)];
    Snoc(c, s.hist, Read(now));
    Snoc(c, h, Success);
    Snoc(c, h, Failure(late));
    OneRun(x, s.runs);
    hide Play, Recorded, Cancellations, Observe, RecordSuccess, RecordFailure;
  }

  ghost predicate TransientRun(x: Script, k: nat) { x.fn(k).Raised? && WorthRetrying(x.fn(k).e) }

  /** A decorated call goes on to a second attempt exactly after a failure worth retrying. */
  lemma RetriesExactly(s: Sim, c: Config, x: Script)
    ensures (var (t1, a1) := Attempt(s, c, x); var (t, a) := Decorated(s, c, x, ATTEMPTS);
             && (t.attempts == s.attempts + 1 <==> !(a1.Failed? && WorthRetrying(a1.e)))
             && (t.attempts == s.attempts + 1 ==> (t, a) == (t1, a1)) && s.attempts < t.attempts <= s.attempts + 3)
  {
    var (t1, a1) := Attempt(s, c, x);
    if a1.Failed? { TransientExactly(a1.e); }
    AttemptsGrow(s, c, x, ATTEMPTS);
    if Retried(a1) { AttemptsGrow(t1, c, x, ATTEMPTS - 1); }
    hide IsTransient, WorthRetrying, Observe, RecordSuccess, RecordFailure;
  }

  lemma {:induction false} AttemptsGrow(s: Sim, c: Config, x: Script, left: nat)
    requires left > 0
    ensures s.attempts < Decorated(s, c, x, left).0.attempts <= s.attempts + left
    decreases left
  {
    hide IsTransient, Observe, RecordSuccess, RecordFailure;
    var (t, a) := Attempt(s, c, x);
    if Retried(a) && left > 1 { AttemptsGrow(t, c, x, left - 1); }
  }

  /** As `resilient` makes it, a decorated call runs the function at most three times: again only after a failure
      worth retrying, never after a rejection, and giving up with such a failure only when every attempt is used. */
  lemma AtMostThreeRuns(s: Sim, c: Config, x: Script)
    requires s.b == Play(c, s.hist)
    ensures (var (t, a) := Decorated(s, c, x, ATTEMPTS);
             && s.runs <= t.runs <= s.runs + 3
             && (forall k | s.runs <= k < t.runs - 1 :: TransientRun(x, k))
             && (a.Value? ==> t.runs > s.runs && x.fn(t.runs - 1) == Returned)
             && (a.Failed? ==> t.runs > s.runs && x.fn(t.runs - 1) == Raised(a.e))
             && (a.Failed? && WorthRetrying(a.e) ==> t.runs == s.runs + 3)
             && (a.Rejected? ==> forall k | s.runs <= k < t.runs :: TransientRun(x, k)))
  {
    RunsBounded(s, c, x, ATTEMPTS);
    var a := Decorated(s, c, x, ATTEMPTS).1;
    if a.Failed? { TransientExactly(a.e); }
    hide Decorated, IsTransient, WorthRetrying;
  }

  lemma {:induction false} RunsBounded(s: Sim, c: Config, x: Script, left: nat)
    requires left > 0 && s.b == Play(c, s.hist)
    ensures (var (t, a) := Decorated(s, c, x, left);
             && s.runs <= t.runs <= s.runs + left
             && (forall k | s.runs <= k < t.runs - 1 :: TransientRun(x, k))
             && (a.Value? ==> t.runs > s.runs && x.fn(t.runs - 1) == Returned)
             && (a.Failed? ==> t.runs > s.runs && x.fn(t.runs - 1) == Raised(a.e))
             && (Retried(a) ==> t.runs == s.runs + left)
             && (a.Rejected? ==> forall k | s.runs <= k < t.runs :: TransientRun(x, k)))
    decreases left
  {
    hide Attempt, Play, Recorded, IsTransient, WorthRetrying, Cancellations;
    AttemptFacts(s, c, x);
    var (t, a) := Attempt(s, c, x);
    if a.Failed? { TransientExactly(a.e); }
    if Retried(a) && left > 1 { RunsBounded(t, c, x, left - 1); }
  }

  /** And every run that is not cancelled is recorded exactly once, a rejection not at all. */
  lemma {:induction false} DecoratedRecordsOnce(s: Sim, c: Config, x: Script, left: nat)
    requires left > 0 && s.b == Play(c, s.hist)
    ensures (var t := Decorated(s, c, x, left).0;
             && t.b == Play(c, t.hist) && s.runs <= t.runs
             && Recorded(t.hist) + Cancellations(x, s.runs, t.runs) == Recorded(s.hist) + t.runs - s.runs)
    decreases left
  {
    hide Attempt, Play, Recorded, IsTransient, Cancellations;
    AttemptFacts(s, c, x);
    var (t, a) := Attempt(s, c, x);
    if Retried(a) && left > 1 {
      DecoratedRecordsOnce(t, c, x, left - 1);
      CancellationsSplit(x, s.runs, t.runs, Decorated(t, c, x, left - 1).0.runs);
    }
  }

  // ---- a function that always fails transiently ------------------------------------------

  ghost predicate AlwaysTransient(x: Script) { forall k :: TransientRun(x, k) }

  /** Before the threshold an attempt runs the function; at it, the next attempt is rejected, whatever the
      clock reads, because the latch is not yet set. */
  lemma NextAttempt(s: Sim, c: Config, x: Script)
    requires AlwaysTransient(x) && s.b.failures == s.runs <= Threshold(c)
    requires s.runs < Threshold(c) ==> s.b.phase == CLOSED
    requires s.runs == Threshold(c) ==> s.b.phase == OPEN && !s.b.observed
    ensures (var (t, a) := Attempt(s, c, x);
             && (s.runs == Threshold(c) ==> a.Rejected? && t.runs == s.runs)
             && (s.runs < Threshold(c) ==>
                  && Retried(a) && t.b.failures == t.runs == s.runs + 1
                  && (t.runs < Threshold(c) ==> t.b.phase == CLOSED)
                  && (t.runs == Threshold(c) ==> t.b.phase == OPEN && !t.b.observed)))
  {
    assert TransientRun(x, s.runs);
    TransientExactly(x.fn(s.runs).e);
    hide IsTransient, WorthRetrying;
  }

  lemma {:induction false} NextCall(s: Sim, c: Config, x: Script, left: nat)
    requires AlwaysTransient(x) && s.b.failures == s.runs <= Threshold(c) && left > 0
    requires s.runs < Threshold(c) ==> s.b.phase == CLOSED
    requires s.runs == Threshold(c) ==> s.b.phase == OPEN && !s.b.observed
    ensures (var (t, a) := Decorated(s, c, x, left);
             && (a.Rejected? <==> s.runs + left > Threshold(c))
             && (a.Rejected? ==> t.runs == Threshold(c))
             && (!a.Rejected? ==>
                  && t.b.failures == t.runs == s.runs + left
                  && (t.runs < Threshold(c) ==> t.b.phase == CLOSED)
                  && (t.runs == Threshold(c) ==> t.b.phase == OPEN && !t.b.observed)))
    decreases left
  {
    NextAttempt(s, c, x);
    var (t, a) := Attempt(s, c, x);
    hide Attempt;
    if Retried(a) && left > 1 { NextCall(t, c, x, left - 1); }
  }

  /** `n` decorated calls, one after the other, on a fresh breaker. */
  function Calls(c: Config, x: Script, n: nat): Sim {
    if n == 0 then Sim(FRESH, 0, 0, []) else Decorated(Calls(c, x, n - 1), c, x, ATTEMPTS).0
  }

  lemma {:induction false} CallsRun(c: Config, x: Script, n: nat)
    requires AlwaysTransient(x) && n * ATTEMPTS <= Threshold(c)
    ensures (var s := Calls(c, x, n);
             && s.b.failures == s.runs == n * ATTEMPTS
             && (s.runs < Threshold(c) ==> s.b.phase == CLOSED)
             && (s.runs == Threshold(c) ==> s.b.phase == OPEN && !s.b.observed))
  {
    if n > 0 {
      CallsRun(c, x, n - 1);
      NextCall(Calls(c, x, n - 1), c, x, ATTEMPTS);
    }
  }

  /** Sequential calls of a function that always fails transiently run it exactly `fail_max` times before
      the first CircuitOpen: call number `k` (from 0) is the first rejected one exactly when `k` is
      `fail_max / 3`, whatever the clock does. */
  lemma RunsUntilOpen(c: Config, x: Script, k: nat)
    requires AlwaysTransient(x) && k <= Threshold(c) / 3
    ensures Decorated(Calls(c, x, k), c, x, ATTEMPTS).1.Rejected? <==> k == Threshold(c) / 3
    ensures k == Threshold(c) / 3 ==> Calls(c, x, k + 1).runs == Threshold(c)
  {
    CallsRun(c, x, k);
    NextCall(Calls(c, x, k), c, x, ATTEMPTS);
  }

  // ---- the objects ------------------------------------------------------------------------

  class CircuitBreaker {
    const config: Config
    var failures: nat
    var phase: Phase
    var openedAt: real
    var openObserved: bool

    ghost function Now(): Breaker
      reads this
    {
      Breaker(failures, phase, openedAt, openObserved)
    }

    constructor (failMax: int, resetTimeout: int)
      ensures config == Config(failMax, resetTimeout) && Now() == FRESH
    {
      config := Config(failMax, resetTimeout);
      failures, phase, openedAt, openObserved := 0, CLOSED, 0.0, false;
    }

    /** Reading the `state` property changes it. */
    method State(now: real) returns (p: Phase)
      modifies this
      ensures Now() == Observe(old(Now()), config, now) && p == Now().phase
    {
      if phase == OPEN {
        if openObserved && now - openedAt >= config.resetTimeout as real {
          phase := HALF_OPEN;
        } else {
          openObserved := true;
        }
      }
      p := phase;
    }

    method RecordSuccess()
      modifies this
      ensures Now() == BreakerOps.RecordSuccess(old(Now()))
    {
      failures, phase, openObserved := 0, CLOSED, false;
    }

    method RecordFailure(now: real)
      modifies this
      ensures Now() == BreakerOps.RecordFailure(old(Now()), config, now)
    {
      failures := failures + 1;
      if failures >= config.failMax {
        phase, openedAt, openObserved := OPEN, now, false;
      }
    }

    method Call(outcome: Outcome, before: real, after: real) returns (a: Answer)
      modifies this
      ensures (var b := Observe(old(Now()), config, before);
               && (a.Rejected? <==> b.phase == OPEN)
               && (a.Rejected? ==> Now() == b)
               && (!a.Rejected? && outcome.Returned? ==> a == Value && Now() == BreakerOps.RecordSuccess(b))
               && (!a.Rejected? && outcome.Raised? ==>
                    a == Failed(outcome.e)
                    && Now() == if outcome.e.CancelledError? then b else BreakerOps.RecordFailure(b, config, after)))
    {
      var p := State(before);
      if p == OPEN { return Rejected; }
      match outcome
      case Returned =>
        RecordSuccess();
        a := Value;
      case Raised(e) =>
        if !e.CancelledError? { RecordFailure(after); }
        a := Failed(e);
    }
  }

  /** `resilient(breaker)(fn)`, called once: the retry loop. */
  method Resilient(breaker: CircuitBreaker, x: Script, ghost s: Sim, attempt0: nat, run0: nat)
    returns (a: Answer, runs: nat)
    requires s.b == breaker.Now() && s.attempts == attempt0 && s.runs == run0
    modifies breaker
    ensures (var (t, r) := Decorated(s, breaker.config, x, ATTEMPTS);
             a == r && breaker.Now() == t.b && runs == t.runs)
  {
    ghost var t := s;
    var left: nat := ATTEMPTS;
    var at: nat, n: nat := attempt0, run0;
    while true
      invariant 0 < left <= ATTEMPTS
      invariant t.b == breaker.Now() && t.attempts == at && t.runs == n
      invariant Decorated(s, breaker.config, x, ATTEMPTS) == Decorated(t, breaker.config, x, left)
      decreases left
    {
      a := breaker.Call(x.fn(n), x.before(at), x.after(at));
      t := Attempt(t, breaker.config, x).0;
      at, n := at + 1, if a.Rejected? then n else n + 1;
      if !Retried(a) || left == 1 { return a, n; }
      left := left - 1;
    }
  }
}
