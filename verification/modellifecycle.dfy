/** One lazily loaded model, used by any number of tasks. */
module LifecycleProtocol {
  import opened Common

  // Callers, the reaper and shutdown all come down to `ensure_loaded` and `unload`, which take the lock and run the
  // loader or unloader in an executor thread.

  datatype Op = Load | Unload

  /** A job in the executor, by how far it got; a loader may return None. */
  datatype Job = Running | Returned | ReturnedNone | Raised

  /** What a reaper's sweep saw when it decided to unload: the time, the last use, and whether it then had to
      wait for the lock. */
  datatype Check = Check(now: real, used: real, waited: bool)

  datatype Pc = Waiting(op: Op, swept: Option<Check>) | InJob(op: Op, swept: Option<Check>, job: Job)

  /** `log` lists the loader and unloader executions that returned, in order. `orphans` counts executor
      threads still running whose task was cancelled: a thread cannot be. */
  datatype State = State(pcs: map<nat, Pc>, holder: Option<nat>, loaded: bool,
      lastUsed: real, log: seq<Op>, orphans: nat)

  datatype Step =
    | Call(t: nat, op: Op)
    | Sweep(t: nat, now: real, ttl: real)
    | Acquire(t: nat, now: real)
    | Returns(t: nat)
    | ReturnsNone(t: nat)
    | Raises(t: nat)
    | Resume(t: nat, now: real)
    | CancelWaiting(t: nat)
    | CancelInJob(t: nat)
    | OrphanEnds
    | Touch(now: real)

  const INIT := State(map[], None, false, 0.0, [], 0)

  predicate IsRunning(s: State, t: nat) { t in s.pcs && s.pcs[t].InJob? && s.pcs[t].job.Running? }

  predicate Enabled(s: State, step: Step) {
    match step
    case Call(t, op) => t !in s.pcs
    case Sweep(t, now, ttl) => t !in s.pcs && s.loaded && ttl > 0.0 && now - s.lastUsed >= ttl
    case Acquire(t, _) => t in s.pcs && s.pcs[t].Waiting? && s.holder.None?
    case Returns(t) => IsRunning(s, t)
    case ReturnsNone(t) => IsRunning(s, t) && s.pcs[t].op == Load
    case Raises(t) => IsRunning(s, t)
    case Resume(t, _) => t in s.pcs && s.pcs[t].InJob? && !s.pcs[t].job.Running?
    case CancelWaiting(t) => t in s.pcs && s.pcs[t].Waiting?
    case CancelInJob(t) => t in s.pcs && s.pcs[t].InJob?
    case OrphanEnds => s.orphans > 0
    case Touch(_) => true
  }

  /** An asyncio lock nobody has or waits for is taken without suspending. */
  predicate LockFree(s: State) { s.holder.None? && forall t | t in s.pcs :: !s.pcs[t].Waiting? }

  /** The lock is released on every way out of `async with`. */
  function Leave(s: State, t: nat): State { s.(pcs := s.pcs - {t}, holder := None) }

  function End(s: State, t: nat, job: Job): State
    requires IsRunning(s, t)
  {
    s.(pcs := s.pcs[t := s.pcs[t].(job := job)])
  }

  function Apply(s: State, step: Step): State
    requires Enabled(s, step)
  {
    match step
    case Call(t, op) => s.(pcs := s.pcs[t := Waiting(op, None)])
    case Sweep(t, now, ttl) =>
      if LockFree(s)
      then s.(pcs := s.pcs[t := InJob(Unload, Some(Check(now, s.lastUsed, false)), Running)], holder := Some(t))
      else s.(pcs := s.pcs[t := Waiting(Unload, Some(Check(now, s.lastUsed, true)))])
    case Acquire(t, now) =>
      var op := s.pcs[t].op;
      if s.loaded == (op == Load) then Leave(s, t).(lastUsed := if op == Load then now else s.lastUsed)
      else s.(pcs := s.pcs[t := InJob(op, s.pcs[t].swept, Running)], holder := Some(t))
    case Returns(t) => End(s, t, Returned).(log := s.log + [s.pcs[t].op])
    case ReturnsNone(t) => End(s, t, ReturnedNone).(log := s.log + [Load])
    case Raises(t) => End(s, t, Raised)
    case Resume(t, now) =>
      var p := s.pcs[t];
      if p.job.Raised? then Leave(s, t)
      else Leave(s, t).(loaded := p.op == Load && p.job.Returned?, lastUsed := if p.op == Load then now else 0.0)
    case CancelWaiting(t) => s.(pcs := s.pcs - {t})
    case CancelInJob(t) => Leave(s, t).(orphans := s.orphans + if s.pcs[t].job.Running? then 1 else 0)
    case OrphanEnds => s.(orphans := s.orphans - 1)
    case Touch(now) => s.(lastUsed := now)
  }

  ghost predicate Moves(s: State, t: State) { exists step :: Enabled(s, step) && t == Apply(s, step) }

  ghost predicate Run(trace: seq<State>) { trace != [] && trace[0] == INIT && Linked(trace, Moves) }

  /** A run goes on with any enabled step. */
  lemma Extend(trace: seq<State>, step: Step) returns (more: seq<State>)
    requires Run(trace) && Enabled(trace[|trace| - 1], step)
    ensures Run(more) && |more| > 0 && more[|more| - 1] == Apply(trace[|trace| - 1], step)
  {
    hide Enabled, Apply;
    var s := Apply(trace[|trace| - 1], step);
    assert Moves(trace[|trace| - 1], s);
    LinkedSnoc(trace, Moves, s);
    more := trace + [s];
  }

  /** Whoever is in a job holds the lock. */
  predicate Locked(s: State) {
    && (forall t | t in s.pcs && s.pcs[t].InJob? :: s.holder == Some(t))
    && (s.holder.Some? ==> s.holder.value in s.pcs && s.pcs[s.holder.value].InJob?)
  }

  lemma LockedStep(s: State, step: Step)
    requires Locked(s) && Enabled(s, step)
    ensures Locked(Apply(s, step))
  {
    hide LockFree;
    assert step.Sweep? && LockFree(s) ==> s.holder.None? by { FreeMeansNoHolder(s); }
  }

  lemma FreeMeansNoHolder(s: State)
    ensures LockFree(s) ==> s.holder.None?
  {}

  lemma {:induction false} LockedHolds(trace: seq<State>, n: nat)
    requires Run(trace) && n < |trace|
    ensures Locked(trace[n])
  {
    if n > 0 {
      LockedHolds(trace, n - 1);
      assert Moves(trace[n - 1], trace[n]);
      hide Locked, Enabled, Apply;
      var step :| Enabled(trace[n - 1], step) && trace[n] == Apply(trace[n - 1], step);
      LockedStep(trace[n - 1], step);
    }
  }

  /** In every run, cancellations included, two executions overlap only if one of them was orphaned by a
      cancellation: the tasks themselves never have more than one under way. */
  lemma OverlapNeedsOrphan(trace: seq<State>, n: nat, t: nat, u: nat)
    requires Run(trace) && n < |trace| && IsRunning(trace[n], t) && IsRunning(trace[n], u)
    ensures t == u
  {
    LockedHolds(trace, n);
  }

  // ---- runs in which the loader returns a model and nobody is cancelled in a job -------------

  predicate Clean(step: Step) { !step.CancelInJob? && !step.ReturnsNone? }

  ghost predicate CleanMoves(s: State, t: State) {
    exists step :: Clean(step) && Enabled(s, step) && t == Apply(s, step)
  }

  ghost predicate CleanRun(trace: seq<State>) { trace != [] && trace[0] == INIT && Linked(trace, CleanMoves) }

  predicate Alternates(log: seq<Op>) { forall i | 0 <= i < |log| :: log[i] == if i % 2 == 0 then Load else Unload }

  function Count(log: seq<Op>, op: Op): nat {
    if log == [] then 0 else Count(log[..|log| - 1], op) + if log[|log| - 1] == op then 1 else 0
  }

  /** Whether the model is in memory: what `is_loaded` says once a finished job's task has resumed. */
  predicate InMemory(s: State) {
    if s.holder.Some? && s.holder.value in s.pcs && s.pcs[s.holder.value].InJob? && s.pcs[s.holder.value].job.Returned?
    then s.pcs[s.holder.value].op == Load
    else s.loaded
  }

  predicate Inv(s: State) {
    && Locked(s) && s.orphans == 0
    && Alternates(s.log) && (InMemory(s) <==> |s.log| % 2 == 1)
    && forall t | t in s.pcs && s.pcs[t].InJob? :: s.loaded == (s.pcs[t].op == Unload) && !s.pcs[t].job.ReturnedNone?
  }

  lemma StepKeeps(s: State, step: Step)
    requires Inv(s) && Clean(step) && Enabled(s, step)
    ensures Inv(Apply(s, step))
  {
    LockedStep(s, step);
    FreeMeansNoHolder(s);
    hide LockFree;
    match step
    case Returns(t) =>
      assert s.holder == Some(t);
      assert |s.log| % 2 == if s.pcs[t].op == Load then 0 else 1;
    case Raises(t) => assert s.holder == Some(t); hide Alternates;
    case Resume(t, _) => assert s.holder == Some(t); hide Alternates;
    case _ => hide Alternates;
  }

  lemma {:induction false} InvHolds(trace: seq<State>, n: nat)
    requires CleanRun(trace) && n < |trace|
    ensures Inv(trace[n])
  {
    if n > 0 {
      InvHolds(trace, n - 1);
      assert CleanMoves(trace[n - 1], trace[n]);
      hide Inv, Apply, Enabled;
      var step :| Clean(step) && Enabled(trace[n - 1], step) && trace[n] == Apply(trace[n - 1], step);
      StepKeeps(trace[n - 1], step);
    }
  }

  lemma {:induction false} AlternatingCounts(log: seq<Op>)
    requires Alternates(log)
    ensures Count(log, Load) - Count(log, Unload) == |log| % 2
  {
    if log != [] { AlternatingCounts(log[..|log| - 1]); }
  }

  /** Over any interleaving of loads, unloads, reaper sweeps and shutdown: executions never overlap,
      successful loads and unloads strictly alternate starting with a load, and loads minus unloads is one
      while the model is in memory and zero otherwise. */
  lemma LoadsAndUnloadsAlternate(trace: seq<State>, n: nat)
    requires CleanRun(trace) && n < |trace|
    ensures (var s := trace[n];
             && s.orphans == 0 && (forall t, u | IsRunning(s, t) && IsRunning(s, u) :: t == u)
             && Alternates(s.log)
             && Count(s.log, Load) - Count(s.log, Unload) == (if InMemory(s) then 1 else 0)
             && (s.holder.None? ==> InMemory(s) == s.loaded))
  {
    InvHolds(trace, n);
    AlternatingCounts(trace[n].log);
  }

  // ---- why both conditions are there ------------------------------------------------------------

  /** `unload_all` stops the reaper first. If the reaper is then inside an unload, that unload is cancelled but
      its thread is not, and `unload_all` starts a second one beside it. */
  lemma StoppingTheReaperOverlaps() returns (trace: seq<State>)
    ensures Run(trace)
    ensures (var s := trace[|trace| - 1]; s.orphans == 1 && exists t :: IsRunning(s, t) && s.pcs[t].op == Unload)
  {
    trace := LoadedAt(0.0);
    hide Run;
    trace := Extend(trace, Sweep(1, 400.0, 300.0));
    trace := Extend(trace, Call(2, Unload));
    trace := Extend(trace, CancelInJob(1));
    trace := Extend(trace, Acquire(2, 400.0));
    assert IsRunning(trace[|trace| - 1], 2);
  }

  /** One caller has loaded the model. */
  lemma LoadedAt(now: real) returns (trace: seq<State>)
    ensures Run(trace) && trace[|trace| - 1] == State(map[], None, true, now, [Load], 0)
  {
    trace := [INIT];
    assert Run(trace);
    hide Run;
    trace := Extend(trace, Call(0, Load));
    trace := Extend(trace, Acquire(0, now));
    trace := Extend(trace, Returns(0));
    trace := Extend(trace, Resume(0, now));
    assert trace[|trace| - 1].pcs == map[];
  }

  /** A loader that returns None leaves the model looking unloaded, so the next caller loads again. */
  lemma NoneLoadsTwice() returns (trace: seq<State>)
    ensures Run(trace)
    ensures (var s := trace[|trace| - 1]; s.log == [Load, Load] && s.orphans == 0)
  {
    trace := [INIT];
    assert Run(trace);
    hide Run;
    trace := Extend(trace, Call(0, Load));
    trace := Extend(trace, Acquire(0, 0.0));
    trace := Extend(trace, ReturnsNone(0));
    trace := Extend(trace, Resume(0, 0.0));
    trace := Extend(trace, Call(0, Load));
    trace := Extend(trace, Acquire(0, 0.0));
    trace := Extend(trace, Returns(0));
  }

  // ---- what the reaper unloads --------------------------------------------------------------------

  ghost predicate UntouchedMoves(s: State, t: State) {
    exists step :: Enabled(s, step) && !step.Touch? && t == Apply(s, step)
  }

  ghost predicate UntouchedRun(trace: seq<State>) { trace != [] && trace[0] == INIT && Linked(trace, UntouchedMoves) }

  /** A sweep that found the lock free unloads a loaded model that nobody has used since. */
  predicate SweptIdle(s: State) {
    && Locked(s)
    && (forall t | t in s.pcs && s.pcs[t].Waiting? && s.pcs[t].swept.Some? :: s.pcs[t].swept.value.waited)
    && forall t | t in s.pcs && s.pcs[t].InJob? && s.pcs[t].swept.Some? && !s.pcs[t].swept.value.waited ::
         s.loaded && s.lastUsed == s.pcs[t].swept.value.used
  }

  lemma SweptStep(s: State, step: Step)
    requires SweptIdle(s) && !step.Touch? && Enabled(s, step)
    ensures SweptIdle(Apply(s, step))
  {
    LockedStep(s, step);
    FreeMeansNoHolder(s);
    hide LockFree;
  }

  /** In every run without `touch`, whatever else happens: an unload a sweep has under way acts on a model that
      was not used since the sweep looked, unless the sweep had to wait for the lock. */
  lemma {:induction false} SweepUnloadsIdle(trace: seq<State>, n: nat)
    requires UntouchedRun(trace) && n < |trace|
    ensures SweptIdle(trace[n])
  {
    if n > 0 {
      SweepUnloadsIdle(trace, n - 1);
      assert UntouchedMoves(trace[n - 1], trace[n]);
      hide SweptIdle, Enabled, Apply;
      var step :| Enabled(trace[n - 1], step) && !step.Touch? && trace[n] == Apply(trace[n - 1], step);
      SweptStep(trace[n - 1], step);
    }
  }

  /** If it had to wait, it may unload a model loaded anew after it looked. */
  lemma WaitingSweepUnloadsFresh() returns (trace: seq<State>)
    ensures Run(trace)
    ensures (var s := trace[|trace| - 1]; exists t ::
              IsRunning(s, t) && s.pcs[t].op == Unload && s.pcs[t].swept.Some? && s.lastUsed > s.pcs[t].swept.value.now)
  {
    trace := LoadedAt(0.0);
    hide Run;
    trace := Extend(trace, Call(1, Unload));
    trace := Extend(trace, Acquire(1, 400.0));
    trace := Extend(trace, Call(2, Load));
    trace := Extend(trace, Sweep(3, 400.0, 300.0));
    trace := Extend(trace, Returns(1));
    trace := Extend(trace, Resume(1, 401.0));
    trace := Extend(trace, Acquire(2, 401.0));
    trace := Extend(trace, Returns(2));
    trace := Extend(trace, Resume(2, 402.0));
    trace := Extend(trace, Acquire(3, 402.0));
    assert IsRunning(trace[|trace| - 1], 3);
  }

  // ---- what the reaper counts as use ------------------------------------------------------------------

  /** A run with its steps. */
  ghost predicate Stepped(trace: seq<State>, steps: seq<Step>) {
    && |trace| == |steps| + 1 && trace[0] == INIT
    && forall n | 0 <= n < |steps| :: Enabled(trace[n], steps[n]) && trace[n + 1] == Apply(trace[n], steps[n])
  }

  /** The clock a step reads. */
  function Clock(step: Step): Option<real> {
    match step
    case Sweep(_, now, _) => Some(now)
    case Acquire(_, now) => Some(now)
    case Resume(_, now) => Some(now)
    case Touch(now) => Some(now)
    case _ => None
  }

  ghost predicate Forward(steps: seq<Step>) {
    forall i, j | 0 <= i < j < |steps| && Clock(steps[i]).Some? && Clock(steps[j]).Some? ::
      Clock(steps[i]).value <= Clock(steps[j]).value
  }

  /** A use: `touch`, or the end of an `ensure_loaded` that leaves a model. */
  predicate Uses(s: State, step: Step, t: State) {
    step.Touch?
    || ((step.Acquire? || step.Resume?) && step.t in s.pcs && s.pcs[step.t].op == Load && step.t !in t.pcs && t.loaded)
  }

  /** While the model is loaded, `lastUsed` is the time of the last of the first `n` steps that used it. */
  ghost predicate Tracks(trace: seq<State>, steps: seq<Step>, n: nat)
    requires n < |trace| == |steps| + 1
  {
    trace[n].loaded ==>
      && (exists k ::
            0 <= k < n && Uses(trace[k], steps[k], trace[k + 1]) && Clock(steps[k]) == Some(trace[n].lastUsed))
      && forall k | 0 <= k < n && Uses(trace[k], steps[k], trace[k + 1]) :: Clock(steps[k]).value <= trace[n].lastUsed
  }

  /** A load runs only while nothing is loaded, and an unload only while something is. */
  predicate JobsFit(s: State) {
    Locked(s) && forall t | t in s.pcs && s.pcs[t].InJob? :: s.loaded == (s.pcs[t].op == Unload)
  }

  lemma JobsFitStep(s: State, step: Step)
    requires JobsFit(s) && Enabled(s, step)
    ensures JobsFit(Apply(s, step))
  {
    LockedStep(s, step);
    FreeMeansNoHolder(s);
    hide LockFree;
  }

  /** Either the step uses the model at its own time, or it leaves it and its time as they were, or unloaded. */
  lemma UseStep(s: State, step: Step)
    requires JobsFit(s) && Enabled(s, step)
    ensures (var t := Apply(s, step);
             && (Uses(s, step, t) ==> Clock(step) == Some(t.lastUsed))
             && (!Uses(s, step, t) && t.loaded ==> s.loaded && t.lastUsed == s.lastUsed))
  {}

  lemma {:induction false} TracksHolds(trace: seq<State>, steps: seq<Step>, n: nat)
    requires Stepped(trace, steps) && Forward(steps) && n < |trace|
    ensures Tracks(trace, steps, n) && JobsFit(trace[n])
  {
    if n > 0 {
      hide Enabled, Apply, Uses, JobsFit;
      TracksHolds(trace, steps, n - 1);
      var s, t, step := trace[n - 1], trace[n], steps[n - 1];
      assert Enabled(s, step) && t == Apply(s, step);
      UseStep(s, step);
      JobsFitStep(s, step);
      if t.loaded {
        if Uses(s, step, t) {
          forall k | 0 <= k < n && Uses(trace[k], steps[k], trace[k + 1]) ensures Clock(steps[k]).value <= t.lastUsed {
            UsesReadClock(trace[k], steps[k], trace[k + 1]);
          }
        }
      }
    }
  }

  lemma UsesReadClock(s: State, step: Step, t: State)
    requires Uses(s, step, t)
    ensures Clock(step).Some?
  {}

  /** In every run with a clock that does not run backwards: the reaper takes up a loaded model for unloading exactly
      when every call of `ensure_loaded` that left a model, and every `touch`, ended `ttl` or longer ago. */
  lemma SweepsUnusedExactly(trace: seq<State>, steps: seq<Step>, n: nat, t: nat, now: real, ttl: real)
    requires Stepped(trace, steps) && Forward(steps) && n < |trace|
    requires trace[n].loaded && ttl > 0.0 && t !in trace[n].pcs
    ensures (Enabled(trace[n], Sweep(t, now, ttl))
             <==> forall k | 0 <= k < n && Uses(trace[k], steps[k], trace[k + 1]) :: Clock(steps[k]).value <= now - ttl)
  {
    TracksHolds(trace, steps, n);
    hide Uses, Clock, Apply, Stepped, Forward;
  }

  // ---- one whole call ------------------------------------------------------------------------------

  /** The steps of one call of task `t`, its job ending as `job`, nobody else moving meanwhile. */
  function CallSteps(s: State, t: nat, op: Op, job: Job, now: real): State
    requires t !in s.pcs && s.holder.None? && !job.Running? && (job.ReturnedNone? ==> op == Load)
  {
    var s1 := Apply(s, Call(t, op));
    var s2 := Apply(s1, Acquire(t, now));
    if t !in s2.pcs then s2
    else
      var s3 := Apply(s2,
        match job case Returned => Returns(t) case ReturnedNone => ReturnsNone(t) case _ => Raises(t));
      Apply(s3, Resume(t, now))
  }

  /** A whole call is a run, and leaves every other task where it was. */
  lemma CallRuns(trace: seq<State>, t: nat, op: Op, job: Job, now: real) returns (more: seq<State>)
    requires Run(trace) && (var s := trace[|trace| - 1]; t !in s.pcs && s.holder.None?)
    requires !job.Running? && (job.ReturnedNone? ==> op == Load)
    ensures (var s := trace[|trace| - 1]; var u := CallSteps(s, t, op, job, now);
             Run(more) && more[|more| - 1] == u && u.pcs == s.pcs && u.holder.None? && u.orphans == s.orphans)
  {
    ghost var s := trace[|trace| - 1];
    hide Run;
    more := Extend(trace, Call(t, op));
    more := Extend(more, Acquire(t, now));
    if t in more[|more| - 1].pcs {
      more := Extend(more,
        match job case Returned => Returns(t) case ReturnedNone => ReturnsNone(t) case _ => Raises(t));
      more := Extend(more, Resume(t, now));
    }
    assert more[|more| - 1].pcs == s.pcs;
  }
}

/** The lifecycle and registry objects, each call run without interruption. */
module ModelLifecycle {
  import opened Common
  import LP = LifecycleProtocol

  /** What the loader does: return a model (None for Python's None), or raise. */
  datatype LoadOutcome = Model(m: Option<nat>) | LoadFails

  function JobOf(loader: LoadOutcome): LP.Job {
    match loader
    case Model(Some(_)) => LP.Returned
    case Model(None) => LP.ReturnedNone
    case LoadFails => LP.Raised
  }

  class Lifecycle {
    var model: Option<nat>
    var lastUsed: real

    /** The protocol's state of this model, with the lock free and task `t` not busy. */
    ghost predicate Shows(s: LP.State, t: nat)
      reads this
    {
      t !in s.pcs && s.holder.None? && s.loaded == model.Some? && s.lastUsed == lastUsed
    }

    constructor ()
      ensures model == None && lastUsed == 0.0 && Shows(LP.INIT, 0)
    {
      model, lastUsed := None, 0.0;
    }

    /** `ensure_loaded`, run to its end by task `t`: the protocol's steps, which load only if nothing is loaded. */
    method EnsureLoaded(loader: LoadOutcome, now: real, ghost s: LP.State, ghost t: nat) returns (raised: bool)
      requires Shows(s, t)
      modifies this
      ensures Shows(LP.CallSteps(s, t, LP.Load, JobOf(loader), now), t)
      ensures raised == (old(model).None? && loader.LoadFails?)
      ensures model == if old(model).None? && loader.Model? then loader.m else old(model)
      ensures !raised && model.Some? ==> lastUsed == now
      ensures raised ==> lastUsed == old(lastUsed)
    {
      raised := false;
      if model.Some? {
        lastUsed := now;
        return;
      }
      if loader.LoadFails? { return true; }
      model := loader.m;
      lastUsed := now;
    }

    method Touch(now: real, ghost s: LP.State, ghost t: nat)
      requires Shows(s, t)
      modifies this
      ensures Shows(LP.Apply(s, LP.Touch(now)), t) && lastUsed == now && model == old(model)
    {
      lastUsed := now;
    }

    /** `unload`, run to its end by task `t`. A model whose unloader raises stays loaded. */
    method Unload(fails: bool, now: real, ghost s: LP.State, ghost t: nat) returns (raised: bool)
      requires Shows(s, t)
      modifies this
      ensures Shows(LP.CallSteps(s, t, LP.Unload, if fails then LP.Raised else LP.Returned, now), t)
      ensures raised == (old(model).Some? && fails)
      ensures raised || old(model).None? ==> model == old(model) && lastUsed == old(lastUsed)
      ensures !raised ==> model == None
      ensures !raised && old(model).Some? ==> lastUsed == 0.0
    {
      raised := false;
      if model.None? { return; }
      if fails { return true; }
      model := None;
      lastUsed := 0.0;
    }

    /** This model's part of a protocol state in which nothing is going on. */
    ghost function Quiet(): LP.State
      reads this
      ensures Shows(Quiet(), 0)
    {
      LP.State(map[], None, model.Some?, lastUsed, [], 0)
    }
  }

  /** Registered lifecycles, in registration order; the same one may be registered twice. */
  class Registry {
    var models: seq<Lifecycle>
    var ttl: int

    constructor ()
      ensures models == [] && ttl == 300
    {
      models, ttl := [], 300;
    }

    ghost predicate Idle(lc: Lifecycle, now: real)
      reads this, lc
    {
      lc.model.Some? && now - lc.lastUsed >= ttl as real
    }

    /** `unload_all`: every model is gone afterwards, unless an unloader raises; then the loop ends there and
        the models after it are as they were. */
    method UnloadAll(now: real, fails: nat -> bool) returns (n: nat, raised: bool)
      modifies set lc | lc in models
      ensures n <= |models| && raised == (n < |models|)
      ensures forall i | 0 <= i < n :: models[i].model.None?
      ensures raised ==> fails(n) && old(models[n].model).Some? && models[n].model == old(models[n].model)
      ensures forall lc | lc in models && lc !in models[..n] ::
        lc.model == old(lc.model) && lc.lastUsed == old(lc.lastUsed)
    {
      n, raised := 0, false;
      while n < |models|
        invariant n <= |models|
        invariant forall i | 0 <= i < n :: models[i].model.None?
        invariant forall lc | lc in models && lc !in models[..n] ::
          lc.model == old(lc.model) && lc.lastUsed == old(lc.lastUsed)
        invariant forall lc | lc in models :: lc.model.None? || lc.model == old(lc.model)
      {
        if models[n].model.Some? {
          raised := models[n].Unload(fails(n), now, models[n].Quiet(), 0);
          if raised { return; }
        }
        assert models[..n + 1] == models[..n] + [models[n]];
        n := n + 1;
      }
    }

    /** One sweep of the reaper: afterwards every model that was idle is unloaded unless its unloader raised,
        which stops nothing, and every model that was not idle is untouched. */
    method Sweep(now: real, fails: nat -> bool)
      modifies set lc | lc in models
      ensures forall i | 0 <= i < |models| && ttl > 0 ::
                old(models[i].model).Some? && now - old(models[i].lastUsed) >= ttl as real ==>
                  models[i].model.None? || fails(i)
      ensures forall lc | lc in models &&
                          !(ttl > 0 && old(lc.model).Some? && now - old(lc.lastUsed) >= ttl as real) ::
        lc.model == old(lc.model) && lc.lastUsed == old(lc.lastUsed)
    {
      if ttl <= 0 { return; }
      var i := 0;
      while i < |models|
        invariant 0 <= i <= |models|
        invariant forall lc | lc in models ::
          lc.model.None? || (lc.model == old(lc.model) && lc.lastUsed == old(lc.lastUsed))
        invariant forall lc | lc in models && !old(Idle(lc, now)) ::
          lc.model == old(lc.model) && lc.lastUsed == old(lc.lastUsed)
        invariant forall j | 0 <= j < i && old(Idle(models[j], now)) :: models[j].model.None? || fails(j)
      {
        var lc := models[i];
        if lc.model.Some? && now - lc.lastUsed >= ttl as real {
          var raised := lc.Unload(fails(i), now, lc.Quiet(), 0);
        }
        i := i + 1;
      }
    }
  }
}
