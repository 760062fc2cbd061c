/** Replicas of a service whose cleanup ticks share one advisory lock. */
module CleanupProtocol {
  import opened Common

  /** The lock belongs to a database session and counts: the session that has it may take it again. The count per
      session, zero where absent. */
  type Counts = map<nat, nat>

  function CountIn(count: Counts, c: nat): nat { if c in count then count[c] else 0 }

  /** `pg_try_advisory_lock`: granted unless another session has the lock. */
  predicate Granted(count: Counts, c: nat) { forall d | d in count && d != c :: count[d] == 0 }

  function Take(count: Counts, c: nat): Counts {
    if Granted(count, c) then count[c := CountIn(count, c) + 1] else count
  }

  /** `pg_advisory_unlock` */
  function Give(count: Counts, c: nat): Counts {
    count[c := if CountIn(count, c) > 0 then CountIn(count, c) - 1 else 0]
  }

  /** Where a replica is in its tick, and on which connection. */
  datatype Pc = Connected(c: nat) | InTask(c: nat) | Unlocking(c: nat)

  /** Replicas between ticks are not in `pcs`. `resets`: the pool resets each connection it takes back, which
      releases the session's advisory locks. */
  datatype State = State(pcs: map<nat, Pc>, count: Counts, resets: bool)

  datatype Step =
    | Acquire(r: nat, c: nat)
    | TryLock(r: nat)
    | TryLockRaises(r: nat)
    | TaskEnds(r: nat)
    | Unlock(r: nat)
    | UnlockRaises(r: nat)
    | Drop(c: nat)

  function CountOf(s: State, c: nat): nat { CountIn(s.count, c) }

  predicate Enabled(s: State, step: Step) {
    match step
    case Acquire(r, c) => r !in s.pcs && forall q | q in s.pcs :: s.pcs[q].c != c
    case TryLock(r) => r in s.pcs && s.pcs[r].Connected?
    case TryLockRaises(r) => r in s.pcs && s.pcs[r].Connected?
    case TaskEnds(r) => r in s.pcs && s.pcs[r].InTask?
    case Unlock(r) => r in s.pcs && s.pcs[r].Unlocking?
    case UnlockRaises(r) => r in s.pcs && s.pcs[r].Unlocking?
    case Drop(c) => true
  }

  /** The connection of replica `r` goes back to its pool, with the lock counting `count`. */
  function Release(s: State, r: nat, count: Counts): State
    requires r in s.pcs
  {
    s.(pcs := s.pcs - {r}, count := if s.resets then count - {s.pcs[r].c} else count)
  }

  /** The task's own failure or cancellation makes no difference: `finally` unlocks. A dropped session loses
      its locks. */
  function Apply(s: State, step: Step): State
    requires Enabled(s, step)
  {
    match step
    case Acquire(r, c) => s.(pcs := s.pcs[r := Connected(c)])
    case TryLock(r) =>
      var c := s.pcs[r].c;
      if Granted(s.count, c) then s.(pcs := s.pcs[r := InTask(c)], count := Take(s.count, c))
      else Release(s, r, s.count)
    case TryLockRaises(r) => Release(s, r, s.count)
    case TaskEnds(r) => s.(pcs := s.pcs[r := Unlocking(s.pcs[r].c)])
    case Unlock(r) => Release(s, r, Give(s.count, s.pcs[r].c))
    case UnlockRaises(r) => Release(s, r, s.count)
    case Drop(c) => s.(count := s.count - {c})
  }

  predicate Starts(s: State) { s.pcs == map[] && s.count == map[] }

  ghost predicate Moves(s: State, t: State) { exists step :: Enabled(s, step) && t == Apply(s, step) }

  ghost predicate Run(trace: seq<State>) { trace != [] && Starts(trace[0]) && Linked(trace, Moves) }

  lemma Extend(trace: seq<State>, step: Step) returns (more: seq<State>)
    requires Run(trace) && Enabled(trace[|trace| - 1], step)
    ensures Run(more) && |more| > 0 && more[|more| - 1] == Apply(trace[|trace| - 1], step)
  {
    var s := Apply(trace[|trace| - 1], step);
    assert Moves(trace[|trace| - 1], s);
    LinkedSnoc(trace, Moves, s);
    more := trace + [s];
  }

  // ---- runs in which no session is dropped --------------------------------------------------

  ghost predicate KeptMoves(s: State, t: State) {
    exists step :: Enabled(s, step) && !step.Drop? && t == Apply(s, step)
  }

  ghost predicate KeptRun(trace: seq<State>) { trace != [] && Starts(trace[0]) && Linked(trace, KeptMoves) }

  predicate HasLock(p: Pc) { p.InTask? || p.Unlocking? }

  predicate Inv(s: State) {
    && (forall r, q | r in s.pcs && q in s.pcs && r != q :: s.pcs[r].c != s.pcs[q].c)
    && (forall r | r in s.pcs && HasLock(s.pcs[r]) :: CountOf(s, s.pcs[r].c) > 0)
    && (forall c, d | c in s.count && d in s.count && c != d :: s.count[c] == 0 || s.count[d] == 0)
  }

  lemma StepKeeps(s: State, step: Step)
    requires Inv(s) && Enabled(s, step) && !step.Drop?
    ensures Inv(Apply(s, step))
  {}

  lemma {:induction false} InvHolds(trace: seq<State>, n: nat)
    requires KeptRun(trace) && n < |trace|
    ensures Inv(trace[n])
  {
    if n > 0 {
      InvHolds(trace, n - 1);
      assert KeptMoves(trace[n - 1], trace[n]);
      hide Inv, Enabled, Apply;
      var step :| Enabled(trace[n - 1], step) && !step.Drop? && trace[n] == Apply(trace[n - 1], step);
      StepKeeps(trace[n - 1], step);
    }
  }

  /** At most one replica is inside its task, in every interleaving of ticks, failed tasks, failed lock calls
      and even failed unlocks. */
  lemma MutualExclusion(trace: seq<State>, n: nat, r: nat, q: nat)
    requires KeptRun(trace) && n < |trace|
    requires r in trace[n].pcs && q in trace[n].pcs && HasLock(trace[n].pcs[r]) && HasLock(trace[n].pcs[q])
    ensures r == q
  {
    InvHolds(trace, n);
  }

  // ---- runs in which a released connection has no lock ----------------------------------------

  /** An unlock that raises does no harm where the pool resets what it takes back. */
  predicate Clean(s: State, step: Step) { !step.Drop? && (step.UnlockRaises? ==> s.resets) }

  ghost predicate CleanMoves(s: State, t: State) {
    exists step :: Enabled(s, step) && Clean(s, step) && t == Apply(s, step)
  }

  ghost predicate CleanRun(trace: seq<State>) { trace != [] && Starts(trace[0]) && Linked(trace, CleanMoves) }

  ghost predicate InUse(s: State, c: nat) { exists r :: r in s.pcs && s.pcs[r].c == c }

  ghost predicate Balanced(s: State) {
    && (forall r, q | r in s.pcs && q in s.pcs && r != q :: s.pcs[r].c != s.pcs[q].c)
    && (forall r | r in s.pcs :: CountOf(s, s.pcs[r].c) == if HasLock(s.pcs[r]) then 1 else 0)
    && (forall c | CountOf(s, c) > 0 :: InUse(s, c))
  }

  /** A connection whose count is positive stays in use until its own replica unlocks it. */
  lemma StaysInUse(s: State, step: Step, c: nat)
    requires Balanced(s) && Enabled(s, step) && Clean(s, step) && CountOf(Apply(s, step), c) > 0
    ensures InUse(Apply(s, step), c)
  {
    var t := Apply(s, step);
    if CountOf(s, c) > 0 {
      var r :| r in s.pcs && s.pcs[r].c == c;
      assert r in t.pcs && t.pcs[r].c == c;
    } else {
      assert step.TryLock? && step.r in t.pcs && t.pcs[step.r].c == c;
    }
  }

  lemma BalancedStep(s: State, step: Step)
    requires Balanced(s) && Enabled(s, step) && Clean(s, step)
    ensures Balanced(Apply(s, step))
  {
    forall c | CountOf(Apply(s, step), c) > 0 ensures InUse(Apply(s, step), c) { StaysInUse(s, step, c); }
    assert step.Acquire? ==> !InUse(s, step.c);
    hide InUse;
  }

  /** Every connection goes back to its pool with the lock's count at zero: only a replica inside its tick's
      critical part has the lock, and has it once. */
  lemma {:induction false} ReturnedUnlocked(trace: seq<State>, n: nat)
    requires CleanRun(trace) && n < |trace|
    ensures Balanced(trace[n])
    ensures (var s := trace[n];
             && (forall c | CountOf(s, c) > 0 :: exists r ::
                   r in s.pcs && s.pcs[r].c == c && HasLock(s.pcs[r]) && CountOf(s, c) == 1))
  {
    if n > 0 {
      ReturnedUnlocked(trace, n - 1);
      assert CleanMoves(trace[n - 1], trace[n]);
      hide Enabled, Apply, Clean;
      var step :| Enabled(trace[n - 1], step) && Clean(trace[n - 1], step) && trace[n] == Apply(trace[n - 1], step);
      BalancedStep(trace[n - 1], step);
    }
  }

  // ---- why both conditions are there ------------------------------------------------------------

  /** A session dropped during the task lets a second replica in beside the first. */
  lemma DropBreaksExclusion(resets: bool) returns (trace: seq<State>)
    ensures Run(trace)
    ensures (var s := trace[|trace| - 1]; 0 in s.pcs && 1 in s.pcs && s.pcs[0].InTask? && s.pcs[1].InTask?)
  {
    trace := [State(map[], map[], resets)];
    hide Run;
    trace := Extend(trace, Acquire(0, 10));
    trace := Extend(trace, TryLock(0));
    trace := Extend(trace, Drop(10));
    trace := Extend(trace, Acquire(1, 11));
    trace := Extend(trace, TryLock(1));
  }

  /** In a pool that does not reset, a raised unlock leaves the lock on a connection nobody has. */
  lemma UnlockFailureLeavesLock() returns (trace: seq<State>)
    ensures Run(trace)
    ensures (var s := trace[|trace| - 1]; s.pcs == map[] && CountOf(s, 10) == 1)
  {
    trace := [State(map[], map[], false)];
    hide Run;
    trace := Extend(trace, Acquire(0, 10));
    trace := Extend(trace, TryLock(0));
    trace := Extend(trace, TaskEnds(0));
    trace := Extend(trace, UnlockRaises(0));
  }

  lemma LeftoverStep(s: State, c: nat, step: Step)
    requires Inv(s) && CountOf(s, c) > 0 && !InUse(s, c)
    ensures forall r | r in s.pcs :: !HasLock(s.pcs[r])
    ensures Enabled(s, step) && step != Drop(c) ==> CountOf(Apply(s, step), c) > 0
  {
    forall r | r in s.pcs ensures s.pcs[r].c != c { assert s.pcs[r].c == c ==> InUse(s, c); }
  }

  /** Such a lock turns away every tick for as long as its connection is neither used nor dropped. */
  lemma {:induction false} LeftoverLockBlocks(trace: seq<State>, c: nat, m: nat, n: nat)
    requires KeptRun(trace) && m <= n < |trace| && CountOf(trace[m], c) > 0
    requires forall k | m <= k <= n :: !InUse(trace[k], c)
    ensures CountOf(trace[n], c) > 0 && forall r | r in trace[n].pcs :: !HasLock(trace[n].pcs[r])
    decreases n - m
  {
    hide Inv, Enabled, Apply, InUse;
    InvHolds(trace, n);
    if m < n {
      LeftoverLockBlocks(trace, c, m, n - 1);
      InvHolds(trace, n - 1);
      assert KeptMoves(trace[n - 1], trace[n]);
      var step :| Enabled(trace[n - 1], step) && !step.Drop? && trace[n] == Apply(trace[n - 1], step);
      LeftoverStep(trace[n - 1], c, step);
    }
    LeftoverStep(trace[n], c, Drop(c));
  }

  // ---- one whole tick ---------------------------------------------------------------------------

  /** What raises during a tick. */
  datatype Raises = Raises(lock: bool, task: bool, unlock: bool)

  /** The steps of one tick of replica `r` on connection `c`, nobody else moving meanwhile. */
  function TickSteps(s: State, r: nat, c: nat, x: Raises): State
    requires Enabled(s, Acquire(r, c))
  {
    var s1 := Apply(s, Acquire(r, c));
    if x.lock then Apply(s1, TryLockRaises(r))
    else
      var s2 := Apply(s1, TryLock(r));
      if r !in s2.pcs then s2
      else
        var s3 := Apply(s2, TaskEnds(r));
        Apply(s3, if x.unlock then UnlockRaises(r) else Unlock(r))
  }

  /** A tick is a run, ends where it began for every replica, and on a connection without the lock leaves
      every session's count as it was, unless an unlock raised in a pool that does not reset. */
  lemma TickRuns(trace: seq<State>, r: nat, c: nat, x: Raises) returns (more: seq<State>)
    requires Run(trace) && Enabled(trace[|trace| - 1], Acquire(r, c))
    ensures (var s := trace[|trace| - 1]; var t := TickSteps(s, r, c, x);
             && Run(more) && more[|more| - 1] == t && t.pcs == s.pcs && t.resets == s.resets
             && (CountOf(s, c) == 0 && (x.unlock ==> s.resets) ==> forall d: nat :: CountOf(t, d) == CountOf(s, d)))
  {
    var s := trace[|trace| - 1];
    TickCounts(s, r, c, x);
    hide Run;
    more := Extend(trace, Acquire(r, c));
    if x.lock {
      more := Extend(more, TryLockRaises(r));
    } else {
      more := Extend(more, TryLock(r));
      if r in more[|more| - 1].pcs {
        more := Extend(more, TaskEnds(r));
        more := Extend(more, if x.unlock then UnlockRaises(r) else Unlock(r));
      }
    }
  }

  lemma TickCounts(s: State, r: nat, c: nat, x: Raises)
    requires Enabled(s, Acquire(r, c))
    ensures (var t := TickSteps(s, r, c, x);
             && t.pcs == s.pcs && t.resets == s.resets
             && (CountOf(s, c) == 0 && (x.unlock ==> s.resets) ==> forall d: nat :: CountOf(t, d) == CountOf(s, d)))
  {
    assert s.pcs[r := Connected(c)] - {r} == s.pcs;
    assert s.pcs[r := Connected(c)][r := InTask(c)][r := Unlocking(c)] - {r} == s.pcs;
  }

  // ---- ticks one after the other ------------------------------------------------------------------

  function Ticks(s: State, ticks: seq<(nat, Raises)>): (t: State)
    requires s.pcs == map[]
    ensures t.pcs == map[] && t.resets == s.resets
  {
    if ticks == [] then s
    else
      var u := Ticks(s, ticks[..|ticks| - 1]);
      var (c, x) := ticks[|ticks| - 1];
      TickCounts(u, 0, c, x);
      TickSteps(u, 0, c, x)
  }

  predicate RunsTask(s: State, c: nat, x: Raises) { !x.lock && Granted(s.count, c) }

  predicate TickFails(s: State, c: nat, x: Raises) { x.lock || (RunsTask(s, c, x) && (x.task || x.unlock)) }

  /** How many of the ticks run the task, and how many raise. */
  function Ran(s: State, ticks: seq<(nat, Raises)>): nat
    requires s.pcs == map[]
  {
    if ticks == [] then 0
    else
      var before := ticks[..|ticks| - 1];
      var (c, x) := ticks[|ticks| - 1];
      Ran(s, before) + if RunsTask(Ticks(s, before), c, x) then 1 else 0
  }

  function Failed(s: State, ticks: seq<(nat, Raises)>): nat
    requires s.pcs == map[]
  {
    if ticks == [] then 0
    else
      var before := ticks[..|ticks| - 1];
      var (c, x) := ticks[|ticks| - 1];
      Failed(s, before) + if TickFails(Ticks(s, before), c, x) then 1 else 0
  }

  function LockReturns(ticks: seq<(nat, Raises)>): nat {
    if ticks == [] then 0 else LockReturns(ticks[..|ticks| - 1]) + if ticks[|ticks| - 1].1.lock then 0 else 1
  }

  /** A replica alone on a database where nobody has the lock leaves none behind, however its ticks fail, and
      runs its task in every tick whose lock call returns; only an unlock that raises in a pool that resets
      nothing is ruled out. */
  lemma {:induction false} AloneRunsEveryTick(s: State, ticks: seq<(nat, Raises)>)
    requires s.pcs == map[] && (forall d: nat :: CountOf(s, d) == 0)
    requires forall i | 0 <= i < |ticks| :: ticks[i].1.unlock ==> s.resets
    ensures (forall d: nat :: CountOf(Ticks(s, ticks), d) == 0) && Ran(s, ticks) == LockReturns(ticks)
  {
    if ticks != [] {
      var before := ticks[..|ticks| - 1];
      var (c, x) := ticks[|ticks| - 1];
      AloneRunsEveryTick(s, before);
      var u := Ticks(s, before);
      TickCounts(u, 0, c, x);
      assert forall d | d in u.count :: u.count[d] == CountOf(u, d);
    }
  }
}

/** The loop object against its database. */
module Cleanup {
  import opened Common
  import opened CleanupProtocol

  /** One advisory lock, and whether the pool resets the connections it takes back. */
  class Database {
    const resets: bool
    var count: Counts

    constructor (resets: bool)
      ensures count == map[] && this.resets == resets
    {
      this.resets := resets;
      count := map[];
    }

    method TryLock(c: nat) returns (got: bool)
      modifies this
      ensures got == Granted(old(count), c) && count == Take(old(count), c)
    {
      got := Granted(count, c);
      if got { count := count[c := CountIn(count, c) + 1]; }
    }

    method Unlock(c: nat)
      modifies this
      ensures count == Give(old(count), c)
    {
      count := count[c := if CountIn(count, c) > 0 then CountIn(count, c) - 1 else 0];
    }

    method Release(c: nat)
      modifies this
      ensures count == if resets then old(count) - {c} else old(count)
    {
      if resets { count := count - {c}; }
    }
  }

  class Loop {
    const db: Database
    /** How often the task was started. */
    var runs: nat

    constructor (db: Database)
      ensures this.db == db && runs == 0
    {
      this.db := db;
      runs := 0;
    }

    /** One tick on connection `c`: exactly the protocol's steps, from any state `s` of it in which replica `r`
        may take that connection. The task runs if and only if the lock call returns and no other session has
        the lock. */
    method Tick(c: nat, x: Raises, ghost s: State, ghost r: nat) returns (raised: bool)
      requires s.count == db.count && s.resets == db.resets && Enabled(s, Acquire(r, c))
      modifies this, db
      ensures db.count == TickSteps(s, r, c, x).count
      ensures runs == old(runs) + (if RunsTask(s, c, x) then 1 else 0) && raised == TickFails(s, c, x)
    {
      if x.lock {
        db.Release(c);
        return true;
      }
      var got := db.TryLock(c);
      if !got {
        db.Release(c);
        return false;
      }
      runs := runs + 1;
      raised := x.task || x.unlock;
      if !x.unlock { db.Unlock(c); }
      db.Release(c);
    }

    /** `run` for as many ticks as `ticks` lists, each on its own connection: a raised tick does not end it. */
    method Run(ticks: seq<(nat, Raises)>) returns (failed: nat)
      modifies this, db
      ensures (var s := State(map[], old(db.count), db.resets);
               && db.count == Ticks(s, ticks).count
               && runs == old(runs) + Ran(s, ticks) && failed == Failed(s, ticks))
    {
      failed := 0;
      ghost var s := State(map[], db.count, db.resets);
      for i := 0 to |ticks|
        invariant db.count == Ticks(s, ticks[..i]).count
        invariant runs == old(runs) + Ran(s, ticks[..i]) && failed == Failed(s, ticks[..i])
      {
        var (c, x) := ticks[i];
        assert ticks[..i + 1][..i] == ticks[..i];
        var raised := Tick(c, x, Ticks(s, ticks[..i]), 0);
        if raised { failed := failed + 1; }
      }
      assert ticks[..|ticks|] == ticks;
    }
  }
}
