/** What holds in every run of the registry, and runs that show what does not. */
module RegistryProtocol {
  import opened Common
  import opened RegistryOps
  import opened RegistryMachine

  ghost predicate Next(e: Env, s: State, t: State) {
    exists step :: Enabled(e, s, step) && t == Apply(e, s, step)
  }

  /** Any stretch of a run. */
  ghost predicate Path(e: Env, trace: seq<State>) {
    trace != [] && forall n | 0 <= n < |trace| - 1 :: Next(e, trace[n], trace[n + 1])
  }

  ghost predicate Run(e: Env, trace: seq<State>) { Path(e, trace) && trace[0] == INIT }

  function Last(trace: seq<State>): State
    requires trace != []
  {
    trace[|trace| - 1]
  }

  lemma {:induction false} InvHolds(e: Env, trace: seq<State>, n: nat)
    requires Run(e, trace) && n < |trace|
    ensures Inv(trace[n])
  {
    if n > 0 {
      InvHolds(e, trace, n - 1);
      assert Next(e, trace[n - 1], trace[n]);
      var step :| Enabled(e, trace[n - 1], step) && trace[n] == Apply(e, trace[n - 1], step);
      StepKeepsInv(e, trace[n - 1], step);
    }
  }

  // ---- what holds in every run -----------------------------------------------------

  /** In every interleaving each key has at most one live, un-cancelled task, and it is the one `_tasks`
      holds: nothing is orphaned alive and no stale callback has dropped a newer task. */
  lemma OneLiveTaskPerKey(e: Env, trace: seq<State>, n: nat)
    requires Run(e, trace) && n < |trace|
    ensures (var r := trace[n].reg;
             && (forall i | 0 <= i < |r.pool| :: Live(r.pool[i]) ==> Stored(r, i))
             && (forall i, j | 0 <= i < |r.pool| && 0 <= j < |r.pool| ::
                   Live(r.pool[i]) && Live(r.pool[j]) && r.pool[i].key == r.pool[j].key ==> i == j))
  {
    InvHolds(e, trace, n);
    var r := trace[n].reg;
    assert forall i | 0 <= i < |r.pool| :: Live(r.pool[i]) ==> Unsettled(r.pool[i]);
  }

  /** A crashed or finished task's callback, whenever it runs, leaves every other stored task in place. */
  lemma StaleCallbackHarmless(e: Env, trace: seq<State>, n: nat, i: nat)
    requires Run(e, trace) && n < |trace| && i < |trace[n].reg.pool| && trace[n].reg.pool[i].callbackDue
    ensures (var r, r1 := trace[n].reg, Callback(trace[n].reg, i);
             forall k | k in r.tasks && r.tasks[k] != i :: k in r1.tasks && r1.tasks[k] == r.tasks[k])
  {
    InvHolds(e, trace, n);
    CallbackKeeps(trace[n].reg, i);
  }

  predicate Done(s: State) { s.stopper == Stopped && s.started }

  lemma DoneStays(e: Env, s: State, step: Step)
    requires Inv(s) && Done(s) && Enabled(e, s, step)
    ensures Done(Apply(e, s, step))
  {
    hide Core, DriverInv, StartAll;
  }

  lemma DoneMoves(e: Env, s: State, t: State)
    requires Inv(s) && Done(s) && Next(e, s, t)
    ensures Done(t)
  {
    hide Inv, Done, Apply, AllSettled, RowsOk, StartsMissing, DriverRuns;
    var step :| Enabled(e, s, step) && t == Apply(e, s, step);
    hide Enabled;
    DoneStays(e, s, step);
  }

  lemma {:induction false} StaysDone(e: Env, trace: seq<State>, m: nat, n: nat)
    requires Run(e, trace) && m <= n < |trace| && Done(trace[m])
    ensures Done(trace[n])
    decreases n - m
  {
    hide Inv, Done, Next;
    if m < n {
      StaysDone(e, trace, m, n - 1);
      InvHolds(e, trace, n - 1);
      DoneMoves(e, trace[n - 1], trace[n]);
    }
  }

  lemma DoneIsQuiet(s: State)
    requires Inv(s) && Done(s)
    ensures s.reg.tasks == map[] && forall i | 0 <= i < |s.reg.pool| :: s.reg.pool[i].phase != Running
  {
    assert forall i | 0 <= i < |s.reg.pool| && Unsettled(s.reg.pool[i]) :: i in Orphans(s.reg);
  }

  /** When `stop`, called after `start` had returned, has finished, every task ever started has stopped
      running and none is registered, in that state and in every later one. */
  lemma StopLeavesNothing(e: Env, trace: seq<State>, m: nat, n: nat)
    requires Run(e, trace) && m <= n < |trace| && trace[m].stopper == Stopped && trace[m].started
    ensures trace[n].reg.tasks == map[]
    ensures forall i | 0 <= i < |trace[n].reg.pool| :: trace[n].reg.pool[i].phase != Running
  {
    hide Inv, Run;
    StaysDone(e, trace, m, n);
    InvHolds(e, trace, n);
    DoneIsQuiet(trace[n]);
  }

  /** A reconcile drops every key the table no longer lists and, once its cancelled tasks are gone, runs a
      task for every listed row of a known provider that had none. A key that stays keeps the very task it
      had, even one that has returned or was started with another config. */
  lemma ReconcileConverges(e: Env, s: State, rows: seq<Row>, toStart: seq<Row>)
    requires Inv(s) && Enabled(e, s, ReconcileFetched(rows, toStart))
    ensures (var t := Apply(e, s, ReconcileFetched(rows, toStart));
             && t.reg.tasks.Keys <= KeysOf(rows)
             && (forall k | k in s.reg.tasks && k in KeysOf(rows) ::
                   k in t.reg.tasks && t.reg.tasks[k] == s.reg.tasks[k])
             && (t.driver == Idle ==> KnownKeys(e.known, rows) <= t.reg.tasks.Keys)
             && (t.driver == Idle ==> forall j | 0 <= j < |rows| && rows[j].name in e.known ::
                   Key(rows[j]) !in s.reg.tasks ==> FreshlyRunning(t.reg, |s.reg.pool|, rows[j]))
             && (t.driver != Idle ==> t.driver == Gathering(toStart)))
  {
    SettledNoOrphans(s);
    var stale := s.reg.tasks.Keys - KeysOf(rows);
    var r1 := CancelAll(s.reg, stale);
    CancelKeeps(s.reg, stale);
    hide Core;
    assert forall j | 0 <= j < |toStart| :: toStart[j] in toStart;
    assert forall j | 0 <= j < |rows| :: rows[j] in rows;
    assert KeysOf(toStart) <= KeysOf(rows);
    if Awaited(s.reg, stale) == {} {
      StartAllKeeps(r1, e.known, toStart);
      StartedFromRows(r1, e.known, toStart);
      forall k | k in KnownKeys(e.known, rows) ensures k in KnownKeys(e.known, toStart) || k in s.reg.tasks {
        var j :| 0 <= j < |rows| && rows[j].name in e.known && Key(rows[j]) == k;
        if k !in s.reg.tasks {
          var m :| 0 <= m < |toStart| && toStart[m] == rows[j];
        }
      }
    }
  }

  lemma GatheredStartsAll(e: Env, s: State)
    requires Inv(s) && Enabled(e, s, Gathered)
    ensures (var t := Apply(e, s, Gathered);
             && t.reg.tasks.Keys == s.reg.tasks.Keys + KnownKeys(e.known, s.driver.toStart)
             && forall j | 0 <= j < |s.driver.toStart| && s.driver.toStart[j].name in e.known ::
                  FreshlyRunning(t.reg, |s.reg.pool|, s.driver.toStart[j]))
  {
    SettledNoOrphans(s);
    assert forall j | 0 <= j < |s.driver.toStart| :: s.driver.toStart[j] in s.driver.toStart;
    StartAllKeeps(s.reg, e.known, s.driver.toStart);
    StartedFromRows(s.reg, e.known, s.driver.toStart);
  }

  /** In every reachable state, a reload trips the "already running" assertion exactly when some fetched row of a
      known provider has its task stored already. */
  lemma ReloadAssertsExactly(e: Env, trace: seq<State>, n: nat, rows: seq<Row>)
    requires Run(e, trace) && n < |trace| && !trace[n].asserted && Enabled(e, trace[n], ReloadFetched(rows))
    ensures (Apply(e, trace[n], ReloadFetched(rows)).asserted
             <==> exists j | 0 <= j < |rows| :: rows[j].name in e.known && Key(rows[j]) in trace[n].reg.tasks)
  {
    InvHolds(e, trace, n);
    ReloadFetchedStep(e, trace[n], rows);
    hide Inv, Run;
  }

  /** A reload that does not trip the assertion ends with a new task, on the fetched config, for every row of
      the tenant; other tenants' tasks are the ones they were. */
  lemma ReloadRestartsTenant(e: Env, s: State, rows: seq<Row>)
    requires Inv(s) && Enabled(e, s, ReloadFetched(rows)) && !Apply(e, s, ReloadFetched(rows)).asserted
    ensures (var t := Apply(e, s, ReloadFetched(rows));
             && t.reg.tasks.Keys == s.reg.tasks.Keys + KnownKeys(e.known, rows)
             && (forall k | k in s.reg.tasks :: t.reg.tasks[k] == s.reg.tasks[k])
             && forall j | 0 <= j < |rows| && rows[j].name in e.known :: FreshlyRunning(t.reg, |s.reg.pool|, rows[j]))
  {
    SettledNoOrphans(s);
    RowKeysDistinct(rows);
    StartAllKeeps(s.reg, e.known, rows);
    StartedFromRows(s.reg, e.known, rows);
  }

  // ---- a crashed task comes back -----------------------------------------------------

  lemma DueMoves(e: Env, s: State, t: State)
    requires CrashedDue(s.reg) && Next(e, s, t)
    ensures CrashedDue(t.reg)
  {
    hide CrashedDue, Apply, AllSettled, RowsOk, StartsMissing, DriverRuns;
    var step :| Enabled(e, s, step) && t == Apply(e, s, step);
    hide Enabled;
    StepKeepsDue(e, s, step);
  }

  /** In every run a stored task that crashed still has its callback to come: none stays stored after it. */
  lemma {:induction false} CrashedAwaitsCallback(e: Env, trace: seq<State>, n: nat)
    requires Run(e, trace) && n < |trace|
    ensures (var r := trace[n].reg;
             forall k | k in r.tasks && r.tasks[k] < |r.pool| && r.pool[r.tasks[k]].phase == Crashed ::
               r.pool[r.tasks[k]].callbackDue)
    ensures CrashedDue(trace[n].reg)
  {
    if n > 0 {
      CrashedAwaitsCallback(e, trace, n - 1);
      hide CrashedDue, Next;
      DueMoves(e, trace[n - 1], trace[n]);
    }
    InvHolds(e, trace, n);
    var r := trace[n].reg;
    forall k | k in r.tasks ensures Stored(r, r.tasks[k]) {}
  }

  /** When its callback runs, the key of a task leaves the registry if the task is stored and crashed, and in no
      other case: one that returned, or was cancelled from outside, keeps its entry. */
  lemma CallbackPopsExactly(e: Env, trace: seq<State>, n: nat, i: nat)
    requires Run(e, trace) && n < |trace| && Enabled(e, trace[n], CallbackRuns(i))
    ensures (var r, t := trace[n].reg, Apply(e, trace[n], CallbackRuns(i)).reg;
             var task := r.pool[i];
             t.tasks == if task.key in r.tasks && r.tasks[task.key] == i && task.phase == Crashed
                        then r.tasks - {task.key} else r.tasks)
  {
    InvHolds(e, trace, n);
    var r := trace[n].reg;
    if r.pool[i].key !in r.tasks { assert r.tasks - {r.pool[i].key} == r.tasks; }
  }

  ghost predicate LoopMoves(e: Env, s: State, t: State) {
    exists step :: Enabled(e, s, step) && (step.TaskFinishes? || step.CallbackRuns?) && t == Apply(e, s, step)
  }

  /** The driver waits while tasks end and callbacks run. */
  ghost predicate Waits(e: Env, path: seq<State>) {
    path != [] && forall n | 0 <= n < |path| - 1 :: LoopMoves(e, path[n], path[n + 1])
  }

  /** Nothing starts meanwhile, and nothing but crashed tasks' keys goes. */
  predicate OnlyEnded(s: State, t: State) {
    t.driver == s.driver && |t.reg.pool| == |s.reg.pool| && t.reg.tasks.Keys <= s.reg.tasks.Keys
  }

  lemma LoopMovesKeep(e: Env, s: State, t: State)
    requires Inv(s) && LoopMoves(e, s, t)
    ensures Inv(t) && OnlyEnded(s, t)
  {
    hide Inv;
    var step :| Enabled(e, s, step) && (step.TaskFinishes? || step.CallbackRuns?) && t == Apply(e, s, step);
    StepKeepsInv(e, s, step);
  }

  lemma {:induction false} WaitsKeeps(e: Env, path: seq<State>, n: nat)
    requires Waits(e, path) && n < |path| && Inv(path[0])
    ensures Inv(path[n]) && OnlyEnded(path[0], path[n])
  {
    hide Inv, LoopMoves;
    if n > 0 {
      WaitsKeeps(e, path, n - 1);
      LoopMovesKeep(e, path[n - 1], path[n]);
    }
  }

  /** One reconcile from `s` to `t`, with nothing between its steps but tasks that end and callbacks that run. */
  ghost predicate ReconciledVia(e: Env, s: State, rows: seq<Row>, toStart: seq<Row>, fetch: seq<State>,
                                gather: seq<State>, t: State) {
    && Enabled(e, s, BeginReconcile)
    && Waits(e, fetch) && fetch[0] == Apply(e, s, BeginReconcile)
    && Enabled(e, Last(fetch), ReconcileFetched(rows, toStart))
    && (var u := Apply(e, Last(fetch), ReconcileFetched(rows, toStart));
        if u.driver == Idle then t == u
        else && Waits(e, gather) && gather[0] == u
             && Enabled(e, Last(gather), Gathered) && t == Apply(e, Last(gather), Gathered))
  }

  ghost predicate Reconciled(e: Env, s: State, rows: seq<Row>, t: State) {
    exists toStart, fetch, gather :: ReconciledVia(e, s, rows, toStart, fetch, gather, t)
  }

  /** A reconcile gives every listed row of a known provider whose key was not stored a new running task, on the
      row's config. */
  lemma ReconcileStartsMissing(e: Env, s: State, rows: seq<Row>, t: State, j: nat)
    requires Inv(s) && Reconciled(e, s, rows, t)
    requires j < |rows| && rows[j].name in e.known && Key(rows[j]) !in s.reg.tasks
    ensures FreshlyRunning(t.reg, |s.reg.pool|, rows[j])
  {
    var toStart, fetch, gather :| ReconciledVia(e, s, rows, toStart, fetch, gather, t);
    hide Inv, FreshlyRunning, Apply, Waits, RowsOk, AllSettled, KnownKeys, KeysOf;
    StepKeepsInv(e, s, BeginReconcile);
    BeginsQuietly(e, s);
    WaitsKeeps(e, fetch, |fetch| - 1);
    var v := Last(fetch);
    var u := Apply(e, v, ReconcileFetched(rows, toStart));
    ReconcileConverges(e, v, rows, toStart);
    if u.driver != Idle {
      StepKeepsInv(e, v, ReconcileFetched(rows, toStart));
      WaitsKeeps(e, gather, |gather| - 1);
      GatheredStartsAll(e, Last(gather));
      PoolKept(e, v, rows, toStart);
      assert rows[j] in toStart;
      var m :| 0 <= m < |toStart| && toStart[m] == rows[j];
    }
  }

  lemma BeginsQuietly(e: Env, s: State)
    requires Enabled(e, s, BeginReconcile)
    ensures Apply(e, s, BeginReconcile).reg == s.reg
  {}

  lemma PoolKept(e: Env, s: State, rows: seq<Row>, toStart: seq<Row>)
    requires Enabled(e, s, ReconcileFetched(rows, toStart))
    ensures (var u := Apply(e, s, ReconcileFetched(rows, toStart)); u.driver != Idle ==> |u.reg.pool| == |s.reg.pool|)
  {
    hide StartAll, RowsOk, AllSettled, KeysOf;
  }

  /** In every run: once the callback of a stored task that crashed has run, the next uninterrupted reconcile whose
      rows list its key, for a known provider, runs a new task under it, on the row's config. */
  lemma CrashedComesBack(e: Env, trace: seq<State>, n: nat, i: nat, rows: seq<Row>, t: State, j: nat)
    requires Run(e, trace) && n < |trace| && Enabled(e, trace[n], CallbackRuns(i))
    requires Stored(trace[n].reg, i) && trace[n].reg.pool[i].phase == Crashed
    requires Reconciled(e, Apply(e, trace[n], CallbackRuns(i)), rows, t)
    requires j < |rows| && rows[j].name in e.known && Key(rows[j]) == trace[n].reg.pool[i].key
    ensures FreshlyRunning(t.reg, |trace[n].reg.pool|, rows[j])
  {
    InvHolds(e, trace, n);
    CallbackPopsExactly(e, trace, n, i);
    StepKeepsInv(e, trace[n], CallbackRuns(i));
    var s := Apply(e, trace[n], CallbackRuns(i));
    assert |s.reg.pool| == |trace[n].reg.pool|;
    hide Inv, Run, Reconciled, FreshlyRunning, Enabled;
    ReconcileStartsMissing(e, s, rows, t, j);
  }

  // ---- a `stop` that finishes before `start` has returned ----------------------------

  function OneTask(row: Row): Reg {
    Reg([Task(Key(row), row.config, Running, false, false)], map[Key(row) := 0])
  }

  lemma StartsRow(known: set<string>, row: Row)
    requires row.name in known && Canonical(row.tenant)
    ensures StartAll(Reg([], map[]), known, [row]) == (OneTask(row), true)
    ensures StartAll(OneTask(row), known, [row]) == (OneTask(row), false)
    ensures RowsOk([row]) && Due(OneTask(row)) == {}
  {
    var empty := Reg([], map[]);
    assert [row][1..] == [] && [] + [OneTask(row).pool[0]] == OneTask(row).pool;
    assert StartTask(empty, known, row) == (OneTask(row), true);
  }

  lemma NothingToStop(r: Reg)
    ensures Awaited(r, {}) == {} && CancelAll(r, {}) == r
  {
    assert CancelAll(r, {}).pool == r.pool;
  }

  lemma Extend(e: Env, trace: seq<State>, step: Step) returns (more: seq<State>)
    requires Path(e, trace) && Enabled(e, Last(trace), step)
    ensures more != [] && Path(e, more) && more[0] == trace[0] && Last(more) == Apply(e, Last(trace), step)
  {
    var moves := (s: State, t: State) => Next(e, s, t);
    var s := Apply(e, Last(trace), step);
    assert Next(e, Last(trace), s);
    hide Enabled, Apply, Next;
    LinkedSnoc(trace, moves, s);
    more := trace + [s];
    assert forall n | 0 <= n < |more| - 1 :: moves(more[n], more[n + 1]);
  }

  /** When `stop` has finished while `start` still waits for its rows, what `start` then leaves behind is
      exactly one running task for each of those rows whose provider is known. */
  lemma StopDuringStartLeaves(e: Env, trace: seq<State>, n: nat, rows: seq<Row>)
    requires Run(e, trace) && n < |trace| && trace[n].stopper == Stopped && Enabled(e, trace[n], StartFetched(rows))
    ensures (var t := Apply(e, trace[n], StartFetched(rows));
             && t.stopper == Stopped && t.driver == (if e.backend.Poll? then Gone else Idle)
             && t.reg.tasks.Keys == KnownKeys(e.known, rows)
             && (forall i | 0 <= i < |t.reg.pool| ::
                   Live(t.reg.pool[i]) && t.reg.pool[i].key in KnownKeys(e.known, rows))
             && (forall j | 0 <= j < |rows| && rows[j].name in e.known :: FreshlyRunning(t.reg, 0, rows[j]))
             && (AnyLive(t.reg) <==> KnownKeys(e.known, rows) != {}))
  {
    InvHolds(e, trace, n);
    assert trace[n].reg == Reg([], map[]);
    FreshStart(e.known, rows);
    hide Inv, Run, StartAll, RowsOk, AllSettled, KnownKeys, FreshlyRunning, AnyLive;
  }

  /** The same tasks, with no cancellation among them in between, though they may end by themselves. */
  predicate SameTasks(a: Reg, b: Reg) {
    && |a.pool| == |b.pool|
    && forall i | 0 <= i < |a.pool| ::
         && a.pool[i].key == b.pool[i].key && a.pool[i].config == b.pool[i].config
         && a.pool[i].cancelRequested == b.pool[i].cancelRequested
  }

  /** `stop` is done and no driver runs, so that only the tasks themselves move. */
  predicate Abandoned(s: State) { s.stopper == Stopped && s.driver == Gone }

  lemma AbandonedOnly(e: Env, s: State, step: Step)
    requires Abandoned(s) && Enabled(e, s, step)
    ensures step.TaskFinishes? || step.CallbackRuns?
  {}

  /** No task has been started or revived. */
  predicate NoNewLive(a: Reg, b: Reg) {
    |a.pool| == |b.pool| && forall i | 0 <= i < |a.pool| :: Live(b.pool[i]) ==> Live(a.pool[i])
  }

  lemma NoneRevived(a: Reg, b: Reg)
    requires NoNewLive(a, b)
    ensures AnyLive(b) ==> AnyLive(a)
  {
    if i :| 0 <= i < |b.pool| && Live(b.pool[i]) { assert Live(a.pool[i]); }
  }

  lemma AbandonedStep(e: Env, s: State, step: Step)
    requires Abandoned(s) && Enabled(e, s, step)
    ensures (var t := Apply(e, s, step); Abandoned(t) && SameTasks(s.reg, t.reg) && NoNewLive(s.reg, t.reg))
  {
    AbandonedOnly(e, s, step);
  }

  lemma AbandonedMoves(e: Env, s: State, t: State)
    requires Abandoned(s) && Next(e, s, t)
    ensures Abandoned(t) && SameTasks(s.reg, t.reg) && (AnyLive(t.reg) ==> AnyLive(s.reg))
  {
    hide Apply, Abandoned, SameTasks, NoNewLive, AnyLive, AllSettled, RowsOk, StartsMissing, DriverRuns;
    var step :| Enabled(e, s, step) && t == Apply(e, s, step);
    hide Enabled;
    AbandonedStep(e, s, step);
    NoneRevived(s.reg, t.reg);
  }

  lemma {:induction false} StaysAbandoned(e: Env, path: seq<State>, m: nat, n: nat)
    requires Path(e, path) && m <= n < |path| && Abandoned(path[m])
    ensures Abandoned(path[n]) && SameTasks(path[m].reg, path[n].reg)
    decreases n - m
  {
    hide Next, Abandoned;
    if m < n {
      StaysAbandoned(e, path, m, n - 1);
      AbandonedMoves(e, path[n - 1], path[n]);
    }
  }

  /** With the poll backend those tasks are all there ever is: in every later state they are the tasks of the
      registry, none has been cancelled, and no other has been started. */
  lemma PollKeepsLeftTasks(e: Env, trace: seq<State>, m: nat, n: nat, rows: seq<Row>)
    requires e.backend.Poll? && Run(e, trace) && m < n < |trace| && trace[m].stopper == Stopped
    requires Enabled(e, trace[m], StartFetched(rows)) && trace[m + 1] == Apply(e, trace[m], StartFetched(rows))
    ensures (var r := trace[n].reg;
             && (forall i | 0 <= i < |r.pool| ::
                   !r.pool[i].cancelRequested && r.pool[i].key in KnownKeys(e.known, rows))
             && (forall i, j | 0 <= i < j < |r.pool| :: r.pool[i].key != r.pool[j].key)
             && forall j | 0 <= j < |rows| && rows[j].name in e.known ::
                  exists i | 0 <= i < |r.pool| :: r.pool[i].key == Key(rows[j]) && r.pool[i].config == rows[j].config)
  {
    StopDuringStartLeaves(e, trace, m, rows);
    OneLiveTaskPerKey(e, trace, m + 1);
    hide Run, Enabled, Apply, KnownKeys;
    assert Path(e, trace);
    StaysAbandoned(e, trace, m + 1, n);
    var r0, r := trace[m + 1].reg, trace[n].reg;
    forall j | 0 <= j < |rows| && rows[j].name in e.known
      ensures exists i | 0 <= i < |r.pool| :: r.pool[i].key == Key(rows[j]) && r.pool[i].config == rows[j].config
    {
      var i := r0.tasks[Key(rows[j])];
      assert FreshlyRunning(r0, 0, rows[j]);
      assert r.pool[i].key == r0.pool[i].key;
    }
  }

  /** No task is live, and none can be started: no provider is known, or the registry is abandoned. */
  predicate Quiet(e: Env, s: State) { !AnyLive(s.reg) && (e.known == {} || Abandoned(s)) }

  lemma {:induction false} NoneKnown(r: Reg, rows: seq<Row>)
    ensures StartAll(r, {}, rows) == (r, true)
    decreases rows
  {
    if rows != [] { NoneKnown(r, rows[1..]); }
  }

  lemma NoneKnownStep(e: Env, s: State, step: Step)
    requires e.known == {} && Enabled(e, s, step)
    ensures NoNewLive(s.reg, Apply(e, s, step).reg)
  {
    hide StartAll, Awaited, AllSettled, RowsOk, KeysOf, TenantKeys, Due, StartsMissing, DriverRuns;
    match step {
      case StartFetched(rows) => NoneKnown(s.reg, rows);
      case ReconcileFetched(rows, toStart) => NoneKnown(CancelAll(s.reg, s.reg.tasks.Keys - KeysOf(rows)), toStart);
      case Gathered => NoneKnown(s.reg, s.driver.toStart);
      case ReloadFetched(rows) => NoneKnown(s.reg, rows);
      case _ =>
    }
  }

  lemma NoneKnownMoves(e: Env, s: State, t: State)
    requires e.known == {} && Next(e, s, t)
    ensures AnyLive(t.reg) ==> AnyLive(s.reg)
  {
    hide Apply, NoNewLive, AnyLive, AllSettled, RowsOk, StartsMissing, DriverRuns;
    var step :| Enabled(e, s, step) && t == Apply(e, s, step);
    hide Enabled;
    NoneKnownStep(e, s, step);
    NoneRevived(s.reg, t.reg);
  }

  lemma QuietMoves(e: Env, s: State, t: State)
    requires Quiet(e, s) && Next(e, s, t)
    ensures Quiet(e, t)
  {
    hide Next, AnyLive, Abandoned;
    if Abandoned(s) { AbandonedMoves(e, s, t); } else { NoneKnownMoves(e, s, t); }
  }

  lemma {:induction false} StaysQuiet(e: Env, path: seq<State>, n: nat)
    requires Path(e, path) && n < |path| && Quiet(e, path[0])
    ensures Quiet(e, path[n])
  {
    hide Next, Quiet;
    if n > 0 {
      StaysQuiet(e, path, n - 1);
      QuietMoves(e, path[n - 1], path[n]);
    }
  }

  function UnsettledOnes(r: Reg): set<nat> { set i | 0 <= i < |r.pool| && Unsettled(r.pool[i]) }

  predicate AllAtEnd(r: Reg) { forall i | 0 <= i < |r.pool| :: !Unsettled(r.pool[i]) }

  /** The driver, and what `stop` has done, are as they were. */
  predicate SameDriver(s: State, t: State) {
    t.driver == s.driver && t.owed == s.owed && t.stopper == s.stopper && t.started == s.started
  }

  /** Every task may come to its end, and its callback run, before anything else happens. */
  lemma {:induction false} Settle(e: Env, path: seq<State>) returns (more: seq<State>)
    requires Path(e, path) && Inv(Last(path))
    ensures more != [] && Path(e, more) && more[0] == path[0] && SameDriver(Last(path), Last(more))
    ensures Inv(Last(more)) && AllAtEnd(Last(more).reg)
    decreases UnsettledOnes(Last(path).reg)
  {
    more := path;
    var s := Last(path);
    if i :| i in UnsettledOnes(s.reg) {
      var step := if s.reg.pool[i].phase == Running then TaskFinishes(i, Cancelled) else CallbackRuns(i);
      hide Path, Inv;
      more := Extend(e, more, step);
      StepKeepsInv(e, s, step);
      if step.TaskFinishes? {
        s := Last(more);
        more := Extend(e, more, CallbackRuns(i));
        StepKeepsInv(e, s, CallbackRuns(i));
      }
      assert i !in UnsettledOnes(Last(more).reg);
      more := Settle(e, more);
    } else {
      forall i | 0 <= i < |s.reg.pool| ensures !Unsettled(s.reg.pool[i]) { assert i !in UnsettledOnes(s.reg); }
    }
  }

  /** A driver that is at work gets back to waiting. */
  lemma ToIdle(e: Env, path: seq<State>) returns (more: seq<State>)
    requires Path(e, path) && Inv(Last(path)) && AllAtEnd(Last(path).reg)
    requires DriverRuns(Last(path)) && Last(path).driver !in {NotCreated, Starting, Gone}
    ensures more != [] && Path(e, more) && more[0] == path[0] && Inv(Last(more))
    ensures Last(more).driver == Idle && Last(more).stopper == Last(path).stopper
      && Last(more).started == Last(path).started
  {
    more := path;
    var s := Last(path);
    assert AllSettled(s.reg, s.owed);
    hide Path, Inv, AllAtEnd, Core, StartAll;
    match s.driver {
      case Gathering(_) =>
        more := Extend(e, more, Gathered);
        StepKeepsInv(e, s, Gathered);
      case ReloadGathering(_) =>
        more := Extend(e, more, ReloadGathered);
        StepKeepsInv(e, s, ReloadGathered);
        s := Last(more);
        more := Extend(e, more, FetchFails);
        StepKeepsInv(e, s, FetchFails);
      case Idle =>
      case _ =>
        more := Extend(e, more, FetchFails);
        StepKeepsInv(e, s, FetchFails);
    }
  }

  lemma NothingRuns(r: Reg, keys: set<string>)
    requires AllAtEnd(r)
    ensures Awaited(r, keys) == {} && Due(r) == {} && CancelAll(r, keys) == Reg(r.pool, r.tasks - keys)
  {
    assert Awaited(r, keys) == {};
    assert CancelAll(r, keys).pool == r.pool;
  }

  lemma StartsAgain(pool: seq<Task>, known: set<string>, row: Row)
    requires row.name in known
    ensures StartAll(Reg(pool, map[]), known, []) == (Reg(pool, map[]), true)
    ensures AnyLive(StartAll(Reg(pool, map[]), known, [row]).0)
  {
    assert [row][1..] == [];
    var (r, ok) := StartTask(Reg(pool, map[]), known, row);
    assert StartAll(Reg(pool, map[]), known, [row]) == (r, true);
    assert Live(r.pool[|pool|]);
  }

  ghost predicate CanRun(e: Env, s: State) {
    exists path :: Path(e, path) && path[0] == s && AnyLive(Last(path).reg)
  }

  /** Two reconciles bring up a task for a row that the table then lists. */
  lemma ReconcileRow(e: Env, path: seq<State>, row: Row) returns (more: seq<State>)
    requires Path(e, path) && DriverRuns(Last(path)) && Last(path).driver == Idle && AllAtEnd(Last(path).reg)
    requires row.name in e.known && Canonical(row.tenant)
    ensures more != [] && Path(e, more) && more[0] == path[0] && AnyLive(Last(more).reg)
  {
    var r := Last(path).reg;
    var bare := Reg(r.pool, map[]);
    StartsAgain(r.pool, e.known, row);
    NothingRuns(r, r.tasks.Keys);
    NothingRuns(bare, {});
    assert bare.tasks.Keys == {} && KeysOf([]) == {} && r.tasks.Keys - {} == r.tasks.Keys;
    assert {} - KeysOf([row]) == {} && r.tasks - r.tasks.Keys == map[];
    hide Path, AllAtEnd, StartAll, CancelAll, Awaited, AnyLive, KeysOf, Due;
    more := Extend(e, path, BeginReconcile);
    more := Extend(e, more, ReconcileFetched([], []));
    assert Last(more).reg == bare;
    more := Extend(e, more, BeginReconcile);
    more := Extend(e, more, ReconcileFetched([row], [row]));
  }

  lemma SomeRow(known: set<string>) returns (row: Row)
    requires known != {}
    ensures row.name in known && Canonical(row.tenant)
  {
    var name :| name in known;
    row := Row(seq(36, i => if i in {8, 13, 18, 23} then '-' else '0'), name, "{}");
  }

  lemma DriverCanStart(e: Env, s: State)
    requires Inv(s) && DriverRuns(s) && e.known != {} && s.driver != Gone
    ensures CanRun(e, s)
  {
    var row := SomeRow(e.known);
    var path := [s];
    assert Path(e, path);
    if s.driver in {NotCreated, Starting} {
      assert s.reg == Reg([], map[]);
      StartsRow(e.known, row);
      assert Live(OneTask(row).pool[0]);
      hide Path, Inv, StartAll, OneTask, RowsOk;
      if s.driver == NotCreated { path := Extend(e, path, BeginStart); }
      path := Extend(e, path, StartFetched([row]));
    } else {
      hide Path, Inv, AllAtEnd, AnyLive;
      path := Settle(e, path);
      path := ToIdle(e, path);
      path := Settle(e, path);
      path := ReconcileRow(e, path, row);
    }
    assert Path(e, path) && path[0] == s && AnyLive(Last(path).reg);
  }

  /** A driver that `stop` did not cancel: only a poll loop, which the flag ended, is then gone. */
  predicate BackendInv(e: Env, s: State) {
    s.driver == Gone && !s.started ==> e.backend.Poll?
  }

  lemma BackendStep(e: Env, s: State, step: Step)
    requires StopInv(s) && BackendInv(e, s) && Enabled(e, s, step)
    ensures BackendInv(e, Apply(e, s, step))
  {
    hide Core, DriverInv, StartAll, CancelAll, Awaited, KeysOf, TenantKeys, Due, RowsOk, AllSettled,
      StartsMissing, Finish, Callback, StopAll;
    if step.BeginStop? || step.StopCancels? { StopAllKeepsDriver(s); }
  }

  lemma StopAllKeepsDriver(s: State)
    ensures StopAll(s).driver == s.driver && StopAll(s).started == s.started
  {}

  lemma BackendMoves(e: Env, s: State, t: State)
    requires Inv(s) && BackendInv(e, s) && Next(e, s, t)
    ensures BackendInv(e, t)
  {
    hide Core, DriverInv, StopInv, BackendInv, Apply, AllSettled, RowsOk, StartsMissing, DriverRuns;
    var step :| Enabled(e, s, step) && t == Apply(e, s, step);
    hide Enabled;
    BackendStep(e, s, step);
  }

  lemma {:induction false} BackendHolds(e: Env, trace: seq<State>, n: nat)
    requires Run(e, trace) && n < |trace|
    ensures BackendInv(e, trace[n])
  {
    if n > 0 {
      BackendHolds(e, trace, n - 1);
      InvHolds(e, trace, n - 1);
      hide Next, Inv, BackendInv;
      BackendMoves(e, trace[n - 1], trace[n]);
    }
  }

  /** In every reachable state in which `stop` has finished, a task can still run, there or later, exactly when
      that `stop` came before `start` had returned and a task is live already or the driver is still to do its
      work: with the redis backend and any known provider, exactly when `stop` came too early; with the poll
      backend, once `start` has returned, only while one of its tasks is left. */
  lemma RunsAfterStopExactly(e: Env, trace: seq<State>, n: nat)
    requires Run(e, trace) && n < |trace| && trace[n].stopper == Stopped
    ensures (var s := trace[n];
             && (CanRun(e, s) <==> !s.started && (AnyLive(s.reg) || (e.known != {} && s.driver != Gone)))
             && (e.backend.Redis? && e.known != {} ==> (CanRun(e, s) <==> !s.started)))
  {
    var s := trace[n];
    InvHolds(e, trace, n);
    BackendHolds(e, trace, n);
    if s.started { DoneIsQuiet(s); }
    assert s.started ==> Quiet(e, s);
    assert [s][0] == s && Path(e, [s]);
    hide Run, Inv;
    if Quiet(e, s) {
      if path :| Path(e, path) && path[0] == s && AnyLive(Last(path).reg) {
        StaysQuiet(e, path, |path| - 1);
      }
    } else if AnyLive(s.reg) {
      assert Last([s]) == s;
    } else {
      DriverCanStart(e, s);
    }
  }

  // ---- the assertion ---------------------------------------------------------------

  /** A notification spells its tenant id the way the database does. */
  ghost predicate SpelledCanonically(e: Env, step: Step) {
    step.BeginReload? ==> e.canon(step.tenant) == Some(step.tenant)
  }

  ghost predicate CanonicalRun(e: Env, trace: seq<State>) {
    && trace != [] && trace[0] == INIT
    && forall n | 0 <= n < |trace| - 1 :: NextCanonical(e, trace[n], trace[n + 1])
  }

  ghost predicate NextCanonical(e: Env, s: State, t: State) {
    exists step :: Enabled(e, s, step) && SpelledCanonically(e, step) && t == Apply(e, s, step)
  }

  predicate ReloadsCanonically(e: Env, d: Driver) {
    (d.ReloadGathering? || d.ReloadFetching?) ==> e.canon(d.tenant) == Some(d.tenant)
  }

  lemma CanonicalStep(e: Env, s: State, step: Step)
    requires Inv(s) && !s.asserted && ReloadsCanonically(e, s.driver)
    requires Enabled(e, s, step) && SpelledCanonically(e, step)
    ensures !Apply(e, s, step).asserted && ReloadsCanonically(e, Apply(e, s, step).driver)
  {
    StepKeepsInv(e, s, step);
    if step.ReloadFetched? {
      ReloadFetchedStep(e, s, step.rows);
      forall j | 0 <= j < |step.rows| ensures Key(step.rows[j]) !in s.reg.tasks {
        assert OfTenant(Key(step.rows[j]), s.driver.tenant);
      }
    }
  }

  /** The "already running" assertion never fires in a run whose notifications are spelled canonically. */
  lemma {:induction false} AssertionNeverFires(e: Env, trace: seq<State>, n: nat)
    requires CanonicalRun(e, trace) && n < |trace|
    ensures Inv(trace[n]) && !trace[n].asserted && ReloadsCanonically(e, trace[n].driver)
  {
    if n > 0 {
      AssertionNeverFires(e, trace, n - 1);
      assert NextCanonical(e, trace[n - 1], trace[n]);
      hide Inv, Enabled, Apply, Run;
      var step :| Enabled(e, trace[n - 1], step) && SpelledCanonically(e, step)
        && trace[n] == Apply(e, trace[n - 1], step);
      CanonicalStep(e, trace[n - 1], step);
      StepKeepsInv(e, trace[n - 1], step);
    }
  }

  lemma PollMoves(e: Env, s: State, t: State)
    requires e.backend.Poll? && Next(e, s, t)
    ensures NextCanonical(e, s, t)
  {
    hide Apply, StartAll, AllSettled, RowsOk, StartsMissing, DriverRuns;
    var step :| Enabled(e, s, step) && t == Apply(e, s, step);
    assert SpelledCanonically(e, step);
  }

  /** With the poll backend, which takes no notifications, it never fires at all. */
  lemma PollNeverAsserts(e: Env, trace: seq<State>, n: nat)
    requires e.backend.Poll? && Run(e, trace) && n < |trace|
    ensures !trace[n].asserted
  {
    hide Next, NextCanonical, Inv, ReloadsCanonically;
    forall m | 0 <= m < |trace| - 1 ensures NextCanonical(e, trace[m], trace[m + 1]) {
      PollMoves(e, trace[m], trace[m + 1]);
    }
    AssertionNeverFires(e, trace, n);
  }

  // ---- runs that show the conditions are needed --------------------------------------

  /** `stop` called while `start` still awaits its first fetch finishes at once, and the tasks `start` then
      creates outlive it. */
  lemma StopDuringStartLeaks(e: Env, row: Row) returns (trace: seq<State>)
    requires row.name in e.known && Canonical(row.tenant)
    ensures Run(e, trace)
    ensures (var s := Last(trace); s.stopper == Stopped && s.reg == OneTask(row) && Live(s.reg.pool[0]))
  {
    StartsRow(e.known, row);
    NothingToStop(Reg([], map[]));
    assert Live(OneTask(row).pool[0]) && INIT.reg.tasks.Keys == {};
    trace := [INIT];
    assert Path(e, trace);
    hide Path, StartAll, CancelAll, Awaited, RowsOk, OneTask, Live;
    trace := Extend(e, trace, BeginStart);
    trace := Extend(e, trace, BeginStop);
    trace := Extend(e, trace, StartFetched([row]));
  }

  /** With the redis backend even a `start` that finds no row leaves its subscriber behind a finished `stop`:
      nothing is live then, and yet later something can be. */
  lemma SubscriberOutlivesStop(e: Env) returns (trace: seq<State>)
    requires e.backend.Redis? && e.known != {}
    ensures Run(e, trace) && Last(trace).stopper == Stopped && !AnyLive(Last(trace).reg) && CanRun(e, Last(trace))
  {
    NothingToStop(Reg([], map[]));
    assert INIT.reg.tasks.Keys == {};
    trace := [INIT];
    assert Path(e, trace);
    hide Path, CancelAll, Awaited, CanRun;
    trace := Extend(e, trace, BeginStart);
    trace := Extend(e, trace, BeginStop);
    trace := Extend(e, trace, StartFetched([]));
    RunsAfterStopExactly(e, trace, |trace| - 1);
  }

  /** `start` brings up one row's task. */
  lemma StartsOne(e: Env, row: Row) returns (trace: seq<State>)
    requires row.name in e.known && Canonical(row.tenant)
    ensures Run(e, trace)
    ensures Last(trace) == INIT.(reg := OneTask(row), driver := Idle, started := true)
  {
    StartsRow(e.known, row);
    trace := [INIT];
    assert Path(e, trace);
    hide Path, StartAll, RowsOk, OneTask;
    trace := Extend(e, trace, BeginStart);
    trace := Extend(e, trace, StartFetched([row]));
  }

  /** A notification that spells a running tenant's id in any other form trips the assertion. */
  lemma MisspelledReloadAsserts(e: Env, row: Row, spelling: string) returns (trace: seq<State>)
    requires e.backend.Redis? && row.name in e.known && Canonical(row.tenant)
    requires |spelling| >= 36 && ':' !in spelling && spelling != row.tenant && e.canon(spelling) == Some(row.tenant)
    ensures Run(e, trace) && Last(trace).asserted
  {
    trace := StartsOne(e, row);
    StartsRow(e.known, row);
    OtherTenantUntouched(row, spelling);
    NothingToStop(OneTask(row));
    hide Path, StartAll, CancelAll, Awaited, RowsOk, TenantKeys, OneTask, Due;
    trace := Extend(e, trace, BeginReload(spelling));
    trace := Extend(e, trace, ReloadFetched([row]));
  }

  lemma OtherTenantUntouched(row: Row, spelling: string)
    requires ':' !in row.tenant && ':' !in spelling && spelling != row.tenant
    ensures TenantKeys(OneTask(row), spelling) == {}
  {
    if OfTenant(Key(row), spelling) {
      var rest := Key(row)[|spelling| + 1..];
      assert Key(row) == spelling + [':'] + rest;
      SplitFirst(row.tenant, row.name, spelling, rest, ':');
    }
  }
}
