/** One asyncio task per enabled provider row: what `ProviderRegistry` does between two awaits. */
module RegistryOps {
  import opened Common

  // On the task pool of the event loop, and the registry's own task map.

  datatype Phase = Running | Returned | Crashed | Cancelled

  /** A task is live while its coroutine runs; `callbackDue` means its done-callback is queued. */
  datatype Task = Task(key: string, config: string, phase: Phase, cancelRequested: bool, callbackDue: bool)

  datatype Row = Row(tenant: string, name: string, config: string)

  /** Every task ever created, by number, and the registry's `_tasks`. */
  datatype Reg = Reg(pool: seq<Task>, tasks: map<string, nat>)

  function Key(row: Row): string { row.tenant + ":" + row.name }

  predicate Canonical(tenant: string) { |tenant| == 36 && ':' !in tenant }

  /** What the providers table guarantees: canonical tenant ids, one row per (tenant, name). */
  predicate RowsOk(rows: seq<Row>) {
    && (forall i | 0 <= i < |rows| :: Canonical(rows[i].tenant))
    && (forall i, j | 0 <= i < j < |rows| :: rows[i].tenant != rows[j].tenant || rows[i].name != rows[j].name)
  }

  // ---- the operations ---------------------------------------------------------

  /** `_start_task`: false when its "already running" assertion fires. */
  function StartTask(r: Reg, known: set<string>, row: Row): (Reg, bool) {
    if row.name !in known then (r, true)
    else if Key(row) in r.tasks then (r, false)
    else (Reg(r.pool + [Task(Key(row), row.config, Running, false, false)], r.tasks[Key(row) := |r.pool|]), true)
  }

  /** The loops over `_start_task`; an assertion ends the loop. */
  function StartAll(r: Reg, known: set<string>, rows: seq<Row>): (Reg, bool)
    decreases rows
  {
    if rows == [] then (r, true)
    else
      var (r1, ok) := StartTask(r, known, rows[0]);
      if ok then StartAll(r1, known, rows[1..]) else (r1, false)
  }

  predicate Stored(r: Reg, i: nat) {
    i < |r.pool| && r.pool[i].key in r.tasks && r.tasks[r.pool[i].key] == i
  }

  /** The tasks `_cancel_tasks(keys)` cancels and then awaits. */
  function Awaited(r: Reg, keys: set<string>): set<nat> {
    set i | 0 <= i < |r.pool| && Stored(r, i) && r.pool[i].key in keys && r.pool[i].phase == Running
  }

  /** `_cancel_tasks(keys)` up to its await. */
  function CancelAll(r: Reg, keys: set<string>): Reg {
    Reg(seq(|r.pool|, i requires 0 <= i < |r.pool| =>
              if i in Awaited(r, keys) then r.pool[i].(cancelRequested := true) else r.pool[i]),
        r.tasks - keys)
  }

  /** `_on_task_done`, run by the event loop for finished task `i`. */
  function Callback(r: Reg, i: nat): Reg
    requires i < |r.pool|
  {
    Reg(r.pool[i := r.pool[i].(callbackDue := false)],
        if r.pool[i].phase == Crashed then r.tasks - {r.pool[i].key} else r.tasks)
  }

  /** Task `i` stops running, in one of the ways a coroutine can. */
  function Finish(r: Reg, i: nat, phase: Phase): Reg
    requires i < |r.pool|
  {
    Reg(r.pool[i := r.pool[i].(phase := phase, callbackDue := true)], r.tasks)
  }

  function KeysOf(rows: seq<Row>): set<string> { set i | 0 <= i < |rows| :: Key(rows[i]) }

  predicate OfTenant(key: string, tenant: string) { tenant + ":" <= key }

  function TenantKeys(r: Reg, tenant: string): set<string> { set k | k in r.tasks && OfTenant(k, tenant) }

  /** `desired_keys - current`, in whatever order the set difference is iterated. */
  ghost predicate StartsMissing(toStart: seq<Row>, rows: seq<Row>, tasks: map<string, nat>) {
    && (forall row :: row in toStart <==> row in rows && Key(row) !in tasks)
    && DistinctKeys(toStart)
  }

  predicate DistinctKeys(rows: seq<Row>) {
    forall i, j | 0 <= i < j < |rows| :: Key(rows[i]) != Key(rows[j])
  }

  lemma KeyInjective(a: Row, b: Row)
    requires ':' !in a.tenant && ':' !in b.tenant && Key(a) == Key(b)
    ensures a.tenant == b.tenant && a.name == b.name
  {
    SplitFirst(a.tenant, a.name, b.tenant, b.name, ':');
  }

  lemma RowKeysDistinct(rows: seq<Row>)
    requires RowsOk(rows)
    ensures DistinctKeys(rows)
  {
    forall i, j | 0 <= i < j < |rows| ensures Key(rows[i]) != Key(rows[j]) {
      if Key(rows[i]) == Key(rows[j]) { KeyInjective(rows[i], rows[j]); }
    }
  }

  // ---- what every operation keeps ----------------------------------------------

  predicate Unsettled(t: Task) { t.phase == Running || t.callbackDue }

  predicate Live(t: Task) { t.phase == Running && !t.cancelRequested }

  /** Every stored entry is the un-cancelled task of its key; an unsettled task whose key is stored is the
      stored one (so its callback cannot drop a newer task); every live task is stored. */
  predicate Core(r: Reg) {
    && (forall k | k in r.tasks ::
          r.tasks[k] < |r.pool| && r.pool[r.tasks[k]].key == k && !r.pool[r.tasks[k]].cancelRequested)
    && (forall i | 0 <= i < |r.pool| :: Unsettled(r.pool[i]) && r.pool[i].key in r.tasks ==> Stored(r, i))
    && (forall i | 0 <= i < |r.pool| :: Live(r.pool[i]) ==> r.pool[i].key in r.tasks)
    && (forall i | 0 <= i < |r.pool| :: r.pool[i].callbackDue ==> r.pool[i].phase != Running)
  }

  /** Tasks popped from the map that the event loop has not finished with. */
  function Orphans(r: Reg): set<nat> {
    set i | 0 <= i < |r.pool| && Unsettled(r.pool[i]) && r.pool[i].key !in r.tasks
  }

  function Due(r: Reg): set<nat> { set i | 0 <= i < |r.pool| && r.pool[i].callbackDue }

  predicate NoOrphanOf(r: Reg, rows: seq<Row>) {
    forall i, j | i in Orphans(r) && 0 <= j < |rows| :: r.pool[i].key != Key(rows[j])
  }

  lemma StartKeeps(r: Reg, known: set<string>, row: Row)
    requires Core(r) && NoOrphanOf(r, [row])
    ensures (var r1 := StartTask(r, known, row).0; Core(r1) && Orphans(r1) == Orphans(r) && r.pool <= r1.pool)
  {
    var r1 := StartTask(r, known, row).0;
    if r1 != r {
      var n := |r.pool|;
      assert forall i | 0 <= i < n :: r1.pool[i] == r.pool[i];
      assert [row][0] == row;
      assert forall i | 0 <= i < n && Unsettled(r.pool[i]) :: i in Orphans(r) || r.pool[i].key in r.tasks;
    }
  }

  /** Starting rows keeps the core; the assertion fires only on a key that was stored already. */
  lemma {:induction false} StartAllKeeps(r: Reg, known: set<string>, rows: seq<Row>)
    requires Core(r) && DistinctKeys(rows) && NoOrphanOf(r, rows)
    ensures (var (r1, ok) := StartAll(r, known, rows);
             && Core(r1) && Orphans(r1) == Orphans(r) && r.pool <= r1.pool
             && r1.tasks.Keys <= r.tasks.Keys + KeysOf(rows)
             && (forall k | k in r.tasks :: k in r1.tasks && r1.tasks[k] == r.tasks[k])
             && (ok <==> forall j | 0 <= j < |rows| :: rows[j].name in known ==> Key(rows[j]) !in r.tasks)
             && (ok ==> r1.tasks.Keys == r.tasks.Keys + KnownKeys(known, rows)))
    decreases rows
  {
    hide Core;
    if rows != [] {
      var (r1, ok) := StartTask(r, known, rows[0]);
      StartKeeps(r, known, rows[0]);
      forall j | 0 <= j < |rows[1..]| ensures Key(rows[1..][j]) != Key(rows[0]) {
        assert rows[1..][j] == rows[j + 1];
      }
      forall i, j | i in Orphans(r1) && 0 <= j < |rows[1..]| ensures r1.pool[i].key != Key(rows[1..][j]) {
        assert rows[1..][j] == rows[j + 1];
        assert r1.pool[i] == r.pool[i];
      }
      if ok {
        StartAllKeeps(r1, known, rows[1..]);
        assert forall j | 1 <= j < |rows| :: rows[j] == rows[1..][j - 1];
        StartedKeys(r, known, rows);
        assert KeysOf(rows) == {Key(rows[0])} + KeysOf(rows[1..]);
      }
    }
  }

  /** Key `Key(row)` is held by a task newer than the first `n`, running on that row's config. */
  predicate FreshlyRunning(r: Reg, n: nat, row: Row) {
    && Key(row) in r.tasks && n <= r.tasks[Key(row)] < |r.pool|
    && r.pool[r.tasks[Key(row)]] == Task(Key(row), row.config, Running, false, false)
  }

  /** Unless the assertion fires, every row of a known provider gets a new task, on its own config. */
  lemma {:induction false} StartedFromRows(r: Reg, known: set<string>, rows: seq<Row>)
    requires DistinctKeys(rows) && StartAll(r, known, rows).1
    ensures (var r1 := StartAll(r, known, rows).0;
             && r.pool <= r1.pool
             && (forall k | k in r.tasks :: k in r1.tasks && r1.tasks[k] == r.tasks[k])
             && forall j | 0 <= j < |rows| && rows[j].name in known :: FreshlyRunning(r1, |r.pool|, rows[j]))
    decreases rows
  {
    if rows != [] {
      var (r1, ok) := StartTask(r, known, rows[0]);
      assert forall j | 0 <= j < |rows[1..]| :: rows[1..][j] == rows[j + 1];
      StartedFromRows(r1, known, rows[1..]);
      var r2 := StartAll(r1, known, rows[1..]).0;
      forall j | 0 <= j < |rows| && rows[j].name in known ensures FreshlyRunning(r2, |r.pool|, rows[j]) {
        if j == 0 {
          assert FreshlyRunning(r1, |r.pool|, rows[0]);
          assert r2.pool[|r.pool|] == r1.pool[|r.pool|];
        } else {
          assert FreshlyRunning(r2, |r1.pool|, rows[1..][j - 1]);
        }
      }
    }
  }

  predicate AnyLive(r: Reg) { exists i | 0 <= i < |r.pool| :: Live(r.pool[i]) }

  lemma {:induction false} StartsLive(r: Reg, known: set<string>, rows: seq<Row>)
    requires forall i | 0 <= i < |r.pool| :: Live(r.pool[i])
    ensures (var r1 := StartAll(r, known, rows).0; forall i | 0 <= i < |r1.pool| :: Live(r1.pool[i]))
    decreases rows
  {
    if rows != [] {
      var (r1, ok) := StartTask(r, known, rows[0]);
      assert forall i | 0 <= i < |r1.pool| :: Live(r1.pool[i]);
      if ok {
        StartsLive(r1, known, rows[1..]);
        assert StartAll(r, known, rows) == StartAll(r1, known, rows[1..]);
      }
    }
  }

  /** Starting rows in an empty registry. */
  lemma FreshStart(known: set<string>, rows: seq<Row>)
    requires RowsOk(rows)
    ensures (var (r, ok) := StartAll(Reg([], map[]), known, rows);
             && ok && r.tasks.Keys == KnownKeys(known, rows)
             && (forall j | 0 <= j < |rows| && rows[j].name in known :: FreshlyRunning(r, 0, rows[j]))
             && (forall i | 0 <= i < |r.pool| :: Live(r.pool[i]) && r.pool[i].key in KnownKeys(known, rows))
             && (AnyLive(r) <==> KnownKeys(known, rows) != {}))
  {
    RowKeysDistinct(rows);
    var empty := Reg([], map[]);
    assert Core(empty) && Orphans(empty) == {};
    StartAllKeeps(empty, known, rows);
    StartedFromRows(empty, known, rows);
    StartsLive(empty, known, rows);
    hide StartAll, RowsOk;
    var r := StartAll(empty, known, rows).0;
    if k :| k in KnownKeys(known, rows) {
      var j :| 0 <= j < |rows| && rows[j].name in known && Key(rows[j]) == k;
      assert FreshlyRunning(r, 0, rows[j]);
      assert Live(r.pool[r.tasks[k]]);
    }
  }

  function KnownKeys(known: set<string>, rows: seq<Row>): set<string> {
    set j | 0 <= j < |rows| && rows[j].name in known :: Key(rows[j])
  }

  lemma StartedKeys(r: Reg, known: set<string>, rows: seq<Row>)
    requires rows != []
    ensures KnownKeys(known, rows)
         == (if rows[0].name in known then {Key(rows[0])} else {}) + KnownKeys(known, rows[1..])
    ensures KeysOf(rows) == {Key(rows[0])} + KeysOf(rows[1..])
  {
    assert forall j | 0 <= j < |rows[1..]| :: rows[1..][j] == rows[j + 1];
    forall k | k in KnownKeys(known, rows)
      ensures k in (if rows[0].name in known then {Key(rows[0])} else {}) + KnownKeys(known, rows[1..])
    {
      var j :| 0 <= j < |rows| && rows[j].name in known && Key(rows[j]) == k;
      if j > 0 { assert rows[1..][j - 1] == rows[j]; }
    }
    forall k | k in KeysOf(rows) ensures k in {Key(rows[0])} + KeysOf(rows[1..]) {
      var j :| 0 <= j < |rows| && Key(rows[j]) == k;
      if j > 0 { assert rows[1..][j - 1] == rows[j]; }
    }
  }

  /** Cancelling leaves no live task under the given keys; what it orphans it awaits, unless already done. */
  lemma CancelKeeps(r: Reg, keys: set<string>)
    requires Core(r)
    ensures (var r1 := CancelAll(r, keys);
             && Core(r1) && r1.tasks.Keys == r.tasks.Keys - keys
             && Due(r1) == Due(r)
             && (forall i | i in Orphans(r1) :: i in Orphans(r) || i in Awaited(r, keys) || i in Due(r))
             && (forall i | i in Orphans(r1) :: i in Orphans(r) || r1.pool[i].key in keys)
             && |r1.pool| == |r.pool|
             && forall i | 0 <= i < |r.pool| ::
                  var stops := r.pool[i].phase == Running && r.pool[i].key in keys && r.pool[i].key in r.tasks;
                  r1.pool[i] == r.pool[i].(cancelRequested := r.pool[i].cancelRequested || stops))
  {}

  lemma CallbackKeeps(r: Reg, i: nat)
    requires Core(r) && i < |r.pool| && r.pool[i].callbackDue
    ensures Core(Callback(r, i)) && Orphans(Callback(r, i)) <= Orphans(r)
    ensures Callback(r, i).tasks.Keys <= r.tasks.Keys
    ensures forall k | k in r.tasks && r.tasks[k] != i ::
      k in Callback(r, i).tasks && Callback(r, i).tasks[k] == r.tasks[k]
  {}

  /** A stored task that crashed still has its callback to come. */
  predicate CrashedDue(r: Reg) {
    forall i | 0 <= i < |r.pool| && Stored(r, i) && r.pool[i].phase == Crashed :: r.pool[i].callbackDue
  }

  lemma {:induction false} StartKeepsDue(r: Reg, known: set<string>, rows: seq<Row>)
    requires CrashedDue(r)
    ensures CrashedDue(StartAll(r, known, rows).0)
    decreases rows
  {
    if rows != [] {
      var (r1, ok) := StartTask(r, known, rows[0]);
      assert forall i | 0 <= i < |r.pool| :: r1.pool[i] == r.pool[i];
      assert CrashedDue(r1);
      hide StartTask, CrashedDue;
      if ok { StartKeepsDue(r1, known, rows[1..]); }
    }
  }

  lemma CancelKeepsDue(r: Reg, keys: set<string>)
    requires CrashedDue(r)
    ensures CrashedDue(CancelAll(r, keys))
  {
    var r1 := CancelAll(r, keys);
    assert forall i | 0 <= i < |r.pool| :: Stored(r1, i) ==> Stored(r, i);
  }

  lemma LoopKeepsDue(r: Reg, i: nat, phase: Phase)
    requires CrashedDue(r) && i < |r.pool|
    ensures CrashedDue(Callback(r, i)) && CrashedDue(Finish(r, i, phase))
  {}

  lemma FinishKeeps(r: Reg, i: nat, phase: Phase)
    requires Core(r) && i < |r.pool| && r.pool[i].phase == Running && phase != Running
    ensures Core(Finish(r, i, phase)) && Orphans(Finish(r, i, phase)) == Orphans(r)
  {}
}

/** Every interleaving of task crashes, completions, done-callbacks, reconciles, reloads and `stop`. */
module RegistryMachine {
  import opened Common
  import opened RegistryOps

  /** Where the one coroutine that reconciles is suspended. */
  datatype Driver =
    | NotCreated
    | Starting                        // `start`, awaiting the fetch
    | Idle                            // sleeping, or listening for notifications
    | Fetching                        // `_reconcile_all`, awaiting the fetch
    | Gathering(toStart: seq<Row>)    // `_reconcile_all`, awaiting the cancelled tasks
    | ReloadGathering(tenant: string)
    | ReloadFetching(tenant: string)
    | Gone

  datatype Stopper = NotStopping | AwaitingDriver | AwaitingTasks | Stopped

  /** `owed`: the tasks whose callbacks the event loop runs before it resumes the driver (those already
      queued when it suspended, and those it gathers); `stopOwed` the same for `stop`. */
  datatype State = State(
    reg: Reg, driver: Driver, owed: set<nat>,
    stopper: Stopper, stopOwed: set<nat>, started: bool, asserted: bool)

  /** What the driver is once `start` returns: `_poll_loop`, or `_subscribe_valkey`. */
  datatype Backend = Poll | Redis

  /** The backend, the known provider classes, and how the database reads a tenant id in a notification. */
  datatype Env = Env(backend: Backend, known: set<string>, canon: string -> Option<string>)

  predicate AllSettled(r: Reg, ids: set<nat>) {
    forall i | i in ids && i < |r.pool| :: !Unsettled(r.pool[i])
  }

  /** The driver takes steps until `stop` has cancelled it; a `stop` that ran before `start` created the
      driver never cancels it. A poll loop created after that `stop` reads its flag and exits at once; a
      subscriber does not look at the flag. */
  predicate DriverRuns(s: State) { s.stopper == NotStopping || !s.started }

  function Resume(s: State, known: set<string>, rows: seq<Row>): State {
    var (r, ok) := StartAll(s.reg, known, rows);
    s.(reg := r, driver := Idle, owed := {}, asserted := s.asserted || !ok)
  }

  datatype Step =
    | TaskFinishes(i: nat, phase: Phase)
    | CallbackRuns(i: nat)
    | BeginStart
    | StartFetched(rows: seq<Row>)
    | BeginReconcile
    | FetchFails
    | ReconcileFetched(rows: seq<Row>, toStart: seq<Row>)
    | Gathered
    | BeginReload(tenant: string)
    | ReloadGathered
    | ReloadFetched(rows: seq<Row>)
    | BeginStop
    | DriverCancelled
    | StopCancels
    | StopGathered

  ghost predicate Enabled(e: Env, s: State, step: Step) {
    match step
    case TaskFinishes(i, phase) => i < |s.reg.pool| && s.reg.pool[i].phase == Running && phase != Running
    case CallbackRuns(i) => i < |s.reg.pool| && s.reg.pool[i].callbackDue
    case BeginStart => s.driver == NotCreated
    case StartFetched(rows) => s.driver == Starting && RowsOk(rows) && AllSettled(s.reg, s.owed)
    case BeginReconcile => DriverRuns(s) && s.driver == Idle
    case FetchFails => DriverRuns(s) && (s.driver == Fetching || s.driver.ReloadFetching?)
    case ReconcileFetched(rows, toStart) =>
      && DriverRuns(s) && s.driver == Fetching && AllSettled(s.reg, s.owed)
      && RowsOk(rows) && StartsMissing(toStart, rows, s.reg.tasks)
    case Gathered => DriverRuns(s) && s.driver.Gathering? && AllSettled(s.reg, s.owed)
    case BeginReload(tenant) =>
      e.backend.Redis? && DriverRuns(s) && s.driver == Idle && |tenant| >= 36 && ':' !in tenant
    case ReloadGathered => DriverRuns(s) && s.driver.ReloadGathering? && AllSettled(s.reg, s.owed)
    case ReloadFetched(rows) =>
      && DriverRuns(s) && s.driver.ReloadFetching? && AllSettled(s.reg, s.owed)
      && RowsOk(rows) && forall j | 0 <= j < |rows| :: e.canon(s.driver.tenant) == Some(rows[j].tenant)
    case BeginStop => s.stopper == NotStopping
    case DriverCancelled =>
      && s.stopper == AwaitingDriver && s.driver !in {NotCreated, Starting, Gone}
      && (s.driver.Gathering? || s.driver.ReloadGathering? ==> AllSettled(s.reg, s.owed))
    case StopCancels => s.stopper == AwaitingDriver && s.driver == Gone
    case StopGathered => s.stopper == AwaitingTasks && AllSettled(s.reg, s.stopOwed)
  }

  /** `stop`'s own `_cancel_tasks` over every key. */
  function StopAll(s: State): State {
    var awaited := Awaited(s.reg, s.reg.tasks.Keys);
    var r := CancelAll(s.reg, s.reg.tasks.Keys);
    s.(reg := r, stopper := if awaited == {} then Stopped else AwaitingTasks, stopOwed := Due(r) + awaited)
  }

  function Apply(e: Env, s: State, step: Step): State
    requires step.TaskFinishes? || step.CallbackRuns? ==> step.i < |s.reg.pool|
    requires step.Gathered? ==> s.driver.Gathering?
    requires step.ReloadGathered? ==> s.driver.ReloadGathering?
  {
    match step
    case TaskFinishes(i, phase) => s.(reg := Finish(s.reg, i, phase))
    case CallbackRuns(i) => s.(reg := Callback(s.reg, i))
    case BeginStart => s.(driver := Starting, owed := Due(s.reg))
    case StartFetched(rows) =>
      var t := Resume(s, e.known, rows).(started := s.stopper == NotStopping);
      if e.backend.Poll? && !t.started then t.(driver := Gone) else t
    case BeginReconcile => s.(driver := Fetching, owed := Due(s.reg))
    case FetchFails => s.(driver := Idle, owed := {})
    case ReconcileFetched(rows, toStart) =>
      var stale := s.reg.tasks.Keys - KeysOf(rows);
      var s1 := s.(reg := CancelAll(s.reg, stale));
      if Awaited(s.reg, stale) == {} then Resume(s1, e.known, toStart)
      else s1.(driver := Gathering(toStart), owed := Due(s1.reg) + Awaited(s.reg, stale))
    case Gathered => Resume(s, e.known, s.driver.toStart)
    case BeginReload(tenant) =>
      var keys := TenantKeys(s.reg, tenant);
      var s1 := s.(reg := CancelAll(s.reg, keys), owed := Due(s.reg) + Awaited(s.reg, keys));
      if Awaited(s.reg, keys) == {} then s1.(driver := ReloadFetching(tenant))
      else s1.(driver := ReloadGathering(tenant))
    case ReloadGathered => s.(driver := ReloadFetching(s.driver.tenant), owed := Due(s.reg))
    case ReloadFetched(rows) => Resume(s, e.known, rows)
    case BeginStop => if s.driver in {NotCreated, Starting} then StopAll(s) else s.(stopper := AwaitingDriver)
    case DriverCancelled => s.(driver := Gone, owed := {})
    case StopCancels => StopAll(s)
    case StopGathered => s.(stopper := Stopped)
  }

  const INIT := State(Reg([], map[]), NotCreated, {}, NotStopping, {}, false, false)

  // ---- the invariant -------------------------------------------------------------

  predicate OrphansWithin(r: Reg, ids: set<nat>) { Orphans(r) <= ids }

  predicate OrphansNotRunning(r: Reg) { forall i | i in Orphans(r) :: r.pool[i].phase != Running }

  predicate NoTaskOf(r: Reg, tenant: string) { forall k | k in r.tasks :: !OfTenant(k, tenant) }

  ghost predicate DriverInv(s: State) {
    match s.driver
    case NotCreated => s.reg == Reg([], map[])
    case Starting => s.reg == Reg([], map[])
    case Idle => OrphansNotRunning(s.reg)
    case Fetching => OrphansNotRunning(s.reg) && OrphansWithin(s.reg, s.owed)
    case Gathering(toStart) =>
      && OrphansWithin(s.reg, s.owed)
      && DistinctKeys(toStart) && forall row | row in toStart :: Key(row) !in s.reg.tasks
    case ReloadGathering(tenant) => OrphansWithin(s.reg, s.owed) && NoTaskOf(s.reg, tenant)
    case ReloadFetching(tenant) =>
      OrphansNotRunning(s.reg) && OrphansWithin(s.reg, s.owed) && NoTaskOf(s.reg, tenant)
    case Gone => true
  }

  /** What `stop` has achieved, when it was called after `start` had returned. */
  predicate StopInv(s: State) {
    && (s.driver == Gone ==> s.stopper != NotStopping)
    && (s.started ==> s.driver !in {NotCreated, Starting})
    && (s.driver in {NotCreated, Starting} ==> s.stopper != AwaitingDriver)
    && (s.stopper in {AwaitingTasks, Stopped} && s.started ==> s.driver == Gone && s.reg.tasks == map[])
    && (s.stopper == AwaitingDriver ==> s.started)
    && (s.stopper == NotStopping && s.driver !in {NotCreated, Starting} ==> s.started)
    && (s.driver == Gone ==>
          forall i | i in Orphans(s.reg) && s.reg.pool[i].phase == Running ::
            s.stopper == AwaitingTasks && i in s.stopOwed)
  }

  ghost predicate Inv(s: State) { Core(s.reg) && DriverInv(s) && StopInv(s) }

  lemma ResumeKeeps(s: State, known: set<string>, rows: seq<Row>)
    requires Core(s.reg) && DistinctKeys(rows) && NoOrphanOf(s.reg, rows) && OrphansNotRunning(s.reg)
    ensures (var t := Resume(s, known, rows); Core(t.reg) && DriverInv(t))
    ensures !s.asserted ==> (Resume(s, known, rows).asserted
              <==> exists j | 0 <= j < |rows| :: rows[j].name in known && Key(rows[j]) in s.reg.tasks)
  {
    StartAllKeeps(s.reg, known, rows);
  }

  lemma SettledNoOrphans(s: State)
    requires OrphansWithin(s.reg, s.owed) && AllSettled(s.reg, s.owed)
    ensures Orphans(s.reg) == {}
  {
    assert forall i | i in Orphans(s.reg) :: i in s.owed;
  }

  lemma EventLoopStep(e: Env, s: State, step: Step)
    requires Inv(s) && Enabled(e, s, step) && (step.TaskFinishes? || step.CallbackRuns?)
    ensures Inv(Apply(e, s, step))
  {
    if step.TaskFinishes? {
      FinishKeeps(s.reg, step.i, step.phase);
    } else {
      CallbackKeeps(s.reg, step.i);
    }
  }

  lemma ReconcileStep(e: Env, s: State, step: Step)
    requires Inv(s) && Enabled(e, s, step) && step.ReconcileFetched?
    ensures Inv(Apply(e, s, step)) && Apply(e, s, step).asserted == s.asserted
  {
    SettledNoOrphans(s);
    var stale := s.reg.tasks.Keys - KeysOf(step.rows);
    var s1 := s.(reg := CancelAll(s.reg, stale));
    CancelKeeps(s.reg, stale);
    forall i, j | i in Orphans(s1.reg) && 0 <= j < |step.toStart| ensures s1.reg.pool[i].key != Key(step.toStart[j]) {
      assert step.toStart[j] in step.rows;
      assert Key(step.toStart[j]) in KeysOf(step.rows);
    }
    if Awaited(s.reg, stale) == {} {
      assert OrphansNotRunning(s1.reg);
      ResumeKeeps(s1, e.known, step.toStart);
      assert forall j | 0 <= j < |step.toStart| :: step.toStart[j] in step.toStart;
    }
  }

  lemma StartingStep(e: Env, s: State, step: Step)
    requires Inv(s) && Enabled(e, s, step) && (step.BeginStart? || step.StartFetched? || step.Gathered?)
    ensures Inv(Apply(e, s, step)) && Apply(e, s, step).asserted == s.asserted
  {
    if step.StartFetched? {
      RowKeysDistinct(step.rows);
      ResumeKeeps(s, e.known, step.rows);
    } else if step.Gathered? {
      SettledNoOrphans(s);
      assert forall j | 0 <= j < |s.driver.toStart| :: s.driver.toStart[j] in s.driver.toStart;
      ResumeKeeps(s, e.known, s.driver.toStart);
    }
  }

  lemma ReloadBeginStep(e: Env, s: State, step: Step)
    requires Inv(s) && Enabled(e, s, step)
      && (step.BeginReload? || step.ReloadGathered? || step.BeginReconcile? || step.FetchFails?)
    ensures Inv(Apply(e, s, step)) && Apply(e, s, step).asserted == s.asserted
  {
    if step.BeginReload? {
      CancelKeeps(s.reg, TenantKeys(s.reg, step.tenant));
    } else if step.ReloadGathered? {
      SettledNoOrphans(s);
    }
  }

  /** A reload trips the "already running" assertion exactly when some fetched row's task is already stored. */
  lemma ReloadFetchedStep(e: Env, s: State, rows: seq<Row>)
    requires Inv(s) && Enabled(e, s, ReloadFetched(rows))
    ensures Inv(Apply(e, s, ReloadFetched(rows)))
    ensures !s.asserted ==> (Apply(e, s, ReloadFetched(rows)).asserted
              <==> exists j | 0 <= j < |rows| :: rows[j].name in e.known && Key(rows[j]) in s.reg.tasks)
  {
    SettledNoOrphans(s);
    RowKeysDistinct(rows);
    ResumeKeeps(s, e.known, rows);
  }

  lemma StopStep(e: Env, s: State, step: Step)
    requires Inv(s) && Enabled(e, s, step)
    requires step.BeginStop? || step.DriverCancelled? || step.StopCancels? || step.StopGathered?
    ensures Inv(Apply(e, s, step)) && Apply(e, s, step).asserted == s.asserted
  {
    CancelKeeps(s.reg, s.reg.tasks.Keys);
    if step.DriverCancelled? && (s.driver.Gathering? || s.driver.ReloadGathering?) {
      SettledNoOrphans(s);
    }
    if step.StopCancels? {
      assert StopAll(s).reg.tasks == map[];
    }
  }

  lemma StepKeepsInv(e: Env, s: State, step: Step)
    requires Inv(s) && Enabled(e, s, step)
    ensures Inv(Apply(e, s, step))
    ensures !step.ReloadFetched? ==> Apply(e, s, step).asserted == s.asserted
  {
    match step
    case TaskFinishes(_, _) => EventLoopStep(e, s, step);
    case CallbackRuns(_) => EventLoopStep(e, s, step);
    case ReconcileFetched(_, _) => ReconcileStep(e, s, step);
    case BeginStart => StartingStep(e, s, step);
    case StartFetched(_) => StartingStep(e, s, step);
    case Gathered => StartingStep(e, s, step);
    case BeginReload(_) => ReloadBeginStep(e, s, step);
    case ReloadGathered => ReloadBeginStep(e, s, step);
    case BeginReconcile => ReloadBeginStep(e, s, step);
    case FetchFails => ReloadBeginStep(e, s, step);
    case ReloadFetched(rows) => ReloadFetchedStep(e, s, rows);
    case _ => StopStep(e, s, step);
  }

  lemma StepKeepsDue(e: Env, s: State, step: Step)
    requires CrashedDue(s.reg) && Enabled(e, s, step)
    ensures CrashedDue(Apply(e, s, step).reg)
  {
    hide StartAll, CancelAll, CrashedDue, Awaited, AllSettled, RowsOk, StartsMissing,
      Due, KeysOf, TenantKeys, DriverRuns;
    match step {
      case TaskFinishes(i, phase) => LoopKeepsDue(s.reg, i, phase);
      case CallbackRuns(i) => LoopKeepsDue(s.reg, i, Running);
      case StartFetched(rows) => StartKeepsDue(s.reg, e.known, rows);
      case ReconcileFetched(rows, toStart) =>
        var stale := s.reg.tasks.Keys - KeysOf(rows);
        CancelKeepsDue(s.reg, stale);
        StartKeepsDue(CancelAll(s.reg, stale), e.known, toStart);
      case Gathered => StartKeepsDue(s.reg, e.known, s.driver.toStart);
      case BeginReload(tenant) => CancelKeepsDue(s.reg, TenantKeys(s.reg, tenant));
      case ReloadFetched(rows) => StartKeepsDue(s.reg, e.known, rows);
      case BeginStop => CancelKeepsDue(s.reg, s.reg.tasks.Keys);
      case StopCancels => CancelKeepsDue(s.reg, s.reg.tasks.Keys);
      case _ =>
    }
  }
}
