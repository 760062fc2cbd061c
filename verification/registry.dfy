/** The registry itself: the synchronous stretches of its coroutines, on its own fields, each ending where the
    function on values ends. */
module Registry {
  import opened Common
  import opened RegistryOps

  class ProviderRegistry {
    const known: set<string>  // the keys of `provider_classes`
    var pool: seq<Task>
    var tasks: map<string, nat>

    function Now(): Reg
      reads this
    {
      RegistryOps.Reg.Reg(pool, tasks)
    }

    constructor (known: set<string>)
      ensures this.known == known && Now() == RegistryOps.Reg.Reg([], map[]) && Core(Now())
    {
      this.known := known;
      pool, tasks := [], map[];
    }

    method StartTask(row: Row) returns (ok: bool)
      modifies this
      ensures (Now(), ok) == RegistryOps.StartTask(old(Now()), known, row)
    {
      if row.name !in known { return true; }
      if Key(row) in tasks { return false; }
      tasks := tasks[Key(row) := |pool|];
      pool := pool + [Task(Key(row), row.config, Running, false, false)];
      return true;
    }

    method StartRows(rows: seq<Row>) returns (ok: bool)
      modifies this
      ensures (Now(), ok) == StartAll(old(Now()), known, rows)
    {
      var i := 0;
      ok := true;
      assert rows[0..] == rows;
      while i < |rows|
        invariant 0 <= i <= |rows|
        invariant ok
        invariant StartAll(Now(), known, rows[i..]) == StartAll(old(Now()), known, rows)
      {
        assert rows[i..][0] == rows[i] && rows[i..][1..] == rows[i + 1..];
        ok := StartTask(rows[i]);
        if !ok { return; }
        i := i + 1;
      }
    }

    method OnTaskDone(key: string, i: nat)
      requires i < |pool| && pool[i].key == key && pool[i].callbackDue
      modifies this
      ensures Now() == Callback(old(Now()), i)
    {
      var task := pool[i];
      pool := pool[i := task.(callbackDue := false)];
      if task.phase == Cancelled { return; }
      if task.phase == Crashed {
        tasks := tasks - {key};
      }
    }

    /** Pops every key, cancels what is still running, and returns what `gather` then waits for. */
    method CancelTasks(keys: seq<string>) returns (awaiting: set<nat>)
      requires Core(Now())
      requires forall i, j | 0 <= i < j < |keys| :: keys[i] != keys[j]
      modifies this
      ensures (var ks := Elements(keys); Now() == CancelAll(old(Now()), ks) && awaiting == Awaited(old(Now()), ks))
    {
      ghost var r0 := Now();
      awaiting := {};
      var n := 0;
      while n < |keys|
        invariant 0 <= n <= |keys|
        invariant Now() == CancelAll(r0, Elements(keys[..n]))
        invariant awaiting == Awaited(r0, Elements(keys[..n]))
      {
        var key := keys[n];
        assert keys[..n + 1] == keys[..n] + [key];
        ghost var before, after := Elements(keys[..n]), Elements(keys[..n + 1]);
        assert after == before + {key} && key !in before;
        CancelOneMore(r0, before, key);
        if key in tasks {
          var i := tasks[key];
          tasks := tasks - {key};
          if pool[i].phase == Running {
            pool := pool[i := pool[i].(cancelRequested := true)];
            awaiting := awaiting + {i};
          }
        }
        n := n + 1;
      }
      assert keys[..n] == keys;
    }

    /** `_reload_tenant` up to its first await. */
    method ReloadBegin(tenant: string) returns (skipped: bool, awaiting: set<nat>)
      requires Core(Now())
      modifies this
      ensures skipped <==> |tenant| < 36
      ensures skipped ==> Now() == old(Now()) && awaiting == {}
      ensures !skipped ==> Now() == CancelAll(old(Now()), TenantKeys(old(Now()), tenant))
      ensures !skipped ==> awaiting == Awaited(old(Now()), TenantKeys(old(Now()), tenant))
    {
      if |tenant| < 36 { return true, {}; }
      var tenantKeys := Enumerate(set k | k in tasks && OfTenant(k, tenant));
      assert Elements(tenantKeys) == TenantKeys(Now(), tenant);
      awaiting := CancelTasks(tenantKeys);
      skipped := false;
    }

    /** `_reconcile_all` from its fetched rows to its await. */
    method ReconcileBegin(rows: seq<Row>) returns (toStart: seq<Row>, awaiting: set<nat>)
      requires Core(Now()) && RowsOk(rows)
      modifies this
      ensures Now() == CancelAll(old(Now()), old(tasks).Keys - KeysOf(rows))
      ensures awaiting == Awaited(old(Now()), old(tasks).Keys - KeysOf(rows))
      ensures StartsMissing(toStart, rows, old(tasks))
    {
      RowKeysDistinct(rows);
      var current := tasks.Keys;
      var desired: set<string> := {};
      toStart := [];
      var n := 0;
      while n < |rows|
        invariant 0 <= n <= |rows|
        invariant desired == set i | 0 <= i < n :: Key(rows[i])
        invariant forall row :: row in toStart <==> row in rows[..n] && Key(row) !in current
        invariant DistinctKeys(toStart) && forall row | row in toStart :: row in rows[..n]
      {
        assert rows[..n + 1] == rows[..n] + [rows[n]];
        assert forall row | row in rows[..n] :: Key(row) != Key(rows[n]);
        desired := desired + {Key(rows[n])};
        if Key(rows[n]) !in current { toStart := toStart + [rows[n]]; }
        n := n + 1;
      }
      assert rows[..n] == rows;
      var stale := Enumerate(current - desired);
      assert Elements(stale) == current - KeysOf(rows);
      awaiting := CancelTasks(stale);
    }
  }

  lemma CancelOneMore(r: Reg, before: set<string>, key: string)
    requires Core(r) && key !in before
    ensures (var r1, r2 := CancelAll(r, before), CancelAll(r, before + {key});
             if key !in r.tasks then r2 == r1 && Awaited(r, before + {key}) == Awaited(r, before)
             else
               var i := r.tasks[key];
               && key in r1.tasks && r1.tasks[key] == i && r1.pool[i] == r.pool[i]
               && r2.tasks == r1.tasks - {key}
               && r2.pool == (if r.pool[i].phase == Running
                  then r1.pool[i := r1.pool[i].(cancelRequested := true)] else r1.pool)
               && Awaited(r, before + {key}) == Awaited(r, before) + (if r.pool[i].phase == Running then {i} else {}))
  {}
}
