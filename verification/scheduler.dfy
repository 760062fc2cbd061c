/** The scheduler object over a backend object, both updated in place: each method makes the calls, in the order of
    the code, and ends where the function on values ends. */
module Scheduler {
  import opened Common
  import opened ConfigDigest
  import opened SchedulerOps

  /** The cron engine and the queue. `fails(n)` says whether call number `n` raises, leaving no effect. */
  class Backend {
    const fails: Faults
    var live: map<nat, Registration>
    var nextId: nat
    var calls: nat
    var registered: nat
    var unregistered: nat
    var enqueueTries: nat
    var enqueued: seq<Job>

    constructor (fails: Faults)
      ensures this.fails == fails && live == map[] && nextId == calls == registered == unregistered == enqueueTries == 0
      ensures enqueued == []
    {
      this.fails := fails;
      live, nextId, calls, registered, unregistered, enqueueTries, enqueued := map[], 0, 0, 0, 0, 0, [];
    }

    method Register(r: Registration) returns (id: Option<nat>)
      modifies this`live, this`nextId, this`calls, this`registered
      ensures calls == old(calls) + 1
      ensures id == if fails(old(calls)) then None else Some(old(nextId))
      ensures id.None? ==> live == old(live) && nextId == old(nextId) && registered == old(registered)
      ensures id.Some? ==>
        live == old(live)[old(nextId) := r] && nextId == old(nextId) + 1 && registered == old(registered) + 1
    {
      var n := calls;
      calls := n + 1;
      if fails(n) { return None; }
      live := live[nextId := r];
      id := Some(nextId);
      nextId, registered := nextId + 1, registered + 1;
    }

    method Unregister(id: nat) returns (ok: bool)
      modifies this`live, this`calls, this`unregistered
      ensures calls == old(calls) + 1 && ok == !fails(old(calls))
      ensures !ok ==> live == old(live) && unregistered == old(unregistered)
      ensures ok ==> live == old(live) - {id} && unregistered == old(unregistered) + 1
    {
      var n := calls;
      calls := n + 1;
      if fails(n) { return false; }
      live, unregistered := live - {id}, unregistered + 1;
      ok := true;
    }

    method Enqueue(j: Job) returns (ok: bool)
      modifies this`calls, this`enqueueTries, this`enqueued
      ensures calls == old(calls) + 1 && enqueueTries == old(enqueueTries) + 1 && ok == !fails(old(calls))
      ensures enqueued == if ok then old(enqueued) + [j] else old(enqueued)
    {
      var n := calls;
      calls, enqueueTries := n + 1, enqueueTries + 1;
      if fails(n) { return false; }
      enqueued := enqueued + [j];
      ok := true;
    }
  }

  class Scheduler {
    const setup: Setup
    const backend: Backend
    var entries: map<string, Entry>
    /** The invariant has held after every backend call so far, once its bookkeeping was done. */
    ghost var kept: bool

    function Now(): Sched
      reads this, backend
    {
      Sched(entries, backend.live, backend.nextId, backend.calls, backend.registered, backend.unregistered,
            backend.enqueueTries, backend.enqueued)
    }

    constructor (setup: Setup, backend: Backend)
      requires backend.live == map[] && backend.registered == backend.unregistered == backend.enqueueTries == 0
      ensures this.setup == setup && this.backend == backend && entries == map[] && kept
      ensures Settled(Now(), setup)
    {
      this.setup, this.backend := setup, backend;
      entries, kept := map[], true;
    }

    method DropEntry(k: string) returns (ok: bool)
      requires k in entries
      modifies this, backend
      ensures (Now(), ok) == UnregisterEntry(old(Now()), backend.fails, k)
      ensures kept == (old(kept) && Inv(Now(), setup))
    {
      hide Inv;
      ok := backend.Unregister(entries[k].entryId);
      if ok { entries := entries - {k}; }
      kept := kept && Inv(Now(), setup);
    }

    /** `_register_one`, and the new entry when it returns. */
    method AddEntry(i: Item, cronspec: string) returns (ok: bool)
      modifies this, backend
      ensures (Now(), ok) == RegisterEntry(old(Now()), setup, backend.fails, i, cronspec)
      ensures kept == (old(kept) && (Body(setup, i.p).Ok? ==> Inv(Now(), setup)))
    {
      hide ConfigHash, Body;
      match Body(setup, i.p)
      case Err(_) => return false;
      case Ok(body) =>
        var id := backend.Register(Registration(cronspec, setup.taskType, body, setup.queue));
        if id.Some? {
          entries := entries[i.key := Entry(id.value, ConfigHash(cronspec, i.p.config), cronspec)];
        }
        kept := kept && Inv(Now(), setup);
        ok := id.Some?;
    }

    method EnqueueFirst(p: Provider)
      modifies this, backend
      ensures Now() == EnqueueNow(old(Now()), setup, backend.fails, p)
      ensures kept == (old(kept) && (setup.enqueues ==> Inv(Now(), setup)))
    {
      hide BuildPayload;
      if setup.enqueues {
        var _ := backend.Enqueue(Job(setup.taskType, p.tenantId, BuildPayload(p), setup.queue));
        kept := kept && Inv(Now(), setup);
      }
    }

    method RegisterItem(i: Item, cronspec: string)
      requires Settled(Now(), setup) && ItemOk(i) && i.key !in entries && setup.deriveCron(i.p) == Some(cronspec)
      modifies this, backend
      ensures Now() == Register(old(Now()), setup, backend.fails, i, cronspec)
      ensures kept == old(kept)
    {
      RegisterEntryKeeps(Now(), setup, backend.fails, i, cronspec);
      hide Inv, RegisterEntry, EnqueueNow, ItemOk, Body;
      var ok := AddEntry(i, cronspec);
      if ok {
        EnqueueKeeps(Now(), setup, backend.fails, i.p);
        EnqueueFirst(i.p);
      }
    }

    /** One pass of the register loop. */
    method ConvergeItem(i: Item)
      requires Settled(Now(), setup) && ItemOk(i)
      modifies this, backend
      ensures Now() == ConvergeOne(old(Now()), setup, backend.fails, i)
      ensures Settled(Now(), setup)
      ensures kept == old(kept)
    {
      hide Inv, ConfigHash, Register, ItemOk, Body;
      ghost var s0 := Now();
      ConvergeOneKeeps(s0, setup, backend.fails, i);
      if i.key in entries { UnregisterKeeps(s0, setup, backend.fails, i.key); }
      var cronspec := setup.deriveCron(i.p);
      if cronspec.None? { return; }
      var h := ConfigHash(cronspec.value, i.p.config);
      if i.key in entries {
        if entries[i.key].hash == h { return; }
        var ok := DropEntry(i.key);
        if !ok { return; }
      }
      RegisterItem(i, cronspec.value);
    }

    /** The unregister loop over the stale keys. */
    method DropStaleEntries(stale: seq<string>)
      requires Settled(Now(), setup)
      requires forall k | k in stale :: k in entries
      requires forall i, j | 0 <= i < j < |stale| :: stale[i] != stale[j]
      modifies this, backend
      ensures Now() == DropStale(old(Now()), backend.fails, stale)
      ensures Settled(Now(), setup)
      ensures kept == old(kept)
    {
      hide Inv, Settled, UnregisterEntry, DropStale;
      var n := 0;
      assert stale[0..] == stale;
      while n < |stale|
        invariant 0 <= n <= |stale|
        invariant Settled(Now(), setup)
        invariant forall m | n <= m < |stale| :: stale[m] in entries
        invariant DropStale(Now(), backend.fails, stale[n..]) == DropStale(old(Now()), backend.fails, stale)
        invariant kept == old(kept)
      {
        assert stale[n..][0] == stale[n] && stale[n..][1..] == stale[n + 1..];
        UnregisterSettled(Now(), setup, backend.fails, stale[n]);
        DropStep(Now(), backend.fails, stale[n..]);
        var _ := DropEntry(stale[n]);
        n := n + 1;
      }
      assert stale[n..] == [];
      LoopsEnd(Now(), setup, backend.fails);
    }

    /** The register loop. */
    method ConvergeEntries(desired: seq<Item>)
      requires Settled(Now(), setup) && ItemsOk(desired)
      modifies this, backend
      ensures Now() == ConvergeAll(old(Now()), setup, backend.fails, desired)
      ensures Settled(Now(), setup)
      ensures kept == old(kept)
    {
      hide Inv, Settled, ItemOk, ConvergeOne, ConvergeAll;
      var n := 0;
      assert desired[0..] == desired;
      while n < |desired|
        invariant 0 <= n <= |desired|
        invariant Settled(Now(), setup)
        invariant ConvergeAll(Now(), setup, backend.fails, desired[n..])
          == ConvergeAll(old(Now()), setup, backend.fails, desired)
        invariant kept == old(kept)
      {
        assert desired[n..][0] == desired[n] && desired[n..][1..] == desired[n + 1..];
        ConvergeStep(Now(), setup, backend.fails, desired[n..]);
        ConvergeItem(desired[n]);
        n := n + 1;
      }
      assert desired[n..] == [];
      LoopsEnd(Now(), setup, backend.fails);
    }

    /** `_reconcile`; `None` rows stand for a failed fetch. After every backend call in it, whatever calls
        fail, the invariant holds. */
    method Reconcile(rows: Option<seq<Provider>>) returns (ghost stale: seq<string>)
      requires Settled(Now(), setup) && (rows.Some? ==> RowsOk(rows.value))
      modifies this, backend
      ensures rows.None? ==> Now() == old(Now())
      ensures rows.Some? ==> IsStale(stale, old(Now()), Desired(rows.value))
      ensures rows.Some? ==> Now() == SchedulerOps.Reconcile(old(Now()), setup, backend.fails, rows.value, stale)
      ensures Settled(Now(), setup)
      ensures kept == old(kept)
    {
      stale := [];
      if rows.None? { return; }
      DesiredOk(rows.value);
      hide Inv, Settled, ItemsOk, ConvergeAll, DropStale, Desired, UnregisterEntry, ConvergeOne, ConfigHash, Body;
      var desired := BuildDesired(rows.value);
      var wanted: set<string> := set i | 0 <= i < |desired| :: desired[i].key;
      assert wanted == KeysOf(desired);
      var drop := Enumerate(entries.Keys - wanted);
      StaleKeys(drop, Now(), desired);
      hide IsStale, Elements, KeysOf;
      stale := drop;
      DropStaleEntries(drop);
      ConvergeEntries(desired);
    }
  }

  /** The dict comprehension over the fetched rows. */
  method BuildDesired(rows: seq<Provider>) returns (desired: seq<Item>)
    ensures desired == Desired(rows)
  {
    desired := [];
    var n := 0;
    while n < |rows|
      invariant 0 <= n <= |rows|
      invariant desired == Desired(rows[..n])
    {
      assert rows[..n + 1][..n] == rows[..n] && rows[..n + 1][n] == rows[n];
      desired := Put(desired, Item(Key(rows[n]), rows[n]), ItemKey);
      n := n + 1;
    }
    assert rows[..n] == rows;
  }
}
