module SchedulerRows {
  // What a pass makes of the fetched rows: which are registered, and what becomes of them when calls fail.

  import opened Common
  import Json
  import opened Canonical
  import opened ConfigDigest
  import Envelope
  import opened SchedulerOps

  // ---- from rows to registrations ----------------------------------------------------

  predicate TenantsPlain(rows: seq<Provider>) { forall i | 0 <= i < |rows| :: ':' !in rows[i].tenantId }

  predicate SamePair(a: Provider, b: Provider) { a.tenantId == b.tenantId && a.name == b.name }

  /** Row `i` is the last of its tenant and name. */
  predicate IsLast(rows: seq<Provider>, i: nat) {
    i < |rows| && forall j | i < j < |rows| :: !SamePair(rows[j], rows[i])
  }

  function Pairs(rows: seq<Provider>): set<(string, string)> {
    set i | 0 <= i < |rows| :: (rows[i].tenantId, rows[i].name)
  }

  lemma KeyExact(a: Provider, b: Provider)
    requires ':' !in a.tenantId && ':' !in b.tenantId
    ensures Key(a) == Key(b) <==> SamePair(a, b)
  {
    if Key(a) == Key(b) { SplitFirst(a.tenantId, a.name, b.tenantId, b.name, ':'); }
  }

  /** Putting an item replaces the one of its key, or adds one. */
  lemma {:induction false} PutItemMembers(d: seq<Item>, i: Item)
    requires ItemsOk(d)
    ensures (var e := Put(d, i, ItemKey);
             && (forall x :: x in e <==> x == i || (x in d && x.key != i.key))
             && |e| == |d| + if i.key in KeysOf(d) then 0 else 1)
  {
    if d != [] {
      ItemsTail(d);
      assert d == [d[0]] + d[1..];
      forall x | x in d[1..] ensures x.key in KeysOf(d[1..]) { var j :| 0 <= j < |d[1..]| && d[1..][j] == x; }
      hide ItemsOk, KeysOf;
      if d[0].key != i.key { PutItemMembers(d[1..], i) by { TailItemsOk(d); } }
    }
  }

  lemma TailItemsOk(d: seq<Item>)
    requires ItemsOk(d) && d != []
    ensures ItemsOk(d[1..])
  {
    ItemsTail(d);
  }

  /** The desired table, row by row: the last row of every tenant and name is the provider of one item, no other
      item has that tenant and name, and there are no more items than such pairs. */
  lemma {:induction false} DesiredIsLastRows(rows: seq<Provider>)
    requires RowsOk(rows) && TenantsPlain(rows)
    ensures (var d := Desired(rows);
             && |d| == |Pairs(rows)|
             && (forall x | x in d :: x.key == Key(x.p) && x.p in rows)
             && (forall i | 0 <= i < |rows| && IsLast(rows, i) :: Item(Key(rows[i]), rows[i]) in d)
             && (forall i, x | 0 <= i < |rows| && IsLast(rows, i) && x in d && SamePair(x.p, rows[i]) ::
                   x.p == rows[i]))
  {
    var d := Desired(rows);
    DesiredOk(rows);
    if rows != [] {
      var n := |rows| - 1;
      var before, b := rows[..n], Desired(rows[..n]);
      assert rows == before + [rows[n]];
      DesiredIsLastRows(before);
      DesiredOk(before);
      var added := Item(Key(rows[n]), rows[n]);
      PutItemMembers(b, added);
      hide Put, ItemsOk;
      forall i | 0 <= i < |rows| && IsLast(rows, i) ensures Item(Key(rows[i]), rows[i]) in d {
        if i < n {
          assert before[i] == rows[i] && IsLast(before, i);
          KeyExact(rows[i], rows[n]);
        }
      }
      NewPair(before, rows[n]);
    }
    LastIsUnique(rows, d);
  }

  /** A row adds to the pairs exactly when it adds a key. */
  lemma NewPair(rows: seq<Provider>, p: Provider)
    requires TenantsPlain(rows) && ':' !in p.tenantId
    ensures Key(p) in (set i | 0 <= i < |rows| :: Key(rows[i])) <==> (p.tenantId, p.name) in Pairs(rows)
    ensures Pairs(rows + [p]) == Pairs(rows) + {(p.tenantId, p.name)}
  {
    forall i | 0 <= i < |rows| ensures Key(rows[i]) == Key(p) <==> SamePair(rows[i], p) { KeyExact(rows[i], p); }
    var more := rows + [p];
    assert forall i | 0 <= i < |rows| :: more[i] == rows[i];
    assert more[|rows|] == p;
  }

  lemma LastIsUnique(rows: seq<Provider>, d: seq<Item>)
    requires TenantsPlain(rows) && ItemsOk(d) && forall x | x in d :: x.key == Key(x.p) && x.p in rows
    requires forall i | 0 <= i < |rows| && IsLast(rows, i) :: Item(Key(rows[i]), rows[i]) in d
    ensures forall i, x | 0 <= i < |rows| && IsLast(rows, i) && x in d && SamePair(x.p, rows[i]) :: x.p == rows[i]
  {
    forall i, x | 0 <= i < |rows| && IsLast(rows, i) && x in d && SamePair(x.p, rows[i]) ensures x.p == rows[i] {
      var y := Item(Key(rows[i]), rows[i]);
      assert y in d && x.key == y.key;
      var j :| 0 <= j < |d| && d[j] == x;
      var k :| 0 <= k < |d| && d[k] == y;
    }
  }

  /** What a live registration says: its schedule, type and queue, and, decoded, tenant, name and config. */
  ghost predicate Runs(c: Setup, r: Registration, cronspec: string, p: Provider) {
    && r.cronspec == cronspec && r.taskType == c.taskType && r.queue == c.queue
    && RegisteredFor(c, r, p.tenantId, p.name)
    && exists text, v ::
         && Envelope.Lookup(Envelope.Unwrap(c.env, r.body).value.payload, "config") == Some(Json.Str(text))
         && Json.Loads(text) == Some(v) && Meaning(v) == Meaning(p.config)
  }

  /** No live body names a tenant with a colon. */
  ghost predicate BodiesPlain(c: Setup, live: map<nat, Registration>) {
    forall id | id in live && Envelope.Unwrap(c.env, live[id].body).Ok? ::
      ':' !in Envelope.Unwrap(c.env, live[id].body).value.tenantId
  }

  lemma RegisterPlain(s: Sched, c: Setup, f: Faults, i: Item, cronspec: string)
    requires BodiesPlain(c, s.live) && ItemOk(i) && ':' !in i.p.tenantId
    ensures BodiesPlain(c, Register(s, c, f, i, cronspec).live)
  {
    if Body(c, i.p).Ok? { BodyDecodes(c, i.p); }
    hide Body, BuildPayload, ConfigHash, Envelope.Unwrap, Json.Loads, Json.Print, Meaning;
  }

  lemma ConvergeOnePlain(s: Sched, c: Setup, f: Faults, i: Item)
    requires BodiesPlain(c, s.live) && ItemOk(i) && ':' !in i.p.tenantId
    ensures BodiesPlain(c, ConvergeOne(s, c, f, i).live)
  {
    hide BuildPayload, ConfigHash, Envelope.Unwrap, Register, ItemOk;
    match c.deriveCron(i.p)
    case None =>
    case Some(cronspec) =>
      RegisterPlain(s, c, f, i, cronspec);
      if i.key in s.entries { RegisterPlain(UnregisterEntry(s, f, i.key).0, c, f, i, cronspec); }
  }

  lemma {:induction false} ConvergeAllPlain(s: Sched, c: Setup, f: Faults, items: seq<Item>)
    requires BodiesPlain(c, s.live) && forall j | 0 <= j < |items| :: ItemOk(items[j]) && ':' !in items[j].p.tenantId
    ensures BodiesPlain(c, ConvergeAll(s, c, f, items).live)
    decreases items
  {
    hide ConvergeOne, BodiesPlain, ItemOk;
    if items != [] {
      ConvergeOnePlain(s, c, f, items[0]);
      ConvergeAllPlain(ConvergeOne(s, c, f, items[0]), c, f, items[1..]);
    }
  }

  lemma {:induction false} DropStalePlain(s: Sched, c: Setup, f: Faults, stale: seq<string>)
    requires BodiesPlain(c, s.live)
    ensures BodiesPlain(c, DropStale(s, f, stale).live)
    decreases stale
  {
    hide Envelope.Unwrap;
    if stale != [] {
      if stale[0] in s.entries {
        DropStalePlain(UnregisterEntry(s, f, stale[0]).0, c, f, stale[1..]);
      } else {
        DropStalePlain(s, c, f, stale[1..]);
      }
    }
  }

  /** Passes over rows whose tenants have no colon keep it that way, whatever fails. */
  lemma ReconcilePlain(s: Sched, c: Setup, f: Faults, rows: seq<Provider>, stale: seq<string>)
    requires BodiesPlain(c, s.live) && RowsOk(rows) && TenantsPlain(rows)
    ensures BodiesPlain(c, Reconcile(s, c, f, rows, stale).live)
  {
    DesiredIsLastRows(rows);
    DesiredOk(rows);
    var items := Desired(rows);
    assert forall j | 0 <= j < |items| :: items[j] in items;
    hide Desired, BodiesPlain, DropStale, ConvergeAll;
    DropStalePlain(s, c, f, stale);
    ConvergeAllPlain(DropStale(s, f, stale), c, f, items);
  }

  /** An entry with a row's current hash runs that row. */
  lemma TargetRuns(s: Sched, c: Setup, p: Provider, cronspec: string)
    requires Inv(s, c) && BodiesPlain(c, s.live) && Json.Wf(p.config) && ':' !in p.tenantId
    requires Key(p) in s.entries && s.entries[Key(p)].hash == ConfigHash(cronspec, p.config)
    ensures (var e := s.entries[Key(p)]; e.entryId in s.live && Runs(c, s.live[e.entryId], cronspec, p))
  {
    hide ConfigHash, Body, BuildPayload, Envelope.Unwrap, Envelope.Lookup, Json.Loads, Json.Print, Meaning, Sort;
    var k := Key(p);
    var e := s.entries[k];
    var r := s.live[e.entryId];
    assert Made(c, k, e, r);
    var q :| Matches(c, k, e, r, q);
    hide Inv;
    HashExact(cronspec, p.config, e.cronspec, q.config);
    BodyDecodes(c, q);
    KeyExact(p, q);
    assert Runs(c, r, cronspec, p) by {
      var text := Json.Print(Sort(q.config), Json.SPACED);
      assert Json.Loads(text) == Some(Sort(q.config));
    }
  }

  /** After one fault-free pass every row that is the last of its tenant and name, whose cron spec derives and
      whose body builds, has a live registration: on that schedule, for the set-up type and queue, with a body
      that decodes to that tenant, that provider name and an equal config. */
  lemma RowsRegistered(s: Sched, c: Setup, rows: seq<Provider>, stale: seq<string>, i: nat)
    requires Settled(s, c) && BodiesPlain(c, s.live) && RowsOk(rows) && TenantsPlain(rows)
    requires IsStale(stale, s, Desired(rows)) && IsLast(rows, i)
    requires c.deriveCron(rows[i]).Some? && Body(c, rows[i]).Ok?
    ensures (var t := Reconcile(s, c, NoFaults(), rows, stale);
             exists id :: id in t.live && Runs(c, t.live[id], c.deriveCron(rows[i]).value, rows[i]))
  {
    var t := Reconcile(s, c, NoFaults(), rows, stale);
    DesiredIsLastRows(rows);
    ReconcileConverges(s, c, rows, stale);
    ReconcileKeeps(s, c, NoFaults(), rows, stale);
    ReconcilePlain(s, c, NoFaults(), rows, stale);
    var items := Desired(rows);
    var j :| 0 <= j < |items| && items[j] == Item(Key(rows[i]), rows[i]);
    assert Hit(s.entries, t.entries, c, items[j]);
    assert AtTarget(t.entries, c, items[j]);
    hide Reconcile, Desired, Body, ConfigHash, Inv, Runs, BodiesPlain, IsStale;
    TargetRuns(t, c, rows[i], c.deriveCron(rows[i]).value);
    assert t.entries[Key(rows[i])].entryId in t.live;
  }

  /** And nothing else is live: what a live body names is the tenant and name of a row. */
  lemma RegisteredAreRows(s: Sched, c: Setup, rows: seq<Provider>, stale: seq<string>,
      id: nat, tenantId: string, name: string)
    requires Settled(s, c) && BodiesPlain(c, s.live) && RowsOk(rows) && TenantsPlain(rows)
    requires IsStale(stale, s, Desired(rows))
    requires (var t := Reconcile(s, c, NoFaults(), rows, stale);
              id in t.live && RegisteredFor(c, t.live[id], tenantId, name))
    ensures exists i :: 0 <= i < |rows| && rows[i].tenantId == tenantId && rows[i].name == name
  {
    hide Reconcile, Desired, IsStale, Hit, Envelope.Unwrap, Envelope.Lookup, Body, ConfigHash, Json.Wf;
    var t := Reconcile(s, c, NoFaults(), rows, stale);
    ReconcileConverges(s, c, rows, stale);
    ReconcileKeeps(s, c, NoFaults(), rows, stale);
    ReconcilePlain(s, c, NoFaults(), rows, stale);
    DesiredOk(rows);
    var k := OwnerKey(t, c, id, tenantId, name);
    assert k in KeysOf(Desired(rows));
    var i :| 0 <= i < |rows| && Key(rows[i]) == k;
    KeyExact(rows[i], Provider(tenantId, name, Json.Null));
  }

  // ---- faults stay where they happen -------------------------------------------------

  /** Every stale entry gets exactly one unregister call, whatever became of the ones before it, and is gone unless
      that call raised. */
  lemma {:induction false} StaleFaultsAreLocal(s: Sched, f: Faults, stale: seq<string>)
    requires forall i | 0 <= i < |stale| :: stale[i] in s.entries
    requires forall i, j | 0 <= i < j < |stale| :: stale[i] != stale[j]
    ensures (var t := DropStale(s, f, stale);
             && t.calls == s.calls + |stale|
             && (forall i | 0 <= i < |stale| :: stale[i] in t.entries <==> f(s.calls + i))
             && forall k :: k !in stale ==> SameAt(t.entries, s.entries, k))
    decreases stale
  {
    if stale != [] {
      var s1 := UnregisterEntry(s, f, stale[0]).0;
      var rest := stale[1..];
      assert stale == [stale[0]] + rest;
      assert forall i | 0 <= i < |rest| :: rest[i] == stale[i + 1];
      StaleFaultsAreLocal(s1, f, rest);
      var t := DropStale(s1, f, rest);
      assert t == DropStale(s, f, stale);
      assert stale[0] !in rest;
      hide DropStale;
      forall i | 0 <= i < |stale| ensures stale[i] in t.entries <==> f(s.calls + i) {
        if i > 0 {
          assert rest[i - 1] == stale[i];
          assert s1.calls + (i - 1) == s.calls + i;
        }
      }
    }
  }

  lemma ConvergeOneElsewhere(s: Sched, c: Setup, f: Faults, i: Item)
    ensures ConvergeOne(s, c, f, i).entries - {i.key} == s.entries - {i.key}
  {
    hide ConfigHash, Body, BuildPayload;
  }

  lemma {:induction false} ConvergeAllElsewhere(s: Sched, c: Setup, f: Faults, items: seq<Item>, k: string)
    requires k !in KeysOf(items)
    ensures SameAt(ConvergeAll(s, c, f, items).entries, s.entries, k)
    decreases items
  {
    hide ConvergeOne, SameAt;
    if items == [] {
      SameSelf(s.entries, k);
    } else {
      KeysOfCons(items);
      var s1 := ConvergeOne(s, c, f, items[0]);
      ConvergeOneElsewhere(s, c, f, items[0]);
      SameOutside(s1.entries, s.entries, items[0].key, k);
      ConvergeAllElsewhere(s1, c, f, items[1..], k);
      SameTwice(ConvergeAll(s1, c, f, items[1..]).entries, s1.entries, s.entries, k);
    }
  }

  lemma SameSelf(a: map<string, Entry>, k: string)
    ensures SameAt(a, a, k)
  {}

  /** The pass did for item `i` what `ConvergeOne` does, from a state where its entry was as it began. */
  ghost predicate OwnTurn(s: Sched, c: Setup, f: Faults, i: Item, t: Sched) {
    exists u: Sched :: SameAt(u.entries, s.entries, i.key) && SameAt(t.entries, ConvergeOne(u, c, f, i).entries, i.key)
  }

  /** Every desired row gets its own turn, whatever failed in the rows before it, and no later row undoes it. */
  lemma {:induction false} FaultsAreLocal(s: Sched, c: Setup, f: Faults, items: seq<Item>, j: nat)
    requires ItemsOk(items) && j < |items|
    ensures OwnTurn(s, c, f, items[j], ConvergeAll(s, c, f, items))
    decreases items
  {
    hide ConvergeOne, SameAt;
    ItemsTail(items);
    var i := items[j];
    var s1 := ConvergeOne(s, c, f, items[0]);
    var t := ConvergeAll(s1, c, f, items[1..]);
    assert t == ConvergeAll(s, c, f, items);
    if j == 0 {
      ConvergeAllElsewhere(s1, c, f, items[1..], i.key);
      SameSelf(s.entries, i.key);
    } else {
      assert items[1..][j - 1] == i && i.key != items[0].key;
      FaultsAreLocal(s1, c, f, items[1..], j - 1);
      hide ConvergeAll, ItemsOk;
      var u: Sched :| SameAt(u.entries, s1.entries, i.key) && SameAt(t.entries, ConvergeOne(u, c, f, i).entries, i.key);
      ConvergeOneElsewhere(s, c, f, items[0]);
      SameOutside(s1.entries, s.entries, items[0].key, i.key);
      SameTwice(u.entries, s1.entries, s.entries, i.key);
    }
  }

  // ---- the immediate enqueue -----------------------------------------------------------

  /** A job carries what the registered body of its provider carries. */
  ghost predicate JobFor(c: Setup, j: Job, p: Provider) {
    && j.taskType == c.taskType && j.queue == c.queue && j.tenantId == p.tenantId
    && Envelope.Lookup(j.payload, "provider_name") == Some(Json.Str(p.name))
    && Body(c, p).Ok? && Envelope.Unwrap(c.env, Body(c, p).value)
         == Ok(Envelope.Envelope.Envelope(1, p.tenantId, "", j.payload))
  }

  ghost predicate JobForSome(c: Setup, j: Job, items: seq<Item>) {
    exists i :: 0 <= i < |items| && JobFor(c, j, items[i].p)
  }

  ghost predicate NewJobs(c: Setup, before: seq<Job>, now: seq<Job>, items: seq<Item>) {
    before <= now && forall n | |before| <= n < |now| :: JobForSome(c, now[n], items)
  }

  predicate JobsFor(c: Setup, before: seq<Job>, now: seq<Job>, p: Provider) {
    now == before || (Body(c, p).Ok? && now == before + [Job(c.taskType, p.tenantId, BuildPayload(p), c.queue)])
  }

  lemma RegisterJobs(s: Sched, c: Setup, f: Faults, i: Item, cronspec: string)
    ensures JobsFor(c, s.enqueued, Register(s, c, f, i, cronspec).enqueued, i.p)
  {
    hide Body, BuildPayload, ConfigHash;
  }

  lemma TurnJobs(s: Sched, c: Setup, f: Faults, i: Item)
    ensures JobsFor(c, s.enqueued, ConvergeOne(s, c, f, i).enqueued, i.p)
  {
    hide Body, BuildPayload, ConfigHash, Register;
    match c.deriveCron(i.p)
    case None =>
    case Some(cronspec) =>
      RegisterJobs(s, c, f, i, cronspec);
      if i.key in s.entries { RegisterJobs(UnregisterEntry(s, f, i.key).0, c, f, i, cronspec); }
  }

  lemma ConvergeOneJobs(s: Sched, c: Setup, f: Faults, i: Item)
    requires ItemOk(i)
    ensures (var t := ConvergeOne(s, c, f, i);
             s.enqueued <= t.enqueued && forall n | |s.enqueued| <= n < |t.enqueued| :: JobFor(c, t.enqueued[n], i.p))
  {
    hide Body, BuildPayload, ConfigHash, ConvergeOne, Envelope.Unwrap, Json.Loads, Json.Print, Meaning, Envelope.Lookup;
    TurnJobs(s, c, f, i);
    if Body(c, i.p).Ok? { BodyDecodes(c, i.p); }
  }

  lemma {:induction false} ConvergeAllJobs(s: Sched, c: Setup, f: Faults, items: seq<Item>)
    requires forall j | 0 <= j < |items| :: ItemOk(items[j])
    ensures NewJobs(c, s.enqueued, ConvergeAll(s, c, f, items).enqueued, items)
    decreases items
  {
    hide ConvergeOne, JobFor, ItemOk;
    if items != [] {
      var s1 := ConvergeOne(s, c, f, items[0]);
      var t := ConvergeAll(s1, c, f, items[1..]);
      ConvergeOneJobs(s, c, f, items[0]);
      ConvergeAllJobs(s1, c, f, items[1..]);
      assert t == ConvergeAll(s, c, f, items);
      hide ConvergeAll;
      forall n | |s.enqueued| <= n < |t.enqueued| ensures JobForSome(c, t.enqueued[n], items) {
        if n < |s1.enqueued| {
          assert JobFor(c, t.enqueued[n], items[0].p);
        } else {
          assert JobForSome(c, t.enqueued[n], items[1..]);
          var i :| 0 <= i < |items[1..]| && JobFor(c, t.enqueued[n], items[1..][i].p);
          assert items[i + 1] == items[1..][i];
        }
      }
    }
  }

  lemma {:induction false} DropStaleJobs(s: Sched, f: Faults, stale: seq<string>)
    ensures DropStale(s, f, stale).enqueued == s.enqueued
    decreases stale
  {
    if stale != [] {
      if stale[0] in s.entries {
        DropStaleJobs(UnregisterEntry(s, f, stale[0]).0, f, stale[1..]);
      } else {
        DropStaleJobs(s, f, stale[1..]);
      }
    }
  }

  /** Whatever fails, every job a pass enqueues is of the set-up type and queue and carries the tenant and the very
      payload that a registered body of some desired row carries. */
  lemma JobsAreForRows(s: Sched, c: Setup, f: Faults, rows: seq<Provider>, stale: seq<string>)
    requires RowsOk(rows)
    ensures NewJobs(c, s.enqueued, Reconcile(s, c, f, rows, stale).enqueued, Desired(rows))
  {
    DesiredOk(rows);
    DropStaleJobs(s, f, stale);
    ConvergeAllJobs(DropStale(s, f, stale), c, f, Desired(rows));
    hide NewJobs;
  }

  /** Jobs enqueued and registrations made, as far as they have come apart since `s`. */
  predicate InStep(s: Sched, t: Sched, c: Setup) {
    |t.enqueued| - |s.enqueued| == if c.enqueues then t.registered - s.registered else 0
  }

  lemma ConvergeOneInStep(s: Sched, c: Setup, i: Item)
    ensures InStep(s, ConvergeOne(s, c, NoFaults(), i), c)
  {
    hide ConfigHash, Body, BuildPayload;
  }

  lemma {:induction false} ConvergeAllInStep(s: Sched, c: Setup, items: seq<Item>)
    ensures InStep(s, ConvergeAll(s, c, NoFaults(), items), c)
    decreases items
  {
    hide ConvergeOne;
    if items != [] {
      ConvergeOneInStep(s, c, items[0]);
      ConvergeAllInStep(ConvergeOne(s, c, NoFaults(), items[0]), c, items[1..]);
    }
  }

  lemma {:induction false} DropStaleRegisters(s: Sched, f: Faults, stale: seq<string>)
    ensures DropStale(s, f, stale).registered == s.registered
    decreases stale
  {
    if stale != [] {
      if stale[0] in s.entries {
        DropStaleRegisters(UnregisterEntry(s, f, stale[0]).0, f, stale[1..]);
      } else {
        DropStaleRegisters(s, f, stale[1..]);
      }
    }
  }

  /** A fault-free pass enqueues one job for every registration it makes, if there is an enqueuer, and none without. */
  lemma OneJobPerRegistration(s: Sched, c: Setup, rows: seq<Provider>, stale: seq<string>)
    ensures (var t := Reconcile(s, c, NoFaults(), rows, stale);
             |t.enqueued| == |s.enqueued| + if c.enqueues then t.registered - s.registered else 0)
  {
    DropStaleRegisters(s, NoFaults(), stale);
    DropStaleJobs(s, NoFaults(), stale);
    hide DropStale, ConvergeAll, Desired;
    ConvergeAllInStep(DropStale(s, NoFaults(), stale), c, Desired(rows));
  }
}
