/** The cron reconciler's decisions, on values: its entry table, the backend it drives, and the faults the
    backend may raise at any call. */
module SchedulerOps {
  import opened Common
  import Json
  import JsonText
  import opened Canonical
  import opened ConfigDigest
  import Envelope

  datatype Provider = Provider(tenantId: string, name: string, config: Json.Json)

  datatype Entry = Entry(entryId: nat, hash: Digest, cronspec: string)

  datatype Registration = Registration(cronspec: string, taskType: string, body: string, queue: string)

  datatype Job = Job(taskType: string, tenantId: string, payload: seq<Json.Field>, queue: string)

  /** What a `Scheduler` is constructed with. */
  datatype Setup = Setup(queue: string, taskType: string, deriveCron: Provider -> Option<string>,
                         env: Envelope.Env, enqueues: bool)

  /** `_entries`, the backend's live registrations, and the tally of calls made so far. The backend may raise at any
      call; one that raises has had no effect. */
  datatype Sched = Sched(
    entries: map<string, Entry>,
    live: map<nat, Registration>, nextId: nat,
    calls: nat, registered: nat, unregistered: nat, enqueueTries: nat, enqueued: seq<Job>)

  function Key(p: Provider): string { p.tenantId + ":" + p.name }

  /** `_build_payload` */
  function BuildPayload(p: Provider): seq<Json.Field> {
    [Json.Field("provider_name", Json.Str(p.name)),
     Json.Field("config", Json.Str(Json.Print(Sort(p.config), Json.SPACED)))]
  }

  function Body(c: Setup, p: Provider): Result<string, Envelope.Error> {
    Envelope.Wrap(c.env, p.tenantId, BuildPayload(p), "")
  }

  datatype Item = Item(key: string, p: Provider)

  function ItemKey(i: Item): string { i.key }

  /** `{_key(r): r for r in rows}` */
  function Desired(rows: seq<Provider>): seq<Item> {
    if rows == [] then []
    else Put(Desired(rows[..|rows| - 1]), Item(Key(rows[|rows| - 1]), rows[|rows| - 1]), ItemKey)
  }

  function KeysOf(items: seq<Item>): set<string> { set i | 0 <= i < |items| :: items[i].key }

  // ---- one backend call at a time -----------------------------------------------

  /** `backend.unregister` and, when it returns, `del self._entries[k]`. */
  function UnregisterEntry(s: Sched, f: Faults, k: string): (Sched, bool)
    requires k in s.entries
  {
    if f(s.calls) then (s.(calls := s.calls + 1), false)
    else (s.(calls := s.calls + 1, live := s.live - {s.entries[k].entryId}, unregistered := s.unregistered + 1,
             entries := s.entries - {k}), true)
  }

  /** `_register_one` and, when it returns, the new `_RegisteredEntry`; an envelope that fails to build
      makes no call. */
  function RegisterEntry(s: Sched, c: Setup, f: Faults, i: Item, cronspec: string): (Sched, bool) {
    match Body(c, i.p)
    case Err(_) => (s, false)
    case Ok(body) =>
      if f(s.calls) then (s.(calls := s.calls + 1), false)
      else (s.(calls := s.calls + 1, registered := s.registered + 1, nextId := s.nextId + 1,
               live := s.live[s.nextId := Registration(cronspec, c.taskType, body, c.queue)],
               entries := s.entries[i.key := Entry(s.nextId, ConfigHash(cronspec, i.p.config), cronspec)]), true)
  }

  /** The immediate enqueue after a registration; its failure is only logged. */
  function EnqueueNow(s: Sched, c: Setup, f: Faults, p: Provider): Sched {
    if !c.enqueues then s
    else
      var s1 := s.(calls := s.calls + 1, enqueueTries := s.enqueueTries + 1);
      if f(s.calls) then s1
      else s1.(enqueued := s.enqueued + [Job(c.taskType, p.tenantId, BuildPayload(p), c.queue)])
  }

  // ---- the two loops -------------------------------------------------------------

  function DropStale(s: Sched, f: Faults, stale: seq<string>): Sched
    decreases stale
  {
    if stale == [] then s
    else if stale[0] !in s.entries then DropStale(s, f, stale[1..])
    else DropStale(UnregisterEntry(s, f, stale[0]).0, f, stale[1..])
  }

  function Register(s: Sched, c: Setup, f: Faults, i: Item, cronspec: string): Sched {
    var (s1, ok) := RegisterEntry(s, c, f, i, cronspec);
    if ok then EnqueueNow(s1, c, f, i.p) else s1
  }

  function ConvergeOne(s: Sched, c: Setup, f: Faults, i: Item): Sched {
    match c.deriveCron(i.p)
    case None => s
    case Some(cronspec) =>
      if i.key in s.entries then
        if s.entries[i.key].hash == ConfigHash(cronspec, i.p.config) then s
        else
          var (s1, ok) := UnregisterEntry(s, f, i.key);
          if ok then Register(s1, c, f, i, cronspec) else s1
      else Register(s, c, f, i, cronspec)
  }

  function ConvergeAll(s: Sched, c: Setup, f: Faults, items: seq<Item>): Sched
    decreases items
  {
    if items == [] then s else ConvergeAll(ConvergeOne(s, c, f, items[0]), c, f, items[1..])
  }

  /** The entries to drop, in whatever order the entry table is iterated. */
  ghost predicate IsStale(stale: seq<string>, s: Sched, items: seq<Item>) {
    && (forall k :: k in stale <==> k in s.entries && k !in KeysOf(items))
    && (forall i, j | 0 <= i < j < |stale| :: stale[i] != stale[j])
  }

  /** `_reconcile` on fetched rows. */
  function Reconcile(s: Sched, c: Setup, f: Faults, rows: seq<Provider>, stale: seq<string>): Sched {
    ConvergeAll(DropStale(s, f, stale), c, f, Desired(rows))
  }

  // ---- the invariant ---------------------------------------------------------------

  /** An entry and its live registration agree: both were made from one provider of that key. */
  ghost predicate Matches(c: Setup, k: string, e: Entry, r: Registration, p: Provider) {
    && Key(p) == k && Json.Wf(p.config) && c.deriveCron(p) == Some(e.cronspec)
    && e.hash == ConfigHash(e.cronspec, p.config)
    && Body(c, p).Ok? && r == Registration(e.cronspec, c.taskType, Body(c, p).value, c.queue)
  }

  ghost predicate Made(c: Setup, k: string, e: Entry, r: Registration) { exists p :: Matches(c, k, e, r, p) }

  ghost predicate Owned(entries: map<string, Entry>, id: nat) { exists k :: k in entries && entries[k].entryId == id }

  lemma OwnedJoin(entries: map<string, Entry>, k: string, e: Entry, id: nat)
    requires k !in entries && (Owned(entries, id) || id == e.entryId)
    ensures Owned(entries[k := e], id)
  {
    var t := entries[k := e];
    if id == e.entryId {
      assert k in t && t[k].entryId == id;
    } else {
      var m :| m in entries && entries[m].entryId == id;
      assert m in t && t[m].entryId == id;
    }
  }

  lemma OwnedDrop(entries: map<string, Entry>, k: string, id: nat)
    requires k in entries && Owned(entries, id) && id != entries[k].entryId
    ensures Owned(entries - {k}, id)
  {
    var m :| m in entries && entries[m].entryId == id;
    assert m in entries - {k};
  }

  /** Each entry's id is live, under a registration made from the entry's own key. */
  ghost predicate Backed(c: Setup, entries: map<string, Entry>, live: map<nat, Registration>) {
    forall k | k in entries :: entries[k].entryId in live && Made(c, k, entries[k], live[entries[k].entryId])
  }

  ghost predicate UniqueIds(entries: map<string, Entry>) {
    forall k, m | k in entries && m in entries && entries[k].entryId == entries[m].entryId :: k == m
  }

  ghost predicate AllOwned(entries: map<string, Entry>, live: map<nat, Registration>, nextId: nat) {
    forall id | id in live :: id < nextId && Owned(entries, id)
  }

  /** Live registrations correspond one to one with entries, each made from its own key's provider; ids
      are never reused; the tallies balance. */
  ghost predicate Inv(s: Sched, c: Setup) {
    && Backed(c, s.entries, s.live) && UniqueIds(s.entries) && AllOwned(s.entries, s.live, s.nextId)
    && s.registered == s.unregistered + |s.entries|
  }

  /** One enqueue attempt per successful registration. */
  ghost predicate Settled(s: Sched, c: Setup) {
    Inv(s, c) && s.enqueueTries == if c.enqueues then s.registered else 0
  }

  predicate ItemOk(i: Item) { i.key == Key(i.p) && Json.Wf(i.p.config) }

  predicate ItemsOk(items: seq<Item>) {
    && (forall i | 0 <= i < |items| :: ItemOk(items[i]))
    && (forall i, j | 0 <= i < j < |items| :: items[i].key != items[j].key)
  }

  lemma UnregisterKeeps(s: Sched, c: Setup, f: Faults, k: string)
    requires Inv(s, c) && k in s.entries
    ensures Inv(UnregisterEntry(s, f, k).0, c)
  {
    hide Made, Owned;
    var (s1, ok) := UnregisterEntry(s, f, k);
    if ok {
      assert s1.entries.Keys == s.entries.Keys - {k};
      assert |s1.entries.Keys| == |s.entries.Keys| - 1;
      forall id | id in s1.live ensures Owned(s1.entries, id) { OwnedDrop(s.entries, k, id); }
    }
  }

  /** A fresh id joins the backend and the entry table together. */
  lemma JoinKeeps(s: Sched, c: Setup, k: string, e: Entry, r: Registration, t: Sched)
    requires Inv(s, c) && k !in s.entries && e.entryId == s.nextId && Made(c, k, e, r)
    requires t.entries == s.entries[k := e] && t.live == s.live[s.nextId := r] && t.nextId == s.nextId + 1
    requires t.registered == s.registered + 1 && t.unregistered == s.unregistered
    ensures Inv(t, c)
  {
    JoinBacked(c, s.entries, s.live, k, e, r, s.nextId);
    GrowsByOne(s.entries, k, e);
    hide Backed, UniqueIds, AllOwned;
  }

  lemma GrowsByOne(entries: map<string, Entry>, k: string, e: Entry)
    requires k !in entries
    ensures |entries[k := e]| == |entries| + 1
  {
    assert entries[k := e].Keys == entries.Keys + {k};
    assert |entries[k := e].Keys| == |entries.Keys| + 1;
  }

  lemma JoinBacked(c: Setup, entries: map<string, Entry>, live: map<nat, Registration>,
                   k: string, e: Entry, r: Registration, nextId: nat)
    requires Backed(c, entries, live) && AllOwned(entries, live, nextId) && UniqueIds(entries)
    requires k !in entries && e.entryId == nextId && Made(c, k, e, r)
    ensures Backed(c, entries[k := e], live[nextId := r])
    ensures AllOwned(entries[k := e], live[nextId := r], nextId + 1) && UniqueIds(entries[k := e])
  {
    hide Made, Owned;
    var entries1, live1 := entries[k := e], live[nextId := r];
    forall id | id in live1 ensures Owned(entries1, id) { OwnedJoin(entries, k, e, id); }
  }

  lemma RegisterEntryKeeps(s: Sched, c: Setup, f: Faults, i: Item, cronspec: string)
    requires Inv(s, c) && ItemOk(i) && i.key !in s.entries && c.deriveCron(i.p) == Some(cronspec)
    ensures Inv(RegisterEntry(s, c, f, i, cronspec).0, c)
  {
    if Body(c, i.p).Ok? {
      var e := Entry(s.nextId, ConfigHash(cronspec, i.p.config), cronspec);
      var r := Registration(cronspec, c.taskType, Body(c, i.p).value, c.queue);
      RegistrationMade(c, i, e, r);
      hide ConfigHash, Body, Made, ItemOk, Inv;
      var (s1, ok) := RegisterEntry(s, c, f, i, cronspec);
      if ok { JoinKeeps(s, c, i.key, e, r, s1); } else { CallKeeps(s, c, s1); }
    }
  }

  /** A call that raises changes nothing but the tally of calls. */
  lemma CallKeeps(s: Sched, c: Setup, t: Sched)
    requires Inv(s, c) && t.entries == s.entries && t.live == s.live && t.nextId == s.nextId
    requires t.registered == s.registered && t.unregistered == s.unregistered
    ensures Inv(t, c)
  {
    hide Made, Owned;
  }

  lemma RegistrationMade(c: Setup, i: Item, e: Entry, r: Registration)
    requires ItemOk(i) && c.deriveCron(i.p) == Some(e.cronspec) && Body(c, i.p).Ok?
    requires e.hash == ConfigHash(e.cronspec, i.p.config)
    requires r == Registration(e.cronspec, c.taskType, Body(c, i.p).value, c.queue)
    ensures Made(c, i.key, e, r)
  {
    assert Matches(c, i.key, e, r, i.p);
  }

  lemma EnqueueKeeps(s: Sched, c: Setup, f: Faults, p: Provider)
    requires Inv(s, c)
    ensures Inv(EnqueueNow(s, c, f, p), c)
    ensures (var t := EnqueueNow(s, c, f, p);
             t.registered == s.registered && t.enqueueTries == s.enqueueTries + if c.enqueues then 1 else 0)
  {
    hide Inv, BuildPayload;
    CallKeeps(s, c, EnqueueNow(s, c, f, p));
  }

  lemma RegisterTries(s: Sched, c: Setup, f: Faults, i: Item, cronspec: string)
    ensures (var (t, ok) := RegisterEntry(s, c, f, i, cronspec);
             t.enqueueTries == s.enqueueTries && t.registered == s.registered + if ok then 1 else 0)
  {
    hide Body, ConfigHash;
  }

  lemma RegisterKeeps(s: Sched, c: Setup, f: Faults, i: Item, cronspec: string)
    requires Settled(s, c) && ItemOk(i) && i.key !in s.entries && c.deriveCron(i.p) == Some(cronspec)
    ensures Settled(Register(s, c, f, i, cronspec), c)
  {
    RegisterEntryKeeps(s, c, f, i, cronspec);
    RegisterTries(s, c, f, i, cronspec);
    hide Inv, RegisterEntry, EnqueueNow, ItemOk;
    EnqueueKeeps(RegisterEntry(s, c, f, i, cronspec).0, c, f, i.p);
  }

  lemma ConvergeOneKeeps(s: Sched, c: Setup, f: Faults, i: Item)
    requires Settled(s, c) && ItemOk(i)
    ensures Settled(ConvergeOne(s, c, f, i), c)
  {
    if i.key in s.entries { UnregisterKeeps(s, c, f, i.key); }
    hide Inv, Register, ConfigHash;
    match c.deriveCron(i.p)
    case None =>
    case Some(cronspec) =>
      if i.key !in s.entries {
        RegisterKeeps(s, c, f, i, cronspec);
      } else if s.entries[i.key].hash != ConfigHash(cronspec, i.p.config) {
        var (s1, ok) := UnregisterEntry(s, f, i.key);
        if ok { RegisterKeeps(s1, c, f, i, cronspec); }
      }
  }

  lemma {:induction false} ConvergeAllKeeps(s: Sched, c: Setup, f: Faults, items: seq<Item>)
    requires Settled(s, c) && ItemsOk(items)
    ensures Settled(ConvergeAll(s, c, f, items), c)
    decreases items
  {
    if items != [] {
      ConvergeOneKeeps(s, c, f, items[0]);
      ConvergeAllKeeps(ConvergeOne(s, c, f, items[0]), c, f, items[1..]);
    }
  }

  lemma UnregisterSettled(s: Sched, c: Setup, f: Faults, k: string)
    requires Settled(s, c) && k in s.entries
    ensures (var t := UnregisterEntry(s, f, k).0;
             Settled(t, c) && Inv(t, c) && forall m | m in s.entries && m != k :: m in t.entries)
  {
    hide Inv;
    UnregisterKeeps(s, c, f, k);
  }

  lemma DropStep(s: Sched, f: Faults, stale: seq<string>)
    requires stale != [] && stale[0] in s.entries
    ensures DropStale(s, f, stale) == DropStale(UnregisterEntry(s, f, stale[0]).0, f, stale[1..])
  {
    hide UnregisterEntry;
  }

  lemma StaleKeys(stale: seq<string>, s: Sched, items: seq<Item>)
    requires Elements(stale) == s.entries.Keys - KeysOf(items)
    requires forall i, j | 0 <= i < j < |stale| :: stale[i] != stale[j]
    ensures IsStale(stale, s, items) && forall k | k in stale :: k in s.entries
  {
    assert forall k :: k in stale <==> k in Elements(stale);
  }

  lemma LoopsEnd(s: Sched, c: Setup, f: Faults)
    ensures DropStale(s, f, []) == s && ConvergeAll(s, c, f, []) == s
  {}

  lemma ConvergeStep(s: Sched, c: Setup, f: Faults, items: seq<Item>)
    requires items != []
    ensures ConvergeAll(s, c, f, items) == ConvergeAll(ConvergeOne(s, c, f, items[0]), c, f, items[1..])
  {}

  lemma {:induction false} DropStaleKeeps(s: Sched, c: Setup, f: Faults, stale: seq<string>)
    requires Settled(s, c)
    ensures Settled(DropStale(s, f, stale), c)
    decreases stale
  {
    if stale != [] {
      if stale[0] in s.entries {
        UnregisterKeeps(s, c, f, stale[0]);
        DropStaleKeeps(UnregisterEntry(s, f, stale[0]).0, c, f, stale[1..]);
      } else {
        DropStaleKeeps(s, c, f, stale[1..]);
      }
    }
  }

  // ---- the desired table ------------------------------------------------------------

  lemma ItemsCons(i: Item, d: seq<Item>)
    requires ItemsOk(d) && ItemOk(i) && i.key !in KeysOf(d)
    ensures ItemsOk([i] + d) && KeysOf([i] + d) == KeysOf(d) + {i.key}
  {
    hide ItemOk;
    var r := [i] + d;
    KeysOfCons(r);
    assert r[1..] == d;
    forall j | 0 <= j < |d| ensures d[j].key != i.key && r[j + 1] == d[j] { assert d[j].key in KeysOf(d); }
  }

  lemma ItemsTail(d: seq<Item>)
    requires ItemsOk(d) && d != []
    ensures ItemsOk(d[1..]) && d[0].key !in KeysOf(d[1..]) && KeysOf(d) == KeysOf(d[1..]) + {d[0].key}
  {
    hide ItemOk;
    KeysOfCons(d);
    assert forall j | 0 <= j < |d[1..]| :: d[1..][j] == d[j + 1];
  }

  lemma {:induction false} PutItemKeys(d: seq<Item>, i: Item)
    requires ItemsOk(d) && ItemOk(i)
    ensures ItemsOk(Put(d, i, ItemKey)) && KeysOf(Put(d, i, ItemKey)) == KeysOf(d) + {i.key}
  {
    if d == [] {
      ItemsCons(i, d);
      assert [i] + d == [i];
    } else {
      ItemsTail(d);
      assert ItemOk(d[0]);
      hide ItemOk, KeysOf, ItemsOk;
      if d[0].key == i.key {
        ItemsCons(i, d[1..]);
      } else {
        PutItemKeys(d[1..], i);
        ItemsCons(d[0], Put(d[1..], i, ItemKey));
      }
    }
  }

  lemma KeysOfCons(d: seq<Item>)
    requires d != []
    ensures KeysOf(d) == {d[0].key} + KeysOf(d[1..])
  {
    assert forall j | 0 <= j < |d[1..]| :: d[1..][j] == d[j + 1];
    forall k | k in KeysOf(d) ensures k in {d[0].key} + KeysOf(d[1..]) {
      var j :| 0 <= j < |d| && d[j].key == k;
      if j > 0 { assert d[1..][j - 1].key == k; }
    }
  }

  lemma {:induction false} DesiredOk(rows: seq<Provider>)
    requires forall i | 0 <= i < |rows| :: Json.Wf(rows[i].config)
    ensures ItemsOk(Desired(rows))
    ensures KeysOf(Desired(rows)) == set i | 0 <= i < |rows| :: Key(rows[i])
  {
    if rows != [] {
      var n := |rows| - 1;
      DesiredOk(rows[..n]);
      PutItemKeys(Desired(rows[..n]), Item(Key(rows[n]), rows[n]));
    }
  }

  predicate RowsOk(rows: seq<Provider>) { forall i | 0 <= i < |rows| :: Json.Wf(rows[i].config) }

  /** Every reconcile, whatever fails in it, keeps the correspondence and the tallies. */
  lemma ReconcileKeeps(s: Sched, c: Setup, f: Faults, rows: seq<Provider>, stale: seq<string>)
    requires Settled(s, c) && RowsOk(rows)
    ensures Settled(Reconcile(s, c, f, rows, stale), c)
  {
    DesiredOk(rows);
    DropStaleKeeps(s, c, f, stale);
    ConvergeAllKeeps(DropStale(s, f, stale), c, f, Desired(rows));
  }

  // ---- convergence -----------------------------------------------------------------

  /** What a reconcile aims at for one desired row: nothing when its cron spec cannot be derived, else an
      entry with the row's current hash. */
  predicate AtTarget(entries: map<string, Entry>, c: Setup, i: Item) {
    match c.deriveCron(i.p)
    case None => true
    case Some(cronspec) => i.key in entries && entries[i.key].hash == ConfigHash(cronspec, i.p.config)
  }

  /** What one fault-free pass can do for a row: bring it to its target, or, when no body can be built for it,
      leave it unregistered. */
  predicate Converged(entries: map<string, Entry>, c: Setup, i: Item) {
    AtTarget(entries, c, i) || (i.key !in entries && Body(c, i.p).Err?)
  }

  lemma ConvergeOneHits(s: Sched, c: Setup, i: Item)
    ensures (var t := ConvergeOne(s, c, NoFaults(), i);
             && Converged(t.entries, c, i)
             && (AtTarget(t.entries, c, i) <==> AtTarget(s.entries, c, i) || Body(c, i.p).Ok?)
             && t.entries - {i.key} == s.entries - {i.key}
             && (c.deriveCron(i.p).None? ==> t == s))
  {
    hide ConfigHash, Body, BuildPayload;
  }

  lemma {:induction false} ConvergeAllHits(s: Sched, c: Setup, items: seq<Item>)
    requires ItemsOk(items)
    ensures (var t := ConvergeAll(s, c, NoFaults(), items);
             && (forall j | 0 <= j < |items| :: Hit(s.entries, t.entries, c, items[j]))
             && (forall k | k !in KeysOf(items) :: SameAt(t.entries, s.entries, k)))
    decreases items
  {
    if items != [] {
      var f := NoFaults();
      var s1 := ConvergeOne(s, c, f, items[0]);
      ConvergeOneHits(s, c, items[0]);
      ItemsTail(items);
      assert Hit(s.entries, s1.entries, c, items[0]);
      assert forall j | 0 <= j < |items[1..]| :: items[1..][j] == items[j + 1];
      forall k ensures SameAt(s1.entries, s.entries, k) || k == items[0].key {
        SameOutside(s1.entries, s.entries, items[0].key, k);
      }
      hide ItemOk, ConvergeOne, NoFaults, ConfigHash, SameAt, Hit;
      ConvergeAllHits(s1, c, items[1..]);
      var t := ConvergeAll(s1, c, f, items[1..]);
      assert t == ConvergeAll(s, c, f, items);
      forall k | k !in KeysOf(items) ensures SameAt(t.entries, s.entries, k) {
        SameTwice(t.entries, s1.entries, s.entries, k);
      }
      forall j | 0 <= j < |items| ensures Hit(s.entries, t.entries, c, items[j]) {
        if j == 0 {
          HitLater(s.entries, s1.entries, t.entries, c, items[0]);
        } else {
          assert items[j] == items[1..][j - 1] && items[j].key != items[0].key;
          HitEarlier(s.entries, s1.entries, t.entries, c, items[j]);
        }
      }
    }
  }

  /** What a pass did for one row. */
  predicate Hit(before: map<string, Entry>, entries: map<string, Entry>, c: Setup, i: Item) {
    && Converged(entries, c, i)
    && (AtTarget(entries, c, i) <==> AtTarget(before, c, i) || Body(c, i.p).Ok?)
    && (c.deriveCron(i.p).None? ==> SameAt(entries, before, i.key))
  }

  lemma SameTwice(a: map<string, Entry>, b: map<string, Entry>, e: map<string, Entry>, k: string)
    requires SameAt(a, b, k) && SameAt(b, e, k)
    ensures SameAt(a, e, k)
  {}

  lemma HitLater(before: map<string, Entry>, a: map<string, Entry>, b: map<string, Entry>, c: Setup, i: Item)
    requires Hit(before, a, c, i) && SameAt(b, a, i.key)
    ensures Hit(before, b, c, i)
  {
    hide ConfigHash, Body;
  }

  lemma HitEarlier(before: map<string, Entry>, a: map<string, Entry>, b: map<string, Entry>, c: Setup, i: Item)
    requires SameAt(a, before, i.key) && Hit(a, b, c, i)
    ensures Hit(before, b, c, i)
  {
    hide ConfigHash, Body;
  }

  predicate SameAt(a: map<string, Entry>, b: map<string, Entry>, k: string) {
    if k in a then k in b && a[k] == b[k] else k !in b
  }

  lemma SameOutside(a: map<string, Entry>, b: map<string, Entry>, m: string, k: string)
    requires a - {m} == b - {m}
    ensures SameAt(a, b, k) || k == m
  {
    if k != m { assert k in a <==> k in a - {m}; assert k in b <==> k in b - {m}; }
  }

  lemma {:induction false} DropStaleDrops(s: Sched, stale: seq<string>)
    ensures (var t := DropStale(s, NoFaults(), stale);
             forall k :: if k in stale then k !in t.entries else SameAt(t.entries, s.entries, k))
    decreases stale
  {
    if stale != [] {
      assert stale == [stale[0]] + stale[1..];
      if stale[0] in s.entries {
        DropStaleDrops(UnregisterEntry(s, NoFaults(), stale[0]).0, stale[1..]);
      } else {
        DropStaleDrops(s, stale[1..]);
      }
    }
  }

  /** From any state at all, one fault-free reconcile converges: undesired keys are gone, skipped keys are as
      they were, and a desired key whose cron spec derives carries its current hash exactly when it did before
      or a body can be built for it; one for which none can ends up unregistered. */
  lemma ReconcileConverges(s: Sched, c: Setup, rows: seq<Provider>, stale: seq<string>)
    requires RowsOk(rows) && IsStale(stale, s, Desired(rows))
    ensures (var t := Reconcile(s, c, NoFaults(), rows, stale); var items := Desired(rows);
             && (forall k | k in t.entries :: k in KeysOf(items))
             && (forall j | 0 <= j < |items| :: Hit(s.entries, t.entries, c, items[j])))
  {
    DesiredOk(rows);
    var items := Desired(rows);
    DropStaleDrops(s, stale);
    var s1 := DropStale(s, NoFaults(), stale);
    ConvergeAllHits(s1, c, items);
    hide AtTarget, Desired, DropStale, ConvergeAll, Hit;
    var t := ConvergeAll(s1, c, NoFaults(), items);
    forall k ensures k in t.entries ==> k in KeysOf(items) {
      assert k in KeysOf(items) || SameAt(t.entries, s1.entries, k);
      assert k in KeysOf(items) || (k in stale <==> k in s.entries);
    }
    forall j | 0 <= j < |items| ensures Hit(s.entries, t.entries, c, items[j]) {
      assert items[j].key in KeysOf(items);
      HitEarlier(s.entries, s1.entries, t.entries, c, items[j]);
    }
  }

  lemma {:induction false} ConvergedIsQuiet(s: Sched, c: Setup, f: Faults, items: seq<Item>)
    requires forall j | 0 <= j < |items| :: Converged(s.entries, c, items[j])
    ensures ConvergeAll(s, c, f, items) == s
    decreases items
  {
    if items != [] {
      assert Converged(s.entries, c, items[0]);
      assert ConvergeOne(s, c, f, items[0]) == s by { hide ConfigHash, Body; }
      ConvergedIsQuiet(s, c, f, items[1..]);
    }
  }

  /** A second pass over the same rows makes no backend call and no enqueue, whatever would have failed. */
  lemma SecondPassIsQuiet(s: Sched, c: Setup, f: Faults, rows: seq<Provider>, stale: seq<string>, stale2: seq<string>)
    requires RowsOk(rows) && IsStale(stale, s, Desired(rows))
    requires IsStale(stale2, Reconcile(s, c, NoFaults(), rows, stale), Desired(rows))
    ensures (var t := Reconcile(s, c, NoFaults(), rows, stale); Reconcile(t, c, f, rows, stale2) == t)
  {
    var t := Reconcile(s, c, NoFaults(), rows, stale);
    assert |stale2| > 0 ==> stale2[0] in stale2;
    ReconcileConverges(s, c, rows, stale);
    assert stale2 == [];
    var items := Desired(rows);
    assert forall j | 0 <= j < |items| :: Converged(t.entries, c, items[j]) by {
      forall j | 0 <= j < |items| ensures Converged(t.entries, c, items[j]) {
        assert Hit(s.entries, t.entries, c, items[j]);
      }
    }
    ConvergedIsQuiet(t, c, f, items);
  }

  // ---- what a registration says ------------------------------------------------------

  /** A row is re-registered exactly when its schedule or its config changed: a config whose keys merely
      come back in another order makes no call at all. */
  lemma ChangeDetection(s: Sched, c: Setup, f: Faults, i: Item, p: Provider)
    requires Inv(s, c) && ItemOk(i) && i.key in s.entries
    requires Matches(c, i.key, s.entries[i.key], s.live[s.entries[i.key].entryId], p)
    ensures (var quiet := c.deriveCron(i.p).None?
               || (c.deriveCron(i.p) == Some(s.entries[i.key].cronspec) && Meaning(i.p.config) == Meaning(p.config));
             ConvergeOne(s, c, f, i).calls == s.calls <==> quiet)
    ensures ConvergeOne(s, c, f, i).calls == s.calls ==> ConvergeOne(s, c, f, i) == s
  {
    match c.deriveCron(i.p)
    case None =>
    case Some(cronspec) =>
      HashExact(cronspec, i.p.config, s.entries[i.key].cronspec, p.config);
      hide ConfigHash, Body, BuildPayload, Meaning, Inv;
      CallsGrow(UnregisterEntry(s, f, i.key).0, c, f, i, cronspec);
  }

  lemma CallsGrow(s: Sched, c: Setup, f: Faults, i: Item, cronspec: string)
    ensures Register(s, c, f, i, cronspec).calls >= s.calls
  {
    hide ConfigHash, Body, BuildPayload;
  }

  /** The body a provider is registered with decodes, in the worker, to that provider: its tenant, its
      name, and a config equal to its own. */
  lemma BodyDecodes(c: Setup, p: Provider)
    requires Json.Wf(p.config) && Body(c, p).Ok?
    ensures Envelope.Unwrap(c.env, Body(c, p).value)
      == Ok(Envelope.Envelope.Envelope(1, p.tenantId, "", BuildPayload(p)))
    ensures Envelope.Lookup(BuildPayload(p), "provider_name") == Some(Json.Str(p.name))
    ensures Envelope.Lookup(BuildPayload(p), "config") == Some(Json.Str(Json.Print(Sort(p.config), Json.SPACED)))
    ensures Json.Loads(Json.Print(Sort(p.config), Json.SPACED)) == Some(Sort(p.config))
    ensures Meaning(Sort(p.config)) == Meaning(p.config)
  {
    var fs := BuildPayload(p);
    SortMeaning(p.config);
    JsonText.LoadsDumps(Sort(p.config), Json.SPACED);
    assert "provider_name"[0] != "config"[0];
    assert Json.DistinctKeys(fs);
    Envelope.LookupAt(fs, 0);
    Envelope.LookupAt(fs, 1);
    Envelope.WfFromDistinct(fs);
    Envelope.RoundTrip(c.env, p.tenantId, fs, "");
  }

  ghost predicate RegisteredFor(c: Setup, r: Registration, tenantId: string, name: string) {
    var u := Envelope.Unwrap(c.env, r.body);
    u.Ok? && u.value.tenantId == tenantId && Envelope.Lookup(u.value.payload, "provider_name") == Some(Json.Str(name))
  }

  /** No provider ever has two live registrations, going by what their bodies say. */
  lemma OneRegistrationPerProvider(s: Sched, c: Setup, id1: nat, id2: nat, tenantId: string, name: string)
    requires Inv(s, c) && id1 in s.live && id2 in s.live
    requires RegisteredFor(c, s.live[id1], tenantId, name) && RegisteredFor(c, s.live[id2], tenantId, name)
    ensures id1 == id2
  {
    var k1 := OwnerKey(s, c, id1, tenantId, name);
    var k2 := OwnerKey(s, c, id2, tenantId, name);
  }

  lemma OwnerKey(s: Sched, c: Setup, id: nat, tenantId: string, name: string) returns (k: string)
    requires Inv(s, c) && id in s.live && RegisteredFor(c, s.live[id], tenantId, name)
    ensures k in s.entries && s.entries[k].entryId == id && k == Key(Provider(tenantId, name, Json.Null))
  {
    assert Owned(s.entries, id);
    k :| k in s.entries && s.entries[k].entryId == id;
    assert Made(c, k, s.entries[k], s.live[id]);
    var p :| Matches(c, k, s.entries[k], s.live[id], p);
    hide Inv, Body, BuildPayload, ConfigHash, Envelope.Unwrap;
    BodyDecodes(c, p);
    assert RegisteredFor(c, s.live[id], tenantId, name);
  }
}
