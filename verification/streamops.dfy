/** Consumer groups on a stream: what `StreamProducer` and `StreamConsumer` make the server do. */
module StreamOps {
  import opened Common

  /** Field values are bytes, as the server keeps them and hands them out. */
  type Fields = map<string, bytes>

  /** A pending entry: the consumer it is delivered to, and when. */
  datatype Lease = Lease(consumer: string, since: int)

  /** `cursor` is how many entries the group has handed out; `acked` the entries XACK has removed. */
  datatype Group = Group(cursor: nat, pel: map<nat, Lease>, acked: set<nat>)

  /** An entry's id is its position: the server's ids only increase. */
  datatype Stream = Stream(entries: seq<Fields>, group: Option<Group>)

  datatype StreamError = NoGroup | BadCount

  /** Every entry is in exactly one of three places: past the cursor, pending at one consumer, or acked. */
  ghost predicate Partitioned(s: Stream) {
    s.group.Some? ==>
      && s.group.value.cursor <= |s.entries|
      && s.group.value.pel.Keys !! s.group.value.acked
      && forall id: nat :: id < s.group.value.cursor <==> id in s.group.value.pel || id in s.group.value.acked
  }

  function Add(s: Stream, f: Fields): Stream { s.(entries := s.entries + [f]) }

  /** XGROUP CREATE at id 0; BUSYGROUP is swallowed. */
  function EnsureGroup(s: Stream): Stream {
    if s.group.Some? then s else s.(group := Some(Group(0, map[], {})))
  }

  /** The ids XREADGROUP hands out from `>`. */
  function Fresh(s: Stream, count: nat): seq<nat>
    requires s.group.Some?
  {
    var g := s.group.value;
    if g.cursor >= |s.entries| then [] else seq(Min(count, |s.entries| - g.cursor), i requires i >= 0 => g.cursor + i)
  }

  function Lent(pel: map<nat, Lease>, ids: seq<nat>, consumer: string, now: int): map<nat, Lease> {
    map id | id in pel.Keys + (set i | i in ids) :: if id in ids then Lease(consumer, now) else pel[id]
  }

  function Read(s: Stream, consumer: string, count: nat, now: int): Result<(Stream, seq<nat>), StreamError> {
    if count == 0 then Err(BadCount)
    else if s.group.None? then Err(NoGroup)
    else
      var g, ids := s.group.value, Fresh(s, count);
      Ok((s.(group := Some(g.(cursor := g.cursor + |ids|, pel := Lent(g.pel, ids, consumer, now)))), ids))
  }

  function Ack(s: Stream, id: nat): Stream {
    if s.group.Some? && id in s.group.value.pel then
      var g := s.group.value;
      s.(group := Some(g.(pel := g.pel - {id}, acked := g.acked + {id})))
    else s
  }

  // ---- XAUTOCLAIM -----------------------------------------------------------------

  predicate Stale(pel: map<nat, Lease>, id: nat, idle: nat, now: int) {
    id in pel && now - pel[id].since >= idle
  }

  /** The scan: pending ids upwards from `id`, at most `attempts` looked at and `count` taken. */
  function Scan(pel: map<nat, Lease>, id: nat, end: nat, idle: nat, now: int, attempts: nat, count: nat): seq<nat>
    decreases end - id
  {
    if id >= end || attempts == 0 || count == 0 then []
    else if id !in pel then Scan(pel, id + 1, end, idle, now, attempts, count)
    else if now - pel[id].since < idle then Scan(pel, id + 1, end, idle, now, attempts - 1, count)
    else [id] + Scan(pel, id + 1, end, idle, now, attempts - 1, count - 1)
  }

  /** How many ids in `[lo, hi)` are pending, and how many of those are stale. */
  function PendingIn(pel: map<nat, Lease>, lo: nat, hi: nat): (r: nat)
    ensures lo <= hi ==> r <= hi - lo
    decreases hi - lo
  {
    if lo >= hi then 0 else (if lo in pel then 1 else 0) + PendingIn(pel, lo + 1, hi)
  }

  function StaleIn(pel: map<nat, Lease>, lo: nat, hi: nat, idle: nat, now: int): (r: nat)
    ensures r <= PendingIn(pel, lo, hi)
    decreases hi - lo
  {
    if lo >= hi then 0 else (if Stale(pel, lo, idle, now) then 1 else 0) + StaleIn(pel, lo + 1, hi, idle, now)
  }

  predicate Increasing(r: seq<nat>) { forall i, j | 0 <= i < j < |r| :: r[i] < r[j] }

  lemma {:induction false} ScanAscends(pel: map<nat, Lease>, lo: nat, end: nat, idle: nat,
      now: int, attempts: nat, count: nat)
    ensures (var r := Scan(pel, lo, end, idle, now, attempts, count);
             Increasing(r) && |r| <= count && forall i | 0 <= i < |r| :: r[i] >= lo)
    decreases end - lo
  {
    if lo < end && attempts > 0 && count > 0 {
      var stale := Stale(pel, lo, idle, now);
      ScanAscends(pel, lo + 1, end, idle, now,
                  if lo in pel then attempts - 1 else attempts, if stale then count - 1 else count);
    }
  }

  lemma {:induction false} ScanExactAt(pel: map<nat, Lease>, lo: nat, end: nat, idle: nat,
      now: int, attempts: nat, count: nat, id: nat)
    ensures (id in Scan(pel, lo, end, idle, now, attempts, count)
             <==> && lo <= id < end && Stale(pel, id, idle, now)
                  && PendingIn(pel, lo, id) < attempts && StaleIn(pel, lo, id, idle, now) < count)
    decreases end - lo
  {
    if lo < end && attempts > 0 && count > 0 {
      var stale := Stale(pel, lo, idle, now);
      var a, c := if lo in pel then attempts - 1 else attempts, if stale then count - 1 else count;
      ScanExactAt(pel, lo + 1, end, idle, now, a, c, id);
      var t := Scan(pel, lo + 1, end, idle, now, a, c);
      ScanAscends(pel, lo + 1, end, idle, now, a, c);
      assert Scan(pel, lo, end, idle, now, attempts, count) == (if stale then [lo] else []) + t;
    }
  }

  /** Exactly which ids a scan takes: the stale ones with fewer than `attempts` pending ids and fewer than
      `count` stale ids before them. They come out once each, in increasing order. */
  lemma ScanExact(pel: map<nat, Lease>, lo: nat, end: nat, idle: nat, now: int, attempts: nat, count: nat)
    ensures (var r := Scan(pel, lo, end, idle, now, attempts, count);
             && Increasing(r) && |r| <= count
             && forall id: nat :: id in r <==>
                  && lo <= id < end && Stale(pel, id, idle, now)
                  && PendingIn(pel, lo, id) < attempts && StaleIn(pel, lo, id, idle, now) < count)
  {
    ScanAscends(pel, lo, end, idle, now, attempts, count);
    hide *;
    forall id: nat ensures (id in Scan(pel, lo, end, idle, now, attempts, count)
             <==> && lo <= id < end && Stale(pel, id, idle, now)
                  && PendingIn(pel, lo, id) < attempts && StaleIn(pel, lo, id, idle, now) < count) {
      ScanExactAt(pel, lo, end, idle, now, attempts, count, id);
    }
  }

  function ScanLimit(count: nat): nat { 10 * count }

  function Claimed(g: Group, idle: nat, count: nat, now: int): seq<nat> {
    Scan(g.pel, 0, g.cursor, idle, now, ScanLimit(count), count)
  }

  /** The pending entries before `id`, and those of them that were last handed out `idle` or longer ago. */
  function PendingBefore(pel: map<nat, Lease>, id: nat): set<nat> { set j | j in pel && j < id }

  function ClaimableBefore(pel: map<nat, Lease>, id: nat, idle: nat, now: int): set<nat> {
    set j | j in pel && j < id && now - pel[j].since >= idle
  }

  lemma {:induction false} PendingCounted(pel: map<nat, Lease>, lo: nat, hi: nat)
    requires lo <= hi
    ensures PendingIn(pel, lo, hi) == |set j | j in pel && lo <= j < hi|
    decreases hi - lo
  {
    var p := set j | j in pel && lo <= j < hi;
    if lo == hi {
      assert p == {};
    } else {
      PendingCounted(pel, lo + 1, hi);
      var p1 := set j | j in pel && lo + 1 <= j < hi;
      assert p == p1 + if lo in pel then {lo} else {};
    }
  }

  lemma {:induction false} ClaimableCounted(pel: map<nat, Lease>, lo: nat, hi: nat, idle: nat, now: int)
    requires lo <= hi
    ensures StaleIn(pel, lo, hi, idle, now) == |set j | j in pel && lo <= j < hi && now - pel[j].since >= idle|
    decreases hi - lo
  {
    var p := set j | j in pel && lo <= j < hi && now - pel[j].since >= idle;
    if lo == hi {
      assert p == {};
    } else {
      ClaimableCounted(pel, lo + 1, hi, idle, now);
      var p1 := set j | j in pel && lo + 1 <= j < hi && now - pel[j].since >= idle;
      assert p == p1 + if lo in pel && now - pel[lo].since >= idle then {lo} else {};
    }
  }

  /** By the times at which entries were handed out: a claim takes exactly the pending entries that were handed out
      `idle` or longer ago and have fewer than ten times `count` pending entries, and fewer than `count`
      claimable ones, before them. */
  lemma ClaimedExactly(g: Group, idle: nat, count: nat, now: int, id: nat)
    requires forall j | j in g.pel :: j < g.cursor
    ensures (id in Claimed(g, idle, count, now)
             <==> && id in g.pel && now - g.pel[id].since >= idle
                  && |PendingBefore(g.pel, id)| < 10 * count && |ClaimableBefore(g.pel, id, idle, now)| < count)
  {
    ScanExact(g.pel, 0, g.cursor, idle, now, ScanLimit(count), count);
    PendingCounted(g.pel, 0, id);
    ClaimableCounted(g.pel, 0, id, idle, now);
    assert PendingBefore(g.pel, id) == set j | j in g.pel && 0 <= j < id;
    assert ClaimableBefore(g.pel, id, idle, now) == set j | j in g.pel && 0 <= j < id && now - g.pel[j].since >= idle;
    hide Scan;
  }

  function ClaimStale(s: Stream, consumer: string, idle: nat, count: nat, now: int)
    : Result<(Stream, seq<nat>), StreamError>
  {
    if count == 0 then Err(BadCount)
    else if s.group.None? then Err(NoGroup)
    else
      var g := s.group.value;
      var ids := Claimed(g, idle, count, now);
      Ok((s.(group := Some(g.(pel := Lent(g.pel, ids, consumer, now)))), ids))
  }

  // ---- every operation keeps the partition ------------------------------------------

  /** A read hands out the next undelivered entries, in order and without a gap, each to this consumer
      and to nobody else; nothing already delivered moves. */
  lemma ReadKeeps(s: Stream, consumer: string, count: nat, now: int)
    requires Partitioned(s) && Read(s, consumer, count, now).Ok?
    ensures (var (t, ids) := Read(s, consumer, count, now).value; var g, h := s.group.value, t.group.value;
             && Partitioned(t) && t.entries == s.entries && h.acked == g.acked
             && |ids| <= count && h.cursor == g.cursor + |ids| && (|ids| < count ==> h.cursor == |s.entries|)
             && (forall i | 0 <= i < |ids| :: ids[i] == g.cursor + i)
             && (forall id | id in g.pel :: id in h.pel && h.pel[id] == g.pel[id])
             && forall id | id in h.pel && id !in g.pel :: id in ids && h.pel[id] == Lease(consumer, now))
  {
    var (t, ids) := Read(s, consumer, count, now).value;
    var g := s.group.value;
    forall id: nat ensures id in ids <==> g.cursor <= id < g.cursor + |ids| {
      if g.cursor <= id < g.cursor + |ids| { assert ids[id - g.cursor] == id; }
    }
  }

  lemma AckKeeps(s: Stream, id: nat)
    requires Partitioned(s)
    ensures Partitioned(Ack(s, id)) && Ack(s, id).entries == s.entries && Ack(s, id).group.Some? == s.group.Some?
    ensures s.group.Some? ==>
      (var g, h := s.group.value, Ack(s, id).group.value;
       && h.cursor == g.cursor && h.pel == g.pel - {id}
       && h.acked == if id in g.pel then g.acked + {id} else g.acked)
  {
    if s.group.Some? && id !in s.group.value.pel { assert s.group.value.pel - {id} == s.group.value.pel; }
  }

  /** A claim only transfers ownership, and only of stale entries: what is pending, undelivered and acked
      stays as it is. */
  lemma ClaimKeeps(s: Stream, consumer: string, idle: nat, count: nat, now: int)
    requires Partitioned(s) && ClaimStale(s, consumer, idle, count, now).Ok?
    ensures (var (t, ids) := ClaimStale(s, consumer, idle, count, now).value; var g, h := s.group.value, t.group.value;
             && Partitioned(t) && t.entries == s.entries
             && h.cursor == g.cursor && h.acked == g.acked && h.pel.Keys == g.pel.Keys
             && |ids| <= count && Increasing(ids)
             && (forall id | id in ids :: Stale(g.pel, id, idle, now) && h.pel[id] == Lease(consumer, now))
             && forall id | id in g.pel && id !in ids :: h.pel[id] == g.pel[id])
  {
    var g := s.group.value;
    ScanExact(g.pel, 0, g.cursor, idle, now, ScanLimit(count), count);
    hide Scan;
    var ids := Claimed(g, idle, count, now);
    assert g.pel.Keys + (set i | i in ids) == g.pel.Keys;
  }

  // ---- claim, then acknowledge, until nothing is claimed -------------------------------

  function Without(pel: map<nat, Lease>, ids: seq<nat>): map<nat, Lease> { pel - set i | i in ids }

  /** One round: claim, handle, acknowledge each claimed entry. */
  function Settle(g: Group, ids: seq<nat>): Group {
    g.(pel := Without(g.pel, ids), acked := g.acked + set i | i in ids)
  }

  lemma {:induction false} ScanInPel(pel: map<nat, Lease>, lo: nat, end: nat, idle: nat,
      now: int, attempts: nat, count: nat)
    ensures forall id | id in Scan(pel, lo, end, idle, now, attempts, count) :: id in pel && lo <= id < end
  {
    ScanExact(pel, lo, end, idle, now, attempts, count);
  }

  lemma WithoutShrinks(pel: map<nat, Lease>, ids: seq<nat>)
    requires ids != [] && ids[0] in pel
    ensures |Without(pel, ids)| < |pel|
  {
    assert Without(pel, ids).Keys < pel.Keys;
    SubsetSmaller(Without(pel, ids).Keys, pel.Keys);
    assert |Without(pel, ids).Keys| == |Without(pel, ids)| && |pel.Keys| == |pel|;
  }

  lemma {:induction false} SubsetSmaller<T>(a: set<T>, b: set<T>)
    requires a < b
    ensures |a| < |b|
  {
    var x :| x in b && x !in a;
    if a != {} {
      var y :| y in a;
      SubsetSmaller(a - {y}, b - {y});
    }
  }

  /** The claim-and-acknowledge loop over a stream nobody else touches; `clock` is the time of each claim.
      With the group it leaves comes the number of its last claim, the first to come back empty. */
  function Drain(g: Group, idle: nat, count: nat, clock: nat -> int, round: nat): (Group, nat)
    decreases |g.pel|
  {
    var ids := Claimed(g, idle, count, clock(round));
    if ids == [] then (g, round)
    else
      ScanInPel(g.pel, 0, g.cursor, idle, clock(round), ScanLimit(count), count);
      assert ids[0] in ids;
      WithoutShrinks(g.pel, ids);
      Drain(Settle(g, ids), idle, count, clock, round + 1)
  }

  ghost predicate Forward(clock: nat -> int) { forall i: nat, j: nat | i <= j :: clock(i) <= clock(j) }

  /** Pending ids below `id` that are not stale: no claim removes them. */
  function FreshBelow(pel: map<nat, Lease>, id: nat, idle: nat, now: int): nat {
    PendingIn(pel, 0, id) - StaleIn(pel, 0, id, idle, now)
  }

  /** Removing stale ids leaves the count of fresh ones. */
  lemma {:induction false} FreshUnmoved(pel: map<nat, Lease>, ids: seq<nat>, lo: nat, hi: nat, idle: nat, now: int)
    requires forall i | i in ids :: Stale(pel, i, idle, now)
    ensures PendingIn(Without(pel, ids), lo, hi) - StaleIn(Without(pel, ids), lo, hi, idle, now)
         == PendingIn(pel, lo, hi) - StaleIn(pel, lo, hi, idle, now)
    decreases hi - lo
  {
    if lo < hi { FreshUnmoved(pel, ids, lo + 1, hi, idle, now); }
  }

  lemma {:induction false} LeastStale(pel: map<nat, Lease>, lo: nat, id: nat, idle: nat, now: int) returns (m: nat)
    requires lo <= id && Stale(pel, id, idle, now)
    ensures lo <= m <= id && Stale(pel, m, idle, now) && StaleIn(pel, lo, m, idle, now) == 0
    decreases id - lo
  {
    if Stale(pel, lo, idle, now) { m := lo; } else { m := LeastStale(pel, lo + 1, id, idle, now); }
  }

  lemma {:induction false} FreshMonotone(pel: map<nat, Lease>, lo: nat, m: nat, id: nat, idle: nat, now: int)
    requires m <= id
    ensures PendingIn(pel, lo, m) - StaleIn(pel, lo, m, idle, now)
         <= PendingIn(pel, lo, id) - StaleIn(pel, lo, id, idle, now)
    decreases m - lo
  {
    if lo < m { FreshMonotone(pel, lo + 1, m, id, idle, now); }
  }

  /** A claim comes back empty exactly when every stale entry has ten times `count` fresh ones before it. */
  lemma ClaimsNothingExactly(g: Group, idle: nat, count: nat, now: int)
    requires count > 0 && forall id | id in g.pel :: id < g.cursor
    ensures (Claimed(g, idle, count, now) == []
             <==> forall id | Stale(g.pel, id, idle, now) :: FreshBelow(g.pel, id, idle, now) >= ScanLimit(count))
  {
    ScanExact(g.pel, 0, g.cursor, idle, now, ScanLimit(count), count);
    var ids := Claimed(g, idle, count, now);
    hide Scan;
    if ids == [] {
      forall id | Stale(g.pel, id, idle, now) ensures FreshBelow(g.pel, id, idle, now) >= ScanLimit(count) {
        var m := LeastStale(g.pel, 0, id, idle, now);
        assert m !in ids;
        FreshMonotone(g.pel, 0, m, id, idle, now);
      }
    } else {
      assert ids[0] in ids;
    }
  }

  /** One round, seen at a later time: it settled only entries that are stale then, and moved no count of fresh
      ones. */
  lemma DrainStep(g: Group, ids: seq<nat>, idle: nat, count: nat, now: int, later: int)
    requires count > 0 && ids == Claimed(g, idle, count, now) && now <= later
    ensures (var h := Settle(g, ids);
             && (forall id | id in ids ::
                   Stale(g.pel, id, idle, later) && FreshBelow(g.pel, id, idle, later) < ScanLimit(count))
             && (forall id :: FreshBelow(h.pel, id, idle, later) == FreshBelow(g.pel, id, idle, later))
             && h.acked == g.acked + (g.pel.Keys - h.pel.Keys))
  {
    ScanExact(g.pel, 0, g.cursor, idle, now, ScanLimit(count), count);
    hide Scan;
    forall id ensures FreshBelow(Without(g.pel, ids), id, idle, later) == FreshBelow(g.pel, id, idle, later) {
      FreshUnmoved(g.pel, ids, 0, id, idle, later);
    }
    assert g.pel.Keys - Without(g.pel, ids).Keys == set i | i in ids;
  }

  /** `h` is `g` with every stale entry acknowledged that has fewer than ten times `count` fresh entries before
      it, and nothing else touched. */
  ghost predicate Drained(g: Group, h: Group, idle: nat, count: nat, now: int) {
    && h.cursor == g.cursor
    && (forall id :: id in h.pel <==>
          id in g.pel && (Stale(g.pel, id, idle, now) ==> FreshBelow(g.pel, id, idle, now) >= ScanLimit(count)))
    && (forall id | id in h.pel :: h.pel[id] == g.pel[id])
    && h.acked == g.acked + (g.pel.Keys - h.pel.Keys)
  }

  lemma DrainedAtOnce(g: Group, idle: nat, count: nat, now: int)
    requires count > 0 && Claimed(g, idle, count, now) == [] && forall id | id in g.pel :: id < g.cursor
    ensures Drained(g, g, idle, count, now)
  {
    ClaimsNothingExactly(g, idle, count, now);
    hide Claimed, FreshBelow;
  }

  lemma DrainedAfter(g: Group, h: Group, ids: seq<nat>, idle: nat, count: nat, now: int, later: int)
    requires count > 0 && ids == Claimed(g, idle, count, now) && now <= later
    requires Drained(Settle(g, ids), h, idle, count, later)
    ensures Drained(g, h, idle, count, later)
  {
    DrainStep(g, ids, idle, count, now, later);
    hide Claimed, FreshBelow;
  }

  /** What the drain loop does, exactly, by the clock at its last claim: it has acknowledged every stale entry
      that has fewer than ten times `count` fresh entries before it, and touched nothing else. */
  lemma {:induction false} DrainExact(g: Group, idle: nat, count: nat, clock: nat -> int, round: nat)
    requires count > 0 && Forward(clock) && forall id | id in g.pel :: id < g.cursor
    ensures (var (h, r) := Drain(g, idle, count, clock, round);
             r >= round && Drained(g, h, idle, count, clock(r)))
    decreases |g.pel|
  {
    hide Drained, Claimed;
    var now := clock(round);
    var ids := Claimed(g, idle, count, now);
    if ids == [] {
      DrainedAtOnce(g, idle, count, now);
    } else {
      ClaimedPending(g, idle, count, now);
      WithoutShrinks(g.pel, ids);
      var g1 := Settle(g, ids);
      DrainExact(g1, idle, count, clock, round + 1);
      var (h, r) := Drain(g1, idle, count, clock, round + 1);
      DrainedAfter(g, h, ids, idle, count, now, clock(r));
    }
  }

  lemma ClaimedPending(g: Group, idle: nat, count: nat, now: int)
    ensures forall i | 0 <= i < |Claimed(g, idle, count, now)| :: Claimed(g, idle, count, now)[i] in g.pel
  {
    ScanInPel(g.pel, 0, g.cursor, idle, now, ScanLimit(count), count);
    hide Scan;
    var ids := Claimed(g, idle, count, now);
    assert forall i | 0 <= i < |ids| :: ids[i] in ids;
  }

  /** Fewer than ten times `count` entries still fresh at the last claim: every stale one is acknowledged. */
  lemma DrainsAll(g: Group, idle: nat, count: nat, clock: nat -> int, round: nat)
    requires count > 0 && Forward(clock) && forall id | id in g.pel :: id < g.cursor
    ensures (var (h, r) := Drain(g, idle, count, clock, round); var now := clock(r);
             PendingIn(g.pel, 0, g.cursor) - StaleIn(g.pel, 0, g.cursor, idle, now) < ScanLimit(count)
             ==> forall id | Stale(g.pel, id, idle, now) :: id in h.acked)
  {
    DrainExact(g, idle, count, clock, round);
    hide Drain;
    var (h, r) := Drain(g, idle, count, clock, round);
    forall id | Stale(g.pel, id, idle, clock(r)) ensures FreshBelow(g.pel, id, idle, clock(r))
        <= PendingIn(g.pel, 0, g.cursor) - StaleIn(g.pel, 0, g.cursor, idle, clock(r)) {
      FreshMonotone(g.pel, 0, id, g.cursor, idle, clock(r));
    }
  }
}

/** Any number of publishers and consumers on one stream: `RedisEventBus.subscribe` loops and
    `StreamConsumer` claimers, with handler failures, lost acknowledgements and crashes anywhere. */
module StreamMachine {
  import opened Common
  import opened Json
  import opened StreamOps
  import Utf8

  /** A subscriber: what it has fetched and not finished with. `acking` once the handler of the first of
      those has returned and its XACK is outstanding. */
  datatype Worker = Worker(name: string, queue: seq<nat>, acking: bool)

  /** What `json.loads` makes of a text: none when it raises anything. */
  type Loader = string -> Option<Json>

  /** `tried` and `again`: entries whose handler was called, and called more than once. */
  datatype World = World(
    stream: Stream, workers: map<nat, Worker>, handled: set<nat>, tried: set<nat>, again: set<nat>, loads: Loader)

  datatype Step =
    | Publish(fields: Fields)
    | Join(p: nat, name: string, created: bool)
    | Fetch(p: nat, count: nat, now: int)
    | Claim(p: nat, idle: nat, count: nat, now: int)
    | HandlerOk(p: nat)
    | HandlerFails(p: nat)
    | AckOk(p: nat)
    | AckFails(p: nat)
    | Unreadable(p: nat)
    | Crash(p: nat)

  const PAYLOAD := "payload"
  const TENANT := "tenant_id"

  /** The tenant id as text, empty if there is none; it does not decode unless it is UTF-8. */
  function TenantText(f: Fields): Option<string> {
    if TENANT in f then Utf8.Decode(f[TENANT]) else Some("")
  }

  /** The tenant and payload a subscriber takes out of an entry, unless one of the three calls that do so
      raises. A missing or empty payload is `None`, which `json.loads` refuses. */
  function Decode(loads: Loader, f: Fields): Option<(Option<string>, Json)> {
    if PAYLOAD !in f || f[PAYLOAD] == [] then None
    else
      var text, tenant := Utf8.Decode(f[PAYLOAD]), TenantText(f);
      if text.None? || tenant.None? || loads(text.value).None? then None
      else Some((if tenant.value == "" then None else tenant, loads(text.value).value))
  }

  predicate Readable(loads: Loader, f: Fields) { Decode(loads, f).Some? }

  /** `publish` and `publish_tenant`. */
  function Published(tenant: Option<string>, v: Json): Fields {
    var payload := Utf8.Encode(Print(v, SPACED));
    if tenant.Some? then map[TENANT := Utf8.Encode(tenant.value), PAYLOAD := payload] else map[PAYLOAD := payload]
  }

  /** The entry worker `p` has come to is readable. */
  predicate NextReadable(w: World, p: nat)
    requires Busy(w, p)
  {
    Readable(w.loads, w.stream.entries[w.workers[p].queue[0]])
  }

  predicate Idle(w: World, p: nat) { p in w.workers && w.workers[p].queue == [] && !w.workers[p].acking }

  predicate Busy(w: World, p: nat) {
    p in w.workers && w.workers[p].queue != [] && w.workers[p].queue[0] < |w.stream.entries|
  }

  predicate Enabled(w: World, step: Step) {
    match step
    case Publish(f) => true
    case Join(p, name, created) => p !in w.workers
    case Fetch(p, count, now) => Idle(w, p) && Read(w.stream, w.workers[p].name, count, now).Ok?
    case Claim(p, idle, count, now) => Idle(w, p) && ClaimStale(w.stream, w.workers[p].name, idle, count, now).Ok?
    case HandlerOk(p) => Busy(w, p) && !w.workers[p].acking && NextReadable(w, p)
    case HandlerFails(p) => Busy(w, p) && !w.workers[p].acking && NextReadable(w, p)
    case AckOk(p) => Busy(w, p) && w.workers[p].acking
    case AckFails(p) => Busy(w, p) && w.workers[p].acking
    case Unreadable(p) => Busy(w, p) && !w.workers[p].acking && !NextReadable(w, p)
    case Crash(p) => p in w.workers
  }

  function Called(w: World, id: nat): World {
    w.(tried := w.tried + {id}, again := if id in w.tried then w.again + {id} else w.again)
  }

  function Next(w: World, p: nat): World
    requires p in w.workers && w.workers[p].queue != []
  {
    w.(workers := w.workers[p := w.workers[p].(queue := w.workers[p].queue[1..], acking := false)])
  }

  /** An unreadable payload raises outside the subscriber's `try`, and ends it. */
  function Apply(w: World, step: Step): World
    requires Enabled(w, step)
  {
    match step
    case Publish(f) => w.(stream := Add(w.stream, f))
    case Join(p, name, created) =>
      w.(workers := w.workers[p := Worker(name, [], false)],
         stream := if created then EnsureGroup(w.stream) else w.stream)
    case Fetch(p, count, now) =>
      var (t, ids) := Read(w.stream, w.workers[p].name, count, now).value;
      w.(stream := t, workers := w.workers[p := w.workers[p].(queue := ids)])
    case Claim(p, idle, count, now) =>
      var (t, ids) := ClaimStale(w.stream, w.workers[p].name, idle, count, now).value;
      w.(stream := t, workers := w.workers[p := w.workers[p].(queue := ids)])
    case HandlerOk(p) =>
      var id := w.workers[p].queue[0];
      Called(w, id).(handled := w.handled + {id}, workers := w.workers[p := w.workers[p].(acking := true)])
    case HandlerFails(p) => Next(Called(w, w.workers[p].queue[0]), p)
    case AckOk(p) => Next(w, p).(stream := Ack(w.stream, w.workers[p].queue[0]))
    case AckFails(p) => Next(w, p)
    case Unreadable(p) => w.(workers := w.workers - {p})
    case Crash(p) => w.(workers := w.workers - {p})
  }

  function Init(loads: Loader): World { World(Stream([], None), map[], {}, {}, {}, loads) }

  function Cursor(s: Stream): nat { if s.group.None? then 0 else s.group.value.cursor }

  function Acked(s: Stream): set<nat> { if s.group.None? then {} else s.group.value.acked }

  function Pending(s: Stream): set<nat> { if s.group.None? then {} else s.group.value.pel.Keys }

  predicate WorkerOk(w: World, k: Worker) {
    && (forall i | 0 <= i < |k.queue| :: k.queue[i] < Cursor(w.stream))
    && (k.acking ==> k.queue != [] && k.queue[0] in w.handled)
  }

  ghost predicate Inv(w: World) {
    && Partitioned(w.stream)
    && Acked(w.stream) <= w.handled
    && (forall id | id in w.handled :: id < |w.stream.entries| && Readable(w.loads, w.stream.entries[id]))
    && forall p | p in w.workers :: WorkerOk(w, w.workers[p])
  }

  /** What no step takes back. */
  predicate Grows(s: Stream, t: Stream) {
    && s.entries <= t.entries && (s.group.Some? ==> t.group.Some?)
    && Cursor(s) <= Cursor(t) && Acked(s) <= Acked(t)
  }

  lemma FetchKeeps(w: World, p: nat, count: nat, now: int)
    requires Inv(w) && Enabled(w, Fetch(p, count, now))
    ensures Inv(Apply(w, Fetch(p, count, now))) && Grows(w.stream, Apply(w, Fetch(p, count, now)).stream)
  {
    ReadKeeps(w.stream, w.workers[p].name, count, now);
    hide Read, Partitioned, Readable;
  }

  lemma ClaimKeepsAll(w: World, p: nat, idle: nat, count: nat, now: int)
    requires Inv(w) && Enabled(w, Claim(p, idle, count, now))
    ensures Inv(Apply(w, Claim(p, idle, count, now))) && Grows(w.stream, Apply(w, Claim(p, idle, count, now)).stream)
  {
    ClaimKeeps(w.stream, w.workers[p].name, idle, count, now);
    var (t, ids) := ClaimStale(w.stream, w.workers[p].name, idle, count, now).value;
    assert forall i | 0 <= i < |ids| :: ids[i] in ids && ids[i] in w.stream.group.value.pel;
    hide ClaimStale, Readable;
  }

  lemma AckKeepsAll(w: World, p: nat)
    requires Inv(w) && Enabled(w, AckOk(p))
    ensures Inv(Apply(w, AckOk(p))) && Grows(w.stream, Apply(w, AckOk(p)).stream)
  {
    AckKeeps(w.stream, w.workers[p].queue[0]);
    hide Ack, Partitioned, Readable;
  }

  lemma StepKeeps(w: World, step: Step)
    requires Inv(w) && Enabled(w, step)
    ensures Inv(Apply(w, step)) && Grows(w.stream, Apply(w, step).stream) && Apply(w, step).loads == w.loads
  {
    match step
    case Fetch(p, count, now) => FetchKeeps(w, p, count, now);
    case Claim(p, idle, count, now) => ClaimKeepsAll(w, p, idle, count, now);
    case AckOk(p) => AckKeepsAll(w, p);
    case _ => hide Readable;
  }

  predicate Holds(w: World, p: nat, id: nat) { p in w.workers && id in w.workers[p].queue }

  predicate QueueOk(w: World, k: Worker) {
    && Increasing(k.queue)
    && (forall i | 0 <= i < |k.queue| :: k.queue[i] in Pending(w.stream))
    && forall i | 0 <= i < |k.queue| :: k.queue[i] in w.tried ==> i == 0 && k.acking
  }

  ghost predicate Once(w: World) {
    && w.again == {}
    && (forall id | id in w.tried :: id < Cursor(w.stream))
    && (forall p | p in w.workers :: QueueOk(w, w.workers[p]))
    && Disjoint(w)
  }

  /** No entry is with two subscribers. */
  ghost predicate Disjoint(w: World) { forall p, q, id | Holds(w, p, id) && Holds(w, q, id) :: p == q }

  lemma DisjointShrinks(w: World, v: World)
    requires Disjoint(w) && forall q, x | Holds(v, q, x) :: Holds(w, q, x)
    ensures Disjoint(v)
  {
    hide Holds;
  }

  lemma HeldElsewhere(w: World, p: nat, id: nat)
    requires Once(w) && Holds(w, p, id)
    ensures forall q | q in w.workers && q != p :: id !in w.workers[q].queue
  {
    forall q | q in w.workers && q != p ensures id !in w.workers[q].queue {
      assert id in w.workers[q].queue ==> Holds(w, q, id);
    }
  }

  /** What is held was delivered. */
  lemma HeldDelivered(w: World, p: nat, id: nat)
    requires Inv(w) && Holds(w, p, id)
    ensures id < Cursor(w.stream)
  {
    assert WorkerOk(w, w.workers[p]);
  }

  lemma FetchQueues(w: World, p: nat, count: nat, now: int, q: nat)
    requires Inv(w) && Once(w) && Enabled(w, Fetch(p, count, now)) && q in w.workers
    ensures (var v := Apply(w, Fetch(p, count, now));
             q in v.workers && QueueOk(v, v.workers[q])
               && (q == p ==> forall id | id in v.workers[p].queue :: id >= Cursor(w.stream)))
  {
    ReadKeeps(w.stream, w.workers[p].name, count, now);
    assert QueueOk(w, w.workers[q]);
    hide Read, Partitioned, Readable, Disjoint;
  }

  lemma FetchOnce(w: World, p: nat, count: nat, now: int)
    requires Inv(w) && Once(w) && Enabled(w, Fetch(p, count, now))
    ensures Once(Apply(w, Fetch(p, count, now)))
  {
    var v := Apply(w, Fetch(p, count, now));
    ReadKeeps(w.stream, w.workers[p].name, count, now);
    forall q | q in v.workers ensures QueueOk(v, v.workers[q]) { FetchQueues(w, p, count, now, q); }
    FetchQueues(w, p, count, now, p);
    hide Read, Partitioned, Readable, Inv, QueueOk, Disjoint;
    FetchDisjoint(w, v, p);
  }

  lemma FetchDisjoint(w: World, v: World, p: nat)
    requires Inv(w) && Disjoint(w) && p in w.workers && p in v.workers && v.workers == w.workers[p := v.workers[p]]
    requires forall id | id in v.workers[p].queue :: id >= Cursor(w.stream)
    ensures Disjoint(v)
  {
    forall q, r, id: nat | Holds(v, q, id) && Holds(v, r, id) ensures q == r {
      assert q != p ==> Holds(w, q, id);
      assert r != p ==> Holds(w, r, id);
      if q != p { HeldDelivered(w, q, id); }
      if r != p { HeldDelivered(w, r, id); }
    }
  }

  /** Calling the handler of the first queued entry, which nobody else holds. */
  lemma CallQueues(w: World, step: Step, q: nat)
    requires Once(w) && Enabled(w, step) && (step.HandlerOk? || step.HandlerFails?) && q in w.workers
    ensures q in Apply(w, step).workers && QueueOk(Apply(w, step), Apply(w, step).workers[q])
  {
    var p := step.p;
    assert w.workers[p].queue[0] in w.workers[p].queue;
    HeldElsewhere(w, p, w.workers[p].queue[0]);
    assert QueueOk(w, w.workers[p]) && QueueOk(w, w.workers[q]);
    hide Once, Readable;
  }

  lemma CallOnce(w: World, step: Step)
    requires Inv(w) && Once(w) && Enabled(w, step) && (step.HandlerOk? || step.HandlerFails?)
    ensures Once(Apply(w, step))
  {
    var k := w.workers[step.p];
    var v := Apply(w, step);
    forall q | q in v.workers ensures QueueOk(v, v.workers[q]) { CallQueues(w, step, q); }
    assert WorkerOk(w, k) && QueueOk(w, k);
    assert forall q, x | Holds(v, q, x) :: Holds(w, q, x);
    DisjointShrinks(w, v);
    hide Inv, Readable, Disjoint, QueueOk, Holds;
  }

  lemma AckQueues(w: World, p: nat, q: nat)
    requires Once(w) && Enabled(w, AckOk(p)) && q in w.workers
    ensures (var v := Apply(w, AckOk(p)); q in v.workers && QueueOk(v, v.workers[q]))
  {
    var k := w.workers[p];
    assert k.queue[0] in k.queue;
    HeldElsewhere(w, p, k.queue[0]);
    assert QueueOk(w, k) && QueueOk(w, w.workers[q]);
    hide Once, Readable;
  }

  lemma AckOnce(w: World, p: nat)
    requires Inv(w) && Once(w) && Enabled(w, AckOk(p))
    ensures Once(Apply(w, AckOk(p)))
  {
    var v, k := Apply(w, AckOk(p)), w.workers[p];
    AckKeeps(w.stream, k.queue[0]);
    forall q | q in v.workers ensures QueueOk(v, v.workers[q]) { AckQueues(w, p, q); }
    assert forall q, x | Holds(v, q, x) :: Holds(w, q, x);
    DisjointShrinks(w, v);
    hide Inv, Readable, Partitioned, Ack, QueueOk, Disjoint, Holds;
  }

  predicate LeavesOthers(step: Step) {
    !step.Claim? && !step.Fetch? && !step.HandlerOk? && !step.HandlerFails? && !step.AckOk?
  }

  lemma RestQueues(w: World, step: Step, q: nat)
    requires Once(w) && Enabled(w, step) && LeavesOthers(step) && q in Apply(w, step).workers
    ensures QueueOk(Apply(w, step), Apply(w, step).workers[q])
  {
    hide Readable, Disjoint, Partitioned;
    if q in w.workers { assert QueueOk(w, w.workers[q]); }
  }

  lemma RestHolds(w: World, step: Step)
    requires Enabled(w, step) && LeavesOthers(step)
    ensures forall q, x | Holds(Apply(w, step), q, x) :: Holds(w, q, x)
  {
    hide Readable;
  }

  lemma RestOnce(w: World, step: Step)
    requires Inv(w) && Once(w) && Enabled(w, step) && LeavesOthers(step)
    ensures Once(Apply(w, step))
  {
    hide Inv, Readable, QueueOk, Disjoint, Holds, Partitioned;
    var v := Apply(w, step);
    StepKeeps(w, step);
    RestHolds(w, step);
    DisjointShrinks(w, v);
    forall q | q in v.workers ensures QueueOk(v, v.workers[q]) { RestQueues(w, step, q); }
  }

  lemma StepOnce(w: World, step: Step)
    requires Inv(w) && Once(w) && Enabled(w, step) && !step.Claim?
    ensures Once(Apply(w, step))
  {
    hide Inv, Once;
    match step
    case Fetch(p, count, now) => FetchOnce(w, p, count, now);
    case HandlerOk(p) => CallOnce(w, step);
    case HandlerFails(p) => CallOnce(w, step);
    case AckOk(p) => AckOnce(w, p);
    case _ => RestOnce(w, step);
  }

  /** Pending, and no running subscriber has it. */
  predicate Stranded(w: World, id: nat) {
    id in Pending(w.stream) && forall p | p in w.workers :: id !in w.workers[p].queue
  }

  lemma StrandedStep(w: World, step: Step, id: nat)
    requires Inv(w) && Stranded(w, id) && Enabled(w, step) && !step.Claim?
    ensures Stranded(Apply(w, step), id)
  {
    match step
    case Fetch(p, count, now) =>
      ReadKeeps(w.stream, w.workers[p].name, count, now);
      hide Read, Readable;
    case AckOk(p) =>
      AckKeeps(w.stream, w.workers[p].queue[0]);
      hide Ack, Readable;
    case _ => hide Readable;
  }

  // ---- a payload that is not JSON ends the subscriber -----------------------------------------

  /** The worker is about to take up an entry whose payload does not decode. */
  predicate Stuck(w: World, p: nat) {
    Busy(w, p) && !w.workers[p].acking && !NextReadable(w, p)
  }

  lemma StuckStep(w: World, step: Step, p: nat)
    requires Inv(w) && Stuck(w, p) && Enabled(w, step)
    ensures (var v := Apply(w, step); p in v.workers ==> v.workers[p] == w.workers[p] && Stuck(v, p))
  {
    StepKeeps(w, step);
    hide Inv, Readable, Read, ClaimStale, Ack;
  }
}
