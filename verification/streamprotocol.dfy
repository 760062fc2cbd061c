/** What holds in every run of publishers, subscribers and claimers on one stream. */
module StreamProtocol {
  import opened Common
  import opened Json
  import opened JsonText
  import opened StreamOps
  import opened StreamMachine
  import Utf8

  /** What is published is what a subscriber reads back; only an empty tenant reads as none. */
  lemma PublishedReadsBack(tenant: Option<string>, v: Json)
    requires Wf(v)
    ensures Clean(Loads, Published(tenant, v)) && Published(tenant, v)["payload"] == Utf8.Encode(Print(v, SPACED))
    ensures "tenant_id" in Published(tenant, v) <==> tenant.Some?
    ensures Decode(Loads, Published(tenant, v)) == Some((if tenant == Some("") then None else tenant, v))
  {
    LoadsDumps(v, SPACED);
    var text := Print(v, SPACED);
    Utf8.DecodeExact(Utf8.Encode(text), text);
    if tenant.Some? { Utf8.DecodeExact(Utf8.Encode(tenant.value), tenant.value); }
    NotEmpty(v);
    hide Print, Loads, Utf8.Decode;
    ReadableExactly(Loads, Published(tenant, v));
  }

  /** Printed JSON is not empty, since nothing is read from an empty text. */
  lemma NotEmpty(v: Json)
    requires Wf(v)
    ensures Utf8.Encode(Print(v, SPACED)) != []
  {
    LoadsDumps(v, SPACED);
    var text := Print(v, SPACED);
    hide Print;
    Utf8.DecodeExact(Utf8.Encode(text), text);
    assert Utf8.Decode([]) == Some("") && Loads("") == None;
  }

  /** The payload is the UTF-8 of some non-empty text that `json.loads` reads, and the tenant id, if the entry
      has one, is the UTF-8 of some text. */
  ghost predicate Clean(loads: Loader, f: Fields) {
    && "payload" in f
    && (exists text :: text != "" && f["payload"] == Utf8.Encode(text) && loads(text).Some?)
    && ("tenant_id" in f ==> exists tenant :: f["tenant_id"] == Utf8.Encode(tenant))
  }

  lemma ReadableExactly(loads: Loader, f: Fields)
    ensures Readable(loads, f) <==> Clean(loads, f)
  {
    if PAYLOAD in f {
      forall text ensures Utf8.Decode(f[PAYLOAD]) == Some(text) <==> f[PAYLOAD] == Utf8.Encode(text) {
        Utf8.DecodeExact(f[PAYLOAD], text);
      }
    }
    if TENANT in f {
      forall text ensures Utf8.Decode(f[TENANT]) == Some(text) <==> f[TENANT] == Utf8.Encode(text) {
        Utf8.DecodeExact(f[TENANT], text);
      }
    }
  }

  /** Three ways not to be clean, whatever `json.loads` accepts: no payload, and a payload or a tenant id that is
      not UTF-8. */
  lemma UncleanInputs(loads: Loader, tenant: bytes, payload: bytes)
    ensures !Clean(loads, map[TENANT := tenant])
    ensures !Clean(loads, map[PAYLOAD := [0xFF]])
    ensures !Clean(loads, map[TENANT := [0xFF], PAYLOAD := payload])
  {
    var empty := map[TENANT := tenant];
    assert PAYLOAD !in empty by { assert TENANT[0] != PAYLOAD[0]; }
    forall text ensures Utf8.Encode(text) != [0xFF] {
      Utf8.DecodeExact([0xFF], text);
      assert Utf8.DecodeChar([0xFF]) == None;
    }
  }

  ghost predicate Moves(w: World, v: World) { exists step :: Enabled(w, step) && v == Apply(w, step) }

  ghost predicate Run(trace: seq<World>) { trace != [] && trace[0] == Init(trace[0].loads) && Linked(trace, Moves) }

  lemma {:induction false} InvHolds(trace: seq<World>, n: nat)
    requires Run(trace) && n < |trace|
    ensures Inv(trace[n]) && trace[n].loads == trace[0].loads
  {
    if n > 0 {
      InvHolds(trace, n - 1);
      assert Moves(trace[n - 1], trace[n]);
      hide Inv, Enabled, Apply;
      var step :| Enabled(trace[n - 1], step) && trace[n] == Apply(trace[n - 1], step);
      StepKeeps(trace[n - 1], step);
    }
  }

  /** In every run, each entry is in exactly one of: not yet delivered, pending at one consumer,
      acknowledged; and it is acknowledged only if its handler has finished. */
  lemma ExactlyOnePlace(trace: seq<World>, n: nat, id: nat)
    requires Run(trace) && n < |trace| && id < |trace[n].stream.entries|
    ensures (var s := trace[n].stream;
             && (id >= Cursor(s) ==> id !in Pending(s) && id !in Acked(s))
             && (id < Cursor(s) ==> (id in Pending(s) <==> id !in Acked(s)))
             && (id in Acked(s) ==> id in trace[n].handled))
  {
    InvHolds(trace, n);
  }

  /** Entries are never withdrawn, the group's cursor never moves back and an acknowledgement is final,
      however often the group is created again. */
  lemma {:induction false} NothingTakenBack(trace: seq<World>, m: nat, n: nat)
    requires Run(trace) && m <= n < |trace|
    ensures Grows(trace[m].stream, trace[n].stream)
    decreases n - m
  {
    hide Inv, Enabled, Apply;
    if m < n {
      NothingTakenBack(trace, m, n - 1);
      InvHolds(trace, n - 1);
      assert Moves(trace[n - 1], trace[n]);
      var step :| Enabled(trace[n - 1], step) && trace[n] == Apply(trace[n - 1], step);
      StepKeeps(trace[n - 1], step);
    }
  }

  /** An entry that is not clean is never handled and never acknowledged: once delivered it stays pending,
      ending every subscriber that comes to it. */
  lemma UnreadableStaysPending(trace: seq<World>, n: nat, id: nat)
    requires Run(trace) && n < |trace| && id < |trace[n].stream.entries|
    requires !Clean(trace[n].loads, trace[n].stream.entries[id])
    ensures id !in trace[n].handled && id !in Acked(trace[n].stream)
    ensures id < Cursor(trace[n].stream) ==> id in Pending(trace[n].stream)
  {
    InvHolds(trace, n);
    hide Readable, Clean;
    ReadableExactly(trace[n].loads, trace[n].stream.entries[id]);
  }

  /** In every run, whoever else takes part: a claim comes back empty exactly when every entry stale by then has
      ten times `count` pending entries before it that are not. A claimer that has acknowledged all it claimed
      and then claims nothing leaves only such entries. */
  lemma EmptyClaimMeans(trace: seq<World>, n: nat, p: nat, idle: nat, count: nat, now: int)
    requires Run(trace) && n < |trace| && Enabled(trace[n], Claim(p, idle, count, now))
    ensures (var w := trace[n]; var pel := w.stream.group.value.pel;
             ClaimStale(w.stream, w.workers[p].name, idle, count, now).value.1 == []
             <==> forall id | Stale(pel, id, idle, now) :: FreshBelow(pel, id, idle, now) >= ScanLimit(count))
  {
    InvHolds(trace, n);
    hide Claimed, FreshBelow, Readable;
    var g := trace[n].stream.group.value;
    assert forall id | id in g.pel :: id < g.cursor;
    ClaimsNothingExactly(g, idle, count, now);
  }

  // ---- leases ------------------------------------------------------------------------

  /** A run with its steps. */
  ghost predicate Stepped(trace: seq<World>, steps: seq<Step>) {
    && |trace| == |steps| + 1 && trace[0] == Init(trace[0].loads)
    && forall n | 0 <= n < |steps| :: Enabled(trace[n], steps[n]) && trace[n + 1] == Apply(trace[n], steps[n])
  }

  predicate Timed(step: Step) { step.Fetch? || step.Claim? }

  /** The fetch or claim hands out entry `id`. */
  predicate HandsOut(w: World, step: Step, id: nat)
    requires Enabled(w, step) && Timed(step)
  {
    if step.Fetch? then id in Read(w.stream, w.workers[step.p].name, step.count, step.now).value.1
    else id in ClaimStale(w.stream, w.workers[step.p].name, step.idle, step.count, step.now).value.1
  }

  /** If entry `id` is pending, it was handed out at `t` or later. */
  predicate LeasedSince(w: World, id: nat, t: int) {
    w.stream.group.Some? && id in w.stream.group.value.pel ==> w.stream.group.value.pel[id].since >= t
  }

  lemma HandedOutLeases(w: World, step: Step, id: nat)
    requires Inv(w) && Enabled(w, step) && Timed(step) && HandsOut(w, step, id)
    ensures LeasedSince(Apply(w, step), id, step.now) && id in Pending(Apply(w, step).stream)
  {
    if step.Fetch? {
      var (t, ids) := Read(w.stream, w.workers[step.p].name, step.count, step.now).value;
      ReadKeeps(w.stream, w.workers[step.p].name, step.count, step.now);
      assert id in t.group.value.pel;
    } else {
      ClaimKeeps(w.stream, w.workers[step.p].name, step.idle, step.count, step.now);
      hide Claimed;
    }
  }

  lemma LeaseStep(w: World, step: Step, id: nat, t: int)
    requires Inv(w) && Enabled(w, step) && LeasedSince(w, id, t) && id < Cursor(w.stream)
    requires Timed(step) ==> step.now >= t
    ensures LeasedSince(Apply(w, step), id, t) && id < Cursor(Apply(w, step).stream)
  {
    match step
    case Fetch(p, count, now) =>
      ReadKeeps(w.stream, w.workers[p].name, count, now);
      hide Read, Readable;
    case Claim(p, idle, count, now) =>
      ClaimKeeps(w.stream, w.workers[p].name, idle, count, now);
      hide ClaimStale, Readable;
    case AckOk(p) =>
      AckKeeps(w.stream, w.workers[p].queue[0]);
      hide Ack, Readable;
    case _ => hide Readable;
  }

  lemma {:induction false} SteppedInv(trace: seq<World>, steps: seq<Step>, n: nat)
    requires Stepped(trace, steps) && n < |trace|
    ensures Inv(trace[n])
  {
    if n > 0 {
      hide Inv, Enabled, Apply;
      SteppedInv(trace, steps, n - 1);
      StepKeeps(trace[n - 1], steps[n - 1]);
    }
  }

  lemma {:induction false} StaysLeased(trace: seq<World>, steps: seq<Step>, m: nat, n: nat, id: nat)
    requires Stepped(trace, steps) && m < n <= |steps| && Timed(steps[m]) && HandsOut(trace[m], steps[m], id)
    requires forall k | m < k < n && Timed(steps[k]) :: steps[k].now >= steps[m].now
    ensures Inv(trace[n]) && LeasedSince(trace[n], id, steps[m].now) && id < Cursor(trace[n].stream)
    decreases n
  {
    hide Inv, Enabled, Apply, HandsOut, LeasedSince;
    SteppedInv(trace, steps, n);
    SteppedInv(trace, steps, n - 1);
    if n == m + 1 {
      HandedOutLeases(trace[m], steps[m], id);
      PendingDelivered(trace[n], id);
    } else {
      StaysLeased(trace, steps, m, n - 1, id);
      LeaseStep(trace[n - 1], steps[n - 1], id, steps[m].now);
    }
  }

  lemma PendingDelivered(w: World, id: nat)
    requires Inv(w) && id in Pending(w.stream)
    ensures id < Cursor(w.stream)
  {}

  /** In every run with a clock that does not run backwards: an entry handed out at some time, by a fetch or a
      claim, is in no claim made less than that claim's own `idle` later. */
  lemma LeaseRespected(trace: seq<World>, steps: seq<Step>, m: nat, n: nat, id: nat)
    requires Stepped(trace, steps) && m < n < |steps| && Timed(steps[m]) && HandsOut(trace[m], steps[m], id)
    requires forall k | m < k < n && Timed(steps[k]) :: steps[k].now >= steps[m].now
    requires steps[n].Claim? && steps[n].now < steps[m].now + steps[n].idle
    ensures !HandsOut(trace[n], steps[n], id)
  {
    StaysLeased(trace, steps, m, n, id);
    hide Stepped, Readable;
    var g := trace[n].stream.group.value;
    ClaimedExactly(g, steps[n].idle, steps[n].count, steps[n].now, id);
    hide Claimed, PendingBefore, ClaimableBefore;
  }

  /** In the other direction, in every run: a claim takes every entry whose time is up, unless ten times `count`
      pending or `count` claimable ones come before it. */
  lemma ClaimsWhenDue(trace: seq<World>, n: nat, p: nat, idle: nat, count: nat, now: int, id: nat)
    requires Run(trace) && n < |trace| && Enabled(trace[n], Claim(p, idle, count, now))
    requires (var pel := trace[n].stream.group.value.pel;
              && id in pel && now - pel[id].since >= idle
              && |PendingBefore(pel, id)| < 10 * count && |ClaimableBefore(pel, id, idle, now)| < count)
    ensures HandsOut(trace[n], Claim(p, idle, count, now), id)
  {
    InvHolds(trace, n);
    hide Claimed, PendingBefore, ClaimableBefore, Readable, Run;
    ClaimedExactly(trace[n].stream.group.value, idle, count, now, id);
  }

  /** Claims deliver at least once, not at most once: a claimer whose `idle` has passed takes over an entry that its
      first subscriber is still handling, and the handler is called a second time. */
  lemma ClaimDeliversTwice(loads: Loader, f: Fields) returns (trace: seq<World>)
    requires Clean(loads, f)
    ensures Run(trace) && trace[|trace| - 1].again == {0}
  {
    ReadableExactly(loads, f);
    trace := [Init(loads)];
    assert Run(trace);
    hide Run, Readable, Clean;
    trace := ExtendAny(trace, Publish(f));
    trace := ExtendAny(trace, Join(0, "a", true));
    assert Fresh(trace[|trace| - 1].stream, 1) == [0];
    trace := ExtendAny(trace, Fetch(0, 1, 0));
    trace := ExtendAny(trace, Join(1, "b", true));
    assert Claimed(trace[|trace| - 1].stream.group.value, 10, 1, 10) == [0];
    trace := ExtendAny(trace, Claim(1, 10, 1, 10));
    trace := ExtendAny(trace, HandlerOk(0));
    trace := ExtendAny(trace, HandlerOk(1));
  }

  lemma ExtendAny(trace: seq<World>, step: Step) returns (more: seq<World>)
    requires Run(trace) && Enabled(trace[|trace| - 1], step)
    ensures Run(more) && |more| > 0 && more[|more| - 1] == Apply(trace[|trace| - 1], step)
  {
    hide Enabled, Apply;
    var w := Apply(trace[|trace| - 1], step);
    assert Moves(trace[|trace| - 1], w);
    LinkedSnoc(trace, Moves, w);
    more := trace + [w];
  }

  // ---- nothing is left over when nothing fails -----------------------------------------

  predicate Fails(step: Step) { step.HandlerFails? || step.AckFails? || step.Unreadable? || step.Crash? }

  ghost predicate MovesSound(w: World, v: World) {
    exists step :: Enabled(w, step) && !Fails(step) && v == Apply(w, step)
  }

  ghost predicate SoundRun(trace: seq<World>) {
    trace != [] && trace[0] == Init(trace[0].loads) && Linked(trace, MovesSound)
  }

  ghost predicate SomeoneHas(w: World, id: nat) { exists p :: Holds(w, p, id) }

  /** Every pending entry is with a subscriber. */
  ghost predicate AllHeld(w: World) { forall id | id in Pending(w.stream) :: SomeoneHas(w, id) }

  lemma HeldByOthers(w: World, v: World, p: nat, id: nat)
    requires SomeoneHas(w, id)
    requires forall q | q in w.workers && q != p :: q in v.workers && v.workers[q] == w.workers[q]
    requires Holds(w, p, id) ==> Holds(v, p, id)
    ensures SomeoneHas(v, id)
  {
    var q :| Holds(w, q, id);
    assert Holds(v, q, id);
  }

  lemma FetchHeld(w: World, step: Step)
    requires Inv(w) && AllHeld(w) && Enabled(w, step) && Timed(step)
    ensures AllHeld(Apply(w, step))
  {
    var v := Apply(w, step);
    if step.Fetch? {
      ReadKeeps(w.stream, w.workers[step.p].name, step.count, step.now);
    } else {
      ClaimKeeps(w.stream, w.workers[step.p].name, step.idle, step.count, step.now);
    }
    hide Read, ClaimStale, Readable, SomeoneHas, Inv;
    forall id | id in Pending(v.stream) ensures SomeoneHas(v, id) {
      if id in Pending(w.stream) {
        HeldByOthers(w, v, step.p, id);
      } else {
        assert Holds(v, step.p, id);
        HasOne(v, step.p, id);
      }
    }
  }

  lemma HasOne(w: World, p: nat, id: nat)
    requires Holds(w, p, id)
    ensures SomeoneHas(w, id)
  {}

  lemma AckHeld(w: World, p: nat)
    requires Inv(w) && AllHeld(w) && Enabled(w, AckOk(p))
    ensures AllHeld(Apply(w, AckOk(p)))
  {
    var v := Apply(w, AckOk(p));
    AckKeeps(w.stream, w.workers[p].queue[0]);
    hide Ack, Readable, SomeoneHas, Inv;
    forall id | id in Pending(v.stream) ensures SomeoneHas(v, id) {
      assert id != w.workers[p].queue[0];
      HeldByOthers(w, v, p, id);
    }
  }

  lemma StepHeld(w: World, step: Step)
    requires Inv(w) && AllHeld(w) && Enabled(w, step) && !Fails(step)
    ensures AllHeld(Apply(w, step))
  {
    match step
    case Fetch(_, _, _) => FetchHeld(w, step);
    case Claim(_, _, _, _) => FetchHeld(w, step);
    case AckOk(p) => AckHeld(w, p);
    case Publish(_) => OthersHeld(w, step, 0);
    case Join(p, _, _) => OthersHeld(w, step, p);
    case HandlerOk(p) => OthersHeld(w, step, p);
    case _ =>
  }

  lemma OthersHeld(w: World, step: Step, p: nat)
    requires Inv(w) && AllHeld(w) && Enabled(w, step)
    requires step.Publish? || (step.Join? && step.p == p) || (step.HandlerOk? && step.p == p)
    ensures AllHeld(Apply(w, step))
  {
    var v := Apply(w, step);
    hide Readable, SomeoneHas, Inv;
    forall id | id in Pending(v.stream) ensures SomeoneHas(v, id) { HeldByOthers(w, v, p, id); }
  }

  lemma {:induction false} AllHeldHolds(trace: seq<World>, n: nat)
    requires SoundRun(trace) && n < |trace|
    ensures Inv(trace[n]) && AllHeld(trace[n])
  {
    if n > 0 {
      AllHeldHolds(trace, n - 1);
      assert MovesSound(trace[n - 1], trace[n]);
      hide Inv, AllHeld, Enabled, Apply;
      var step :| Enabled(trace[n - 1], step) && !Fails(step) && trace[n] == Apply(trace[n - 1], step);
      StepKeeps(trace[n - 1], step);
      StepHeld(trace[n - 1], step);
    }
  }

  /** In every run in which no handler fails, no acknowledgement is lost and no subscriber ends, every entry handed
      out is acknowledged or still with a subscriber: once all are idle, each of them is handled and acknowledged. */
  lemma NothingLeftOver(trace: seq<World>, n: nat, id: nat)
    requires SoundRun(trace) && n < |trace| && id < Cursor(trace[n].stream)
    ensures (var w := trace[n];
             && (id in Acked(w.stream) || exists p :: p in w.workers && id in w.workers[p].queue)
             && ((forall p | p in w.workers :: Idle(w, p)) ==> id in Acked(w.stream) && id in w.handled))
  {
    AllHeldHolds(trace, n);
    var w := trace[n];
    if id !in Acked(w.stream) {
      assert SomeoneHas(w, id);
      var p :| Holds(w, p, id);
    }
  }

  // ---- the bus without claims ---------------------------------------------------------

  ghost predicate MovesUnclaimed(w: World, v: World) {
    exists step :: Enabled(w, step) && !step.Claim? && v == Apply(w, step)
  }

  ghost predicate UnclaimedRun(trace: seq<World>) {
    trace != [] && trace[0] == Init(trace[0].loads) && Linked(trace, MovesUnclaimed)
  }

  lemma Extend(trace: seq<World>, step: Step) returns (more: seq<World>)
    requires UnclaimedRun(trace) && Enabled(trace[|trace| - 1], step) && !step.Claim?
    ensures UnclaimedRun(more) && |more| > 0 && more[|more| - 1] == Apply(trace[|trace| - 1], step)
  {
    hide Enabled, Apply;
    var w := Apply(trace[|trace| - 1], step);
    assert MovesUnclaimed(trace[|trace| - 1], w);
    LinkedSnoc(trace, MovesUnclaimed, w);
    more := trace + [w];
  }

  lemma {:induction false} OnceHolds(trace: seq<World>, n: nat)
    requires UnclaimedRun(trace) && n < |trace|
    ensures Inv(trace[n]) && Once(trace[n])
  {
    if n > 0 {
      OnceHolds(trace, n - 1);
      assert MovesUnclaimed(trace[n - 1], trace[n]);
      hide Inv, Once, Enabled, Apply;
      var step :| Enabled(trace[n - 1], step) && !step.Claim? && trace[n] == Apply(trace[n - 1], step);
      StepKeeps(trace[n - 1], step);
      StepOnce(trace[n - 1], step);
    }
  }

  /** `RedisEventBus` alone, which never claims, calls the handler of an entry at most once, whatever the
      number of subscribers, failures and crashes. */
  lemma BusAloneAtMostOnce(trace: seq<World>, n: nat)
    requires UnclaimedRun(trace) && n < |trace|
    ensures trace[n].again == {}
  {
    OnceHolds(trace, n);
  }

  /** And so an entry whose handler failed, whose acknowledgement was lost or whose subscriber died is
      never delivered again until something claims it. */
  lemma {:induction false} StrandedForever(trace: seq<World>, m: nat, n: nat, id: nat)
    requires UnclaimedRun(trace) && m <= n < |trace| && Stranded(trace[m], id)
    ensures Stranded(trace[n], id)
    decreases n - m
  {
    hide Inv, Once, Enabled, Apply, Stranded;
    if m < n {
      StrandedForever(trace, m, n - 1, id);
      OnceHolds(trace, n - 1);
      assert MovesUnclaimed(trace[n - 1], trace[n]);
      var step :| Enabled(trace[n - 1], step) && !step.Claim? && trace[n] == Apply(trace[n - 1], step);
      StrandedStep(trace[n - 1], step, id);
    }
  }

  /** A subscriber lets go of its first entry unacknowledged: its handler failed or its XACK was lost. */
  predicate LetsGo(step: Step, p: nat) { step == HandlerFails(p) || step == AckFails(p) }

  /** That strands the entry, whoever else is running. */
  lemma FailureStrands(trace: seq<World>, n: nat, p: nat, step: Step)
    requires UnclaimedRun(trace) && n < |trace| && LetsGo(step, p) && Enabled(trace[n], step)
    ensures Stranded(Apply(trace[n], step), trace[n].workers[p].queue[0])
  {
    var w := trace[n];
    OnceHolds(trace, n);
    var id := w.workers[p].queue[0];
    assert id in w.workers[p].queue;
    HeldElsewhere(w, p, id);
    assert WorkerOk(w, w.workers[p]) && QueueOk(w, w.workers[p]);
    hide Readable;
  }

  /** A subscriber ends: at an unreadable payload, or anywhere. */
  predicate Dies(step: Step, p: nat) { step == Unreadable(p) || step == Crash(p) }

  /** That strands every entry it had fetched and not finished with. */
  lemma DeathStrands(trace: seq<World>, n: nat, p: nat, step: Step, id: nat)
    requires UnclaimedRun(trace) && n < |trace| && Dies(step, p) && Enabled(trace[n], step)
    requires id in trace[n].workers[p].queue
    ensures p !in Apply(trace[n], step).workers && Stranded(Apply(trace[n], step), id)
  {
    var w := trace[n];
    OnceHolds(trace, n);
    assert Holds(w, p, id) && QueueOk(w, w.workers[p]);
    HeldElsewhere(w, p, id);
    hide Readable, Inv;
  }

  /** What a subscriber itself does with the entry it has come to. */
  predicate OwnStep(step: Step, p: nat) { step in {HandlerOk(p), HandlerFails(p), Unreadable(p)} }

  /** A subscriber gets past the entry it has come to exactly when the entry is clean: it has a next step of its
      own in either case, and survives each such step if and only if payload and tenant id read. */
  lemma SurvivesExactly(w: World, p: nat)
    requires Busy(w, p) && !w.workers[p].acking
    ensures (var clean := Clean(w.loads, w.stream.entries[w.workers[p].queue[0]]);
             && (exists step :: OwnStep(step, p) && Enabled(w, step))
             && forall step | OwnStep(step, p) && Enabled(w, step) :: p in Apply(w, step).workers <==> clean)
  {
    hide Readable, Clean;
    ReadableExactly(w.loads, w.stream.entries[w.workers[p].queue[0]]);
    var step := if NextReadable(w, p) then HandlerOk(p) else Unreadable(p);
    assert OwnStep(step, p) && Enabled(w, step);
  }

  lemma StuckMove(w: World, v: World, p: nat)
    requires Inv(w) && Stuck(w, p) && Moves(w, v)
    ensures p in v.workers ==> v.workers[p] == w.workers[p] && Stuck(v, p)
  {
    var step :| Enabled(w, step) && v == Apply(w, step);
    hide Inv, Stuck, Enabled, Apply;
    StuckStep(w, step, p);
  }

  /** In every run: from the moment a subscriber has come to an unreadable entry it makes no progress at all, in
      anything it had fetched, for as long as it lives. */
  lemma {:induction false} UnreadableStopsSubscriber(trace: seq<World>, m: nat, n: nat, p: nat)
    requires Run(trace) && m <= n < |trace| && Stuck(trace[m], p)
    requires forall k | m <= k <= n :: p in trace[k].workers
    ensures Stuck(trace[n], p) && trace[n].workers[p] == trace[m].workers[p]
    decreases n - m
  {
    hide Stuck, Inv;
    if m < n {
      UnreadableStopsSubscriber(trace, m, n - 1, p);
      InvHolds(trace, n - 1);
      assert Moves(trace[n - 1], trace[n]);
      hide Moves;
      StuckMove(trace[n - 1], trace[n], p);
    }
  }

  /** Such a run: an unreadable entry ends the one subscriber, and a good entry fetched with it is stranded
      beside it, its handler never called. */
  lemma UnreadableEndsSubscriber(loads: Loader, bad: Fields, good: Fields) returns (trace: seq<World>)
    requires !Clean(loads, bad) && Clean(loads, good)
    ensures UnclaimedRun(trace)
    ensures (var w := trace[|trace| - 1];
             && w.loads == loads && w.stream.entries == [bad, good] && w.workers == map[] && w.tried == {}
             && Stranded(w, 0) && Stranded(w, 1))
  {
    trace := [Init(loads)];
    assert UnclaimedRun(trace);
    hide UnclaimedRun, Readable, Clean;
    ReadableExactly(loads, bad);
    ReadableExactly(loads, good);
    trace := Extend(trace, Publish(bad));
    trace := Extend(trace, Publish(good));
    trace := Extend(trace, Join(0, "c", true));
    assert Fresh(trace[|trace| - 1].stream, 100) == [0, 1];
    trace := Extend(trace, Fetch(0, 100, 0));
    trace := Extend(trace, Unreadable(0));
  }
}
