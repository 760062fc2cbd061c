/** What holds in every run of pollers and publishers: what is handled, and exactly what is lost. */
module EventBusRace {
  import opened Common
  import opened EventBusOps
  import opened EventBusMachine

  ghost predicate Next(s: State, topic: string, limit: nat, t: State) {
    exists step :: Enabled(s, step) && t == Apply(s, topic, limit, step)
  }

  ghost predicate Run(trace: seq<State>, topic: string, limit: nat) {
    && trace != [] && trace[0] == INIT
    && forall n | 0 <= n < |trace| - 1 :: Next(trace[n], topic, limit, trace[n + 1])
  }

  lemma MoveKeeps(s: State, topic: string, limit: nat, t: State)
    requires Inv(s, topic) && Next(s, topic, limit, t)
    ensures Inv(t, topic)
  {
    var step :| Enabled(s, step) && t == Apply(s, topic, limit, step);
    hide Inv, Enabled, Apply;
    StepKeeps(s, topic, limit, step);
  }

  lemma {:induction false} InvHolds(trace: seq<State>, topic: string, limit: nat, n: nat)
    requires Run(trace, topic, limit) && n < |trace|
    ensures Inv(trace[n], topic)
  {
    if n > 0 {
      InvHolds(trace, topic, limit, n - 1);
      hide Inv, Next;
      MoveKeeps(trace[n - 1], topic, limit, trace[n]);
    }
  }

  /** At least once, in every run: an event at or below the offset has been handled, unless its id was
      committed only after some poll had already read past it. A slow poller moving the offset back does
      not matter. */
  lemma AtLeastOnce(trace: seq<State>, topic: string, limit: nat, n: nat, e: Event)
    requires Run(trace, topic, limit) && n < |trace|
    requires e in trace[n].table && e.topic == topic && e.id <= trace[n].last && e.id !in trace[n].late
    ensures e.id in trace[n].handled
  {
    InvHolds(trace, topic, limit, n);
  }

  ghost predicate NextInOrder(s: State, topic: string, limit: nat, t: State) {
    exists step :: Enabled(s, step) && InOrder(s, step) && t == Apply(s, topic, limit, step)
  }

  ghost predicate OrderedRun(trace: seq<State>, topic: string, limit: nat) {
    && trace != [] && trace[0] == INIT
    && forall n | 0 <= n < |trace| - 1 :: NextInOrder(trace[n], topic, limit, trace[n + 1])
  }

  lemma OrderedMove(s: State, topic: string, limit: nat, t: State)
    requires Inv(s, topic) && HorizonCommitted(s) && NextInOrder(s, topic, limit, t)
    ensures Inv(t, topic) && HorizonCommitted(t)
  {
    var step :| Enabled(s, step) && InOrder(s, step) && t == Apply(s, topic, limit, step);
    hide Inv, HorizonCommitted, Enabled, Apply, InOrder;
    OrderedStep(s, topic, limit, step);
    StepKeeps(s, topic, limit, step);
  }

  lemma {:induction false} OrderedRunNeverLate(trace: seq<State>, topic: string, limit: nat, n: nat)
    requires OrderedRun(trace, topic, limit) && n < |trace|
    ensures Inv(trace[n], topic) && HorizonCommitted(trace[n])
  {
    if n > 0 {
      OrderedRunNeverLate(trace, topic, limit, n - 1);
      hide Inv, HorizonCommitted, NextInOrder;
      OrderedMove(trace[n - 1], topic, limit, trace[n]);
    }
  }

  /** With commits in id order every event at or below the offset has been handled, whatever the pollers,
      failures and crashes. */
  lemma OrderedAtLeastOnce(trace: seq<State>, topic: string, limit: nat, n: nat)
    requires OrderedRun(trace, topic, limit) && n < |trace|
    ensures forall e | e in trace[n].table && e.topic == topic && e.id <= trace[n].last :: e.id in trace[n].handled
  {
    OrderedRunNeverLate(trace, topic, limit, n);
  }

  // ---- which events can still be handled ----------------------------------------------

  /** Any stretch of a run. */
  ghost predicate Path(trace: seq<State>, topic: string, limit: nat) {
    trace != [] && forall n | 0 <= n < |trace| - 1 :: Next(trace[n], topic, limit, trace[n + 1])
  }

  function Last(trace: seq<State>): State
    requires trace != []
  {
    trace[|trace| - 1]
  }

  lemma Extend(trace: seq<State>, topic: string, limit: nat, step: Step) returns (more: seq<State>)
    requires Path(trace, topic, limit) && Enabled(Last(trace), step)
    ensures more != [] && Path(more, topic, limit) && more[0] == trace[0]
      && Last(more) == Apply(Last(trace), topic, limit, step)
  {
    var moves := (s: State, t: State) => Next(s, topic, limit, t);
    var s := Apply(Last(trace), topic, limit, step);
    assert Next(Last(trace), topic, limit, s);
    hide Enabled, Apply, Next;
    LinkedSnoc(trace, moves, s);
    more := trace + [s];
    assert forall n | 0 <= n < |more| - 1 :: moves(more[n], more[n + 1]);
  }

  lemma {:induction false} OutOfReachForever(path: seq<State>, topic: string, limit: nat, n: nat, e: Event)
    requires Path(path, topic, limit) && n < |path| && Inv(path[0], topic) && OutOfReach(path[0], e)
    ensures Inv(path[n], topic) && OutOfReach(path[n], e)
  {
    if n > 0 {
      OutOfReachForever(path, topic, limit, n - 1, e);
      assert Next(path[n - 1], topic, limit, path[n]);
      var step :| Enabled(path[n - 1], step) && path[n] == Apply(path[n - 1], topic, limit, step);
      assert Ascending(path[n - 1].table);
      hide Inv, OutOfReach, Enabled, Apply, Ascending;
      StepKeeps(path[n - 1], topic, limit, step);
      StaysOutOfReach(path[n - 1], topic, limit, step, e);
    }
  }

  /** A poll goes on to handle its batch up to position `k`. */
  lemma {:induction false} HandleUpTo(trace: seq<State>, topic: string, limit: nat, p: nat, k: nat)
      returns (more: seq<State>)
    requires Path(trace, topic, limit) && p in Last(trace).flights
    requires Last(trace).flights[p].done <= k <= |Last(trace).flights[p].batch|
    ensures more != [] && Path(more, topic, limit) && more[0] == trace[0]
    ensures (var s, t := Last(trace), Last(more); var f := s.flights[p];
             && t.table == s.table && t.last == s.last && t.flights == s.flights[p := f.(done := k)]
             && forall i | f.done <= i < k :: f.batch[i].id in t.handled)
    ensures Last(trace).handled <= Last(more).handled
    decreases k - Last(trace).flights[p].done
  {
    var f := Last(trace).flights[p];
    hide Path;
    if f.done == k {
      more := trace;
    } else {
      var next := Extend(trace, topic, limit, HandlerOk(p));
      more := HandleUpTo(next, topic, limit, p, k);
    }
  }

  /** Some replica is free to poll, if need be because it crashed. */
  lemma FreeReplica(trace: seq<State>, topic: string, limit: nat) returns (more: seq<State>, p: nat)
    requires Path(trace, topic, limit)
    ensures more != [] && Path(more, topic, limit) && more[0] == trace[0] && p !in Last(more).flights
    ensures (var s, t := Last(trace), Last(more); t.table == s.table && t.last == s.last && t.handled == s.handled)
  {
    var flights := Last(trace).flights;
    hide Path;
    more, p := trace, 0;
    if q :| q in flights {
      p := q;
      more := Extend(trace, topic, limit, Crash(q));
    }
  }

  /** An event past the offset is reached by polling on. */
  lemma {:induction false} PollTo(trace: seq<State>, topic: string, limit: nat, e: Event) returns (more: seq<State>)
    requires Path(trace, topic, limit) && limit > 0 && Ascending(Last(trace).table)
    requires e in Last(trace).table && e.topic == topic && e.id > Last(trace).last
    ensures more != [] && Path(more, topic, limit) && more[0] == trace[0] && e.id in Last(more).handled
    decreases e.id - Last(trace).last
  {
    hide Path, Ascending;
    var free, p := FreeReplica(trace, topic, limit);
    var s := Last(free);
    BatchIsContiguous(s.table, topic, s.last, limit);
    hide Batch;
    var b := Batch(s.table, topic, s.last, limit);
    more := Extend(free, topic, limit, Fetch(p));
    more := HandleUpTo(more, topic, limit, p, |b|);
    if e in b {
      var i :| 0 <= i < |b| && b[i] == e;
    } else {
      assert b != [] && b[|b| - 1] in b;
      more := Extend(more, topic, limit, UpdateOffset(p));
      more := PollTo(more, topic, limit, e);
    }
  }

  ghost predicate CanBeHandled(s: State, topic: string, limit: nat, e: Event) {
    exists path :: Path(path, topic, limit) && path[0] == s && e.id in Last(path).handled
  }

  lemma InReach(s: State, topic: string, limit: nat, e: Event)
    requires Inv(s, topic) && limit > 0 && e in s.table && e.topic == topic && !OutOfReach(s, e)
    ensures CanBeHandled(s, topic, limit, e)
  {
    var path := [s];
    assert Path(path, topic, limit) && Ascending(s.table);
    hide Path, Inv, Ascending;
    if e.id in s.handled {
    } else if e.id > s.last {
      path := PollTo(path, topic, limit, e);
    } else {
      var p :| p in s.flights && !PassesBy(s.flights[p], e);
      var f := s.flights[p];
      if i :| f.done <= i < |f.batch| && f.batch[i].id == e.id {
        path := HandleUpTo(path, topic, limit, p, i + 1);
      } else {
        path := HandleUpTo(path, topic, limit, p, |f.batch|);
        path := Extend(path, topic, limit, UpdateOffset(p));
        path := PollTo(path, topic, limit, e);
      }
    }
    assert Path(path, topic, limit) && path[0] == s && e.id in Last(path).handled;
  }

  /** In every reachable state, exactly the events out of reach are lost: no continuation whatever handles them,
      and every other event of the topic has one that does. */
  lemma LostExactly(trace: seq<State>, topic: string, limit: nat, n: nat, e: Event)
    requires Run(trace, topic, limit) && n < |trace| && limit > 0 && e in trace[n].table && e.topic == topic
    ensures CanBeHandled(trace[n], topic, limit, e) <==> !OutOfReach(trace[n], e)
    ensures OutOfReach(trace[n], e) ==> e.id in trace[n].late
  {
    InvHolds(trace, topic, limit, n);
    var s := trace[n];
    if OutOfReach(s, e) && e.id !in s.late { AtLeastOnce(trace, topic, limit, n, e); }
    hide Inv, Run;
    if !OutOfReach(s, e) {
      InReach(s, topic, limit, e);
    } else if path :| Path(path, topic, limit) && path[0] == s && e.id in Last(path).handled {
      OutOfReachForever(path, topic, limit, |path| - 1, e);
    }
  }

  /** Commit order is needed: a lower id that commits after the offset passed it is out of reach. */
  lemma LateCommitIsLost(topic: string, limit: nat) returns (trace: seq<State>, e: Event)
    requires limit > 0
    ensures Run(trace, topic, limit)
    ensures e in Last(trace).table && e.topic == topic && OutOfReach(Last(trace), e)
    ensures !CanBeHandled(Last(trace), topic, limit, e)
  {
    var b := Event(2, "t", topic, "{}");
    e := Event(1, "t", topic, "{}");
    assert Pending([b], topic, 0) == [b] by { assert [b][1..] == []; }
    assert Insert([], b) == [b] && Insert([b], e) == [e, b];
    trace := [INIT];
    assert Path(trace, topic, limit);
    hide Path, Pending, Insert;
    trace := Extend(trace, topic, limit, Commit(b));
    trace := Extend(trace, topic, limit, Fetch(0));
    trace := Extend(trace, topic, limit, HandlerOk(0));
    trace := Extend(trace, topic, limit, UpdateOffset(0));
    trace := Extend(trace, topic, limit, Commit(e));
    assert Run(trace, topic, limit) by { PathFromStart(trace, topic, limit); }
    assert OutOfReach(Last(trace), e);
    hide Run, OutOfReach;
    LostExactly(trace, topic, limit, |trace| - 1, e);
  }

  lemma PathFromStart(trace: seq<State>, topic: string, limit: nat)
    requires Path(trace, topic, limit) && trace[0] == INIT
    ensures Run(trace, topic, limit)
  {}

  /** The protocol's steps of a poll, with nobody else moving, are the `Poll` function: same offset, and handled
      are the ids of the log it appends, but for a last one whose handler raised. */
  lemma PollIsSteps(s: State, p: nat, topic: string, limit: nat, f: Faults, log: seq<Event>, lost: bool)
    requires p !in s.flights
    ensures (var t := HandleBatch(Apply(s, topic, limit, Fetch(p)), p, topic, limit, f, |log|, lost);
             var b := Batch(s.table, topic, s.last, limit); var h := Handled(|b|, f, |log|);
             var after := Poll(Sub(s.last, log), s.table, topic, limit, f, lost);
             && t.last == after.last && t.table == s.table && t.flights == s.flights
             && t.handled == s.handled + Ids(b, 0, h)
             && after.log == log + b[..if h < |b| then h + 1 else h])
  {
    var u := Apply(s, topic, limit, Fetch(p));
    BatchOutcome(u, p, topic, limit, f, |log|, lost);
    hide Batch, HandleBatch, Ids;
    assert u.flights - {p} == s.flights;
  }
}
