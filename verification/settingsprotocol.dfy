/** What holds in every run of writers, loads and polls. */
module SettingsProtocol {
  import opened Common
  import opened Json
  import opened JsonText
  import opened SettingsOps
  import opened SettingsMachine
  import Utf8

  ghost predicate Moves(s: State, ld: Loader, t: State) { exists step :: Enabled(s, step) && t == Apply(s, ld, step) }

  ghost predicate Run(trace: seq<State>, ld: Loader) {
    trace != [] && trace[0] == INIT && forall n | 0 <= n < |trace| - 1 :: Moves(trace[n], ld, trace[n + 1])
  }

  lemma {:induction false} InvHolds(trace: seq<State>, ld: Loader, n: nat)
    requires Run(trace, ld) && n < |trace|
    ensures Inv(trace[n], ld)
  {
    if n > 0 {
      InvHolds(trace, ld, n - 1);
      assert Moves(trace[n - 1], ld, trace[n]);
      hide Inv, Enabled, Apply;
      var step :| Enabled(trace[n - 1], step) && trace[n] == Apply(trace[n - 1], ld, step);
      StepKeeps(trace[n - 1], ld, step);
    }
  }

  /** In every run, failed and cancelled polls and writes during a poll included: every plain row up to the
      watermark has its value in the cache, and a key that was only ever written secret is not in it. */
  lemma CacheAgrees(trace: seq<State>, ld: Loader, n: nat)
    requires Run(trace, ld) && n < |trace|
    ensures (var s := trace[n];
             && (s.last.Some? ==>
                   forall r | r in s.table && !r.secret && r.at <= s.last.value :: Cached(ld, s.cache, r))
             && forall k | k !in s.plain :: k !in s.cache)
  {
    InvHolds(trace, ld, n);
  }

  /** So `get` serves, whatever its default, the table's own value for every plain row up to the watermark, and
      the default for a key that was only ever written secret. */
  lemma GetServes(trace: seq<State>, ld: Loader, n: nat, key: string, default: Json)
    requires Run(trace, ld) && n < |trace|
    ensures (var s := trace[n]; var v := Lookup(s.cache, key, default);
             && (forall r | r in s.table && r.key == key && !r.secret && s.last.Some? && r.at <= s.last.value ::
                   Decode(ld, r.raw) == Some(v))
             && (key !in s.plain ==> v == default))
  {
    CacheAgrees(trace, ld, n);
    hide Decode;
  }

  /** In particular, with the JSON parser: a plain row up to the watermark that holds the printed form of a value, as
      text or as bytes, compact or spaced, is served as that value. A row handed over as a value is served as it is,
      and text that is no JSON as itself. */
  lemma ServesWritten(trace: seq<State>, n: nat, r: Row, default: Json)
    requires Run(trace, Loads) && n < |trace| && r in trace[n].table && !r.secret
    requires trace[n].last.Some? && r.at <= trace[n].last.value
    ensures (var got := Lookup(trace[n].cache, r.key, default);
             && (forall v, st | Wf(v) && Known(st) ::
                   r.raw == Text(Print(v, st)) || r.raw == Encoded(Utf8.Encode(Print(v, st))) ==> got == v)
             && (r.raw.Plain? ==> got == r.raw.v)
             && (forall s | Loads(s).None? :: r.raw == Text(s) || r.raw == Encoded(Utf8.Encode(s)) ==> got == Str(s)))
  {
    GetServes(trace, Loads, n, r.key, default);
    DecodeMeans(Loads, r.raw);
    hide Run, Decode, Lookup, Print, Loads, Utf8.Encode;
    forall v, st | Wf(v) && Known(st) ensures Loads(Print(v, st)) == Some(v) { LoadsDumps(v, st); }
  }

  lemma {:induction false} WatermarkMonotone(trace: seq<State>, ld: Loader, m: nat, n: nat)
    requires Run(trace, ld) && m <= n < |trace|
    ensures NotBefore(trace[m].last, trace[n].last)
    decreases n - m
  {
    if m < n {
      WatermarkMonotone(trace, ld, m, n - 1);
      InvHolds(trace, ld, n - 1);
      assert Moves(trace[n - 1], ld, trace[n]);
      hide Inv, Enabled, Apply;
      var step :| Enabled(trace[n - 1], step) && trace[n] == Apply(trace[n - 1], ld, step);
      StepKeeps(trace[n - 1], ld, step);
    }
  }

  /** A plain row that does not decode holds the watermark below it for as long as it stays in the table. */
  lemma BadRowBlocks(trace: seq<State>, ld: Loader, n: nat, r: Row)
    requires Run(trace, ld) && n < |trace| && r in trace[n].table && !r.secret && Decode(ld, r.raw).None?
    ensures trace[n].last.None? || trace[n].last.value < r.at
  {
    InvHolds(trace, ld, n);
    hide Decode;
  }

  /** Bytes that are not UTF-8 are such a row. */
  lemma NotUtf8Blocks(trace: seq<State>, ld: Loader, n: nat, r: Row)
    requires Run(trace, ld) && n < |trace| && r in trace[n].table && !r.secret
    requires r.raw.Encoded? && forall s :: Utf8.Encode(s) != r.raw.b
    ensures trace[n].last.None? || trace[n].last.value < r.at
  {
    DecodeMeans(ld, r.raw);
    hide Run, Decode, Utf8.Encode;
    BadRowBlocks(trace, ld, n, r);
  }

  // ---- without a watermark nothing is ever polled --------------------------------------

  /** A load sets the watermark exactly when it reads at least one row and every plain row decodes. */
  lemma LoadSetsWatermark(s: State, ld: Loader, order: seq<Row>)
    requires Enabled(s, Load(order)) && s.last.None?
    ensures (Apply(s, ld, Load(order)).last.Some?
             <==> s.table != [] && forall r | r in s.table && !r.secret :: Decode(ld, r.raw).Some?)
  {
    AbsorbExact(ld, s.cache, order);
    LatestIsMax(s.last, order);
    hide Decode, Absorb, Latest;
    assert order == [] <==> s.table == [] by {
      if order != [] { assert order[0] in s.table; }
      if s.table != [] { assert s.table[0] in order; }
    }
    assert forall r | r in order :: exists i :: 0 <= i < |order| && order[i] == r;
    assert forall i | 0 <= i < |order| :: order[i] in order;
  }

  predicate Deaf(s: State) { s.last.None? && (s.flight.Some? ==> s.flight.value.rows == []) }

  ghost predicate MovesUnloaded(s: State, ld: Loader, t: State) {
    exists step :: Enabled(s, step) && !step.Load? && t == Apply(s, ld, step)
  }

  /** After a load that set none (the table was empty, or the load failed), no write is ever seen: the poll
      compares with NULL for good. */
  lemma {:induction false} DeafForever(trace: seq<State>, ld: Loader, n: nat)
    requires trace != [] && Deaf(trace[0]) && n < |trace|
    requires forall k | 0 <= k < |trace| - 1 :: MovesUnloaded(trace[k], ld, trace[k + 1])
    ensures Deaf(trace[n]) && trace[n].cache == trace[0].cache && trace[n].calls == trace[0].calls
  {
    if n > 0 {
      DeafForever(trace, ld, n - 1);
      assert MovesUnloaded(trace[n - 1], ld, trace[n - 1 + 1]);
      var step :| Enabled(trace[n - 1], step) && !step.Load? && trace[n] == Apply(trace[n - 1], ld, step);
      hide Decode, Write, Absorb;
    }
  }

  lemma {:induction false} CallsHold(trace: seq<State>, ld: Loader, n: nat)
    requires Run(trace, ld) && n < |trace|
    ensures Inv(trace[n], ld) && CallsOk(trace[n])
  {
    if n > 0 {
      CallsHold(trace, ld, n - 1);
      assert Moves(trace[n - 1], ld, trace[n]);
      hide Inv, Enabled, Apply, CallsOk;
      var step :| Enabled(trace[n - 1], step) && trace[n] == Apply(trace[n - 1], ld, step);
      StepKeeps(trace[n - 1], ld, step);
      if step.NextRow? { RowCalls(trace[n - 1], ld); } else { OtherCalls(trace[n - 1], ld, step); }
    }
  }

  /** Within one poll listeners are called in `updated_at` order; over all polls, repeats after a failed one
      included, no listener of a key is shown an older version after a newer one. */
  lemma ListenersInOrder(trace: seq<State>, ld: Loader, n: nat, i: nat, j: nat)
    requires Run(trace, ld) && n < |trace| && i < j < |trace[n].calls|
    ensures (var a, b := trace[n].calls[i], trace[n].calls[j];
             (a.poll == b.poll ==> a.at < b.at) && (a.key == b.key ==> a.at <= b.at))
  {
    CallsHold(trace, ld, n);
  }

  lemma ToldMoves(s: State, ld: Loader, t: State)
    requires FlightTold(s, ld) && Moves(s, ld, t)
    ensures FlightTold(t, ld)
  {
    hide FlightTold, Apply;
    var step :| Enabled(s, step) && t == Apply(s, ld, step);
    StepTold(s, ld, step);
  }

  lemma {:induction false} FlightsTold(trace: seq<State>, ld: Loader, n: nat)
    requires Run(trace, ld) && n < |trace|
    ensures FlightTold(trace[n], ld)
  {
    if n > 0 {
      hide Moves, FlightTold;
      FlightsTold(trace, ld, n - 1);
      ToldMoves(trace[n - 1], ld, trace[n]);
    }
  }

  lemma ToldSinceMoves(s: State, ld: Loader, t: State, base: nat)
    requires Inv(s, ld) && FlightTold(s, ld) && ToldSince(s, ld, base) && MovesUnloaded(s, ld, t)
    ensures ToldSince(t, ld, base)
  {
    hide Inv, FlightTold, ToldSince, Apply;
    var step :| Enabled(s, step) && !step.Load? && t == Apply(s, ld, step);
    StepToldSince(s, ld, step, base);
  }

  lemma {:induction false} SinceTold(trace: seq<State>, ld: Loader, m: nat, n: nat)
    requires Run(trace, ld) && m <= n < |trace| && trace[m].last.Some?
    requires forall k | m <= k < n :: MovesUnloaded(trace[k], ld, trace[k + 1])
    ensures ToldSince(trace[n], ld, trace[m].last.value)
    decreases n
  {
    hide Run, MovesUnloaded, Inv, FlightTold, ToldSince;
    if m == n {
      NoneSinceNow(trace[m], ld);
    } else {
      SinceTold(trace, ld, m, n - 1);
      InvHolds(trace, ld, n - 1);
      FlightsTold(trace, ld, n - 1);
      ToldSinceMoves(trace[n - 1], ld, trace[n], trace[m].last.value);
    }
  }

  lemma NoneSinceNow(s: State, ld: Loader)
    requires s.last.Some?
    ensures ToldSince(s, ld, s.last.value)
  {}

  /** No change is passed over in silence, failed and cancelled polls and writes during a poll included: of every
      plain row that the watermark has moved past since some moment, with no load since, the listeners of its key
      have been called with its value. */
  lemma ChangesAnnounced(trace: seq<State>, ld: Loader, m: nat, n: nat, r: Row)
    requires Run(trace, ld) && m <= n < |trace| && trace[m].last.Some?
    requires forall k | m <= k < n :: MovesUnloaded(trace[k], ld, trace[k + 1])
    requires r in trace[n].table && !r.secret && trace[n].last.Some?
    requires trace[m].last.value < r.at <= trace[n].last.value
    ensures exists c :: c in trace[n].calls && c.key == r.key && c.at == r.at && Decode(ld, r.raw) == Some(c.value)
  {
    hide Run, MovesUnloaded, Decode;
    SinceTold(trace, ld, m, n);
    assert Told(trace[n].calls, ld, r);
    var calls := trace[n].calls;
    var i :| 0 <= i < |calls| && calls[i].key == r.key && calls[i].at == r.at
      && Decode(ld, r.raw) == Some(calls[i].value);
    assert calls[i] in calls;
  }

  // ---- one whole poll --------------------------------------------------------------------

  /** A poll in progress, carried to its end with nobody else moving. */
  function HandleRows(s: State, ld: Loader): State
    requires s.flight.Some? && s.flight.value.done <= |s.flight.value.rows|
    decreases if s.flight.Some? then |s.flight.value.rows| - s.flight.value.done else 0
  {
    if s.flight.value.done == |s.flight.value.rows| then Apply(s, ld, Finish)
    else
      var t := Apply(s, ld, NextRow);
      if t.flight.None? then t else HandleRows(t, ld)
  }

  lemma {:induction false} RowsAreAbsorb(s: State, ld: Loader)
    requires s.flight.Some? && s.flight.value.done <= |s.flight.value.rows|
    ensures (var f, t := s.flight.value, HandleRows(s, ld); var (c, ok) := Absorb(ld, s.cache, f.rows[f.done..]);
             && t.cache == c && t.last == (if ok then Latest(s.last, f.rows) else s.last)
             && t.flight.None? && t.table == s.table)
    decreases if s.flight.Some? then |s.flight.value.rows| - s.flight.value.done else 0
  {
    hide Decode, Latest;
    var f := s.flight.value;
    if f.done < |f.rows| {
      assert f.rows[f.done..][0] == f.rows[f.done] && f.rows[f.done..][1..] == f.rows[f.done + 1..];
      var t := Apply(s, ld, NextRow);
      if t.flight.Some? { RowsAreAbsorb(t, ld); }
    }
  }

  /** The protocol's steps of a poll, with nobody else moving, are the `Poll` function. */
  lemma PollIsSteps(s: State, ld: Loader)
    requires s.flight.None?
    ensures (var t := HandleRows(Apply(s, ld, Fetch), ld);
             (t.cache, t.last) == Poll(ld, s.cache, s.last, s.table) && t.flight.None? && t.table == s.table)
  {
    var v := Apply(s, ld, Fetch);
    RowsAreAbsorb(v, ld);
    assert v.flight.value.rows[0..] == v.flight.value.rows;
    hide HandleRows, Absorb, Latest, Since;
  }
}
