/** The circuit breaker, as values, and what its four fields say about everything that happened to it. */
module BreakerOps {

  datatype Phase = CLOSED | OPEN | HALF_OPEN

  datatype Config = Config(failMax: int, resetTimeout: int)

  datatype Breaker = Breaker(failures: nat, phase: Phase, openedAt: real, observed: bool)

  /** What happens to a breaker, in the order it happens: calls may overlap in any way. */
  datatype Event = Read(at: real) | Success | Failure(at: real)

  const FRESH := Breaker(0, CLOSED, 0.0, false)

  /** Reading `state`. */
  function Observe(b: Breaker, c: Config, now: real): Breaker {
    if b.phase != OPEN then b
    else if b.observed && now - b.openedAt >= c.resetTimeout as real then b.(phase := HALF_OPEN)
    else b.(observed := true)
  }

  function RecordSuccess(b: Breaker): Breaker { b.(failures := 0, phase := CLOSED, observed := false) }

  function RecordFailure(b: Breaker, c: Config, now: real): Breaker {
    if b.failures + 1 >= c.failMax
    then Breaker(b.failures + 1, OPEN, now, false)
    else b.(failures := b.failures + 1)
  }

  function After(b: Breaker, c: Config, e: Event): Breaker {
    match e
    case Read(t) => Observe(b, c, t)
    case Success => RecordSuccess(b)
    case Failure(t) => RecordFailure(b, c, t)
  }

  function Play(c: Config, h: seq<Event>): Breaker {
    if h == [] then FRESH else After(Play(c, h[..|h| - 1]), c, h[|h| - 1])
  }

  // ---- the specification, over the history alone --------------------------------------

  /** Failures since the last success. */
  function Fails(h: seq<Event>): nat {
    if h == [] then 0
    else match h[|h| - 1]
      case Success => 0
      case Failure(_) => Fails(h[..|h| - 1]) + 1
      case Read(_) => Fails(h[..|h| - 1])
  }

  /** `fail_max` as it acts: one failure is needed to open the circuit, however small it is. */
  function Threshold(c: Config): nat { if c.failMax < 1 then 1 else c.failMax }

  predicate Tripped(c: Config, h: seq<Event>) { Fails(h) >= Threshold(c) }

  /** The time of the last failure. */
  function LastFailure(h: seq<Event>): real {
    if h == [] then 0.0
    else if h[|h| - 1].Failure? then h[|h| - 1].at else LastFailure(h[..|h| - 1])
  }

  /** The times at which the state was read since the last success or failure. */
  function Reads(h: seq<Event>): seq<real> {
    if h == [] || !h[|h| - 1].Read? then [] else Reads(h[..|h| - 1]) + [h[|h| - 1].at]
  }

  /** A second or later read since the last failure came late enough. */
  predicate Probed(c: Config, h: seq<Event>) {
    exists i :: 1 <= i < |Reads(h)| && Reads(h)[i] - LastFailure(h) >= c.resetTimeout as real
  }

  function Spec(c: Config, h: seq<Event>): Phase {
    if !Tripped(c, h) then CLOSED else if Probed(c, h) then HALF_OPEN else OPEN
  }

  lemma ReadsSnoc(h: seq<Event>, t: real)
    ensures Reads(h + [Read(t)]) == Reads(h) + [t] && Fails(h + [Read(t)]) == Fails(h)
    ensures LastFailure(h + [Read(t)]) == LastFailure(h)
  {
    assert (h + [Read(t)])[..|h|] == h;
  }

  lemma ProbedSnoc(c: Config, h: seq<Event>, t: real)
    ensures (Probed(c, h + [Read(t)])
             <==> Probed(c, h) || (Reads(h) != [] && t - LastFailure(h) >= c.resetTimeout as real))
  {
    ReadsSnoc(h, t);
    hide Reads, LastFailure;
    var r, s := Reads(h), Reads(h + [Read(t)]);
    assert forall i | 0 <= i < |r| :: s[i] == r[i];
    assert s[|r|] == t;
  }

  /** Whatever happened, in whatever order: the failure counter is the number of failures since the last
      success; the circuit is closed exactly while that is below the threshold; once it is not, the opening
      time is that of the last failure, the latch says whether the state was read since, and the circuit is
      half open exactly when a second or later read since then came `reset_timeout` or more after it. */
  lemma {:induction false} RefinesHistory(c: Config, h: seq<Event>)
    ensures (var b := Play(c, h);
             && b.failures == Fails(h) && b.phase == Spec(c, h)
             && (Tripped(c, h) ==> b.openedAt == LastFailure(h) && b.observed == (Reads(h) != []))
             && (!Tripped(c, h) ==> !b.observed))
  {
    if h != [] {
      var p := h[..|h| - 1];
      RefinesHistory(c, p);
      match h[|h| - 1]
      case Read(t) =>
        assert h == p + [Read(t)];
        ProbedSnoc(c, p, t);
        ReadsSnoc(p, t);
      case Success =>
      case Failure(t) =>
        assert !Probed(c, h);
    }
  }

  // ---- admission ----------------------------------------------------------------------

  /** `call` goes ahead when the state it reads is not OPEN. */
  predicate Admitted(c: Config, h: seq<Event>, now: real) { Play(c, h + [Read(now)]).phase != OPEN }

  /** Every clock reading in the history is at most `now`. */
  predicate Before(h: seq<Event>, now: real) { forall i | 0 <= i < |h| && !h[i].Success? :: h[i].at <= now }

  lemma {:induction false} ReadsBefore(h: seq<Event>, now: real)
    requires Before(h, now)
    ensures forall i | 0 <= i < |Reads(h)| :: Reads(h)[i] <= now
  {
    if h != [] && h[|h| - 1].Read? {
      var p := h[..|h| - 1];
      assert forall i | 0 <= i < |p| :: p[i] == h[i];
      ReadsBefore(p, now);
    }
  }

  /** Under a clock that does not run backwards a call is admitted exactly when the circuit is closed, or
      this is not the first read since the last failure and it comes `reset_timeout` or more after it. */
  lemma AdmittedExactly(c: Config, h: seq<Event>, now: real)
    requires Before(h, now)
    ensures (Admitted(c, h, now)
             <==> !Tripped(c, h) || (Reads(h) != [] && now - LastFailure(h) >= c.resetTimeout as real))
  {
    RefinesHistory(c, h + [Read(now)]);
    ProbedSnoc(c, h, now);
    ReadsSnoc(h, now);
    ReadsBefore(h, now);
  }

  /** No call is admitted inside the window, and the first read after the opening failure rejects however
      late it comes. */
  lemma WindowIsClosed(c: Config, h: seq<Event>, now: real)
    requires Before(h, now) && Tripped(c, h)
    requires now - LastFailure(h) < c.resetTimeout as real || Reads(h) == []
    ensures !Admitted(c, h, now)
  {
    AdmittedExactly(c, h, now);
  }

  /** Half open limits nothing: once one probe is admitted every call is, until one of them ends. */
  lemma HalfOpenAdmitsAll(c: Config, h: seq<Event>, now: real, more: real)
    requires Tripped(c, h) && Admitted(c, h, now)
    ensures Admitted(c, h + [Read(now)], more)
  {
    RefinesHistory(c, h + [Read(now)]);
    RefinesHistory(c, h + [Read(now)] + [Read(more)]);
    ReadsSnoc(h, now);
    ReadsSnoc(h + [Read(now)], more);
    ProbedSnoc(c, h + [Read(now)], more);
    assert (h + [Read(now)]) + [Read(more)] == h + [Read(now)] + [Read(more)];
  }

  // ---- overlapping calls --------------------------------------------------------------

  /** Calls in progress and what became of the others. */
  datatype World = World(b: Breaker, hist: seq<Event>, running: nat, admitted: nat, rejected: nat, cancelled: nat)

  datatype Step = Begin(now: real) | Return | Raise(now: real) | Cancel

  predicate Enabled(w: World, s: Step) { s.Begin? || w.running > 0 }

  /** A cancelled call is not recorded: CancelledError is no `Exception`. */
  function Apply(w: World, c: Config, s: Step): World
    requires Enabled(w, s)
  {
    match s
    case Begin(now) =>
      var b, h := Observe(w.b, c, now), w.hist + [Read(now)];
      if b.phase == OPEN then w.(b := b, hist := h, rejected := w.rejected + 1)
      else w.(b := b, hist := h, running := w.running + 1, admitted := w.admitted + 1)
    case Return => w.(b := RecordSuccess(w.b), hist := w.hist + [Success], running := w.running - 1)
    case Raise(now) => w.(b := RecordFailure(w.b, c, now), hist := w.hist + [Failure(now)], running := w.running - 1)
    case Cancel => w.(running := w.running - 1, cancelled := w.cancelled + 1)
  }

  predicate Allowed(w: World, c: Config, run: seq<Step>)
    decreases run
  {
    run == [] || (Enabled(w, run[0]) && Allowed(Apply(w, c, run[0]), c, run[1..]))
  }

  function RunAll(w: World, c: Config, run: seq<Step>): World
    requires Allowed(w, c, run)
    decreases run
  {
    if run == [] then w else RunAll(Apply(w, c, run[0]), c, run[1..])
  }

  function Recorded(h: seq<Event>): nat {
    if h == [] then 0 else Recorded(h[..|h| - 1]) + if h[|h| - 1].Read? then 0 else 1
  }

  predicate Consistent(w: World, c: Config) {
    && w.b == Play(c, w.hist)
    && w.admitted == Recorded(w.hist) + w.cancelled + w.running
    && |w.hist| == w.admitted + w.rejected + Recorded(w.hist)
  }

  lemma StepConsistent(w: World, c: Config, s: Step)
    requires Consistent(w, c) && Enabled(w, s)
    ensures Consistent(Apply(w, c, s), c)
  {
    var v := Apply(w, c, s);
    if !s.Cancel? { assert v.hist[..|v.hist| - 1] == w.hist; }
  }

  /** In every interleaving of overlapping calls the breaker is the one its history prescribes, and every
      admitted run is recorded exactly once, unless it is cancelled or still running. */
  lemma {:induction false} RunsRecordedOnce(w: World, c: Config, run: seq<Step>)
    requires Consistent(w, c) && Allowed(w, c, run)
    ensures (var v := RunAll(w, c, run);
             && v.b.failures == Fails(v.hist) && v.b.phase == Spec(c, v.hist)
             && v.admitted == Recorded(v.hist) + v.cancelled + v.running
             && |v.hist| == v.admitted + v.rejected + Recorded(v.hist))
    decreases run
  {
    if run == [] {
      RefinesHistory(c, w.hist);
    } else {
      StepConsistent(w, c, run[0]);
      RunsRecordedOnce(Apply(w, c, run[0]), c, run[1..]);
    }
  }
}
