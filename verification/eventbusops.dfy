/** The polling event bus: an events table read in id order from a stored offset. */
module EventBusOps {
  import opened Common

  datatype Event = Event(id: nat, tenant: string, topic: string, payload: string)

  const NIL_TENANT_ID := "00000000-0000-0000-0000-000000000000"

  predicate Ascending(t: seq<Event>) { forall i, j | 0 <= i < j < |t| :: t[i].id < t[j].id }

  /** The rows `WHERE topic = $1 AND id > last ORDER BY id ASC`, of a table held in id order. */
  function Pending(t: seq<Event>, topic: string, last: nat): seq<Event> {
    if t == [] then []
    else if t[0].topic == topic && t[0].id > last then [t[0]] + Pending(t[1..], topic, last)
    else Pending(t[1..], topic, last)
  }

  lemma {:induction false} PendingMembers(t: seq<Event>, topic: string, last: nat)
    ensures forall e :: e in Pending(t, topic, last) <==> e in t && e.topic == topic && e.id > last
  {
    if t != [] {
      PendingMembers(t[1..], topic, last);
      assert forall e :: e in t <==> e == t[0] || e in t[1..];
    }
  }

  lemma {:induction false} PendingAscending(t: seq<Event>, topic: string, last: nat)
    requires Ascending(t)
    ensures Ascending(Pending(t, topic, last))
  {
    if t != [] {
      PendingAscending(t[1..], topic, last);
      PendingMembers(t[1..], topic, last);
      var r := Pending(t[1..], topic, last);
      forall j | 0 <= j < |r| ensures t[0].id < r[j].id { assert r[j] in r; }
    }
  }

  /** ... `LIMIT batch` */
  function Batch(t: seq<Event>, topic: string, last: nat, limit: nat): seq<Event> {
    var p := Pending(t, topic, last);
    p[..Min(limit, |p|)]
  }

  /** One row joins the table, at its place in id order. */
  function Insert(t: seq<Event>, e: Event): seq<Event> {
    if t == [] || e.id < t[0].id then [e] + t else [t[0]] + Insert(t[1..], e)
  }

  lemma {:induction false} InsertKeeps(t: seq<Event>, e: Event)
    requires Ascending(t) && forall x | x in t :: x.id != e.id
    ensures Ascending(Insert(t, e)) && forall x :: x in Insert(t, e) <==> x == e || x in t
  {
    if t != [] && e.id > t[0].id {
      assert forall x :: x in t <==> x == t[0] || x in t[1..];
      InsertKeeps(t[1..], e);
      var r := Insert(t[1..], e);
      forall j | 0 <= j < |r| ensures t[0].id < r[j].id { assert r[j] in r; }
    }
  }

  /** What a batch leaves behind is only later events: nothing on the topic is skipped inside it. */
  lemma BatchIsContiguous(t: seq<Event>, topic: string, last: nat, limit: nat)
    requires Ascending(t)
    ensures (var b := Batch(t, topic, last, limit);
             && Ascending(b) && |b| <= limit
             && (forall e | e in b :: e in t && e.topic == topic && e.id > last)
             && (b != [] ==> forall e | e in t && e.topic == topic && last < e.id <= b[|b| - 1].id :: e in b)
             && (|b| < limit ==> forall e | e in t && e.topic == topic && last < e.id :: e in b))
  {
    PendingMembers(t, topic, last);
    PendingAscending(t, topic, last);
    hide Pending;
    var p := Pending(t, topic, last);
    var b := Batch(t, topic, last, limit);
    forall e | e in p && b != [] && e.id <= b[|b| - 1].id ensures e in b {
      var i :| 0 <= i < |p| && p[i] == e;
      assert b[|b| - 1] == p[|b| - 1];
    }
  }

  // ---- one poll ------------------------------------------------------------------

  /** How many of `n` handler calls, numbered from `k`, succeed before the first that raises. */
  function Handled(n: nat, f: Faults, k: nat): (r: nat)
    ensures r <= n && (r < n ==> f(k + r)) && forall j | k <= j < k + r :: !f(j)
  {
    if n == 0 || f(k) then 0 else 1 + Handled(n - 1, f, k + 1)
  }

  /** A subscriber's stored offset and the events its handler has been called with, in order. */
  datatype Sub = Sub(last: nat, log: seq<Event>)

  /** `_poll_once`: the batch is delivered up to the first handler failure, which also skips the offset
      update; so does a crash (`lost`) between the last handler call and the update. */
  function Poll(s: Sub, t: seq<Event>, topic: string, limit: nat, f: Faults, lost: bool): Sub {
    var b := Batch(t, topic, s.last, limit);
    var h := Handled(|b|, f, |s.log|);
    if h < |b| then Sub(s.last, s.log + b[..h + 1])
    else Sub(if b == [] || lost then s.last else b[|b| - 1].id, s.log + b)
  }

  /** A poll cut short by a crash, with the handlers of at most the first `k` events called. */
  function Cut(s: Sub, t: seq<Event>, topic: string, limit: nat, k: nat): Sub {
    var b := Batch(t, topic, s.last, limit);
    s.(log := s.log + b[..Min(k, |b|)])
  }

  // ---- a single subscriber over any run --------------------------------------------

  /** The events of a topic, oldest first. */
  function Topic(t: seq<Event>, topic: string): seq<Event> { Pending(t, topic, 0) }

  /** The log without repeats, keeping first deliveries. */
  function Dedup(log: seq<Event>): seq<Event> {
    if log == [] then []
    else
      var d := Dedup(log[..|log| - 1]);
      if log[|log| - 1] in d then d else d + [log[|log| - 1]]
  }

  /** How many of the topic's events lie at or below an offset. */
  function Done(t: seq<Event>, topic: string, last: nat): nat
  {
    |Topic(t, topic)| - Min(|Topic(t, topic)|, |Pending(t, topic, last)|)
  }

  predicate Positive(t: seq<Event>) { forall e | e in t :: e.id > 0 }

  /** The rows past an offset are the topic's rows with its first `Done` ones removed, and those are the
      ones at or below the offset. */
  lemma {:induction false} PendingIsSuffix(t: seq<Event>, topic: string, last: nat)
    requires Ascending(t) && Positive(t)
    ensures Done(t, topic, last) <= |Topic(t, topic)|
    ensures Pending(t, topic, last) == Topic(t, topic)[Done(t, topic, last)..]
    ensures forall i | 0 <= i < |Topic(t, topic)| :: Topic(t, topic)[i].id > last <==> i >= Done(t, topic, last)
  {
    if t != [] {
      PendingIsSuffix(t[1..], topic, last);
      if t[0].id > last {
        AllPending(t[1..], topic, last);
      }
    }
  }

  lemma {:induction false} AllPending(t: seq<Event>, topic: string, last: nat)
    requires forall e | e in t :: e.id > last
    ensures Pending(t, topic, last) == Pending(t, topic, 0)
  {
    if t != [] { AllPending(t[1..], topic, last); }
  }

  datatype Action =
    | Publish(e: Event)
    | PollOnce(fails: Faults, lost: bool)
    | DiesAt(calls: nat)

  datatype World = World(table: seq<Event>, sub: Sub)

  /** Publishers commit in id order. */
  predicate Allowed(w: World, a: Action) {
    a.Publish? ==> a.e.id > 0 && forall i | 0 <= i < |w.table| :: w.table[i].id < a.e.id
  }

  function Act(w: World, topic: string, limit: nat, a: Action): World {
    match a
    case Publish(e) => w.(table := w.table + [e])
    case PollOnce(f, lost) => w.(sub := Poll(w.sub, w.table, topic, limit, f, lost))
    case DiesAt(k) => w.(sub := Cut(w.sub, w.table, topic, limit, k))
  }

  predicate AllowedRun(w: World, topic: string, limit: nat, run: seq<Action>)
    decreases run
  {
    run == [] || (Allowed(w, run[0]) && AllowedRun(Act(w, topic, limit, run[0]), topic, limit, run[1..]))
  }

  function RunAll(w: World, topic: string, limit: nat, run: seq<Action>): World
    decreases run
  {
    if run == [] then w else RunAll(Act(w, topic, limit, run[0]), topic, limit, run[1..])
  }

  predicate Tidy(w: World, topic: string) {
    && Ascending(w.table) && Positive(w.table)
    && (w.sub.last == 0 || (w.table != [] && w.sub.last <= w.table[|w.table| - 1].id))
    && Dedup(w.sub.log) <= Topic(w.table, topic)
    && Done(w.table, topic, w.sub.last) <= |Dedup(w.sub.log)|
  }

  lemma DedupSnoc(log: seq<Event>, e: Event)
    ensures Dedup(log + [e]) == if e in Dedup(log) then Dedup(log) else Dedup(log) + [e]
  {
    assert (log + [e])[..|log|] == log;
  }

  lemma AscendingPrefix(all: seq<Event>, d: seq<Event>, i: nat)
    requires Ascending(all) && i < |all| && d <= all
    ensures all[i] in d <==> i < |d|
    ensures i == |d| ==> d + [all[i]] == all[..i + 1]
  {
    if i < |d| { assert d[i] == all[i]; }
    assert forall j | 0 <= j < |d| :: d[j].id == all[j].id;
  }

  /** Delivering again from inside a delivered prefix, or on past its end, keeps the log a prefix. */
  lemma {:induction false} DedupExtends(log: seq<Event>, all: seq<Event>, from: nat, upto: nat)
    requires Dedup(log) <= all && from <= |Dedup(log)| && from <= upto <= |all| && Ascending(all)
    ensures Dedup(log + all[from..upto]) == all[..if upto < |Dedup(log)| then |Dedup(log)| else upto]
    decreases upto
  {
    hide Dedup, Ascending;
    if from == upto {
      assert log + all[from..upto] == log;
    } else {
      DedupExtends(log, all, from, upto - 1);
      var l, e := log + all[from..upto - 1], all[upto - 1];
      AppendSlices(log, all, from, upto - 1, upto);
      assert all[upto - 1..upto] == [e];
      DedupSnoc(l, e);
      var d := Dedup(l);
      AscendingPrefix(all, d, upto - 1);
    }
  }

  /** What one poll appends to the log: a stretch of the topic starting right past the offset. */
  lemma PollAppends(s: Sub, t: seq<Event>, topic: string, limit: nat, f: Faults, lost: bool)
    requires Ascending(t) && Positive(t)
    ensures (var c := Done(t, topic, s.last); var all := Topic(t, topic); var s1 := Poll(s, t, topic, limit, f, lost);
             && c <= |s1.log| - |s.log| + c <= |all|
             && |s1.log| - |s.log| <= limit
             && s1.log == s.log + all[c..|s1.log| - |s.log| + c]
             && s.last <= s1.last && (s1.last == s.last || (t != [] && s1.last <= t[|t| - 1].id))
             && (Done(t, topic, s1.last) == c || Done(t, topic, s1.last) == |s1.log| - |s.log| + c)
             && ((forall k | |s.log| <= k :: !f(k)) && !lost ==>
                   |s1.log| == |s.log| + Min(limit, |all| - c) && Done(t, topic, s1.last) == c + Min(limit, |all| - c)))
  {
    var c, all := Done(t, topic, s.last), Topic(t, topic);
    PendingIsSuffix(t, topic, s.last);
    var b := Batch(t, topic, s.last, limit);
    assert b == all[c..c + |b|];
    assert forall i | 0 <= i <= |b| :: b[..i] == all[c..c + i];
    var s1 := Poll(s, t, topic, limit, f, lost);
    var h := Handled(|b|, f, |s.log|);
    if h < |b| {
      assert s1.log == s.log + b[..h + 1];
    } else if b != [] {
      assert b[|b| - 1] == all[c + |b| - 1];
      PendingMembers(t, topic, s.last);
      assert all[c + |b| - 1] in Pending(t, topic, s.last);
      DoneAtEvent(t, topic, c + |b| - 1);
    }
  }

  /** So does a poll that is cut short. */
  lemma CutAppends(s: Sub, t: seq<Event>, topic: string, limit: nat, k: nat)
    requires Ascending(t) && Positive(t)
    ensures (var c := Done(t, topic, s.last); var all := Topic(t, topic); var s1 := Cut(s, t, topic, limit, k);
             && s1.last == s.last && c <= |s1.log| - |s.log| + c <= |all|
             && s1.log == s.log + all[c..|s1.log| - |s.log| + c])
  {
    var c, all := Done(t, topic, s.last), Topic(t, topic);
    PendingIsSuffix(t, topic, s.last);
    var b := Batch(t, topic, s.last, limit);
    assert b == all[c..c + |b|];
    assert b[..Min(k, |b|)] == all[c..c + Min(k, |b|)];
  }

  lemma DoneAtEvent(t: seq<Event>, topic: string, i: nat)
    requires Ascending(t) && Positive(t) && i < |Topic(t, topic)|
    ensures Done(t, topic, Topic(t, topic)[i].id) == i + 1
  {
    PendingIsSuffix(t, topic, Topic(t, topic)[i].id);
    PendingAscending(t, topic, 0);
    hide Pending;
    var all := Topic(t, topic);
    assert i + 1 < |all| ==> all[i + 1].id > all[i].id;
    assert all[i].id <= all[i].id;
  }

  lemma {:induction false} TopicOfAppend(t: seq<Event>, e: Event, topic: string, last: nat)
    ensures Pending(t + [e], topic, last)
         == Pending(t, topic, last) + if e.topic == topic && e.id > last then [e] else []
  {
    if t == [] {
      assert t + [e] == [e] && [e][1..] == [];
    } else {
      TopicOfAppend(t[1..], e, topic, last);
      assert (t + [e])[1..] == t[1..] + [e];
    }
  }

  lemma ActKeepsTidy(w: World, topic: string, limit: nat, a: Action)
    requires Tidy(w, topic) && Allowed(w, a)
    ensures Tidy(Act(w, topic, limit, a), topic)
    ensures w.sub.last <= Act(w, topic, limit, a).sub.last
      && Topic(w.table, topic) <= Topic(Act(w, topic, limit, a).table, topic)
  {
    hide Pending, Poll, Cut, Dedup;
    match a
    case Publish(e) =>
      TopicOfAppend(w.table, e, topic, 0);
      TopicOfAppend(w.table, e, topic, w.sub.last);
      PendingIsSuffix(w.table, topic, w.sub.last);
    case PollOnce(f, lost) =>
      PollAppends(w.sub, w.table, topic, limit, f, lost);
      PendingAscending(w.table, topic, 0);
      var all, c := Topic(w.table, topic), Done(w.table, topic, w.sub.last);
      var s1 := Poll(w.sub, w.table, topic, limit, f, lost);
      DedupExtends(w.sub.log, all, c, |s1.log| - |w.sub.log| + c);
      assert Dedup(s1.log) == all[..|Dedup(s1.log)|];
    case DiesAt(k) =>
      CutAppends(w.sub, w.table, topic, limit, k);
      PendingAscending(w.table, topic, 0);
      var all, c := Topic(w.table, topic), Done(w.table, topic, w.sub.last);
      var s1 := Cut(w.sub, w.table, topic, limit, k);
      DedupExtends(w.sub.log, all, c, |s1.log| - |w.sub.log| + c);
      assert Dedup(s1.log) == all[..|Dedup(s1.log)|];
  }

  /** Over any run of publishes, polls, handler failures, crashes between two handler calls and lost offset
      updates: without its repeats the
      delivery log is a prefix of the topic in increasing id order, everything at or below the offset is in
      it, and the offset never moves back. */
  lemma {:induction false} DeliveredPrefix(w: World, topic: string, limit: nat, run: seq<Action>)
    requires Tidy(w, topic) && AllowedRun(w, topic, limit, run)
    ensures (var v := RunAll(w, topic, limit, run);
             && Tidy(v, topic) && Ascending(Topic(v.table, topic))
             && Dedup(v.sub.log) <= Topic(v.table, topic)
             && (forall e | e in v.table && e.topic == topic && e.id <= v.sub.last :: e in Dedup(v.sub.log))
             && w.sub.last <= v.sub.last)
    decreases run
  {
    if run == [] {
      var all := Topic(w.table, topic);
      PendingAscending(w.table, topic, 0);
      PendingIsSuffix(w.table, topic, w.sub.last);
      PendingMembers(w.table, topic, 0);
      forall e | e in w.table && e.topic == topic && e.id <= w.sub.last ensures e in Dedup(w.sub.log) {
        var i :| 0 <= i < |all| && all[i] == e;
        assert i < Done(w.table, topic, w.sub.last) && Dedup(w.sub.log)[i] == all[i];
      }
    } else {
      ActKeepsTidy(w, topic, limit, run[0]);
      DeliveredPrefix(Act(w, topic, limit, run[0]), topic, limit, run[1..]);
    }
  }

  ghost predicate Quiet(a: Action) {
    match a
    case Publish(_) => true
    case PollOnce(fails, lost) => !lost && forall k :: !fails(k)
    case DiesAt(_) => false
  }

  /** The delivery log is the topic's events at or below the offset, each once, in id order. */
  predicate Exact(w: World, topic: string) {
    var c := Done(w.table, topic, w.sub.last);
    c <= |Topic(w.table, topic)| && w.sub.log == Topic(w.table, topic)[..c]
  }

  lemma PublishExact(w: World, topic: string, limit: nat, e: Event)
    requires Tidy(w, topic) && Exact(w, topic) && Allowed(w, Publish(e))
    ensures Exact(Act(w, topic, limit, Publish(e)), topic)
  {
    TopicOfAppend(w.table, e, topic, 0);
    TopicOfAppend(w.table, e, topic, w.sub.last);
    PendingIsSuffix(w.table, topic, w.sub.last);
    hide Pending, Poll, Dedup;
  }

  lemma QuietPollExact(w: World, topic: string, limit: nat, f: Faults)
    requires Tidy(w, topic) && Exact(w, topic) && forall k :: !f(k)
    ensures Exact(Act(w, topic, limit, PollOnce(f, false)), topic)
  {
    PollAppends(w.sub, w.table, topic, limit, f, false);
    var s1 := Poll(w.sub, w.table, topic, limit, f, false);
    var all, c := Topic(w.table, topic), Done(w.table, topic, w.sub.last);
    var d := |s1.log| - |w.sub.log| + c;
    assert Done(w.table, topic, s1.last) == d && s1.log == w.sub.log + all[c..d];
    hide Topic, Done, Poll, Ascending, Positive, Tidy, Dedup;
    assert all[..c] + all[c..d] == all[..d];
  }

  /** A new subscriber, whatever the table already holds, is where both kinds of run may begin. */
  lemma NewSubscriber(t: seq<Event>, topic: string)
    requires Ascending(t) && Positive(t)
    ensures Tidy(World(t, Sub(0, [])), topic) && Exact(World(t, Sub(0, [])), topic)
  {
    PendingIsSuffix(t, topic, 0);
  }

  /** While no handler fails, nothing crashes and no offset update is lost, publishes and polls in any order deliver
      every event at or below the offset exactly once, in id order, and nothing else. */
  lemma {:induction false} ExactlyOnce(w: World, topic: string, limit: nat, run: seq<Action>)
    requires Tidy(w, topic) && AllowedRun(w, topic, limit, run) && forall i | 0 <= i < |run| :: Quiet(run[i])
    requires Exact(w, topic)
    ensures Exact(RunAll(w, topic, limit, run), topic)
    decreases run
  {
    hide Tidy, Exact, Allowed, Act;
    if run != [] {
      ActKeepsTidy(w, topic, limit, run[0]);
      match run[0] {
        case Publish(e) => PublishExact(w, topic, limit, e);
        case PollOnce(f, lost) => QuietPollExact(w, topic, limit, f);
      }
      ExactlyOnce(Act(w, topic, limit, run[0]), topic, limit, run[1..]);
    }
  }

  // ---- draining without failures ---------------------------------------------------

  function Polls(s: Sub, t: seq<Event>, topic: string, limit: nat, n: nat): Sub {
    if n == 0 then s else Poll(Polls(s, t, topic, limit, n - 1), t, topic, limit, NoFaults(), false)
  }

  lemma MinSteps(x: nat, y: nat, n: nat)
    ensures Min(x, n) <= n && Min(x + y, n) == Min(x, n) + Min(y, n - Min(x, n))
  {}

  lemma QuietPoll(s: Sub, t: seq<Event>, topic: string, limit: nat)
    requires Ascending(t) && Positive(t)
    ensures (var all, c := Topic(t, topic), Done(t, topic, s.last); var d := c + Min(limit, |all| - c);
             && c <= |all| && Poll(s, t, topic, limit, NoFaults(), false).log == s.log + all[c..d]
             && Done(t, topic, Poll(s, t, topic, limit, NoFaults(), false).last) == d)
  {
    PendingIsSuffix(t, topic, s.last);
    PollAppends(s, t, topic, limit, NoFaults(), false);
  }

  /** How far `n` polls of at most `limit` events get from position `c` in `total`. */
  function Reach(c: nat, total: nat, limit: nat, n: nat): (r: nat)
    requires c <= total
    ensures c <= r <= total
  {
    if n == 0 then c else var d := Reach(c, total, limit, n - 1); d + Min(limit, total - d)
  }

  lemma {:induction false} ReachIs(c: nat, total: nat, limit: nat, n: nat)
    requires c <= total
    ensures Reach(c, total, limit, n) == c + Min(n * limit, total - c)
  {
    if n > 0 {
      ReachIs(c, total, limit, n - 1);
      var x := (n - 1) * limit;
      assert n * limit == x + limit;
      MinSteps(x, limit, total - c);
    }
  }

  /** One more fault-free poll, seen from where the run of polls began. */
  lemma QuietPollFrom(base: seq<Event>, c: nat, s: Sub, t: seq<Event>, topic: string, limit: nat)
    requires Ascending(t) && Positive(t) && c <= Done(t, topic, s.last) <= |Topic(t, topic)|
    requires s.log == base + Topic(t, topic)[c..Done(t, topic, s.last)]
    ensures (var all, d := Topic(t, topic), Done(t, topic, s.last); var e := d + Min(limit, |all| - d);
             && Poll(s, t, topic, limit, NoFaults(), false).log == base + all[c..e]
             && Done(t, topic, Poll(s, t, topic, limit, NoFaults(), false).last) == e)
  {
    QuietPoll(s, t, topic, limit);
    hide Topic, Done, Poll, Ascending, Positive;
    var all, d := Topic(t, topic), Done(t, topic, s.last);
    AppendSlices(base, all, c, d, d + Min(limit, |all| - d));
  }

  lemma {:induction false} PollsReach(s: Sub, t: seq<Event>, topic: string, limit: nat, n: nat)
    requires Ascending(t) && Positive(t)
    ensures Done(t, topic, s.last) <= |Topic(t, topic)|
    ensures (var c := Done(t, topic, s.last); var d := Reach(c, |Topic(t, topic)|, limit, n);
             && Polls(s, t, topic, limit, n).log == s.log + Topic(t, topic)[c..d]
             && Done(t, topic, Polls(s, t, topic, limit, n).last) == d)
  {
    PendingIsSuffix(t, topic, s.last);
    var c := Done(t, topic, s.last);
    if n == 0 {
      assert s.log + Topic(t, topic)[c..c] == s.log;
    } else {
      PollsReach(s, t, topic, limit, n - 1);
      hide Topic, Done, Poll, Ascending, Positive, Pending;
      QuietPollFrom(s.log, c, Polls(s, t, topic, limit, n - 1), t, topic, limit);
    }
  }

  /** Without failures `n` polls deliver exactly the first `n * limit` pending events, each once, in order. */
  lemma PollsDeliver(s: Sub, t: seq<Event>, topic: string, limit: nat, n: nat)
    requires Ascending(t) && Positive(t)
    ensures (var p := Pending(t, topic, s.last);
             Polls(s, t, topic, limit, n).log == s.log + p[..Min(n * limit, |p|)])
  {
    PendingIsSuffix(t, topic, s.last);
    PollsReach(s, t, topic, limit, n);
    var all, c := Topic(t, topic), Done(t, topic, s.last);
    ReachIs(c, |all|, limit, n);
    var k := Min(n * limit, |all| - c);
    assert all[c..c + k] == all[c..][..k];
  }

  function CeilDiv(n: nat, m: nat): nat
    requires m > 0
  {
    (n + m - 1) / m
  }

  /** `n` pending events drain in exactly `ceil(n / batch)` fault-free polls, each delivered once. */
  lemma DrainsInCeil(s: Sub, t: seq<Event>, topic: string, limit: nat, k: nat)
    requires Ascending(t) && Positive(t) && limit > 0
    ensures (var p := Pending(t, topic, s.last);
             Polls(s, t, topic, limit, k).log == s.log + p <==> k >= CeilDiv(|p|, limit))
  {
    var p := Pending(t, topic, s.last);
    PollsDeliver(s, t, topic, limit, k);
    CeilDivExact(|p|, limit, k);
    hide Pending, Polls;
    assert p[..|p|] == p;
  }

  lemma CeilDivExact(n: nat, m: nat, k: nat)
    requires m > 0
    ensures k >= CeilDiv(n, m) <==> k * m >= n
  {
    var q, r := (n + m - 1) / m, (n + m - 1) % m;
    assert n + m - 1 == q * m + r && 0 <= r < m;
    if k >= q { assert k * m >= q * m; }
    if k < q { assert k * m <= (q - 1) * m == q * m - m; }
  }
}

/** Any number of pollers sharing one consumer name on one topic, publishers committing in any order,
    handler failures, and crashes anywhere. */
module EventBusMachine {
  import opened Common
  import opened EventBusOps

  /** A poll in progress: what it fetched, and how many of those its handler has finished. */
  datatype Flight = Flight(base: nat, batch: seq<Event>, done: nat)

  /** `horizon` is the highest id any poll has fetched; `late` collects the ids committed at or below it. */
  datatype State = State(table: seq<Event>, last: nat, handled: set<nat>, flights: map<nat, Flight>,
                         horizon: nat, late: set<nat>)

  datatype Step =
    | Commit(e: Event)
    | Fetch(p: nat)
    | HandlerOk(p: nat)
    | HandlerFails(p: nat)
    | UpdateOffset(p: nat)
    | Crash(p: nat)

  predicate Enabled(s: State, step: Step) {
    match step
    case Commit(e) => e.id > 0 && forall x | x in s.table :: x.id != e.id
    case Fetch(p) => p !in s.flights
    case HandlerOk(p) => p in s.flights && s.flights[p].done < |s.flights[p].batch|
    case HandlerFails(p) => p in s.flights && s.flights[p].done < |s.flights[p].batch|
    case UpdateOffset(p) => p in s.flights && s.flights[p].done == |s.flights[p].batch|
    case Crash(p) => p in s.flights
  }

  function TopId(b: seq<Event>, base: nat): nat { if b == [] then base else b[|b| - 1].id }

  function Apply(s: State, topic: string, limit: nat, step: Step): State
    requires Enabled(s, step)
  {
    match step
    case Commit(e) => s.(table := Insert(s.table, e), late := if e.id <= s.horizon then s.late + {e.id} else s.late)
    case Fetch(p) =>
      var b := Batch(s.table, topic, s.last, limit);
      s.(flights := s.flights[p := Flight(s.last, b, 0)], horizon := Max(s.horizon, TopId(b, s.last)))
    case HandlerOk(p) =>
      var f := s.flights[p];
      s.(handled := s.handled + {f.batch[f.done].id}, flights := s.flights[p := f.(done := f.done + 1)])
    case HandlerFails(p) => s.(flights := s.flights - {p})
    case UpdateOffset(p) =>
      var f := s.flights[p];
      s.(last := if f.batch == [] then s.last else f.batch[|f.batch| - 1].id, flights := s.flights - {p})
    case Crash(p) => s.(flights := s.flights - {p})
  }

  const INIT := State([], 0, {}, map[], 0, {})

  /** Every event of the topic at or below `id` has been handled, unless it was committed late. */
  predicate CoveredTo(s: State, topic: string, id: nat) {
    forall e | e in s.table && e.topic == topic && e.id <= id :: e.id in s.handled || e.id in s.late
  }

  predicate FlightOk(s: State, topic: string, f: Flight) {
    && f.done <= |f.batch| && f.base <= TopId(f.batch, f.base) <= s.horizon
    && CoveredTo(s, topic, f.base)
    && (forall e | e in s.table && e.topic == topic
          && f.base < e.id <= TopId(f.batch, f.base) :: e in f.batch || e.id in s.late)
    && (forall i | 0 <= i < f.done :: f.batch[i].id in s.handled)
  }

  predicate Inv(s: State, topic: string) {
    && Ascending(s.table)
    && s.last <= s.horizon && CoveredTo(s, topic, s.last)
    && forall p | p in s.flights :: FlightOk(s, topic, s.flights[p])
  }

  lemma CommitKeeps(s: State, topic: string, limit: nat, e: Event)
    requires Inv(s, topic) && Enabled(s, Commit(e))
    ensures Inv(Apply(s, topic, limit, Commit(e)), topic)
  {
    InsertKeeps(s.table, e);
    hide Insert;
  }

  lemma FetchKeeps(s: State, topic: string, limit: nat, p: nat)
    requires Inv(s, topic) && Enabled(s, Fetch(p))
    ensures Inv(Apply(s, topic, limit, Fetch(p)), topic)
  {
    BatchIsContiguous(s.table, topic, s.last, limit);
    hide Batch;
    var b := Batch(s.table, topic, s.last, limit);
    assert b != [] ==> b[|b| - 1] in b;
  }

  lemma UpdateKeeps(s: State, topic: string, limit: nat, p: nat)
    requires Inv(s, topic) && Enabled(s, UpdateOffset(p))
    ensures Inv(Apply(s, topic, limit, UpdateOffset(p)), topic)
  {
    var f := s.flights[p];
    forall e | e in f.batch ensures e.id in s.handled {
      var i :| 0 <= i < |f.batch| && f.batch[i] == e;
    }
  }

  lemma StepKeeps(s: State, topic: string, limit: nat, step: Step)
    requires Inv(s, topic) && Enabled(s, step)
    ensures Inv(Apply(s, topic, limit, step), topic)
  {
    match step
    case Commit(e) => CommitKeeps(s, topic, limit, e);
    case Fetch(p) => FetchKeeps(s, topic, limit, p);
    case UpdateOffset(p) => UpdateKeeps(s, topic, limit, p);
    case _ =>
  }

  // ---- commits in id order are never late -------------------------------------------

  ghost predicate InOrder(s: State, step: Step) {
    step.Commit? ==> forall x | x in s.table :: x.id < step.e.id
  }

  /** Nothing has been read beyond what is committed. */
  predicate HorizonCommitted(s: State) {
    && s.late == {} && (s.horizon == 0 || exists e :: e in s.table && e.id >= s.horizon)
  }

  lemma OrderedStep(s: State, topic: string, limit: nat, step: Step)
    requires Inv(s, topic) && HorizonCommitted(s) && Enabled(s, step) && InOrder(s, step)
    ensures HorizonCommitted(Apply(s, topic, limit, step))
  {
    match step
    case Commit(e) =>
      InsertKeeps(s.table, e);
      assert e in Insert(s.table, e);
    case Fetch(p) =>
      BatchIsContiguous(s.table, topic, s.last, limit);
      var b := Batch(s.table, topic, s.last, limit);
      assert b != [] ==> b[|b| - 1] in b;
    case _ =>
  }

  /** The offset is past the event, no poll in progress still has it to handle, and none will move the offset
      back below it. */
  predicate OutOfReach(s: State, e: Event) {
    && e.id !in s.handled && e.id <= s.last
    && forall p | p in s.flights :: PassesBy(s.flights[p], e)
  }

  predicate PassesBy(f: Flight, e: Event) {
    && (forall i | f.done <= i < |f.batch| :: f.batch[i].id != e.id)
    && (f.batch == [] || f.batch[|f.batch| - 1].id >= e.id)
  }

  lemma StaysOutOfReach(s: State, topic: string, limit: nat, step: Step, e: Event)
    requires Ascending(s.table) && OutOfReach(s, e) && Enabled(s, step)
    ensures OutOfReach(Apply(s, topic, limit, step), e)
  {
    if step.Fetch? {
      BatchIsContiguous(s.table, topic, s.last, limit);
      hide Batch;
      var b := Batch(s.table, topic, s.last, limit);
      assert forall i | 0 <= i < |b| :: b[i] in b;
    } else {
      hide Insert, Ascending;
    }
  }

  // ---- one whole poll ----------------------------------------------------------------

  /** A poll in progress, carried to its end with nobody else moving: handler call number `k` comes next, and
      `lost` is a crash before the offset update. */
  function HandleBatch(s: State, p: nat, topic: string, limit: nat, f: Faults, k: nat, lost: bool): State
    requires p in s.flights && s.flights[p].done <= |s.flights[p].batch|
    decreases if p in s.flights then |s.flights[p].batch| - s.flights[p].done else 0
  {
    if s.flights[p].done == |s.flights[p].batch| then Apply(s, topic, limit, if lost then Crash(p) else UpdateOffset(p))
    else if f(k) then Apply(s, topic, limit, HandlerFails(p))
    else HandleBatch(Apply(s, topic, limit, HandlerOk(p)), p, topic, limit, f, k + 1, lost)
  }

  function Ids(b: seq<Event>, i: nat, j: nat): set<nat>
    requires j <= |b|
  {
    set k | i <= k < j :: b[k].id
  }

  lemma IdsFrom(b: seq<Event>, i: nat, j: nat)
    requires i < j <= |b|
    ensures Ids(b, i, j) == {b[i].id} + Ids(b, i + 1, j)
  {}

  /** What a poll from `s` comes to, of which `h` more handler calls return. */
  predicate Outcome(s: State, p: nat, h: nat, lost: bool, t: State)
    requires p in s.flights && s.flights[p].done + h <= |s.flights[p].batch|
  {
    var g := s.flights[p];
    && t.table == s.table && t.flights == s.flights - {p}
    && t.last == (if g.done + h < |g.batch| || lost || g.batch == [] then s.last else g.batch[|g.batch| - 1].id)
    && t.handled == s.handled + Ids(g.batch, g.done, g.done + h)
  }

  lemma OutcomeStep(s: State, p: nat, topic: string, limit: nat, h: nat, lost: bool, t: State)
    requires p in s.flights && s.flights[p].done + h + 1 <= |s.flights[p].batch|
    requires Outcome(Apply(s, topic, limit, HandlerOk(p)), p, h, lost, t)
    ensures Outcome(s, p, h + 1, lost, t)
  {
    var g, u := s.flights[p], Apply(s, topic, limit, HandlerOk(p));
    IdsFrom(g.batch, g.done, g.done + h + 1);
    hide Ids;
    assert u.flights - {p} == s.flights - {p};
  }

  lemma {:induction false} BatchOutcome(s: State, p: nat, topic: string, limit: nat, f: Faults, k: nat, lost: bool)
    requires p in s.flights && s.flights[p].done <= |s.flights[p].batch|
    ensures Outcome(s, p, Handled(|s.flights[p].batch| - s.flights[p].done, f, k),
      lost, HandleBatch(s, p, topic, limit, f, k, lost))
    decreases if p in s.flights then |s.flights[p].batch| - s.flights[p].done else 0
  {
    var g := s.flights[p];
    if g.done < |g.batch| && !f(k) {
      var u := Apply(s, topic, limit, HandlerOk(p));
      BatchOutcome(u, p, topic, limit, f, k + 1, lost);
      hide Outcome;
      OutcomeStep(s, p, topic, limit, Handled(|g.batch| - g.done - 1, f, k + 1), lost,
        HandleBatch(u, p, topic, limit, f, k + 1, lost));
    }
  }
}
