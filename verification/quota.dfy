/** Quota decisions, and the calendar arithmetic behind their retry delay. */
module Quota {
  import opened Common

  datatype Resource = DOCS | STORAGE_BYTES | QUERIES_PER_MONTH

  datatype Limits = Limits(docs: int, storageBytes: int, queriesPerMonth: int)

  datatype Usage = Usage(docs: int, storageBytes: int, queriesThisMonth: int)

  datatype Decision = Decision(allowed: bool, resource: Option<Resource>, limit: int, used: int, retryAfter: int)

  const ALLOWED := Decision(true, None, 0, 0, 0)

  // ---- the Gregorian calendar, as `datetime` counts it ---------------------------------

  const MAXYEAR := 9999

  datatype Date = Date(year: int, month: int, day: int)

  /** A UTC instant: a date and the microseconds since its midnight. */
  datatype Instant = Instant(date: Date, micros: int)

  const SECOND := 1_000_000
  const DAY := 86_400 * SECOND

  predicate IsLeap(y: int) { y % 4 == 0 && (y % 100 != 0 || y % 400 == 0) }

  function DaysInMonth(y: int, m: int): (d: int)
    ensures 28 <= d <= 31
  {
    if m == 2 then (if IsLeap(y) then 29 else 28)
    else if m in {4, 6, 9, 11} then 30
    else 31
  }

  predicate ValidDate(d: Date) {
    1 <= d.year <= MAXYEAR && 1 <= d.month <= 12 && 1 <= d.day <= DaysInMonth(d.year, d.month)
  }

  predicate Valid(t: Instant) { ValidDate(t.date) && 0 <= t.micros < DAY }

  function DaysBeforeYear(y: int): int { (y - 1) * 365 + (y - 1) / 4 - (y - 1) / 100 + (y - 1) / 400 }

  function DaysBeforeMonth(y: int, m: int): int
    decreases m
  {
    if m <= 1 then 0 else DaysBeforeMonth(y, m - 1) + DaysInMonth(y, m - 1)
  }

  function Ordinal(d: Date): int { DaysBeforeYear(d.year) + DaysBeforeMonth(d.year, d.month) + d.day }

  /** Microseconds on the time line. */
  function Micros(t: Instant): int { Ordinal(t.date) * DAY + t.micros }

  function NextDay(d: Date): Date {
    if d.day < DaysInMonth(d.year, d.month) then d.(day := d.day + 1)
    else if d.month < 12 then Date(d.year, d.month + 1, 1)
    else Date(d.year + 1, 1, 1)
  }

  lemma Hundreds(z: int)
    ensures (100 * z) % 100 == 0
  {}

  lemma Fours(z: int)
    ensures (4 * z) % 4 == 0
  {}

  lemma LeapDivisors(y: int)
    ensures y % 400 == 0 ==> y % 100 == 0
    ensures y % 100 == 0 ==> y % 4 == 0
  {
    Hundreds(4 * (y / 400));
    Fours(25 * (y / 100));
  }

  lemma YearLength(y: int)
    requires y >= 1
    ensures DaysBeforeYear(y + 1) == DaysBeforeYear(y) + 365 + if IsLeap(y) then 1 else 0
  {
    QuotientStep(y, 4);
    QuotientStep(y, 100);
    QuotientStep(y, 400);
    LeapDivisors(y);
    YearSum(y, y / 4, (y - 1) / 4, y / 100, (y - 1) / 100, y / 400, (y - 1) / 400);
  }

  lemma YearSum(y: int, a: int, a0: int, b: int, b0: int, c: int, c0: int)
    ensures (y * 365 + a - b + c) - ((y - 1) * 365 + a0 - b0 + c0) == 365 + (a - a0) - (b - b0) + (c - c0)
  {}

  lemma QuotientStep(y: int, k: int)
    requires y >= 1 && (k == 4 || k == 100 || k == 400)
    ensures y / k == (y - 1) / k + if y % k == 0 then 1 else 0
  {}

  lemma MonthSum(y: int)
    ensures DaysBeforeMonth(y, 12) == 334 + if IsLeap(y) then 1 else 0
  {
    assert DaysBeforeMonth(y, 3) == 31 + DaysInMonth(y, 2);
    assert DaysBeforeMonth(y, 5) == DaysBeforeMonth(y, 3) + 61;
    assert DaysBeforeMonth(y, 7) == DaysBeforeMonth(y, 5) + 61;
    assert DaysBeforeMonth(y, 9) == DaysBeforeMonth(y, 7) + 62;
    assert DaysBeforeMonth(y, 11) == DaysBeforeMonth(y, 9) + 61;
  }

  /** A month starts where the one before it ends, December to January included. */
  lemma MonthStep(y: int, m: int)
    requires y >= 1 && 1 <= m <= 12
    ensures (var (z, n) := if m == 12 then (y + 1, 1) else (y, m + 1);
             DaysBeforeYear(z) + DaysBeforeMonth(z, n) == DaysBeforeYear(y) + DaysBeforeMonth(y, m) + DaysInMonth(y, m))
  {
    hide DaysBeforeYear, IsLeap, DaysBeforeMonth, DaysInMonth;
    if m == 12 {
      YearLength(y);
      MonthSum(y);
      December(y);
    } else {
      MonthUnfolds(y, m);
    }
  }

  lemma December(y: int)
    ensures DaysInMonth(y, 12) == 31 && DaysBeforeMonth(y + 1, 1) == 0
  {}

  lemma MonthUnfolds(y: int, m: int)
    requires m >= 1
    ensures DaysBeforeMonth(y, m + 1) == DaysBeforeMonth(y, m) + DaysInMonth(y, m)
  {}

  /** The closed form counts days: the day after any date is one further. */
  lemma OrdinalCountsDays(d: Date)
    requires ValidDate(d)
    ensures Ordinal(NextDay(d)) == Ordinal(d) + 1
  {
    hide DaysBeforeYear, IsLeap, DaysBeforeMonth, DaysInMonth;
    MonthStep(d.year, d.month);
  }

  // ---- the retry delay ------------------------------------------------------------------

  /** Midnight on the first of the following month. */
  function NextMonth(t: Instant): Instant {
    Instant(if t.date.month == 12 then Date(t.date.year + 1, 1, 1) else Date(t.date.year, t.date.month + 1, 1), 0)
  }

  function CapAt32Days(s: int): int {
    if s < 0 then 60 else if s > 32 * 24 * 3600 then 32 * 24 * 3600 else s
  }

  /** `int(...)` truncates toward zero. */
  function Truncate(micros: int): int { if micros >= 0 then micros / SECOND else -(-micros / SECOND) }

  datatype Error = YearOutOfRange

  /** `_seconds_until_next_month`: `datetime` has no year 10000. */
  function SecondsUntilNextMonth(now: Instant): Result<int, Error> {
    var next := NextMonth(now);
    if next.date.year > MAXYEAR then Err(YearOutOfRange)
    else Ok(CapAt32Days(Truncate(Micros(next) - Micros(now))))
  }

  /** The month boundary is the days left in the month ahead of this midnight. */
  lemma DaysToNextMonth(d: Date)
    requires ValidDate(d)
    ensures (var next := NextMonth(Instant(d, 0)).date;
             && Ordinal(next) - Ordinal(d) == DaysInMonth(d.year, d.month) - d.day + 1
             && (ValidDate(next) <==> next.year <= MAXYEAR))
  {
    hide DaysBeforeYear, IsLeap, DaysBeforeMonth, DaysInMonth;
    MonthStep(d.year, d.month);
  }

  function DaysLeft(d: Date): int { DaysInMonth(d.year, d.month) - d.day + 1 }

  lemma GapToNextMonth(now: Instant)
    requires Valid(now)
    ensures Micros(NextMonth(now)) - Micros(now) == DaysLeft(now.date) * DAY - now.micros
    ensures 1 <= DaysLeft(now.date) <= 31
  {
    hide DaysBeforeYear, IsLeap, DaysBeforeMonth, DaysInMonth, Ordinal;
    DaysToNextMonth(now.date);
    assert NextMonth(now) == NextMonth(Instant(now.date, 0));
    hide NextMonth;
  }

  /** Truncation loses less than a second, and no gap of at most 31 days reaches the cap. */
  lemma CapIsIdle(gap: int)
    requires 0 <= gap <= 31 * DAY
    ensures (var s := Truncate(gap);
             && CapAt32Days(s) == s && 0 <= s <= 31 * 24 * 3600
             && s * SECOND <= gap < s * SECOND + SECOND)
  {}

  /** For every instant of every month, leap years and December included: the delay is between 0 and 31
      days, so the cap never changes it, and it ends less than one second before the next month and never
      after its start. Only December 9999 has no delay. */
  lemma DelayReachesNextMonth(now: Instant)
    requires Valid(now)
    ensures SecondsUntilNextMonth(now).Err? <==> now.date.year == MAXYEAR && now.date.month == 12
    ensures SecondsUntilNextMonth(now).Ok? ==>
      (var s, gap := SecondsUntilNextMonth(now).value, Micros(NextMonth(now)) - Micros(now);
       && 0 <= s <= 31 * 24 * 3600 && s == Truncate(gap)
       && s * SECOND <= gap < s * SECOND + SECOND)
  {
    GapToNextMonth(now);
    CapIsIdle(Micros(NextMonth(now)) - Micros(now));
    hide Micros, Truncate, CapAt32Days, DaysLeft;
  }

  /** The delay is 0, which callers read as "no retry will help", exactly in the last second of a month. */
  lemma ZeroDelayInLastSecond(now: Instant)
    requires Valid(now) && (now.date.year < MAXYEAR || now.date.month < 12)
    ensures SecondsUntilNextMonth(now).Ok?
    ensures (SecondsUntilNextMonth(now).value == 0
             <==> now.date.day == DaysInMonth(now.date.year, now.date.month) && now.micros > DAY - SECOND)
  {
    hide Micros, Truncate, CapAt32Days, NextMonth, SecondsUntilNextMonth, DaysInMonth, IsLeap;
    GapToNextMonth(now);
    DelayReachesNextMonth(now);
  }

  // ---- decisions ---------------------------------------------------------------------------

  /** A refusal names the resource, documents first, whose limit the upload would pass. */
  function CheckUpload(lim: Limits, u: Usage, incoming: int): (d: Decision)
    ensures d.allowed <==> u.docs < lim.docs && u.storageBytes + incoming <= lim.storageBytes
    ensures !d.allowed ==> d.retryAfter == 0 && (d.resource == Some(DOCS) <==> u.docs >= lim.docs)
    ensures d.resource == Some(DOCS) ==> d.limit == lim.docs && d.used == u.docs
    ensures !d.allowed && d.resource != Some(DOCS) ==>
      d.resource == Some(STORAGE_BYTES) && d.limit == lim.storageBytes && d.used == u.storageBytes
  {
    if u.docs + 1 > lim.docs then Decision(false, Some(DOCS), lim.docs, u.docs, 0)
    else if u.storageBytes + incoming > lim.storageBytes
    then Decision(false, Some(STORAGE_BYTES), lim.storageBytes, u.storageBytes, 0)
    else ALLOWED
  }

  function CheckQuery(lim: Limits, u: Usage, now: Instant): Result<Decision, Error> {
    if u.queriesThisMonth + 1 > lim.queriesPerMonth
    then match SecondsUntilNextMonth(now)
      case Err(e) => Err(e)
      case Ok(s) => Ok(Decision(false, Some(QUERIES_PER_MONTH), lim.queriesPerMonth, u.queriesThisMonth, s))
    else Ok(ALLOWED)
  }

  datatype Request = Upload(bytes: int) | Query(now: Instant)

  predicate Admitted(lim: Limits, u: Usage, r: Request) {
    match r
    case Upload(b) => CheckUpload(lim, u, b).allowed
    case Query(now) => CheckQuery(lim, u, now).Ok? && CheckQuery(lim, u, now).value.allowed
  }

  /** What an admitted request adds to the counts. */
  function Record(u: Usage, r: Request): Usage {
    match r
    case Upload(b) => u.(docs := u.docs + 1, storageBytes := u.storageBytes + b)
    case Query(_) => u.(queriesThisMonth := u.queriesThisMonth + 1)
  }

  function Serve(lim: Limits, u: Usage, rs: seq<Request>): Usage
    decreases rs
  {
    if rs == [] then u else Serve(lim, if Admitted(lim, u, rs[0]) then Record(u, rs[0]) else u, rs[1..])
  }

  predicate Within(lim: Limits, u: Usage) {
    u.docs <= lim.docs && u.storageBytes <= lim.storageBytes && u.queriesThisMonth <= lim.queriesPerMonth
  }

  /** From usage within the limits, a request is admitted exactly when it leaves usage within them. */
  lemma AdmittedExactly(lim: Limits, u: Usage, r: Request)
    requires Within(lim, u)
    ensures Admitted(lim, u, r) <==> Within(lim, Record(u, r))
  {}

  /** What a refused upload is told lets its caller act on it: if documents are short no upload of any size is
      admitted, and if storage is, exactly those up to the limit less the usage it names are. */
  lemma RefusalInforms(lim: Limits, u: Usage, b: int)
    requires !CheckUpload(lim, u, b).allowed
    ensures (var d := CheckUpload(lim, u, b);
             && (d.resource == Some(DOCS) ==> forall x :: !CheckUpload(lim, u, x).allowed)
             && (d.resource != Some(DOCS) ==> forall x :: CheckUpload(lim, u, x).allowed <==> x <= d.limit - d.used))
  {
    forall x ensures CheckUpload(lim, u, x).allowed <==> u.docs < lim.docs && x <= lim.storageBytes - u.storageBytes {}
  }

  /** A refused query names its resource, limit and usage, and as `retry_after` the whole seconds left of the month: it
      is refused for every usage that reaches the limit it names, and once that many seconds are over the month has
      less than one more to go. An admitted request names nothing. */
  lemma QueryRefusalInforms(lim: Limits, u: Usage, now: Instant)
    requires Valid(now)
    ensures CheckQuery(lim, u, now) == Ok(Decision(true, None, 0, 0, 0)) <==> u.queriesThisMonth < lim.queriesPerMonth
    ensures (u.queriesThisMonth >= lim.queriesPerMonth ==>
      if now.date.year == 9999 && now.date.month == 12 then CheckQuery(lim, u, now).Err?
      else
        && CheckQuery(lim, u, now).Ok?
        && (var d := CheckQuery(lim, u, now).value; var gap := Micros(NextMonth(now)) - Micros(now);
            && !d.allowed && d.resource == Some(QUERIES_PER_MONTH)
            && d.limit == lim.queriesPerMonth && d.used == u.queriesThisMonth
            && d.retryAfter * 1_000_000 <= gap < d.retryAfter * 1_000_000 + 1_000_000
            && forall v: Usage :: v.queriesThisMonth >= d.limit ==> !Admitted(lim, v, Query(now))))
    ensures forall b :: CheckUpload(lim, u, b).allowed ==> CheckUpload(lim, u, b) == Decision(true, None, 0, 0, 0)
  {
    DelayReachesNextMonth(now);
    hide Micros, NextMonth, SecondsUntilNextMonth, Truncate;
  }

  /** The cap by itself: a negative count becomes a minute, one past 32 days becomes 32 days. */
  lemma CapBounds(s: int)
    ensures 0 <= CapAt32Days(s) <= 2_764_800
    ensures CapAt32Days(s) == s <==> 0 <= s <= 2_764_800
    ensures s < 0 ==> CapAt32Days(s) == 60
    ensures s > 2_764_800 ==> CapAt32Days(s) == 2_764_800
  {}

  /** And a `retry_after` of 0 is right for uploads: however many requests are served meanwhile, a refused upload
      is refused again, as long as uploads have sizes of at least 0. */
  lemma {:induction false} NoRetryHelps(lim: Limits, u: Usage, rs: seq<Request>, b: int)
    requires !CheckUpload(lim, u, b).allowed && forall i | 0 <= i < |rs| :: rs[i].Upload? ==> rs[i].bytes >= 0
    ensures !CheckUpload(lim, Serve(lim, u, rs), b).allowed && CheckUpload(lim, u, b).retryAfter == 0
    decreases rs
  {
    if rs != [] {
      NoRetryHelps(lim, if Admitted(lim, u, rs[0]) then Record(u, rs[0]) else u, rs[1..], b);
    }
  }

  /** No serial run of checked and recorded requests takes a count past its limit, or past where it started
      if limits were lowered meanwhile. */
  lemma {:induction false} RunsStayWithin(lim: Limits, u: Usage, rs: seq<Request>)
    ensures (var v := Serve(lim, u, rs);
             && v.docs <= Max(lim.docs, u.docs) && v.storageBytes <= Max(lim.storageBytes, u.storageBytes)
             && v.queriesThisMonth <= Max(lim.queriesPerMonth, u.queriesThisMonth)
             && (Within(lim, u) ==> Within(lim, v)))
    decreases rs
  {
    if rs != [] {
      RunsStayWithin(lim, if Admitted(lim, u, rs[0]) then Record(u, rs[0]) else u, rs[1..]);
    }
  }

  /** Checks that overlap are not serial: two uploads checked against the same usage are both admitted, and
      together exceed a limit, exactly when each fits alone and the two do not. */
  lemma OverlappingUploads(lim: Limits, u: Usage, a: int, b: int)
    requires Within(lim, u)
    ensures (&& Admitted(lim, u, Upload(a)) && Admitted(lim, u, Upload(b))
             && !Within(lim, Record(Record(u, Upload(a)), Upload(b)))
             <==> && u.docs < lim.docs && u.storageBytes + Max(a, b) <= lim.storageBytes
                  && (u.docs + 1 == lim.docs || u.storageBytes + a + b > lim.storageBytes))
  {}
}
