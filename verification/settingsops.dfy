/** The settings cache: what `_load_from_pool` and `_poll_once` make of the rows they fetch. */
module SettingsOps {
  import opened Common
  import opened Json
  import Utf8

  /** A value that is neither bytes nor text. */
  type Ready = v: Json | !v.Str? witness Null

  /** `value_json` as the driver hands it over. */
  datatype Raw = Encoded(b: bytes) | Text(s: string) | Plain(v: Ready)

  datatype Row = Row(key: string, raw: Raw, secret: bool, at: nat)

  /** `json.loads`; None when it raises JSONDecodeError. */
  type Loader = string -> Option<Json>

  /** The value cached for a row. Bytes that are not UTF-8 raise, which ends the whole load or poll; text
      that is not JSON is kept as it is. */
  function Decode(ld: Loader, raw: Raw): Option<Json> {
    var text := match raw
      case Encoded(b) => Utf8.Decode(b)
      case Text(s) => Some(s)
      case Plain(_) => None;
    match raw
    case Plain(v) => Some(v)
    case _ => if text.None? then None else if ld(text.value).Some? then ld(text.value) else Some(Str(text.value))
  }

  /** What a row holds: a value as it is; a text, in either form, as the value the loader reads from it, or as itself
      if the loader reads none; bytes that are the UTF-8 of no text, nothing. */
  lemma DecodeMeans(ld: Loader, raw: Raw)
    ensures raw.Plain? ==> Decode(ld, raw) == Some(raw.v)
    ensures forall s | raw == Text(s) || raw == Encoded(Utf8.Encode(s)) ::
      Decode(ld, raw) == Some(match ld(s) case Some(v) => v case None => Str(s))
    ensures raw.Encoded? && (forall s :: Utf8.Encode(s) != raw.b) ==> Decode(ld, raw) == None
  {
    if raw.Encoded? {
      forall s ensures Utf8.Decode(raw.b) == Some(s) <==> Utf8.Encode(s) == raw.b { Utf8.DecodeExact(raw.b, s); }
    }
    hide Utf8.Decode, Utf8.Encode;
  }

  /** One loop over fetched rows: the cache it leaves, and whether it got to the end. */
  function Absorb(ld: Loader, cache: map<string, Json>, rows: seq<Row>): (map<string, Json>, bool)
    decreases rows
  {
    if rows == [] then (cache, true)
    else if rows[0].secret then Absorb(ld, cache, rows[1..])
    else match Decode(ld, rows[0].raw)
      case None => (cache, false)
      case Some(v) => Absorb(ld, cache[rows[0].key := v], rows[1..])
  }

  /** `get`: the cached value, or the caller's default. */
  function Lookup(cache: map<string, Json>, key: string, default: Json): Json {
    if key in cache then cache[key] else default
  }

  predicate Later(last: Option<nat>, at: nat) { last.None? || at > last.value }

  /** The newest `updated_at` seen. */
  function Latest(last: Option<nat>, rows: seq<Row>): Option<nat>
    decreases rows
  {
    if rows == [] then last
    else Latest(if Later(last, rows[0].at) then Some(rows[0].at) else last, rows[1..])
  }

  lemma {:induction false} LatestIsMax(last: Option<nat>, rows: seq<Row>)
    ensures (var m := Latest(last, rows);
             && (m.None? <==> last.None? && rows == [])
             && (forall i | 0 <= i < |rows| :: m.Some? && rows[i].at <= m.value)
             && (last.Some? ==> m.Some? && last.value <= m.value)
             && (m.Some? ==> m == last || exists i :: 0 <= i < |rows| && rows[i].at == m.value))
    decreases rows
  {
    if rows != [] {
      var l := if Later(last, rows[0].at) then Some(rows[0].at) else last;
      LatestIsMax(l, rows[1..]);
      assert forall i | 1 <= i < |rows| :: rows[i] == rows[1..][i - 1];
      var m := Latest(last, rows);
      if m == l { assert m == last || rows[0].at == m.value; }
    }
  }

  predicate Distinct(rows: seq<Row>) { forall i, j | 0 <= i < j < |rows| :: rows[i].key != rows[j].key }

  predicate Cached(ld: Loader, cache: map<string, Json>, r: Row) {
    r.key in cache && Decode(ld, r.raw) == Some(cache[r.key])
  }

  /** Every row of the loop is cached if it gets to the end, which it does exactly when every row that is
      not secret decodes; in any case what the cache holds under a key is what it held before or the
      value of that key's row, and a secret row changes nothing. */
  lemma {:induction false} AbsorbExact(ld: Loader, cache: map<string, Json>, rows: seq<Row>)
    requires Distinct(rows)
    ensures (var (c, ok) := Absorb(ld, cache, rows);
             && (ok <==> forall i | 0 <= i < |rows| && !rows[i].secret :: Decode(ld, rows[i].raw).Some?)
             && (ok ==> forall i | 0 <= i < |rows| && !rows[i].secret :: Cached(ld, c, rows[i]))
             && (forall k | k in cache :: k in c)
             && forall k | k in c :: (k in cache && c[k] == cache[k])
                                  || exists i ::
                                       && 0 <= i < |rows| && rows[i].key == k
                                       && !rows[i].secret && Cached(ld, c, rows[i]))
    decreases rows
  {
    if rows != [] {
      var t := rows[1..];
      assert forall i | 1 <= i < |rows| :: rows[i] == t[i - 1];
      assert forall i | 0 <= i < |t| :: t[i] == rows[i + 1];
      hide Decode;
      if rows[0].secret {
        AbsorbExact(ld, cache, t);
      } else if Decode(ld, rows[0].raw).Some? {
        var c1 := cache[rows[0].key := Decode(ld, rows[0].raw).value];
        AbsorbExact(ld, c1, t);
        var c := Absorb(ld, c1, t).0;
        assert Cached(ld, c, rows[0]);
      }
    }
  }

  // ---- the table ------------------------------------------------------------------------

  /** The table in `updated_at` order: a write gives its row the newest one, and keeps one row a key. */
  predicate TableOk(t: seq<Row>) {
    Distinct(t) && forall i, j | 0 <= i < j < |t| :: t[i].at < t[j].at
  }

  function Without(t: seq<Row>, key: string): seq<Row> {
    if t == [] then [] else if t[0].key == key then Without(t[1..], key) else [t[0]] + Without(t[1..], key)
  }

  function Write(t: seq<Row>, r: Row): seq<Row> { Without(t, r.key) + [r] }

  predicate Newest(t: seq<Row>, at: nat) { forall i | 0 <= i < |t| :: t[i].at < at }

  lemma {:induction false} WithoutMembers(t: seq<Row>, key: string)
    ensures forall x :: x in Without(t, key) <==> x in t && x.key != key
  {
    if t != [] {
      WithoutMembers(t[1..], key);
      assert forall x :: x in t <==> x == t[0] || x in t[1..];
    }
  }

  predicate HeadFits(r: Row, t: seq<Row>) { forall i | 0 <= i < |t| :: r.at < t[i].at && r.key != t[i].key }

  lemma TailOk(r: Row, t: seq<Row>)
    requires TableOk([r] + t)
    ensures TableOk(t) && HeadFits(r, t)
  {
    var u := [r] + t;
    assert u[0] == r && forall i | 0 <= i < |t| :: u[i + 1] == t[i];
    forall i | 0 <= i < |t| ensures r.at < t[i].at && r.key != t[i].key { assert u[i + 1] == t[i]; }
    forall i, j | 0 <= i < j < |t| ensures t[i].at < t[j].at && t[i].key != t[j].key {
      assert u[i + 1] == t[i] && u[j + 1] == t[j];
    }
  }

  lemma ConsOk(r: Row, t: seq<Row>)
    requires TableOk(t) && HeadFits(r, t)
    ensures TableOk([r] + t)
  {
    var u := [r] + t;
    forall i, j | 0 <= i < j < |u| ensures u[i].at < u[j].at && u[i].key != u[j].key {
      assert u[j] == t[j - 1] && u[i] == if i == 0 then r else t[i - 1];
    }
  }

  lemma {:induction false} WithoutExact(t: seq<Row>, key: string)
    requires TableOk(t)
    ensures TableOk(Without(t, key)) && forall x :: x in Without(t, key) <==> x in t && x.key != key
  {
    WithoutMembers(t, key);
    if t != [] {
      assert t == [t[0]] + t[1..];
      TailOk(t[0], t[1..]);
      WithoutExact(t[1..], key);
      var w := Without(t[1..], key);
      hide TableOk;
      forall i | 0 <= i < |w| ensures t[0].at < w[i].at && t[0].key != w[i].key { assert w[i] in t[1..]; }
      assert HeadFits(t[0], w);
      ConsOk(t[0], w);
    }
  }

  lemma WriteExact(t: seq<Row>, r: Row)
    requires TableOk(t) && Newest(t, r.at)
    ensures TableOk(Write(t, r)) && forall x :: x in Write(t, r) <==> x == r || (x in t && x.key != r.key)
  {
    WithoutExact(t, r.key);
    var w := Without(t, r.key);
    forall i | 0 <= i < |w| ensures w[i].at < r.at && w[i].key != r.key { assert w[i] in t; }
  }

  /** `WHERE updated_at > $1 ORDER BY updated_at ASC`; nothing compares with NULL. */
  function Since(t: seq<Row>, last: Option<nat>): seq<Row> {
    if t == [] || last.None? then []
    else if t[0].at > last.value then t
    else Since(t[1..], last)
  }

  lemma {:induction false} SinceExact(t: seq<Row>, last: Option<nat>)
    requires TableOk(t)
    ensures (var r := Since(t, last);
             TableOk(r) && forall x :: x in r <==> x in t && last.Some? && x.at > last.value)
  {
    if t != [] && last.Some? {
      assert forall x :: x in t <==> x == t[0] || x in t[1..];
      if t[0].at > last.value {
        forall x | x in t ensures x.at > last.value { var i :| 0 <= i < |t| && t[i] == x; }
      } else {
        SinceExact(t[1..], last);
      }
    }
  }

  // ---- one undisturbed poll ----------------------------------------------------------------

  /** `_poll_once` with nobody writing meanwhile. */
  function Poll(ld: Loader, cache: map<string, Json>, last: Option<nat>, t: seq<Row>)
    : (map<string, Json>, Option<nat>)
  {
    var rows := Since(t, last);
    var (c, ok) := Absorb(ld, cache, rows);
    (c, if ok then Latest(last, rows) else last)
  }

  /** The cache agrees with every row up to the watermark. */
  ghost predicate Agrees(ld: Loader, cache: map<string, Json>, last: Option<nat>, t: seq<Row>) {
    last.Some? ==> forall r | r in t && !r.secret && r.at <= last.value :: Cached(ld, cache, r)
  }

  /** One undisturbed poll brings the cache up to date with the whole table exactly when every plain row past
      the watermark decodes; otherwise the watermark does not move. */
  lemma PollConverges(ld: Loader, cache: map<string, Json>, last: Option<nat>, t: seq<Row>)
    requires TableOk(t) && last.Some? && Agrees(ld, cache, last, t)
    ensures (var (c, m) := Poll(ld, cache, last, t);
             && m.Some? && Agrees(ld, c, m, t)
             && (Agrees(ld, c, m, t) && (forall r | r in t :: r.at <= m.value)
                 <==> forall r | r in t && !r.secret && r.at > last.value :: Decode(ld, r.raw).Some?)
             && (m == last || forall r | r in t :: r.at <= m.value))
  {
    var rows := Since(t, last);
    SinceExact(t, last);
    AbsorbExact(ld, cache, rows);
    LatestIsMax(last, rows);
    hide Decode, Since, Absorb, Latest, TableOk;
    var (c, m) := Poll(ld, cache, last, t);
    var ok := Absorb(ld, cache, rows).1;
    forall r | r in t && !r.secret && r.at <= m.value ensures Cached(ld, c, r) {
      KeepsAgreement(ld, cache, last, t, r);
    }
    assert forall r | r in rows :: exists i :: 0 <= i < |rows| && rows[i] == r;
    assert ok <==> forall r | r in rows && !r.secret :: Decode(ld, r.raw).Some?;
  }

  lemma KeepsAgreement(ld: Loader, cache: map<string, Json>, last: Option<nat>, t: seq<Row>, r: Row)
    requires TableOk(t) && last.Some? && Agrees(ld, cache, last, t) && r in t && !r.secret
    requires r.at <= last.value || Absorb(ld, cache, Since(t, last)).1
    ensures Cached(ld, Absorb(ld, cache, Since(t, last)).0, r)
  {
    var rows := Since(t, last);
    SinceExact(t, last);
    AbsorbExact(ld, cache, rows);
    hide Decode, Since, Absorb;
    var c := Absorb(ld, cache, rows).0;
    if r.at <= last.value {
      if i :| 0 <= i < |rows| && rows[i].key == r.key {
        assert rows[i] in rows && rows[i] in t;
        SameRow(t, rows[i], r);
      }
    } else {
      var i :| 0 <= i < |rows| && rows[i] == r;
    }
  }

  lemma SameRow(t: seq<Row>, a: Row, b: Row)
    requires Distinct(t) && a in t && b in t && a.key == b.key
    ensures a == b
  {}
}

/** Writers and the poll loop on one table: a poll fetches, then handles its rows one at a time (a listener
    may suspend it), and may end anywhere. */
module SettingsMachine {
  import opened Common
  import opened Json
  import opened SettingsOps

  datatype Flight = Flight(rows: seq<Row>, done: nat)

  /** The listeners of `key` were called with `value`, from the row updated at `at`, by poll number `poll`. */
  datatype Call = Call(key: string, value: Json, at: nat, poll: nat)

  /** `plain` collects the keys ever written without `is_secret`. */
  datatype State = State(table: seq<Row>, plain: set<string>, cache: map<string, Json>, last: Option<nat>,
                         flight: Option<Flight>, polls: nat, calls: seq<Call>)

  datatype Step =
    | Update(r: Row)
    | Load(order: seq<Row>)
    | Fetch
    | NextRow
    | Finish
    | Cancel

  const INIT := State([], {}, map[], None, None, 0, [])

  predicate Enabled(s: State, step: Step) {
    match step
    case Update(r) => Newest(s.table, r.at)
    case Load(order) =>
      && s.flight.None? && Distinct(order)
      && (forall r | r in order :: r in s.table) && forall r | r in s.table :: r in order
    case Fetch => s.flight.None?
    case NextRow => s.flight.Some? && s.flight.value.done < |s.flight.value.rows|
    case Finish => s.flight.Some? && s.flight.value.done == |s.flight.value.rows|
    case Cancel => s.flight.Some?
  }

  function Apply(s: State, ld: Loader, step: Step): State
    requires Enabled(s, step)
  {
    match step
    case Update(r) => s.(table := Write(s.table, r), plain := if r.secret then s.plain else s.plain + {r.key})
    case Load(order) =>
      var (c, ok) := Absorb(ld, s.cache, order);
      s.(cache := c, last := if ok then Latest(s.last, order) else s.last)
    case Fetch => s.(flight := Some(Flight(Since(s.table, s.last), 0)), polls := s.polls + 1)
    case NextRow =>
      var f := s.flight.value;
      var r := f.rows[f.done];
      var next := Some(f.(done := f.done + 1));
      if r.secret then s.(flight := next)
      else (match Decode(ld, r.raw)
            case None => s.(flight := None)
            case Some(v) =>
              s.(flight := next, cache := s.cache[r.key := v], calls := s.calls + [Call(r.key, v, r.at, s.polls)]))
    case Finish => s.(flight := None, last := Latest(s.last, s.flight.value.rows))
    case Cancel => s.(flight := None)
  }

  // ---- what every step keeps -----------------------------------------------------------

  predicate Reached(t: seq<Row>, at: nat) { exists i :: 0 <= i < |t| && t[i].at >= at }

  predicate KeysPlain(cache: map<string, Json>, t: seq<Row>, plain: set<string>) {
    (forall k | k in cache :: k in plain) && RowsPlain(t, plain)
  }

  predicate Ahead(rows: seq<Row>, last: Option<nat>) { forall r | r in rows :: last.Some? && r.at > last.value }

  predicate RowsPlain(rows: seq<Row>, plain: set<string>) { forall r | r in rows && !r.secret :: r.key in plain }

  predicate AllReached(t: seq<Row>, rows: seq<Row>) { forall r | r in rows :: Reached(t, r.at) }

  predicate NotNewer(t: seq<Row>, rows: seq<Row>) {
    forall r, x | r in rows && x in t && x.key == r.key :: x.at >= r.at
  }

  predicate Covered(t: seq<Row>, rows: seq<Row>, last: Option<nat>) {
    forall x, r | x in t && r in rows && x.at <= r.at :: x in rows || (last.Some? && x.at <= last.value)
  }

  predicate Shown(ld: Loader, cache: map<string, Json>, rows: seq<Row>, done: nat) {
    forall i | 0 <= i < done && i < |rows| && !rows[i].secret :: Cached(ld, cache, rows[i])
  }

  /** The rows of a poll in progress: every one past the watermark, none newer than the table's row of its
      key, none up to the newest of them left out, and the first `done` in the cache. */
  ghost predicate FlightOk(s: State, ld: Loader, f: Flight) {
    && f.done <= |f.rows| && TableOk(f.rows)
    && Ahead(f.rows, s.last) && RowsPlain(f.rows, s.plain)
    && AllReached(s.table, f.rows) && NotNewer(s.table, f.rows) && Covered(s.table, f.rows, s.last)
    && Shown(ld, s.cache, f.rows, f.done)
  }

  ghost predicate Inv(s: State, ld: Loader) {
    && TableOk(s.table) && KeysPlain(s.cache, s.table, s.plain)
    && Agrees(ld, s.cache, s.last, s.table)
    && (s.last.Some? ==> Reached(s.table, s.last.value))
    && (s.flight.Some? ==> FlightOk(s, ld, s.flight.value))
  }

  lemma NewestPasses(t: seq<Row>, at: nat, x: nat)
    requires Newest(t, at) && Reached(t, x)
    ensures at > x
  {}

  lemma UpdateKeeps(s: State, ld: Loader, r: Row)
    requires Inv(s, ld) && Enabled(s, Update(r))
    ensures Inv(Apply(s, ld, Update(r)), ld)
  {
    WriteExact(s.table, r);
    var v := Apply(s, ld, Update(r));
    assert v.table[|v.table| - 1] == r;
    forall at | Reached(s.table, at) ensures r.at > at && Reached(v.table, at) { NewestPasses(s.table, r.at, at); }
    hide Decode, Write, TableOk, Newest, Reached;
  }

  /** The row a new watermark comes from. */
  lemma LatestRow(last: Option<nat>, rows: seq<Row>) returns (top: Option<Row>)
    ensures top.None? ==> Latest(last, rows) == last
    ensures top.Some? ==> top.value in rows && Latest(last, rows) == Some(top.value.at)
  {
    LatestIsMax(last, rows);
    hide Latest;
    var m := Latest(last, rows);
    if m == last {
      top := None;
    } else {
      var i :| 0 <= i < |rows| && rows[i].at == m.value;
      top := Some(rows[i]);
    }
  }

  lemma LoadAgrees(s: State, ld: Loader, order: seq<Row>)
    requires Agrees(ld, s.cache, s.last, s.table) && Enabled(s, Load(order))
    ensures Agrees(ld, Apply(s, ld, Load(order)).cache, Apply(s, ld, Load(order)).last, s.table)
  {
    AbsorbExact(ld, s.cache, order);
    hide Decode, Absorb, Latest, Cached, Distinct;
    var (c, ok) := Absorb(ld, s.cache, order);
    forall r | r in s.table && !r.secret && (ok || (s.last.Some? && r.at <= s.last.value)) ensures Cached(ld, c, r) {
      var i :| 0 <= i < |order| && order[i] == r;
      if !ok { LoadedRow(s, ld, order, i); }
    }
  }

  lemma LoadPlain(s: State, ld: Loader, order: seq<Row>)
    requires KeysPlain(s.cache, s.table, s.plain) && Enabled(s, Load(order))
    ensures KeysPlain(Apply(s, ld, Load(order)).cache, s.table, s.plain)
  {
    AbsorbExact(ld, s.cache, order);
    hide Decode, Absorb, Latest, Cached;
    var c := Absorb(ld, s.cache, order).0;
    forall k | k in c ensures k in s.plain {
      if k !in s.cache {
        var i :| 0 <= i < |order| && order[i].key == k && !order[i].secret;
        assert order[i] in order;
      }
    }
  }

  lemma LoadKeeps(s: State, ld: Loader, order: seq<Row>)
    requires Inv(s, ld) && Enabled(s, Load(order))
    ensures Inv(Apply(s, ld, Load(order)), ld)
  {
    LoadAgrees(s, ld, order);
    LoadPlain(s, ld, order);
    var top := LatestRow(s.last, order);
    if top.Some? {
      assert top.value in s.table;
      assert Reached(s.table, top.value.at);
    }
    hide Decode, Absorb, Latest, Cached, TableOk, KeysPlain, Agrees, Reached, Distinct;
  }

  /** A row that was cached stays cached through a load that stops early. */
  lemma LoadedRow(s: State, ld: Loader, order: seq<Row>, i: nat)
    requires Distinct(order) && i < |order| && !order[i].secret && Cached(ld, s.cache, order[i])
    ensures Cached(ld, Absorb(ld, s.cache, order).0, order[i])
  {
    AbsorbExact(ld, s.cache, order);
    hide Decode, Absorb;
  }

  lemma FetchKeeps(s: State, ld: Loader)
    requires Inv(s, ld) && Enabled(s, Fetch)
    ensures Inv(Apply(s, ld, Fetch), ld)
  {
    SinceExact(s.table, s.last);
    hide Decode, Since, TableOk, Agrees, Cached;
    var rows := Since(s.table, s.last);
    assert NotNewer(s.table, rows) by {
      forall r, x | r in s.table && x in s.table && x.key == r.key ensures x.at >= r.at { SameKey(s.table, r, x); }
    }
    assert AllReached(s.table, rows) by {
      forall r | r in s.table ensures Reached(s.table, r.at) { var i :| 0 <= i < |s.table| && s.table[i] == r; }
    }
    hide Reached, NotNewer;
  }

  lemma SameKey(t: seq<Row>, a: Row, b: Row)
    requires TableOk(t) && a in t && b in t && a.key == b.key
    ensures a == b
  {
    SameRow(t, a, b);
  }

  /** A poll's row replaces nothing that the watermark vouches for. */
  lemma RowAgrees(s: State, ld: Loader, f: Flight, r: Row, v: Json)
    requires r in f.rows && Ahead(f.rows, s.last) && NotNewer(s.table, f.rows) && Agrees(ld, s.cache, s.last, s.table)
    ensures Agrees(ld, s.cache[r.key := v], s.last, s.table)
  {
    hide Decode;
  }

  lemma RowShown(ld: Loader, cache: map<string, Json>, rows: seq<Row>, done: nat, v: Json)
    requires TableOk(rows) && done < |rows| && Shown(ld, cache, rows, done) && Decode(ld, rows[done].raw) == Some(v)
    ensures Shown(ld, cache[rows[done].key := v], rows, done + 1)
  {
    hide Decode;
    assert forall i | 0 <= i < done :: rows[i].key != rows[done].key;
  }

  lemma RowInv(s: State, ld: Loader, f: Flight, v: Json)
    requires Inv(s, ld) && s.flight == Some(f) && f.done < |f.rows|
    requires !f.rows[f.done].secret && Decode(ld, f.rows[f.done].raw) == Some(v)
    ensures Inv(s.(flight := Some(f.(done := f.done + 1)), cache := s.cache[f.rows[f.done].key := v]), ld)
  {
    var r := f.rows[f.done];
    assert r in f.rows && r.key in s.plain;
    RowAgrees(s, ld, f, r, v);
    RowShown(ld, s.cache, f.rows, f.done, v);
    hide Decode, Reached, TableOk, Ahead, RowsPlain, AllReached, NotNewer, Covered, Shown, Agrees;
  }

  lemma SkipInv(s: State, ld: Loader, f: Flight)
    requires Inv(s, ld) && s.flight == Some(f) && f.done < |f.rows| && f.rows[f.done].secret
    ensures Inv(s.(flight := Some(f.(done := f.done + 1))), ld)
  {
    hide Cached, Reached, TableOk, Ahead, RowsPlain, AllReached, NotNewer, Covered, Agrees, KeysPlain;
  }

  lemma RowKeeps(s: State, ld: Loader)
    requires Inv(s, ld) && Enabled(s, NextRow)
    ensures Inv(Apply(s, ld, NextRow), ld)
  {
    var f := s.flight.value;
    var r := f.rows[f.done];
    if r.secret {
      SkipInv(s, ld, f);
      hide Inv, Decode;
    } else if Decode(ld, r.raw).Some? {
      RowInv(s, ld, f, Decode(ld, r.raw).value);
      hide Inv, Decode;
    } else {
      hide Decode, FlightOk, TableOk, Agrees, KeysPlain, Reached;
    }
  }

  lemma FinishAgrees(ld: Loader, cache: map<string, Json>, rows: seq<Row>, t: seq<Row>, last: Option<nat>, top: Row)
    requires Covered(t, rows, last) && Shown(ld, cache, rows, |rows|) && Agrees(ld, cache, last, t) && top in rows
    ensures Agrees(ld, cache, Some(top.at), t)
  {
    hide Cached;
    forall x | x in t && !x.secret && x.at <= top.at ensures Cached(ld, cache, x) {
      if x in rows { var j :| 0 <= j < |rows| && rows[j] == x; }
    }
  }

  lemma FinishInv(s: State, ld: Loader, f: Flight)
    requires Inv(s, ld) && s.flight == Some(f) && f.done == |f.rows|
    ensures Inv(s.(flight := None, last := Latest(s.last, f.rows)), ld)
  {
    hide Decode, Latest, Cached, TableOk, NotNewer, RowsPlain, Covered, Shown, Agrees, Reached, KeysPlain;
    var top := LatestRow(s.last, f.rows);
    if top.Some? {
      FinishAgrees(ld, s.cache, f.rows, s.table, s.last, top.value);
      hide Ahead;
      assert Reached(s.table, top.value.at);
    }
  }

  lemma FinishKeeps(s: State, ld: Loader)
    requires Inv(s, ld) && Enabled(s, Finish)
    ensures Inv(Apply(s, ld, Finish), ld)
  {
    FinishInv(s, ld, s.flight.value);
    hide Inv, Latest;
  }

  lemma CancelKeeps(s: State, ld: Loader)
    requires Inv(s, ld)
    ensures Inv(s.(flight := None), ld)
  {
    hide Cached, TableOk, Reached;
  }

  predicate NotBefore(a: Option<nat>, b: Option<nat>) { a.None? || (b.Some? && a.value <= b.value) }

  lemma StepKeeps(s: State, ld: Loader, step: Step)
    requires Inv(s, ld) && Enabled(s, step)
    ensures Inv(Apply(s, ld, step), ld)
    ensures NotBefore(s.last, Apply(s, ld, step).last)
  {
    hide Inv, Decode, Absorb, Since, Write, Latest;
    match step
    case Update(r) => UpdateKeeps(s, ld, r);
    case Load(order) => LoadKeeps(s, ld, order); LatestIsMax(s.last, order);
    case Fetch => FetchKeeps(s, ld);
    case NextRow => RowKeeps(s, ld);
    case Finish => FinishKeeps(s, ld); LatestIsMax(s.last, s.flight.value.rows);
    case Cancel => CancelKeeps(s, ld);
  }

  // ---- the order of listener calls ---------------------------------------------------------

  predicate InOrder(calls: seq<Call>) {
    && (forall i, j | 0 <= i < j < |calls| && calls[i].poll == calls[j].poll :: calls[i].at < calls[j].at)
    && forall i, j | 0 <= i < j < |calls| && calls[i].key == calls[j].key :: calls[i].at <= calls[j].at
  }

  predicate BeforeRow(c: Call, poll: nat, r: Row) {
    (c.poll == poll ==> c.at < r.at) && (c.key == r.key ==> c.at <= r.at)
  }

  /** No call shows a version newer than the table's, or one from a poll to come. */
  predicate NotPast(calls: seq<Call>, polls: nat, t: seq<Row>) {
    && (forall c | c in calls :: c.poll <= polls && Reached(t, c.at))
    && forall c, r | c in calls && r in t && r.key == c.key :: c.at <= r.at
  }

  /** Every call so far comes before the rows still to be delivered. */
  predicate RowsAfter(calls: seq<Call>, polls: nat, rows: seq<Row>, done: nat) {
    forall c, k | c in calls && done <= k < |rows| :: BeforeRow(c, polls, rows[k])
  }

  predicate CallsOk(s: State) {
    && InOrder(s.calls) && NotPast(s.calls, s.polls, s.table)
    && (s.flight.Some? ==> RowsAfter(s.calls, s.polls, s.flight.value.rows, s.flight.value.done))
  }

  lemma InOrderSnoc(calls: seq<Call>, c: Call)
    requires InOrder(calls)
    requires forall x | x in calls :: (x.poll == c.poll ==> x.at < c.at) && (x.key == c.key ==> x.at <= c.at)
    ensures InOrder(calls + [c])
  {
    assert forall i | 0 <= i < |calls| :: calls[i] in calls;
  }

  /** One more row delivered. */
  lemma CallJoins(calls: seq<Call>, polls: nat, t: seq<Row>, rows: seq<Row>, done: nat, v: Json)
    requires InOrder(calls) && NotPast(calls, polls, t) && RowsAfter(calls, polls, rows, done)
    requires done < |rows| && TableOk(rows) && NotNewer(t, rows) && AllReached(t, rows)
    ensures (var more := calls + [Call(rows[done].key, v, rows[done].at, polls)];
             InOrder(more) && NotPast(more, polls, t) && RowsAfter(more, polls, rows, done + 1))
  {
    var r := rows[done];
    var c := Call(r.key, v, r.at, polls);
    assert r in rows;
    InOrderSnoc(calls, c) by {
      assert forall x | x in calls :: BeforeRow(x, polls, r);
    }
    assert NotPast([c], polls, t) by { hide Reached, InOrder, RowsAfter, TableOk; }
    assert RowsAfter([c], polls, rows, done + 1) by { hide Reached, InOrder, NotPast; }
    hide InOrder, Reached, BeforeRow, TableOk, NotNewer, AllReached;
    assert forall x :: x in calls + [c] <==> x in calls || x in [c];
  }

  lemma RowCalls(s: State, ld: Loader)
    requires Inv(s, ld) && CallsOk(s) && Enabled(s, NextRow)
    ensures CallsOk(Apply(s, ld, NextRow))
  {
    var f := s.flight.value;
    var r := f.rows[f.done];
    assert FlightOk(s, ld, f);
    hide Decode, InOrder, Reached, Inv, BeforeRow, TableOk, NotNewer, AllReached, NotPast;
    if !r.secret && Decode(ld, r.raw).Some? {
      CallJoins(s.calls, s.polls, s.table, f.rows, f.done, Decode(ld, r.raw).value);
      hide NotPast, RowsAfter;
    }
  }

  lemma UpdateCalls(s: State, ld: Loader, r: Row)
    requires Inv(s, ld) && CallsOk(s) && Enabled(s, Update(r))
    ensures CallsOk(Apply(s, ld, Update(r)))
  {
    WriteExact(s.table, r);
    var v := Apply(s, ld, Update(r));
    assert v.table[|v.table| - 1] == r;
    forall at | Reached(s.table, at) ensures r.at > at && Reached(v.table, at) { NewestPasses(s.table, r.at, at); }
    hide Decode, Write, TableOk, Newest, Reached, InOrder, Inv, BeforeRow;
  }

  lemma FetchCalls(s: State, ld: Loader)
    requires Inv(s, ld) && CallsOk(s) && Enabled(s, Fetch)
    ensures CallsOk(Apply(s, ld, Fetch))
  {
    SinceExact(s.table, s.last);
    hide Decode, Since, TableOk, Reached, InOrder, Inv;
    var rows := Since(s.table, s.last);
    assert forall k | 0 <= k < |rows| :: rows[k] in rows;
  }

  lemma OtherCalls(s: State, ld: Loader, step: Step)
    requires Inv(s, ld) && CallsOk(s) && Enabled(s, step) && !step.NextRow?
    ensures CallsOk(Apply(s, ld, step))
  {
    match step
    case Update(r) => UpdateCalls(s, ld, r);
    case Fetch => FetchCalls(s, ld);
    case _ => hide Decode, Absorb, Latest, Reached, InOrder, Inv, BeforeRow;
  }

  // ---- every change is announced -------------------------------------------------------------

  /** The listeners of the row's key have been called with its value. */
  predicate Told(calls: seq<Call>, ld: Loader, r: Row) {
    exists i ::
      0 <= i < |calls| && calls[i].key == r.key && calls[i].at == r.at && Decode(ld, r.raw) == Some(calls[i].value)
  }

  predicate RowsTold(calls: seq<Call>, ld: Loader, rows: seq<Row>, done: nat) {
    forall i | 0 <= i < done && i < |rows| && !rows[i].secret :: Told(calls, ld, rows[i])
  }

  /** The rows a poll in progress has handled. */
  predicate FlightTold(s: State, ld: Loader) {
    s.flight.Some? ==> RowsTold(s.calls, ld, s.flight.value.rows, s.flight.value.done)
  }

  /** Every plain row past `base` and up to the watermark. */
  predicate ToldSince(s: State, ld: Loader, base: nat) {
    forall r | r in s.table && !r.secret && base < r.at && s.last.Some? && r.at <= s.last.value :: Told(s.calls, ld, r)
  }

  lemma ToldLater(calls: seq<Call>, more: seq<Call>, ld: Loader, r: Row)
    requires Told(calls, ld, r) && calls <= more
    ensures Told(more, ld, r)
  {
    hide Decode;
    var i :| 0 <= i < |calls| && calls[i].key == r.key && calls[i].at == r.at
      && Decode(ld, r.raw) == Some(calls[i].value);
    assert more[i] == calls[i];
  }

  lemma NextRowTold(s: State, ld: Loader)
    requires FlightTold(s, ld) && Enabled(s, NextRow)
    ensures FlightTold(Apply(s, ld, NextRow), ld) && s.calls <= Apply(s, ld, NextRow).calls
  {
    var t := Apply(s, ld, NextRow);
    var f := s.flight.value;
    hide Decode;
    if t.flight.Some? {
      forall i | 0 <= i < f.done + 1 && !f.rows[i].secret ensures Told(t.calls, ld, f.rows[i]) {
        if i < f.done {
          ToldLater(s.calls, t.calls, ld, f.rows[i]);
        } else {
          assert t.calls[|s.calls|].key == f.rows[i].key;
        }
      }
    }
  }

  lemma StepTold(s: State, ld: Loader, step: Step)
    requires FlightTold(s, ld) && Enabled(s, step)
    ensures FlightTold(Apply(s, ld, step), ld)
  {
    if step.NextRow? { NextRowTold(s, ld); }
    hide Decode, Told, Absorb, Since, Latest, Write;
  }

  lemma StepToldSince(s: State, ld: Loader, step: Step, base: nat)
    requires Inv(s, ld) && FlightTold(s, ld) && ToldSince(s, ld, base) && Enabled(s, step) && !step.Load?
    ensures ToldSince(Apply(s, ld, step), ld, base)
  {
    match step
    case Update(r) =>
      WriteExact(s.table, r);
      if s.last.Some? { NewestPasses(s.table, r.at, s.last.value); }
      hide Decode, Told, Write, Newest, Reached, TableOk;
    case NextRow =>
      NextRowTold(s, ld);
      forall r | Told(s.calls, ld, r) ensures Told(Apply(s, ld, NextRow).calls, ld, r) {
        ToldLater(s.calls, Apply(s, ld, NextRow).calls, ld, r);
      }
      hide Decode, Told, Inv;
    case Finish => FinishTold(s, ld, base);
    case _ => hide Decode, Told, Inv, Since;
  }

  lemma FinishTold(s: State, ld: Loader, base: nat)
    requires Inv(s, ld) && FlightTold(s, ld) && ToldSince(s, ld, base) && Enabled(s, Finish)
    ensures ToldSince(Apply(s, ld, Finish), ld, base)
  {
    var f := s.flight.value;
    assert FlightOk(s, ld, f);
    hide Decode, Told, Latest, TableOk, Reached, Inv, Shown, Ahead, RowsPlain, AllReached, NotNewer;
    var top := LatestRow(s.last, f.rows);
    var t := Apply(s, ld, Finish);
    forall r | r in s.table && !r.secret && base < r.at && t.last.Some? && r.at <= t.last.value
      ensures Told(t.calls, ld, r)
    {
      if r in f.rows { var i :| 0 <= i < |f.rows| && f.rows[i] == r; }
    }
  }
}
