/** The manager object. */
module Settings {
  import opened Common
  import opened Json
  import opened SettingsOps

  /** Callback number `id` was called with `value`. */
  datatype Called = Called(id: nat, value: Json)

  function Each(ids: seq<nat>, v: Json): seq<Called> {
    seq(|ids|, i requires 0 <= i < |ids| => Called(ids[i], v))
  }

  /** The calls a poll over `rows` makes: up to the first row that raises, every callback of every plain row. */
  function Notified(ld: Loader, listeners: map<string, seq<nat>>, rows: seq<Row>): seq<Called> {
    if rows == [] then []
    else if rows[0].secret then Notified(ld, listeners, rows[1..])
    else match Decode(ld, rows[0].raw)
      case None => []
      case Some(v) =>
        (if rows[0].key in listeners then Each(listeners[rows[0].key], v) else [])
        + Notified(ld, listeners, rows[1..])
  }

  /** The loop gets to row `i`: every plain row up to it decodes. */
  predicate Reaches(ld: Loader, rows: seq<Row>, i: nat)
    requires i < |rows|
  {
    forall j | 0 <= j <= i && !rows[j].secret :: Decode(ld, rows[j].raw).Some?
  }

  predicate CallOf(ld: Loader, listeners: map<string, seq<nat>>, r: Row, c: Called) {
    !r.secret && r.key in listeners && c.id in listeners[r.key] && Decode(ld, r.raw) == Some(c.value)
  }

  /** Who is called: exactly the callbacks of the plain rows the loop gets to, with those rows' values. */
  lemma {:induction false} NotifiedExact(ld: Loader, listeners: map<string, seq<nat>>, rows: seq<Row>, c: Called)
    ensures c in Notified(ld, listeners, rows)
       <==> exists i :: 0 <= i < |rows| && Reaches(ld, rows, i) && CallOf(ld, listeners, rows[i], c)
  {
    hide Decode;
    if rows != [] {
      var t := rows[1..];
      NotifiedExact(ld, listeners, t, c);
      assert forall i | 0 <= i < |t| :: t[i] == rows[i + 1];
      if rows[0].secret || Decode(ld, rows[0].raw).Some? {
        forall i | 0 <= i < |t| ensures Reaches(ld, rows, i + 1) == Reaches(ld, t, i) { ReachesTail(ld, rows, i); }
        if i :| 0 <= i < |t| && Reaches(ld, t, i) && CallOf(ld, listeners, t[i], c) {
          assert Reaches(ld, rows, i + 1) && CallOf(ld, listeners, rows[i + 1], c);
        }
        if i :| 0 <= i < |rows| && Reaches(ld, rows, i) && CallOf(ld, listeners, rows[i], c) {
          if i > 0 { assert Reaches(ld, t, i - 1) && CallOf(ld, listeners, t[i - 1], c); }
        }
        HeadCalls(ld, listeners, rows[0], c);
        assert Reaches(ld, rows, 0);
      }
    }
  }

  lemma ReachesTail(ld: Loader, rows: seq<Row>, i: nat)
    requires i + 1 < |rows| && (rows[0].secret || Decode(ld, rows[0].raw).Some?)
    ensures Reaches(ld, rows, i + 1) == Reaches(ld, rows[1..], i)
  {
    hide Decode;
    assert forall j | 0 <= j <= i :: rows[1..][j] == rows[j + 1];
    if Reaches(ld, rows[1..], i) {
      forall j | 0 <= j <= i + 1 && !rows[j].secret ensures Decode(ld, rows[j].raw).Some? {
        if j > 0 { assert rows[1..][j - 1] == rows[j]; }
      }
    } else {
      var j :| 0 <= j <= i && !rows[1..][j].secret && Decode(ld, rows[1..][j].raw).None?;
      assert rows[j + 1] == rows[1..][j];
    }
  }

  lemma HeadCalls(ld: Loader, listeners: map<string, seq<nat>>, r: Row, c: Called)
    requires !r.secret ==> Decode(ld, r.raw).Some?
    ensures !r.secret ==>
      (c in (if r.key in listeners then Each(listeners[r.key], Decode(ld, r.raw).value) else [])
       <==> CallOf(ld, listeners, r, c))
  {
    hide Decode;
    if !r.secret && r.key in listeners {
      var ids := listeners[r.key];
      if i :| 0 <= i < |ids| && ids[i] == c.id { assert Each(ids, c.value)[i] == c; }
    }
  }

  /** And how often: each callback once for each row of its key, when no row raises. */
  lemma {:induction false} NotifiedCount(ld: Loader, listeners: map<string, seq<nat>>, rows: seq<Row>)
    requires forall i | 0 <= i < |rows| && !rows[i].secret :: Decode(ld, rows[i].raw).Some?
    ensures |Notified(ld, listeners, rows)| == Callbacks(listeners, rows)
  {
    hide Decode;
    if rows != [] {
      assert forall i | 0 <= i < |rows[1..]| :: rows[1..][i] == rows[i + 1];
      NotifiedCount(ld, listeners, rows[1..]);
    }
  }

  function Callbacks(listeners: map<string, seq<nat>>, rows: seq<Row>): nat {
    if rows == [] then 0
    else
      Callbacks(listeners, rows[1..])
      + if !rows[0].secret && rows[0].key in listeners then |listeners[rows[0].key]| else 0
  }

  /** The keys a load over `rows` notes as secret, up to the first row that raises. */
  function Secrets(ld: Loader, rows: seq<Row>): set<string> {
    if rows == [] then {}
    else if rows[0].secret then {rows[0].key} + Secrets(ld, rows[1..])
    else if Decode(ld, rows[0].raw).None? then {}
    else Secrets(ld, rows[1..])
  }

  /** Exactly the keys of the secret rows that the loop gets to. */
  lemma {:induction false} SecretsExact(ld: Loader, rows: seq<Row>, k: string)
    ensures k in Secrets(ld, rows)
       <==> exists i :: 0 <= i < |rows| && rows[i].secret && rows[i].key == k && Reaches(ld, rows, i)
  {
    hide Decode;
    if rows != [] {
      var t := rows[1..];
      SecretsExact(ld, t, k);
      assert forall i | 0 <= i < |t| :: t[i] == rows[i + 1];
      if rows[0].secret || Decode(ld, rows[0].raw).Some? {
        forall i | 0 <= i < |t| ensures Reaches(ld, rows, i + 1) == Reaches(ld, t, i) { ReachesTail(ld, rows, i); }
        assert Reaches(ld, rows, 0);
        if i :| 0 <= i < |t| && t[i].secret && t[i].key == k && Reaches(ld, t, i) {
          assert rows[i + 1].secret && Reaches(ld, rows, i + 1);
        }
        if i :| 0 <= i < |rows| && rows[i].secret && rows[i].key == k && Reaches(ld, rows, i) {
          if i > 0 { assert t[i - 1].secret && Reaches(ld, t, i - 1); }
        }
      }
    }
  }

  class SettingsManager {
    var cache: map<string, Json>
    var secretKeys: set<string>
    var listeners: map<string, seq<nat>>
    var lastSeen: Option<nat>
    var calls: seq<Called>

    constructor ()
      ensures cache == map[] && secretKeys == {} && listeners == map[] && lastSeen == None && calls == []
    {
      cache, secretKeys, listeners, lastSeen, calls := map[], {}, map[], None, [];
    }

    function Get(key: string, default: Json): (v: Json)
      reads this
      ensures key in cache ==> v == cache[key]
      ensures key !in cache ==> v == default
    {
      Lookup(cache, key, default)
    }

    method OnChange(key: string, callback: nat)
      modifies this`listeners
      ensures listeners
        == old(listeners)[key := (if key in old(listeners) then old(listeners)[key] else []) + [callback]]
    {
      if key !in listeners { listeners := listeners[key := []]; }
      listeners := listeners[key := listeners[key] + [callback]];
    }

    /** `_load_from_pool`; `fetched` is None when acquiring or fetching raises. */
    method LoadFromPool(ld: Loader, fetched: Option<seq<Row>>)
      modifies this`cache, this`secretKeys, this`lastSeen
      ensures fetched.None? ==> cache == old(cache) && secretKeys == old(secretKeys) && lastSeen == old(lastSeen)
      ensures fetched.Some? ==>
        (var (c, ok) := Absorb(ld, old(cache), fetched.value);
         && cache == c && secretKeys == old(secretKeys) + Secrets(ld, fetched.value)
         && lastSeen == if ok then Latest(old(lastSeen), fetched.value) else old(lastSeen))
    {
      if fetched.None? { return; }
      var rows := fetched.value;
      var latest := lastSeen;
      var i := 0;
      while i < |rows|
        invariant 0 <= i <= |rows|
        invariant Absorb(ld, old(cache), rows) == Absorb(ld, cache, rows[i..])
        invariant Latest(old(lastSeen), rows) == Latest(latest, rows[i..]) && lastSeen == old(lastSeen)
        invariant latest.None? ==> lastSeen.None?
        invariant old(secretKeys) + Secrets(ld, rows) == secretKeys + Secrets(ld, rows[i..])
      {
        var r := rows[i];
        assert rows[i..][0] == r && rows[i..][1..] == rows[i + 1..];
        if Later(latest, r.at) { latest := Some(r.at); }
        if r.secret {
          secretKeys := secretKeys + {r.key};
        } else {
          var value := Decode(ld, r.raw);
          if value.None? { return; }
          cache := cache[r.key := value.value];
        }
        i := i + 1;
      }
      if latest.Some? { lastSeen := latest; }
    }

    /** The callbacks of one row; one that raises is logged and does not stop the next. */
    method Notify(key: string, value: Json)
      modifies this`calls
      ensures calls == old(calls) + if key in listeners then Each(listeners[key], value) else []
    {
      if key in listeners {
        var ids := listeners[key];
        for i := 0 to |ids|
          invariant calls == old(calls) + Each(ids, value)[..i]
        {
          calls := calls + [Called(ids[i], value)];
        }
      }
    }

    /** `_poll_once`, run to its end; `fetched` is false when acquiring or fetching raises. */
    method PollOnce(ld: Loader, table: seq<Row>, fetched: bool)
      modifies this`cache, this`lastSeen, this`calls
      ensures !fetched ==> cache == old(cache) && lastSeen == old(lastSeen) && calls == old(calls)
      ensures fetched ==>
        (var (c, m) := Poll(ld, old(cache), old(lastSeen), table);
         cache == c && lastSeen == m && calls == old(calls) + Notified(ld, listeners, Since(table, old(lastSeen))))
    {
      if !fetched { return; }
      var rows := Since(table, lastSeen);
      var latest := lastSeen;
      var i := 0;
      hide Since;
      while i < |rows|
        invariant 0 <= i <= |rows|
        invariant Absorb(ld, old(cache), rows) == Absorb(ld, cache, rows[i..])
        invariant Latest(old(lastSeen), rows) == Latest(latest, rows[i..]) && lastSeen == old(lastSeen)
        invariant latest.None? ==> lastSeen.None?
        invariant old(calls) + Notified(ld, listeners, rows) == calls + Notified(ld, listeners, rows[i..])
      {
        var r := rows[i];
        assert rows[i..][0] == r && rows[i..][1..] == rows[i + 1..];
        if Later(latest, r.at) { latest := Some(r.at); }
        if !r.secret {
          var value := Decode(ld, r.raw);
          if value.None? {
            assert calls + Notified(ld, listeners, rows[i..]) == calls;
            return;
          }
          cache := cache[r.key := value.value];
          ghost var before := calls;
          Notify(r.key, value.value);
          Assoc(before, if r.key in listeners then Each(listeners[r.key], value.value) else [],
                Notified(ld, listeners, rows[i + 1..]));
        }
        i := i + 1;
      }
      assert calls + Notified(ld, listeners, rows[i..]) == calls;
      if latest.Some? { lastSeen := latest; }
    }
  }
}
