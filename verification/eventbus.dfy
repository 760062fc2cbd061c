/** The bus object over its database, updated in place: an uninterrupted poll ends where the function on values
    ends. */
module EventBus {
  import opened Common
  import opened EventBusOps

  /** The `events` and `event_offsets` tables. Ids come from a sequence, in commit order. */
  class Database {
    var events: seq<Event>
    var nextId: nat
    var offsets: map<(string, string), nat>

    predicate Valid()
      reads this
    {
      Ascending(events) && Positive(events) && nextId > 0 && forall e | e in events :: e.id < nextId
    }

    constructor ()
      ensures Valid() && events == [] && offsets == map[] && nextId == 1
    {
      events, nextId, offsets := [], 1, map[];
    }
  }

  class PostgresEventBus {
    const db: Database
    const consumer: string
    const batch: nat
    /** The events handlers have been called with, in order; handler call number `n` is `log[n]`. */
    var log: seq<Event>

    constructor (db: Database, consumer: string, batch: nat)
      ensures this.db == db && this.consumer == consumer && this.batch == batch && log == []
    {
      this.db, this.consumer, this.batch := db, consumer, batch;
      log := [];
    }

    method PublishTenant(tenantId: string, topic: string, payload: string)
      requires db.Valid()
      modifies db
      ensures db.Valid() && db.offsets == old(db.offsets) && db.nextId == old(db.nextId) + 1
      ensures db.events == old(db.events)
                + [Event(old(db.nextId),
                         if tenantId == "" then "00000000-0000-0000-0000-000000000000" else tenantId, topic, payload)]
    {
      var tenant := tenantId;
      if tenantId == "" { tenant := NIL_TENANT_ID; }
      var e := Event(db.nextId, tenant, topic, payload);
      db.events := db.events + [e];
      db.nextId := db.nextId + 1;
    }

    /** `subscribe` up to its first poll: an offset row is created only where there is none. */
    method EnsureOffset(topic: string)
      modifies db`offsets
      ensures db.offsets ==
        if (consumer, topic) in old(db.offsets) then old(db.offsets) else old(db.offsets)[(consumer, topic) := 0]
    {
      if (consumer, topic) !in db.offsets {
        db.offsets := db.offsets[(consumer, topic) := 0];
      }
    }

    /** The delivery loop over one batch; `ok` is false when a handler call raised. */
    method Deliver(rows: seq<Event>, fails: Faults) returns (lastId: nat, ok: bool)
      modifies this`log
      ensures (var h := Handled(|rows|, fails, |old(log)|);
               && ok == (h == |rows|)
               && log == old(log) + rows[..if ok then h else h + 1])
      ensures ok ==> lastId == if rows == [] then 0 else rows[|rows| - 1].id
    {
      ghost var h, k := Handled(|rows|, fails, |log|), |log|;
      lastId := 0;
      var i := 0;
      while i < |rows|
        invariant 0 <= i <= h <= |rows|
        invariant log == old(log) + rows[..i] && |log| == k + i
        invariant lastId == if i == 0 then 0 else rows[i - 1].id
      {
        var call := |log|;
        log := log + [rows[i]];
        assert rows[..i + 1] == rows[..i] + [rows[i]];
        if fails(call) { return lastId, false; }
        lastId := rows[i].id;
        i := i + 1;
      }
      ok := true;
    }

    /** `_poll_once`, run without interruption; `lost` when the offset update does not happen. Without an
        offset row the poll selects nothing. */
    method PollOnce(topic: string, fails: Faults, lost: bool)
      requires db.Valid()
      modifies this, db`offsets
      ensures (consumer, topic) !in old(db.offsets) ==> log == old(log) && db.offsets == old(db.offsets)
      ensures (consumer, topic) in old(db.offsets) ==>
        (var s := Poll(Sub(old(db.offsets)[(consumer, topic)], old(log)), db.events, topic, batch, fails, lost);
         log == s.log && db.offsets == old(db.offsets)[(consumer, topic) := s.last])
    {
      if (consumer, topic) !in db.offsets { return; }
      var start := db.offsets[(consumer, topic)];
      var rows := Batch(db.events, topic, start, batch);
      BatchIsContiguous(db.events, topic, start, batch);
      assert rows != [] ==> rows[|rows| - 1] in rows;
      hide Batch, Ascending;
      var lastId, ok := Deliver(rows, fails);
      assert rows[..|rows|] == rows;
      if ok && lastId != 0 && !lost {
        db.offsets := db.offsets[(consumer, topic) := lastId];
      } else {
        assert db.offsets == db.offsets[(consumer, topic) := start];
      }
    }
  }
}
