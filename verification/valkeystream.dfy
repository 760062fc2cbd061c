/** The client objects over a server whose stream they change in place. */
module ValkeyStream {
  import opened Common
  import opened StreamOps

  datatype Message = Message(id: nat, fields: Fields)

  type Response = seq<(string, seq<(nat, Fields)>)>

  function Pairs(entries: seq<Fields>, ids: seq<nat>): seq<(nat, Fields)>
    requires forall i | 0 <= i < |ids| :: ids[i] < |entries|
  {
    seq(|ids|, i requires 0 <= i < |ids| => (ids[i], entries[ids[i]]))
  }

  function Messages(pairs: seq<(nat, Fields)>): seq<Message> {
    seq(|pairs|, i requires 0 <= i < |pairs| => Message(pairs[i].0, pairs[i].1))
  }

  /** Every stream's entries, stream after stream. */
  function Flat(resp: Response): seq<Message> {
    if resp == [] then [] else Messages(resp[0].1) + Flat(resp[1..])
  }

  lemma {:induction false} FlatAppend(a: Response, b: Response)
    ensures Flat(a + b) == Flat(a) + Flat(b)
  {
    if a == [] {
      assert a + b == b;
    } else {
      FlatAppend(a[1..], b);
      assert (a + b)[1..] == a[1..] + b;
      hide Messages;
      Assoc(Messages(a[0].1), Flat(a[1..]), Flat(b));
    }
  }

  lemma FlatSnoc(resp: Response, i: nat)
    requires i < |resp|
    ensures Flat(resp[..i + 1]) == Flat(resp[..i]) + Messages(resp[i].1)
  {
    var last: Response := [resp[i]];
    FlatAppend(resp[..i], last);
    assert resp[..i + 1] == resp[..i] + last;
    assert last[1..] == [];
    assert Flat(last) == Messages(resp[i].1);
  }

  /** `_flatten` */
  method Flatten(resp: Response) returns (out: seq<Message>)
    ensures out == Flat(resp)
  {
    out := [];
    for i := 0 to |resp|
      invariant out == Flat(resp[..i])
    {
      var entries := resp[i].1;
      FlatSnoc(resp, i);
      for j := 0 to |entries|
        invariant out == Flat(resp[..i]) + Messages(entries)[..j]
      {
        out := out + [Message(entries[j].0, entries[j].1)];
      }
    }
    assert resp[..|resp|] == resp;
  }

  /** The scan of XAUTOCLAIM, handing over leases as it goes. */
  method Reassign(was: Group, consumer: string, idle: nat, count: nat, now: int) returns (g: Group, ids: seq<nat>)
    ensures ids == Claimed(was, idle, count, now)
    ensures g == was.(pel := Lent(was.pel, ids, consumer, now))
  {
    var id: nat, attempts: nat, left: nat := 0, ScanLimit(count), count;
    g, ids := was, [];
    while id < g.cursor && attempts > 0 && left > 0
      invariant g == was.(pel := Lent(was.pel, ids, consumer, now))
      invariant ids + Scan(was.pel, id, was.cursor, idle, now, attempts, left) == Claimed(was, idle, count, now)
      invariant forall i | i in ids :: i < id && i in was.pel
      decreases g.cursor - id
    {
      if id in g.pel {
        attempts := attempts - 1;
        if now - g.pel[id].since >= idle {
          g := g.(pel := g.pel[id := Lease(consumer, now)]);
          assert (ids + [id]) + Scan(was.pel, id + 1, was.cursor, idle, now, attempts, left - 1)
              == ids + ([id] + Scan(was.pel, id + 1, was.cursor, idle, now, attempts, left - 1));
          ids, left := ids + [id], left - 1;
        }
      }
      id := id + 1;
    }
  }

  class StreamServer {
    var entries: seq<Fields>
    var group: Option<Group>

    ghost function Value(): Stream
      reads this
    {
      Stream(entries, group)
    }

    constructor ()
      ensures Value() == Stream([], None)
    {
      entries, group := [], None;
    }

    method XAdd(f: Fields) returns (id: nat)
      modifies this
      ensures Value() == Add(old(Value()), f) && id == |old(entries)| && entries[id] == f
    {
      id := |entries|;
      entries := entries + [f];
    }

    /** `busy` is the BUSYGROUP error. */
    method XGroupCreate() returns (busy: bool)
      modifies this
      ensures busy == old(group).Some? && entries == old(entries)
      ensures group == if busy then old(group) else Some(Group(0, map[], {}))
    {
      busy := group.Some?;
      if !busy { group := Some(Group(0, map[], {})); }
    }

    method XReadGroup(stream: string, consumer: string, count: nat, now: int) returns (r: Result<Response, StreamError>)
      requires Partitioned(Value())
      modifies this
      ensures Partitioned(Value()) && r.Ok? == Read(old(Value()), consumer, count, now).Ok?
      ensures r.Err? ==> Value() == old(Value()) && r.error == Read(old(Value()), consumer, count, now).error
      ensures r.Ok? ==>
        (var (t, ids) := Read(old(Value()), consumer, count, now).value;
         && Value() == t && (forall i | 0 <= i < |ids| :: ids[i] < |entries|)
         && r.value == if ids == [] then [] else [(stream, Pairs(entries, ids))])
    {
      if count == 0 { return Err(BadCount); }
      if group.None? { return Err(NoGroup); }
      ReadKeeps(Value(), consumer, count, now);
      var g := group.value;
      var ids := Fresh(Stream(entries, group), count);
      group := Some(g.(cursor := g.cursor + |ids|, pel := Lent(g.pel, ids, consumer, now)));
      r := Ok(if ids == [] then [] else [(stream, Pairs(entries, ids))]);
    }

    method XAck(id: nat)
      modifies this
      ensures Value() == Ack(old(Value()), id)
    {
      if group.Some? && id in group.value.pel {
        var g := group.value;
        group := Some(g.(pel := g.pel - {id}, acked := g.acked + {id}));
      }
    }

    /** XAUTOCLAIM from id 0: the leases change hands as the scan goes. */
    method XAutoClaim(consumer: string, idle: nat, count: nat, now: int)
        returns (r: Result<seq<(nat, Fields)>, StreamError>)
      requires Partitioned(Value())
      modifies this
      ensures Partitioned(Value()) && r.Ok? == ClaimStale(old(Value()), consumer, idle, count, now).Ok?
      ensures r.Err? ==>
        Value() == old(Value()) && r.error == ClaimStale(old(Value()), consumer, idle, count, now).error
      ensures r.Ok? ==>
        (var (t, ids) := ClaimStale(old(Value()), consumer, idle, count, now).value;
         && Value() == t && (forall i | 0 <= i < |ids| :: ids[i] < |entries|)
         && r.value == Pairs(entries, ids))
    {
      if count == 0 { return Err(BadCount); }
      if group.None? { return Err(NoGroup); }
      ClaimKeeps(Value(), consumer, idle, count, now);
      var g, ids := Reassign(group.value, consumer, idle, count, now);
      forall i | 0 <= i < |ids| ensures ids[i] < |entries| { assert ids[i] in ids; }
      group := Some(g);
      r := Ok(Pairs(entries, ids));
    }
  }

  class StreamProducer {
    const server: StreamServer

    constructor (server: StreamServer)
      ensures this.server == server
    {
      this.server := server;
    }

    method Add(fields: Fields) returns (id: nat)
      modifies server
      ensures server.Value() == StreamOps.Add(old(server.Value()), fields)
      ensures id == |old(server.entries)| && server.entries[id] == fields
    {
      id := server.XAdd(fields);
    }
  }

  class StreamConsumer {
    const server: StreamServer
    const stream: string
    const consumer: string
    const count: nat

    constructor (server: StreamServer, stream: string, consumer: string, count: nat)
      ensures this.server == server && this.stream == stream && this.consumer == consumer && this.count == count
    {
      this.server, this.stream, this.consumer, this.count := server, stream, consumer, count;
    }

    method EnsureGroup()
      modifies server
      ensures server.Value() == StreamOps.EnsureGroup(old(server.Value()))
    {
      var busy := server.XGroupCreate();
    }

    /** The next undelivered entries, in stream order, now pending at this consumer. */
    method Read(now: int) returns (r: Result<seq<Message>, StreamError>)
      requires Partitioned(server.Value())
      modifies server
      ensures Partitioned(server.Value()) && r.Ok? == StreamOps.Read(old(server.Value()), consumer, count, now).Ok?
      ensures r.Err? ==> server.Value() == old(server.Value())
      ensures r.Ok? ==>
        (var (t, ids) := StreamOps.Read(old(server.Value()), consumer, count, now).value;
         && server.Value() == t && |r.value| == |ids|
         && forall i | 0 <= i < |ids| ::
            ids[i] < |server.entries| && r.value[i] == Message(ids[i], server.entries[ids[i]]))
    {
      var resp := server.XReadGroup(stream, consumer, count, now);
      if resp.Err? { return Err(resp.error); }
      hide StreamOps.Read;
      var out := Flatten(resp.value);
      if resp.value != [] { assert resp.value[1..] == []; }
      r := Ok(out);
    }

    method Ack(id: nat)
      modifies server
      ensures server.Value() == StreamOps.Ack(old(server.Value()), id)
    {
      server.XAck(id);
    }

    method ClaimStale(idle: nat, now: int) returns (r: Result<seq<Message>, StreamError>)
      requires Partitioned(server.Value())
      modifies server
      ensures Partitioned(server.Value())
        && r.Ok? == StreamOps.ClaimStale(old(server.Value()), consumer, idle, count, now).Ok?
      ensures r.Err? ==> server.Value() == old(server.Value())
      ensures r.Ok? ==>
        (var (t, ids) := StreamOps.ClaimStale(old(server.Value()), consumer, idle, count, now).value;
         && server.Value() == t && |r.value| == |ids|
         && forall i | 0 <= i < |ids| ::
            ids[i] < |server.entries| && r.value[i] == Message(ids[i], server.entries[ids[i]]))
    {
      var claimed := server.XAutoClaim(consumer, idle, count, now);
      if claimed.Err? { return Err(claimed.error); }
      r := Ok(Messages(claimed.value));
    }
  }
}
