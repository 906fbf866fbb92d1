/** The gate service: connections accepted, read and closed, and the frames of
    each forwarded to the service that is configured for them. */
module Gate {
  import opened Wrappers
  import opened Bytes
  import opened Framing
  import opened BlockPool
  import opened DataBuffer
  import HashId

  const LARGE: int := 0x1000000

  // ------------------------------------------------------------ frames

  function NonEmpty(frames: seq<seq<byte>>): seq<seq<byte>> {
    if frames == [] then []
    else (if frames[0] == [] then [] else [frames[0]]) + NonEmpty(frames[1..])
  }

  lemma {:induction false} NonEmptyAppend(a: seq<seq<byte>>, b: seq<seq<byte>>)
    ensures NonEmpty(a + b) == NonEmpty(a) + NonEmpty(b)
  {
    if a == [] {
      assert a + b == b;
    } else {
      NonEmptyAppend(a[1..], b);
      assert (a + b)[1..] == a[1..] + b && (a + b)[0] == a[0];
      Assoc(if a[0] == [] then [] else [a[0]], NonEmpty(a[1..]), NonEmpty(b));
    }
  }

  lemma NonEmptyFirst(body: seq<byte>, rest: seq<seq<byte>>)
    ensures NonEmpty([body] + rest) == (if body == [] then [] else [body]) + NonEmpty(rest)
  {
    assert ([body] + rest)[1..] == rest;
  }

  /** Every length that the stream announces is below 16M. */
  predicate Small(h: Header, s: seq<byte>)
    decreases |s|
  {
    |s| < h || (SizeOf(h, s) < 0x100_0000 && (|s| >= h + SizeOf(h, s) ==> Small(h, s[h + SizeOf(h, s)..])))
  }

  lemma SmallFirst(h: Header, s: seq<byte>, t: seq<byte>, n: nat)
    requires |s| >= h && n == SizeOf(h, s) && |s| >= h + n
    ensures Small(h, s + t) <==> n < LARGE && Small(h, s[h + n..] + t)
  {
    SizeOfPrefix(h, s, t);
    assert (s + t)[h + n..] == s[h + n..] + t;
  }

  /** Small frames remain small when the stream is read in parts. */
  lemma {:induction false} SmallAppend(h: Header, s: seq<byte>, t: seq<byte>)
    requires Small(h, s + t)
    ensures Small(h, s) && Small(h, Rest(h, s) + t)
    decreases |s|
  {
    if Complete(h, s) {
      var n := SizeOf(h, s);
      SmallFirst(h, s, t, n);
      ParseFirst(h, s, n);
      SmallAppend(h, s[h + n..], t);
    } else {
      ParseNone(h, s);
      if |s| >= h {
        SizeOfPrefix(h, s, t);
      }
    }
  }

  /** The bytes not yet forwarded: a length that was read is still one of them. */
  function Pending(h: Header, header: int, d: seq<byte>): seq<byte> {
    if header > 0 then SizeBytes(h, header) + d else d
  }

  /** How far the dispatch loop has come with the bytes `all`: `out` was forwarded. */
  ghost predicate Progress(h: Header, all: seq<byte>, header: int, d: seq<byte>, out: seq<seq<byte>>) {
    && 0 <= header < LARGE && (header > 0 ==> header < Limit(h))
    && Small(h, Pending(h, header, d))
    && NonEmpty(Parse(h, all)) == out + NonEmpty(Parse(h, Pending(h, header, d)))
    && Rest(h, all) == Rest(h, Pending(h, header, d))
  }

  lemma PendingSize(h: Header, n: nat, d: seq<byte>)
    requires 0 < n < Limit(h)
    ensures |Pending(h, n, d)| == h + |d| && SizeOf(h, Pending(h, n, d)) == n && Pending(h, n, d)[h..] == d
  {
    SizeRoundTrip(h, n, SizeBytes(h, n) + d);
  }

  lemma HeaderRead(h: Header, all: seq<byte>, d: seq<byte>, d': seq<byte>, out: seq<seq<byte>>)
    requires Progress(h, all, 0, d, out) && |d| >= h && d == SizeBytes(h, SizeOf(h, d)) + d'
    ensures SizeOf(h, d) < LARGE && Progress(h, all, SizeOf(h, d), d', out)
  {
    var n := SizeOf(h, d);
    if n == 0 {
      ParseFirst(h, d, n);
      assert d[h..h] == [] && d[h..] == d';
      NonEmptyFirst([], Parse(h, d'));
      assert [] + NonEmpty(Parse(h, d')) == NonEmpty(Parse(h, d'));
    }
  }

  lemma BodyRead(h: Header, all: seq<byte>, n: nat, body: seq<byte>, d': seq<byte>, out: seq<seq<byte>>)
    requires Progress(h, all, n, body + d', out) && 0 < n == |body|
    ensures Progress(h, all, 0, d', out + [body])
  {
    var s := Pending(h, n, body + d');
    PendingSize(h, n, body + d');
    ParseFirst(h, s, n);
    assert s[h..h + n] == body && s[h + n..] == d';
    NonEmptyFirst(body, Parse(h, d'));
    Assoc(out, [body], NonEmpty(Parse(h, d')));
  }

  /** The next frame is not complete. */
  predicate Waiting(h: Header, header: int, d: seq<byte>) {
    if header == 0 then |d| < h else |d| < header
  }

  lemma NoFrame(h: Header, all: seq<byte>, header: int, d: seq<byte>, out: seq<seq<byte>>)
    requires Progress(h, all, header, d, out)
    requires Waiting(h, header, d)
    ensures NonEmpty(Parse(h, all)) == out && Rest(h, all) == Pending(h, header, d)
  {
    var s := Pending(h, header, d);
    if header > 0 {
      PendingSize(h, header, d);
    }
    ParseNone(h, s);
    assert out + NonEmpty([]) == out;
  }

  // ------------------------------------------------------------ what was forwarded

  /** A message sent to the configured service on behalf of a connection. */
  datatype Sent = Sent(id: int, body: seq<byte>)

  function SentFor(sent: seq<Sent>, id: int): seq<seq<byte>> {
    if sent == [] then []
    else SentFor(sent[..|sent| - 1], id) + if sent[|sent| - 1].id == id then [sent[|sent| - 1].body] else []
  }

  lemma SentOne(sent: seq<Sent>, m: Sent, id: int)
    ensures SentFor(sent + [m], id) == SentFor(sent, id) + if m.id == id then [m.body] else []
  {
    assert (sent + [m])[..|sent|] == sent;
  }

  /** Only messages for `id` were added, with the bodies `out`. */
  ghost predicate Added(before: seq<Sent>, after: seq<Sent>, id: int, out: seq<seq<byte>>) {
    forall j :: SentFor(after, j) == if j == id then SentFor(before, j) + out else SentFor(before, j)
  }

  lemma AddedNone(sent: seq<Sent>, id: int)
    ensures Added(sent, sent, id, [])
  {
    assert SentFor(sent, id) + [] == SentFor(sent, id);
  }

  lemma AddedOne(before: seq<Sent>, after: seq<Sent>, id: int, out: seq<seq<byte>>, body: seq<byte>)
    requires Added(before, after, id, out)
    ensures Added(before, after + [Sent(id, body)], id, out + [body])
  {
    forall j ensures SentFor(after + [Sent(id, body)], j) ==
      if j == id then SentFor(before, j) + (out + [body]) else SentFor(before, j)
    {
      SentOne(after, Sent(id, body), j);
      Assoc(SentFor(before, j), out, [body]);
    }
  }

  // ------------------------------------------------------------ events

  datatype Event = Accept(id: int) | Data(id: int, bytes: seq<byte>) | Close(id: int)

  /** Which connections are open, and the bytes that each ever received. */
  datatype Traffic = Traffic(open: set<int>, stream: map<int, seq<byte>>)

  function After(cap: nat, t: Traffic, e: Event): Traffic {
    match e
    case Accept(id) => if |t.open| == cap then t else Traffic(t.open + {id}, t.stream[id := []])
    case Data(id, bytes) =>
      if id in t.open && id in t.stream then t.(stream := t.stream[id := t.stream[id] + bytes]) else t
    case Close(id) => t.(open := t.open - {id})
  }

  function AfterAll(cap: nat, t: Traffic, events: seq<Event>): Traffic
    decreases |events|
  {
    if events == [] then t else AfterAll(cap, After(cap, t, events[0]), events[1..])
  }

  /** The socket ids accepted are new, and data events carry data. */
  predicate Fresh(t: Traffic, e: Event) {
    (e.Accept? ==> e.id >= 0 && e.id !in t.stream && e.id !in t.open) && (e.Data? ==> e.bytes != [])
  }

  predicate AllFresh(cap: nat, t: Traffic, events: seq<Event>)
    decreases |events|
  {
    events == [] || (Fresh(t, events[0]) && AllFresh(cap, After(cap, t, events[0]), events[1..]))
  }

  /** What was forwarded for a connection that received `s`. */
  ghost predicate Delivered(h: Header, s: seq<byte>, out: seq<seq<byte>>) {
    Small(h, s) ==> out == NonEmpty(Parse(h, s))
  }

  /** The state of the buffer of an open connection that received `s`. */
  ghost predicate Buffered(h: Header, s: seq<byte>, header: int, d: seq<byte>) {
    Small(h, s) ==> 0 <= header < LARGE && (header > 0 ==> header < Limit(h)) && Pending(h, header, d) == Rest(h, s)
  }

  /** The bytes of a connection go on from where they were left. */
  lemma StartDispatch(h: Header, s: seq<byte>, header: int, d: seq<byte>, msg: seq<byte>)
    requires Buffered(h, s, header, d) && Small(h, s + msg)
    ensures Small(h, s) && Progress(h, Rest(h, s) + msg, header, d + msg, [])
  {
    SmallAppend(h, s, msg);
    var all := Rest(h, s) + msg;
    if header > 0 {
      Assoc(SizeBytes(h, header), d, msg);
    }
    assert Pending(h, header, d + msg) == all;
    assert [] + NonEmpty(Parse(h, all)) == NonEmpty(Parse(h, all));
  }

  lemma EndDispatch(h: Header, s: seq<byte>, msg: seq<byte>, sent: seq<seq<byte>>, out: seq<seq<byte>>, header: int,
                    d: seq<byte>)
    requires Delivered(h, s, sent) && Small(h, s + msg) && Small(h, s)
    requires Progress(h, Rest(h, s) + msg, header, d, out) && Waiting(h, header, d)
    ensures Delivered(h, s + msg, sent + out) && Buffered(h, s + msg, header, d)
  {
    NoFrame(h, Rest(h, s) + msg, header, d, out);
    ParseAppend(h, s, msg);
    NonEmptyAppend(Parse(h, s), Parse(h, Rest(h, s) + msg));
  }

  // ------------------------------------------------------------ the gate

  /** struct connection, with the `header` field of its databuffer. */
  datatype Connection = Connection(id: int, header: int)

  ghost predicate OnlyHeader(conn: seq<Connection>, before: seq<Connection>, c: nat) {
    && |conn| == |before| && (c < |conn| ==> conn[c].id == before[c].id)
    && forall n :: 0 <= n < |conn| && n != c ==> conn[n] == before[n]
  }

  ghost predicate IdleAt(conn: seq<Connection>, data: seq<seq<byte>>, n: nat) {
    n < |conn| == |data| && (conn[n].id == -1 ==> conn[n].header == 0 && data[n] == [])
  }

  ghost predicate OpenAt(configured: bool, h: Header, slots: map<int, nat>, stream: map<int, seq<byte>>,
                         conn: seq<Connection>, data: seq<seq<byte>>, id: int) {
    id in slots ==>
      && id in stream && slots[id] < |conn| == |data| && conn[slots[id]].id == id
      && (configured ==> Buffered(h, stream[id], conn[slots[id]].header, data[slots[id]]))
  }

  ghost predicate SentAt(h: Header, stream: map<int, seq<byte>>, sent: seq<Sent>, id: int) {
    if id in stream then Delivered(h, stream[id], SentFor(sent, id)) else SentFor(sent, id) == []
  }

  ghost predicate Keeps(configured: bool, h: Header, slots: map<int, nat>, stream: map<int, seq<byte>>,
                        conn: seq<Connection>, data: seq<seq<byte>>, sent: seq<Sent>) {
    && |conn| == |data|
    && (forall n :: 0 <= n < |conn| ==> IdleAt(conn, data, n))
    && (forall id :: OpenAt(configured, h, slots, stream, conn, data, id))
    && (configured ==> forall id :: SentAt(h, stream, sent, id))
  }

  class Service {
    const h: Header
    const table: HashId.Ids
    const pool: Pool
    const configured: bool
    var conn: seq<Connection>
    var sent: seq<Sent>

    /** The connection table, the id hash and the buffers agree slot by slot. */
    ghost predicate Valid()
      reads this, table, pool
    {
      && table.Valid() && pool.Valid()
      && |conn| == |table.ids| == |pool.data|
      && forall n :: 0 <= n < |conn| ==> conn[n].id == table.ids[n].id
    }

    constructor (header: Header, max: nat, configured: bool)
      ensures Valid() && table.slots == map[] && sent == [] && fresh(table) && fresh(pool)
      ensures h == header && this.configured == configured && table.cap == max
      ensures |conn| == |pool.data| && forall n :: 0 <= n < |conn| ==> conn[n].header == 0 && pool.data[n] == []
    {
      h := header;
      this.configured := configured;
      table := new HashId.Ids(max);
      pool := new Pool(max);
      conn := seq(max, _ => Connection(-1, 0));
      sent := [];
    }

    /** databuffer_readheader on the buffer of a connection. */
    method NextFrame(c: nat, ghost all: seq<byte>, ghost out: seq<seq<byte>>, ghost good: bool) returns (size: int)
      requires Valid() && c < |conn| && (good ==> Progress(h, all, conn[c].header, pool.data[c], out))
      modifies this`conn, pool`lists, pool`data, pool`nodes, pool`free, pool`bufs
      ensures Valid() && SameBut(pool.data, old(pool.data), c)
      ensures |conn| == |old(conn)| && conn == old(conn)[c := Connection(old(conn)[c].id, conn[c].header)]
      ensures good ==> Progress(h, all, conn[c].header, pool.data[c], out)
      ensures size < 0 ==> good ==> Waiting(h, conn[c].header, pool.data[c])
      ensures size >= 0 ==> size == conn[c].header <= |pool.data[c]|
      ensures |pool.data[c]| < |old(pool.data[c])| || conn[c].header == old(conn[c].header)
      ensures |pool.data[c]| <= |old(pool.data[c])|
      ensures size >= 0 && |pool.data[c]| == |old(pool.data[c])| ==> size > 0
    {
      ghost var header0, d0 := conn[c].header, pool.data[c];
      var header, r := ReadHeader(pool, c, h, conn[c].header);
      if good && header0 == 0 && |d0| >= h {
        HeaderRead(h, all, d0, pool.data[c], out);
      }
      conn := conn[c := Connection(conn[c].id, header)];
      size := r;
    }

    /** _forward and databuffer_reset. */
    method Forward(c: nat, id: int, size: nat, ghost all: seq<byte>, ghost out: seq<seq<byte>>, ghost good: bool)
      returns (ghost out': seq<seq<byte>>)
      requires Valid() && c < |conn| && 0 < size == conn[c].header <= |pool.data[c]|
      requires good ==> configured && Progress(h, all, conn[c].header, pool.data[c], out)
      modifies this`conn, this`sent, pool`lists, pool`data, pool`nodes, pool`free, pool`bufs
      ensures Valid() && SameBut(pool.data, old(pool.data), c) && |pool.data[c]| <= |old(pool.data[c])|
      ensures |conn| == |old(conn)| && conn == old(conn)[c := Connection(old(conn)[c].id, 0)]
      ensures forall before :: Added(before, old(sent), id, out) ==> Added(before, sent, id, out')
      ensures good ==> Progress(h, all, 0, pool.data[c], out')
    {
      out' := out;
      if configured {
        var body := Read(pool, c, size);
        forall before | Added(before, sent, id, out) ensures Added(before, sent + [Sent(id, body)], id, out + [body]) {
          AddedOne(before, sent, id, out, body);
        }
        sent := sent + [Sent(id, body)];
        if good {
          BodyRead(h, all, size, body, pool.data[c], out);
        }
        out' := out + [body];
      }
      conn := conn[c := Connection(conn[c].id, 0)];
    }

    /** One round of the loop of dispatch_message. */
    method Round(c: nat, id: int, ghost all: seq<byte>, ghost out: seq<seq<byte>>, ghost good: bool)
      returns (done: bool, ghost out': seq<seq<byte>>)
      requires Valid() && c < |conn| && (good ==> configured && Progress(h, all, conn[c].header, pool.data[c], out))
      modifies this`conn, this`sent, pool`lists, pool`data, pool`nodes, pool`free, pool`bufs
      ensures Valid() && SameBut(pool.data, old(pool.data), c) && OnlyHeader(conn, old(conn), c)
      ensures forall before :: Added(before, old(sent), id, out) ==> Added(before, sent, id, out')
      ensures good ==> Progress(h, all, conn[c].header, pool.data[c], out')
      ensures done && good ==> Waiting(h, conn[c].header, pool.data[c])
      ensures !done ==> |pool.data[c]| < |old(pool.data[c])| ||
                        (|pool.data[c]| == |old(pool.data[c])| && conn[c].header == 0 != old(conn[c].header))
    {
      var size := NextFrame(c, all, out, good);
      out' := out;
      if size < 0 {
        return true, out;
      }
      assert good ==> size < LARGE;
      if size >= LARGE {
        pool.Clear(c);
        conn := conn[c := Connection(conn[c].id, 0)];
        return true, out;
      } else if size > 0 {
        out' := Forward(c, id, size, all, out, good);
      }
      done := false;
    }

    /** dispatch_message. */
    method Dispatch(c: nat, id: int, msg: seq<byte>, ghost all: seq<byte>) returns (ghost out: seq<seq<byte>>)
      requires Valid() && c < |conn| && msg != []
      modifies this`conn, this`sent, pool
      ensures Valid() && Added(old(sent), sent, id, out)
      ensures SameBut(pool.data, old(pool.data), c) && OnlyHeader(conn, old(conn), c)
      ensures configured && Progress(h, all, old(conn[c].header), old(pool.data[c]) + msg, []) ==>
        Progress(h, all, conn[c].header, pool.data[c], out) && Waiting(h, conn[c].header, pool.data[c])
    {
      out := [];
      AddedNone(sent, id);
      PushData(pool, c, msg);
      ghost var good := configured && Progress(h, all, conn[c].header, pool.data[c], []);
      while true
        invariant Valid() && Added(old(sent), sent, id, out)
        invariant SameBut(pool.data, old(pool.data), c) && OnlyHeader(conn, old(conn), c)
        invariant good ==> configured && Progress(h, all, conn[c].header, pool.data[c], out)
        decreases |pool.data[c]|, if conn[c].header != 0 then 1 else 0
      {
        var done;
        done, out := Round(c, id, all, out, good);
        if done {
          return;
        }
      }
    }

    /** What every event keeps. */
    ghost predicate Running(stream: map<int, seq<byte>>)
      reads this, table, pool
    {
      Valid() && Keeps(configured, h, table.slots, stream, conn, pool.data, sent)
    }

    /** SKYNET_SOCKET_TYPE_DATA. */
    method OnData(id: int, msg: seq<byte>, ghost stream: map<int, seq<byte>>)
      returns (ghost stream': map<int, seq<byte>>)
      requires Running(stream) && msg != []
      modifies this`conn, this`sent, pool
      ensures Running(stream')
      ensures stream' == if id in table.slots && id in stream then stream[id := stream[id] + msg] else stream
      ensures id in table.slots ==> id in stream
    {
      var c := table.Lookup(id);
      stream' := stream;
      assert OpenAt(configured, h, table.slots, stream, conn, pool.data, id);
      assert HashId.SlotAt(table.ids, table.slots, id);
      if c >= 0 {
        ghost var conn0, data0, sent0 := conn, pool.data, sent;
        ghost var out := Dispatch(c, id, msg, Rest(h, stream[id]) + msg);
        DataDone(configured, h, table.slots, stream, conn0, data0, sent0, conn, pool.data, sent, id, out, msg);
        stream' := stream[id := stream[id] + msg];
      }
    }

    /** SKYNET_SOCKET_TYPE_ACCEPT. */
    method OnAccept(id: nat, ghost stream: map<int, seq<byte>>) returns (ghost stream': map<int, seq<byte>>)
      requires Running(stream) && id !in stream && id !in table.slots
      modifies this`conn, table
      ensures Running(stream')
      ensures |old(table.slots.Keys)| == table.cap ==> table.slots == old(table.slots) && stream' == stream
      ensures |old(table.slots.Keys)| != table.cap ==>
        table.slots.Keys == old(table.slots.Keys) + {id} && stream' == stream[id := []]
    {
      stream' := stream;
      var full := table.Full();
      if !full {
        ghost var slots0, conn0 := table.slots, conn;
        assert HashId.SlotAt(table.ids, slots0, -1);
        var c := table.Insert(id);
        assert IdleAt(conn, pool.data, c);
        conn := conn[c := Connection(id, conn[c].header)];
        stream' := stream[id := []];
        AcceptKeeps(configured, h, slots0, stream, conn0, pool.data, sent, id, c);
      }
    }

    /** SKYNET_SOCKET_TYPE_CLOSE and SKYNET_SOCKET_TYPE_ERROR. */
    method OnClose(id: int, ghost stream: map<int, seq<byte>>)
      requires Running(stream)
      modifies this`conn, table, pool`lists, pool`data, pool`nodes, pool`free, pool`bufs
      ensures Running(stream) && table.slots.Keys == old(table.slots.Keys) - {id}
    {
      ghost var slots0, conn0, data0 := table.slots, conn, pool.data;
      assert OpenAt(configured, h, slots0, stream, conn0, data0, id);
      var c := table.Remove(id);
      if c >= 0 {
        pool.Clear(c);
        conn := conn[c := Connection(-1, 0)];
        CloseKeeps(configured, h, slots0, stream, conn0, data0, sent, id, c, pool.data);
      } else {
        assert table.slots == slots0;
      }
    }
  }

  // ------------------------------------------------------------ what every event keeps

  lemma DataKeeps(configured: bool, h: Header, slots: map<int, nat>, stream: map<int, seq<byte>>,
                  conn: seq<Connection>, data: seq<seq<byte>>, sent: seq<Sent>,
                  conn': seq<Connection>, data': seq<seq<byte>>, sent': seq<Sent>, id: int, out: seq<seq<byte>>,
                  s: seq<byte>)
    requires Keeps(configured, h, slots, stream, conn, data, sent) && id in slots && id in stream && slots[id] < |conn|
    requires conn[slots[id]].id == id >= 0
    requires OnlyHeader(conn', conn, slots[id]) && SameBut(data', data, slots[id]) && Added(sent, sent', id, out)
    requires configured ==>
      Delivered(h, s, SentFor(sent, id) + out) && Buffered(h, s, conn'[slots[id]].header, data'[slots[id]])
    ensures Keeps(configured, h, slots, stream[id := s], conn', data', sent')
  {
    var stream' := stream[id := s];
    forall n | 0 <= n < |conn'| ensures IdleAt(conn', data', n) {
      assert IdleAt(conn, data, n);
    }
    forall j ensures OpenAt(configured, h, slots, stream', conn', data', j) {
      assert OpenAt(configured, h, slots, stream, conn, data, j);
    }
    if configured {
      forall j ensures SentAt(h, stream', sent', j) {
        assert SentAt(h, stream, sent, j);
      }
    }
  }

  lemma DataDone(configured: bool, h: Header, slots: map<int, nat>, stream: map<int, seq<byte>>,
                 conn: seq<Connection>, data: seq<seq<byte>>, sent: seq<Sent>,
                 conn': seq<Connection>, data': seq<seq<byte>>, sent': seq<Sent>, id: int, out: seq<seq<byte>>,
                 msg: seq<byte>)
    requires Keeps(configured, h, slots, stream, conn, data, sent) && id in slots && id in stream && slots[id] < |conn|
    requires conn[slots[id]].id == id >= 0
    requires OnlyHeader(conn', conn, slots[id]) && SameBut(data', data, slots[id]) && Added(sent, sent', id, out)
    requires configured && Progress(h, Rest(h, stream[id]) + msg, conn[slots[id]].header, data[slots[id]] + msg, []) ==>
      && Progress(h, Rest(h, stream[id]) + msg, conn'[slots[id]].header, data'[slots[id]], out)
      && Waiting(h, conn'[slots[id]].header, data'[slots[id]])
    ensures Keeps(configured, h, slots, stream[id := stream[id] + msg], conn', data', sent')
  {
    var c, s := slots[id], stream[id];
    if configured && Small(h, s + msg) {
      assert OpenAt(configured, h, slots, stream, conn, data, id) && SentAt(h, stream, sent, id);
      StartDispatch(h, s, conn[c].header, data[c], msg);
      EndDispatch(h, s, msg, SentFor(sent, id), out, conn'[c].header, data'[c]);
    }
    DataKeeps(configured, h, slots, stream, conn, data, sent, conn', data', sent', id, out, s + msg);
  }

  lemma AcceptKeeps(configured: bool, h: Header, slots: map<int, nat>, stream: map<int, seq<byte>>,
                    conn: seq<Connection>, data: seq<seq<byte>>, sent: seq<Sent>, id: nat, c: nat)
    requires Keeps(configured, h, slots, stream, conn, data, sent) && id !in stream && id !in slots
    requires c < |conn| && conn[c].id == -1
    requires -1 !in slots
    ensures Keeps(configured, h, slots[id := c], stream[id := []], conn[c := Connection(id, conn[c].header)],
                  data, sent)
  {
    var slots', stream', conn' := slots[id := c], stream[id := []], conn[c := Connection(id, conn[c].header)];
    ParseNone(h, []);
    assert IdleAt(conn, data, c);
    forall n | 0 <= n < |conn'| ensures IdleAt(conn', data, n) {
      assert IdleAt(conn, data, n);
    }
    forall j ensures OpenAt(configured, h, slots', stream', conn', data, j) {
      assert OpenAt(configured, h, slots, stream, conn, data, j);
    }
    if configured {
      forall j ensures SentAt(h, stream', sent, j) {
        assert SentAt(h, stream, sent, j);
      }
    }
  }

  lemma CloseKeeps(configured: bool, h: Header, slots: map<int, nat>, stream: map<int, seq<byte>>,
                   conn: seq<Connection>, data: seq<seq<byte>>, sent: seq<Sent>, id: int, c: nat, data': seq<seq<byte>>)
    requires Keeps(configured, h, slots, stream, conn, data, sent) && id in slots && slots[id] == c < |conn|
    requires SameBut(data', data, c) && data'[c] == [] && conn[c].id == id
    ensures Keeps(configured, h, slots - {id}, stream, conn[c := Connection(-1, 0)], data', sent)
  {
    var slots', conn' := slots - {id}, conn[c := Connection(-1, 0)];
    forall n | 0 <= n < |conn'| ensures IdleAt(conn', data', n) {
      assert IdleAt(conn, data, n);
    }
    forall j ensures OpenAt(configured, h, slots', stream, conn', data', j) {
      assert OpenAt(configured, h, slots, stream, conn, data, j);
    }
  }

  // ------------------------------------------------------------ whole runs

  /** Over every run of accept, data and close events with fresh ids, the open
      connections are those of the plain set, and each connection's forwarded bodies
      are the non-empty frames of the bytes it received, however they were cut. */
  method Run(header: Header, max: nat, configured: bool, events: seq<Event>) returns (g: Service)
    requires AllFresh(max, Traffic({}, map[]), events)
    ensures fresh(g) && g.Valid() && g.h == header && g.configured == configured
    ensures var t := AfterAll(max, Traffic({}, map[]), events);
            && g.table.slots.Keys == t.open
            && (configured ==> forall id :: id in t.stream ==> Delivered(header, t.stream[id], SentFor(g.sent, id)))
  {
    g := new Service(header, max, configured);
    ghost var t := Traffic({}, map[]);
    ghost var start := t;
    StartKeeps(g.configured, g.h, g.conn, g.pool.data, g.sent);
    assert events[0..] == events;
    for i := 0 to |events|
      invariant fresh(g) && fresh(g.table) && fresh(g.pool)
      invariant g.Running(t.stream) && g.table.slots.Keys == t.open && g.table.cap == max
      invariant AllFresh(max, t, events[i..]) && AfterAll(max, start, events) == AfterAll(max, t, events[i..])
    {
      assert events[i..][1..] == events[i + 1..];
      match events[i] {
        case Accept(id) =>
          ghost var stream := g.OnAccept(id, t.stream);
          t := Traffic(g.table.slots.Keys, stream);
        case Data(id, bytes) =>
          ghost var stream := g.OnData(id, bytes, t.stream);
          t := Traffic(g.table.slots.Keys, stream);
        case Close(id) =>
          g.OnClose(id, t.stream);
          t := Traffic(g.table.slots.Keys, t.stream);
      }
    }
    assert events[|events|..] == [];
    forall id | configured && id in t.stream ensures Delivered(header, t.stream[id], SentFor(g.sent, id)) {
      assert SentAt(g.h, t.stream, g.sent, id);
    }
  }

  lemma StartKeeps(configured: bool, h: Header, conn: seq<Connection>, data: seq<seq<byte>>, sent: seq<Sent>)
    requires |conn| == |data| && sent == []
    requires forall n :: 0 <= n < |conn| ==> conn[n].header == 0 && data[n] == []
    ensures Keeps(configured, h, map[], map[], conn, data, sent)
  {
  }
}
