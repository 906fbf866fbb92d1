/** One link of service_harbor.c: messages for a remote harbor wait in a ring
    queue until the handshake is over, then go out framed; what comes in is cut
    into frames again and handed to local services. */
module Harbor {
  import opened Wrappers
  import opened Bytes
  import opened Arith
  import opened Framing

  const U32: nat := 0x1_0000_0000
  const MASK: nat := 0x1000000        // HANDLE_MASK + 1
  const COOKIE: nat := 12             // HEADER_COOKIE_LENGTH
  const DEFAULT_QUEUE_SIZE: nat := 1024

  type u32 = x: int | 0 <= x < 0x1_0000_0000
  type i32 = x: int | -0x8000_0000 <= x < 0x8000_0000

  /** A call of remote_send_handle, and what forward_local_messsage hands on. */
  datatype Msg = Msg(source: u32, destination: u32, kind: nat, session: i32, payload: seq<byte>)

  /** `struct remote_message_header`. */
  datatype Cookie = Cookie(source: u32, destination: u32, session: u32)

  /** `struct harbor_msg`. */
  datatype Queued = Queued(header: Cookie, payload: seq<byte>)

  // ------------------------------------------------------------ the ring queue

  /** `struct harbor_msg_queue`: one slot stays free to tell full from empty. */
  class MsgQueue {
    ghost var contents: seq<Queued>
    var size: nat
    var head: nat
    var tail: nat
    var data: array<Queued>

    ghost predicate Valid()
      reads this, data
    {
      && data.Length == size && size >= 2 && head < size && tail < size
      && |contents| == (if head <= tail then tail - head else size - head + tail)
      && forall i :: 0 <= i < |contents| ==> contents[i] == data[Slot(head, i, size)]
    }

    constructor ()
      ensures Valid() && contents == [] && fresh(data)
    {
      size, head, tail, contents := DEFAULT_QUEUE_SIZE, 0, 0, [];
      data := new Queued[DEFAULT_QUEUE_SIZE](_ => Queued(Cookie(0, 0, 0), []));
    }

    /** push_queue_msg; a full queue doubles first. */
    method Push(m: Queued)
      requires Valid()
      modifies this, data
      ensures Valid() && contents == old(contents) + [m]
      ensures data == old(data) || fresh(data)
    {
      Wrapped(tail, 1, size);
      if (tail + 1) % size == head {
        Grow();
      }
      Wrapped(tail, 1, size);
      data[tail] := m;
      tail := (tail + 1) % size;
      contents := contents + [m];
    }

    method Grow()
      requires Valid() && |contents| == size - 1
      modifies this`size, this`head, this`tail, this`data
      ensures Valid() && fresh(data) && tail + 1 < size && head == 0
    {
      var bigger := new Queued[size * 2](_ => Queued(Cookie(0, 0, 0), []));
      var i := 0;
      while i < size - 1
        modifies bigger
        invariant 0 <= i <= size - 1
        invariant forall j :: 0 <= j < i ==> bigger[j] == contents[j]
      {
        Wrapped(head, i, size);
        bigger[i] := data[(i + head) % size];
        i := i + 1;
      }
      data := bigger;
      head := 0;
      tail := size - 1;
      size := size * 2;
    }

    /** pop_queue. */
    method Pop() returns (m: Option<Queued>)
      requires Valid()
      modifies this`head, this`contents
      ensures Valid()
      ensures old(contents) == [] ==> m.None? && contents == []
      ensures old(contents) != [] ==> m == Some(old(contents)[0]) && contents == old(contents)[1..]
    {
      if head == tail {
        return None;
      }
      assert contents[0] == data[Slot(head, 0, size)];
      m := Some(data[head]);
      Wrapped(head, 1, size);
      head := (head + 1) % size;
      contents := contents[1..];
    }
  }

  // ------------------------------------------------------------ wire format

  function ToU32(x: i32): u32 { if x < 0 then x + U32 else x }

  function ToI32(x: u32): i32 { if x >= 0x8000_0000 then x - U32 else x }

  /** The cookie of a call: the message type replaces the harbor id. */
  function CookieOf(m: Msg): Cookie {
    Cookie(m.source, (m.kind % 256) * MASK + m.destination % MASK, ToU32(m.session))
  }

  function QueuedOf(m: Msg): Queued { Queued(CookieOf(m), m.payload) }

  /** header_to_message. */
  function CookieBytes(c: Cookie): (s: seq<byte>)
    ensures |s| == COOKIE
  {
    SizeBytes(4, c.source) + SizeBytes(4, c.destination) + SizeBytes(4, c.session)
  }

  /** What send_remote puts on the socket; a message that is too large is dropped. */
  function Wire(q: Queued): seq<byte> {
    if |q.payload| + COOKIE >= U32 then [] else Frame(4, q.payload + CookieBytes(q.header))
  }

  lemma SizeBytesAre(n: nat)
    requires n < U32
    ensures BeNat(SizeBytes(4, n)) == n
    ensures SizeBytes(4, n)[0] == n / MASK && BeNat(SizeBytes(4, n)[1..]) == n % MASK
  {
    var s := SizeBytes(4, n);
    SizeRoundTrip(4, n, s);
    BeNatFour(s);
  }

  /** The bytes of a call on the wire, numbers with the high byte first: the length of what
      follows, the payload, the source, the type, the low 24 bits of the destination, and
      the session. */
  lemma WireBytes(m: Msg)
    requires |m.payload| + 12 < 0x1_0000_0000
    ensures var w, n := Wire(QueuedOf(m)), |m.payload|;
            && |w| == 16 + n && BeNat(w[..4]) == n + 12 && w[4..4 + n] == m.payload
            && BeNat(w[4 + n..8 + n]) == m.source
            && w[8 + n] == m.kind % 256 && BeNat(w[9 + n..12 + n]) == m.destination % 0x100_0000
            && BeNat(w[12 + n..]) == (m.session + 0x1_0000_0000) % 0x1_0000_0000
  {
    var n, c := |m.payload|, CookieOf(m);
    var a, b, d := SizeBytes(4, c.source), SizeBytes(4, c.destination), SizeBytes(4, c.session);
    SizeBytesAre(n + 12);
    SizeBytesAre(c.source);
    SizeBytesAre(c.destination);
    SizeBytesAre(c.session);
    WireParts(SizeBytes(4, n + 12), m.payload, a, b, d);
    TypeAndHandle(m.kind % 256, m.destination % MASK, c.destination);
    SessionBits(m.session);
    assert Wire(QueuedOf(m)) == SizeBytes(4, n + 12) + (m.payload + (a + b + d));
  }

  lemma SessionBits(x: i32)
    ensures ToU32(x) == (x + 0x1_0000_0000) % 0x1_0000_0000
  {
  }

  lemma WireParts(l: seq<byte>, p: seq<byte>, a: seq<byte>, b: seq<byte>, d: seq<byte>)
    requires |l| == |a| == |b| == |d| == 4
    ensures var w, n := l + (p + (a + b + d)), |p|;
            && w[..4] == l && w[4..4 + n] == p && w[4 + n..8 + n] == a
            && w[8 + n] == b[0] && w[9 + n..12 + n] == b[1..] && w[12 + n..] == d
  {
    var c := a + b + d;
    var w, n := l + (p + c), |p|;
    assert w[4 + n..] == c;
    assert w[12 + n..] == c[8..] == d && w[9 + n..12 + n] == c[5..8] == b[1..] && w[4 + n..8 + n] == c[..4] == a;
    assert w[8 + n] == c[4];
  }

  lemma TypeAndHandle(kind: nat, handle: nat, n: nat)
    requires handle < MASK && n == kind * MASK + handle
    ensures n / MASK == kind && n % MASK == handle
  {
  }

  /** forward_local_messsage in harbor `id`. */
  function Deliver(id: byte, body: seq<byte>): Option<Msg> {
    if |body| < COOKIE then None
    else
      var cut := |body| - COOKIE;
      var source, destination, session :=
        SizeOf(4, body[cut..]), SizeOf(4, body[cut + 4..]), SizeOf(4, body[cut + 8..]);
      Some(Msg(source, destination % MASK + id * MASK, destination / MASK, ToI32(session), body[..cut]))
  }

  // ------------------------------------------------------------ the incoming stream

  /** The frames of a stream up to the first length of 2^24 or more, which
      closes the link; `rest` is what is left incomplete. */
  datatype Scan = Scan(frames: seq<seq<byte>>, rest: seq<byte>, down: bool)

  function ScanStream(s: seq<byte>): Scan
    decreases |s|
  {
    if |s| < 4 then Scan([], s, false)
    else if s[0] != 0 then Scan([], [], true)
    else if |s| < 4 + SizeOf(4, s) then Scan([], s, false)
    else
      var n := 4 + SizeOf(4, s);
      var r := ScanStream(s[n..]);
      Scan([s[4..n]] + r.frames, r.rest, r.down)
  }

  function Before(frames: seq<seq<byte>>, r: Scan): Scan { r.(frames := frames + r.frames) }

  lemma ScanStep(s: seq<byte>, n: nat)
    requires |s| >= 4 && s[0] == 0 && n == SizeOf(4, s) && |s| >= 4 + n
    ensures ScanStream(s) == Before([s[4..4 + n]], ScanStream(s[4 + n..]))
  {
    var m := 4 + SizeOf(4, s);
    var r := ScanStream(s[m..]);
    assert ScanStream(s) == Scan([s[4..m]] + r.frames, r.rest, r.down);
  }

  lemma ScanFirst(n: nat, body: seq<byte>, t: seq<byte>)
    requires n == |body| < MASK
    ensures ScanStream(SizeBytes(4, n) + body + t) == Before([body], ScanStream(t))
  {
    var s := SizeBytes(4, n) + body + t;
    assert s[..4] == SizeBytes(4, n);
    SizeRoundTrip(4, n, s);
    assert s[0] == s[..4][0] == 0;
    ScanStep(s, n);
    assert s[4..4 + n] == body && s[4 + n..] == t;
  }

  /** A body completed by the first `need` bytes of a chunk. */
  lemma ContentDone(length: nat, recv: seq<byte>, chunk: seq<byte>, need: nat)
    requires |recv| + need == length < MASK && need <= |chunk|
    ensures ScanStream(SizeBytes(4, length) + recv + chunk)
            == Before([recv + chunk[..need]], ScanStream(chunk[need..]))
  {
    var body, t := recv + chunk[..need], chunk[need..];
    Rejoin(SizeBytes(4, length), recv, chunk, need);
    ScanFirst(length, body, t);
  }

  lemma Rejoin(a: seq<byte>, b: seq<byte>, c: seq<byte>, n: nat)
    requires n <= |c|
    ensures a + b + c == a + (b + c[..n]) + c[n..]
  {
    Regroup(a, b, c[..n], c[n..]);
    assert c[..n] + c[n..] == c;
  }

  lemma BeforeBefore(a: seq<seq<byte>>, b: seq<seq<byte>>, r: Scan)
    ensures Before(a, Before(b, r)) == Before(a + b, r)
  {
    Assoc(a, b, r.frames);
  }

  lemma BeforeNone(r: Scan)
    ensures Before([], r) == r
  {
    assert [] + r.frames == r.frames;
  }

  /** For any cut, scanning continues from the incomplete rest. */
  lemma {:induction false} ScanAppend(s: seq<byte>, t: seq<byte>)
    ensures var r := ScanStream(s);
            ScanStream(s + t) == if r.down then r else Before(r.frames, ScanStream(r.rest + t))
    decreases |s|
  {
    if |s| >= 4 && s[0] == 0 && |s| >= 4 + SizeOf(4, s) {
      var n := SizeOf(4, s);
      var tail := s[4 + n..];
      ScanStep(s, n);
      ScanLonger(s, t, n);
      ScanAppend(tail, t);
      var r := ScanStream(tail);
      BeforeBefore([s[4..4 + n]], r.frames, ScanStream(r.rest + t));
    } else {
      BeforeNone(ScanStream(s + t));
    }
  }

  lemma ScanLonger(s: seq<byte>, t: seq<byte>, n: nat)
    requires |s| >= 4 && s[0] == 0 && n == SizeOf(4, s) && |s| >= 4 + n
    ensures ScanStream(s + t) == Before([s[4..4 + n]], ScanStream(s[4 + n..] + t))
  {
    SizeOfPrefix(4, s, t);
    FrontOf(s, t, n);
    ScanStep(s + t, n);
  }

  lemma FrontOf(s: seq<byte>, t: seq<byte>, n: nat)
    requires 4 + n <= |s|
    ensures (s + t)[0] == s[0] && (s + t)[4..4 + n] == s[4..4 + n] && (s + t)[4 + n..] == s[4 + n..] + t
  {
  }

  function Wires(qs: seq<Queued>): (w: seq<seq<byte>>)
    ensures |w| == |qs|
  {
    seq(|qs|, i requires 0 <= i < |qs| => Wire(qs[i]))
  }

  /** The byte stream of the messages `qs`. */
  function WireAll(qs: seq<Queued>): seq<byte> { Flatten(Wires(qs)) }

  lemma WireAllAppend(a: seq<Queued>, b: seq<Queued>)
    ensures WireAll(a + b) == WireAll(a) + WireAll(b)
  {
    assert Wires(a + b) == Wires(a) + Wires(b);
    FlattenAppend(Wires(a), Wires(b));
  }

  function QueuedAll(ms: seq<Msg>): (qs: seq<Queued>)
    ensures |qs| == |ms|
  {
    seq(|ms|, i requires 0 <= i < |ms| => QueuedOf(ms[i]))
  }

  // ------------------------------------------------------------ one link

  datatype Status = Wait | Handshake | Header | Content | Down

  /** The bytes that the receiving fields stand for. */
  function HeldOf(status: Status, size: seq<byte>, length: nat, recv: seq<byte>): seq<byte> {
    match status
    case Header => size
    case Content => SizeBytes(4, length) + recv
    case _ => []
  }

  /** No whole frame but possibly an empty one, which is forwarded only with the
      chunk that follows it. */
  ghost predicate Quiet(held: seq<byte>) {
    var r := ScanStream(held);
    !r.down && (r.frames == [] || r.frames == [[]])
  }

  /** Held bytes are quiet. */
  lemma HeldQuiet(status: Status, size: seq<byte>, length: nat, recv: seq<byte>)
    requires status.Header? ==> |size| < 4
    requires status.Content? ==> length < MASK && (|recv| < length || (length == 0 && |recv| == 0))
    ensures Quiet(HeldOf(status, size, length, recv))
  {
    if status.Content? {
      var s := HeldOf(status, size, length, recv);
      assert s[..4] == SizeBytes(4, length);
      SizeRoundTrip(4, length, s);
      assert s[0] == s[..4][0] == 0;
      if length == 0 {
        ScanStep(s, 0);
        assert s[4..4] == [] && s[4..] == [];
      }
    }
  }

  /** `bodies` is what the link forwarded of `chunk` after `held`; `held'` is
      what it holds now. */
  ghost predicate Scanned(held: seq<byte>, chunk: seq<byte>, status: Status, held': seq<byte>, bodies: seq<seq<byte>>) {
    var r := ScanStream(held + chunk);
    if r.down then status.Down? && bodies == r.frames
    else (status.Header? || status.Content?) && r == Before(bodies, ScanStream(held'))
  }

  /** What one turn makes of the held bytes and a chunk, `s`. */
  ghost predicate Turned(s: seq<byte>, status: Status, held: seq<byte>, rest: seq<byte>, done: Option<seq<byte>>) {
    if done.Some? then
      status.Header? && held == [] && ScanStream(s) == Before([done.value], ScanStream(rest))
    else if status.Down? then ScanStream(s) == Scan([], [], true)
    else (status.Header? || status.Content?) && s == held
  }

  lemma Stopped(held: seq<byte>, chunk: seq<byte>, bodies: seq<seq<byte>>, r: Scan,
                status: Status, size: seq<byte>, length: nat, recv: seq<byte>)
    requires ScanStream(held + chunk) == Before(bodies, r)
    requires status.Header? ==> |size| < 4
    requires status.Content? ==> length < MASK && (|recv| < length || (length == 0 && |recv| == 0))
    requires if status.Down? then r == Scan([], [], true)
             else (status.Header? || status.Content?) && r == ScanStream(HeldOf(status, size, length, recv))
    ensures Scanned(held, chunk, status, HeldOf(status, size, length, recv), bodies)
  {
    HeldQuiet(status, size, length, recv);
  }

  /** `struct slave`; `size` and `recv` hold the bytes read so far. */
  class Slave {
    var fd: int
    var queue: MsgQueue?
    var status: Status
    var length: nat
    var read: nat
    var size: seq<byte>
    var recv: seq<byte>

    ghost predicate Valid()
      reads this, queue, if queue == null then {} else {queue.data}
    {
      && (queue != null ==> queue.Valid())
      && (status.Wait? <==> fd == 0)
      && (status.Header? || status.Content? || status.Down? ==> queue == null)
      && ValidRecv()
    }

    ghost predicate ValidRecv()
      reads this
    {
      && (!status.Content? ==> read == |size| < 4)
      && (status.Wait? || status.Handshake? ==> read == 0)
      && (status.Content? ==> read == |recv| && length < MASK && (read < length || (length == 0 && read == 0)))
    }

    ghost function Held(): seq<byte>
      reads this
    {
      HeldOf(status, size, length, recv)
    }

    /** The calls that wait for the link, oldest first. */
    ghost function Waiting(): seq<Queued>
      reads this, queue
    {
      if queue == null then [] else queue.contents
    }

    constructor ()
      ensures Valid() && fd == 0 && status == Wait && Waiting() == [] && queue == null
    {
      fd, queue, status, length, read, size, recv := 0, null, Wait, 0, 0, [], [];
    }

    /** close_harbor. */
    method Close()
      requires fd != 0
      modifies this
      ensures Valid() && status == Down && queue == null && fd == old(fd)
    {
      status := Down;
      queue := null;
      read, size := 0, [];
    }

    /** dispatch_queue: everything that waited goes out, in order. */
    method DispatchQueue() returns (sent: seq<Queued>)
      requires queue != null ==> queue.Valid()
      modifies this`queue, queue
      ensures queue == null && sent == old(Waiting())
    {
      sent := [];
      if queue == null {
        return;
      }
      var q := queue;
      var m := q.Pop();
      while m.Some?
        modifies q
        invariant q.Valid()
        invariant m.None? ==> sent == old(Waiting()) && q.contents == []
        invariant m.Some? ==> sent + [m.value] + q.contents == old(Waiting())
        decreases m.Some?, |q.contents|
      {
        sent := sent + [m.value];
        m := q.Pop();
      }
      queue := null;
    }

    /** remote_send_handle for this link.  A link that is down keeps its descriptor, so
        what is sent over it goes to the closed socket, and the branch that reports a
        dead destination is never taken. */
    method RemoteSend(m: Msg) returns (sent: seq<Queued>)
      requires Valid()
      modifies this`queue, queue, if queue == null then {} else {queue.data}
      ensures Valid()
      ensures sent + Waiting() == old(Waiting()) + [QueuedOf(m)]
      ensures if status.Wait? || status.Handshake? then sent == [] else Waiting() == []
      ensures queue == old(queue) || fresh(queue)
      ensures queue != null ==> (old(queue) != null && queue.data == old(queue.data)) || fresh(queue.data)
    {
      if fd == 0 || status == Handshake {
        if queue == null {
          queue := new MsgQueue();
        }
        queue.Push(QueuedOf(m));
        sent := [];
      } else {
        sent := [QueuedOf(m)];
      }
    }

    /** The STATUS_HEADER case of push_socket_data; `stop` is its return. */
    method ReadHeader(chunk: seq<byte>) returns (rest: seq<byte>, stop: bool)
      requires Valid() && status.Header?
      modifies this
      ensures Valid() && fd == old(fd) && queue == null && (stop ==> rest == [])
      ensures status.Down? ==> stop && ScanStream(old(Held()) + chunk) == Scan([], [], true)
      ensures !status.Down? ==> Held() + rest == old(Held()) + chunk
      ensures !status.Down? && !stop ==> status.Content? && 0 < |rest| < |chunk|
      ensures !status.Down? && stop ==> status.Header? || status.Content?
    {
      var need := 4 - read;
      if |chunk| < need {
        size := size + chunk;
        read := read + |chunk|;
        return [], true;
      }
      ghost var s := Held() + chunk;
      size := size + chunk[..need];
      rest := chunk[need..];
      assert s == size + rest;
      assert s[..4] == size;
      if size[0] != 0 {
        Close();
        return [], true;
      }
      SizeBytesOf(4, size);
      length := SizeOf(4, size);
      read := 0;
      recv := [];
      status := Content;
      assert SizeBytes(4, length) + [] == size;
      stop := |rest| == 0;
    }

    /** The STATUS_CONTENT case; `done` holds the body that was completed. */
    method ReadContent(chunk: seq<byte>) returns (rest: seq<byte>, done: Option<seq<byte>>)
      requires Valid() && status.Content?
      modifies this`length, this`read, this`recv, this`size, this`status
      ensures Valid()
      ensures done.None? ==> rest == [] && status.Content? && Held() == old(Held()) + chunk
      ensures done.Some? ==> status.Header? && Held() == [] && |rest| <= |chunk|
      ensures done.Some? ==> ScanStream(old(Held()) + chunk) == Before([done.value], ScanStream(rest))
    {
      var need := length - read;
      if |chunk| < need {
        Assoc(SizeBytes(4, length), recv, chunk);
        recv := recv + chunk;
        read := read + |chunk|;
        return [], None;
      }
      var body := recv + chunk[..need];
      rest := chunk[need..];
      ContentDone(length, recv, chunk, need);
      length, read, recv, size := 0, 0, [], [];
      status := Header;
      done := Some(body);
    }

    /** One turn of the loop of push_socket_data: it completes a body, or stops. */
    method Turn(chunk: seq<byte>) returns (rest: seq<byte>, done: Option<seq<byte>>)
      requires Valid() && (status.Header? || status.Content?)
      modifies this
      ensures Valid() && fd == old(fd) && queue == null
      ensures Turned(old(Held()) + chunk, status, Held(), rest, done)
      ensures |rest| <= |chunk| && (old(status).Header? && done.Some? ==> |rest| < |chunk|)
    {
      rest := chunk;
      ghost var s := Held() + chunk;
      if status.Header? {
        var stop;
        rest, stop := ReadHeader(chunk);
        assert Held() + [] == Held();
        if stop {
          return rest, None;
        }
      }
      assert Held() + rest == s;
      rest, done := ReadContent(rest);
    }

    /** The header and content states of push_socket_data: for any chunk, the
        bodies forwarded are what scanning the held bytes and the chunk yields. */
    method Consume(chunk: seq<byte>) returns (bodies: seq<seq<byte>>)
      requires Valid() && (status.Header? || status.Content?)
      modifies this
      ensures Valid() && fd == old(fd) && queue == null
      ensures Scanned(old(Held()), chunk, status, Held(), bodies)
    {
      ghost var held := Held();
      var buffer := chunk;
      bodies := [];
      BeforeNone(ScanStream(held + chunk));
      while true
        invariant Valid() && fd == old(fd) && queue == null && (status.Header? || status.Content?)
        invariant ScanStream(held + chunk) == Before(bodies, ScanStream(Held() + buffer))
        decreases |buffer|, if status.Content? then 1 else 0
      {
        ghost var r := ScanStream(Held() + buffer);
        var done;
        buffer, done := Turn(buffer);
        if done.None? {
          Stopped(held, chunk, bodies, r, status, size, length, recv);
          return;
        }
        BeforeBefore(bodies, [done.value], ScanStream(buffer));
        bodies := bodies + [done.value];
        assert Held() + buffer == buffer;
        if |buffer| == 0 {
          Stopped(held, chunk, bodies, ScanStream(buffer), status, size, length, recv);
          return;
        }
      }
    }

    /** harbor_command 'S' (connect) or 'A' (accept) with socket `fd`; the own
        harbor id goes out first. */
    method Command(accept: bool, newFd: int, ownId: byte) returns (ok: bool, hello: seq<byte>, sent: seq<Queued>)
      requires Valid() && newFd != 0
      modifies this, queue
      ensures Valid() && (ok <==> old(fd) == 0)
      ensures !ok ==> sent == [] && hello == [] && unchanged(this) && Waiting() == old(Waiting())
      ensures ok ==> fd == newFd && hello == [ownId] && Held() == []
      ensures ok ==> status == if accept then Header else Handshake
      ensures ok && !accept ==> sent == []
      ensures sent + Waiting() == old(Waiting())
      ensures queue == old(queue) || queue == null
      ensures queue != null ==> queue.data == old(queue.data)
    {
      if fd != 0 {
        return false, [], [];
      }
      fd := newFd;
      ok, hello, sent := true, [ownId], [];
      if accept {
        status := Header;
        size := [];
        sent := DispatchQueue();
      } else {
        status := Handshake;
      }
    }

    /** push_socket_data for the link that owns the socket: in the handshake the
        first byte must be the id of the remote harbor. */
    method PushSocketData(id: byte, chunk: seq<byte>) returns (sent: seq<Queued>, bodies: seq<seq<byte>>)
      requires Valid() && fd != 0 && |chunk| > 0
      modifies this, queue
      ensures Valid() && fd == old(fd) && (old(status).Down? ==> status.Down?)
      ensures !status.Down? ==> sent + Waiting() == old(Waiting())
      ensures old(status).Handshake? ==>
        if chunk[0] != id then status.Down? && bodies == []
        else Scanned([], chunk[1..], status, Held(), bodies)
      ensures old(status).Header? || old(status).Content? ==> Scanned(old(Held()), chunk, status, Held(), bodies)
      ensures queue == old(queue) || queue == null
      ensures queue != null ==> queue.data == old(queue.data)
    {
      sent, bodies := [], [];
      match status
      case Handshake =>
        if chunk[0] != id {
          Close();
          return;
        }
        status := Header;
        size := [];
        sent := DispatchQueue();
        bodies := Consume(chunk[1..]);
      case Header => bodies := Consume(chunk);
      case Content => bodies := Consume(chunk);
      case Wait =>
      case Down =>
    }
  }

  // ------------------------------------------------------------ whole runs

  datatype Event = Send(m: Msg) | Connect(accept: bool, fd: int) | Chunk(bytes: seq<byte>)

  /** The calls made, in order. */
  function Calls(es: seq<Event>): seq<Msg> {
    if es == [] then []
    else
      var e := es[|es| - 1];
      Calls(es[..|es| - 1]) + (if e.Send? then [e.m] else [])
  }

  /** How the link was made and what arrived on its socket since. */
  datatype Peer = Peer(connected: bool, accept: bool, received: seq<byte>)

  function PeerStep(p: Peer, e: Event): Peer {
    match e
    case Send(_) => p
    case Connect(accept, _) => if p.connected then p else Peer(true, accept, [])
    case Chunk(bytes) => if p.connected then p.(received := p.received + bytes) else p
  }

  function PeerOf(es: seq<Event>): Peer {
    if es == [] then Peer(false, false, []) else PeerStep(PeerOf(es[..|es| - 1]), es[|es| - 1])
  }

  /** The framed part of what arrived: the connecting side first reads an id. */
  function Incoming(p: Peer): seq<byte> {
    if p.accept || p.received == [] then p.received else p.received[1..]
  }

  /** A link that is not down agrees with its history: what was emitted and what
      waits are together exactly the calls, the socket carries the own id and the
      emitted messages, and the bodies forwarded are those of the stream. */
  ghost predicate Agrees(status: Status, held: seq<byte>, waiting: seq<Queued>, ownId: byte, id: byte,
                         calls: seq<Msg>, p: Peer, out: seq<byte>, emitted: seq<Queued>, bodies: seq<seq<byte>>)
  {
    status.Down? ||
    (&& emitted + waiting == QueuedAll(calls)
     && out == (if p.connected then [ownId] else []) + WireAll(emitted)
     && (p.connected <==> !status.Wait?)
     && (status.Wait? || status.Handshake? ==> emitted == [] && bodies == [] && p.received == [])
     && (status.Handshake? ==> !p.accept)
     && (status.Header? || status.Content? ==>
           && waiting == []
           && (p.accept || (|p.received| > 0 && p.received[0] == id))
           && ScanStream(Incoming(p)) == Before(bodies, ScanStream(held))))
  }

  lemma QueuedSnoc(ms: seq<Msg>, m: Msg)
    ensures QueuedAll(ms + [m]) == QueuedAll(ms) + [QueuedOf(m)]
  {
  }

  lemma SentMore(out: seq<byte>, hello: seq<byte>, emitted: seq<Queued>, sent: seq<Queued>)
    requires out == hello + WireAll(emitted)
    ensures out + WireAll(sent) == hello + WireAll(emitted + sent)
  {
    WireAllAppend(emitted, sent);
    Assoc(hello, WireAll(emitted), WireAll(sent));
  }

  /** Held bytes scan on like the whole stream. */
  lemma ScansOn(s: seq<byte>, held: seq<byte>, bytes: seq<byte>, bodies: seq<seq<byte>>)
    requires ScanStream(s) == Before(bodies, ScanStream(held)) && !ScanStream(held).down
    ensures ScanStream(s + bytes) == Before(bodies, ScanStream(held + bytes))
  {
    ScanAppend(s, bytes);
    ScanAppend(held, bytes);
    var h := ScanStream(held);
    BeforeBefore(bodies, h.frames, ScanStream(h.rest + bytes));
  }

  lemma FirstScan(chunk: seq<byte>, status: Status, held: seq<byte>, bodies: seq<seq<byte>>)
    requires Scanned([], chunk, status, held, bodies) && !status.Down?
    ensures ScanStream(chunk) == Before(bodies, ScanStream(held))
  {
    assert [] + chunk == chunk;
  }

  lemma NextScan(s: seq<byte>, held: seq<byte>, bytes: seq<byte>, status: Status, held': seq<byte>,
                 bodies: seq<seq<byte>>, more: seq<seq<byte>>)
    requires ScanStream(s) == Before(bodies, ScanStream(held)) && !ScanStream(held).down
    requires Scanned(held, bytes, status, held', more) && !status.Down?
    ensures ScanStream(s + bytes) == Before(bodies + more, ScanStream(held'))
  {
    ScansOn(s, held, bytes, bodies);
    BeforeBefore(bodies, more, ScanStream(held'));
  }

  lemma IncomingNext(p: Peer, bytes: seq<byte>)
    requires p.connected && |bytes| > 0
    ensures var p' := PeerStep(p, Chunk(bytes));
            Incoming(p') == if p.accept || p.received != [] then Incoming(p) + bytes else bytes[1..]
  {
    if p.received == [] {
      assert [] + bytes == bytes;
    }
  }

  lemma AgreesChunk(status: Status, held: seq<byte>, status': Status, held': seq<byte>,
                    p: Peer, bytes: seq<byte>, id: byte, bodies: seq<seq<byte>>, more: seq<seq<byte>>)
    requires status.Header? || status.Content? || status.Handshake?
    requires p.connected && |bytes| > 0 && !status'.Down?
    requires status.Handshake? ==> bodies == [] && p.received == [] && !p.accept
                                   && bytes[0] == id && Scanned([], bytes[1..], status', held', more)
    requires !status.Handshake? ==> (p.accept || |p.received| > 0) && Scanned(held, bytes, status', held', more)
                                    && ScanStream(Incoming(p)) == Before(bodies, ScanStream(held))
                                    && !ScanStream(held).down
    ensures ScanStream(Incoming(PeerStep(p, Chunk(bytes)))) == Before(bodies + more, ScanStream(held'))
  {
    IncomingNext(p, bytes);
    if status.Handshake? {
      FirstScan(bytes[1..], status', held', more);
      assert bodies + more == more;
    } else {
      NextScan(Incoming(p), held, bytes, status', held', bodies, more);
    }
  }

  /** What a history says, one event later. */
  lemma History(es: seq<Event>, e: Event)
    ensures Calls(es + [e]) == Calls(es) + (if e.Send? then [e.m] else [])
    ensures PeerOf(es + [e]) == PeerStep(PeerOf(es), e)
  {
    assert (es + [e])[..|es + [e]| - 1] == es;
  }

  ghost predicate LinkAgrees(link: Slave, ownId: byte, id: byte, es: seq<Event>,
                             out: seq<byte>, emitted: seq<Queued>, bodies: seq<seq<byte>>)
    reads link, link.queue
  {
    Agrees(link.status, link.Held(), link.Waiting(), ownId, id, Calls(es), PeerOf(es), out, emitted, bodies)
  }

  lemma AgreesSend(status: Status, held: seq<byte>, waiting: seq<Queued>, waiting': seq<Queued>, ownId: byte, id: byte,
                   es: seq<Event>, m: Msg, out: seq<byte>, emitted: seq<Queued>, bodies: seq<seq<byte>>,
                   sent: seq<Queued>)
    requires Agrees(status, held, waiting, ownId, id, Calls(es), PeerOf(es), out, emitted, bodies)
    requires sent + waiting' == waiting + [QueuedOf(m)]
    requires if status.Wait? || status.Handshake? then sent == [] else waiting' == []
    ensures status.Down? || Agrees(status, held, waiting', ownId, id, Calls(es + [Send(m)]), PeerOf(es + [Send(m)]),
                                   out + WireAll(sent), emitted + sent, bodies)
  {
    History(es, Send(m));
    if !status.Down? {
      QueuedSnoc(Calls(es), m);
      assert emitted + sent + waiting' == emitted + (sent + waiting');
      assert emitted + (waiting + [QueuedOf(m)]) == emitted + waiting + [QueuedOf(m)];
      SentMore(out, if PeerOf(es).connected then [ownId] else [], emitted, sent);
    }
  }

  lemma AgreesFlush(emitted: seq<Queued>, sent: seq<Queued>, waiting: seq<Queued>, waiting': seq<Queued>,
                    calls: seq<Msg>)
    requires emitted + waiting == QueuedAll(calls) && sent + waiting' == waiting
    ensures emitted + sent + waiting' == QueuedAll(calls)
  {
    assert emitted + sent + waiting' == emitted + (sent + waiting');
  }

  method RunSend(link: Slave, ownId: byte, id: byte, ghost es: seq<Event>, m: Msg,
                 out0: seq<byte>, emitted0: seq<Queued>, ghost bodies: seq<seq<byte>>)
    returns (out: seq<byte>, emitted: seq<Queued>)
    requires link.Valid() && LinkAgrees(link, ownId, id, es, out0, emitted0, bodies)
    modifies link, link.queue, if link.queue == null then {} else {link.queue.data}
    ensures link.Valid() && LinkAgrees(link, ownId, id, es + [Send(m)], out, emitted, bodies)
    ensures link.queue == old(link.queue) || fresh(link.queue)
    ensures link.queue != null ==>
      (old(link.queue) != null && link.queue.data == old(link.queue.data)) || fresh(link.queue.data)
  {
    ghost var waiting := link.Waiting();
    var sent := link.RemoteSend(m);
    AgreesSend(link.status, link.Held(), waiting, link.Waiting(), ownId, id, es, m, out0, emitted0, bodies, sent);
    out, emitted := out0 + WireAll(sent), emitted0 + sent;
  }

  method RunConnect(link: Slave, ownId: byte, id: byte, ghost es: seq<Event>, e: Event,
                    out0: seq<byte>, emitted0: seq<Queued>, ghost bodies: seq<seq<byte>>)
    returns (out: seq<byte>, emitted: seq<Queued>)
    requires link.Valid() && LinkAgrees(link, ownId, id, es, out0, emitted0, bodies) && e.Connect? && e.fd != 0
    modifies link, link.queue
    ensures link.Valid() && LinkAgrees(link, ownId, id, es + [e], out, emitted, bodies)
    ensures link.queue == old(link.queue) || link.queue == null
    ensures link.queue != null ==> link.queue.data == old(link.queue.data)
  {
    History(es, e);
    ghost var status, waiting := link.status, link.Waiting();
    var ok, hello, sent := link.Command(e.accept, e.fd, ownId);
    out, emitted := out0, emitted0;
    if ok {
      out, emitted := out + hello + WireAll(sent), emitted + sent;
      AgreesConnect(status, waiting, link.status, link.Held(), link.Waiting(), ownId, id, es, e, out0, emitted0,
        bodies, sent);
    }
  }

  lemma AgreesConnect(status: Status, waiting: seq<Queued>, status': Status, held': seq<byte>, waiting': seq<Queued>,
                      ownId: byte, id: byte, es: seq<Event>, e: Event,
                      out: seq<byte>, emitted: seq<Queued>, bodies: seq<seq<byte>>, sent: seq<Queued>)
    requires status.Wait? && e.Connect? && held' == []
    requires Agrees(status, [], waiting, ownId, id, Calls(es), PeerOf(es), out, emitted, bodies)
    requires sent + waiting' == waiting && (e.accept ==> waiting' == []) && (!e.accept ==> sent == [])
    requires status' == if e.accept then Header else Handshake
    ensures Agrees(status', held', waiting', ownId, id, Calls(es + [e]), PeerOf(es + [e]),
                   out + [ownId] + WireAll(sent), emitted + sent, bodies)
  {
    History(es, e);
    AgreesFlush(emitted, sent, waiting, waiting', Calls(es));
    assert out == [] && emitted + sent == sent;
    assert out + [ownId] + WireAll(sent) == [ownId] + WireAll(sent);
    BeforeNone(ScanStream([]));
  }

  method RunChunk(link: Slave, ownId: byte, id: byte, ghost es: seq<Event>, bytes: seq<byte>,
                  out0: seq<byte>, emitted0: seq<Queued>, bodies0: seq<seq<byte>>)
    returns (out: seq<byte>, emitted: seq<Queued>, bodies: seq<seq<byte>>)
    requires link.Valid() && LinkAgrees(link, ownId, id, es, out0, emitted0, bodies0) && |bytes| > 0
    modifies link, link.queue
    ensures link.Valid() && LinkAgrees(link, ownId, id, es + [Chunk(bytes)], out, emitted, bodies)
    ensures link.queue == old(link.queue) || link.queue == null
    ensures link.queue != null ==> link.queue.data == old(link.queue.data)
  {
    out, emitted, bodies := out0, emitted0, bodies0;
    History(es, Chunk(bytes));
    if link.fd != 0 {
      ghost var status, held, waiting := link.status, link.Held(), link.Waiting();
      ghost var p := PeerOf(es);
      HeldQuiet(link.status, link.size, link.length, link.recv);
      var sent, more := link.PushSocketData(id, bytes);
      if !link.status.Down? {
        AgreesChunk(status, held, link.status, link.Held(), p, bytes, id, bodies, more);
        AgreesFlush(emitted, sent, waiting, link.Waiting(), Calls(es));
        SentMore(out, [ownId], emitted, sent);
      }
      out, emitted, bodies := out + WireAll(sent), emitted + sent, bodies + more;
    }
  }

  ghost predicate ValidEvents(es: seq<Event>) {
    forall i :: 0 <= i < |es| ==> (es[i].Chunk? ==> |es[i].bytes| > 0) && (es[i].Connect? ==> es[i].fd != 0)
  }

  /** Over every run of sends, connects and received chunks on a new link: unless
      the link went down, emitted ++ waiting is exactly the calls in order, the
      socket output is the own id followed by the emitted messages, and the
      bodies forwarded are those of the bytes received, however they were cut. */
  method RunLink(link: Slave, ownId: byte, id: byte, es: seq<Event>)
    returns (out: seq<byte>, emitted: seq<Queued>, bodies: seq<seq<byte>>)
    requires link.Valid() && link.status == Wait && link.queue == null && ValidEvents(es)
    modifies link
    ensures link.Valid() && LinkAgrees(link, ownId, id, es, out, emitted, bodies) && Quiet(link.Held())
  {
    out, emitted, bodies := [], [], [];
    for i := 0 to |es|
      invariant link.Valid() && LinkAgrees(link, ownId, id, es[..i], out, emitted, bodies)
      invariant link.queue == null || (fresh(link.queue) && fresh(link.queue.data))
    {
      assert es[..i] + [es[i]] == es[..i + 1];
      match es[i]
      case Send(m) =>
        out, emitted := RunSend(link, ownId, id, es[..i], m, out, emitted, bodies);
      case Connect(_, _) =>
        out, emitted := RunConnect(link, ownId, id, es[..i], es[i], out, emitted, bodies);
      case Chunk(bytes) =>
        out, emitted, bodies := RunChunk(link, ownId, id, es[..i], bytes, out, emitted, bodies);
    }
    assert es[..|es|] == es;
    HeldQuiet(link.status, link.size, link.length, link.recv);
  }

  // ------------------------------------------------------------ end to end

  /** A call that the harbor `id` can receive. */
  predicate Fits(m: Msg, id: byte) {
    m.kind < 256 && |m.payload| + COOKIE < MASK && m.destination / MASK == id
  }

  function Body(m: Msg): seq<byte> { m.payload + CookieBytes(CookieOf(m)) }

  function BodyAll(ms: seq<Msg>): (bs: seq<seq<byte>>)
    ensures |bs| == |ms|
  {
    seq(|ms|, i requires 0 <= i < |ms| => Body(ms[i]))
  }

  lemma CookieRead(c: Cookie, s: seq<byte>)
    requires s == CookieBytes(c)
    ensures SizeOf(4, s) == c.source && SizeOf(4, s[4..]) == c.destination && SizeOf(4, s[8..]) == c.session
  {
    assert s[..4] == SizeBytes(4, c.source);
    assert s[4..][..4] == SizeBytes(4, c.destination);
    assert s[8..][..4] == SizeBytes(4, c.session);
    SizeRoundTrip(4, c.source, s);
    SizeRoundTrip(4, c.destination, s[4..]);
    SizeRoundTrip(4, c.session, s[8..]);
  }

  lemma CookieFields(m: Msg, id: byte)
    requires Fits(m, id)
    ensures var c := CookieOf(m);
            && c.source == m.source && c.destination / MASK == m.kind
            && c.destination % MASK + id * MASK == m.destination && ToI32(c.session) == m.session
  {
  }

  /** What is delivered is the call that was made: source, destination, type,
      session and payload. */
  lemma DeliverBody(m: Msg, id: byte)
    requires Fits(m, id)
    ensures Deliver(id, Body(m)) == Some(m)
  {
    var c := CookieOf(m);
    var b := Body(m);
    var cut := |b| - COOKIE;
    assert b[cut..] == CookieBytes(c) && b[..cut] == m.payload;
    assert b[cut + 4..] == CookieBytes(c)[4..] && b[cut + 8..] == CookieBytes(c)[8..];
    CookieRead(c, CookieBytes(c));
    CookieFields(m, id);
  }

  lemma WireAllFirst(ms: seq<Msg>)
    requires |ms| > 0 && |ms[0].payload| + COOKIE < MASK
    ensures WireAll(QueuedAll(ms)) == SizeBytes(4, |Body(ms[0])|) + Body(ms[0]) + WireAll(QueuedAll(ms[1..]))
  {
    var qs := QueuedAll(ms);
    assert qs[1..] == QueuedAll(ms[1..]);
    assert Wires(qs)[1..] == Wires(qs[1..]);
  }

  lemma BodyAllFirst(ms: seq<Msg>)
    requires |ms| > 0
    ensures BodyAll(ms) == [Body(ms[0])] + BodyAll(ms[1..])
  {
  }

  lemma {:induction false} ScanWires(ms: seq<Msg>, id: byte)
    requires forall i :: 0 <= i < |ms| ==> Fits(ms[i], id)
    ensures ScanStream(WireAll(QueuedAll(ms))) == Scan(BodyAll(ms), [], false)
  {
    if ms == [] {
      assert Wires(QueuedAll(ms)) == [];
    } else {
      var b, rest := Body(ms[0]), WireAll(QueuedAll(ms[1..]));
      assert Fits(ms[0], id);
      ScanWires(ms[1..], id);
      WireAllFirst(ms);
      ScanFirst(|b|, b, rest);
      BodyAllFirst(ms);
    }
  }

  lemma StreamDelivers(calls: seq<Msg>, id: byte, stream: seq<byte>)
    requires forall i :: 0 <= i < |calls| ==> Fits(calls[i], id)
    requires stream == WireAll(QueuedAll(calls))
    ensures ScanStream(stream) == Scan(BodyAll(calls), [], false)
    ensures forall i :: 0 <= i < |calls| ==> Deliver(id, BodyAll(calls)[i]) == Some(calls[i])
  {
    ScanWires(calls, id);
    forall i | 0 <= i < |calls| ensures Deliver(id, BodyAll(calls)[i]) == Some(calls[i]) {
      DeliverBody(calls[i], id);
    }
  }

  /** Across two harbors: once the sending link has emitted all its calls and the
      receiving link has got its output, in any chunks, exactly those calls are
      delivered, in order.  (On the accepting side the first byte, the sender's
      id, is read before the socket is handed to the harbor.) */
  lemma EndToEnd(sId: byte, rId: byte,
                 sStatus: Status, sHeld: seq<byte>, calls: seq<Msg>, sPeer: Peer,
                 sOut: seq<byte>, sEmitted: seq<Queued>, sBodies: seq<seq<byte>>,
                 rStatus: Status, rHeld: seq<byte>, rWaiting: seq<Queued>, rCalls: seq<Msg>, rPeer: Peer,
                 rOut: seq<byte>, rEmitted: seq<Queued>, rBodies: seq<seq<byte>>)
    requires sStatus.Header? || sStatus.Content?
    requires Agrees(sStatus, sHeld, [], sId, rId, calls, sPeer, sOut, sEmitted, sBodies)
    requires rStatus.Header? || rStatus.Content?
    requires Agrees(rStatus, rHeld, rWaiting, rId, sId, rCalls, rPeer, rOut, rEmitted, rBodies) && Quiet(rHeld)
    requires rPeer.received == if rPeer.accept then sOut[1..] else sOut
    requires forall i :: 0 <= i < |calls| ==> Fits(calls[i], rId)
    ensures |rBodies| == |calls| && forall i :: 0 <= i < |calls| ==> Deliver(rId, rBodies[i]) == Some(calls[i])
  {
    assert sEmitted == QueuedAll(calls);
    var stream := WireAll(QueuedAll(calls));
    assert sOut[1..] == stream;
    assert Incoming(rPeer) == stream;
    StreamDelivers(calls, rId, stream);
    var r := ScanStream(rHeld);
    assert BodyAll(calls) == rBodies + r.frames;
    NoEmptyTail(BodyAll(calls), rBodies, r.frames);
  }

  lemma NoEmptyTail(all: seq<seq<byte>>, a: seq<seq<byte>>, b: seq<seq<byte>>)
    requires all == a + b && (b == [] || b == [[]]) && [] !in all
    ensures b == []
  {
    assert forall x :: x in b ==> x in a + b;
  }

  /** What is scanned of the front of a stream is the front of what is scanned of all. */
  lemma ScanPrefix(s: seq<byte>, t: seq<byte>, bodies: seq<seq<byte>>)
    requires ScanStream(s + t) == Scan(bodies, [], false)
    ensures !ScanStream(s).down && ScanStream(s).frames <= bodies
  {
    ScanAppend(s, t);
  }

  /** The calls that a link has emitted are the first ones. */
  lemma EmittedFirst(calls: seq<Msg>, emitted: seq<Queued>, waiting: seq<Queued>)
    requires emitted + waiting == QueuedAll(calls)
    ensures |emitted| <= |calls| && emitted == QueuedAll(calls[..|emitted|])
  {
    assert emitted == QueuedAll(calls)[..|emitted|];
  }

  lemma BodiesFirst(calls: seq<Msg>, n: nat, bodies: seq<seq<byte>>)
    requires n <= |calls| && bodies <= BodyAll(calls[..n])
    ensures |bodies| <= |calls| && forall i :: 0 <= i < |bodies| ==> bodies[i] == BodyAll(calls)[i]
  {
  }

  /** At any moment before, when the receiving link has got the first `n` bytes of the
      output of a sending link that is not down, the first calls are delivered, in
      order. */
  lemma EndToEndSoFar(sId: byte, rId: byte,
                      sStatus: Status, sHeld: seq<byte>, sWaiting: seq<Queued>, calls: seq<Msg>, sPeer: Peer,
                      sOut: seq<byte>, sEmitted: seq<Queued>, sBodies: seq<seq<byte>>,
                      rStatus: Status, rHeld: seq<byte>, rWaiting: seq<Queued>, rCalls: seq<Msg>, rPeer: Peer,
                      rOut: seq<byte>, rEmitted: seq<Queued>, rBodies: seq<seq<byte>>, n: nat)
    requires !sStatus.Down? && sPeer.connected
    requires Agrees(sStatus, sHeld, sWaiting, sId, rId, calls, sPeer, sOut, sEmitted, sBodies)
    requires rStatus.Header? || rStatus.Content?
    requires Agrees(rStatus, rHeld, rWaiting, rId, sId, rCalls, rPeer, rOut, rEmitted, rBodies)
    requires if rPeer.accept then n < |sOut| && rPeer.received == sOut[1..n + 1]
             else n <= |sOut| && rPeer.received == sOut[..n]
    requires forall i :: 0 <= i < |calls| ==> Fits(calls[i], rId)
    ensures |rBodies| <= |calls| && forall i :: 0 <= i < |rBodies| ==> Deliver(rId, rBodies[i]) == Some(calls[i])
  {
    var m := |sEmitted|;
    EmittedFirst(calls, sEmitted, sWaiting);
    SentStream(sId, calls, sEmitted, m, sOut);
    ReceivedPrefix(sOut, rPeer, n);
    FrontDelivers(calls, m, Incoming(rPeer), rBodies, rHeld, rId);
  }

  lemma SentStream(id: byte, calls: seq<Msg>, emitted: seq<Queued>, m: nat, out: seq<byte>)
    requires m <= |calls| && emitted == QueuedAll(calls[..m]) && out == [id] + WireAll(emitted)
    ensures |out| > 0 && out[1..] == WireAll(QueuedAll(calls[..m]))
  {
  }

  /** The front of the stream of the first `m` calls delivers the first of them. */
  lemma FrontDelivers(calls: seq<Msg>, m: nat, s: seq<byte>, bodies: seq<seq<byte>>, held: seq<byte>, id: byte)
    requires m <= |calls| && forall i :: 0 <= i < |calls| ==> Fits(calls[i], id)
    requires |s| <= |WireAll(QueuedAll(calls[..m]))| && s == WireAll(QueuedAll(calls[..m]))[..|s|]
    requires ScanStream(s) == Before(bodies, ScanStream(held))
    ensures |bodies| <= |calls| && forall i :: 0 <= i < |bodies| ==> Deliver(id, bodies[i]) == Some(calls[i])
  {
    var stream := WireAll(QueuedAll(calls[..m]));
    StreamDelivers(calls[..m], id, stream);
    TakeDrop(stream, |s|);
    ScanPrefix(s, stream[|s|..], BodyAll(calls[..m]));
    BodiesFirst(calls, m, bodies);
    forall i | 0 <= i < |bodies| ensures Deliver(id, bodies[i]) == Some(calls[i]) {
      DeliverBody(calls[i], id);
    }
  }

  lemma ReceivedPrefix(out: seq<byte>, p: Peer, n: nat)
    requires |out| > 0 && (p.accept || p.received != [])
    requires if p.accept then n < |out| && p.received == out[1..n + 1] else n <= |out| && p.received == out[..n]
    ensures var k := |Incoming(p)|; k <= |out| - 1 && Incoming(p) == out[1..][..k]
  {
  }
}
