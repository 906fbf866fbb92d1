/** lua-netpack.c: two-byte length framing over many sockets.  Incomplete packets
    wait in hash buckets, finished ones in a growing ring queue. */
module Netpack {
  import opened Wrappers
  import opened Bytes
  import opened Arith
  import opened Framing

  const QUEUESIZE: nat := 1024
  const HASHSIZE: nat := 4096

  /** `struct netpack`. */
  datatype Packet = Packet(id: int, data: seq<byte>)

  /** `struct uncomplete`: read == -1 means that only the first byte of the
      length, `header`, has arrived; otherwise `buffer` holds the `read` bytes
      of the `size` that are needed. */
  datatype Uncomplete = Uncomplete(id: int, read: int, header: byte, size: nat, buffer: seq<byte>)

  /** What lfilter returns for data: nothing yet, one packet, or "more" packets
      in the queue. */
  datatype Outcome = Nothing | Data(id: int, data: seq<byte>) | More

  function HashFd(fd: int): (h: nat)
    ensures h < HASHSIZE
  {
    ((fd / 0x1000000 + fd / 0x1000 + fd) % 0x1_0000_0000) % HASHSIZE
  }

  predicate ValidRecord(uc: Uncomplete) {
    uc.read == -1 || (uc.read == |uc.buffer| < uc.size < 0x10000)
  }

  /** The bytes that a record stands for. */
  function Held(uc: Uncomplete): seq<byte> {
    if uc.read == -1 then [uc.header] else SizeBytes(2, uc.size) + uc.buffer
  }

  ghost predicate ValidBucket(b: seq<Uncomplete>, h: nat) {
    && (forall i :: 0 <= i < |b| ==> ValidRecord(b[i]) && HashFd(b[i].id) == h)
    && (forall i, j :: 0 <= i < j < |b| ==> b[i].id != b[j].id)
  }

  function HeldIn(b: seq<Uncomplete>, fd: int): seq<byte> {
    if b == [] then [] else if b[0].id == fd then Held(b[0]) else HeldIn(b[1..], fd)
  }

  lemma {:induction false} HeldAt(b: seq<Uncomplete>, k: nat)
    requires k < |b| && forall i, j :: 0 <= i < j < |b| ==> b[i].id != b[j].id
    ensures HeldIn(b, b[k].id) == Held(b[k])
  {
    if k > 0 {
      assert b[0].id != b[k].id;
      HeldAt(b[1..], k - 1);
    }
  }

  lemma {:induction false} HeldNowhere(b: seq<Uncomplete>, fd: int)
    requires forall i :: 0 <= i < |b| ==> b[i].id != fd
    ensures HeldIn(b, fd) == []
  {
    if b != [] {
      HeldNowhere(b[1..], fd);
    }
  }

  /** Taking out record `k` changes what is held for its socket only. */
  lemma {:induction false} HeldRemove(b: seq<Uncomplete>, k: nat, fd: int)
    requires k < |b| && b[k].id != fd
    ensures HeldIn(b[..k] + b[k + 1..], fd) == HeldIn(b, fd)
  {
    var c := b[..k] + b[k + 1..];
    if k == 0 {
      assert c == b[1..];
    } else {
      HeldRemove(b[1..], k - 1, fd);
      assert c[1..] == b[1..][..k - 1] + b[1..][k..];
    }
  }

  function Packets(fd: int, bodies: seq<seq<byte>>): (ps: seq<Packet>)
    ensures |ps| == |bodies|
  {
    if bodies == [] then [] else [Packet(fd, bodies[0])] + Packets(fd, bodies[1..])
  }

  lemma PacketsCons(fd: int, x: seq<byte>, xs: seq<seq<byte>>)
    ensures Packets(fd, [x] + xs) == [Packet(fd, x)] + Packets(fd, xs)
  {
    assert ([x] + xs)[1..] == xs;
  }

  /** A record for the incomplete stream `s`, as the code fills it in. */
  function RecordOf(fd: int, s: seq<byte>): (uc: Uncomplete)
    requires |s| > 0 && !Complete(2, s)
    ensures ValidRecord(uc) && uc.id == fd && Held(uc) == s
  {
    if |s| == 1 then Uncomplete(fd, -1, s[0], 0, [])
    else
      SizeBytesOf(2, s);
      assert s == s[..2] + s[2..];
      Uncomplete(fd, |s| - 2, 0, SizeOf(2, s), s[2..])
  }

  /** Reading the second byte of the length. */
  lemma SecondByte(uc: Uncomplete, b: byte)
    requires ValidRecord(uc) && uc.read == -1
    ensures var n := 0x100 * (uc.header as int) + b;
            n < 0x10000 && SizeBytes(2, n) == Held(uc) + [b]
  {
  }

  /** A record that the chunk does not complete. */
  lemma StillIncomplete(size: nat, buffer: seq<byte>, chunk: seq<byte>)
    requires size < 0x10000 && |buffer| + |chunk| < size
    ensures var s := SizeBytes(2, size) + buffer + chunk; !Complete(2, s) && Parse(2, s) == [] && Rest(2, s) == s
  {
    var s := SizeBytes(2, size) + buffer + chunk;
    assert s[..2] == SizeBytes(2, size);
    SizeRoundTrip(2, size, s);
  }

  /** A record completed by the first `need` bytes of the chunk. */
  lemma NowComplete(size: nat, buffer: seq<byte>, chunk: seq<byte>, need: nat)
    requires size < 0x10000 && |buffer| + need == size && need <= |chunk|
    ensures var s := SizeBytes(2, size) + buffer + chunk;
            && Parse(2, s) == [buffer + chunk[..need]] + Parse(2, chunk[need..])
            && Rest(2, s) == Rest(2, chunk[need..])
  {
    var body, rest := buffer + chunk[..need], chunk[need..];
    ParseStep(2, body, rest);
    assert chunk == chunk[..need] + rest;
    Regroup(SizeBytes(2, size), buffer, chunk[..need], rest);
  }

  ghost predicate ValidHash(hash: seq<seq<Uncomplete>>) {
    |hash| == HASHSIZE && forall h :: 0 <= h < HASHSIZE ==> ValidBucket(hash[h], h)
  }

  /** The bytes held for `fd` in a table of buckets. */
  function HeldFor(hash: seq<seq<Uncomplete>>, fd: int): seq<byte>
    requires |hash| == HASHSIZE
  {
    HeldIn(hash[HashFd(fd)], fd)
  }

  /** Nothing changed for the other sockets. */
  ghost predicate OnlyFd(hash: seq<seq<Uncomplete>>, hash': seq<seq<Uncomplete>>, fd: int)
    requires |hash| == HASHSIZE && |hash'| == HASHSIZE
  {
    forall g :: g != fd ==> HeldFor(hash', g) == HeldFor(hash, g)
  }

  predicate NoRecord(hash: seq<seq<Uncomplete>>, fd: int)
    requires |hash| == HASHSIZE
  {
    forall i :: 0 <= i < |hash[HashFd(fd)]| ==> hash[HashFd(fd)][i].id != fd
  }

  function WithRecord(hash: seq<seq<Uncomplete>>, uc: Uncomplete): (r: seq<seq<Uncomplete>>)
    requires |hash| == HASHSIZE
    ensures |r| == HASHSIZE
  {
    var h := HashFd(uc.id);
    hash[h := [uc] + hash[h]]
  }

  lemma RecordSaved(hash: seq<seq<Uncomplete>>, uc: Uncomplete)
    requires ValidHash(hash) && ValidRecord(uc) && NoRecord(hash, uc.id)
    ensures ValidHash(WithRecord(hash, uc))
    ensures HeldFor(WithRecord(hash, uc), uc.id) == Held(uc)
    ensures OnlyFd(hash, WithRecord(hash, uc), uc.id)
  {
    var h := HashFd(uc.id);
    var hash' := WithRecord(hash, uc);
    assert ValidBucket(hash[h], h);
    assert hash'[h][1..] == hash[h];
  }

  lemma RecordTaken(hash: seq<seq<Uncomplete>>, fd: int, k: nat)
    requires ValidHash(hash) && k < |hash[HashFd(fd)]| && hash[HashFd(fd)][k].id == fd
    ensures var b := hash[HashFd(fd)];
            var hash' := hash[HashFd(fd) := b[..k] + b[k + 1..]];
            && ValidHash(hash') && NoRecord(hash', fd) && HeldFor(hash', fd) == [] && OnlyFd(hash, hash', fd)
            && ValidRecord(b[k]) && HeldFor(hash, fd) == Held(b[k])
  {
    var h := HashFd(fd);
    var b := hash[h];
    assert ValidBucket(b, h);
    HeldAt(b, k);
    var c := b[..k] + b[k + 1..];
    forall g | g != fd ensures HeldIn(c, g) == HeldIn(b, g) { HeldRemove(b, k, g); }
    HeldNowhere(c, fd);
    assert ValidBucket(c, h);
  }

  /** The table after the rest of a stream has been saved for `fd`. */
  function WithRest(hash: seq<seq<Uncomplete>>, fd: int, rest: seq<byte>): (r: seq<seq<Uncomplete>>)
    requires |hash| == HASHSIZE
    ensures |r| == HASHSIZE
  {
    if rest == [] || Complete(2, rest) then hash else WithRecord(hash, RecordOf(fd, rest))
  }

  lemma RestSaved(hash: seq<seq<Uncomplete>>, fd: int, rest: seq<byte>)
    requires ValidHash(hash) && NoRecord(hash, fd) && !Complete(2, rest)
    ensures ValidHash(WithRest(hash, fd, rest))
    ensures HeldFor(WithRest(hash, fd, rest), fd) == rest
    ensures OnlyFd(hash, WithRest(hash, fd, rest), fd)
  {
    if rest == [] {
      HeldNowhere(hash[HashFd(fd)], fd);
    } else {
      RecordSaved(hash, RecordOf(fd, rest));
    }
  }

  /** push_more on a chunk without a whole packet. */
  lemma LastRecord(hash: seq<seq<Uncomplete>>, fd: int, s: seq<byte>)
    requires |hash| == HASHSIZE && |s| > 0 && !Complete(2, s)
    ensures WithRest(hash, fd, Rest(2, s)) == WithRecord(hash, RecordOf(fd, s))
    ensures Packets(fd, Parse(2, s)) == []
    ensures |s| == 1 ==> RecordOf(fd, s) == Uncomplete(fd, -1, s[0], 0, [])
  {
    ParseNone(2, s);
  }

  /** push_more on a chunk that starts with a whole packet. */
  lemma FirstOfMore(hash: seq<seq<Uncomplete>>, fd: int, s: seq<byte>, n: nat)
    requires |hash| == HASHSIZE && |s| >= 2 && n == SizeOf(2, s) && |s| >= 2 + n
    ensures var data, rest := s[2..2 + n], s[2 + n..];
            && Packets(fd, Parse(2, s)) == [Packet(fd, data)] + Packets(fd, Parse(2, rest))
            && Rest(2, s) == Rest(2, rest)
            && (rest == [] ==> Packets(fd, Parse(2, s)) == [Packet(fd, data)] && WithRest(hash, fd, Rest(2, s)) == hash)
  {
    var data, rest := s[2..2 + n], s[2 + n..];
    ParseFirst(2, s, n);
    PacketsCons(fd, data, Parse(2, rest));
    if rest == [] {
      ParseNone(2, rest);
    }
  }

  class Queue {
    /** The finished packets, oldest first. */
    ghost var contents: seq<Packet>
    var cap: nat
    var head: nat
    var tail: nat
    var hash: seq<seq<Uncomplete>>
    var queue: array<Packet>

    ghost predicate Valid()
      reads this, queue
    {
      && queue.Length == cap && head < cap && tail < cap && cap >= QUEUESIZE
      && |contents| == (if head <= tail then tail - head else cap - head + tail)
      && (forall i :: 0 <= i < |contents| ==> contents[i] == queue[Slot(head, i, cap)])
      && ValidHash(hash)
    }

    constructor ()
      ensures Valid() && contents == [] && forall fd :: HeldFor(hash, fd) == []
      ensures fresh(queue)
    {
      cap, head, tail, contents := QUEUESIZE, 0, 0, [];
      hash := seq(HASHSIZE, _ => []);
      queue := new Packet[QUEUESIZE](_ => Packet(0, []));
    }

    /** find_uncomplete: unlink the record of `fd`. */
    method FindUncomplete(fd: int) returns (uc: Option<Uncomplete>)
      requires Valid()
      modifies this`hash
      ensures Valid() && contents == old(contents)
      ensures HeldFor(hash, fd) == [] && OnlyFd(old(hash), hash, fd)
      ensures NoRecord(hash, fd)
      ensures uc.None? ==> HeldFor(old(hash), fd) == []
      ensures uc.Some? ==> ValidRecord(uc.value) && uc.value.id == fd && HeldFor(old(hash), fd) == Held(uc.value)
    {
      var h := HashFd(fd);
      var b := hash[h];
      var k := 0;
      while k < |b| && b[k].id != fd
        invariant 0 <= k <= |b| && forall i :: 0 <= i < k ==> b[i].id != fd
      {
        k := k + 1;
      }
      if k == |b| {
        HeldNowhere(b, fd);
        return None;
      }
      RecordTaken(hash, fd, k);
      hash := hash[h := b[..k] + b[k + 1..]];
      uc := Some(b[k]);
    }

    /** The head insertion of save_uncomplete and of filter_data_. */
    method SaveUncomplete(uc: Uncomplete)
      requires Valid() && ValidRecord(uc) && NoRecord(hash, uc.id)
      modifies this`hash
      ensures Valid() && contents == old(contents) && hash == WithRecord(old(hash), uc)
    {
      RecordSaved(hash, uc);
      var h := HashFd(uc.id);
      hash := hash[h := [uc] + hash[h]];
    }

    /** push_data with expand_queue: a full ring moves into a larger one. */
    method PushData(fd: int, data: seq<byte>)
      requires Valid()
      modifies this`contents, this`cap, this`head, this`tail, this`queue, queue
      ensures Valid() && hash == old(hash)
      ensures queue == old(queue) || fresh(queue)
      ensures contents == old(contents) + [Packet(fd, data)]
    {
      queue[tail] := Packet(fd, data);
      contents := contents + [Packet(fd, data)];
      tail := tail + 1;
      if tail >= cap {
        tail := tail - cap;
      }
      if head == tail {
        ExpandQueue();
      }
    }

    /** expand_queue, called with the ring full. */
    method ExpandQueue()
      requires queue.Length == cap && head == tail < cap && cap >= QUEUESIZE && ValidHash(hash)
      requires |contents| == cap && forall i :: 0 <= i < cap ==> contents[i] == queue[Slot(head, i, cap)]
      modifies this`cap, this`head, this`tail, this`queue
      ensures Valid() && fresh(queue)
    {
      var nq := new Packet[cap + QUEUESIZE](_ => Packet(0, []));
      var i := 0;
      while i < cap
        modifies nq
        invariant 0 <= i <= cap
        invariant forall j :: 0 <= j < i ==> nq[j] == contents[j]
      {
        var idx := (head + i) % cap;
        Wrapped(head, i, cap);
        nq[i] := queue[idx];
        i := i + 1;
      }
      tail := cap;
      head := 0;
      cap := cap + QUEUESIZE;
      queue := nq;
    }

    /** push_more: the packets of a chunk that starts at a packet boundary. */
    method PushMore(fd: int, buffer: seq<byte>)
      requires Valid() && |buffer| > 0 && NoRecord(hash, fd)
      modifies this, queue
      ensures Valid() && (queue == old(queue) || fresh(queue))
      ensures contents == old(contents) + Packets(fd, Parse(2, buffer))
      ensures hash == WithRest(old(hash), fd, Rest(2, buffer))
      decreases |buffer|
    {
      if |buffer| == 1 {
        LastRecord(hash, fd, buffer);
        SaveUncomplete(Uncomplete(fd, -1, buffer[0], 0, []));
        return;
      }
      var packSize := SizeOf(2, buffer);
      if |buffer| - 2 < packSize {
        LastRecord(hash, fd, buffer);
        SaveUncomplete(RecordOf(fd, buffer));
        return;
      }
      FirstOfMore(hash, fd, buffer, packSize);
      var data, rest := buffer[2..2 + packSize], buffer[2 + packSize..];
      ghost var before, more := contents, Packets(fd, Parse(2, rest));
      PushData(fd, data);
      if |rest| > 0 {
        PushMore(fd, rest);
        Assoc(before, [Packet(fd, data)], more);
      }
    }

    /** The "more data" ending of both branches of filter_data_. */
    method PushBoth(fd: int, data: seq<byte>, rest: seq<byte>)
      requires Valid() && |rest| > 0 && NoRecord(hash, fd)
      modifies this, queue
      ensures Valid() && (queue == old(queue) || fresh(queue))
      ensures contents == old(contents) + Packets(fd, [data] + Parse(2, rest))
      ensures hash == WithRest(old(hash), fd, Rest(2, rest))
    {
      PushData(fd, data);
      PushMore(fd, rest);
      PacketsCons(fd, data, Parse(2, rest));
    }

    /** filter_data_: for any chunk, what comes out is the parse of the bytes
        held for the socket followed by the chunk. */
    method FilterData(fd: int, buffer: seq<byte>) returns (r: Outcome)
      requires Valid() && |buffer| > 0
      modifies this, queue
      ensures Valid() && (queue == old(queue) || fresh(queue))
      ensures var s := HeldFor(old(hash), fd) + buffer;
        && HeldFor(hash, fd) == Rest(2, s)
        && (r.Nothing? ==> Parse(2, s) == [])
        && (r.Data? ==> r.id == fd && Parse(2, s) == [r.data])
        && contents == old(contents) + (if r.More? then Packets(fd, Parse(2, s)) else [])
      ensures OnlyFd(old(hash), hash, fd)
    {
      var found := FindUncomplete(fd);
      if found.Some? {
        var uc := found.value;
        r := Fill(uc, buffer);
      } else {
        assert HeldFor(old(hash), fd) + buffer == buffer;
        r := Fresh(fd, buffer);
      }
    }

    /** The branch of filter_data_ that continues a record. */
    method Fill(uc0: Uncomplete, chunk: seq<byte>) returns (r: Outcome)
      requires Valid() && ValidRecord(uc0) && |chunk| > 0 && NoRecord(hash, uc0.id)
      modifies this, queue
      ensures Valid() && (queue == old(queue) || fresh(queue))
      ensures var s := Held(uc0) + chunk;
        && HeldFor(hash, uc0.id) == Rest(2, s)
        && (r.Nothing? ==> Parse(2, s) == [])
        && (r.Data? ==> r.id == uc0.id && Parse(2, s) == [r.data])
        && contents == old(contents) + (if r.More? then Packets(uc0.id, Parse(2, s)) else [])
      ensures OnlyFd(old(hash), hash, uc0.id)
    {
      var uc, buffer := uc0, chunk;
      if uc.read < 0 {
        SecondByte(uc, buffer[0]);
        uc := Uncomplete(uc.id, 0, uc.header, 0x100 * (uc.header as int) + buffer[0], []);
        buffer := buffer[1..];
        assert chunk == [chunk[0]] + buffer;
        assert Held(uc0) + chunk == Held(uc0) + [chunk[0]] + buffer;
      }
      ghost var s := Held(uc0) + chunk;
      assert s == SizeBytes(2, uc.size) + uc.buffer + buffer;
      var need := uc.size - uc.read;
      if |buffer| < need {
        StillIncomplete(uc.size, uc.buffer, buffer);
        assert SizeBytes(2, uc.size) + (uc.buffer + buffer) == s;
        var saved := uc.(read := uc.read + |buffer|, buffer := uc.buffer + buffer);
        RecordSaved(hash, saved);
        SaveUncomplete(saved);
        return Nothing;
      }
      NowComplete(uc.size, uc.buffer, buffer, need);
      var data := uc.buffer + buffer[..need];
      var rest := buffer[need..];
      RestIncomplete(2, rest);
      RestSaved(hash, uc.id, Rest(2, rest));
      if |rest| == 0 {
        ParseNone(2, rest);
        return Data(uc.id, data);
      }
      PushBoth(uc.id, data, rest);
      r := More;
    }

    /** The branch of filter_data_ that starts at a packet boundary. */
    method Fresh(fd: int, buffer: seq<byte>) returns (r: Outcome)
      requires Valid() && |buffer| > 0 && NoRecord(hash, fd)
      modifies this, queue
      ensures Valid() && (queue == old(queue) || fresh(queue))
      ensures HeldFor(hash, fd) == Rest(2, buffer)
      ensures r.Nothing? ==> Parse(2, buffer) == []
      ensures r.Data? ==> r.id == fd && Parse(2, buffer) == [r.data]
      ensures contents == old(contents) + (if r.More? then Packets(fd, Parse(2, buffer)) else [])
      ensures OnlyFd(old(hash), hash, fd)
    {
      RestIncomplete(2, buffer);
      RestSaved(hash, fd, Rest(2, buffer));
      if |buffer| == 1 {
        SaveUncomplete(Uncomplete(fd, -1, buffer[0], 0, []));
        return Nothing;
      }
      var packSize := SizeOf(2, buffer);
      if |buffer| - 2 < packSize {
        SaveUncomplete(RecordOf(fd, buffer));
        return Nothing;
      }
      ParseFirst(2, buffer, packSize);
      if |buffer| - 2 == packSize {
        ParseNone(2, []);
        assert buffer[2..2 + packSize] == buffer[2..] && buffer[2 + packSize..] == [];
        return Data(fd, buffer[2..]);
      }
      PushBoth(fd, buffer[2..2 + packSize], buffer[2 + packSize..]);
      r := More;
    }

    /** close_uncomplete. */
    method Close(fd: int)
      requires Valid()
      modifies this`hash
      ensures Valid() && contents == old(contents)
      ensures HeldFor(hash, fd) == [] && OnlyFd(old(hash), hash, fd)
    {
      var _ := FindUncomplete(fd);
    }

    /** lpop. */
    method Pop() returns (p: Option<Packet>)
      requires Valid()
      modifies this`head, this`contents
      ensures Valid() && hash == old(hash)
      ensures old(contents) == [] ==> p.None? && contents == []
      ensures old(contents) != [] ==> p == Some(old(contents)[0]) && contents == old(contents)[1..]
    {
      if head == tail {
        return None;
      }
      p := Some(queue[head]);
      assert contents[0] == queue[Slot(head, 0, cap)];
      head := head + 1;
      if head >= cap {
        head := 0;
      }
      contents := contents[1..];
    }

    /** The consumer's loop over lpop. */
    method Drain() returns (out: seq<Packet>)
      requires Valid()
      modifies this`head, this`contents
      ensures Valid() && contents == [] && hash == old(hash) && out == old(contents)
    {
      out := [];
      var p := Pop();
      while p.Some?
        invariant Valid() && hash == old(hash)
        invariant p.None? ==> out == old(contents) && contents == []
        invariant p.Some? ==> out + [p.value] + contents == old(contents)
        decreases p.Some?, |contents|
      {
        out := out + [p.value];
        p := Pop();
      }
    }

    /** One data message and what the consumer makes of the result: a "more"
        result drains the queue. */
    method Receive(fd: int, chunk: seq<byte>) returns (out: seq<Packet>)
      requires Valid() && contents == [] && |chunk| > 0
      modifies this, queue
      ensures Valid() && contents == [] && (queue == old(queue) || fresh(queue))
      ensures out == Packets(fd, Parse(2, HeldFor(old(hash), fd) + chunk))
      ensures HeldFor(hash, fd) == Rest(2, HeldFor(old(hash), fd) + chunk)
      ensures OnlyFd(old(hash), hash, fd)
    {
      var r := FilterData(fd, chunk);
      match r
      case Nothing => out := [];
      case Data(id, data) =>
        PacketsCons(fd, data, []);
        assert [data] + [] == [data];
        out := [Packet(id, data)];
      case More => out := Drain();
    }
  }

  // ------------------------------------------------------------ whole runs

  datatype Event = Chunk(fd: int, bytes: seq<byte>) | Closed(fd: int)

  /** Non-empty chunks: the socket layer never reports empty data. */
  ghost predicate ValidEvents(es: seq<Event>) {
    forall i :: 0 <= i < |es| && es[i].Chunk? ==> |es[i].bytes| > 0
  }

  /** Everything socket `fd` received. */
  function Stream(es: seq<Event>, fd: int): seq<byte> {
    if es == [] then []
    else
      var e := es[|es| - 1];
      Stream(es[..|es| - 1], fd) + (if e.Chunk? && e.fd == fd then e.bytes else [])
  }

  /** Everything socket `fd` received since it was last closed. */
  function SinceClose(es: seq<Event>, fd: int): seq<byte> {
    if es == [] then []
    else
      var e := es[|es| - 1];
      if e.fd != fd then SinceClose(es[..|es| - 1], fd)
      else if e.Closed? then []
      else SinceClose(es[..|es| - 1], fd) + e.bytes
  }

  /** The packets of the connections of `fd` that were closed, each the parse
      of what that connection received. */
  function OfClosed(es: seq<Event>, fd: int): seq<seq<byte>> {
    if es == [] then []
    else
      var before := es[..|es| - 1];
      if es[|es| - 1] == Closed(fd) then OfClosed(before, fd) + Parse(2, SinceClose(before, fd))
      else OfClosed(before, fd)
  }

  /** What was emitted for socket `fd`. */
  function Emitted(out: seq<Packet>, fd: int): seq<seq<byte>> {
    if out == [] then []
    else
      var p := out[|out| - 1];
      Emitted(out[..|out| - 1], fd) + (if p.id == fd then [p.data] else [])
  }

  lemma {:induction false} EmittedAppend(a: seq<Packet>, b: seq<Packet>, fd: int)
    ensures Emitted(a + b, fd) == Emitted(a, fd) + Emitted(b, fd)
  {
    if b == [] {
      assert a + b == a;
    } else {
      var n := |b| - 1;
      EmittedAppend(a, b[..n], fd);
      assert (a + b)[..|a + b| - 1] == a + b[..n];
    }
  }

  lemma {:induction false} EmittedPackets(id: int, bodies: seq<seq<byte>>, fd: int)
    ensures Emitted(Packets(id, bodies), fd) == if id == fd then bodies else []
  {
    if bodies != [] {
      var first := [Packet(id, bodies[0])];
      EmittedAppend(first, Packets(id, bodies[1..]), fd);
      assert first[..0] == [];
      EmittedPackets(id, bodies[1..], fd);
      assert bodies == [bodies[0]] + bodies[1..];
    }
  }

  /** The table and the output are right for socket `fd` after the events `es`. */
  ghost predicate Tracks(hash: seq<seq<Uncomplete>>, out: seq<Packet>, es: seq<Event>, fd: int) {
    && |hash| == HASHSIZE
    && Emitted(out, fd) == OfClosed(es, fd) + Parse(2, SinceClose(es, fd))
    && HeldFor(hash, fd) == Rest(2, SinceClose(es, fd))
  }

  ghost predicate AllTrack(hash: seq<seq<Uncomplete>>, out: seq<Packet>, es: seq<Event>) {
    |hash| == HASHSIZE && forall fd :: Tracks(hash, out, es, fd)
  }

  /** For every interleaving of chunks and closes of any number of sockets, the
      packets emitted for a socket are, connection after connection, the parse of
      all the bytes of that connection; what is pending is the incomplete rest. */
  method Run(q: Queue, es: seq<Event>) returns (out: seq<Packet>)
    requires q.Valid() && q.contents == [] && ValidEvents(es)
    requires forall fd :: HeldFor(q.hash, fd) == []
    modifies q, q.queue
    ensures q.Valid() && q.contents == []
    ensures forall fd :: Emitted(out, fd) == OfClosed(es, fd) + Parse(2, SinceClose(es, fd))
    ensures forall fd :: HeldFor(q.hash, fd) == Rest(2, SinceClose(es, fd))
  {
    out := [];
    TracksStart(q.hash);
    for i := 0 to |es|
      invariant q.Valid() && q.contents == [] && (q.queue == old(q.queue) || fresh(q.queue))
      invariant AllTrack(q.hash, out, es[..i])
    {
      out := RunOne(q, out, es[..i], es[i]);
      assert es[..i] + [es[i]] == es[..i + 1];
    }
    assert es[..|es|] == es;
    TracksEnd(q.hash, out, es);
  }

  method RunOne(q: Queue, sent: seq<Packet>, ghost es: seq<Event>, e: Event) returns (out: seq<Packet>)
    requires q.Valid() && q.contents == [] && (e.Chunk? ==> |e.bytes| > 0)
    requires AllTrack(q.hash, sent, es)
    modifies q, q.queue
    ensures q.Valid() && q.contents == [] && (q.queue == old(q.queue) || fresh(q.queue))
    ensures AllTrack(q.hash, out, es + [e])
  {
    ghost var hash := q.hash;
    match e
    case Chunk(fd, bytes) =>
      var ps := q.Receive(fd, bytes);
      out := sent + ps;
      TracksChunk(hash, q.hash, sent, es, fd, bytes);
    case Closed(fd) =>
      q.Close(fd);
      out := sent;
      TracksClosed(hash, q.hash, sent, es, fd);
  }

  lemma TracksChunk(hash: seq<seq<Uncomplete>>, hash': seq<seq<Uncomplete>>, out: seq<Packet>,
                    es: seq<Event>, fd: int, bytes: seq<byte>)
    requires AllTrack(hash, out, es) && |hash'| == HASHSIZE && OnlyFd(hash, hash', fd)
    requires HeldFor(hash', fd) == Rest(2, HeldFor(hash, fd) + bytes)
    ensures AllTrack(hash', out + Packets(fd, Parse(2, HeldFor(hash, fd) + bytes)), es + [Chunk(fd, bytes)])
  {
    var es' := es + [Chunk(fd, bytes)];
    assert es'[..|es'| - 1] == es;
    assert Tracks(hash, out, es, fd);
    forall g ensures Tracks(hash', out + Packets(fd, Parse(2, HeldFor(hash, fd) + bytes)), es', g) {
      assert Tracks(hash, out, es, g);
      ChunkStep(es', out, g);
    }
  }

  lemma TracksClosed(hash: seq<seq<Uncomplete>>, hash': seq<seq<Uncomplete>>, out: seq<Packet>,
                     es: seq<Event>, fd: int)
    requires AllTrack(hash, out, es) && |hash'| == HASHSIZE && OnlyFd(hash, hash', fd)
    requires HeldFor(hash', fd) == []
    ensures AllTrack(hash', out, es + [Closed(fd)])
  {
    var es' := es + [Closed(fd)];
    assert es'[..|es'| - 1] == es;
    forall g ensures Tracks(hash', out, es', g) {
      assert Tracks(hash, out, es, g);
      CloseStep(es', g);
    }
  }

  lemma TracksStart(hash: seq<seq<Uncomplete>>)
    requires |hash| == HASHSIZE && forall fd :: HeldFor(hash, fd) == []
    ensures AllTrack(hash, [], [])
  {
    ParseNone(2, []);
  }

  lemma TracksEnd(hash: seq<seq<Uncomplete>>, out: seq<Packet>, es: seq<Event>)
    requires AllTrack(hash, out, es)
    ensures forall fd :: Emitted(out, fd) == OfClosed(es, fd) + Parse(2, SinceClose(es, fd))
    ensures forall fd :: HeldFor(hash, fd) == Rest(2, SinceClose(es, fd))
  {
    forall fd
      ensures Emitted(out, fd) == OfClosed(es, fd) + Parse(2, SinceClose(es, fd))
      ensures HeldFor(hash, fd) == Rest(2, SinceClose(es, fd))
    {
      assert Tracks(hash, out, es, fd);
    }
  }

  lemma CloseStep(es: seq<Event>, g: int)
    requires |es| > 0 && es[|es| - 1].Closed?
    ensures var before, fd := es[..|es| - 1], es[|es| - 1].fd;
            && OfClosed(es, g) + Parse(2, SinceClose(es, g)) == OfClosed(before, g) + Parse(2, SinceClose(before, g))
            && Rest(2, SinceClose(es, g)) == if g == fd then [] else Rest(2, SinceClose(before, g))
  {
    ParseNone(2, []);
  }

  /** One more chunk extends the parse of its socket and of no other. */
  lemma ChunkStep(es: seq<Event>, out: seq<Packet>, g: int)
    requires |es| > 0 && es[|es| - 1].Chunk?
    requires var before := es[..|es| - 1];
             Emitted(out, g) == OfClosed(before, g) + Parse(2, SinceClose(before, g))
    ensures var before, e := es[..|es| - 1], es[|es| - 1];
            var ps := Packets(e.fd, Parse(2, Rest(2, SinceClose(before, e.fd)) + e.bytes));
            && Emitted(out + ps, g) == OfClosed(es, g) + Parse(2, SinceClose(es, g))
            && Rest(2, SinceClose(es, g))
               == if g == e.fd then Rest(2, Rest(2, SinceClose(before, g)) + e.bytes)
                 else Rest(2, SinceClose(before, g))
  {
    var before, e := es[..|es| - 1], es[|es| - 1];
    var since := SinceClose(before, e.fd);
    var bodies := Parse(2, Rest(2, since) + e.bytes);
    EmittedAppend(out, Packets(e.fd, bodies), g);
    EmittedPackets(e.fd, bodies, g);
    assert OfClosed(es, g) == OfClosed(before, g);
    if g == e.fd {
      assert SinceClose(es, g) == since + e.bytes;
      ChunkParse(since, e.bytes, OfClosed(before, g));
    } else {
      assert SinceClose(es, g) == SinceClose(before, g);
    }
  }

  lemma ChunkParse(since: seq<byte>, chunk: seq<byte>, closed: seq<seq<byte>>)
    ensures closed + Parse(2, since) + Parse(2, Rest(2, since) + chunk) == closed + Parse(2, since + chunk)
    ensures Rest(2, since + chunk) == Rest(2, Rest(2, since) + chunk)
  {
    ParseAppend(2, since, chunk);
    var p, q := Parse(2, since), Parse(2, Rest(2, since) + chunk);
    assert closed + p + q == closed + (p + q);
  }

  /** For a socket that is not closed, that is the parse of its whole stream. */
  lemma {:induction false} NeverClosed(es: seq<Event>, fd: int)
    requires Closed(fd) !in es
    ensures SinceClose(es, fd) == Stream(es, fd) && OfClosed(es, fd) == []
  {
    if es != [] {
      NeverClosed(es[..|es| - 1], fd);
    }
  }

  // ------------------------------------------------------------ packing

  /** lpack. */
  function Pack(data: seq<byte>): Result<seq<byte>> {
    if |data| >= 0x10000 then Error("Invalid size (too long) of data")
    else Ok([(|data| / 256) % 256, |data| % 256] + data)
  }

  /** Two bytes with the length, the high one first, and the data; longer data is refused. */
  lemma PackIsFrame(data: seq<byte>)
    ensures Pack(data).Ok? <==> |data| < 0x10000
    ensures Pack(data).Ok? ==>
      var p := Pack(data).value;
      p == Frame(2, data) && |p| == 2 + |data| && 0x100 * p[0] as nat + p[1] as nat == |data| && p[2..] == data
  {
  }

  /** Packets that fit are what the other side's netpack emits for the socket
      they were sent on, however the byte stream is cut into chunks. */
  lemma PackedStreamIsParsed(es: seq<Event>, fd: int, bodies: seq<seq<byte>>)
    requires Closed(fd) !in es && Stream(es, fd) == Frames(2, bodies)
    requires forall i :: 0 <= i < |bodies| ==> Pack(bodies[i]).Ok?
    ensures OfClosed(es, fd) + Parse(2, SinceClose(es, fd)) == bodies
    ensures Rest(2, SinceClose(es, fd)) == []
  {
    NeverClosed(es, fd);
    PowValues();
    ParseFrames(2, bodies);
  }
}
