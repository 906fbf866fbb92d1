/** The receive buffers of lua-socket.c. */
module SocketBuffer {
  import opened Wrappers
  import opened Bytes
  import opened BlockPool
  import opened Chains

  function Shift(x: nat, k: nat): (r: nat)
    ensures x > 0 ==> r > 0
    decreases k
  {
    if k == 0 then x else Shift(2 * x, k - 1)
  }

  /** lpushbuffer: the pool's pages double up to 4096 nodes. */
  method PushBuffer(p: Pool, b: nat, msg: seq<byte>) returns (size: nat)
    requires p.Valid() && b < |p.data| && msg != []
    modifies p
    ensures p.Valid() && SameBut(p.data, old(p.data), b) && p.data[b] == old(p.data[b]) + msg && size == |p.data[b]|
  {
    var tsz := p.pages + 1;
    size := p.Push(b, msg, if tsz <= 9 then Shift(8, tsz) else Shift(8, 9));
  }

  /** How many of the next `taken` bytes are before the last `skip` of `left`. */
  function Wanted(left: nat, skip: nat, taken: nat): (n: nat)
    ensures n <= taken
  {
    if left <= skip then 0 else if left - skip < taken then left - skip else taken
  }

  lemma PieceFits(d: seq<byte>, sz: nat, skip: nat, left: nat, taken: nat, t: seq<byte>)
    requires 0 < taken <= left <= sz <= |d| && skip <= sz && Suffix(d, sz - left, t)
    ensures d[..Wanted(sz, skip, sz - left)] + t[..Wanted(left, skip, taken)] ==
      d[..Wanted(sz, skip, sz - left + taken)]
    ensures Suffix(d, sz - left + taken, t[taken..])
  {
  }

  /** One round of the loop of pop_lstring: the next block, or the part of it that
      is wanted. */
  method PopOne(p: Pool, b: nat, left: nat, skip: nat) returns (piece: seq<byte>, taken: nat)
    requires p.Reading(b) && 0 < left <= |p.data[b]|
    modifies p`lists, p`data, p`nodes, p`free, p`bufs
    ensures p.Reading(b) && |p.bufs| == |old(p.bufs)| && p.bufs[b].size == old(p.bufs[b].size)
    ensures 0 < taken <= left && p.data[b] == old(p.data[b])[taken..] && SameBut(p.data, old(p.data), b)
    ensures piece == old(p.data[b])[..Wanted(left, skip, taken)]
  {
    p.Front(b);
    var current, at := p.bufs[b].head, p.bufs[b].offset;
    var bytes := |p.nodes[current].msg| - at;
    taken := if bytes >= left then left else bytes;
    piece := p.nodes[current].msg[at..at + Wanted(left, skip, taken)];
    if bytes >= left {
      p.TakePart(b, left);
    } else {
      p.TakeBlock(b);
    }
  }

  /** Of the bytes that are popped `left` are still to come, and `s` has the others. */
  ghost predicate Popping(data: seq<seq<byte>>, bufs: seq<Buffer>, data0: seq<seq<byte>>, bufs0: seq<Buffer>,
                          b: nat, sz: nat, skip: nat, left: nat, s: seq<byte>)
  {
    && b < |data| == |data0| && b < |bufs| == |bufs0| && bufs[b].size == bufs0[b].size
    && skip <= sz <= |data0[b]| && left <= sz && |data[b]| == |data0[b]| - (sz - left)
    && Suffix(data0[b], sz - left, data[b]) && SameBut(data, data0, b)
    && s == data0[b][..Wanted(sz, skip, sz - left)]
  }

  lemma PoppingNext(data: seq<seq<byte>>, bufs: seq<Buffer>, data': seq<seq<byte>>, bufs': seq<Buffer>,
                    data0: seq<seq<byte>>, bufs0: seq<Buffer>,
                    b: nat, sz: nat, skip: nat, left: nat, taken: nat, s: seq<byte>, piece: seq<byte>)
    requires Popping(data, bufs, data0, bufs0, b, sz, skip, left, s) && 0 < taken <= left
    requires |bufs'| == |bufs| && bufs'[b].size == bufs[b].size && SameBut(data', data, b)
    requires data'[b] == data[b][taken..] && piece == data[b][..Wanted(left, skip, taken)]
    ensures Popping(data', bufs', data0, bufs0, b, sz, skip, left - taken, s + piece)
  {
    PieceFits(data0[b], sz, skip, left, taken, data[b]);
  }

  method PopRound(p: Pool, b: nat, ghost sz: nat, left: nat, skip: nat, s: seq<byte>,
                  ghost data0: seq<seq<byte>>, ghost bufs0: seq<Buffer>)
    returns (s': seq<byte>, left': nat)
    requires p.Reading(b) && left > 0 && Popping(p.data, p.bufs, data0, bufs0, b, sz, skip, left, s)
    modifies p`lists, p`data, p`nodes, p`free, p`bufs
    ensures p.Reading(b) && left' < left && Popping(p.data, p.bufs, data0, bufs0, b, sz, skip, left', s')
  {
    ghost var data, bufs := p.data, p.bufs;
    var piece, taken := PopOne(p, b, left, skip);
    PoppingNext(data, bufs, p.data, p.bufs, data0, bufs0, b, sz, skip, left, taken, s, piece);
    s', left' := s + piece, left - taken;
  }

  lemma PoppingStart(data: seq<seq<byte>>, bufs: seq<Buffer>, b: nat, sz: nat, skip: nat)
    requires b < |data| && b < |bufs| && skip <= sz <= |data[b]|
    ensures Popping(data, bufs, data, bufs, b, sz, skip, sz, [])
  {
  }

  lemma PoppingEnd(data: seq<seq<byte>>, bufs: seq<Buffer>, data0: seq<seq<byte>>, bufs0: seq<Buffer>,
                   b: nat, sz: nat, skip: nat, s: seq<byte>)
    requires Popping(data, bufs, data0, bufs0, b, sz, skip, 0, s)
    ensures data[b] == data0[b][sz..] && s == data0[b][..sz - skip] && SameBut(data, data0, b)
  {
    SuffixIs(data0[b], sz, data[b]);
  }

  /** The loop of pop_lstring over several blocks. */
  method PopBlocks(p: Pool, b: nat, sz: nat, skip: nat) returns (s: seq<byte>)
    requires p.Reading(b) && skip <= sz <= |p.data[b]| && sz > 0
    modifies p`lists, p`data, p`nodes, p`free, p`bufs
    ensures p.Reading(b) && Popping(p.data, p.bufs, old(p.data), old(p.bufs), b, sz, skip, 0, s)
  {
    s := [];
    var left := sz;
    ghost var data0, bufs0 := p.data, p.bufs;
    PoppingStart(data0, bufs0, b, sz, skip);
    while left > 0
      invariant p.Reading(b) && Popping(p.data, p.bufs, data0, bufs0, b, sz, skip, left, s)
    {
      s, left := PopRound(p, b, sz, left, skip, s, data0, bufs0);
    }
  }

  /** pop_lstring: the first `sz` bytes leave the buffer, and are returned
      without the last `skip`. */
  method PopString(p: Pool, b: nat, sz: nat, skip: nat) returns (s: seq<byte>)
    requires p.Reading(b) && p.data[b] != [] && skip <= sz <= |p.data[b]|
    modifies p`lists, p`data, p`nodes, p`free, p`bufs
    ensures p.Reading(b) && |p.bufs| == |old(p.bufs)| && p.bufs[b].size == old(p.bufs[b].size)
    ensures p.data[b] == old(p.data[b])[sz..] && SameBut(p.data, old(p.data), b)
    ensures s == old(p.data[b])[..sz - skip]
  {
    p.Front(b);
    var current, at := p.bufs[b].head, p.bufs[b].offset;
    if sz < |p.nodes[current].msg| - at {
      s := p.nodes[current].msg[at..at + sz - skip];
      p.TakePart(b, sz);
      return;
    }
    if sz == |p.nodes[current].msg| - at {
      s := p.nodes[current].msg[at..at + sz - skip];
      p.TakeBlock(b);
      return;
    }
    ghost var data0, bufs0 := p.data, p.bufs;
    s := PopBlocks(p, b, sz, skip);
    PoppingEnd(p.data, p.bufs, data0, bufs0, b, sz, skip, s);
  }

  /** What lpopbuffer does: it returns nil or a string, Lua refuses a string with a size
      that has wrapped, or the first block of a buffer without blocks is used. */
  datatype Popped = NoText | Popped(s: seq<byte>) | TooLong | NoBlock

  /** lpopbuffer.  A negative size passes its test; then it stays inside the buffer
      exactly when there is a block, and ends in an error that changes nothing. */
  method Pop(p: Pool, b: nat, sz: int) returns (r: Popped, size: nat)
    requires p.Valid() && b < |p.data|
    modifies p`lists, p`data, p`nodes, p`free, p`bufs
    ensures p.Valid() && SameBut(p.data, old(p.data), b) && size == |p.data[b]|
    ensures r.NoBlock? <==> sz < 0 && old(p.data[b]) == []
    ensures r.TooLong? <==> sz < 0 && old(p.data[b]) != []
    ensures r.NoText? <==> sz == 0 || sz > |old(p.data[b])|
    ensures !r.Popped? ==> p.data[b] == old(p.data[b])
    ensures r.Popped? ==> r.s == old(p.data[b])[..sz] && p.data[b] == old(p.data[b])[sz..]
  {
    p.StartReading(b);
    size := p.bufs[b].size;
    if size < sz || sz == 0 {
      return NoText, size;
    }
    if sz < 0 {
      r := NegativePop(p, b);
      return;
    }
    var s := PopString(p, b, sz, 0);
    r := Popped(s);
    size := size - sz;
    p.Resize(b, size);
  }

  /** pop_lstring with a negative size. */
  method NegativePop(p: Pool, b: nat) returns (r: Popped)
    requires p.Reading(b)
    ensures r == if p.data[b] == [] then NoBlock else TooLong
  {
    if p.bufs[b].head == NULL {
      p.Empty(b);
      r := NoBlock;
    } else {
      p.NotEmpty(b);
      r := TooLong;
    }
  }

  /** lclearbuffer. */
  method ClearBuffer(p: Pool, b: nat)
    requires p.Valid() && b < |p.data|
    modifies p`lists, p`data, p`nodes, p`free, p`bufs
    ensures p.Valid() && SameBut(p.data, old(p.data), b) && p.data[b] == []
  {
    p.Clear(b);
  }

  /** One round of the loop of lreadall. */
  method NextPiece(p: Pool, b: nat) returns (piece: seq<byte>)
    requires p.Reading(b) && p.bufs[b].head != NULL
    modifies p`lists, p`data, p`nodes, p`free, p`bufs
    ensures p.Reading(b) && |p.bufs| == |old(p.bufs)| && SameBut(p.data, old(p.data), b)
    ensures piece != [] && old(p.data[b]) == piece + p.data[b]
  {
    p.NotEmpty(b);
    p.Front(b);
    var current, at := p.bufs[b].head, p.bufs[b].offset;
    piece := p.nodes[current].msg[at..];
    ghost var d, n := p.data[b], |piece|;
    assert p.nodes[current].msg[at..at + n] == piece;
    p.TakeBlock(b);
    TakeDrop(d, n);
  }

  /** lreadall. */
  method ReadAll(p: Pool, b: nat) returns (s: seq<byte>)
    requires p.Valid() && b < |p.data|
    modifies p`lists, p`data, p`nodes, p`free, p`bufs
    ensures p.Valid() && SameBut(p.data, old(p.data), b) && p.data[b] == [] && s == old(p.data[b])
  {
    p.StartReading(b);
    s := [];
    ghost var d := p.data[b];
    while p.bufs[b].head != NULL
      invariant p.Reading(b) && |p.bufs| == |old(p.bufs)| && SameBut(p.data, old(p.data), b) && s + p.data[b] == d
      decreases |p.data[b]|
    {
      var piece := NextPiece(p, b);
      Assoc(s, piece, p.data[b]);
      s := s + piece;
    }
    p.Empty(b);
    p.Resize(b, 0);
  }

  // ------------------------------------------------------------ lines

  datatype Line = NoLine | Found | Line(text: seq<byte>)

  predicate Occurs(d: seq<byte>, sep: seq<byte>, i: nat) {
    i + |sep| <= |d| && d[i..i + |sep|] == sep
  }

  ghost predicate NoneBefore(d: seq<byte>, sep: seq<byte>, i: nat) {
    forall j :: 0 <= j < i ==> !Occurs(d, sep, j)
  }

  lemma OccursHere(d: seq<byte>, i: nat, t: seq<byte>, sep: seq<byte>)
    requires Suffix(d, i, t) && |sep| <= |t|
    ensures t[..|sep|] == sep <==> Occurs(d, sep, i)
  {
    assert forall j :: 0 <= j < |sep| ==> d[i..i + |sep|][j] == t[j];
    assert t[..|sep|] == d[i..i + |sep|];
  }

  lemma NoneAtEnd(d: seq<byte>, sep: seq<byte>, i: nat)
    requires NoneBefore(d, sep, i) && i + |sep| > |d|
    ensures NoneBefore(d, sep, |d| + 1)
  {
  }

  /** A place in a buffer: the blocks from `current`, at offset `from` of the first. */
  ghost predicate Blocks(nodes: seq<Node>, owner: seq<int>, b: nat, list: seq<nat>, current: int, from: nat) {
    && Linked(nodes, owner, b, list, current)
    && (forall i :: 0 <= i < |list| ==> nodes[list[i]].msg != [])
    && (list != [] ==> from <= |nodes[list[0]].msg|)
  }

  lemma NextBlock(nodes: seq<Node>, owner: seq<int>, b: nat, list: seq<nat>, current: int, from: nat)
    requires Blocks(nodes, owner, b, list, current, from) && list != []
    ensures 0 <= current < |nodes| && Blocks(nodes, owner, b, list[1..], nodes[current].next, 0)
    ensures Stream(nodes, list, from) == nodes[current].msg[from..] + Stream(nodes, list[1..], 0)
  {
    LinkedTail(nodes, owner, b, list, current);
    FromStart(nodes, list[1..]);
    forall i | 0 <= i < |list[1..]| ensures nodes[list[1..][i]].msg != [] {
      assert list[1..][i] == list[i + 1];
    }
  }

  /** The blocks of a place start with `sep`. */
  ghost predicate HasSep(nodes: seq<Node>, owner: seq<int>, b: nat, list: seq<nat>, current: int, from: nat,
                         sep: seq<byte>) {
    && list != [] && Blocks(nodes, owner, b, list, current, from)
    && |sep| <= |Stream(nodes, list, from)| && Stream(nodes, list, from)[..|sep|] == sep
  }

  /** Comparing within one block, or with all of it first. */
  lemma InBlock(nodes: seq<Node>, owner: seq<int>, b: nat, list: seq<nat>, current: int, from: nat, sep: seq<byte>)
    requires list != [] && Blocks(nodes, owner, b, list, current, from) && |sep| <= |Stream(nodes, list, from)|
    ensures 0 <= current < |nodes| && from <= |nodes[current].msg|
    ensures var m := nodes[current].msg; var sz := |m| - from;
            && (sz >= |sep| ==> (HasSep(nodes, owner, b, list, current, from, sep) <==> m[from..from + |sep|] == sep))
            && (sz < |sep| ==>
                  && list[1..] != [] && Blocks(nodes, owner, b, list[1..], nodes[current].next, 0)
                  && |sep| - sz <= |Stream(nodes, list[1..], 0)|
                  && (HasSep(nodes, owner, b, list, current, from, sep) <==>
                        m[from..] == sep[..sz]
                          && HasSep(nodes, owner, b, list[1..], nodes[current].next, 0, sep[sz..])))
  {
    NextBlock(nodes, owner, b, list, current, from);
    var m, more := nodes[current].msg, Stream(nodes, list[1..], 0);
    if |m| - from >= |sep| {
      SkipIn(m, from, |sep|, more);
    } else {
      Prefixes(m[from..], more, sep);
    }
  }

  lemma Prefixes(a: seq<byte>, t: seq<byte>, sep: seq<byte>)
    requires |a| < |sep| <= |a + t|
    ensures (a + t)[..|sep|] == sep <==> a == sep[..|a|] && t[..|sep| - |a|] == sep[|a|..]
  {
    assert (a + t)[..|sep|] == a + t[..|sep| - |a|];
    assert sep == sep[..|a|] + sep[|a|..];
  }

  /** check_sep: whether the separator is at this place, across blocks. */
  method CheckSep(nodes: seq<Node>, ghost owner: seq<int>, ghost b: nat, ghost list: seq<nat>, node: int, from: nat,
                  sep: seq<byte>) returns (r: bool)
    requires list != [] && Blocks(nodes, owner, b, list, node, from) && |sep| <= |Stream(nodes, list, from)|
    ensures r <==> HasSep(nodes, owner, b, list, node, from, sep)
  {
    var current, at: nat, rest := node, from, sep;
    ghost var here := list;
    while true
      invariant here != [] && Blocks(nodes, owner, b, here, current, at) && |rest| <= |Stream(nodes, here, at)|
      invariant HasSep(nodes, owner, b, list, node, from, sep) <==> HasSep(nodes, owner, b, here, current, at, rest)
      decreases |here|
    {
      var sz := |nodes[current].msg| - at;
      InBlock(nodes, owner, b, here, current, at, rest);
      if sz >= |rest| {
        return nodes[current].msg[at..at + |rest|] == rest;
      }
      if nodes[current].msg[at..] != rest[..sz] {
        return false;
      }
      here, current, at, rest := here[1..], nodes[current].next, 0, rest[sz..];
    }
  }

  /** The place one byte further on, in the next block when this one is used up. */
  lemma Move(nodes: seq<Node>, owner: seq<int>, b: nat, list: seq<nat>, current: int, from: nat)
    requires Blocks(nodes, owner, b, list, current, from) && list != [] && from < |nodes[list[0]].msg|
    ensures 0 <= current < |nodes| && current == list[0]
    ensures Blocks(nodes, owner, b, list, current, from + 1)
    ensures Stream(nodes, list, from) == [nodes[current].msg[from]] + Stream(nodes, list, from + 1)
    ensures from + 1 == |nodes[current].msg| ==>
      && Blocks(nodes, owner, b, list[1..], nodes[current].next, 0)
      && Stream(nodes, list, from) == [nodes[current].msg[from]] + Stream(nodes, list[1..], 0)
      && (nodes[current].next == NULL <==> list[1..] == [])
      && (list[1..] != [] ==> nodes[current].next == list[1..][0] && nodes[list[1..][0]].msg != [])
  {
    var m := nodes[current].msg;
    OneByte(m, from, Text(nodes, list[1..]));
    if from + 1 == |m| {
      NextBlock(nodes, owner, b, list, current, from + 1);
      FromStart(nodes, list[1..]);
    }
  }

  lemma OneByte(m: seq<byte>, from: nat, rest: seq<byte>)
    requires from < |m|
    ensures m[from..] + rest == [m[from]] + (m[from + 1..] + rest)
    ensures from + 1 == |m| ==> m[from..] + rest == [m[from]] + rest
  {
  }

  /** A place with a byte to read, after `i` bytes of `d`. */
  ghost predicate Place(nodes: seq<Node>, owner: seq<int>, b: nat, list: seq<nat>, current: int, from: nat,
                        d: seq<byte>, i: nat) {
    && list != [] && Blocks(nodes, owner, b, list, current, from) && from < |nodes[current].msg|
    && Suffix(d, i, Stream(nodes, list, from))
  }

  lemma PlaceStart(nodes: seq<Node>, owner: seq<int>, b: nat, list: seq<nat>, current: int, from: nat, d: seq<byte>)
    requires list != [] && Blocks(nodes, owner, b, list, current, from) && from < |nodes[current].msg|
    requires d == Stream(nodes, list, from)
    ensures Place(nodes, owner, b, list, current, from, d, 0)
  {
  }

  lemma SuffixNext(d: seq<byte>, i: nat, x: byte, t: seq<byte>)
    requires Suffix(d, i, [x] + t)
    ensures Suffix(d, i + 1, t)
  {
    forall j | 0 <= j < |t| ensures t[j] == d[i + 1 + j] {
      assert ([x] + t)[j + 1] == t[j];
    }
  }

  lemma MovePlace(nodes: seq<Node>, owner: seq<int>, b: nat, list: seq<nat>, current: int, from: nat, d: seq<byte>,
                  i: nat)
    requires Place(nodes, owner, b, list, current, from, d, i)
    ensures if from + 1 < |nodes[current].msg| then Place(nodes, owner, b, list, current, from + 1, d, i + 1)
            else if nodes[current].next == NULL then |d| == i + 1
            else Place(nodes, owner, b, list[1..], nodes[current].next, 0, d, i + 1)
  {
    Move(nodes, owner, b, list, current, from);
    var x := nodes[current].msg[from];
    if from + 1 < |nodes[current].msg| {
      SuffixNext(d, i, x, Stream(nodes, list, from + 1));
    } else {
      SuffixNext(d, i, x, Stream(nodes, list[1..], 0));
    }
  }

  method SepHere(nodes: seq<Node>, ghost owner: seq<int>, ghost b: nat, ghost list: seq<nat>, current: int, from: nat,
                 ghost d: seq<byte>, ghost i: nat, sep: seq<byte>) returns (r: bool)
    requires Place(nodes, owner, b, list, current, from, d, i) && i + |sep| <= |d|
    ensures r <==> Occurs(d, sep, i)
  {
    r := CheckSep(nodes, owner, b, list, current, from, sep);
    OccursHere(d, i, Stream(nodes, list, from), sep);
  }

  /** The step of the loop of lreadline to the next byte. */
  method NextByte(nodes: seq<Node>, ghost owner: seq<int>, ghost b: nat, ghost list: seq<nat>, current: int,
                  from: nat, bytes: nat, ghost d: seq<byte>, ghost i: nat)
    returns (current': int, from': nat, bytes': nat, ghost list': seq<nat>)
    requires Place(nodes, owner, b, list, current, from, d, i) && bytes == |nodes[current].msg| - from
    ensures current' == NULL ==> |d| == i + 1
    ensures current' != NULL ==>
      Place(nodes, owner, b, list', current', from', d, i + 1) && bytes' == |nodes[current'].msg| - from'
  {
    MovePlace(nodes, owner, b, list, current, from, d, i);
    current', from', bytes', list' := current, from + 1, bytes - 1, list;
    if bytes' == 0 {
      current' := nodes[current].next;
      from', list' := 0, list[1..];
      if current' != NULL {
        bytes' := |nodes[current'].msg|;
      }
    }
  }

  /** The loop of lreadline: the first place where the separator occurs. */
  method FindSep(nodes: seq<Node>, buf: Buffer, sep: seq<byte>, ghost owner: seq<int>, ghost b: nat,
                 ghost blocks: seq<nat>, ghost d: seq<byte>)
    returns (r: Option<nat>)
    requires blocks != [] && Blocks(nodes, owner, b, blocks, buf.head, buf.offset) && buf.offset < |nodes[buf.head].msg|
    requires d == Stream(nodes, blocks, buf.offset) && buf.size == |d|
    ensures r.Some? ==> Occurs(d, sep, r.value) && NoneBefore(d, sep, r.value)
    ensures r.None? ==> NoneBefore(d, sep, |d| + 1)
  {
    ghost var list := blocks;
    PlaceStart(nodes, owner, b, blocks, buf.head, buf.offset, d);
    var current, from: nat, bytes, i := buf.head, buf.offset, |nodes[buf.head].msg| - buf.offset, 0;
    while i <= buf.size - |sep|
      invariant 0 <= i && Place(nodes, owner, b, list, current, from, d, i)
      invariant bytes == |nodes[current].msg| - from && NoneBefore(d, sep, i)
    {
      var found := SepHere(nodes, owner, b, list, current, from, d, i, sep);
      if found {
        return Some(i);
      }
      current, from, bytes, list := NextByte(nodes, owner, b, list, current, from, bytes, d, i);
      i := i + 1;
      if current == NULL {
        NoneAtEnd(d, sep, i);
        return None;
      }
    }
    NoneAtEnd(d, sep, i);
    r := None;
  }

  /** The search of lreadline in the blocks of `b`. */
  method FindLine(p: Pool, b: nat, sep: seq<byte>) returns (at: Option<nat>)
    requires p.Reading(b) && p.bufs[b].head != NULL && p.bufs[b].size == |p.data[b]|
    ensures p.data[b] != []
    ensures at.Some? ==> Occurs(p.data[b], sep, at.value) && NoneBefore(p.data[b], sep, at.value)
    ensures at.None? ==> NoneBefore(p.data[b], sep, |p.data[b]| + 1)
  {
    assert HoldsAt(p.nodes, p.lists, p.bufs, p.data, b);
    assert p.data[b] != [];
    at := FindSep(p.nodes, p.bufs[b], sep, p.lists.owner, b, p.lists.chain[b], p.data[b]);
  }

  method TakeLine(p: Pool, b: nat, n: nat, skip: nat) returns (s: seq<byte>)
    requires p.Valid() && b < |p.data| && p.data[b] != [] && n + skip <= |p.data[b]|
    modifies p`lists, p`data, p`nodes, p`free, p`bufs
    ensures p.Valid() && SameBut(p.data, old(p.data), b)
    ensures s == old(p.data[b])[..n] && p.data[b] == old(p.data[b])[n + skip..]
  {
    p.StartReading(b);
    s := PopString(p, b, n + skip, skip);
    p.Resize(b, p.bufs[b].size - (n + skip));
  }

  lemma FoundSomewhere(d: seq<byte>, sep: seq<byte>, i: nat)
    requires Occurs(d, sep, i)
    ensures !NoneBefore(d, sep, |d| + 1)
  {
  }

  /** lreadline: the bytes before the first separator, which is removed with them;
      or only whether there is one. */
  method ReadLine(p: Pool, b: nat, check: bool, sep: seq<byte>) returns (line: Line)
    requires p.Valid() && b < |p.data|
    modifies p`lists, p`data, p`nodes, p`free, p`bufs
    ensures p.Valid() && SameBut(p.data, old(p.data), b)
    ensures line.NoLine? <==> old(p.data[b]) == [] || NoneBefore(old(p.data[b]), sep, |old(p.data[b])| + 1)
    ensures !line.Line? ==> p.data[b] == old(p.data[b])
    ensures line.Found? ==> check
    ensures line.Line? ==>
      && !check && Occurs(old(p.data[b]), sep, |line.text|) && NoneBefore(old(p.data[b]), sep, |line.text|)
      && line.text == old(p.data[b])[..|line.text|] && p.data[b] == old(p.data[b])[|line.text| + |sep|..]
  {
    p.StartReading(b);
    if p.bufs[b].head == NULL {
      p.Empty(b);
      return NoLine;
    }
    var at := FindLine(p, b, sep);
    if at.None? {
      return NoLine;
    }
    ghost var d := p.data[b];
    FoundSomewhere(d, sep, at.value);
    if check {
      return Found;
    }
    var s := TakeLine(p, b, at.value, |sep|);
    line := Line(s);
  }
}
