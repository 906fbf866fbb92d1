/** Buffers that are lists of received blocks, whose nodes come from one pool that
    all buffers share: the structure of both lua-socket.c and databuffer.h. */
module BlockPool {
  import opened Wrappers
  import opened Bytes
  import opened Chains

  const FREE: int := -1

  /** struct buffer_node, struct message; a free node has no message. */
  datatype Node = Node(msg: seq<byte>, next: int)

  /** struct socket_buffer, struct databuffer. */
  datatype Buffer = Buffer(size: nat, offset: nat, head: int, tail: int)

  // ------------------------------------------------------------ lists of nodes

  /** `list` is the list of nodes from `head`, all of which belong to `who`. */
  ghost predicate Linked(nodes: seq<Node>, owner: seq<int>, who: int, list: seq<nat>, head: int) {
    && |owner| == |nodes|
    && head == First(list)
    && (forall i :: 0 <= i < |list| ==> list[i] < |nodes|)
    && (forall i :: 0 <= i < |list| ==> owner[list[i]] == who)
    && (forall i :: 0 <= i < |list| ==> nodes[list[i]].next == After(list, i))
  }

  ghost predicate Distinct(list: seq<nat>) {
    list == [] || (list[0] !in list[1..] && Distinct(list[1..]))
  }

  lemma {:induction false} DistinctSnoc(list: seq<nat>, h: nat)
    requires Distinct(list) && h !in list
    ensures Distinct(list + [h])
  {
    if list == [] {
      assert (list + [h])[1..] == [];
    } else {
      DistinctSnoc(list[1..], h);
      assert (list + [h])[1..] == list[1..] + [h];
    }
  }

  lemma DistinctCons(list: seq<nat>, h: nat)
    requires Distinct(list) && h !in list
    ensures Distinct([h] + list)
  {
    assert ([h] + list)[1..] == list;
  }

  lemma {:induction false} DistinctLast(list: seq<nat>, i: nat)
    requires Distinct(list) && i + 1 < |list|
    ensures list[i] != list[|list| - 1]
  {
    if i == 0 {
      assert list[1..][|list| - 2] == list[|list| - 1];
    } else {
      DistinctLast(list[1..], i - 1);
    }
  }

  lemma {:induction false} DistinctRange(start: nat, size: nat)
    ensures Distinct(seq(size, i => start + i))
    decreases size
  {
    var list := seq(size, i => start + i);
    if size > 0 {
      DistinctRange(start + 1, size - 1);
      assert list[1..] == seq(size - 1, i => start + 1 + i);
    }
  }

  /** The bytes of a list of blocks. */
  function Text(nodes: seq<Node>, list: seq<nat>): seq<byte>
    requires forall i :: 0 <= i < |list| ==> list[i] < |nodes|
  {
    if list == [] then [] else nodes[list[0]].msg + Text(nodes, list[1..])
  }

  /** The bytes from offset `off` of the first block. */
  function Stream(nodes: seq<Node>, list: seq<nat>, off: nat): seq<byte>
    requires forall i :: 0 <= i < |list| ==> list[i] < |nodes|
    requires list != [] ==> off <= |nodes[list[0]].msg|
  {
    if list == [] then [] else nodes[list[0]].msg[off..] + Text(nodes, list[1..])
  }

  lemma {:induction false} TextSame(nodes: seq<Node>, nodes': seq<Node>, list: seq<nat>)
    requires forall i :: 0 <= i < |list| ==> list[i] < |nodes| && list[i] < |nodes'|
    requires forall i :: 0 <= i < |list| ==> nodes[list[i]].msg == nodes'[list[i]].msg
    ensures Text(nodes, list) == Text(nodes', list)
  {
    if list != [] {
      TextSame(nodes, nodes', list[1..]);
    }
  }

  lemma {:induction false} TextAppend(nodes: seq<Node>, list: seq<nat>, n: nat)
    requires forall i :: 0 <= i < |list| ==> list[i] < |nodes|
    requires n < |nodes|
    ensures Text(nodes, list + [n]) == Text(nodes, list) + nodes[n].msg
  {
    if list == [] {
      assert list + [n] == [n] && [n][1..] == [];
    } else {
      TextAppend(nodes, list[1..], n);
      assert (list + [n])[1..] == list[1..] + [n];
      Assoc(nodes[list[0]].msg, Text(nodes, list[1..]), nodes[n].msg);
    }
  }

  lemma Elsewhere(nodes: seq<Node>, owner: seq<int>, who: int, list: seq<nat>, head: int, h: nat)
    requires Linked(nodes, owner, who, list, head) && h < |nodes| && owner[h] != who
    ensures h !in list
  {
  }

  /** A list is untouched by a change to a node that is not on it. */
  lemma LinkedFrame(nodes: seq<Node>, owner: seq<int>, who: int, list: seq<nat>, head: int, h: nat, node: Node, to: int)
    requires Linked(nodes, owner, who, list, head) && h < |nodes| && h !in list
    ensures Linked(nodes[h := node], owner[h := to], who, list, head)
    ensures Text(nodes[h := node], list) == Text(nodes, list)
  {
    forall i | 0 <= i < |list| ensures list[i] != h {
    }
    TextSame(nodes, nodes[h := node], list);
  }

  lemma LinkedTail(nodes: seq<Node>, owner: seq<int>, who: int, list: seq<nat>, head: int)
    requires Linked(nodes, owner, who, list, head) && list != []
    ensures head == list[0] < |nodes|
    ensures Distinct(list) ==> list[0] !in list[1..]
    ensures Linked(nodes, owner, who, list[1..], nodes[list[0]].next)
  {
    var rest := list[1..];
    assert nodes[list[0]].next == After(list, 0);
    forall i | 0 <= i < |rest| ensures rest[i] < |nodes| && nodes[rest[i]].next == After(rest, i)
      && owner[rest[i]] == who {
      assert rest[i] == list[i + 1];
    }
  }

  // ------------------------------------------------------------ pool and buffers

  /** Where every node is: on the free list or in the list of one buffer. */
  datatype Lists = Lists(free: seq<nat>, chain: seq<seq<nat>>, owner: seq<int>)

  ghost predicate BufferOk(nodes: seq<Node>, owner: seq<int>, b: nat, list: seq<nat>, buf: Buffer) {
    && Linked(nodes, owner, b, list, buf.head)
    && buf.tail == Last(list)
    && (forall i :: 0 <= i < |list| ==> nodes[list[i]].msg != [])
    && (if list == [] then buf.offset == 0 else buf.offset <= |nodes[list[0]].msg|)
  }

  ghost predicate FreeOk(nodes: seq<Node>, free: int, ls: Lists) {
    && Linked(nodes, ls.owner, FREE, ls.free, free)
    && forall n :: 0 <= n < |nodes| && ls.owner[n] == FREE ==> nodes[n].msg == []
  }

  /** Every node is on the list of its owner. */
  ghost predicate Covered(ls: Lists) {
    forall n :: 0 <= n < |ls.owner| ==>
      FREE <= ls.owner[n] < |ls.chain| && n in if ls.owner[n] == FREE then ls.free else ls.chain[ls.owner[n]]
  }

  /** No node is twice on one list. */
  ghost predicate Apart(ls: Lists) {
    Distinct(ls.free) && forall b {:trigger Distinct(ls.chain[b])} :: 0 <= b < |ls.chain| ==> Distinct(ls.chain[b])
  }

  /** A buffer that holds the bytes `d`. */
  ghost predicate Holds(nodes: seq<Node>, owner: seq<int>, b: nat, list: seq<nat>, buf: Buffer, d: seq<byte>) {
    BufferOk(nodes, owner, b, list, buf) && d == Stream(nodes, list, buf.offset)
  }

  ghost predicate Shape(nodes: seq<Node>, free: int, bufs: seq<Buffer>, ls: Lists, data: seq<seq<byte>>) {
    && |ls.chain| == |bufs| == |data|
    && FreeOk(nodes, free, ls)
    && (forall b :: 0 <= b < |bufs| ==> HoldsAt(nodes, ls, bufs, data, b))
    && Covered(ls) && Apart(ls)
  }

  ghost predicate HoldsAt(nodes: seq<Node>, ls: Lists, bufs: seq<Buffer>, data: seq<seq<byte>>, b: nat) {
    b < |ls.chain| == |bufs| == |data| && Holds(nodes, ls.owner, b, ls.chain[b], bufs[b], data[b])
  }

  /** A buffer is untouched by a change to a node that is not its own. */
  lemma BufferFrame(nodes: seq<Node>, owner: seq<int>, b: nat, list: seq<nat>, buf: Buffer, h: nat, node: Node, to: int)
    requires BufferOk(nodes, owner, b, list, buf) && h < |nodes| && owner[h] != b
    ensures BufferOk(nodes[h := node], owner[h := to], b, list, buf)
    ensures Stream(nodes[h := node], list, buf.offset) == Stream(nodes, list, buf.offset)
  {
    Elsewhere(nodes, owner, b, list, buf.head, h);
    LinkedFrame(nodes, owner, b, list, buf.head, h, node, to);
    if list != [] {
      assert list[0] in list;
      TextSame(nodes, nodes[h := node], list[1..]);
    }
  }

  // ------------------------------------------------------------ giving back the first node

  function Released(ls: Lists, b: nat): Lists
    requires b < |ls.chain| && ls.chain[b] != [] && ls.chain[b][0] < |ls.owner|
  {
    var h := ls.chain[b][0];
    Lists([h] + ls.free, ls.chain[b := ls.chain[b][1..]], ls.owner[h := FREE])
  }

  lemma ReleaseFree(nodes: seq<Node>, free: int, ls: Lists, b: nat, h: nat)
    requires FreeOk(nodes, free, ls) && b < |ls.chain| && ls.chain[b] != [] && ls.chain[b][0] == h < |nodes|
    requires ls.owner[h] == b
    ensures FreeOk(nodes[h := Node([], free)], h, Released(ls, b))
  {
    var list := [h] + ls.free;
    forall i | 0 <= i < |ls.free| ensures ls.free[i] != h {
      assert ls.owner[ls.free[i]] == FREE;
    }
    var nodes' := nodes[h := Node([], free)];
    forall i | 0 <= i < |list| ensures nodes'[list[i]].next == After(list, i) {
      if i > 0 {
        assert nodes[ls.free[i - 1]].next == After(ls.free, i - 1);
      }
    }
  }

  function Advanced(buf: Buffer, next: int): Buffer {
    Buffer(buf.size, 0, next, if next == NULL then NULL else buf.tail)
  }

  lemma ReleaseLinked(nodes: seq<Node>, owner: seq<int>, b: nat, list: seq<nat>, buf: Buffer, node: Node)
    requires BufferOk(nodes, owner, b, list, buf) && list != [] && Distinct(list)
    ensures var h := list[0];
            && nodes[h].next == First(list[1..])
            && BufferOk(nodes[h := node], owner[h := FREE], b, list[1..], Advanced(buf, nodes[h].next))
  {
    var h, rest := list[0], list[1..];
    LinkedTail(nodes, owner, b, list, buf.head);
    LinkedFrame(nodes, owner, b, rest, nodes[h].next, h, node, FREE);
    forall i | 0 <= i < |rest| ensures nodes[h := node][rest[i]].msg != [] {
      assert rest[i] == list[i + 1] && rest[i] != h;
    }
  }

  lemma FromStart(nodes: seq<Node>, list: seq<nat>)
    requires forall i :: 0 <= i < |list| ==> list[i] < |nodes|
    ensures Stream(nodes, list, 0) == Text(nodes, list)
  {
  }

  lemma ReleaseText(nodes: seq<Node>, owner: seq<int>, b: nat, list: seq<nat>, buf: Buffer, node: Node)
    requires BufferOk(nodes, owner, b, list, buf) && list != [] && Distinct(list)
    ensures var h := list[0];
            Stream(nodes, list, buf.offset) == nodes[h].msg[buf.offset..] + Stream(nodes[h := node], list[1..], 0)
  {
    var h, rest := list[0], list[1..];
    LinkedTail(nodes, owner, b, list, buf.head);
    TextSame(nodes, nodes[h := node], rest);
    FromStart(nodes[h := node], rest);
  }

  lemma ReleaseApart(ls: Lists, b: nat)
    requires Apart(ls) && b < |ls.chain| && ls.chain[b] != [] && ls.chain[b][0] < |ls.owner|
      && ls.chain[b][0] !in ls.free
    ensures Apart(Released(ls, b))
  {
    assert Distinct(ls.chain[b]);
    DistinctCons(ls.free, ls.chain[b][0]);
    var ls' := Released(ls, b);
    forall c | 0 <= c < |ls'.chain| ensures Distinct(ls'.chain[c]) {
      assert c != b ==> Distinct(ls.chain[c]);
    }
  }

  lemma ReleaseCovered(ls: Lists, b: nat)
    requires Covered(ls) && b < |ls.chain| && ls.chain[b] != [] && ls.chain[b][0] < |ls.owner|
    ensures Covered(Released(ls, b))
  {
    var h, ls' := ls.chain[b][0], Released(ls, b);
    forall n | 0 <= n < |ls.owner|
      ensures FREE <= ls'.owner[n] < |ls'.chain|
      ensures n in if ls'.owner[n] == FREE then ls'.free else ls'.chain[ls'.owner[n]]
    {
      if n != h && ls.owner[n] == b {
        assert n in ls.chain[b];
        assert ls.chain[b] == [h] + ls.chain[b][1..];
      }
    }
  }

  /** The first node of a buffer goes to the free list; nobody else notices. */
  lemma Release(nodes: seq<Node>, free: int, bufs: seq<Buffer>, ls: Lists, data: seq<seq<byte>>, b: nat)
    requires Shape(nodes, free, bufs, ls, data) && b < |bufs| && ls.chain[b] != []
    ensures var h := ls.chain[b][0];
            && bufs[b].head == h < |nodes| && bufs[b].offset <= |nodes[h].msg|
            && |data[b]| >= |nodes[h].msg| - bufs[b].offset
            && data[b][..|nodes[h].msg| - bufs[b].offset] == nodes[h].msg[bufs[b].offset..]
            && Shape(nodes[h := Node([], free)], h, bufs[b := Advanced(bufs[b], nodes[h].next)], Released(ls, b),
              data[b := data[b][|nodes[h].msg| - bufs[b].offset..]])
  {
    var h := ls.chain[b][0];
    assert HoldsAt(nodes, ls, bufs, data, b) && Distinct(ls.chain[b]);
    ReleaseHolds(nodes, ls.owner, b, ls.chain[b], bufs[b], data[b], Node([], free));
    var d := data[b][|nodes[h].msg| - bufs[b].offset..];
    ReleaseTo(nodes, free, bufs, ls, data, b, h, Advanced(bufs[b], nodes[h].next), d);
  }

  lemma ReleaseTo(nodes: seq<Node>, free: int, bufs: seq<Buffer>, ls: Lists, data: seq<seq<byte>>, b: nat, h: nat,
                  buf: Buffer, d: seq<byte>)
    requires Shape(nodes, free, bufs, ls, data) && b < |bufs| && ls.chain[b] != []
      && ls.chain[b][0] == h < |nodes| && ls.owner[h] == b
    requires Holds(nodes[h := Node([], free)], ls.owner[h := FREE], b, ls.chain[b][1..], buf, d)
    ensures Shape(nodes[h := Node([], free)], h, bufs[b := buf], Released(ls, b), data[b := d])
  {
    ReleaseFree(nodes, free, ls, b, h);
    ReleaseCovered(ls, b);
    Elsewhere(nodes, ls.owner, FREE, ls.free, free, h);
    ReleaseApart(ls, b);
    ReleaseOthers(nodes, free, bufs, ls, data, b, h);
  }

  lemma ReleaseHolds(nodes: seq<Node>, owner: seq<int>, b: nat, list: seq<nat>, buf: Buffer, d: seq<byte>, node: Node)
    requires Holds(nodes, owner, b, list, buf, d) && list != [] && Distinct(list)
    ensures var h := list[0]; var n := |nodes[h].msg| - buf.offset;
            && n <= |d| && d[..n] == nodes[h].msg[buf.offset..]
            && Holds(nodes[h := node], owner[h := FREE], b, list[1..], Advanced(buf, nodes[h].next), d[n..])
  {
    ReleaseLinked(nodes, owner, b, list, buf, node);
    ReleaseText(nodes, owner, b, list, buf, node);
    var h := list[0];
    SplitAt(nodes[h].msg[buf.offset..], Stream(nodes[h := node], list[1..], 0));
  }

  lemma SplitAt(a: seq<byte>, b: seq<byte>)
    ensures (a + b)[..|a|] == a && (a + b)[|a|..] == b
  {
  }

  lemma ReleaseOthers(nodes: seq<Node>, free: int, bufs: seq<Buffer>, ls: Lists, data: seq<seq<byte>>, b: nat, h: nat)
    requires Shape(nodes, free, bufs, ls, data) && b < |bufs| && h < |nodes| && ls.owner[h] == b
    ensures forall c :: 0 <= c < |bufs| && c != b ==>
              Holds(nodes[h := Node([], free)], ls.owner[h := FREE], c, ls.chain[c], bufs[c], data[c])
  {
    forall c | 0 <= c < |bufs| && c != b
      ensures Holds(nodes[h := Node([], free)], ls.owner[h := FREE], c, ls.chain[c], bufs[c], data[c])
    {
      assert HoldsAt(nodes, ls, bufs, data, c);
      BufferFrame(nodes, ls.owner, c, ls.chain[c], bufs[c], h, Node([], free), FREE);
    }
  }

  // ------------------------------------------------------------ adding a block

  function Page(start: nat, size: nat): seq<Node> {
    seq(size, i => Node([], if i + 1 < size then start + i + 1 else NULL))
  }

  function Grown(ls: Lists, size: nat): Lists {
    Lists(seq(size, i => |ls.owner| + i), ls.chain, ls.owner + seq(size, _ => FREE))
  }

  lemma GrowBuffer(nodes: seq<Node>, owner: seq<int>, b: nat, list: seq<nat>, buf: Buffer, d: seq<byte>,
                   more: seq<Node>, whose: seq<int>)
    requires Holds(nodes, owner, b, list, buf, d) && |more| == |whose|
    ensures Holds(nodes + more, owner + whose, b, list, buf, d)
  {
    if list != [] {
      TextSame(nodes, nodes + more, list[1..]);
    }
  }

  /** A new page of nodes when the free list is empty. */
  lemma Grow(nodes: seq<Node>, free: int, bufs: seq<Buffer>, ls: Lists, data: seq<seq<byte>>, size: nat)
    requires Shape(nodes, free, bufs, ls, data) && free == NULL && size > 0
    ensures Shape(nodes + Page(|nodes|, size), |nodes|, bufs, Grown(ls, size), data)
  {
    var ls', nodes' := Grown(ls, size), nodes + Page(|nodes|, size);
    assert ls.free == [];
    forall b | 0 <= b < |bufs| ensures HoldsAt(nodes', ls', bufs, data, b) {
      assert HoldsAt(nodes, ls, bufs, data, b);
      GrowBuffer(nodes, ls.owner, b, ls.chain[b], bufs[b], data[b], Page(|nodes|, size), seq(size, _ => FREE));
    }
    GrowFree(nodes, free, ls, size);
    GrowCovered(ls, size);
    GrowApart(ls, size);
  }

  lemma GrowApart(ls: Lists, size: nat)
    requires Apart(ls)
    ensures Apart(Grown(ls, size))
  {
    var ls' := Grown(ls, size);
    DistinctRange(|ls.owner|, size);
    forall c | 0 <= c < |ls'.chain| ensures Distinct(ls'.chain[c]) {
      assert Distinct(ls.chain[c]);
    }
  }

  lemma GrowFree(nodes: seq<Node>, free: int, ls: Lists, size: nat)
    requires FreeOk(nodes, free, ls) && size > 0
    ensures FreeOk(nodes + Page(|nodes|, size), |nodes|, Grown(ls, size))
  {
  }

  lemma GrowCovered(ls: Lists, size: nat)
    requires Covered(ls) && ls.free == []
    ensures Covered(Grown(ls, size))
  {
    var ls' := Grown(ls, size);
    forall n | 0 <= n < |ls'.owner|
      ensures FREE <= ls'.owner[n] < |ls'.chain|
      ensures n in if ls'.owner[n] == FREE then ls'.free else ls'.chain[ls'.owner[n]]
    {
      if n >= |ls.owner| {
        assert ls'.free[n - |ls.owner|] == n;
      } else {
        assert ls'.owner[n] == ls.owner[n];
      }
    }
  }

  function Taken(ls: Lists, b: nat): Lists
    requires b < |ls.chain| && ls.free != [] && ls.free[0] < |ls.owner|
  {
    var h := ls.free[0];
    Lists(ls.free[1..], ls.chain[b := ls.chain[b] + [h]], ls.owner[h := b])
  }

  lemma TakeFree(nodes: seq<Node>, free: int, ls: Lists, b: nat, node: Node)
    requires FreeOk(nodes, free, ls) && b < |ls.chain| && ls.free != [] && Distinct(ls.free)
    ensures free == ls.free[0] < |nodes|
    ensures FreeOk(nodes[free := node], nodes[free].next, Taken(ls, b))
  {
    LinkedTail(nodes, ls.owner, FREE, ls.free, free);
    LinkedFrame(nodes, ls.owner, FREE, ls.free[1..], nodes[free].next, free, node, b);
  }

  lemma TakeApart(ls: Lists, b: nat)
    requires Apart(ls) && b < |ls.chain| && ls.free != [] && ls.free[0] < |ls.owner| && ls.free[0] !in ls.chain[b]
    ensures Apart(Taken(ls, b))
  {
    assert Distinct(ls.chain[b]);
    DistinctSnoc(ls.chain[b], ls.free[0]);
    var ls' := Taken(ls, b);
    forall c | 0 <= c < |ls'.chain| ensures Distinct(ls'.chain[c]) {
      assert c != b ==> Distinct(ls.chain[c]);
    }
  }

  lemma TakeCovered(ls: Lists, b: nat)
    requires Covered(ls) && b < |ls.chain| && ls.free != [] && ls.free[0] < |ls.owner|
    ensures Covered(Taken(ls, b))
  {
    var h, ls' := ls.free[0], Taken(ls, b);
    forall n | 0 <= n < |ls.owner|
      ensures FREE <= ls'.owner[n] < |ls'.chain|
      ensures n in if ls'.owner[n] == FREE then ls'.free else ls'.chain[ls'.owner[n]]
    {
      if n != h && ls.owner[n] == FREE {
        assert n in ls.free;
        assert ls.free == [h] + ls.free[1..];
      }
    }
  }

  /** The nodes after `h` was filled and linked behind the tail. */
  function Filled(nodes: seq<Node>, tail: int, h: nat, msg: seq<byte>): seq<Node>
    requires h < |nodes| && tail < |nodes|
  {
    var filled := nodes[h := Node(msg, NULL)];
    if tail < 0 then filled else filled[tail := Node(filled[tail].msg, h)]
  }

  lemma AppendLinked(nodes: seq<Node>, owner: seq<int>, b: nat, list: seq<nat>, head: int, h: nat, msg: seq<byte>)
    requires Linked(nodes, owner, b, list, head) && h < |nodes| && h !in list && Distinct(list)
    ensures Last(list) < |nodes|
    ensures Linked(Filled(nodes, Last(list), h, msg), owner[h := b], b, list + [h], if list == [] then h else head)
  {
    var nodes', list' := Filled(nodes, Last(list), h, msg), list + [h];
    forall i | 0 <= i < |list'| ensures nodes'[list'[i]].next == After(list', i) {
      if i + 1 < |list| {
        DistinctLast(list, i);
        assert nodes[list[i]].next == After(list, i);
      }
    }
  }

  function Lengthened(buf: Buffer, node: nat, n: nat): Buffer {
    Buffer(buf.size + n, buf.offset, if buf.head == NULL then node else buf.head, node)
  }

  lemma AppendHolds(nodes: seq<Node>, owner: seq<int>, b: nat, list: seq<nat>, buf: Buffer, d: seq<byte>, h: nat,
                    msg: seq<byte>)
    requires Holds(nodes, owner, b, list, buf, d) && h < |nodes| && h !in list && Distinct(list) && msg != []
    ensures Last(list) < |nodes|
    ensures Holds(Filled(nodes, Last(list), h, msg), owner[h := b], b, list + [h],
                  Lengthened(buf, h, |msg|), d + msg)
  {
    AppendLinked(nodes, owner, b, list, buf.head, h, msg);
    var nodes', list' := Filled(nodes, Last(list), h, msg), list + [h];
    assert forall i :: 0 <= i < |list| ==> nodes'[list[i]].msg == nodes[list[i]].msg;
    assert nodes'[h].msg == msg;
    if list == [] {
      AppendFirst(nodes', h);
      assert d == [] && d + msg == msg;
    } else {
      AppendText(nodes, nodes', list, buf.offset, h);
    }
  }

  lemma AppendFirst(nodes: seq<Node>, h: nat)
    requires h < |nodes|
    ensures Stream(nodes, [] + [h], 0) == nodes[h].msg
  {
    var list: seq<nat> := [] + [h];
    FromStart(nodes, list);
    TextAppend(nodes, [], h);
  }

  lemma AppendText(nodes: seq<Node>, nodes': seq<Node>, list: seq<nat>, off: nat, h: nat)
    requires |nodes'| == |nodes| && h < |nodes| && list != []
    requires forall i :: 0 <= i < |list| ==> list[i] < |nodes|
    requires forall i :: 0 <= i < |list| ==> nodes'[list[i]].msg == nodes[list[i]].msg
    requires off <= |nodes[list[0]].msg|
    ensures Stream(nodes', list + [h], off) == Stream(nodes, list, off) + nodes'[h].msg
  {
    assert (list + [h])[1..] == list[1..] + [h] && (list + [h])[0] == list[0];
    TextSame(nodes, nodes', list[1..]);
    TextAppend(nodes', list[1..], h);
    Assoc(nodes[list[0]].msg[off..], Text(nodes, list[1..]), nodes'[h].msg);
  }

  lemma AppendFree(nodes: seq<Node>, free: int, ls: Lists, b: nat, tail: int, msg: seq<byte>)
    requires FreeOk(nodes, free, ls) && b < |ls.chain| && ls.free != [] && Distinct(ls.free)
    requires tail < |nodes| && (tail >= 0 ==> ls.owner[tail] == b)
    ensures free == ls.free[0] < |nodes|
    ensures FreeOk(Filled(nodes, tail, free, msg), nodes[free].next, Taken(ls, b))
  {
    TakeFree(nodes, free, ls, b, Node(msg, NULL));
    var nodes', ls' := nodes[free := Node(msg, NULL)], Taken(ls, b);
    if tail >= 0 {
      assert ls'.owner[tail := b] == ls'.owner;
      Elsewhere(nodes', ls'.owner, FREE, ls'.free, nodes[free].next, tail);
      LinkedFrame(nodes', ls'.owner, FREE, ls'.free, nodes[free].next, tail, Node(nodes'[tail].msg, free), b);
    }
  }

  lemma AppendOther(nodes: seq<Node>, owner: seq<int>, c: nat, list: seq<nat>, buf: Buffer, d: seq<byte>,
                    b: nat, tail: int, h: nat, msg: seq<byte>)
    requires Holds(nodes, owner, c, list, buf, d) && c != b
    requires h < |nodes| && owner[h] == FREE && tail < |nodes| && (tail >= 0 ==> owner[tail] == b)
    ensures Holds(Filled(nodes, tail, h, msg), owner[h := b], c, list, buf, d)
  {
    BufferFrame(nodes, owner, c, list, buf, h, Node(msg, NULL), b);
    var nodes', owner' := nodes[h := Node(msg, NULL)], owner[h := b];
    if tail >= 0 {
      BufferFrame(nodes', owner', c, list, buf, tail, Node(nodes'[tail].msg, h), b);
      assert owner'[tail := b] == owner';
    }
  }

  /** A block is appended to one buffer, in a node taken from the free list. */
  lemma Append(nodes: seq<Node>, free: int, bufs: seq<Buffer>, ls: Lists, data: seq<seq<byte>>, b: nat, msg: seq<byte>)
    requires Shape(nodes, free, bufs, ls, data) && b < |bufs| && free != NULL && msg != []
    ensures 0 <= free < |nodes| && bufs[b].tail < |nodes| && ls.free != [] && ls.free[0] == free
    ensures bufs[b].head == NULL <==> bufs[b].tail < 0
    ensures Shape(Filled(nodes, bufs[b].tail, free, msg), nodes[free].next,
                  bufs[b := Lengthened(bufs[b], free, |msg|)], Taken(ls, b),
                  data[b := data[b] + msg])
  {
    assert HoldsAt(nodes, ls, bufs, data, b) && Distinct(ls.chain[b]);
    assert bufs[b].tail == Last(ls.chain[b]);
    var tail := bufs[b].tail;
    AppendFree(nodes, free, ls, b, tail, msg);
    Elsewhere(nodes, ls.owner, b, ls.chain[b], bufs[b].head, free);
    AppendHolds(nodes, ls.owner, b, ls.chain[b], bufs[b], data[b], free, msg);
    TakeCovered(ls, b);
    TakeApart(ls, b);
    AppendOthers(nodes, free, bufs, ls, data, b, msg);
  }

  lemma AppendOthers(nodes: seq<Node>, free: int, bufs: seq<Buffer>, ls: Lists, data: seq<seq<byte>>, b: nat,
                     msg: seq<byte>)
    requires Shape(nodes, free, bufs, ls, data) && b < |bufs| && 0 <= free < |nodes| && ls.owner[free] == FREE
    requires bufs[b].tail < |nodes| && (bufs[b].tail >= 0 ==> ls.owner[bufs[b].tail] == b)
    ensures forall c :: 0 <= c < |bufs| && c != b ==>
              Holds(Filled(nodes, bufs[b].tail, free, msg), ls.owner[free := b], c, ls.chain[c], bufs[c], data[c])
  {
    forall c | 0 <= c < |bufs| && c != b
      ensures Holds(Filled(nodes, bufs[b].tail, free, msg), ls.owner[free := b], c, ls.chain[c], bufs[c], data[c])
    {
      assert HoldsAt(nodes, ls, bufs, data, c);
      AppendOther(nodes, ls.owner, c, ls.chain[c], bufs[c], data[c], b, bufs[b].tail, free, msg);
    }
  }

  // ------------------------------------------------------------ reading a stream

  /** Moving the cursor within the first block. */
  lemma Skip(nodes: seq<Node>, owner: seq<int>, b: nat, list: seq<nat>, buf: Buffer, d: seq<byte>, k: nat)
    requires Holds(nodes, owner, b, list, buf, d) && list != [] && buf.offset + k <= |nodes[list[0]].msg|
    ensures k <= |d| && d[..k] == nodes[list[0]].msg[buf.offset..buf.offset + k]
    ensures Holds(nodes, owner, b, list, buf.(offset := buf.offset + k), d[k..])
  {
    SkipIn(nodes[list[0]].msg, buf.offset, k, Text(nodes, list[1..]));
  }

  /** The size field is the length, and the cursor is inside the first block. */
  ghost predicate Sized(nodes: seq<Node>, list: seq<nat>, buf: Buffer, d: seq<byte>) {
    buf.size == |d| && (list != [] ==> list[0] < |nodes| && buf.offset < |nodes[list[0]].msg|)
  }

  ghost predicate SizedAt(nodes: seq<Node>, bufs: seq<Buffer>, chain: seq<seq<nat>>, data: seq<seq<byte>>, b: nat) {
    b < |bufs| == |chain| == |data| && Sized(nodes, chain[b], bufs[b], data[b])
  }

  ghost predicate SizedBut(nodes: seq<Node>, bufs: seq<Buffer>, chain: seq<seq<nat>>, data: seq<seq<byte>>, b: nat) {
    |bufs| == |chain| == |data| && forall c :: 0 <= c < |bufs| && c != b ==> SizedAt(nodes, bufs, chain, data, c)
  }

  lemma SkipShape(nodes: seq<Node>, free: int, bufs: seq<Buffer>, ls: Lists, data: seq<seq<byte>>, b: nat, k: nat)
    requires Shape(nodes, free, bufs, ls, data) && b < |bufs| && SizedBut(nodes, bufs, ls.chain, data, b)
    requires 0 <= bufs[b].head < |nodes| && bufs[b].offset + k <= |nodes[bufs[b].head].msg|
    ensures k <= |data[b]|
    ensures var bufs', data' := bufs[b := bufs[b].(offset := bufs[b].offset + k)], data[b := data[b][k..]];
            Shape(nodes, free, bufs', ls, data') && SizedBut(nodes, bufs', ls.chain, data', b)
  {
    assert HoldsAt(nodes, ls, bufs, data, b);
    Skip(nodes, ls.owner, b, ls.chain[b], bufs[b], data[b], k);
    Replace(nodes, free, bufs, ls, data, b, bufs[b].(offset := bufs[b].offset + k), data[b][k..]);
  }

  lemma Replace(nodes: seq<Node>, free: int, bufs: seq<Buffer>, ls: Lists, data: seq<seq<byte>>, b: nat, buf: Buffer,
                d: seq<byte>)
    requires Shape(nodes, free, bufs, ls, data) && b < |bufs| && SizedBut(nodes, bufs, ls.chain, data, b)
    requires Holds(nodes, ls.owner, b, ls.chain[b], buf, d)
    ensures Shape(nodes, free, bufs[b := buf], ls, data[b := d])
      && SizedBut(nodes, bufs[b := buf], ls.chain, data[b := d], b)
  {
    var bufs', data' := bufs[b := buf], data[b := d];
    forall c | 0 <= c < |bufs| && c != b ensures HoldsAt(nodes, ls, bufs', data', c)
      && SizedAt(nodes, bufs', ls.chain, data', c) {
      assert HoldsAt(nodes, ls, bufs, data, c) && SizedAt(nodes, bufs, ls.chain, data, c);
    }
  }

  lemma SkipIn(m: seq<byte>, off: nat, k: nat, rest: seq<byte>)
    requires off + k <= |m|
    ensures (m[off..] + rest)[..k] == m[off..off + k] && (m[off..] + rest)[k..] == m[off + k..] + rest
  {
  }

  ghost predicate AllSized(nodes: seq<Node>, bufs: seq<Buffer>, chain: seq<seq<nat>>, data: seq<seq<byte>>) {
    |bufs| == |chain| == |data| && forall b :: 0 <= b < |bufs| ==> SizedAt(nodes, bufs, chain, data, b)
  }

  lemma SizedFilled(nodes: seq<Node>, list: seq<nat>, buf: Buffer, d: seq<byte>, tail: int, h: nat, msg: seq<byte>)
    requires Sized(nodes, list, buf, d) && h < |nodes| && tail < |nodes| && (list != [] ==> list[0] != h)
    ensures Sized(Filled(nodes, tail, h, msg), list, buf, d)
    ensures msg != [] && (list == [] ==> buf.offset == 0) ==>
              Sized(Filled(nodes, tail, h, msg), list + [h], Lengthened(buf, h, |msg|), d + msg)
  {
    assert list != [] ==> (list + [h])[0] == list[0];
    assert Filled(nodes, tail, h, msg)[h].msg == msg;
  }

  lemma AppendSized(nodes: seq<Node>, free: int, bufs: seq<Buffer>, ls: Lists, data: seq<seq<byte>>, b: nat,
                    msg: seq<byte>)
    requires Shape(nodes, free, bufs, ls, data) && AllSized(nodes, bufs, ls.chain, data) && b < |bufs| && msg != []
    requires 0 <= free < |nodes| && ls.owner[free] == FREE && bufs[b].tail < |nodes| && ls.free != []
      && ls.free[0] == free
    ensures AllSized(Filled(nodes, bufs[b].tail, free, msg), bufs[b := Lengthened(bufs[b], free, |msg|)],
                     Taken(ls, b).chain,
                     data[b := data[b] + msg])
  {
    var nodes', chain' := Filled(nodes, bufs[b].tail, free, msg), Taken(ls, b).chain;
    var bufs', data' := bufs[b := Lengthened(bufs[b], free, |msg|)], data[b := data[b] + msg];
    forall c | 0 <= c < |bufs| ensures SizedAt(nodes', bufs', chain', data', c) {
      assert SizedAt(nodes, bufs, ls.chain, data, c) && HoldsAt(nodes, ls, bufs, data, c);
      assert ls.chain[c] != [] ==> ls.owner[ls.chain[c][0]] == c;
      SizedFilled(nodes, ls.chain[c], bufs[c], data[c], bufs[b].tail, free, msg);
    }
  }

  lemma AppendValid(nodes: seq<Node>, free: int, bufs: seq<Buffer>, ls: Lists, data: seq<seq<byte>>, b: nat,
                    msg: seq<byte>)
    requires Shape(nodes, free, bufs, ls, data) && AllSized(nodes, bufs, ls.chain, data)
    requires b < |bufs| && free != NULL && msg != []
    ensures 0 <= free < |nodes| && bufs[b].tail < |nodes| && ls.free != [] && ls.free[0] == free < |ls.owner|
    ensures bufs[b].head == NULL <==> bufs[b].tail < 0
    ensures var nodes' := Filled(nodes, bufs[b].tail, free, msg);
            var bufs', ls', data' := bufs[b := Lengthened(bufs[b], free, |msg|)], Taken(ls, b),
              data[b := data[b] + msg];
            Shape(nodes', nodes[free].next, bufs', ls', data') && AllSized(nodes', bufs', ls'.chain, data')
  {
    Append(nodes, free, bufs, ls, data, b, msg);
    assert ls.owner[ls.free[0]] == FREE;
    AppendSized(nodes, free, bufs, ls, data, b, msg);
  }

  lemma ReleaseSized(nodes: seq<Node>, free: int, bufs: seq<Buffer>, ls: Lists, data: seq<seq<byte>>, b: nat, h: nat,
                     buf: Buffer, d: seq<byte>)
    requires Shape(nodes, free, bufs, ls, data) && b < |bufs| && SizedBut(nodes, bufs, ls.chain, data, b)
    requires h < |nodes| && ls.owner[h] == b && ls.chain[b] != []
    ensures SizedBut(nodes[h := Node([], free)], bufs[b := buf], ls.chain[b := ls.chain[b][1..]], data[b := d], b)
  {
    var nodes' := nodes[h := Node([], free)];
    forall c | 0 <= c < |bufs| && c != b ensures Sized(nodes', ls.chain[c], bufs[c], data[c]) {
      assert SizedAt(nodes, bufs, ls.chain, data, c);
      assert HoldsAt(nodes, ls, bufs, data, c);
      assert ls.chain[c] != [] ==> ls.owner[ls.chain[c][0]] == c;
    }
  }

  lemma GrowSized(nodes: seq<Node>, bufs: seq<Buffer>, chain: seq<seq<nat>>, data: seq<seq<byte>>, more: seq<Node>)
    requires AllSized(nodes, bufs, chain, data)
    ensures AllSized(nodes + more, bufs, chain, data)
  {
    forall b | 0 <= b < |bufs| ensures SizedAt(nodes + more, bufs, chain, data, b) {
      assert SizedAt(nodes, bufs, chain, data, b);
    }
  }

  // ------------------------------------------------------------ the buffers

  ghost predicate SameBut(data: seq<seq<byte>>, before: seq<seq<byte>>, b: nat) {
    |data| == |before| && forall c :: 0 <= c < |data| && c != b ==> data[c] == before[c]
  }

  ghost predicate Inside(nodes: seq<Node>, list: seq<nat>, buf: Buffer) {
    list != [] ==> list[0] < |nodes| && buf.offset < |nodes[list[0]].msg|
  }

  class Pool {
    ghost var lists: Lists
    ghost var data: seq<seq<byte>>
    var nodes: seq<Node>
    var free: int
    var pages: nat
    var bufs: seq<Buffer>

    /** Each buffer is one byte string and each node is in exactly one place. */
    ghost predicate Whole()
      reads this
    {
      Shape(nodes, free, bufs, lists, data)
    }

    ghost predicate Valid()
      reads this
    {
      Whole() && AllSized(nodes, bufs, lists.chain, data)
    }

    /** `n` empty buffers over an empty pool. */
    constructor (n: nat)
      ensures Valid() && |data| == n && forall b :: 0 <= b < n ==> data[b] == []
    {
      nodes, free, pages := [], NULL, 0;
      bufs := seq(n, _ => Buffer(0, 0, NULL, NULL));
      data := seq(n, _ => []);
      lists := Lists([], seq(n, _ => []), []);
    }

    /** A page of linked nodes. */
    method NewPool(size: nat) returns (page: seq<Node>)
      requires size > 0
      ensures page == Page(|nodes|, size)
    {
      page := [];
      for i := 0 to size
        invariant |page| == i
        invariant forall k :: 0 <= k < i ==> page[k] == Node([], |nodes| + k + 1)
      {
        page := page + [Node([], |nodes| + i + 1)];
      }
      page := page[size - 1 := Node([], NULL)];
    }

    /** A page of `size` nodes is added when no node is free. */
    method Refill(size: nat)
      requires Valid() && size > 0
      modifies this`nodes, this`free, this`pages, this`lists
      ensures Valid() && free != NULL
    {
      if free == NULL {
        var page := NewPool(size);
        Grow(nodes, free, bufs, lists, data, size);
        GrowSized(nodes, bufs, lists.chain, data, page);
        free := |nodes|;
        nodes := nodes + page;
        pages := pages + 1;
        lists := Grown(lists, size);
      }
    }

    /** A block arrives at the end of one buffer; no other buffer notices. */
    method Push(b: nat, msg: seq<byte>, pageSize: nat) returns (size: nat)
      requires Valid() && b < |data| && msg != [] && pageSize > 0
      modifies this
      ensures Valid() && SameBut(data, old(data), b) && data[b] == old(data[b]) + msg && size == |data[b]|
    {
      Refill(pageSize);
      AppendValid(nodes, free, bufs, lists, data, b, msg);
      var node, next, buf := free, nodes[free].next, bufs[b];
      var filled := nodes[node := Node(msg, NULL)];
      if buf.head != NULL {
        filled := filled[buf.tail := Node(filled[buf.tail].msg, node)];
      }
      nodes, free := filled, next;
      bufs := bufs[b := Lengthened(buf, node, |msg|)];
      data := data[b := data[b] + msg];
      lists := Taken(lists, b);
      size := bufs[b].size;
      assert SizedAt(nodes, bufs, lists.chain, data, b);
    }

    /** The first block is used up: return_free_node, _return_message. */
    method ReturnFreeNode(b: nat)
      requires Whole() && b < |bufs| && bufs[b].head != NULL && SizedBut(nodes, bufs, lists.chain, data, b)
      modifies this`lists, this`data, this`nodes, this`free, this`bufs
      ensures Whole() && |bufs| == old(|bufs|) && SizedBut(nodes, bufs, lists.chain, data, b)
      ensures bufs[b].size == old(bufs[b].size) && Inside(nodes, lists.chain[b], bufs[b])
      ensures 0 <= old(bufs[b].head) < old(|nodes|)
      ensures var n := |old(nodes[bufs[b].head].msg)| - old(bufs[b].offset);
              && 0 <= n <= |old(data[b])| && data[b] == old(data[b])[n..] && SameBut(data, old(data), b)
              && old(data[b])[..n] == old(nodes[bufs[b].head].msg[bufs[b].offset..])
    {
      assert HoldsAt(nodes, lists, bufs, data, b);
      Release(nodes, free, bufs, lists, data, b);
      var node, buf := bufs[b].head, bufs[b];
      var next := nodes[node].next;
      ghost var d := data[b][|nodes[node].msg| - buf.offset..];
      ReleaseSized(nodes, free, bufs, lists, data, b, node, Advanced(buf, next), d);
      bufs := bufs[b := Advanced(buf, next)];
      nodes := nodes[node := Node([], free)];
      free := node;
      data := data[b := d];
      lists := Released(lists, b);
      assert HoldsAt(nodes, lists, bufs, data, b);
    }

    /** Between the steps of a read: everything holds but the size of `b`. */
    ghost predicate Reading(b: nat)
      reads this
    {
      Whole() && b < |bufs| && SizedBut(nodes, bufs, lists.chain, data, b) && Inside(nodes, lists.chain[b], bufs[b])
    }

    /** The cursor moves `k` bytes within the first block. */
    method Advance(b: nat, k: nat)
      requires Whole() && b < |bufs| && SizedBut(nodes, bufs, lists.chain, data, b)
      requires 0 <= bufs[b].head < |nodes| && bufs[b].offset + k <= |nodes[bufs[b].head].msg|
      modifies this`data, this`bufs
      ensures Whole() && SizedBut(nodes, bufs, lists.chain, data, b)
      ensures bufs == old(bufs)[b := old(bufs[b]).(offset := old(bufs[b].offset) + k)]
      ensures k <= |old(data[b])| && data[b] == old(data[b])[k..] && SameBut(data, old(data), b)
    {
      SkipShape(nodes, free, bufs, lists, data, b, k);
      bufs := bufs[b := bufs[b].(offset := bufs[b].offset + k)];
      data := data[b := data[b][k..]];
    }

    /** Any `k` bytes of the first block are the next `k` bytes of the buffer. */
    lemma Front(b: nat)
      requires Reading(b) && data[b] != []
      ensures 0 <= bufs[b].head < |nodes| && bufs[b].offset < |nodes[bufs[b].head].msg|
      ensures |nodes[bufs[b].head].msg| - bufs[b].offset <= |data[b]|
      ensures forall k: nat :: bufs[b].offset + k <= |nodes[bufs[b].head].msg| ==>
                nodes[bufs[b].head].msg[bufs[b].offset..bufs[b].offset + k] == data[b][..k]
    {
      assert HoldsAt(nodes, lists, bufs, data, b);
      forall k: nat | bufs[b].offset + k <= |nodes[bufs[b].head].msg|
        ensures nodes[bufs[b].head].msg[bufs[b].offset..bufs[b].offset + k] == data[b][..k]
      {
        Skip(nodes, lists.owner, b, lists.chain[b], bufs[b], data[b], k);
      }
    }

    /** The first block leaves the buffer. */
    method TakeBlock(b: nat)
      requires Reading(b) && 0 <= bufs[b].head < |nodes|
      modifies this`lists, this`data, this`nodes, this`free, this`bufs
      ensures Reading(b) && |bufs| == |old(bufs)| && bufs[b].size == old(bufs[b].size)
      ensures var n := |old(nodes[bufs[b].head].msg)| - old(bufs[b].offset);
              0 <= n <= |old(data[b])| && data[b] == old(data[b])[n..] && SameBut(data, old(data), b)
    {
      ReturnFreeNode(b);
    }

    /** Some or all of the first block leaves the buffer. */
    method TakePart(b: nat, k: nat)
      requires Reading(b) && 0 <= bufs[b].head < |nodes| && bufs[b].offset + k <= |nodes[bufs[b].head].msg|
      modifies this`lists, this`data, this`nodes, this`free, this`bufs
      ensures Reading(b) && |bufs| == |old(bufs)| && bufs[b].size == old(bufs[b].size)
      ensures k <= |old(data[b])| && data[b] == old(data[b])[k..] && SameBut(data, old(data), b)
    {
      var bytes := |nodes[bufs[b].head].msg| - bufs[b].offset;
      if bytes == k {
        Advance(b, k);
        ReturnFreeNode(b);
      } else {
        assert HoldsAt(nodes, lists, bufs, data, b);
        Advance(b, k);
      }
    }

    lemma Empty(b: nat)
      requires Reading(b) && bufs[b].head == NULL
      ensures data[b] == []
    {
      assert HoldsAt(nodes, lists, bufs, data, b);
    }

    /** The size field catches up with the bytes that were read. */
    method Resize(b: nat, size: nat)
      requires Reading(b) && size == |data[b]|
      modifies this`bufs
      ensures Valid() && bufs == old(bufs)[b := old(bufs)[b].(size := size)]
    {
      assert HoldsAt(nodes, lists, bufs, data, b);
      Replace(nodes, free, bufs, lists, data, b, bufs[b].(size := size), data[b]);
      bufs := bufs[b := bufs[b].(size := size)];
      assert data[b := data[b]] == data;
    }

    lemma StartReading(b: nat)
      requires Valid() && b < |bufs|
      ensures Reading(b) && bufs[b].size == |data[b]|
    {
      assert SizedAt(nodes, bufs, lists.chain, data, b);
    }

    /** All blocks of a buffer are given back. */
    method Clear(b: nat)
      requires Valid() && b < |data|
      modifies this`lists, this`data, this`nodes, this`free, this`bufs
      ensures Valid() && SameBut(data, old(data), b) && data[b] == []
    {
      StartReading(b);
      while bufs[b].head != NULL
        invariant Reading(b) && |bufs| == |old(bufs)| && SameBut(data, old(data), b)
        decreases |data[b]|
      {
        NotEmpty(b);
        Front(b);
        TakeBlock(b);
      }
      Empty(b);
      Resize(b, 0);
    }

    lemma NotEmpty(b: nat)
      requires Reading(b) && bufs[b].head != NULL
      ensures data[b] != []
    {
      assert HoldsAt(nodes, lists, bufs, data, b);
    }
  }

  /** `t` is what follows the first `i` bytes of `d`. */
  ghost predicate Suffix(d: seq<byte>, i: nat, t: seq<byte>) {
    |d| == i + |t| && forall j :: 0 <= j < |t| ==> t[j] == d[i + j]
  }

  lemma SuffixIs(d: seq<byte>, i: nat, t: seq<byte>)
    requires Suffix(d, i, t)
    ensures t == d[i..]
  {
  }

  /** Every node is in exactly one of the free list and the buffers, and only once. */
  lemma Partition(nodes: seq<Node>, free: int, bufs: seq<Buffer>, ls: Lists, data: seq<seq<byte>>, n: nat)
    requires Shape(nodes, free, bufs, ls, data) && n < |nodes|
    ensures n in ls.free <==> forall b :: 0 <= b < |bufs| ==> n !in ls.chain[b]
    ensures forall b, c :: 0 <= b < |bufs| && 0 <= c < |bufs| && n in ls.chain[b] && n in ls.chain[c] ==> b == c
    ensures Distinct(ls.free) && forall b :: 0 <= b < |bufs| ==> Distinct(ls.chain[b])
  {
    forall b | 0 <= b < |bufs| && n in ls.chain[b] ensures ls.owner[n] == b {
      assert HoldsAt(nodes, ls, bufs, data, b);
    }
    assert ls.owner[n] == FREE || n in ls.chain[ls.owner[n]];
  }
}
