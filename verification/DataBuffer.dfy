/** The connection buffers of databuffer.h and the frames read from them. */
module DataBuffer {
  import opened Wrappers
  import opened Bytes
  import opened Framing
  import opened BlockPool

  const MESSAGEPOOL: nat := 1023

  /** databuffer_push. */
  method PushData(p: Pool, b: nat, msg: seq<byte>)
    requires p.Valid() && b < |p.data| && msg != []
    modifies p
    ensures p.Valid() && SameBut(p.data, old(p.data), b) && p.data[b] == old(p.data[b]) + msg
  {
    var _ := p.Push(b, msg, MESSAGEPOOL);
  }

  /** One round of the loop of databuffer_read. */
  method ReadBlock(p: Pool, b: nat, sz: nat) returns (piece: seq<byte>)
    requires p.Reading(b) && sz <= |p.data[b]| != 0
    modifies p`lists, p`data, p`nodes, p`free, p`bufs
    ensures p.Reading(b) && |p.bufs| == |old(p.bufs)| && SameBut(p.data, old(p.data), b)
    ensures (sz > 0 ==> |piece| > 0) && |piece| <= sz && old(p.data[b]) == piece + p.data[b]
  {
    p.Front(b);
    ghost var d := p.data[b];
    var current, at := p.bufs[b].head, p.bufs[b].offset;
    var bsz := |p.nodes[current].msg| - at;
    if bsz > sz {
      piece := p.nodes[current].msg[at..at + sz];
      p.TakePart(b, sz);
    } else {
      piece := p.nodes[current].msg[at..at + bsz];
      p.TakeBlock(b);
    }
    assert piece == d[..|piece|] && p.data[b] == d[|piece|..];
    TakeDrop(d, |piece|);
  }

  /** databuffer_read: the first `sz` bytes leave the buffer, which has a block. */
  method Read(p: Pool, b: nat, sz: nat) returns (out: seq<byte>)
    requires p.Valid() && b < |p.data| && sz <= |p.data[b]| != 0
    modifies p`lists, p`data, p`nodes, p`free, p`bufs
    ensures p.Valid() && SameBut(p.data, old(p.data), b)
    ensures |out| == sz && old(p.data[b]) == out + p.data[b]
  {
    p.StartReading(b);
    var size := p.bufs[b].size - sz;
    ghost var d := p.data[b];
    out := ReadBlock(p, b, sz);
    while |out| < sz
      invariant p.Reading(b) && |p.bufs| == |old(p.bufs)| && SameBut(p.data, old(p.data), b)
      invariant |out| <= sz && d == out + p.data[b]
    {
      var piece := ReadBlock(p, b, sz - |out|);
      Assoc(out, piece, p.data[b]);
      out := out + piece;
    }
    p.Resize(b, size);
  }

  // ------------------------------------------------------------ frames

  /** A header of four bytes is read into a signed int. */
  function ToInt(n: nat): int {
    if n < 0x8000_0000 then n else n - 0x1_0000_0000
  }

  /** databuffer_readheader: the length of the frame at the front, or -1 when it is
      not there yet; `header` remembers a length that was read already. */
  method ReadHeader(p: Pool, b: nat, h: Header, header: int) returns (header': int, r: int)
    requires p.Valid() && b < |p.data|
    modifies p`lists, p`data, p`nodes, p`free, p`bufs
    ensures p.Valid() && SameBut(p.data, old(p.data), b)
    ensures header != 0 || |old(p.data[b])| < h ==> header' == header && p.data[b] == old(p.data[b])
    ensures header == 0 && |old(p.data[b])| >= h ==>
      header' == ToInt(SizeOf(h, old(p.data[b])))
        && old(p.data[b]) == SizeBytes(h, SizeOf(h, old(p.data[b]))) + p.data[b]
    ensures r == if (header == 0 && |old(p.data[b])| < h) || |p.data[b]| < header' then -1 else header'
  {
    header' := header;
    p.StartReading(b);
    if header == 0 {
      if p.bufs[b].size < h {
        return header, -1;
      }
      ghost var d := p.data[b];
      var plen := Read(p, b, h);
      header' := ToInt(SizeOf(h, plen));
      SizeBytesOf(h, d);
      SizeBytesOf(h, plen);
      assert plen == d[..h] && plen[..h] == plen;
    }
    p.StartReading(b);
    r := if p.bufs[b].size < header' then -1 else header';
  }
}
