/** The write_block chain and the read_block cursor of lua-seri.c. */
module SeriBlocks {
  import opened Wrappers
  import opened Bytes
  import opened Seri
  import opened SeriFormat

  // ------------------------------------------------------------ nesting

  /** How deep pack_one recurses below a value. */
  function Height(v: Value): nat
    decreases v, 1, 0
  {
    if !v.Table? || (v.length == 0 && v.entries == []) then 0 else 1 + HeightUpTo(v, |v.entries|)
  }

  function HeightUpTo(v: Value, j: nat): nat
    requires v.Table? && j <= |v.entries|
    decreases v, 0, j
  {
    if j == 0 then 0
    else
      var h, before := Height(v.entries[j - 1].value), HeightUpTo(v, j - 1);
      if h > before then h else before
  }

  ghost predicate Fits(v: Value, depth: nat) {
    Supported(v) && depth + Height(v) <= MAX_DEPTH
  }

  lemma {:induction false} HeightBound(v: Value, j: nat, h: nat)
    requires v.Table? && j <= |v.entries|
    ensures HeightUpTo(v, j) <= h <==> forall i :: 0 <= i < j ==> Height(v.entries[i].value) <= h
  {
    if j > 0 {
      HeightBound(v, j - 1, h);
    }
  }

  /** A table fits when everything written below it does. */
  lemma FitsTable(v: Value, depth: nat)
    requires v.Table? && depth < MAX_DEPTH
    ensures Fits(v, depth) <==> forall j :: 0 <= j < |v.entries| ==> Fits(v.entries[j].value, depth + 1)
  {
    HeightBound(v, |v.entries|, MAX_DEPTH - depth - 1);
  }

  /** The recursion of pack_one fits exactly for what can be packed. */
  lemma {:induction false} FitsExactly(v: Value, depth: nat, levels: nat)
    requires depth + levels == 32
    ensures Fits(v, depth) <==> Packable(v, levels)
    decreases v
  {
    if v.Table? && !(v.length == 0 && v.entries == []) {
      if levels > 0 {
        forall i | 0 <= i < |v.entries|
          ensures Fits(v.entries[i].value, depth + 1) <==> Packable(v.entries[i].value, levels - 1)
        {
          FitsExactly(v.entries[i].value, depth + 1, levels - 1);
        }
        FitsTable(v, depth);
      }
    }
  }

  // ------------------------------------------------------------ the block chain

  /** What a chain holds whose last block is filled up to `ptr`. */
  function Chain(blocks: seq<seq<byte>>, ptr: nat): seq<byte>
    requires |blocks| > 0 && ptr <= |blocks[|blocks| - 1]|
  {
    if |blocks| == 1 then blocks[0][..ptr] else blocks[0] + Chain(blocks[1..], ptr)
  }

  lemma {:induction false} ChainSplit(blocks: seq<seq<byte>>, ptr: nat)
    requires |blocks| > 0 && ptr <= |blocks[|blocks| - 1]|
    ensures Chain(blocks, ptr) == Flatten(blocks[..|blocks| - 1]) + blocks[|blocks| - 1][..ptr]
  {
    var n := |blocks| - 1;
    if n > 0 {
      ChainSplit(blocks[1..], ptr);
      assert blocks[1..][..n - 1] == blocks[..n][1..];
    }
  }

  lemma OverwriteTake(buffer: seq<byte>, at: nat, data: seq<byte>)
    requires at + |data| <= |buffer|
    ensures |Overwrite(buffer, at, data)| == |buffer|
    ensures Overwrite(buffer, at, data)[..at + |data|] == buffer[..at] + data
  {
  }

  /** Copying into the last block appends. */
  lemma ChainWrite(blocks: seq<seq<byte>>, ptr: nat, data: seq<byte>)
    requires |blocks| > 0 && ptr + |data| <= |blocks[|blocks| - 1]|
    ensures var last := |blocks| - 1;
            && |Overwrite(blocks[last], ptr, data)| == |blocks[last]|
            && Chain(blocks[last := Overwrite(blocks[last], ptr, data)], ptr + |data|) == Chain(blocks, ptr) + data
  {
    var last := |blocks| - 1;
    var blocks' := blocks[last := Overwrite(blocks[last], ptr, data)];
    OverwriteTake(blocks[last], ptr, data);
    ChainSplit(blocks, ptr);
    ChainSplit(blocks', ptr + |data|);
    assert blocks'[..last] == blocks[..last];
    Assoc(Flatten(blocks[..last]), blocks[last][..ptr], data);
  }

  /** Linking a new block after a full one changes nothing. */
  lemma ChainAlloc(blocks: seq<seq<byte>>, b: seq<byte>)
    requires |blocks| > 0
    ensures Chain(blocks + [b], 0) == Chain(blocks, |blocks[|blocks| - 1]|)
  {
    var last := |blocks| - 1;
    ChainSplit(blocks, |blocks[last]|);
    ChainSplit(blocks + [b], 0);
    assert (blocks + [b])[..last + 1] == blocks == blocks[..last] + [blocks[last]];
    FlattenSnoc(blocks[..last], blocks[last]);
    assert blocks[last][..|blocks[last]|] == blocks[last];
  }

  /** Every array element up to `n` can be written at this depth. */
  ghost predicate ArrayFits(v: Value, depth: nat, n: nat)
    requires v.Table?
  {
    && (n > 0 ==> depth <= MAX_DEPTH)
    && forall j :: 0 <= j < |v.entries| && InArray(v.entries[j].key, n) ==> Fits(v.entries[j].value, depth)
  }

  ghost predicate HashFits(v: Value, depth: nat, j: nat)
    requires v.Table? && j <= |v.entries|
  {
    forall i :: 0 <= i < j && !InArray(v.entries[i].key, v.length) ==>
      depth <= MAX_DEPTH && Fits(v.entries[i].value, depth)
  }

  class Writer {
    ghost var contents: seq<byte>
    var blocks: seq<seq<byte>>
    var len: nat
    var ptr: nat

    ghost predicate Valid()
      reads this
    {
      && |blocks| > 0
      && (forall i :: 0 <= i < |blocks| ==> |blocks[i]| == BLOCK_SIZE)
      && ptr <= BLOCK_SIZE
      && contents == Chain(blocks, ptr)
      && len == |contents|
    }

    /** wb_init over one block. */
    constructor (first: seq<byte>)
      requires |first| == BLOCK_SIZE
      ensures Valid() && contents == []
    {
      blocks, len, ptr, contents := [first], 0, 0, [];
    }

    /** blk_alloc and the move of `current` in wb_push. */
    method Alloc()
      requires Valid() && ptr == BLOCK_SIZE
      modifies this`blocks, this`ptr
      ensures Valid() && ptr == 0
    {
      var b := seq(BLOCK_SIZE, _ => 0);
      ChainAlloc(blocks, b);
      blocks, ptr := blocks + [b], 0;
    }

    method Copy(data: seq<byte>)
      requires Valid() && ptr + |data| <= BLOCK_SIZE
      modifies this
      ensures Valid() && contents == old(contents) + data && ptr == old(ptr) + |data|
    {
      ChainWrite(blocks, ptr, data);
      var last := |blocks| - 1;
      blocks := blocks[last := Overwrite(blocks[last], ptr, data)];
      ptr, len, contents := ptr + |data|, len + |data|, contents + data;
    }

    /** wb_push: the chain grows by exactly the bytes given, wherever the block
        boundaries fall. */
    method Push(buf: seq<byte>)
      requires Valid()
      modifies this
      ensures Valid() && contents == old(contents) + buf
    {
      var buffer := buf;
      if ptr == BLOCK_SIZE {
        Alloc();
      }
      while ptr > BLOCK_SIZE - |buffer|
        invariant Valid() && contents + buffer == old(contents) + buf
        invariant ptr < BLOCK_SIZE
        decreases |buffer|
      {
        var copy := BLOCK_SIZE - ptr;
        Assoc(contents, buffer[..copy], buffer[copy..]);
        assert buffer == buffer[..copy] + buffer[copy..];
        Copy(buffer[..copy]);
        buffer := buffer[copy..];
        Alloc();
      }
      Copy(buffer);
    }

    /** seri: the chain as one buffer. */
    method Flat() returns (out: seq<byte>)
      requires Valid()
      ensures out == contents
    {
      out := [];
      assert blocks[0..] == blocks;
      var b, left := 0, len;
      while left > 0
        invariant left >= 0 && (left == 0 ==> out == contents)
        invariant left > 0 ==>
          b < |blocks| && contents == out + Chain(blocks[b..], ptr) && left == |Chain(blocks[b..], ptr)|
      {
        ghost var chain := Chain(blocks[b..], ptr);
        assert b + 1 < |blocks| ==> blocks[b..][1..] == blocks[b + 1..];
        assert b + 1 < |blocks| ==> chain == blocks[b] + Chain(blocks[b + 1..], ptr) && |chain| >= BLOCK_SIZE;
        if left >= BLOCK_SIZE {
          assert b + 1 == |blocks| ==> chain == blocks[b][..ptr] && ptr == BLOCK_SIZE;
          assert blocks[b][..BLOCK_SIZE] == blocks[b];
          out := out + blocks[b];
          left := left - BLOCK_SIZE;
          b := b + 1;
        } else {
          out := out + blocks[b][..left];
          left := 0;
        }
      }
    }

    /** wb_free. */
    method Free()
      modifies this
      ensures blocks == [] && len == 0 && ptr == 0
    {
      blocks, len, ptr := [], 0, 0;
    }

    method PushTagged(tag: byte, data: seq<byte>)
      requires Valid()
      modifies this
      ensures Valid() && contents == old(contents) + ([tag] + data)
    {
      Push([tag]);
      Push(data);
      Assoc(old(contents), [tag], data);
    }

    method PushInteger(v: int64)
      requires Valid()
      modifies this
      ensures Valid() && contents == old(contents) + EncodeInteger(v)
    {
      if v == 0 {
        Push([Tag(2, 0)]);
      } else if !(-0x8000_0000 <= v < 0x8000_0000) {
        PushTagged(Tag(2, 6), LeBytes(if v < 0 then v + 0x1_0000_0000_0000_0000 else v, 8));
      } else if v < 0 {
        PushTagged(Tag(2, 4), LeBytes(v + 0x1_0000_0000, 4));
      } else if v < 0x100 {
        PushTagged(Tag(2, 1), LeBytes(v, 1));
      } else if v < 0x10000 {
        PushTagged(Tag(2, 2), LeBytes(v, 2));
      } else {
        PushTagged(Tag(2, 4), LeBytes(v, 4));
      }
    }

    method PushString(s: seq<byte>)
      requires Valid()
      modifies this
      ensures Valid() && contents == old(contents) + EncodeString(s)
    {
      if |s| < MAX_COOKIE {
        Push([Tag(4, |s|)]);
        if |s| > 0 {
          Push(s);
        }
        Assoc(old(contents), [Tag(4, |s|)], s);
      } else {
        if |s| < 0x10000 {
          PushTagged(Tag(5, 2), LeBytes(|s|, 2));
        } else {
          PushTagged(Tag(5, 4), LeBytes(|s|, 4));
        }
        ghost var head := [Tag(5, if |s| < 0x10000 then 2 else 4)] + LeBytes(|s|, if |s| < 0x10000 then 2 else 4);
        Assoc(old(contents), head, s);
        Push(s);
      }
    }

    method PushScalar(a: Scalar)
      requires Valid()
      modifies this
      ensures Valid() && contents == old(contents) + EncodeScalar(a)
    {
      match a {
        case Bool(b) => Push([Tag(1, if b then 1 else 0)]);
        case Int(i) => PushInteger(i);
        case Real(w) =>
          PushTagged(Tag(2, 8), LeBytes(w, 8));
        case Str(s) => PushString(s);
        case Pointer(w) =>
          PushTagged(Tag(3, 0), LeBytes(w, 8));
      }
    }

    method PushSize(n: nat)
      requires Valid() && n < 0x8000_0000
      modifies this
      ensures Valid() && contents == old(contents) + EncodeSize(n)
    {
      if n >= MAX_COOKIE - 1 {
        Push([Tag(6, MAX_COOKIE - 1)]);
        PushInteger(n);
        Assoc(old(contents), [Tag(6, MAX_COOKIE - 1)], EncodeInteger(n));
      } else {
        Push([Tag(6, n)]);
      }
    }

    /** pack_one: fails exactly when a type is unsupported or nesting exceeds
        MAX_DEPTH, and otherwise appends the encoding. */
    method PackOne(v: Value, depth: nat) returns (ok: bool)
      requires Valid() && WellFormed(v)
      modifies this
      ensures ok <==> Fits(v, depth)
      ensures ok ==> Valid() && contents == old(contents) + Encode(v)
      ensures !ok ==> blocks == []
      decreases v, 1, 0
    {
      if v.Table? && depth <= MAX_DEPTH {
        ok := PackTable(v, depth + 1);
      } else {
        ok := PackLeaf(v, depth);
      }
    }

    /** The cases of pack_one that do not recurse. */
    method PackLeaf(v: Value, depth: nat) returns (ok: bool)
      requires Valid() && WellFormed(v) && (v.Table? ==> depth > MAX_DEPTH)
      modifies this
      ensures ok <==> Fits(v, depth)
      ensures ok ==> Valid() && contents == old(contents) + Encode(v)
      ensures !ok ==> blocks == []
    {
      if depth > MAX_DEPTH || v == Other {
        Free();
        return false;
      }
      if v.Nil? {
        Push([0]);
      } else {
        PushScalar(v.a);
      }
      ok := true;
    }

    /** wb_table. */
    method PackTable(v: Value, depth: nat) returns (ok: bool)
      requires Valid() && WellFormed(v) && v.Table? && 1 <= depth <= MAX_DEPTH + 1
      modifies this
      ensures ok <==> Fits(v, depth - 1)
      ensures ok ==> Valid() && contents == old(contents) + Encode(v)
      ensures !ok ==> blocks == []
      decreases v, 0, 3
    {
      PushSize(v.length);
      ok := PackArray(v, depth);
      if ok {
        ok := PackHash(v, depth);
      }
      if ok {
        Push([0]);
        TableWritten(old(contents), v);
      }
      TableFits(v, depth - 1);
    }

    /** One element of wb_table_array, nil for a hole. */
    method PackElement(v: Value, i: int64, depth: nat) returns (ok: bool)
      requires Valid() && WellFormed(v) && v.Table? && 1 <= i <= v.length && depth <= MAX_DEPTH + 1
      modifies this
      ensures ok ==> Valid() && contents == old(contents) + EncodeElement(v, i)
      ensures ArrayFits(v, depth, i - 1) ==> (ok <==> ArrayFits(v, depth, i))
      ensures !ok ==> blocks == [] && !ArrayFits(v, depth, v.length)
      decreases v, 0, 1
    {
      var k := Find(v.entries, Int(i));
      ArrayFitsNext(v, depth, i);
      if k < |v.entries| {
        ok := PackOne(v.entries[k].value, depth);
      } else {
        ok := PackLeaf(Nil, depth);
      }
    }

    /** wb_table_array after the size. */
    method PackArray(v: Value, depth: nat) returns (ok: bool)
      requires Valid() && WellFormed(v) && v.Table? && depth <= MAX_DEPTH + 1
      modifies this
      ensures ok <==> ArrayFits(v, depth, v.length)
      ensures ok ==> Valid() && contents == old(contents) + EncodeArray(v, 1)
      ensures !ok ==> blocks == []
      decreases v, 0, 2
    {
      var i := 1;
      while i <= v.length
        invariant 1 <= i <= v.length + 1
        invariant Valid() && ArrayFits(v, depth, i - 1)
        invariant contents + EncodeArray(v, i) == old(contents) + EncodeArray(v, 1)
      {
        ghost var before := contents;
        ok := PackElement(v, i, depth);
        if !ok {
          return;
        }
        ElementWritten(before, v, i);
        i := i + 1;
      }
      ok := true;
    }

    /** One pair of wb_table_hash. */
    method PackEntry(v: Value, j: nat, depth: nat) returns (ok: bool)
      requires Valid() && WellFormed(v) && v.Table? && j < |v.entries|
      modifies this
      ensures ok <==> Fits(v.entries[j].value, depth)
      ensures ok ==> Valid() && contents == old(contents) + EncodeScalar(v.entries[j].key) + Encode(v.entries[j].value)
      ensures !ok ==> blocks == []
      decreases v, 0, 1
    {
      ok := PackLeaf(Atom(v.entries[j].key), depth);
      if ok {
        ok := PackOne(v.entries[j].value, depth);
      }
    }

    /** wb_table_hash before the final nil. */
    method PackHash(v: Value, depth: nat) returns (ok: bool)
      requires Valid() && WellFormed(v) && v.Table? && depth <= MAX_DEPTH + 1
      modifies this
      ensures ok <==> HashFits(v, depth, |v.entries|)
      ensures ok ==> Valid() && contents == old(contents) + EncodeHash(v, 0)
      ensures !ok ==> blocks == []
      decreases v, 0, 2
    {
      var j := 0;
      while j < |v.entries|
        invariant 0 <= j <= |v.entries|
        invariant Valid() && HashFits(v, depth, j)
        invariant contents + EncodeHash(v, j) == old(contents) + EncodeHash(v, 0)
      {
        if !InArray(v.entries[j].key, v.length) {
          ghost var before := contents;
          ok := PackEntry(v, j, depth);
          if !ok {
            return;
          }
          EntryWritten(before, v, j);
        } else {
          EntrySkipped(v, j);
        }
        HashFitsNext(v, depth, j);
        j := j + 1;
      }
      ok := true;
    }
  }

  // ------------------------------------------------------------ tables

  lemma ArrayFitsNext(v: Value, depth: nat, i: int64)
    requires WellFormed(v) && v.Table? && i >= 1
    ensures var k := Find(v.entries, Int(i));
            ArrayFits(v, depth, i) <==>
            ArrayFits(v, depth, i - 1) && Fits(if k < |v.entries| then v.entries[k].value else Nil, depth)
  {
    var k := Find(v.entries, Int(i));
    assert k < |v.entries| ==> InArray(v.entries[k].key, i);
  }

  lemma TableFits(v: Value, depth: nat)
    requires WellFormed(v) && v.Table? && depth <= MAX_DEPTH
    ensures Fits(v, depth) <==> ArrayFits(v, depth + 1, v.length) && HashFits(v, depth + 1, |v.entries|)
  {
    if depth < MAX_DEPTH {
      FitsTable(v, depth);
    } else if v.entries != [] {
      assert !Fits(v.entries[0].value, depth + 1);
      var key := v.entries[0].key;
      assert InArray(key, v.length) || !InArray(key, v.length);
    }
  }

  lemma TableWritten(before: seq<byte>, v: Value)
    requires WellFormed(v) && v.Table?
    ensures before + EncodeSize(v.length) + EncodeArray(v, 1) + EncodeHash(v, 0) + [0] == before + Encode(v)
  {
    var a, b, c := EncodeSize(v.length), EncodeArray(v, 1), EncodeHash(v, 0);
    assert before + a + b + c + [0] == before + (a + b + c + [0]);
  }

  lemma ElementWritten(before: seq<byte>, v: Value, i: int64)
    requires WellFormed(v) && v.Table? && 1 <= i <= v.length
    ensures before + EncodeElement(v, i) + EncodeArray(v, i + 1) == before + EncodeArray(v, i)
  {
    Assoc(before, EncodeElement(v, i), EncodeArray(v, i + 1));
  }

  lemma EntrySkipped(v: Value, j: nat)
    requires WellFormed(v) && v.Table? && j < |v.entries| && InArray(v.entries[j].key, v.length)
    ensures EncodeHash(v, j + 1) == EncodeHash(v, j)
  {
  }

  lemma HashFitsNext(v: Value, depth: nat, j: nat)
    requires v.Table? && j < |v.entries| && HashFits(v, depth, j)
    ensures HashFits(v, depth, j + 1) <==>
            InArray(v.entries[j].key, v.length) || (depth <= MAX_DEPTH && Fits(v.entries[j].value, depth))
  {
  }

  lemma EntryWritten(before: seq<byte>, v: Value, j: nat)
    requires WellFormed(v) && v.Table? && j < |v.entries| && !InArray(v.entries[j].key, v.length)
    ensures before + EncodeScalar(v.entries[j].key) + Encode(v.entries[j].value) + EncodeHash(v, j + 1) ==
            before + EncodeHash(v, j)
  {
  }

  /** luaseri_pack: every value in turn, then the chain as one buffer. */
  method Pack(vs: seq<Value>) returns (r: Result<seq<byte>>)
    requires forall i :: 0 <= i < |vs| ==> WellFormed(vs[i])
    ensures r.Ok? <==> forall i :: 0 <= i < |vs| ==> Packable(vs[i], 32)
    ensures r.Ok? ==> (forall i :: 0 <= i < |vs| ==> Fits(vs[i], 0)) && r.value == EncodeAll(vs)
  {
    var wb := new Writer(seq(BLOCK_SIZE, _ => 0));
    var i := 0;
    while i < |vs|
      invariant 0 <= i <= |vs| && wb.Valid() && fresh(wb)
      invariant forall j :: 0 <= j < i ==> Fits(vs[j], 0) && Packable(vs[j], 32)
      invariant wb.contents + EncodeAll(vs[i..]) == EncodeAll(vs)
    {
      ghost var before := wb.contents;
      FitsExactly(vs[i], 0, 32);
      var ok := wb.PackOne(vs[i], 0);
      if !ok {
        return Error("serialize can't pack");
      }
      assert vs[i..][1..] == vs[i + 1..];
      Assoc(before, Encode(vs[i]), EncodeAll(vs[i + 1..]));
      i := i + 1;
    }
    var flat := wb.Flat();
    r := Ok(flat);
  }

  // ------------------------------------------------------------ reading

  /** struct read_block. */
  class Reader {
    const buffer: seq<byte>
    var len: nat
    var ptr: nat

    ghost predicate Valid()
      reads this
    {
      ptr + len == |buffer|
    }

    ghost function Left(): seq<byte>
      requires Valid()
      reads this
    {
      buffer[ptr..]
    }

    /** rball_init. */
    constructor (buffer: seq<byte>)
      ensures Valid() && Left() == buffer
    {
      this.buffer, len, ptr := buffer, |buffer|, 0;
    }

    /** rb_read. */
    method Read(sz: nat) returns (r: Option<seq<byte>>)
      requires Valid()
      modifies this
      ensures Valid() && Reads(Take(old(Left()), sz), r, Left())
      ensures r.None? ==> len == old(len)
      ensures r.Some? ==> len == old(len) - sz
    {
      if len < sz {
        return None;
      }
      assert Left()[..sz] == buffer[ptr..ptr + sz] && Left()[sz..] == buffer[ptr + sz..];
      r := Some(buffer[ptr..ptr + sz]);
      ptr, len := ptr + sz, len - sz;
    }

    method ReadNumber(width: nat, signed: bool) returns (r: Option<int64>)
      requires Valid() && (width == 1 || width == 2 || width == 4 || width == 8) && (width == 8 ==> signed)
      modifies this
      ensures Valid() && Reads(Number(old(Left()), width, signed), r, Left()) && len <= old(len)
    {
      var b := Read(width);
      if b.None? {
        return None;
      }
      LeBound(b.value);
      PowValues();
      r := Some(if signed then Signed(LeNat(b.value), width) else LeNat(b.value));
    }

    /** get_integer. */
    method ReadInteger(cookie: nat) returns (r: Option<int64>)
      requires Valid()
      modifies this
      ensures Valid() && Reads(GetInteger(old(Left()), cookie), r, Left()) && len <= old(len)
    {
      match cookie {
        case 0 => r := Some(0);
        case 1 => r := ReadNumber(1, false);
        case 2 => r := ReadNumber(2, false);
        case 4 => r := ReadNumber(4, true);
        case 6 => r := ReadNumber(8, true);
        case _ => r := None;
      }
    }

    /** get_real and get_pointer. */
    method ReadWord() returns (r: Option<word64>)
      requires Valid()
      modifies this
      ensures Valid() && Reads(GetWord(old(Left())), r, Left()) && len <= old(len)
    {
      var b := Read(8);
      if b.None? {
        return None;
      }
      LeBound(b.value);
      PowValues();
      r := Some(LeNat(b.value));
    }

    /** The cases of push_value other than tables. */
    method ReadAtom(t: nat, cookie: nat) returns (r: Option<Plain>)
      requires Valid()
      modifies this
      ensures Valid() && Reads(GetAtom(old(Left()), t, cookie), r, Left()) && len <= old(len)
    {
      r := None;
      if t == 0 {
        r := Some(PNil);
      } else if t == 1 {
        r := Some(PAtom(Bool(cookie != 0)));
      } else if t == 2 && cookie == 8 {
        var w := ReadWord();
        if w.Some? { r := Some(PAtom(Real(w.value))); }
      } else if t == 2 {
        var i := ReadInteger(cookie);
        if i.Some? { r := Some(PAtom(Int(i.value))); }
      } else if t == 3 {
        var w := ReadWord();
        if w.Some? { r := Some(PAtom(Pointer(w.value))); }
      } else if t == 4 {
        var s := Read(cookie);
        if s.Some? { r := Some(PAtom(Str(s.value))); }
      } else if t == 5 && (cookie == 2 || cookie == 4) {
        var n := Read(cookie);
        if n.Some? {
          var s := Read(LeNat(n.value));
          if s.Some? { r := Some(PAtom(Str(s.value))); }
        }
      }
    }

    /** The array size at the head of unpack_table. */
    method ReadSize(cookie: nat) returns (r: Option<int32>)
      requires Valid() && cookie < 32
      modifies this
      ensures Valid() && Reads(GetSize(old(Left()), cookie), r, Left()) && len <= old(len)
    {
      if cookie != MAX_COOKIE - 1 {
        return Some(cookie);
      }
      var t := Read(1);
      if t.None? || t.value[0] % 8 != 2 || t.value[0] / 8 == 8 {
        return None;
      }
      var i := ReadInteger(t.value[0] / 8);
      r := if i.Some? then Some(ToInt(i.value)) else None;
    }

    /** unpack_one and push_value. */
    method UnpackOne() returns (r: Option<Plain>)
      requires Valid()
      modifies this
      ensures Valid() && Reads(Decode(old(Left())), r, Left()) && len <= old(len)
      ensures r.Some? ==> len < old(len)
      decreases len, 2
    {
      var t := Read(1);
      if t.None? {
        return None;
      }
      if t.value[0] % 8 == 6 {
        r := UnpackTable(t.value[0] / 8);
      } else {
        r := ReadAtom(t.value[0] % 8, t.value[0] / 8);
      }
    }

    /** unpack_table. */
    method UnpackTable(cookie: nat) returns (r: Option<Plain>)
      requires Valid() && cookie < 32
      modifies this
      ensures Valid() && Reads(DecodeTable(old(Left()), cookie), r, Left()) && len <= old(len)
      decreases len, 4
    {
      var n := ReadSize(cookie);
      if n.None? {
        return None;
      }
      var m: map<Scalar, Plain> := map[];
      var i: int := 1;
      ghost var start := Left();
      while i <= n.value
        invariant Valid() && len <= old(len)
        invariant 1 <= i && (n.value >= 0 ==> i - 1 <= n.value)
        invariant i <= n.value ==> DecodeArray(start, 1, n.value, map[]) == DecodeArray(Left(), i, n.value, m)
        invariant i > n.value ==> DecodeArray(start, 1, n.value, map[]) == Got(m, Left())
      {
        var v := UnpackOne();
        if v.None? {
          return None;
        }
        m := RawSet(m, Int(i), v.value);
        i := i + 1;
      }
      start := Left();
      ghost var m0 := m;
      while true
        invariant Valid() && len <= old(len)
        invariant DecodeHash(start, m0) == DecodeHash(Left(), m)
        decreases len
      {
        var k := UnpackOne();
        if k.None? || k.value.PTable? {
          return None;
        }
        if k.value.PNil? {
          return Some(PTable(m));
        }
        var v := UnpackOne();
        if v.None? {
          return None;
        }
        m := RawSet(m, k.value.a, v.value);
      }
    }
  }

  /** luaseri_unpack. */
  method Unpack(buffer: seq<byte>) returns (r: Result<seq<Plain>>)
    ensures r == DecodeAll(buffer)
  {
    var rb := new Reader(buffer);
    var vs: seq<Plain> := [];
    PrefixedNone(DecodeAll(buffer));
    while rb.len > 0
      invariant rb.Valid() && fresh(rb)
      invariant DecodeAll(buffer) == Prefixed(vs, DecodeAll(rb.Left()))
      decreases rb.len
    {
      var v := rb.UnpackOne();
      if v.None? {
        return Error("Invalid serialize stream");
      }
      PrefixedNext(vs, v.value, DecodeAll(rb.Left()));
      vs := vs + [v.value];
    }
    assert rb.Left() == [] && vs + [] == vs;
    r := Ok(vs);
  }

  function Prefixed<T>(vs: seq<T>, r: Result<seq<T>>): Result<seq<T>> {
    if r.Ok? then Ok(vs + r.value) else r
  }

  lemma PrefixedNone<T>(r: Result<seq<T>>)
    ensures Prefixed([], r) == r
  {
    assert r.Ok? ==> [] + r.value == r.value;
  }

  lemma PrefixedNext<T>(vs: seq<T>, v: T, r: Result<seq<T>>)
    ensures Prefixed(vs + [v], r) == Prefixed(vs, Prefixed([v], r))
  {
    assert r.Ok? ==> vs + [v] + r.value == vs + ([v] + r.value);
  }

  /** Packing and unpacking as messages do: the values come back exactly when
      packing succeeds. */
  method PackUnpack(vs: seq<Value>) returns (r: Result<seq<Plain>>)
    requires forall i :: 0 <= i < |vs| ==> WellFormed(vs[i])
    ensures r.Ok? <==> forall i :: 0 <= i < |vs| ==> Packable(vs[i], 32)
    ensures r.Ok? ==> r.value == Meanings(vs)
  {
    var packed := Pack(vs);
    if packed.Ok? {
      RoundTrip(vs);
      r := Unpack(packed.value);
    } else {
      r := Error(packed.message);
    }
  }
}
