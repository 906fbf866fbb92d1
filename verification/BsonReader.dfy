/** The decoder of lua-bson.c: cursors over the bytes of nested documents. */
module BsonReader {
  import opened Wrappers
  import opened Bytes
  import opened Bson

  /** struct bson_reader. */
  class Reader {
    const bytes: seq<byte>
    var ptr: nat
    var size: nat

    ghost predicate Valid()
      reads this
    {
      ptr + size == |bytes|
    }

    ghost function Left(): (s: seq<byte>)
      requires Valid()
      reads this
      ensures |s| == size
    {
      bytes[ptr..]
    }

    constructor (bytes: seq<byte>)
      ensures Valid() && Left() == bytes && ptr == 0
    {
      this.bytes, ptr, size := bytes, 0, |bytes|;
    }

    /** check_reader and read_bytes. */
    method ReadBytes(sz: nat) returns (r: Option<seq<byte>>)
      requires Valid()
      modifies this
      ensures Valid() && Reads(Take(old(Left()), sz), r, Left()) && size <= old(size)
    {
      if size < sz {
        return None;
      }
      assert Left()[..sz] == bytes[ptr..ptr + sz] && Left()[sz..] == bytes[ptr + sz..];
      r := Some(bytes[ptr..ptr + sz]);
      ptr, size := ptr + sz, size - sz;
    }

    /** read_byte. */
    method ReadByte() returns (r: Option<byte>)
      requires Valid()
      modifies this
      ensures Valid() && size <= old(size)
      ensures old(Left()) == [] ==> r == None
      ensures old(Left()) != [] ==> r == Some(old(Left())[0]) && Left() == old(Left())[1..] && size < old(size)
    {
      var b := ReadBytes(1);
      r := if b.Some? then Some(b.value[0]) else None;
    }

    /** read_int32. */
    method ReadInt32() returns (r: Option<int32>)
      requires Valid()
      modifies this
      ensures Valid() && Reads(GetInt32(old(Left())), r, Left()) && size <= old(size)
    {
      var b := ReadBytes(4);
      if b.None? {
        return None;
      }
      LeBound(b.value);
      PowValues();
      r := Some(ToInt32(LeNat(b.value)));
    }

    /** read_int64 and read_double. */
    method ReadWord() returns (r: Option<word64>)
      requires Valid()
      modifies this
      ensures Valid() && Reads(GetWord(old(Left())), r, Left()) && size <= old(size)
    {
      var b := ReadBytes(8);
      if b.None? {
        return None;
      }
      LeBound(b.value);
      PowValues();
      r := Some(LeNat(b.value));
    }

    /** read_cstring. */
    method ReadString() returns (r: Option<seq<byte>>)
      requires Valid()
      modifies this
      ensures Valid() && Reads(GetString(old(Left())), r, Left()) && size <= old(size)
      ensures r.Some? ==> size < old(size)
    {
      ghost var s := Left();
      var i := 0;
      while i < size && bytes[ptr + i] != 0
        invariant 0 <= i <= size && NulFree(s[..i])
      {
        assert s[..i + 1] == s[..i] + [bytes[ptr + i]];
        i := i + 1;
      }
      if i == size {
        assert s[..i] == s;
        NoEnd(s);
        return None;
      }
      assert s == (s[..i] + [0]) + s[i + 1..];
      StringRoundTrip(s[..i], s[i + 1..]);
      assert bytes[ptr..ptr + i] == s[..i] && bytes[ptr + i + 1..] == s[i + 1..];
      r := Some(bytes[ptr..ptr + i]);
      ptr, size := ptr + i + 1, size - i - 1;
    }

    /** The cases of unpack_dict that are not tables. */
    method ReadAtom(t: byte) returns (r: Option<Atom>)
      requires Valid()
      modifies this
      ensures Valid() && Reads(GetAtom(t, old(Left())), r, Left()) && size <= old(size)
    {
      r := None;
      if t == 1 || t == 9 || t == 18 {
        var w := ReadWord();
        if w.Some? {
          r := Some(if t == 1 then Real(w.value) else if t == 9 then Date(Seconds(ToInt64(w.value)))
            else Int64(ToInt64(w.value)));
        }
      } else if t == 8 {
        var b := ReadByte();
        if b.Some? { r := Some(Bool(b.value != 0)); }
      } else if t == 2 {
        r := ReadText();
      } else if t == 5 {
        r := ReadBinary();
      } else if t == 7 {
        var b := ReadBytes(12);
        if b.Some? { r := Some(ObjectId(b.value)); }
      } else if t == 255 {
        r := Some(MinKey);
      } else if t == 127 {
        r := Some(MaxKey);
      } else if t == 10 {
        r := Some(Null);
      } else if t == 11 {
        r := ReadRegex();
      } else if t == 16 {
        var i := ReadInt32();
        if i.Some? { r := Some(Int32(i.value)); }
      } else if t == 17 {
        r := ReadTimestamp();
      } else if 12 <= t <= 15 {
        r := ReadRaw(t);
      }
    }

    /** The types that are copied with their length: the cursor goes on from the value
        read, the copy starts at the length. */
    method ReadRaw(kind: RawKind) returns (r: Option<Atom>)
      requires Valid()
      modifies this
      ensures Valid() && Reads(GetAtom(kind, old(Left())), r, Left()) && size <= old(size)
    {
      ghost var s := Left();
      var start := ptr;
      var n := ReadInt32();
      if n.None? || 4 + RawRest(kind, n.value) < 0 {
        return None;
      }
      var ok := Skip(RawRest(kind, n.value));
      if !ok {
        return None;
      }
      assert s[..ptr - start] == bytes[start..ptr] && Left() == s[ptr - start..];
      r := Some(Raw(kind, bytes[start..ptr]));
    }

    /** read_bytes where only the cursor matters; a negative size takes it back. */
    method Skip(sz: int) returns (ok: bool)
      requires Valid() && -sz <= ptr
      modifies this
      ensures ok <==> sz <= old(size)
      ensures Valid() && (ok ==> ptr == old(ptr) + sz) && (!ok ==> ptr == old(ptr))
    {
      ok := size >= sz;
      if ok {
        ptr, size := ptr + sz, size - sz;
      }
    }

    method ReadTimestamp() returns (r: Option<Atom>)
      requires Valid()
      modifies this
      ensures Valid() && Reads(GetAtom(17, old(Left())), r, Left()) && size <= old(size)
    {
      var i := ReadInt32();
      if i.None? {
        return None;
      }
      var j := ReadInt32();
      if j.None? {
        return None;
      }
      r := Some(Timestamp((i.value as int) % 0x1_0000_0000, (j.value as int) % 0x1_0000_0000));
    }

    method ReadRegex() returns (r: Option<Atom>)
      requires Valid()
      modifies this
      ensures Valid() && Reads(GetAtom(11, old(Left())), r, Left()) && size <= old(size)
    {
      var p := ReadString();
      if p.None? {
        return None;
      }
      var o := ReadString();
      r := if o.Some? then Some(Regex(p.value, o.value)) else None;
    }

    method ReadText() returns (r: Option<Atom>)
      requires Valid()
      modifies this
      ensures Valid() && Reads(GetAtom(2, old(Left())), r, Left()) && size <= old(size)
    {
      var n := ReadInt32();
      if n.None? || n.value <= 0 {
        return None;
      }
      var b := ReadBytes(n.value);
      r := if b.Some? then Some(Str(b.value[..n.value - 1])) else None;
    }

    method ReadBinary() returns (r: Option<Atom>)
      requires Valid()
      modifies this
      ensures Valid() && Reads(GetAtom(5, old(Left())), r, Left()) && size <= old(size)
    {
      var n := ReadInt32();
      if n.None? || n.value < 0 {
        return None;
      }
      var sub := ReadByte();
      if sub.None? {
        return None;
      }
      var b := ReadBytes(n.value);
      r := if b.Some? then Some(Binary([sub.value] + b.value)) else None;
    }

    /** The value of an element: a table or one of the other cases of unpack_dict. */
    method UnpackValue(t: byte) returns (r: Option<Lua>)
      requires Valid()
      modifies this
      ensures Valid() && Reads(DecodeValue(t, old(Left())), r, Left()) && size <= old(size)
      decreases size, 2
    {
      if t == 3 || t == 4 {
        r := UnpackDict(t == 4);
      } else {
        var a := ReadAtom(t);
        r := if a.Some? then Some(Show(a.value)) else None;
      }
    }

    /** unpack_dict. */
    method UnpackDict(isArray: bool) returns (r: Option<Lua>)
      requires Valid()
      modifies this
      ensures Valid() && Reads(Decode(old(Left()), isArray), r, Left()) && size <= old(size)
      decreases size, 1
    {
      var inner := ReadInner();
      if inner.None? {
        return None;
      }
      var m := UnpackElements(inner.value, isArray);
      r := if m.Some? then Some(Table(m.value)) else None;
    }

    /** The head of unpack_dict: the length, the elements and the end. */
    method ReadInner() returns (r: Option<seq<byte>>)
      requires Valid()
      modifies this
      ensures Valid() && Reads(GetInner(old(Left())), r, Left()) && size <= old(size)
      ensures r.Some? ==> |r.value| < old(size)
    {
      var n := ReadInt32();
      if n.None? || n.value < 5 {
        return None;
      }
      var inner := ReadBytes(n.value - 5);
      if inner.None? {
        return None;
      }
      var end := ReadByte();
      r := if end == Some(0) then inner else None;
    }
  }

  lemma {:induction false} NoEnd(s: seq<byte>)
    requires NulFree(s)
    ensures GetString(s) == Invalid
  {
    if s != [] {
      NoEnd(s[1..]);
    }
  }

  /** One round of the loop of unpack_dict. */
  method UnpackElement(t: Reader, isArray: bool, m: map<Key, Lua>) returns (r: Option<map<Key, Lua>>)
    requires t.Valid() && t.size > 0
    modifies t
    ensures t.Valid() && ReadsElement(DecodeElement(old(t.Left()), isArray, m), r, t.Left())
    ensures r.Some? ==> t.size < old(t.size)
    decreases t.size, 3
  {
    var bt := t.ReadByte();
    var key := t.ReadString();
    if key.None? {
      return None;
    }
    var v := t.UnpackValue(bt.value);
    r := if v.Some? then Some(m[KeyOf(isArray, key.value) := v.value]) else None;
  }

  ghost predicate ReadsElement(d: Option<Reading>, r: Option<map<Key, Lua>>, left: seq<byte>) {
    if d.None? then r.None? else r == Some(d.value.m) && left == d.value.t
  }

  /** The loop of unpack_dict over the elements of one document. */
  method UnpackElements(inner: seq<byte>, isArray: bool) returns (r: Option<map<Key, Lua>>)
    ensures r == DecodeElements(inner, isArray, map[])
    decreases |inner|, 4
  {
    var t := new Reader(inner);
    var m: map<Key, Lua> := map[];
    while t.size > 0
      invariant t.Valid() && fresh(t) && t.size <= |inner|
      invariant DecodeElements(inner, isArray, map[]) == DecodeElements(t.Left(), isArray, m)
      decreases t.size
    {
      var next := UnpackElement(t, isArray, m);
      if next.None? {
        return None;
      }
      m := next.value;
    }
    assert t.Left() == [];
    r := Some(m);
  }
}
