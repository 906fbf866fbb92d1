/** The encoder of lua-bson.c: a growing buffer whose document lengths are filled
    in when the document is complete. */
module BsonBuffer {
  import opened Wrappers
  import opened Bytes
  import opened Bson
  import opened BsonLua
  import opened BsonIndex
  import opened BsonCount
  import opened BsonClass
  import Utf8

  const DEFAULT_CAP: nat := 64

  /** The numbers of a size_t. */
  const SIZES: nat := 0x1_0000_0000_0000_0000

  /** How an operation ends: the bytes are written, the value is refused, or the encoder
      has left its memory. */
  datatype Outcome = Written | Refused | Outside

  lemma JoinSnoc(ps: seq<Piece>, j: nat)
    requires j < |ps|
    ensures Join(ps[..j + 1]) == Join(ps[..j]) + (Lead(ps[j]) + ps[j].body)
  {
    JoinSplit(ps[..j + 1], j);
    assert ps[..j + 1][..j] == ps[..j] && ps[..j + 1][j..] == [ps[j]];
    assert [ps[j]][1..] == [] && ps[j].body + [] == ps[j].body;
  }

  lemma Patched(before: seq<byte>, junk: seq<byte>, e: seq<byte>, n: seq<byte>)
    requires |junk| == |n|
    ensures Overwrite(before + junk + e, |before|, n) == before + (n + e)
  {
  }

  lemma Start(base: seq<byte>, ps: seq<Piece>)
    ensures base == base + Join(ps[..0])
  {
  }

  lemma Grown(base: seq<byte>, ps: seq<Piece>, j: nat)
    requires j < |ps|
    ensures base + Join(ps[..j]) + (Lead(ps[j]) + ps[j].body) == base + Join(ps[..j + 1])
  {
    JoinSnoc(ps, j);
    Assoc(base, Join(ps[..j]), Lead(ps[j]) + ps[j].body);
  }

  /** Filling in the length completes the document. */
  lemma Completed(before: seq<byte>, junk: seq<byte>, ps: seq<Piece>)
    requires |junk| == 4
    ensures var all := before + junk + Join(ps[..|ps|]) + [0];
            |before| + 4 <= |all| && Overwrite(all, |before|, Le32(|all| - |before|)) == before + Wrap(Join(ps))
  {
    assert ps[..|ps|] == ps;
    Assoc(before + junk, Join(ps), [0]);
    Patched(before, junk, Join(ps) + [0], Le32(|Join(ps)| + 5));
  }

  /** The element written for the `j`-th entry of a table. */
  lemma PieceOf(v: LuaValue, j: nat)
    requires v.TableValue? && j < Count(v) && Present(v, j) && KeyBytes(v, j).Some?
    ensures Size(Wire(v)) == Count(v)
    ensures var c := Wire(Child(v, j)); Pieces(Wire(v))[j] == Piece(Type(c), KeyBytes(v, j).value, Encode(c))
  {
  }

  /** The bytes of an element. */
  function Element(a: Atom, key: seq<byte>): seq<byte> {
    [AtomType(a)] + (key + [0]) + Body(a)
  }

  function Appended(key: seq<byte>, w: Value): seq<byte> {
    [Type(w)] + (key + [0]) + Encode(w)
  }

  lemma ObjectType(t: byte, r: seq<byte>)
    ensures ClassifyObject(t, r).Some? ==> AtomType(ClassifyObject(t, r).value) == t
  {
  }

  lemma ElementFrom(before: seq<byte>, key: seq<byte>, a: Atom)
    ensures before + ([AtomType(a)] + (key + [0])) + Body(a) == before + Element(a, key)
  {
    Assoc(before, [AtomType(a)] + (key + [0]), Body(a));
  }

  /** The scan of the BSON_REGEX case for a NUL from the end, in size_t: a string of two
      bytes is scanned from SIZES - 1 and finds its own first byte. */
  method ScanRegex(s: LuaString) returns (i: nat)
    requires IsObject(s) && s[1] == 11
    ensures |s| == 2 ==> i == 0
    ensures |s| > 2 ==> i <= |s| - 3 && (HasInnerNul(s[2..]) <==> i < |s| - 3)
    ensures |s| > 2 && i < |s| - 3 ==> LastNul(s[2..], |s| - 3) == |s| - 3 - i - 1
  {
    ghost var r := s[2..];
    var len := if |s| == 2 then SIZES - 1 else |s| - 3;
    i := 0;
    while i < len && s[(len - i + 1) % SIZES] != 0
      invariant 0 <= i <= len && (|s| == 2 ==> i == 0)
      invariant |s| > 2 ==> LastNul(r, len - i) == LastNul(r, len)
    {
      LastNulStep(s, len - i);
      i := i + 1;
    }
    if |s| > 2 && i < len {
      LastNulStep(s, len - i);
    }
  }

  lemma LastNulStep(s: LuaString, n: nat)
    requires |s| > 2 && 0 < n <= |s| - 2
    ensures (n + 1) % SIZES == n + 1
    ensures LastNul(s[2..], n) == if s[n + 1] == 0 then n - 1 else LastNul(s[2..], n - 1)
  {
  }

  lemma SplitAt(s: seq<byte>, k: nat)
    requires IsObject(s) && s[1] == 11 && |s| > 2 && k < |s| - 3 && LastNul(s[2..], |s| - 3) == k
    ensures HasInnerNul(s[2..]) && Classify(s) == Some(Regex(s[2..2 + k], s[2 + (k + 1)..2 + (|s| - 3)]))
  {
    var r := s[2..];
    assert r[..k] == s[2..2 + k] && r[k + 1..|r| - 1] == s[2 + (k + 1)..2 + (|s| - 3)];
  }

  /** struct bson. */
  class Buffer {
    ghost var contents: seq<byte>
    /** What was reserved when a size wrapped. */
    ghost var room: nat
    var size: nat
    var ptr: seq<byte>

    ghost predicate Valid()
      reads this
    {
      size <= |ptr| && |ptr| > 0 && contents == ptr[..size]
    }

    /** bson_create. */
    constructor ()
      ensures Valid() && contents == []
    {
      ptr := seq(DEFAULT_CAP, _ => 0);
      size := 0;
      contents := [];
    }

    /** bson_reserve. */
    method Reserve(sz: nat)
      requires Valid()
      modifies this`ptr
      ensures Valid() && size + sz <= |ptr|
    {
      if size + sz <= |ptr| {
        return;
      }
      var cap := 2 * |ptr|;
      while cap <= size + sz
        invariant cap >= 2 * |ptr|
        decreases size + sz - cap
      {
        cap := 2 * cap;
      }
      ptr := ptr[..size] + seq(cap - size, _ => 0);
    }

    /** Bytes at the end of the buffer. */
    method Write(data: seq<byte>)
      requires Valid()
      modifies this`ptr, this`size, this`contents
      ensures Valid() && contents == old(contents) + data
    {
      Reserve(|data|);
      ptr := ptr[..size] + data + ptr[size + |data|..];
      size := size + |data|;
      contents := contents + data;
    }

    /** reserve_length. */
    method ReserveLength() returns (off: nat)
      requires Valid()
      modifies this`ptr, this`size, this`contents
      ensures Valid() && off == |old(contents)|
      ensures exists junk :: |junk| == 4 && contents == old(contents) + junk
    {
      off := size;
      Reserve(4);
      ghost var junk := ptr[size..size + 4];
      size := size + 4;
      contents := ptr[..size];
      assert contents == old(contents) + junk;
    }

    /** write_length. */
    method WriteLength(n: int, off: nat)
      requires Valid() && off + 4 <= size && n >= -1
      modifies this`ptr, this`contents
      ensures Valid() && |contents| >= off + 4 && |contents| == |old(contents)|
      ensures contents == Overwrite(old(contents), off, Le32(n))
    {
      ptr := ptr[..off] + Le32(n) + ptr[off + 4..];
      contents := ptr[..size];
    }

    /** write_string for a string and its size. */
    method WriteString(s: seq<byte>) returns (ok: bool)
      requires Valid()
      modifies this`ptr, this`size, this`contents
      ensures ok == Passes(s) && Valid()
      ensures ok ==> contents == old(contents) + (s + [0])
    {
      Reserve(|s| + 1);
      var o := Utf8.CopyString(s + [0], |s|, |ptr| - size);
      assert Utf8.Before(s + [0]) == s;
      ok := o.Done?;
      if ok {
        ptr := ptr[..size] + (s + [0]) + ptr[size + |s| + 1..];
        size := size + |s| + 1;
        contents := contents + (s + [0]);
      }
    }

    /** write_string for a size that has wrapped, for which nothing is reserved. */
    method WriteWrapped(r: seq<byte>, sz: nat) returns (out: Outcome)
      requires Valid() && |r| + 1 < sz && SIZES - 2 <= sz < SIZES
      modifies this`room
      ensures Valid() && room == |ptr| - size
      ensures out == if Overruns(r, room) then Outside else Refused
    {
      room := |ptr| - size;
      var o := Utf8.CopyString(r + [0], sz, |ptr| - size);
      assert Utf8.Before(r + [0]) == r;
      out := if o.Outside? then Outside else Refused;
    }

    /** append_key. */
    method AppendKey(t: byte, key: seq<byte>) returns (ok: bool)
      requires Valid()
      modifies this`ptr, this`size, this`contents
      ensures ok == Passes(key) && Valid()
      ensures ok ==> contents == old(contents) + ([t] + (key + [0]))
    {
      Write([t]);
      ok := WriteString(key);
      Assoc(old(contents), [t], key + [0]);
    }

    /** A text with its length in front, which is filled in afterwards. */
    method AppendText(s: seq<byte>) returns (ok: bool)
      requires Valid()
      modifies this`ptr, this`size, this`contents
      ensures ok == Passes(s)
      ensures Valid() && (ok ==> contents == old(contents) + Body(Str(s)))
    {
      ghost var before := contents;
      var off := ReserveLength();
      ghost var junk :| |junk| == 4 && contents == before + junk;
      ok := WriteString(s);
      if ok {
        ghost var text := s + [0];
        assert contents == before + junk + text;
        WriteLength(|s| + 1, off);
        Patched(before, junk, text, Le32(|s| + 1));
      }
    }

    /** write_binary: the length does not count the subtype. */
    method AppendBinary(data: seq<byte>)
      requires Valid()
      modifies this`ptr, this`size, this`contents
      ensures Valid() && contents == old(contents) + Body(Binary(data))
    {
      var off := ReserveLength();
      ghost var junk :| |junk| == 4 && contents == old(contents) + junk;
      Write(data);
      WriteLength(|data| - 1, off);
      Patched(old(contents), junk, data, Le32(|data| - 1));
    }

    /** The BSON_REGEX case: the last NUL but the final one separates two texts.  The
        scan goes down from the end; without such a NUL the first size wraps. */
    method AppendRegex(s: LuaString) returns (out: Outcome)
      requires Valid() && IsObject(s) && s[1] == 11
      modifies this`ptr, this`size, this`contents, this`room
      ensures HasInnerNul(s[2..]) ==> !out.Outside? && (out.Written? <==> Texts(Classify(s).value))
      ensures !HasInnerNul(s[2..]) ==> out == if Overruns(s[2..], room) then Outside else Refused
      ensures out.Written? ==> Valid() && contents == old(contents) + Body(Classify(s).value)
    {
      var i := ScanRegex(s);
      if |s| > 2 && i < |s| - 3 {
        var k := |s| - 3 - i - 1;
        SplitAt(s, k);
        var ok := WriteTwo(s[2..2 + k], s[2 + (k + 1)..2 + (|s| - 3)]);
        out := if ok then Written else Refused;
      } else {
        out := WriteWrapped(s[2..], if |s| == 2 then SIZES - 2 else SIZES - 1);
      }
    }

    /** The two texts of a regular expression. */
    method WriteTwo(p: seq<byte>, o: seq<byte>) returns (ok: bool)
      requires Valid()
      modifies this`ptr, this`size, this`contents
      ensures ok <==> Texts(Regex(p, o))
      ensures Valid() && (ok ==> contents == old(contents) + Body(Regex(p, o)))
    {
      ok := WriteString(p);
      if ok {
        ok := WriteString(o);
        Assoc(old(contents), p + [0], o + [0]);
      }
    }

    /** The cases of a string whose second byte is another type. */
    method AppendObject(t: byte, r: seq<byte>) returns (ok: bool)
      requires Valid() && t != 11
      modifies this`ptr, this`size, this`contents
      ensures ok <==> ClassifyObject(t, r).Some? && Texts(ClassifyObject(t, r).value)
      ensures Valid() && (ok ==> contents == old(contents) + Body(ClassifyObject(t, r).value))
    {
      ok := true;
      if t == 5 {
        AppendBinary(r);
      } else if t == 7 {
        if |r| != 12 {
          return false;
        }
        Write(r);
      } else if 12 <= t <= 15 {
        Write(r);
      } else if t == 9 {
        if |r| != 4 {
          return false;
        }
        Write(Le64(Unsigned(r) * 1000));
      } else if t == 17 {
        if |r| != 8 {
          return false;
        }
        Write(Le32(Unsigned(r[..4])) + Le32(Unsigned(r[4..])));
      } else if t == 10 || t == 127 || t == 255 {
        Write([]);
      } else {
        ok := false;
      }
    }

    /** append_number for an integer: 32 bits when they are enough. */
    method AppendInteger(key: seq<byte>, i: int64) returns (ok: bool)
      requires Valid()
      modifies this`ptr, this`size, this`contents
      ensures ok <==> Passes(key)
      ensures ok ==> Valid() && contents == old(contents) + Element(OfInteger(i), key)
    {
      if -0x8000_0000 <= i < 0x8000_0000 {
        ok := AppendKey(16, key);
        if ok {
          Write(Le32(i));
          ElementFrom(old(contents), key, Int32(i));
        }
      } else {
        ok := AppendKey(18, key);
        if ok {
          Write(Le64(i));
          ElementFrom(old(contents), key, Int64(i));
        }
      }
    }

    /** The LUA_TSTRING case of append_one. */
    method AppendString(key: seq<byte>, s: LuaString) returns (out: Outcome)
      requires Valid()
      modifies this`ptr, this`size, this`contents, this`room
      ensures out.Written? <==> Passes(key) && Classify(s).Some? && Texts(Classify(s).value)
      ensures out.Outside? <==> Passes(key) && Unsplit(s) && Overruns(s[2..], room)
      ensures out.Written? ==> Valid() && contents == old(contents) + Element(Classify(s).value, key)
    {
      if IsObject(s) {
        out := AppendTagged(key, s);
      } else {
        var ok := AppendKey(2, key);
        if ok {
          ok := AppendText(s);
          ElementFrom(old(contents), key, Str(s));
        }
        out := if ok then Written else Refused;
      }
    }

    method AppendTagged(key: seq<byte>, s: LuaString) returns (out: Outcome)
      requires Valid() && IsObject(s)
      modifies this`ptr, this`size, this`contents, this`room
      ensures out.Written? <==> Passes(key) && Classify(s).Some? && Texts(Classify(s).value)
      ensures out.Outside? <==> Passes(key) && Unsplit(s) && Overruns(s[2..], room)
      ensures out.Written? ==> Valid() && contents == old(contents) + Element(Classify(s).value, key)
    {
      var ok := AppendKey(s[1], key);
      if !ok {
        return Refused;
      }
      ObjectType(s[1], s[2..]);
      if s[1] == 11 {
        out := AppendRegex(s);
      } else {
        ok := AppendObject(s[1], s[2..]);
        out := if ok then Written else Refused;
      }
      if out.Written? { ElementFrom(old(contents), key, Classify(s).value); }
    }

    /** append_one for a value that is not a table. */
    method AppendScalar(key: seq<byte>, v: LuaValue) returns (out: Outcome)
      requires Valid() && !v.TableValue?
      modifies this`ptr, this`size, this`contents, this`room
      ensures out.Written? <==> Passes(key) && ToAtom(v).Some? && Texts(ToAtom(v).value)
      ensures out.Outside? <==> Passes(key) && v.String? && Unsplit(v.s) && Overruns(v.s[2..], room)
      ensures out.Written? ==> Valid() && contents == old(contents) + Element(ToAtom(v).value, key)
    {
      var ok := false;
      match v {
        case Boolean(b) =>
          ok := AppendKey(8, key);
          if ok {
            Write([if b then 1 else 0]);
            ElementFrom(old(contents), key, Bool(b));
          }
        case Integer(i) =>
          ok := AppendInteger(key, i);
        case Number(w) =>
          ok := AppendKey(1, key);
          if ok {
            Write(LeBytes(w, 8));
            ElementFrom(old(contents), key, Real(w));
          }
        case String(s) =>
          out := AppendString(key, s);
          return;
        case _ =>
      }
      out := if ok then Written else Refused;
    }

    /** append_one: the element is appended, or the value is refused, or the encoder
        leaves its memory. */
    method AppendOne(key: seq<byte>, v: LuaValue, depth: nat) returns (out: Outcome)
      requires Valid()
      modifies this`ptr, this`size, this`contents, this`room
      ensures out.Written? <==> Passes(key) && Accepts(v, depth)
      ensures out.Outside? <==> Passes(key) && Leaves(v, depth, room)
      ensures out.Written? ==> Valid() && contents == old(contents) + Appended(key, Wire(v))
      decreases v, 2
    {
      if v.TableValue? {
        out := AppendTable(key, v, depth + 1);
        LeavesTable(v, depth, room);
      } else {
        out := AppendScalar(key, v);
        LeavesScalar(v, depth, room);
      }
    }

    /** append_table. */
    method AppendTable(key: seq<byte>, v: LuaValue, depth: nat) returns (out: Outcome)
      requires Valid() && v.TableValue?
      modifies this`ptr, this`size, this`contents, this`room
      ensures out.Written? <==> Passes(key) && depth <= MAX_DEPTH && AcceptsAll(v, depth)
      ensures out.Outside? <==> Passes(key) && depth <= MAX_DEPTH && LeavesIn(v, depth, room)
      ensures out.Written? ==> Valid() && contents == old(contents) + Appended(key, Wire(v))
      decreases v, 1
    {
      if depth > MAX_DEPTH {
        return Refused;
      }
      var ok := AppendKey(if IsArray(v) then 4 else 3, key);
      if !ok {
        return Refused;
      }
      out := PackTable(v, depth);
      Assoc(old(contents), [Type(Wire(v))] + (key + [0]), Encode(Wire(v)));
    }

    /** pack_array and pack_simple_dict: the length is filled in at the end. */
    method PackTable(v: LuaValue, depth: nat) returns (out: Outcome)
      requires Valid() && v.TableValue?
      modifies this`ptr, this`size, this`contents, this`room
      ensures out.Written? <==> AcceptsAll(v, depth)
      ensures out.Outside? <==> LeavesIn(v, depth, room)
      ensures out.Written? ==> Valid() && contents == old(contents) + Encode(Wire(v))
      decreases v, 0, 2
    {
      var length := ReserveLength();
      ghost var junk :| |junk| == 4 && contents == old(contents) + junk;
      out := PackElements(v, depth, Pieces(Wire(v)));
      if out.Written? {
        Write([0]);
        WriteLength(size - length, length);
        Completed(old(contents), junk, Pieces(Wire(v)));
      }
    }

    /** The loops of pack_array and pack_simple_dict. */
    method PackElements(v: LuaValue, depth: nat, ghost ps: seq<Piece>) returns (out: Outcome)
      requires Valid() && v.TableValue? && ps == Pieces(Wire(v)) && |ps| == Count(v)
      modifies this`ptr, this`size, this`contents, this`room
      ensures out.Written? <==> AcceptsAll(v, depth)
      ensures out.Outside? <==> LeavesIn(v, depth, room)
      ensures out.Written? ==> Valid() && contents == old(contents) + Join(ps[..|ps|])
      decreases v, 0, 1
    {
      ghost var base := contents;
      Start(base, ps);
      for j := 0 to Count(v)
        invariant Valid() && contents == base + Join(ps[..j])
        invariant AcceptedTo(v, depth, j)
      {
        out := AppendElement(v, j, depth, base, ps);
        if !out.Written? {
          LeavesAt(v, depth, room, j);
          return;
        }
      }
      AcceptedStays(v, depth, room);
      out := Written;
    }

    method AppendElement(v: LuaValue, j: nat, depth: nat, ghost base: seq<byte>, ghost ps: seq<Piece>)
      returns (out: Outcome)
      requires Valid() && v.TableValue? && j < Count(v) && ps == Pieces(Wire(v)) && |ps| == Count(v)
      requires contents == base + Join(ps[..j])
      modifies this`ptr, this`size, this`contents, this`room
      ensures out.Written? <==> ElementAccepted(v, j, depth)
      ensures out.Outside? <==> KeyAccepted(v, j) && Present(v, j) && Leaves(Child(v, j), depth, room)
      ensures out.Written? ==> Valid() && contents == base + Join(ps[..j + 1])
      decreases v, 0, 0
    {
      var key := KeyBytes(v, j);
      if key.None? || !Present(v, j) {
        return Refused;
      }
      out := AppendOne(key.value, Child(v, j), depth);
      PieceOf(v, j);
      Grown(base, ps, j);
    }
  }

  /** What lencode gives: a document, an error, or nothing because it left its memory. */
  datatype Encoding = Document(bytes: seq<byte>) | NotEncoded | Left

  /** lencode of a table: a document exactly for the tables of module BsonClass, and it
      decodes to the table if and only if nothing in it is changed or lost.  It leaves its memory
      exactly when it reaches a regular expression without a NUL between two texts and
      copying that overruns the `room` that is free then. */
  method EncodeDocument(v: LuaValue) returns (r: Encoding, ghost room: nat)
    requires v.TableValue?
    ensures BsonLua.WellFormed(v) ==> (r.Document? <==> WritableDocument(v))
    ensures r.Document? <==> AcceptsDocument(v)
    ensures r.Left? <==> LeavesIn(AsDict(v), 0, room)
    ensures r.Document? ==> r.bytes == Encode(Wire(v))
    ensures r.Document? && BsonLua.WellFormed(v) && Bson.WellFormed(Wire(v), []) && |r.bytes| < 0x8000_0000 ==>
      (Decode(r.bytes, false) == Got(Means(v), []) <==> Same(v))
    ensures r.Document? && BsonLua.WellFormed(v) && NoArrays(v) && |r.bytes| < 0x8000_0000 ==>
      (Decode(r.bytes, false) == Got(Means(v), []) <==> Back(v))
    ensures r.Document? && BsonLua.WellFormed(v) && NulName(v) ==>
      var d := Decode(r.bytes, false); d.Got? ==> d.value != Means(v)
  {
    var b := new Buffer();
    DocumentAccepted(v);
    if BsonLua.WellFormed(v) { DocumentExactly(v); }
    var out := b.PackTable(AsDict(v), 0);
    room := b.room;
    if !out.Written? {
      r := if out.Outside? then Left else NotEncoded;
      return;
    }
    assert [] + Encode(Wire(v)) == Encode(Wire(v));
    r := Document(b.ptr[..b.size]);
    ComesBack(v);
  }

  lemma ComesBack(v: LuaValue)
    requires AcceptsDocument(v)
    ensures BsonLua.WellFormed(v) && Bson.WellFormed(Wire(v), []) && |Encode(Wire(v))| < 0x8000_0000 ==>
      (Decode(Encode(Wire(v)), false) == Got(Means(v), []) <==> Same(v))
    ensures BsonLua.WellFormed(v) && NoArrays(v) && |Encode(Wire(v))| < 0x8000_0000 ==>
      (Decode(Encode(Wire(v)), false) == Got(Means(v), []) <==> Back(v))
    ensures BsonLua.WellFormed(v) && NulName(v) ==>
      var d := Decode(Encode(Wire(v)), false); d.Got? ==> d.value != Means(v)
  {
    if BsonLua.WellFormed(v) && Bson.WellFormed(Wire(v), []) && |Encode(Wire(v))| < 0x8000_0000 {
      RoundTripExactly(v);
    }
    if BsonLua.WellFormed(v) && NoArrays(v) && |Encode(Wire(v))| < 0x8000_0000 {
      ComesBackExactly(v);
    }
    if BsonLua.WellFormed(v) && NulName(v) {
      NulNameLost(v, Encode(Wire(v)), false);
    }
  }

  /** A table with the string "\0\11a": the encoder leaves its memory, whatever is
      reserved. */
  lemma RegexLeaves(room: nat)
    ensures var v := TableValue(0, [Entry(Named([116]), String([0, 11, 97]))]); LeavesIn(AsDict(v), 0, room)
  {
    var s: LuaString := [0, 11, 97];
    var v := TableValue(0, [Entry(Named([116]), String(s))]);
    assert s[2..] == [97] && Unsplit(s);
    assert Utf8.Valid([97]) && Utf8.Valid([116]);
    assert Count(AsDict(v)) == 1 && Child(AsDict(v), 0) == String(s);
    assert !ElementAccepted(AsDict(v), 0, 0);
    StopAt(AsDict(v), 0, 0);
    assert Reaches(String(s), [97], 0);
    assert ReachesIn(AsDict(v), [97], 0);
  }
}
