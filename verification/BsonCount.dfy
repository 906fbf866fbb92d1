/** Which tables of lua-bson.c come back, by counting bytes: the decoder needs for a table
    at least the bytes that the encoder wrote, so that nothing can be read twice. */
module BsonCount {
  import opened Wrappers
  import opened Bytes
  import opened Bson
  import opened BsonLua

  // ------------------------------------------------------------ the least number of bytes

  /** The fewest bytes from which a string is read. */
  function TextCost(s: seq<byte>): nat {
    if Shown(s) && Classify(s).Some? then |Body(Classify(s).value)| else |s| + 5
  }

  function KeyCost(k: Key): nat {
    if k.Named? then |k.name| else 0
  }

  /** The fewest bytes from which a value is read. */
  ghost function Cost(x: Lua): nat
    decreases x, 1, 0
  {
    match x
    case Nil => 0
    case Flag(_) => 1
    case Int(i) => if -0x8000_0000 <= i < 0x8000_0000 then 4 else 8
    case Num(_) => 8
    case Text(s) => TextCost(s)
    case Table(m) => 5 + CostOf(x, m.Keys)
  }

  ghost function Item(x: Lua, k: Key): nat
    requires x.Table? && k in x.m
    decreases x, 0, 0
  {
    2 + KeyCost(k) + Cost(x.m[k])
  }

  /** The elements of a table with these keys. */
  ghost function CostOf(x: Lua, ks: set<Key>): nat
    requires x.Table? && ks <= x.m.Keys
    decreases x, 0, 1 + |ks|
  {
    if ks == {} then 0
    else
      var k :| k in ks;
      Item(x, k) + CostOf(x, ks - {k})
  }

  lemma {:induction false} CostRemove(x: Lua, ks: set<Key>, k: Key)
    requires x.Table? && ks <= x.m.Keys && k in ks
    ensures CostOf(x, ks) == Item(x, k) + CostOf(x, ks - {k})
    decreases |ks|
  {
    var l :| l in ks && CostOf(x, ks) == Item(x, l) + CostOf(x, ks - {l});
    if l != k {
      CostRemove(x, ks - {l}, k);
      CostRemove(x, ks - {k}, l);
      assert ks - {l} - {k} == ks - {k} - {l};
    }
  }

  lemma {:induction false} CostSubset(x: Lua, ks: set<Key>, ls: set<Key>)
    requires x.Table? && ks <= ls <= x.m.Keys
    ensures CostOf(x, ks) <= CostOf(x, ls)
    decreases |ls|
  {
    assert ls == ks + (ls - ks);
    if ls - ks != {} {
      var k :| k in ls - ks;
      CostRemove(x, ls, k);
      CostSubset(x, ks, ls - {k});
    } else {
      assert ls == ks;
    }
  }

  // ------------------------------------------------------------ reading needs them

  lemma RegexLength(r: seq<byte>)
    requires HasInnerNul(r)
    ensures |Body(ClassifyObject(11, r).value)| == |r|
  {
  }

  lemma BodyBound(s: seq<byte>)
    requires Classify(s).Some?
    ensures |Body(Classify(s).value)| <= |s| + 5
  {
    if IsObject(s) && s[1] == 11 {
      RegexLength(s[2..]);
    }
  }

  lemma ObjectCost(k: byte, r: seq<byte>)
    requires FormOf(k, r)
    ensures ClassifyObject(k, r).Some? && TextCost(Object(k, r)) == |Body(ClassifyObject(k, r).value)|
  {
    assert Object(k, r)[2..] == r;
  }

  lemma RegexInner(p: seq<byte>, o: seq<byte>)
    ensures var r := (p + [0]) + (o + [0]); HasInnerNul(r) && r[|r| - 1] == 0 && |r| == |p| + |o| + 2
  {
    var r := (p + [0]) + (o + [0]);
    assert r[|p|] == 0;
  }

  /** What is read for an element takes at least as many bytes as the value needs. */
  ghost predicate Covers(t: byte, s: seq<byte>) {
    var d := GetAtom(t, s);
    d.Got? ==> |s| - |d.rest| >= Cost(Show(d.value))
  }

  lemma NumberCost(t: byte, s: seq<byte>)
    requires t == 1 || t == 8 || t == 16 || t == 18
    ensures Covers(t, s)
  {
  }

  lemma StringCost(s: seq<byte>)
    ensures Covers(2, s)
  {
    var d := GetAtom(2, s);
    if d.Got? {
      TextBound(d.value.s);
    }
  }

  lemma BinaryCost(s: seq<byte>)
    ensures Covers(5, s)
  {
    var d := GetAtom(5, s);
    if d.Got? {
      ObjectCost(5, d.value.data);
    }
  }

  lemma IdCost(s: seq<byte>)
    ensures Covers(7, s)
  {
    var d := GetAtom(7, s);
    if d.Got? {
      ObjectCost(7, d.value.id);
    }
  }

  lemma DateCost(s: seq<byte>)
    ensures Covers(9, s)
  {
    var d := GetAtom(9, s);
    if d.Got? {
      ObjectCost(9, LeBytes(d.value.t, 4));
    }
  }

  lemma NothingCost(t: byte, s: seq<byte>)
    requires t == 10 || t == 127 || t == 255
    ensures Covers(t, s)
  {
    ObjectCost(t, []);
  }

  lemma RegexShown(p: seq<byte>, o: seq<byte>)
    ensures Cost(Show(Regex(p, o))) == |p| + |o| + 2
  {
    var r := (p + [0]) + (o + [0]);
    RegexInner(p, o);
    ObjectCost(11, r);
    RegexLength(r);
  }

  lemma RegexCost(s: seq<byte>)
    ensures Covers(11, s)
  {
    var d := GetAtom(11, s);
    if d.Got? {
      RegexShown(d.value.pattern, d.value.options);
      RegexRead(s);
    }
  }

  lemma StampCost(s: seq<byte>)
    ensures Covers(17, s)
  {
    var d := GetAtom(17, s);
    if d.Got? {
      ObjectCost(17, LeBytes(d.value.inc, 4) + LeBytes(d.value.ts, 4));
    }
  }

  lemma RawCost(kind: RawKind, s: seq<byte>)
    ensures Covers(kind, s)
  {
    var d := GetAtom(kind, s);
    if d.Got? {
      ObjectCost(kind, d.value.raw);
    }
  }

  lemma AtomCost(t: byte, s: seq<byte>)
    ensures Covers(t, s)
  {
    if t == 1 || t == 8 || t == 16 || t == 18 {
      NumberCost(t, s);
    } else if t == 2 {
      StringCost(s);
    } else if t == 5 {
      BinaryCost(s);
    } else if t == 7 {
      IdCost(s);
    } else if t == 9 {
      DateCost(s);
    } else if t == 10 || t == 127 || t == 255 {
      NothingCost(t, s);
    } else if t == 11 {
      RegexCost(s);
    } else if t == 17 {
      StampCost(s);
    } else if 12 <= t <= 15 {
      RawCost(t, s);
    }
  }

  lemma TextBound(s: seq<byte>)
    ensures TextCost(s) <= |s| + 5
  {
    if Classify(s).Some? {
      BodyBound(s);
    }
  }

  lemma RegexRead(s: seq<byte>)
    requires GetString(s).Got? && GetString(GetString(s).rest).Got?
    ensures var d := GetString(s); var e := GetString(d.rest); |s| == |d.value| + |e.value| + 2 + |e.rest|
  {
    StringRead(s);
    StringRead(GetString(s).rest);
  }

  // ------------------------------------------------------------ reading a table

  /** The keys under which two tables differ. */
  function Diff(f: map<Key, Lua>, m: map<Key, Lua>): set<Key> {
    set k | k in f && !(k in m && m[k] == f[k])
  }

  /** One more key is read as `x`, for at least the bytes of its item. */
  lemma OneKey(f: map<Key, Lua>, m: map<Key, Lua>, k: Key, x: Lua)
    requires k in f && (f[k] == x || k in Diff(f, m[k := x]))
    ensures CostOf(Table(f), Diff(f, m)) <=
            CostOf(Table(f), Diff(f, m[k := x])) + if f[k] == x then Item(Table(f), k) else 0
  {
    var t, d, e := Table(f), Diff(f, m), Diff(f, m[k := x]);
    if f[k] == x {
      assert k !in e && d <= e + {k};
      CostSubset(t, d, e + {k});
      CostRemove(t, e + {k}, k);
      assert e + {k} - {k} == e;
    } else {
      CostSubset(t, d, e);
    }
  }

  lemma {:induction false} ElementsCost(t: seq<byte>, isArray: bool, m: map<Key, Lua>)
    ensures var r := DecodeElements(t, isArray, m);
            r.Some? ==> m.Keys <= r.value.Keys && |t| >= CostOf(Table(r.value), Diff(r.value, m))
    decreases |t|, 4
  {
    var r := DecodeElements(t, isArray, m);
    if t == [] {
      assert Diff(m, m) == {};
    } else if r.Some? {
      assert DecodeElement(t, isArray, m).Some?;
      var key := GetString(t[1..]);
      StringRead(t[1..]);
      ValueCost(t[0], key.rest);
      var d := DecodeValue(t[0], key.rest);
      var k := KeyOf(isArray, key.value);
      ElementsCost(d.rest, isArray, m[k := d.value]);
      OneKey(r.value, m, k, d.value);
    }
  }

  lemma {:induction false} ValueCost(t: byte, s: seq<byte>)
    ensures var d := DecodeValue(t, s); d.Got? ==> |s| - |d.rest| >= Cost(d.value)
    decreases |s|, 2
  {
    if t == 3 || t == 4 {
      var d := GetInner(s);
      if d.Got? {
        ElementsCost(d.value, t == 4, map[]);
        InnerCost(s, t == 4);
      }
    } else {
      AtomCost(t, s);
    }
  }

  lemma InnerCost(s: seq<byte>, isArray: bool)
    requires GetInner(s).Got?
    requires var r := DecodeElements(GetInner(s).value, isArray, map[]);
             r.Some? ==> |GetInner(s).value| >= CostOf(Table(r.value), Diff(r.value, map[]))
    ensures var d := Decode(s, isArray); d.Got? ==> |s| - |d.rest| >= Cost(d.value)
  {
    var r := DecodeElements(GetInner(s).value, isArray, map[]);
    if r.Some? {
      assert Diff(r.value, map[]) == r.value.Keys;
    }
  }

  // ------------------------------------------------------------ what is not read is the rest

  lemma TakeRest(s: seq<byte>, n: nat)
    requires Take(s, n).Got?
    ensures Take(s, n).rest == s[n..] && |Take(s, n).rest| == |s| - n
  {
  }

  /** What is left is the end of what there was. */
  ghost predicate Ends(s: seq<byte>, rest: seq<byte>) {
    |rest| <= |s| && rest == s[|s| - |rest|..]
  }

  lemma EndsTrans(a: seq<byte>, b: seq<byte>, c: seq<byte>)
    requires Ends(a, b) && Ends(b, c)
    ensures Ends(a, c)
  {
  }

  lemma {:induction false} StringEnds(s: seq<byte>)
    ensures var d := GetString(s); d.Got? ==> Ends(s, d.rest)
  {
    if GetString(s).Got? {
      StringRead(s);
    }
  }

  lemma FixedEnds(t: byte, s: seq<byte>)
    requires t == 1 || t == 7 || t == 8 || t == 9 || t == 10 || t == 16 || t == 18 || t == 127 || t == 255
    ensures var d := GetAtom(t, s); d.Got? ==> Ends(s, d.rest)
  {
  }

  lemma TextEnds(s: seq<byte>)
    ensures var d := GetAtom(2, s); d.Got? ==> Ends(s, d.rest)
  {
    var n := GetInt32(s);
    if GetAtom(2, s).Got? {
      EndsTrans(s, n.rest, GetAtom(2, s).rest);
    }
  }

  lemma BinaryEnds(s: seq<byte>)
    ensures var d := GetAtom(5, s); d.Got? ==> Ends(s, d.rest)
  {
    var n := GetInt32(s);
    if GetAtom(5, s).Got? {
      EndsTrans(s, n.rest, n.rest[1..]);
      EndsTrans(s, n.rest[1..], GetAtom(5, s).rest);
    }
  }

  lemma StampEnds(s: seq<byte>)
    ensures var d := GetAtom(17, s); d.Got? ==> Ends(s, d.rest)
  {
    if GetAtom(17, s).Got? {
      EndsTrans(s, GetInt32(s).rest, GetAtom(17, s).rest);
    }
  }

  lemma RegexEnds(s: seq<byte>)
    ensures var d := GetAtom(11, s); d.Got? ==> Ends(s, d.rest)
  {
    StringEnds(s);
    if GetAtom(11, s).Got? {
      StringEnds(GetString(s).rest);
      EndsTrans(s, GetString(s).rest, GetAtom(11, s).rest);
    }
  }

  lemma RawEnds(kind: RawKind, s: seq<byte>)
    ensures var d := GetAtom(kind, s); d.Got? ==> Ends(s, d.rest)
  {
  }

  lemma AtomEnds(t: byte, s: seq<byte>)
    ensures var d := GetAtom(t, s); d.Got? ==> Ends(s, d.rest)
  {
    if t == 2 {
      TextEnds(s);
    } else if t == 5 {
      BinaryEnds(s);
    } else if t == 17 {
      StampEnds(s);
    } else if t == 11 {
      RegexEnds(s);
    } else if 12 <= t <= 15 {
      RawEnds(t, s);
    } else if GetAtom(t, s).Got? {
      FixedEnds(t, s);
    }
  }

  lemma InnerEnds(s: seq<byte>)
    ensures var d := GetInner(s); d.Got? ==> Ends(s, d.rest)
  {
  }

  lemma ValueEnds(t: byte, s: seq<byte>)
    ensures var d := DecodeValue(t, s); d.Got? ==> Ends(s, d.rest)
  {
    if t == 3 || t == 4 {
      InnerEnds(s);
    } else {
      AtomEnds(t, s);
    }
  }

  // ------------------------------------------------------------ writing needs no more

  /** No table is written as an array. */
  ghost predicate NoArrays(v: LuaValue) {
    v.TableValue? ==> !IsArray(v) && forall i :: 0 <= i < |v.entries| ==> NoArrays(v.entries[i].value)
  }

  /** A value that the encoder accepts, without arrays. */
  ghost predicate Plain(v: LuaValue, depth: nat) {
    BsonLua.WellFormed(v) && NoArrays(v) && if v.TableValue? then AcceptsAll(v, depth) else Accepts(v, depth)
  }

  function KeysFrom(v: LuaValue, j: nat): set<Key>
    requires v.TableValue?
  {
    set i | j <= i < |v.entries| :: v.entries[i].key
  }

  /** The elements of a plain table are its entries. */
  lemma PlainAt(v: LuaValue, depth: nat, j: nat)
    requires v.TableValue? && Plain(v, depth) && j < |v.entries|
    ensures var e, w := v.entries[j], Wire(v);
            && e.key.Named? && Size(w) == |v.entries| && w.Doc? && ChildAt(w, j) == Wire(e.value)
            && w.fields[j].key == e.key.name
            && Pieces(w)[j] == Piece(Type(Wire(e.value)), e.key.name, Encode(Wire(e.value)))
    ensures Plain(v.entries[j].value, if v.entries[j].value.TableValue? then depth + 1 else depth)
  {
    WireAt(v, depth, j);
    AcceptedAt(v, depth, j);
  }

  lemma KeysNext(v: LuaValue, depth: nat, j: nat)
    requires v.TableValue? && Plain(v, depth) && j < |v.entries|
    ensures var k := v.entries[j].key;
            && KeysFrom(v, j) - {k} == KeysFrom(v, j + 1) && k in KeysFrom(v, j) && KeysFrom(v, j) <= Means(v).m.Keys
            && k in Means(v).m && Means(v).m[k] == Means(v.entries[j].value)
  {
    MeansAt(v, |v.entries|, j);
    MeansKeys(v, |v.entries|);
    assert v.entries[..|v.entries|] == v.entries;
  }

  lemma ScalarCost(v: LuaValue)
    requires !v.TableValue? && ToAtom(v).Some?
    ensures |Encode(Wire(v))| <= Cost(Means(v))
  {
    if v.String? {
      BodyBound(v.s);
    }
  }

  /** What is written for a value is no more than it takes to read it. */
  lemma {:induction false} EncodeCost(v: LuaValue, depth: nat)
    requires Plain(v, depth)
    ensures |Encode(Wire(v))| <= Cost(Means(v))
    decreases v, 1, 0
  {
    if v.TableValue? {
      PiecesCost(v, depth, 0);
      WholeTable(v, depth);
    } else {
      ScalarCost(v);
    }
  }

  lemma WholeTable(v: LuaValue, depth: nat)
    requires v.TableValue? && Plain(v, depth)
    ensures KeysFrom(v, 0) == Means(v).m.Keys && Pieces(Wire(v))[0..] == Pieces(Wire(v))
    ensures !Wire(v).Scalar? && Size(Wire(v)) == |v.entries|
  {
    MeansKeys(v, |v.entries|);
    assert v.entries[..|v.entries|] == v.entries;
    DictKeys(v, depth);
  }

  lemma {:induction false} PiecesCost(v: LuaValue, depth: nat, j: nat)
    requires v.TableValue? && Plain(v, depth) && j <= |v.entries|
    ensures Size(Wire(v)) == |v.entries| && KeysFrom(v, j) <= Means(v).m.Keys
    ensures |Join(Pieces(Wire(v))[j..])| <= CostOf(Means(v), KeysFrom(v, j))
    decreases v, 0, |v.entries| - j
  {
    WholeTable(v, depth);
    if j < |v.entries| {
      PiecesCost(v, depth, j + 1);
      PlainAt(v, depth, j);
      KeysNext(v, depth, j);
      var e := v.entries[j];
      EncodeCost(e.value, if e.value.TableValue? then depth + 1 else depth);
      JoinNext(Pieces(Wire(v)), j);
      CostRemove(Means(v), KeysFrom(v, j), e.key);
    }
  }

  // ------------------------------------------------------------ what comes back

  lemma EntryIn(v: LuaValue, j: nat, i: nat)
    requires v.TableValue? && DistinctKeys(v.entries) && j <= |v.entries| && i < |v.entries|
    ensures var k, f, m := v.entries[i].key, Means(v).m, MeansUpTo(v, j);
            && k in f && (k in m <==> i < j) && (i < j ==> m[k] == f[k])
  {
    MeansAt(v, |v.entries|, i);
    MeansKeys(v, j);
    if i < j {
      MeansAt(v, j, i);
    }
  }

  lemma DiffIs(v: LuaValue, depth: nat, j: nat)
    requires v.TableValue? && Plain(v, depth) && j <= |v.entries|
    ensures Diff(Means(v).m, MeansUpTo(v, j)) == KeysFrom(v, j)
  {
    var d := Diff(Means(v).m, MeansUpTo(v, j));
    WholeTable(v, depth);
    forall i | 0 <= i < |v.entries| ensures v.entries[i].key in d <==> i >= j {
      EntryIn(v, j, i);
    }
    assert d <= KeysFrom(v, 0);
  }

  /** The reader is before the `j`-th element, and goes on to the table. */
  ghost predicate Before(v: LuaValue, j: nat)
    requires v.TableValue?
  {
    && j <= |v.entries| == Size(Wire(v))
    && DecodeElements(Join(Pieces(Wire(v))[j..]), false, MeansUpTo(v, j)) == Some(Means(v).m)
  }

  lemma ReadFirst(p: Piece, t: seq<byte>, m: map<Key, Lua>, f: map<Key, Lua>) returns (x: Lua, rest: seq<byte>)
    requires NulFree(p.key) && DecodeElements(Lead(p) + (p.body + t), false, m) == Some(f)
    ensures DecodeValue(p.t, p.body + t) == Got(x, rest) && DecodeElements(rest, false, m[Named(p.key) := x]) == Some(f)
  {
    var s := Lead(p) + (p.body + t);
    assert s[0] == p.t && s[1..] == (p.key + [0]) + (p.body + t);
    StringRoundTrip(p.key, p.body + t);
    assert DecodeElement(s, false, m).Some?;
    var d := DecodeValue(p.t, p.body + t);
    x, rest := d.value, d.rest;
  }

  /** One element is read where it starts; what follows is long enough for the rest only
      when the element is read to its end. */
  lemma FirstRead(v: LuaValue, depth: nat, j: nat) returns (x: Lua, rest: seq<byte>)
    requires v.TableValue? && Plain(v, depth) && Before(v, j) && j < |v.entries|
    requires v.entries[j].key.Named? && NulFree(v.entries[j].key.name)
    ensures var p, t := Pieces(Wire(v))[j], Join(Pieces(Wire(v))[j + 1..]);
            && DecodeValue(p.t, p.body + t) == Got(x, rest)
            && DecodeElements(rest, false, MeansUpTo(v, j)[v.entries[j].key := x]) == Some(Means(v).m)
  {
    var ps := Pieces(Wire(v));
    PlainAt(v, depth, j);
    JoinNext(ps, j);
    x, rest := ReadFirst(ps[j], Join(ps[j + 1..]), MeansUpTo(v, j), Means(v).m);
  }

  /** The element is read as the entry, to its end. */
  lemma Aligned(v: LuaValue, depth: nat, j: nat)
    requires v.TableValue? && Plain(v, depth) && Before(v, j) && j < |v.entries|
    requires v.entries[j].key.Named? && NulFree(v.entries[j].key.name)
    ensures var p, t := Pieces(Wire(v))[j], Join(Pieces(Wire(v))[j + 1..]);
            DecodeValue(p.t, p.body + t) == Got(Means(v.entries[j].value), t)
    ensures Before(v, j + 1)
  {
    var p, t, e := Pieces(Wire(v))[j], Join(Pieces(Wire(v))[j + 1..]), v.entries[j];
    var x, rest := FirstRead(v, depth, j);
    var needed := RestNeeds(v, depth, j, x, rest);
    var wanted := EntryNeeds(v, depth, j);
    ValueCost(p.t, p.body + t);
    ValueEnds(p.t, p.body + t);
    NoRoom(x, Means(e.value), p.body, t, rest, needed, wanted);
  }

  /** The bytes that the entries behind the `j`-th need. */
  lemma EntryNeeds(v: LuaValue, depth: nat, j: nat) returns (wanted: nat)
    requires v.TableValue? && Plain(v, depth) && j < |v.entries|
    ensures KeysFrom(v, j + 1) <= Means(v).m.Keys && wanted == CostOf(Means(v), KeysFrom(v, j + 1))
    ensures Size(Wire(v)) == |v.entries| && |Join(Pieces(Wire(v))[j + 1..])| <= wanted
    ensures |Pieces(Wire(v))[j].body| <= Cost(Means(v.entries[j].value))
  {
    var c := v.entries[j].value;
    PlainAt(v, depth, j);
    EncodeCost(c, if c.TableValue? then depth + 1 else depth);
    PiecesCost(v, depth, j + 1);
    wanted := CostOf(Means(v), KeysFrom(v, j + 1));
  }

  /** What is left after the `j`-th element has the bytes for the other entries, and once
      more for this one when it was read as another value. */
  lemma RestNeeds(v: LuaValue, depth: nat, j: nat, x: Lua, rest: seq<byte>) returns (needed: nat)
    requires v.TableValue? && Plain(v, depth) && j < |v.entries|
    requires DecodeElements(rest, false, MeansUpTo(v, j)[v.entries[j].key := x]) == Some(Means(v).m)
    ensures needed <= |rest| && KeysFrom(v, j + 1) <= Means(v).m.Keys
    ensures var c := Means(v.entries[j].value);
            needed == CostOf(Means(v), KeysFrom(v, j + 1)) +
                      if x == c then 0 else 2 + KeyCost(v.entries[j].key) + Cost(c)
  {
    var k := v.entries[j].key;
    ElementsCost(rest, false, MeansUpTo(v, j)[k := x]);
    KeysNext(v, depth, j);
    if x == Means(v.entries[j].value) {
      DiffIs(v, depth, j + 1);
      needed := CostOf(Means(v), KeysFrom(v, j + 1));
    } else {
      OtherValue(v, depth, j, x);
      CostRemove(Means(v), KeysFrom(v, j), k);
      needed := CostOf(Means(v), KeysFrom(v, j));
    }
  }

  lemma NoRoom(x: Lua, c: Lua, body: seq<byte>, t: seq<byte>, rest: seq<byte>, needed: nat, wanted: nat)
    requires Ends(body + t, rest) && |body + t| - |rest| >= Cost(x) && |body| <= Cost(c) && |t| <= wanted
    requires needed <= |rest| && needed >= wanted && (x != c ==> needed >= wanted + 2 + Cost(c))
    ensures x == c && rest == t
  {
    EndsSame(body, t, rest);
  }

  /** A key with another value has to be read again. */
  lemma OtherValue(v: LuaValue, depth: nat, j: nat, x: Lua)
    requires v.TableValue? && Plain(v, depth) && j < |v.entries| && x != Means(v.entries[j].value)
    ensures Diff(Means(v).m, MeansUpTo(v, j)[v.entries[j].key := x]) == KeysFrom(v, j)
  {
    DiffIs(v, depth, j);
    KeysNext(v, depth, j);
  }

  lemma EndsSame(b: seq<byte>, t: seq<byte>, rest: seq<byte>)
    requires Ends(b + t, rest)
    ensures |rest| == |t| ==> rest == t
  {
  }

  lemma AlignedNext(v: LuaValue, depth: nat, i: nat, j: nat)
    requires v.TableValue? && Plain(v, depth) && !NulName(v) && Before(v, i) && j == i + 1 <= |v.entries|
    ensures Before(v, j)
  {
    PlainAt(v, depth, i);
    assert !NulEntry(v.entries[i]);
    Aligned(v, depth, i);
  }

  lemma {:induction false} AllAligned(v: LuaValue, depth: nat, j: nat)
    requires v.TableValue? && Plain(v, depth) && !NulName(v) && Before(v, 0) && j <= |v.entries|
    ensures Before(v, j)
  {
    if j > 0 {
      var i := j - 1;
      AllAligned(v, depth, i);
      AlignedNext(v, depth, i, j);
    }
  }

  lemma AtomTold(v: LuaValue, t: seq<byte>)
    requires !v.TableValue? && ToAtom(v).Some? && |Encode(Wire(v))| < 0x8000_0000
    requires DecodeValue(Type(Wire(v)), Encode(Wire(v)) + t) == Got(Means(v), t)
    ensures Bson.WellFormed(Wire(v), t) && Same(v)
  {
    var a := ToAtom(v).value;
    if v.String? {
      OptionsNulFree(v.s);
      AtomExactly(a, t);
      ShownExactly(v.s);
    }
  }

  /** The elements of an encoded table are what is read of it. */
  lemma TableStart(v: LuaValue, depth: nat, t: seq<byte>)
    requires v.TableValue? && Plain(v, depth) && |Encode(Wire(v))| < 0x8000_0000
    requires DecodeValue(Type(Wire(v)), Encode(Wire(v)) + t) == Got(Means(v), t)
    ensures Before(v, 0)
  {
    WholeTable(v, depth);
    var e := Join(Pieces(Wire(v)));
    InnerOfWrap(e, t);
    assert Encode(Wire(v)) == Wrap(e) && Type(Wire(v)) == 3;
  }

  ghost predicate ChildTold(v: LuaValue, j: nat)
    requires v.TableValue? && j < |v.entries|
  {
    && j < Size(Wire(v)) && v.entries[j].key.Named? && NulFree(v.entries[j].key.name)
    && Bson.WellFormed(Wire(v.entries[j].value), Join(Pieces(Wire(v))[j + 1..])) && Same(v.entries[j].value)
  }

  /** A plain value that comes back is told from what follows, and is shown as it was. */
  lemma {:induction false} Told(v: LuaValue, depth: nat, t: seq<byte>)
    requires Plain(v, depth) && !NulName(v) && |Encode(Wire(v))| < 0x8000_0000
    requires DecodeValue(Type(Wire(v)), Encode(Wire(v)) + t) == Got(Means(v), t)
    ensures Bson.WellFormed(Wire(v), t) && Same(v)
    decreases v
  {
    if v.TableValue? {
      TableStart(v, depth, t);
      var w := Wire(v);
      forall j | 0 <= j < |v.entries| ensures ChildTold(v, j) {
        AllAligned(v, depth, j);
        PlainAt(v, depth, j);
        assert !NulEntry(v.entries[j]);
        Aligned(v, depth, j);
        PieceShorter(Pieces(w), j);
        var c := v.entries[j].value;
        Told(c, if c.TableValue? then depth + 1 else depth, Join(Pieces(w)[j + 1..]));
      }
      AllTold(v, depth, t);
    } else {
      AtomTold(v, t);
    }
  }

  lemma AllTold(v: LuaValue, depth: nat, t: seq<byte>)
    requires v.TableValue? && Plain(v, depth) && forall j :: 0 <= j < |v.entries| ==> ChildTold(v, j)
    ensures Bson.WellFormed(Wire(v), t) && Same(v)
  {
    var w := Wire(v);
    WholeTable(v, depth);
    forall j | 0 <= j < Size(w)
      ensures Bson.WellFormed(ChildAt(w, j), Join(Pieces(w)[j + 1..])) && (w.Doc? ==> NulFree(w.fields[j].key))
    {
      assert ChildTold(v, j);
      PlainAt(v, depth, j);
    }
    forall j | 0 <= j < Count(v) && Present(v, j) ensures Same(Child(v, j)) {
      assert ChildTold(v, j);
    }
  }

  /** For every table without arrays that the encoder accepts: decoding gives the table
      back if and only if no name has a NUL, every element can be told from those that
      follow it, and every string is shown as it was. */
  lemma ToldExactly(v: LuaValue)
    requires BsonLua.WellFormed(v) && NoArrays(v) && AcceptsDocument(v) && |Encode(Wire(v))| < 0x8000_0000
    ensures Decode(Encode(Wire(v)), false) == Got(Means(v), []) <==> Bson.WellFormed(Wire(v), []) && Same(v)
  {
    var e := Encode(Wire(v));
    assert e + [] == e;
    if Decode(e, false) == Got(Means(v), []) {
      if NulName(v) {
        NulNameLost(v, e, false);
      } else {
        WholeTable(v, 0);
        assert DecodeValue(Type(Wire(v)), e + []) == Decode(e, false);
        Told(v, 0, []);
      }
    }
    if Bson.WellFormed(Wire(v), []) && Same(v) {
      RoundTripExactly(v);
    }
  }

  // ------------------------------------------------------------ in terms of the strings

  /** Three bytes that announce a length of three with what may follow. */
  predicate Short(s: seq<byte>) {
    IsObject(s) && 12 <= s[1] <= 14 && s[2..] == [if s[1] == 12 then 243 else 255, 255, 255]
  }

  /** The entry is written as a MINKEY. */
  predicate MinKeyAt(v: LuaValue, j: nat)
    requires v.TableValue?
  {
    j < |v.entries| && v.entries[j].value.String? && var s := v.entries[j].value.s; IsObject(s) && s[1] == 255
  }

  /** The string comes back at this place. */
  predicate StringBack(v: LuaValue, j: nat)
    requires v.TableValue? && j < |v.entries|
  {
    var c := v.entries[j].value;
    c.String? ==> Sound(c.s) || (Short(c.s) && MinKeyAt(v, j + 1))
  }

  /** No name has a NUL, and every string is sound, or short before a MINKEY. */
  ghost predicate Back(v: LuaValue) {
    v.TableValue? ==> forall j :: 0 <= j < |v.entries| ==> EntryBack(v, j)
  }

  ghost predicate EntryBack(v: LuaValue, j: nat)
    requires v.TableValue? && j < |v.entries|
  {
    && (v.entries[j].key.Named? ==> NulFree(v.entries[j].key.name))
    && StringBack(v, j) && Back(v.entries[j].value)
  }

  lemma ObjectTag(k: byte, r: seq<byte>)
    requires ClassifyObject(k, r).Some?
    ensures AtomType(ClassifyObject(k, r).value) == k && IsType(k)
  {
    var a := ClassifyObject(k, r).value;
    if k == 11 {
      assert a.Regex?;
    } else if 12 <= k <= 15 {
      assert a == Raw(k, r);
    }
  }

  lemma TypeOf(c: LuaValue)
    requires c.TableValue? || ToAtom(c).Some?
    ensures IsType(Type(Wire(c)))
    ensures Type(Wire(c)) == 255 <==> c.String? && IsObject(c.s) && c.s[1] == 255
  {
    if c.String? && IsObject(c.s) {
      ObjectTag(c.s[1], c.s[2..]);
    }
  }

  lemma PieceType(v: LuaValue, depth: nat, j: nat)
    requires v.TableValue? && Plain(v, depth) && j < |v.entries|
    ensures Size(Wire(v)) == |v.entries|
    ensures var p := Pieces(Wire(v))[j]; IsType(p.t) && Passes(p.key) && (p.t == 255 <==> MinKeyAt(v, j))
  {
    PlainAt(v, depth, j);
    AcceptedAt(v, depth, j);
    TypeOf(v.entries[j].value);
  }

  /** A copied string is sound before the elements `ps` in two cases. */
  lemma SoundHere(s: seq<byte>, ps: seq<Piece>)
    requires Elements(ps)
    ensures SoundBefore(s, Join(ps)) <==> Sound(s) || (Short(s) && ps != [] && ps[0].t == 255)
  {
    if IsObject(s) && 12 <= s[1] <= 15 {
      if |s| < 6 {
        ShortExactly(s[1], s[2..], ps);
      } else {
        LongRaw(s[1], s[2..], Join(ps));
      }
    } else {
      assert SoundBefore(s, Join(ps)) <==> SoundBefore(s, []);
    }
  }

  /** One string of a table is told from what follows and shown as it was, exactly when
      it comes back. */
  lemma StringHere(v: LuaValue, depth: nat, j: nat)
    requires v.TableValue? && Plain(v, depth) && j < |v.entries| && v.entries[j].value.String?
    ensures Size(Wire(v)) == |v.entries|
    ensures var c := v.entries[j].value;
            Bson.WellFormed(Wire(c), Join(Pieces(Wire(v))[j + 1..])) && Same(c) <==> StringBack(v, j)
  {
    var c := v.entries[j].value;
    PlainAt(v, depth, j);
    var ps := Pieces(Wire(v))[j + 1..];
    forall i | 0 <= i < |ps|
      ensures IsType(ps[i].t) && Passes(ps[i].key) && (ps[i].t == 255 <==> MinKeyAt(v, j + 1 + i))
    {
      PieceType(v, depth, j + 1 + i);
    }
    SoundHere(c.s, ps);
    SoundShown(c.s, Join(ps));
    ShownExactly(c.s);
  }

  lemma EntryHere(v: LuaValue, depth: nat, j: nat)
    requires v.TableValue? && Plain(v, depth) && j < |v.entries|
    requires var c := v.entries[j].value; c.TableValue? ==> (AllWellFormed(c) && Same(c) <==> Back(c))
    ensures ChildTold(v, j) <==> EntryBack(v, j)
  {
    PlainAt(v, depth, j);
    var c := v.entries[j].value;
    if c.String? {
      StringHere(v, depth, j);
    } else if c.TableValue? {
      TableHere(c, Join(Pieces(Wire(v))[j + 1..]));
    }
  }

  /** For a table it does not matter what follows. */
  ghost predicate AllWellFormed(v: LuaValue) {
    Bson.WellFormed(Wire(v), [])
  }

  lemma TableHere(v: LuaValue, t: seq<byte>)
    requires v.TableValue?
    ensures Bson.WellFormed(Wire(v), t) <==> AllWellFormed(v)
  {
  }

  lemma TableTold(v: LuaValue, depth: nat, j: nat)
    requires v.TableValue? && Plain(v, depth) && j < |v.entries| && AllWellFormed(v) && Same(v)
    ensures ChildTold(v, j)
  {
    PlainAt(v, depth, j);
    assert Child(v, j) == v.entries[j].value;
  }

  /** In a table without arrays every element is told from those that follow it and shown
      as it was, exactly when names and strings have the right form. */
  lemma {:induction false} BackExactly(v: LuaValue, depth: nat)
    requires v.TableValue? && Plain(v, depth)
    ensures AllWellFormed(v) && Same(v) <==> Back(v)
    decreases v
  {
    forall j | 0 <= j < |v.entries| ensures ChildTold(v, j) <==> EntryBack(v, j) {
      PlainAt(v, depth, j);
      if v.entries[j].value.TableValue? {
        BackExactly(v.entries[j].value, depth + 1);
      }
      EntryHere(v, depth, j);
    }
    if AllWellFormed(v) && Same(v) {
      forall j | 0 <= j < |v.entries| ensures EntryBack(v, j) {
        TableTold(v, depth, j);
      }
    }
    if Back(v) {
      AllTold(v, depth, []);
    }
  }

  /** For every table without arrays that the encoder accepts: decoding gives the table
      back if and only if no name has a NUL and every string is sound, or is one of three
      short ones before a MINKEY. */
  lemma ComesBackExactly(v: LuaValue)
    requires BsonLua.WellFormed(v) && NoArrays(v) && AcceptsDocument(v) && |Encode(Wire(v))| < 0x8000_0000
    ensures Decode(Encode(Wire(v)), false) == Got(Means(v), []) <==> Back(v)
  {
    ToldExactly(v);
    BackExactly(v, 0);
  }
}
