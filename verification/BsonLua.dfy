/** The Lua side of lua-bson.c: which values the encoder accepts, the type it
    chooses for a string, and when a value comes back as it was. */
module BsonLua {
  import opened Wrappers
  import opened Bytes
  import opened Sets
  import opened Bson
  import Utf8

  const MAX_DEPTH: nat := 128

  /** A string that fits the memory. */
  type LuaString = s: seq<byte> | |s| < 0x8000_0000_0000_0000

  /** What the Lua API reports of a value: a table is its lua_rawlen and the entries
      in the order of lua_next. */
  datatype LuaValue =
    | NilValue
    | Boolean(b: bool)
    | Integer(i: int64)
    | Number(w: word64)
    | String(s: LuaString)
    | TableValue(length: nat, entries: seq<Entry>)
    | OtherValue

  datatype Entry = Entry(key: Key, value: LuaValue)

  /** The value itself: a table is the map of all its entries. */
  function Means(v: LuaValue): Lua
    decreases v, 1, 0
  {
    match v
    case NilValue => Nil
    case Boolean(b) => Flag(b)
    case Integer(i) => Int(i)
    case Number(w) => Num(w)
    case String(s) => Text(s)
    case TableValue(_, es) => Table(MeansUpTo(v, |es|))
    case OtherValue => Nil
  }

  function MeansUpTo(v: LuaValue, j: nat): map<Key, Lua>
    requires v.TableValue? && j <= |v.entries|
    decreases v, 0, j
  {
    if j == 0 then map[] else MeansUpTo(v, j - 1)[v.entries[j - 1].key := Means(v.entries[j - 1].value)]
  }

  ghost predicate DistinctKeys(es: seq<Entry>) {
    forall i, j :: 0 <= i < j < |es| ==> es[i].key != es[j].key
  }

  /** The index of a key, or the number of entries. */
  function Find(es: seq<Entry>, k: Key): (r: nat)
    ensures r <= |es|
    ensures r < |es| ==> es[r].key == k
    ensures forall i :: 0 <= i < r ==> es[i].key != k
  {
    if es == [] then 0 else if es[0].key == k then 0 else 1 + Find(es[1..], k)
  }

  /** What Lua guarantees: no key twice, no nil values, and a length that is the
      index of an entry. */
  ghost predicate WellFormed(v: LuaValue) {
    v.TableValue? ==>
      && DistinctKeys(v.entries)
      && (v.length > 0 ==> Find(v.entries, Numbered(v.length)) < |v.entries|)
      && forall i :: 0 <= i < |v.entries| ==> v.entries[i].value != NilValue && WellFormed(v.entries[i].value)
  }

  // ------------------------------------------------------------ strings

  /** A string that append_one does not write as a text. */
  predicate IsObject(s: seq<byte>) {
    |s| > 1 && s[0] == 0
  }

  /** The last NUL among the first `n` bytes, or -1. */
  function LastNul(r: seq<byte>, n: nat): (k: int)
    requires n <= |r|
    ensures -1 <= k < n
    ensures k >= 0 ==> r[k] == 0
    ensures forall i :: k < i < n ==> r[i] != 0
  {
    if n == 0 then -1 else if r[n - 1] == 0 then n - 1 else LastNul(r, n - 1)
  }

  /** The payload of a regular expression has a NUL between its two texts. */
  predicate HasInnerNul(r: seq<byte>) {
    r != [] && LastNul(r, |r| - 1) >= 0
  }

  /** The element that append_one writes for a string, or nothing when it refuses. */
  function Classify(s: seq<byte>): Option<Atom> {
    if !IsObject(s) then Some(Str(s)) else ClassifyObject(s[1], s[2..])
  }

  function ClassifyObject(t: byte, r: seq<byte>): Option<Atom> {
    if t == 5 then Some(Binary(r))
    else if t == 7 then if |r| == 12 then Some(ObjectId(r)) else None
    else if 12 <= t <= 15 then Some(Raw(t, r))
    else if t == 9 then if |r| == 4 then Some(Date(Unsigned(r))) else None
    else if t == 17 then if |r| == 8 then Some(Timestamp(Unsigned(r[..4]), Unsigned(r[4..]))) else None
    else if t == 11 then
      if HasInnerNul(r) then
        var k := LastNul(r, |r| - 1);
        Some(Regex(r[..k], r[k + 1..|r| - 1]))
      else None
    else if t == 10 then Some(Null)
    else if t == 127 then Some(MaxKey)
    else if t == 255 then Some(MinKey)
    else None
  }

  function Unsigned(b: seq<byte>): uint32
    requires |b| == 4
  {
    LeBound(b);
    PowValues();
    LeNat(b)
  }

  /** The strings that come back as they were before `t`: texts, and objects whose
      payload has the form of their type. */
  predicate SoundBefore(s: seq<byte>, t: seq<byte>) {
    IsObject(s) ==> SoundObject(s[1], s[2..], t)
  }

  predicate SoundObject(k: byte, r: seq<byte>, t: seq<byte>) {
    && FormOf(k, r)
    && (k == 5 ==> r != [])
    && (12 <= k <= 15 ==> RawOk(k, r, t))
    && (k == 11 ==> HasInnerNul(r) && LastNul(r, LastNul(r, |r| - 1)) == -1)
  }

  /** The payload that make_object would put behind the type has the same bytes. */
  predicate FormOf(k: byte, r: seq<byte>) {
    if k == 5 || 12 <= k <= 15 then true
    else if k == 7 then |r| == 12
    else if k == 9 then |r| == 4
    else if k == 17 then |r| == 8
    else if k == 11 then HasInnerNul(r) && r[|r| - 1] == 0
    else (k == 10 || k == 127 || k == 255) && r == []
  }

  /** The strings that are shown as they were, if they are told from what follows. */
  predicate Shown(s: seq<byte>) {
    IsObject(s) ==> FormOf(s[1], s[2..])
  }

  /** The strings that come back as they were, whatever follows. */
  predicate Sound(s: seq<byte>) {
    SoundBefore(s, []) && (IsObject(s) && 12 <= s[1] <= 15 ==> |s| >= 6)
  }

  // ------------------------------------------------------------ tables

  /** is_rawarray: no entry follows the one at the length. */
  predicate IsArray(v: LuaValue) {
    v.TableValue? && v.length > 0 && v.entries != [] && v.entries[|v.entries| - 1].key == Numbered(v.length)
  }

  /** The elements written for a table: the items up to the length of an array, or
      the entries of a dictionary. */
  function Count(v: LuaValue): nat
    requires v.TableValue?
  {
    if IsArray(v) then v.length else |v.entries|
  }

  /** The entry behind the `j`-th element; an array may have a hole there. */
  function Slot(v: LuaValue, j: nat): (k: nat)
    requires v.TableValue? && j < Count(v)
    ensures k <= |v.entries|
  {
    if IsArray(v) then Find(v.entries, Numbered(j + 1)) else j
  }

  predicate Present(v: LuaValue, j: nat)
    requires v.TableValue? && j < Count(v)
  {
    Slot(v, j) < |v.entries|
  }

  function Child(v: LuaValue, j: nat): (c: LuaValue)
    requires v.TableValue? && j < Count(v) && Present(v, j)
    ensures c < v
  {
    v.entries[Slot(v, j)].value
  }

  /** The key that is written: the index from zero in decimal, or the name. */
  function KeyBytes(v: LuaValue, j: nat): Option<seq<byte>>
    requires v.TableValue? && j < Count(v)
  {
    if IsArray(v) then Some(Decimal(j))
    else if v.entries[j].key.Named? then Some(v.entries[j].key.name)
    else None
  }

  // ------------------------------------------------------------ what is accepted

  /** The UTF-8 check of write_string. */
  predicate Passes(s: seq<byte>) {
    Utf8.Valid(s)
  }

  /** Texts pass the UTF-8 check. */
  predicate Texts(a: Atom) {
    && (a.Str? ==> Passes(a.s))
    && (a.Regex? ==> Passes(a.pattern) && Passes(a.options))
  }

  /** The element for a value that is not a table. */
  function ToAtom(v: LuaValue): Option<Atom> {
    match v
    case NilValue => None
    case Boolean(b) => Some(Bool(b))
    case Integer(i) => Some(OfInteger(i))
    case Number(w) => Some(Real(w))
    case String(s) => Classify(s)
    case TableValue(_, _) => None
    case OtherValue => None
  }

  /** append_number: 32 bits when they are enough. */
  function OfInteger(i: int64): (a: Atom)
    ensures Show(a) == Int(i)
  {
    if -0x8000_0000 <= i < 0x8000_0000 then Int32(i) else Int64(i)
  }

  /** The encoder takes the value at this depth; everything else ends in an error. */
  ghost predicate Accepts(v: LuaValue, depth: nat)
    decreases v, 1
  {
    if v.TableValue? then depth < MAX_DEPTH && AcceptsAll(v, depth + 1)
    else ToAtom(v).Some? && Texts(ToAtom(v).value)
  }

  ghost predicate AcceptsAll(v: LuaValue, depth: nat)
    requires v.TableValue?
    decreases v, 0, 1
  {
    forall j :: 0 <= j < Count(v) ==> ElementAccepted(v, j, depth)
  }

  ghost predicate ElementAccepted(v: LuaValue, j: nat, depth: nat)
    requires v.TableValue?
    decreases v, 0, 0
  {
    j < Count(v) && KeyAccepted(v, j) && Present(v, j) && Accepts(Child(v, j), depth)
  }

  predicate KeyAccepted(v: LuaValue, j: nat)
    requires v.TableValue? && j < Count(v)
  {
    KeyBytes(v, j).Some? && Passes(KeyBytes(v, j).value)
  }

  // ------------------------------------------------------------ regular expressions

  /** The bytes behind the tag of a regular expression have no NUL but maybe the last:
      the encoder would look for its two texts outside the string. */
  predicate Unsplit(s: seq<byte>) {
    IsObject(s) && s[1] == 11 && !HasInnerNul(s[2..])
  }

  /** write_string leaves its memory when it copies a payload with a size that has
      wrapped, with `room` bytes reserved: it copies until a character is refused. */
  predicate Overruns(r: seq<byte>, room: nat) {
    Utf8.Valid(r) || Utf8.Copied(r) > room
  }

  /** The first element from `j` on that is not accepted, or the number of elements. */
  ghost function Stop(v: LuaValue, depth: nat, j: nat): (k: nat)
    requires v.TableValue? && j <= Count(v)
    ensures j <= k <= Count(v)
    ensures forall i :: j <= i < k ==> ElementAccepted(v, i, depth)
    ensures k < Count(v) ==> !ElementAccepted(v, k, depth)
    decreases Count(v) - j
  {
    if j == Count(v) || !ElementAccepted(v, j, depth) then j else Stop(v, depth, j + 1)
  }

  /** The encoder comes to a regular expression with the payload `r`, which has no NUL
      between two texts: everything before it is accepted. */
  ghost predicate Reaches(v: LuaValue, r: seq<byte>, depth: nat)
    decreases v, 1
  {
    if v.TableValue? then depth < MAX_DEPTH && ReachesIn(v, r, depth + 1)
    else v.String? && Unsplit(v.s) && v.s[2..] == r
  }

  ghost predicate ReachesIn(v: LuaValue, r: seq<byte>, depth: nat)
    requires v.TableValue?
    decreases v, 0
  {
    var j := Stop(v, depth, 0);
    j < Count(v) && KeyAccepted(v, j) && Present(v, j) && Reaches(Child(v, j), r, depth)
  }

  lemma StopAt(v: LuaValue, depth: nat, j: nat)
    requires v.TableValue? && j <= Count(v) && forall i :: 0 <= i < j ==> ElementAccepted(v, i, depth)
    requires j < Count(v) ==> !ElementAccepted(v, j, depth)
    ensures Stop(v, depth, 0) == j
  {
  }

  lemma {:induction false} ReachedRefused(v: LuaValue, r: seq<byte>, depth: nat)
    requires Reaches(v, r, depth)
    ensures !Accepts(v, depth)
    decreases v
  {
    if v.TableValue? {
      assert !ElementAccepted(v, Stop(v, depth + 1, 0), depth + 1);
    }
  }

  /** The encoder leaves its memory: it reaches such a payload, and that overruns. */
  ghost predicate Leaves(v: LuaValue, depth: nat, room: nat) {
    exists r :: Reaches(v, r, depth) && Overruns(r, room)
  }

  ghost predicate LeavesIn(v: LuaValue, depth: nat, room: nat)
    requires v.TableValue?
  {
    exists r :: ReachesIn(v, r, depth) && Overruns(r, room)
  }

  ghost predicate AcceptedTo(v: LuaValue, depth: nat, j: nat)
    requires v.TableValue?
  {
    forall i :: 0 <= i < j ==> ElementAccepted(v, i, depth)
  }

  lemma LeavesAt(v: LuaValue, depth: nat, room: nat, j: nat)
    requires v.TableValue? && j < Count(v) && AcceptedTo(v, depth, j) && !ElementAccepted(v, j, depth)
    ensures !AcceptsAll(v, depth)
    ensures LeavesIn(v, depth, room) <==> KeyAccepted(v, j) && Present(v, j) && Leaves(Child(v, j), depth, room)
  {
    StopAt(v, depth, j);
    if LeavesIn(v, depth, room) {
      var r :| ReachesIn(v, r, depth) && Overruns(r, room);
      assert Reaches(Child(v, j), r, depth);
    }
    if KeyAccepted(v, j) && Present(v, j) && Leaves(Child(v, j), depth, room) {
      var r :| Reaches(Child(v, j), r, depth) && Overruns(r, room);
      assert ReachesIn(v, r, depth);
    }
  }

  lemma AcceptedStays(v: LuaValue, depth: nat, room: nat)
    requires v.TableValue? && AcceptedTo(v, depth, Count(v))
    ensures AcceptsAll(v, depth) && !LeavesIn(v, depth, room)
  {
    StopAt(v, depth, Count(v));
  }

  lemma LeavesTable(v: LuaValue, depth: nat, room: nat)
    requires v.TableValue?
    ensures Leaves(v, depth, room) <==> depth < MAX_DEPTH && LeavesIn(v, depth + 1, room)
  {
    if Leaves(v, depth, room) {
      var r :| Reaches(v, r, depth) && Overruns(r, room);
      assert ReachesIn(v, r, depth + 1);
    }
    if depth < MAX_DEPTH && LeavesIn(v, depth + 1, room) {
      var r :| ReachesIn(v, r, depth + 1) && Overruns(r, room);
      assert Reaches(v, r, depth);
    }
  }

  lemma LeavesScalar(v: LuaValue, depth: nat, room: nat)
    requires !v.TableValue?
    ensures Leaves(v, depth, room) <==> v.String? && Unsplit(v.s) && Overruns(v.s[2..], room)
  {
    if v.String? && Unsplit(v.s) && Overruns(v.s[2..], room) {
      assert Reaches(v, v.s[2..], depth);
    }
  }

  // ------------------------------------------------------------ what is written

  /** The document that the encoder writes for an accepted value. */
  function Wire(v: LuaValue): (w: Value)
    decreases v
  {
    if v.TableValue? then
      if IsArray(v) then
        Array(seq(Count(v), j requires 0 <= j < Count(v) =>
          if Present(v, j) then Wire(Child(v, j)) else Scalar(Bson.Null)))
      else
        Doc(seq(Count(v), j requires 0 <= j < Count(v) =>
          Field(if KeyBytes(v, j).Some? then KeyBytes(v, j).value else [],
                if Present(v, j) then Wire(Child(v, j)) else Scalar(Bson.Null))))
    else if ToAtom(v).Some? then Scalar(ToAtom(v).value)
    else Scalar(Bson.Null)
  }

  /** Nothing is lost: strings are shown as they were, and a table that is written
      as an array has no other entries. */
  ghost predicate Same(v: LuaValue) {
    if v.TableValue? then
      && (IsArray(v) ==> |v.entries| == v.length)
      && forall j :: 0 <= j < Count(v) && Present(v, j) ==> Same(Child(v, j))
    else v.String? ==> Shown(v.s)
  }

  // ------------------------------------------------------------ strings come back

  lemma ObjectParts(s: seq<byte>)
    requires IsObject(s)
    ensures s == Object(s[1], s[2..])
  {
  }

  lemma ObjectInjective(t: byte, r: seq<byte>, t': byte, r': seq<byte>)
    ensures Object(t, r) == Object(t', r') <==> t == t' && r == r'
  {
    assert Object(t, r)[1] == t && Object(t', r')[1] == t';
    assert Object(t, r)[2..] == r && Object(t', r')[2..] == r';
  }

  lemma UnsignedBytes(b: seq<byte>)
    requires |b| == 4
    ensures LeBytes(Unsigned(b), 4) == b
  {
    LeOfBytes(b);
  }

  lemma RegexJoin(r: seq<byte>, k: nat)
    requires k < |r| - 1 && r[k] == 0
    ensures (r[..k] + [0]) + (r[k + 1..|r| - 1] + [0]) == r[..|r| - 1] + [0]
    ensures r[..|r| - 1] + [r[|r| - 1]] == r
  {
    assert r[..k] + [0] + r[k + 1..|r| - 1] == r[..|r| - 1];
  }

  lemma LastByte(r: seq<byte>)
    requires r != []
    ensures r[..|r| - 1] + [0] == r <==> r[|r| - 1] == 0
  {
    assert (r[..|r| - 1] + [0])[|r| - 1] == 0;
  }

  lemma NulFreeBefore(r: seq<byte>, k: nat)
    requires k <= |r|
    ensures NulFree(r[..k]) <==> LastNul(r, k) == -1
  {
    var j := LastNul(r, k);
    assert j >= 0 ==> r[..k][j] == 0;
  }

  lemma NulFreeBetween(r: seq<byte>, k: int, n: nat)
    requires -1 <= k < n <= |r| && forall i :: k < i < n ==> r[i] != 0
    ensures NulFree(r[k + 1..n])
  {
  }

  /** The two texts of a regular expression and the bytes around them. */
  lemma RegexParts(r: seq<byte>, k: nat)
    requires HasInnerNul(r) && k == LastNul(r, |r| - 1)
    ensures (r[..k] + [0]) + (r[k + 1..|r| - 1] + [0]) == r <==> r[|r| - 1] == 0
    ensures NulFree(r[k + 1..|r| - 1]) && (NulFree(r[..k]) <==> LastNul(r, k) == -1)
  {
    RegexJoin(r, k);
    LastByte(r);
    NulFreeBefore(r, k);
    NulFreeBetween(r, k, |r| - 1);
  }

  lemma StampForm(r: seq<byte>)
    requires |r| == 8
    ensures Payload(Timestamp(Unsigned(r[..4]), Unsigned(r[4..]))) == r
  {
    UnsignedBytes(r[..4]);
    UnsignedBytes(r[4..]);
    TakeDrop(r, 4);
  }

  lemma RegexSplit(r: seq<byte>)
    requires HasInnerNul(r)
    ensures var k := LastNul(r, |r| - 1); ClassifyObject(11, r) == Some(Regex(r[..k], r[k + 1..|r| - 1]))
  {
  }

  lemma RegexForm(r: seq<byte>)
    requires HasInnerNul(r)
    ensures var a := ClassifyObject(11, r).value; AtomType(a) == 11 && (Payload(a) == r <==> r[|r| - 1] == 0)
  {
    var k := LastNul(r, |r| - 1);
    RegexParts(r, k);
    RegexSplit(r);
    RegexFields(r[..k], r[k + 1..|r| - 1], []);
  }

  lemma RegexOk(r: seq<byte>, t: seq<byte>)
    requires HasInnerNul(r)
    ensures AtomOk(ClassifyObject(11, r).value, t) <==> LastNul(r, LastNul(r, |r| - 1)) == -1
  {
    var k := LastNul(r, |r| - 1);
    RegexParts(r, k);
    RegexSplit(r);
    RegexFields(r[..k], r[k + 1..|r| - 1], t);
  }

  lemma RegexFields(p: seq<byte>, o: seq<byte>, t: seq<byte>)
    ensures Payload(Regex(p, o)) == (p + [0]) + (o + [0]) && AtomType(Regex(p, o)) == 11
    ensures AtomOk(Regex(p, o), t) <==> NulFree(p) && NulFree(o)
  {
  }

  /** The element chosen for an object shows the same payload exactly when the payload
      has the form of its type. */
  lemma ObjectForm(k: byte, r: seq<byte>)
    requires ClassifyObject(k, r).Some?
    ensures var a := ClassifyObject(k, r).value; AtomType(a) == k && (Payload(a) == r <==> FormOf(k, r))
  {
    if k == 9 {
      UnsignedBytes(r);
    } else if k == 17 {
      StampForm(r);
    } else if k == 11 {
      RegexForm(r);
    }
  }

  lemma ObjectOk(k: byte, r: seq<byte>, t: seq<byte>)
    requires ClassifyObject(k, r).Some?
    ensures FormOf(k, r) && AtomOk(ClassifyObject(k, r).value, t) <==> SoundObject(k, r, t)
  {
    if k == 11 {
      RegexForm(r);
      RegexOk(r, t);
    }
  }

  lemma ShownExactly(s: seq<byte>)
    requires Classify(s).Some?
    ensures Show(Classify(s).value) == Text(s) <==> Shown(s)
  {
    if IsObject(s) {
      ObjectParts(s);
      ObjectForm(s[1], s[2..]);
      var a := Classify(s).value;
      ObjectShown(s[1], s[2..]);
      ObjectInjective(AtomType(a), Payload(a), s[1], s[2..]);
    }
  }

  lemma SoundShown(s: seq<byte>, t: seq<byte>)
    requires Classify(s).Some?
    ensures var a := Classify(s).value; Show(a) == Text(s) && AtomOk(a, t) <==> SoundBefore(s, t)
  {
    ShownExactly(s);
    if IsObject(s) {
      ObjectOk(s[1], s[2..], t);
    }
  }

  /** A sound string is sound before anything. */
  lemma SoundAlways(s: seq<byte>, t: seq<byte>)
    requires Sound(s)
    ensures SoundBefore(s, t) && Shown(s)
  {
    if IsObject(s) && 12 <= s[1] <= 15 {
      LongRaw(s[1], s[2..], t);
    }
  }

  lemma ObjectShown(t: byte, r: seq<byte>)
    requires ClassifyObject(t, r).Some?
    ensures var a := ClassifyObject(t, r).value; Show(a) == Text(Object(AtomType(a), Payload(a)))
  {
  }

  lemma {:induction false} StringRead(x: seq<byte>)
    requires GetString(x).Got?
    ensures var d := GetString(x); x == (d.value + [0]) + d.rest && NulFree(d.value)
  {
    if x[0] != 0 {
      StringRead(x[1..]);
      var d := GetString(x[1..]);
      assert x == [x[0]] + x[1..];
      Regroup3(x[0], d.value, d.rest);
    } else {
      assert x == ([] + [0]) + x[1..];
    }
  }

  lemma Regroup3(c: byte, p: seq<byte>, rest: seq<byte>)
    ensures [c] + ((p + [0]) + rest) == (([c] + p) + [0]) + rest
  {
  }

  lemma NulAfter(p: seq<byte>, o: seq<byte>, j: nat)
    requires NulFree(o) && j < |p| + |o| + 1 && ((p + [0]) + (o + [0]))[j] == 0
    ensures j <= |p|
  {
  }

  /** Two texts without NUL can be told apart in only one way. */
  lemma TwoTexts(p: seq<byte>, o: seq<byte>, p': seq<byte>, o': seq<byte>)
    requires (p + [0]) + (o + [0]) == (p' + [0]) + (o' + [0])
    requires NulFree(o) && NulFree(o')
    ensures p == p' && o == o'
  {
    var all := (p + [0]) + (o + [0]);
    assert all[|p|] == 0 && all[|p'|] == 0;
    NulAfter(p, o, |p'|);
    NulAfter(p', o', |p|);
    assert all[..|p|] == p && all[..|p'|] == p';
    assert all[|p| + 1..] == o + [0] && all[|p'| + 1..] == o' + [0];
    assert (o + [0])[..|o|] == o && (o' + [0])[..|o'|] == o';
  }

  lemma Cancel(a: seq<byte>, b: seq<byte>, t: seq<byte>)
    requires a + t == b + t
    ensures a == b
  {
    assert |a| == |b|;
    assert (a + t)[..|a|] == a && (b + t)[..|b|] == b;
  }

  lemma RegexBack(p: seq<byte>, o: seq<byte>, t: seq<byte>)
    requires NulFree(o)
    requires var d := GetAtom(11, Body(Regex(p, o)) + t); d.Got? && d.rest == t
    ensures NulFree(p)
  {
    var s := Body(Regex(p, o)) + t;
    StringRead(s);
    var p', r := GetString(s).value, GetString(s).rest;
    StringRead(r);
    var o' := GetString(r).value;
    Assoc(p' + [0], o' + [0], t);
    Cancel(Body(Regex(p, o)), (p' + [0]) + (o' + [0]), t);
    TwoTexts(p, o, p', o');
  }

  lemma RegexExactly(p: seq<byte>, o: seq<byte>, t: seq<byte>)
    requires NulFree(o)
    ensures var d := GetAtom(11, Body(Regex(p, o)) + t); d.Got? && d.rest == t <==> NulFree(p)
  {
    var d := GetAtom(11, Body(Regex(p, o)) + t);
    if NulFree(p) {
      RegexRoundTrip(p, o, t);
    } else if d.Got? && d.rest == t {
      RegexBack(p, o, t);
    }
  }

  lemma RawExactly(kind: RawKind, raw: seq<byte>, t: seq<byte>)
    ensures var d := GetAtom(kind, raw + t); d.Got? && d.rest == t <==> RawOk(kind, raw, t)
  {
    if RawOk(kind, raw, t) {
      RawRoundTrip(kind, raw, t);
    }
  }

  /** An element is read back, with nothing of what follows it, if and only if it
      can be told from what follows. */
  lemma AtomExactly(a: Atom, t: seq<byte>)
    requires |Body(a)| < 0x8000_0000 && (a.ObjectId? ==> |a.id| == 12) && (a.Regex? ==> NulFree(a.options))
    ensures var d := GetAtom(AtomType(a), Body(a) + t); d.Got? && d.rest == t <==> AtomOk(a, t)
    ensures AtomOk(a, t) ==> GetAtom(AtomType(a), Body(a) + t) == Got(a, t)
  {
    if AtomOk(a, t) {
      AtomRoundTrip(a, t);
    } else if a.Regex? {
      RegexExactly(a.pattern, a.options, t);
    } else if a.Raw? {
      RawExactly(a.kind, a.raw, t);
    } else {
      assert a == Binary([]);
      EmptyBinary(t);
    }
  }

  lemma EmptyBinary(t: seq<byte>)
    ensures GetAtom(5, Body(Binary([])) + t) == Invalid
  {
    Assoc(Le32(-1), [], t);
    Int32RoundTrip(-1, [] + t);
  }

  lemma OptionsNulFree(s: seq<byte>)
    requires Classify(s).Some?
    ensures var a := Classify(s).value; (a.ObjectId? ==> |a.id| == 12) && (a.Regex? ==> NulFree(a.options))
  {
    if IsObject(s) && s[1] == 11 {
      RegexParts(s[2..], LastNul(s[2..], |s[2..]| - 1));
    }
  }

  /** A string that is accepted comes back as it was before `t` if and only if it is
      sound there. */
  lemma StringExactly(s: seq<byte>, t: seq<byte>)
    requires Classify(s).Some? && |Body(Classify(s).value)| < 0x8000_0000
    ensures var a := Classify(s).value; var d := GetAtom(AtomType(a), Body(a) + t);
            d.Got? && d.rest == t && Show(d.value) == Text(s) <==> SoundBefore(s, t)
  {
    OptionsNulFree(s);
    AtomExactly(Classify(s).value, t);
    SoundShown(s, t);
  }

  // ------------------------------------------------------------ short copied strings

  /** The type bytes that the encoder writes. */
  predicate IsType(t: byte) {
    1 <= t <= 18 || t == 127 || t == 255
  }

  ghost predicate Elements(ps: seq<Piece>) {
    forall i :: 0 <= i < |ps| ==> IsType(ps[i].t) && Passes(ps[i].key)
  }

  lemma FourBytes(x: seq<byte>)
    requires |x| >= 4
    ensures GetInt32(x).Got?
    ensures var n := (x[0] as int) + 0x100 * (x[1] as int) + 0x10000 * (x[2] as int) + 0x1000000 * (x[3] as int);
            GetInt32(x).value == if n < 0x8000_0000 then n else n - 0x1_0000_0000
  {
    var b := x[..4];
    assert b[1..][1..] == b[2..] && b[2..][1..] == b[3..] && b[3..][1..] == [];
    assert LeNat(b[3..]) == x[3] as int && LeNat(b[2..]) == x[2] as int + 256 * LeNat(b[3..]);
    assert LeNat(b[1..]) == x[1] as int + 256 * LeNat(b[2..]) && LeNat(b) == x[0] as int + 256 * LeNat(b[1..]);
  }

  /** Which four bytes announce fewer than four bytes in all. */
  lemma ShortLength(kind: RawKind, x: seq<byte>, n: nat)
    requires |x| >= 4 && n < 4
    ensures 4 + RawRest(kind, GetInt32(x).value) == n <==>
            if kind == 15 then x[0] == n && x[1] == x[2] == x[3] == 0
            else x[0] == (if kind == 12 then 240 else 252) + n && x[1] == x[2] == x[3] == 255
  {
    FourBytes(x);
  }

  lemma NameStart(key: seq<byte>)
    requires Passes(key) && key != []
    ensures key[0] != 255
  {
  }

  /** A copied string of fewer than four bytes comes back exactly in one case: three
      bytes with a negative length, before a MINKEY. */
  lemma ShortExactly(kind: RawKind, raw: seq<byte>, ps: seq<Piece>)
    requires |raw| < 4 && Elements(ps)
    ensures RawOk(kind, raw, Join(ps)) <==>
            kind != 15 && raw == [if kind == 12 then 243 else 255, 255, 255] && ps != [] && ps[0].t == 255
  {
    if ps == [] {
      assert raw + Join(ps) == raw;
    } else {
      var p := ps[0];
      JoinStart(ps);
      if p.key != [] {
        NameStart(p.key);
      }
      ShortBefore(kind, raw, Join(ps), p.t);
    }
  }

  /** An encoded element starts with its type, which is followed by its name or a NUL. */
  lemma JoinStart(ps: seq<Piece>)
    requires ps != []
    ensures var t, p := Join(ps), ps[0]; |t| >= 2 && t[0] == p.t && t[1] == if p.key == [] then 0 else p.key[0]
  {
  }

  lemma ShortBefore(kind: RawKind, raw: seq<byte>, t: seq<byte>, ty: byte)
    requires |raw| < 4 && |t| >= 2 && t[0] == ty && IsType(ty) && t[1] != 255
    ensures RawOk(kind, raw, t) <==> kind != 15 && raw == [if kind == 12 then 243 else 255, 255, 255] && ty == 255
  {
    var x := raw + t;
    assert x[|raw|] == ty && x[|raw| + 1] == t[1];
    if |x| >= 4 {
      ShortLength(kind, x, |raw|);
    }
  }

  /** A copied string that is not sound and comes back before a MINKEY named "b". */
  lemma ShortBack()
    ensures var s: seq<byte> := [0, 13, 255, 255, 255];
            SoundBefore(s, [255, 98, 0]) && !SoundBefore(s, []) && !Sound(s)
  {
    var r: seq<byte> := [255, 255, 255];
    var s := [0, 13] + r;
    assert s == [0, 13, 255, 255, 255] && s[2..] == r;
    FourBytes(r + [255, 98, 0]);
    assert r + [] == r;
  }

  // ------------------------------------------------------------ tables come back

  function KeySet(es: seq<Entry>): set<Key> {
    set i | 0 <= i < |es| :: es[i].key
  }

  lemma {:induction false} KeySetSize(es: seq<Entry>)
    requires DistinctKeys(es)
    ensures |KeySet(es)| == |es|
  {
    if es != [] {
      var n := |es| - 1;
      KeySetSize(es[..n]);
      assert KeySet(es) == KeySet(es[..n]) + {es[n].key};
    }
  }

  function Numbers(n: nat): (s: set<Key>)
    ensures |s| == n && forall k :: k in s <==> k.Numbered? && 1 <= k.n <= n
  {
    if n == 0 then {} else Numbers(n - 1) + {Numbered(n)}
  }

  /** An array without holes has as many entries as its length exactly when it has
      no other keys. */
  lemma OnlyItems(v: LuaValue)
    requires v.TableValue? && DistinctKeys(v.entries) && IsArray(v)
    requires forall j :: 0 <= j < v.length ==> Present(v, j)
    ensures |v.entries| == v.length <==> KeySet(v.entries) == Numbers(v.length)
  {
    KeySetSize(v.entries);
    forall k | k in Numbers(v.length) ensures k in KeySet(v.entries) {
      assert Present(v, k.n - 1);
    }
    SubsetSize(Numbers(v.length), KeySet(v.entries));
  }

  lemma {:induction false} MeansAt(v: LuaValue, j: nat, i: nat)
    requires v.TableValue? && DistinctKeys(v.entries) && i < j <= |v.entries|
    ensures v.entries[i].key in MeansUpTo(v, j) && MeansUpTo(v, j)[v.entries[i].key] == Means(v.entries[i].value)
  {
    if i < j - 1 {
      MeansAt(v, j - 1, i);
      assert v.entries[i].key != v.entries[j - 1].key;
    }
  }

  lemma {:induction false} MeansKeys(v: LuaValue, j: nat)
    requires v.TableValue? && j <= |v.entries|
    ensures MeansUpTo(v, j).Keys == KeySet(v.entries[..j])
  {
    if j > 0 {
      MeansKeys(v, j - 1);
      assert KeySet(v.entries[..j]) == KeySet(v.entries[..j - 1]) + {v.entries[j - 1].key};
    }
  }

  ghost predicate DistinctWire(w: Value) {
    forall i, j :: 0 <= i < j < Size(w) ==> KeyAt(w, i) != KeyAt(w, j)
  }

  function WireKeys(w: Value, j: nat): set<Key>
    requires j <= Size(w)
  {
    set i | 0 <= i < j :: KeyAt(w, i)
  }

  lemma {:induction false} MeaningHas(w: Value, j: nat, i: nat)
    requires DistinctWire(w) && i < j <= Size(w)
    ensures KeyAt(w, i) in MeaningUpTo(w, j) && MeaningUpTo(w, j)[KeyAt(w, i)] == Meaning(ChildAt(w, i))
  {
    if i < j - 1 {
      MeaningHas(w, j - 1, i);
      assert KeyAt(w, i) != KeyAt(w, j - 1);
    }
  }

  lemma {:induction false} MeaningKeys(w: Value, j: nat)
    requires j <= Size(w)
    ensures MeaningUpTo(w, j).Keys == WireKeys(w, j)
  {
    if j > 0 {
      MeaningKeys(w, j - 1);
      assert WireKeys(w, j) == WireKeys(w, j - 1) + {KeyAt(w, j - 1)};
    }
  }

  lemma AcceptedAt(v: LuaValue, depth: nat, j: nat)
    requires v.TableValue? && AcceptsAll(v, depth) && j < Count(v)
    ensures KeyAccepted(v, j) && Present(v, j) && Accepts(Child(v, j), depth)
    ensures Child(v, j).TableValue? ==> AcceptsAll(Child(v, j), depth + 1)
  {
    assert ElementAccepted(v, j, depth);
  }

  /** The elements written for an accepted table, one by one. */
  lemma WireAt(v: LuaValue, depth: nat, j: nat)
    requires v.TableValue? && AcceptsAll(v, depth) && j < Count(v)
    ensures var w := Wire(v);
            && Size(w) == Count(v) && w.Array? == IsArray(v) && !w.Scalar? && Present(v, j)
            && ChildAt(w, j) == Wire(Child(v, j)) && KeyAt(w, j) == v.entries[Slot(v, j)].key
            && KeyBytes(v, j) == Some(KeyText(w, j))
  {
    AcceptedAt(v, depth, j);
  }

  lemma WireDistinct(v: LuaValue, depth: nat)
    requires v.TableValue? && DistinctKeys(v.entries) && AcceptsAll(v, depth)
    ensures Size(Wire(v)) == Count(v) && DistinctWire(Wire(v))
  {
    var w := Wire(v);
    forall i, j | 0 <= i < j < Size(w) ensures KeyAt(w, i) != KeyAt(w, j) {
      WireAt(v, depth, i);
      WireAt(v, depth, j);
    }
  }

  lemma ArrayKeys(v: LuaValue, depth: nat)
    requires IsArray(v) && AcceptsAll(v, depth)
    ensures Size(Wire(v)) == Count(v) && WireKeys(Wire(v), Count(v)) == Numbers(v.length)
  {
    var w := Wire(v);
    forall k | k in Numbers(v.length) ensures k in WireKeys(w, Count(v)) {
      assert KeyAt(w, k.n - 1) == k;
    }
  }

  lemma DictKeys(v: LuaValue, depth: nat)
    requires v.TableValue? && !IsArray(v) && AcceptsAll(v, depth)
    ensures Size(Wire(v)) == Count(v) && WireKeys(Wire(v), Count(v)) == KeySet(v.entries)
  {
    var w := Wire(v);
    forall j | 0 <= j < |v.entries| ensures KeyAt(w, j) == v.entries[j].key {
      WireAt(v, depth, j);
    }
    forall k | k in KeySet(v.entries) ensures k in WireKeys(w, Count(v)) {
      var j :| 0 <= j < |v.entries| && v.entries[j].key == k;
      assert KeyAt(w, j) == k;
    }
    forall k | k in WireKeys(w, Count(v)) ensures k in KeySet(v.entries) {
      var j :| 0 <= j < Count(v) && KeyAt(w, j) == k;
    }
  }

  /** The two maps have the same keys exactly when no entry was left out. */
  lemma SameKeys(v: LuaValue, depth: nat)
    requires v.TableValue? && DistinctKeys(v.entries) && AcceptsAll(v, depth)
    ensures Size(Wire(v)) == Count(v)
    ensures MeaningUpTo(Wire(v), Count(v)).Keys == MeansUpTo(v, |v.entries|).Keys <==>
            (IsArray(v) ==> |v.entries| == v.length)
  {
    MeaningKeys(Wire(v), Size(Wire(v)));
    MeansKeys(v, |v.entries|);
    assert v.entries[..|v.entries|] == v.entries;
    if IsArray(v) {
      ArrayKeys(v, depth);
      forall j | 0 <= j < v.length ensures Present(v, j) { AcceptedAt(v, depth, j); }
      OnlyItems(v);
    } else {
      DictKeys(v, depth);
    }
  }

  /** Under the key of the `j`-th element both maps have that element. */
  lemma BothAt(v: LuaValue, depth: nat, j: nat)
    requires v.TableValue? && DistinctKeys(v.entries) && AcceptsAll(v, depth) && j < Count(v)
    ensures Present(v, j) && Size(Wire(v)) == Count(v)
    ensures var w, k := Wire(v), v.entries[Slot(v, j)].key;
            && k in MeaningUpTo(w, Count(v)) && MeaningUpTo(w, Count(v))[k] == Meaning(Wire(Child(v, j)))
            && k in MeansUpTo(v, |v.entries|) && MeansUpTo(v, |v.entries|)[k] == Means(Child(v, j))
  {
    WireDistinct(v, depth);
    WireAt(v, depth, j);
    MeaningHas(Wire(v), Count(v), j);
    MeansAt(v, |v.entries|, Slot(v, j));
  }

  ghost predicate ChildSame(v: LuaValue, j: nat)
    requires v.TableValue? && j < Count(v)
  {
    Present(v, j) && (Meaning(Wire(Child(v, j))) == Means(Child(v, j)) <==> Same(Child(v, j)))
  }

  /** The `j`-th element is the same in both maps exactly when it comes back. */
  ghost predicate Agree(v: LuaValue, j: nat, m: map<Key, Lua>, m': map<Key, Lua>)
    requires v.TableValue? && j < Count(v)
  {
    Present(v, j) &&
    var k := v.entries[Slot(v, j)].key;
    k in m && k in m' && (m[k] == m'[k] <==> Same(Child(v, j)))
  }

  lemma TableSame(v: LuaValue, depth: nat)
    requires v.TableValue? && DistinctKeys(v.entries) && AcceptsAll(v, depth)
    requires forall j :: 0 <= j < Count(v) ==> ChildSame(v, j)
    ensures Meaning(Wire(v)) == Means(v) <==> Same(v)
  {
    SameKeys(v, depth);
    var m, m' := MeaningUpTo(Wire(v), Count(v)), MeansUpTo(v, |v.entries|);
    forall j | 0 <= j < Count(v) ensures Agree(v, j, m, m') {
      assert ChildSame(v, j);
      BothAt(v, depth, j);
    }
    if Same(v) {
      forall k | k in m ensures k in m' && m[k] == m'[k] {
        var j := SomeElement(v, depth, k);
        assert Agree(v, j, m, m');
      }
      assert m == m';
    }
    if m == m' {
      forall j | 0 <= j < Count(v) && Present(v, j) ensures Same(Child(v, j)) {
        assert Agree(v, j, m, m');
      }
      assert Same(v);
    }
  }

  lemma SomeElement(v: LuaValue, depth: nat, k: Key) returns (j: nat)
    requires v.TableValue? && AcceptsAll(v, depth) && Size(Wire(v)) == Count(v)
    requires k in MeaningUpTo(Wire(v), Count(v))
    ensures j < Count(v) && Present(v, j) && v.entries[Slot(v, j)].key == k
  {
    MeaningKeys(Wire(v), Count(v));
    j :| 0 <= j < Count(v) && KeyAt(Wire(v), j) == k;
    WireAt(v, depth, j);
  }

  /** What the encoder writes for an accepted value means that value if and only if
      its strings are shown as they were and no entry is left out. */
  lemma {:induction false} SameExactly(v: LuaValue, depth: nat)
    requires WellFormed(v) && if v.TableValue? then AcceptsAll(v, depth) else Accepts(v, depth)
    ensures Meaning(Wire(v)) == Means(v) <==> Same(v)
    decreases v
  {
    if v.TableValue? {
      forall j | 0 <= j < Count(v) ensures ChildSame(v, j) {
        AcceptedAt(v, depth, j);
        SameExactly(Child(v, j), if Child(v, j).TableValue? then depth + 1 else depth);
      }
      TableSame(v, depth);
    } else {
      ScalarSame(v);
    }
  }

  lemma ScalarSame(v: LuaValue)
    requires !v.TableValue? && ToAtom(v).Some?
    ensures Meaning(Wire(v)) == Means(v) <==> Same(v)
  {
    if v.String? {
      ShownExactly(v.s);
    }
  }

  // ------------------------------------------------------------ names with a NUL

  /** No name in a table, or in the tables in it, has a NUL. */
  ghost predicate NamesFree(x: Lua) {
    x.Table? ==> forall k :: k in x.m ==> (k.Named? ==> NulFree(k.name)) && NamesFree(x.m[k])
  }

  /** A name in the table, or in a table in it, has a NUL. */
  ghost predicate NulName(v: LuaValue) {
    v.TableValue? && exists i :: 0 <= i < |v.entries| && NulEntry(v.entries[i])
  }

  ghost predicate NulEntry(e: Entry) {
    (e.key.Named? && !NulFree(e.key.name)) || NulName(e.value)
  }

  lemma {:induction false} DecodedNames(s: seq<byte>, isArray: bool)
    ensures var d := Decode(s, isArray); d.Got? ==> NamesFree(d.value)
    decreases |s|, 1
  {
    var inner := GetInner(s);
    if inner.Got? {
      ElementNames(inner.value, isArray, map[]);
    }
  }

  lemma {:induction false} ValueNames(t: byte, s: seq<byte>)
    ensures var d := DecodeValue(t, s); d.Got? ==> NamesFree(d.value)
    decreases |s|, 2
  {
    if t == 3 || t == 4 {
      DecodedNames(s, t == 4);
    }
  }

  lemma {:induction false} ElementNames(t: seq<byte>, isArray: bool, m: map<Key, Lua>)
    requires NamesFree(Table(m))
    ensures var r := DecodeElements(t, isArray, m); r.Some? ==> NamesFree(Table(r.value))
    decreases |t|, 4
  {
    if t != [] {
      var key := GetString(t[1..]);
      if key.Got? {
        StringRead(t[1..]);
        ValueNames(t[0], key.rest);
        var r := DecodeElement(t, isArray, m);
        if r.Some? {
          ElementNames(r.value.t, isArray, r.value.m);
        }
      }
    }
  }

  lemma {:induction false} NulMeans(v: LuaValue)
    requires WellFormed(v) && NulName(v)
    ensures !NamesFree(Means(v))
  {
    var i :| 0 <= i < |v.entries| && NulEntry(v.entries[i]);
    var e := v.entries[i];
    MeansAt(v, |v.entries|, i);
    assert e.key in Means(v).m && Means(v).m[e.key] == Means(e.value);
    if NulName(e.value) {
      NulMeans(e.value);
    }
  }

  /** A table with a NUL in a name never comes back, whatever was written for it. */
  lemma NulNameLost(v: LuaValue, s: seq<byte>, isArray: bool)
    requires WellFormed(v) && NulName(v)
    ensures var d := Decode(s, isArray); d.Got? ==> d.value != Means(v)
  {
    DecodedNames(s, isArray);
    NulMeans(v);
  }

  // ------------------------------------------------------------ documents come back

  /** Every string can be told from anything that follows it, and no name has a NUL. */
  ghost predicate Clean(v: LuaValue) {
    if v.TableValue? then
      forall j :: 0 <= j < Count(v) && Present(v, j) ==>
        Clean(Child(v, j)) && (v.entries[Slot(v, j)].key.Named? ==> NulFree(v.entries[Slot(v, j)].key.name))
    else ToAtom(v).Some? ==> Steady(ToAtom(v).value)
  }

  lemma {:induction false} CleanWire(v: LuaValue, depth: nat)
    requires Clean(v) && if v.TableValue? then AcceptsAll(v, depth) else Accepts(v, depth)
    ensures AllSteady(Wire(v))
    decreases v
  {
    if v.TableValue? {
      var w := Wire(v);
      forall j | 0 <= j < Count(v)
        ensures Present(v, j) && AllSteady(Wire(Child(v, j))) && (w.Doc? ==> NulFree(w.fields[j].key))
      {
        WireAt(v, depth, j);
        AcceptedAt(v, depth, j);
        CleanWire(Child(v, j), if Child(v, j).TableValue? then depth + 1 else depth);
      }
      WireSteady(v, depth);
    }
  }

  lemma WireSteady(v: LuaValue, depth: nat)
    requires v.TableValue? && AcceptsAll(v, depth)
    requires forall j :: 0 <= j < Count(v) ==> Present(v, j) && AllSteady(Wire(Child(v, j)))
    requires Size(Wire(v)) == Count(v) && NamesOk(Wire(v))
    ensures AllSteady(Wire(v))
  {
    forall j | 0 <= j < Size(Wire(v)) ensures AllSteady(ChildAt(Wire(v), j)) {
      WireAt(v, depth, j);
    }
  }

  /** lencode takes its table as a dictionary in any case. */
  function AsDict(v: LuaValue): LuaValue
    requires v.TableValue?
  {
    TableValue(0, v.entries)
  }

  /** What lencode takes: a table whose keys are names. */
  ghost predicate AcceptsDocument(v: LuaValue) {
    v.TableValue? && !IsArray(v) && AcceptsAll(v, 0)
  }

  lemma SameElement(v: LuaValue, j: nat)
    requires v.TableValue? && !IsArray(v) && j < Count(v)
    ensures var d := AsDict(v);
            && KeyBytes(d, j) == KeyBytes(v, j) && Present(d, j) && Present(v, j) && Child(d, j) == Child(v, j)
            && (ElementAccepted(d, j, 0) <==> ElementAccepted(v, j, 0))
  {
    var d := AsDict(v);
    assert Child(d, j) == Child(v, j);
    assert ElementAccepted(d, j, 0) <==> KeyAccepted(d, j) && Accepts(Child(d, j), 0);
  }

  lemma DictBack(v: LuaValue)
    requires v.TableValue? && !IsArray(v) && AcceptsAll(AsDict(v), 0)
    ensures AcceptsAll(v, 0)
  {
    forall j | 0 <= j < Count(v) ensures ElementAccepted(v, j, 0) {
      AcceptedAt(AsDict(v), 0, j);
      SameElement(v, j);
    }
  }

  lemma DictForth(v: LuaValue)
    requires v.TableValue? && !IsArray(v) && AcceptsAll(v, 0)
    ensures AcceptsAll(AsDict(v), 0)
  {
    forall j | 0 <= j < Count(v) ensures ElementAccepted(AsDict(v), j, 0) {
      AcceptedAt(v, 0, j);
      SameElement(v, j);
    }
  }

  lemma DocumentAccepted(v: LuaValue)
    requires v.TableValue?
    ensures AcceptsAll(AsDict(v), 0) <==> AcceptsDocument(v)
    ensures AcceptsDocument(v) ==> Wire(AsDict(v)) == Wire(v)
  {
    if IsArray(v) {
      assert !ElementAccepted(AsDict(v), |v.entries| - 1, 0);
    } else {
      if AcceptsAll(v, 0) {
        DictForth(v);
      }
      if AcceptsAll(AsDict(v), 0) {
        DictBack(v);
      }
      WireDict(v);
    }
  }

  lemma WireDict(v: LuaValue)
    requires v.TableValue? && !IsArray(v)
    ensures Wire(AsDict(v)) == Wire(v)
  {
    var d := AsDict(v);
    assert Count(d) == Count(v);
    forall j | 0 <= j < Count(v) ensures Wire(d).fields[j] == Wire(v).fields[j] {
      assert KeyBytes(d, j) == KeyBytes(v, j) && Present(d, j) && Present(v, j) && Child(d, j) == Child(v, j);
    }
    assert Wire(d).fields == Wire(v).fields;
  }

  /** For every table that the encoder accepts, with every element told from those that
      follow it: decoding gives the table back if and only if its strings are shown as
      they were and no entry is left out. */
  lemma RoundTripExactly(v: LuaValue)
    requires WellFormed(v) && AcceptsDocument(v) && Bson.WellFormed(Wire(v), []) && |Encode(Wire(v))| < 0x8000_0000
    ensures Decode(Encode(Wire(v)), false) == Got(Meaning(Wire(v)), [])
    ensures Decode(Encode(Wire(v)), false) == Got(Means(v), []) <==> Same(v)
  {
    RoundTrip(Wire(v).fields);
    SameExactly(v, 0);
  }

  lemma CleanTold(v: LuaValue)
    requires AcceptsDocument(v) && Clean(v)
    ensures Bson.WellFormed(Wire(v), [])
  {
    CleanWire(v, 0);
    SteadyWellFormed(Wire(v), []);
  }

  /** Texts that are no objects, numbers, booleans and tables that are not taken for
      arrays always come back. */
  ghost predicate Ordinary(v: LuaValue) {
    if v.TableValue? then
      !IsArray(v) && forall i :: 0 <= i < |v.entries| ==> Ordinary(v.entries[i].value)
    else v.String? ==> Sound(v.s)
  }

  lemma {:induction false} OrdinarySame(v: LuaValue)
    requires Ordinary(v)
    ensures Same(v)
  {
    if v.TableValue? {
      forall j | 0 <= j < Count(v) && Present(v, j) ensures Same(Child(v, j)) {
        OrdinarySame(Child(v, j));
      }
    } else if v.String? {
      SoundAlways(v.s, []);
    }
  }

  /** A table with a name and the index 1, the name first in the order of lua_next. */
  function Mixed(): LuaValue {
    TableValue(1, [Entry(Named([120]), Boolean(true)), Entry(Numbered(1), Boolean(true))])
  }

  lemma MixedShape()
    ensures WellFormed(Mixed()) && IsArray(Mixed()) && Count(Mixed()) == 1
    ensures Slot(Mixed(), 0) == 1 && Child(Mixed(), 0) == Boolean(true)
  {
    var es := Mixed().entries;
    assert es[1..] == [Entry(Numbered(1), Boolean(true))];
    assert Find(es, Numbered(1)) == 1;
  }

  lemma MixedAccepted()
    ensures AcceptsAll(Mixed(), 1) && Clean(Mixed()) && !Same(Mixed())
  {
    MixedShape();
    assert KeyBytes(Mixed(), 0) == Some([48]);
    assert Accepts(Boolean(true), 1);
  }

  /** Such a table is written as an array, and the name is lost. */
  lemma EntryLost()
    ensures var v := TableValue(0, [Entry(Named([116]), Mixed())]);
            WellFormed(v) && AcceptsDocument(v) && Clean(v) && !Same(v)
  {
    var v := TableValue(0, [Entry(Named([116]), Mixed())]);
    MixedShape();
    MixedAccepted();
    assert Count(v) == 1 && Child(v, 0) == Mixed();
    assert Accepts(Mixed(), 0) && KeyAccepted(v, 0);
  }

  /** A string with a leading NUL: refused, or another value when it comes back. */
  lemma NulStrings()
    ensures Classify([0, 97]) == None
    ensures Classify([0, 10, 97]) == Some(Bson.Null) && Show(Bson.Null) == Text([0, 10])
    ensures !Sound([0, 10, 97]) && Sound([0, 10]) && Sound([0])
  {
    assert [0, 10, 97][2..] == [97] && [0, 10][2..] == [];
    assert Object(10, []) == [0, 10];
  }
}
