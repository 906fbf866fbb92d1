/** The message serializer of lua-seri.c: tagged values written into a chain of
    128-byte blocks and read back from one flat buffer. */
module Seri {
  import opened Wrappers
  import opened Bytes

  const MAX_COOKIE: nat := 32
  const BLOCK_SIZE: nat := 128
  const MAX_DEPTH: nat := 32

  type int32 = x: int | -0x8000_0000 <= x < 0x8000_0000
  type int64 = x: int | -0x8000_0000_0000_0000 <= x < 0x8000_0000_0000_0000

  /** Values that can be table keys; reals and pointers are opaque words. */
  datatype Scalar = Bool(b: bool) | Int(i: int64) | Real(real64: word64) | Str(s: seq<byte>) | Pointer(p: word64)

  /** What the Lua API reports of a value: a table is its lua_rawlen and the
      entries in the order of lua_next.  `Other` is a type that has no tag. */
  datatype Value = Nil | Atom(a: Scalar) | Table(length: nat, entries: seq<Entry>) | Other
  datatype Entry = Entry(key: Scalar, value: Value)

  /** The value itself: a table is a finite map without nil values. */
  datatype Plain = PNil | PAtom(a: Scalar) | PTable(m: map<Scalar, Plain>)

  /** lua_rawset. */
  function RawSet(m: map<Scalar, Plain>, k: Scalar, v: Plain): map<Scalar, Plain> {
    if v == PNil then m - {k} else m[k := v]
  }

  function Meaning(v: Value): Plain
    decreases v, 1, 0
  {
    match v
    case Nil => PNil
    case Atom(a) => PAtom(a)
    case Table(_, es) => PTable(MeaningUpTo(v, |es|))
    case Other => PNil
  }

  function MeaningUpTo(v: Value, j: nat): map<Scalar, Plain>
    requires v.Table? && j <= |v.entries|
    decreases v, 0, j
  {
    if j == 0 then map[]
    else RawSet(MeaningUpTo(v, j - 1), v.entries[j - 1].key, Meaning(v.entries[j - 1].value))
  }

  /** What Lua guarantees of a table (no key twice, no nil values), and sizes
      that fit the `int` of the C interface. */
  ghost predicate WellFormed(v: Value)
    decreases v
  {
    match v
    case Nil => true
    case Atom(a) => a.Str? ==> |a.s| < 0x8000_0000
    case Table(n, es) =>
      && n < 0x8000_0000
      && (forall i, j :: 0 <= i < j < |es| ==> es[i].key != es[j].key)
      && (forall i :: 0 <= i < |es| ==>
            WellFormed(es[i].value) && es[i].value != Nil && (es[i].key.Str? ==> |es[i].key.s| < 0x8000_0000))
    case Other => true
  }

  /** The index of a key, or the number of entries. */
  function Find(es: seq<Entry>, k: Scalar): (r: nat)
    ensures r <= |es|
    ensures r < |es| ==> es[r].key == k
    ensures forall i :: 0 <= i < r ==> es[i].key != k
  {
    if es == [] then 0 else if es[0].key == k then 0 else 1 + Find(es[1..], k)
  }

  /** The keys that the array part has written already. */
  predicate InArray(k: Scalar, n: int) {
    k.Int? && 0 < k.i <= n
  }

  // ------------------------------------------------------------ the format

  function Tag(t: nat, cookie: nat): byte
    requires t < 8 && cookie < 32
  {
    t + 8 * cookie
  }

  function EncodeInteger(v: int64): seq<byte> {
    if v == 0 then [Tag(2, 0)]
    else if !(-0x8000_0000 <= v < 0x8000_0000) then
      [Tag(2, 6)] + LeBytes(if v < 0 then v + 0x1_0000_0000_0000_0000 else v, 8)
    else if v < 0 then [Tag(2, 4)] + LeBytes(v + 0x1_0000_0000, 4)
    else if v < 0x100 then [Tag(2, 1)] + LeBytes(v, 1)
    else if v < 0x10000 then [Tag(2, 2)] + LeBytes(v, 2)
    else [Tag(2, 4)] + LeBytes(v, 4)
  }

  function EncodeString(s: seq<byte>): seq<byte> {
    if |s| < MAX_COOKIE then [Tag(4, |s|)] + s
    else if |s| < 0x10000 then [Tag(5, 2)] + LeBytes(|s|, 2) + s
    else [Tag(5, 4)] + LeBytes(|s|, 4) + s
  }

  function EncodeScalar(a: Scalar): seq<byte> {
    match a
    case Bool(b) => [Tag(1, if b then 1 else 0)]
    case Int(i) => EncodeInteger(i)
    case Real(w) => [Tag(2, 8)] + LeBytes(w, 8)
    case Str(s) => EncodeString(s)
    case Pointer(w) => [Tag(3, 0)] + LeBytes(w, 8)
  }

  function EncodeSize(n: int): seq<byte>
    requires 0 <= n < 0x8000_0000
  {
    if n >= MAX_COOKIE - 1 then [Tag(6, MAX_COOKIE - 1)] + EncodeInteger(n) else [Tag(6, n)]
  }

  ghost function Encode(v: Value): seq<byte>
    requires WellFormed(v)
    decreases v, 1, 0
  {
    match v
    case Nil => [0]
    case Atom(a) => EncodeScalar(a)
    case Table(n, es) => EncodeSize(n) + EncodeArray(v, 1) + EncodeHash(v, 0) + [0]
    case Other => []
  }

  ghost function EncodeElement(v: Value, i: int64): seq<byte>
    requires WellFormed(v) && v.Table?
    decreases v, 0, 0
  {
    var k := Find(v.entries, Int(i));
    if k < |v.entries| then Encode(v.entries[k].value) else [0]
  }

  ghost function EncodeArray(v: Value, i: nat): seq<byte>
    requires WellFormed(v) && v.Table? && 1 <= i <= v.length + 1
    decreases v, 0, v.length + 2 - i
  {
    if i > v.length then [] else EncodeElement(v, i) + EncodeArray(v, i + 1)
  }

  ghost function EncodeHash(v: Value, j: nat): seq<byte>
    requires WellFormed(v) && v.Table? && j <= |v.entries|
    decreases v, 0, |v.entries| - j
  {
    if j == |v.entries| then []
    else if InArray(v.entries[j].key, v.length) then EncodeHash(v, j + 1)
    else EncodeScalar(v.entries[j].key) + Encode(v.entries[j].value) + EncodeHash(v, j + 1)
  }

  ghost function EncodeAll(vs: seq<Value>): seq<byte>
    requires forall i :: 0 <= i < |vs| ==> WellFormed(vs[i])
  {
    if vs == [] then [] else Encode(vs[0]) + EncodeAll(vs[1..])
  }

  // ------------------------------------------------------------ reading

  function Signed(n: nat, width: nat): int {
    if 2 * n < Pow256(width) then n else n - Pow256(width)
  }

  function Number(s: seq<byte>, width: nat, signed: bool): (d: Decoded<int64>)
    requires width == 1 || width == 2 || width == 4 || width == 8
    requires width == 8 ==> signed
    ensures d.Got? ==> |d.rest| <= |s|
  {
    match Take(s, width)
    case Invalid => Invalid
    case Got(b, rest) =>
      LeBound(b);
      PowValues();
      Got(if signed then Signed(LeNat(b), width) else LeNat(b), rest)
  }

  function GetInteger(s: seq<byte>, cookie: nat): (d: Decoded<int64>)
    ensures d.Got? ==> |d.rest| <= |s|
  {
    if cookie == 0 then Got(0, s)
    else if cookie == 1 then Number(s, 1, false)
    else if cookie == 2 then Number(s, 2, false)
    else if cookie == 4 then Number(s, 4, true)
    else if cookie == 6 then Number(s, 8, true)
    else Invalid
  }

  function GetLongString(s: seq<byte>, width: nat): (d: Decoded<seq<byte>>)
    ensures d.Got? ==> |d.rest| <= |s|
  {
    match Take(s, width)
    case Invalid => Invalid
    case Got(b, rest) => Take(rest, LeNat(b))
  }

  /** The values other than tables. */
  function GetAtom(s: seq<byte>, t: nat, cookie: nat): (d: Decoded<Plain>)
    ensures d.Got? ==> |d.rest| <= |s|
  {
    if t == 0 then Got(PNil, s)
    else if t == 1 then Got(PAtom(Bool(cookie != 0)), s)
    else if t == 2 && cookie == 8 then
      match GetWord(s) case Invalid => Invalid case Got(w, rest) => Got(PAtom(Real(w)), rest)
    else if t == 2 then
      match GetInteger(s, cookie) case Invalid => Invalid case Got(i, rest) => Got(PAtom(Int(i)), rest)
    else if t == 3 then
      match GetWord(s) case Invalid => Invalid case Got(w, rest) => Got(PAtom(Pointer(w)), rest)
    else if t == 4 then
      match Take(s, cookie) case Invalid => Invalid case Got(b, rest) => Got(PAtom(Str(b)), rest)
    else if t == 5 && (cookie == 2 || cookie == 4) then
      match GetLongString(s, cookie) case Invalid => Invalid case Got(b, rest) => Got(PAtom(Str(b)), rest)
    else Invalid
  }

  /** A 64-bit integer stored in an `int`. */
  function ToInt(i: int64): int32 {
    var low := i % 0x1_0000_0000;
    if low < 0x8000_0000 then low else low - 0x1_0000_0000
  }

  /** The array size of a table; 31 announces an integer. */
  function GetSize(s: seq<byte>, cookie: nat): (d: Decoded<int32>)
    requires cookie < 32
    ensures d.Got? ==> |d.rest| <= |s|
  {
    if cookie != MAX_COOKIE - 1 then Got(cookie, s)
    else if s == [] || s[0] % 8 != 2 || s[0] / 8 == 8 then Invalid
    else match GetInteger(s[1..], s[0] / 8) case Invalid => Invalid case Got(i, rest) => Got(ToInt(i), rest)
  }

  function Decode(s: seq<byte>): (d: Decoded<Plain>)
    ensures d.Got? ==> |d.rest| < |s|
    decreases |s|, 2
  {
    if s == [] then Invalid
    else if s[0] % 8 == 6 then DecodeTable(s[1..], s[0] / 8)
    else GetAtom(s[1..], s[0] % 8, s[0] / 8)
  }

  function DecodeTable(s: seq<byte>, cookie: nat): (d: Decoded<Plain>)
    requires cookie < 32
    ensures d.Got? ==> |d.rest| <= |s|
    decreases |s|, 4
  {
    match GetSize(s, cookie)
    case Invalid => Invalid
    case Got(n, rest) =>
      match DecodeArray(rest, 1, n, map[])
      case Invalid => Invalid
      case Got(m, rest') => DecodeHash(rest', m)
  }

  function DecodeArray(s: seq<byte>, i: int32, n: int32, m: map<Scalar, Plain>): (d: Decoded<map<Scalar, Plain>>)
    ensures d.Got? ==> |d.rest| <= |s|
    decreases |s|, 3
  {
    if i > n then Got(m, s)
    else
      match Decode(s)
      case Invalid => Invalid
      case Got(v, rest) =>
        var m' := RawSet(m, Int(i), v);
        if i == n then Got(m', rest) else DecodeArray(rest, i + 1, n, m')
  }

  function DecodeHash(s: seq<byte>, m: map<Scalar, Plain>): (d: Decoded<Plain>)
    ensures d.Got? ==> |d.rest| <= |s|
    decreases |s|, 3
  {
    match Decode(s)
    case Invalid => Invalid
    case Got(PNil, rest) => Got(PTable(m), rest)
    case Got(PTable(_), rest) => Invalid
    case Got(PAtom(k), rest) =>
      match Decode(rest)
      case Invalid => Invalid
      case Got(v, rest') => DecodeHash(rest', RawSet(m, k, v))
  }

  /** luaseri_unpack: values until the buffer is used up. */
  function DecodeAll(s: seq<byte>): Result<seq<Plain>>
    decreases |s|
  {
    if s == [] then Ok([])
    else
      match Decode(s)
      case Invalid => Error("Invalid serialize stream")
      case Got(v, rest) =>
        match DecodeAll(rest)
        case Error(e) => Error(e)
        case Ok(vs) => Ok([v] + vs)
  }

  // ------------------------------------------------------------ round trip

  lemma NumberRoundTrip(n: nat, width: nat, signed: bool, t: seq<byte>)
    requires width == 1 || width == 2 || width == 4 || width == 8
    requires width == 8 ==> signed
    requires n < Pow256(width)
    ensures var d := Number(LeBytes(n, width) + t, width, signed);
            d.Got? && d.value == (if signed then Signed(n, width) else n) && d.rest == t
  {
    TakePrefix(LeBytes(n, width), t);
    LeRoundTrip(n, width);
  }

  lemma Tagged(b: byte, body: seq<byte>, t: seq<byte>)
    ensures ([b] + body + t)[0] == b && ([b] + body + t)[1..] == body + t
  {
  }

  lemma IntegerRoundTrip(v: int64, t: seq<byte>)
    ensures var e := EncodeInteger(v) + t;
            e[0] % 8 == 2 && e[0] / 8 != 8 && GetInteger(e[1..], e[0] / 8) == Got(v, t)
  {
    PowValues();
    if v == 0 {
      Tagged(Tag(2, 0), [], t);
    } else if !(-0x8000_0000 <= v < 0x8000_0000) {
      var n := if v < 0 then v + 0x1_0000_0000_0000_0000 else v;
      Tagged(Tag(2, 6), LeBytes(n, 8), t);
      NumberRoundTrip(n, 8, true, t);
    } else if v < 0 {
      Tagged(Tag(2, 4), LeBytes(v + 0x1_0000_0000, 4), t);
      NumberRoundTrip(v + 0x1_0000_0000, 4, true, t);
    } else if v < 0x100 {
      Tagged(Tag(2, 1), LeBytes(v, 1), t);
      NumberRoundTrip(v, 1, false, t);
    } else if v < 0x10000 {
      Tagged(Tag(2, 2), LeBytes(v, 2), t);
      NumberRoundTrip(v, 2, false, t);
    } else {
      Tagged(Tag(2, 4), LeBytes(v, 4), t);
      NumberRoundTrip(v, 4, true, t);
    }
  }

  lemma LongRoundTrip(s: seq<byte>, width: nat, t: seq<byte>)
    requires |s| < Pow256(width)
    ensures GetLongString(LeBytes(|s|, width) + s + t, width) == Got(s, t)
  {
    Assoc(LeBytes(|s|, width), s, t);
    TakePrefix(LeBytes(|s|, width), s + t);
    LeRoundTrip(|s|, width);
    TakePrefix(s, t);
  }

  lemma StringRoundTrip(s: seq<byte>, t: seq<byte>)
    requires |s| < 0x8000_0000
    ensures Decode(EncodeString(s) + t) == Got(PAtom(Str(s)), t)
  {
    PowValues();
    if |s| < MAX_COOKIE {
      Tagged(Tag(4, |s|), s, t);
      TakePrefix(s, t);
    } else {
      var width := if |s| < 0x10000 then 2 else 4;
      Assoc([Tag(5, width)], LeBytes(|s|, width), s);
      Tagged(Tag(5, width), LeBytes(|s|, width) + s, t);
      LongRoundTrip(s, width, t);
    }
  }

  lemma ScalarRoundTrip(a: Scalar, t: seq<byte>)
    requires a.Str? ==> |a.s| < 0x8000_0000
    ensures Decode(EncodeScalar(a) + t) == Got(PAtom(a), t)
  {
    match a
    case Bool(b) => Tagged(Tag(1, if b then 1 else 0), [], t);
    case Int(i) => IntegerRoundTrip(i, t);
    case Real(w) =>
      Tagged(Tag(2, 8), LeBytes(w, 8), t);
      WordRoundTrip(w, t);
    case Str(s) => StringRoundTrip(s, t);
    case Pointer(w) =>
      Tagged(Tag(3, 0), LeBytes(w, 8), t);
      WordRoundTrip(w, t);
  }

  lemma ToIntSame(n: int32)
    ensures ToInt(n) == n
  {
  }

  lemma SizeRoundTrip(n: int, t: seq<byte>)
    requires 0 <= n < 0x8000_0000
    ensures var e := EncodeSize(n) + t; e[0] % 8 == 6 && GetSize(e[1..], e[0] / 8) == Got(n, t)
  {
    if n >= MAX_COOKIE - 1 {
      Tagged(Tag(6, MAX_COOKIE - 1), EncodeInteger(n), t);
      IntegerRoundTrip(n, t);
      ToIntSame(n);
    } else {
      Tagged(Tag(6, n), [], t);
      assert [Tag(6, n)] + [] == [Tag(6, n)];
    }
  }

  /** Every value that can be packed has no untagged part. */
  ghost predicate Supported(v: Value) {
    match v
    case Nil => true
    case Atom(_) => true
    case Table(_, es) => forall i :: 0 <= i < |es| ==> Supported(es[i].value)
    case Other => false
  }

  ghost predicate Covered(v: Value, n: nat, j: nat, k: Scalar)
    requires v.Table? && j <= |v.entries|
  {
    InArray(k, n) || Find(v.entries, k) < j
  }

  /** The part of a table that was read after `n` array elements and the hash
      entries before `j`. */
  ghost function Part(v: Value, n: nat, j: nat): map<Scalar, Plain>
    requires v.Table? && j <= |v.entries|
  {
    var m := MeaningUpTo(v, |v.entries|);
    map k | k in m && Covered(v, n, j, k) :: m[k]
  }

  lemma {:induction false} MeaningAt(v: Value, j: nat, k: Scalar)
    requires WellFormed(v) && Supported(v) && v.Table? && j <= |v.entries|
    ensures var f := Find(v.entries, k); var m := MeaningUpTo(v, j);
            (k in m <==> f < j) && (f < j ==> m[k] == Meaning(v.entries[f].value))
  {
    if j > 0 {
      MeaningAt(v, j - 1, k);
      assert Meaning(v.entries[j - 1].value) != PNil;
    }
  }

  lemma PartEnds(v: Value)
    requires WellFormed(v) && Supported(v) && v.Table?
    ensures Part(v, 0, 0) == map[]
    ensures forall n: nat :: PTable(Part(v, n, |v.entries|)) == Meaning(v)
  {
    forall n: nat ensures PTable(Part(v, n, |v.entries|)) == Meaning(v) {
      var m := MeaningUpTo(v, |v.entries|);
      forall k | k in m ensures Covered(v, n, |v.entries|, k) {
        MeaningAt(v, |v.entries|, k);
      }
      assert Part(v, n, |v.entries|) == m;
    }
  }

  function ElementMeaning(v: Value, i: int64): Plain
    requires v.Table?
  {
    var f := Find(v.entries, Int(i));
    if f < |v.entries| then Meaning(v.entries[f].value) else PNil
  }

  /** Storing one array element, or nil at a hole. */
  lemma PartElement(v: Value, i: int64)
    requires WellFormed(v) && Supported(v) && v.Table? && 1 <= i
    ensures Part(v, i, 0) == RawSet(Part(v, i - 1, 0), Int(i), ElementMeaning(v, i))
  {
    MeaningAt(v, |v.entries|, Int(i));
    ElementNotNil(v, i);
    forall k ensures Covered(v, i, 0, k) <==> Covered(v, i - 1, 0, k) || k == Int(i) {
    }
    assert Int(i) !in MeaningUpTo(v, |v.entries|) ==> ElementMeaning(v, i) == PNil;
  }

  lemma ElementNotNil(v: Value, i: int64)
    requires WellFormed(v) && Supported(v) && v.Table?
    ensures ElementMeaning(v, i) == PNil <==> Find(v.entries, Int(i)) == |v.entries|
  {
    var f := Find(v.entries, Int(i));
    assert f < |v.entries| ==> v.entries[f].value != Nil && Supported(v.entries[f].value);
  }

  lemma FindUnique(es: seq<Entry>, j: nat)
    requires j < |es| && forall i, k :: 0 <= i < k < |es| ==> es[i].key != es[k].key
    ensures Find(es, es[j].key) == j
  {
  }

  lemma CoverNext(v: Value, n: nat, j: nat, k: Scalar)
    requires WellFormed(v) && v.Table? && j < |v.entries|
    ensures Covered(v, n, j + 1, k) <==> Covered(v, n, j, k) || k == v.entries[j].key
  {
    FindUnique(v.entries, j);
  }

  /** Storing one hash entry; an entry of the array part is there already. */
  lemma PartEntry(v: Value, n: nat, j: nat)
    requires WellFormed(v) && Supported(v) && v.Table? && j < |v.entries|
    ensures InArray(v.entries[j].key, n) ==> Part(v, n, j + 1) == Part(v, n, j)
    ensures Part(v, n, j + 1) == RawSet(Part(v, n, j), v.entries[j].key, Meaning(v.entries[j].value))
  {
    var key := v.entries[j].key;
    FindUnique(v.entries, j);
    MeaningAt(v, |v.entries|, key);
    assert Meaning(v.entries[j].value) != PNil by { assert Supported(v.entries[j].value); }
    var m := MeaningUpTo(v, |v.entries|);
    forall k | k in m ensures Covered(v, n, j + 1, k) <==> Covered(v, n, j, k) || k == key {
      CoverNext(v, n, j, k);
    }
  }

  lemma NilRoundTrip(t: seq<byte>)
    ensures Decode([0] + t) == Got(PNil, t)
  {
    assert ([0] + t)[1..] == t;
  }

  /** Reading back any packed value, whatever follows it. */
  lemma {:induction false} DecodeEncoded(v: Value, t: seq<byte>)
    requires WellFormed(v) && Supported(v)
    ensures Decode(Encode(v) + t) == Got(Meaning(v), t)
    decreases v, 1, 0
  {
    match v
    case Nil => NilRoundTrip(t);
    case Atom(a) => ScalarRoundTrip(a, t);
    case Table(_, _) => TableEncoded(v, t);
  }

  lemma TableParts(v: Value, t: seq<byte>)
    requires WellFormed(v) && v.Table?
    ensures Encode(v) + t == EncodeSize(v.length) + (EncodeArray(v, 1) + (EncodeHash(v, 0) + ([0] + t)))
  {
  }

  lemma ReadTable(s: seq<byte>, n: int32, m: map<Scalar, Plain>, s1: seq<byte>, s2: seq<byte>)
    requires s != [] && s[0] % 8 == 6 && GetSize(s[1..], s[0] / 8) == Got(n, s1)
    requires DecodeArray(s1, 1, n, map[]) == Got(m, s2)
    ensures Decode(s) == DecodeHash(s2, m)
  {
  }

  lemma {:induction false} TableEncoded(v: Value, t: seq<byte>)
    requires WellFormed(v) && Supported(v) && v.Table?
    ensures Decode(Encode(v) + t) == Got(Meaning(v), t)
    decreases v, 0, v.length + |v.entries| + 3
  {
    var t2 := EncodeHash(v, 0) + ([0] + t);
    var t1 := EncodeArray(v, 1) + t2;
    TableParts(v, t);
    SizeRoundTrip(v.length, t1);
    PartEnds(v);
    if v.length > 0 {
      ArrayEncoded(v, 1, t2);
    } else {
      assert t1 == t2;
    }
    ReadTable(Encode(v) + t, v.length, Part(v, v.length, 0), t1, t2);
    HashEncoded(v, 0, t);
  }

  lemma {:induction false} ElementEncoded(v: Value, i: int64, t: seq<byte>)
    requires WellFormed(v) && Supported(v) && v.Table?
    ensures Decode(EncodeElement(v, i) + t) == Got(ElementMeaning(v, i), t)
    decreases v, 0, 0
  {
    var f := Find(v.entries, Int(i));
    if f < |v.entries| {
      DecodeEncoded(v.entries[f].value, t);
    } else {
      NilRoundTrip(t);
    }
  }

  lemma {:induction false} ArrayEncoded(v: Value, i: nat, t: seq<byte>)
    requires WellFormed(v) && Supported(v) && v.Table? && 1 <= i <= v.length
    ensures DecodeArray(EncodeArray(v, i) + t, i, v.length, Part(v, i - 1, 0)) == Got(Part(v, v.length, 0), t)
    decreases v, 0, v.length + 2 - i
  {
    var more := EncodeArray(v, i + 1);
    Assoc(EncodeElement(v, i), more, t);
    ElementEncoded(v, i, more + t);
    PartElement(v, i);
    if i == v.length {
      assert more + t == t;
    } else {
      ArrayEncoded(v, i + 1, t);
    }
  }

  lemma ReadPair(s: seq<byte>, m: map<Scalar, Plain>, k: Scalar, s': seq<byte>, v: Plain, s'': seq<byte>)
    requires Decode(s) == Got(PAtom(k), s') && Decode(s') == Got(v, s'')
    ensures DecodeHash(s, m) == DecodeHash(s'', RawSet(m, k, v))
  {
  }

  lemma EncodedEntry(v: Value, j: nat, t: seq<byte>)
    requires WellFormed(v) && v.Table? && j < |v.entries| && !InArray(v.entries[j].key, v.length)
    ensures EncodeHash(v, j) + t ==
            EncodeScalar(v.entries[j].key) + (Encode(v.entries[j].value) + (EncodeHash(v, j + 1) + t))
  {
  }

  lemma HashEnd(v: Value, t: seq<byte>)
    requires WellFormed(v) && Supported(v) && v.Table?
    ensures var j := |v.entries|;
            DecodeHash(EncodeHash(v, j) + ([0] + t), Part(v, v.length, j)) == Got(Meaning(v), t)
  {
    PartEnds(v);
    NilRoundTrip(t);
    assert EncodeHash(v, |v.entries|) + ([0] + t) == [0] + t;
  }

  lemma {:induction false} HashEncoded(v: Value, j: nat, t: seq<byte>)
    requires WellFormed(v) && Supported(v) && v.Table? && j <= |v.entries|
    ensures DecodeHash(EncodeHash(v, j) + ([0] + t), Part(v, v.length, j)) == Got(Meaning(v), t)
    decreases v, 0, |v.entries| - j
  {
    if j == |v.entries| {
      HashEnd(v, t);
    } else {
      PartEntry(v, v.length, j);
      HashEncoded(v, j + 1, t);
      var e := v.entries[j];
      if !InArray(e.key, v.length) {
        var more := EncodeHash(v, j + 1) + ([0] + t);
        EncodedEntry(v, j, [0] + t);
        ScalarRoundTrip(e.key, Encode(e.value) + more);
        DecodeEncoded(e.value, more);
        ReadPair(EncodeHash(v, j) + ([0] + t), Part(v, v.length, j), e.key, Encode(e.value) + more, Meaning(e.value),
          more);
      }
    }
  }

  lemma EncodedNotEmpty(v: Value)
    requires WellFormed(v) && Supported(v)
    ensures Encode(v) != []
  {
  }

  ghost predicate AllPackable(vs: seq<Value>) {
    forall i :: 0 <= i < |vs| ==> WellFormed(vs[i]) && Supported(vs[i])
  }

  function Meanings(vs: seq<Value>): seq<Plain> {
    seq(|vs|, i requires 0 <= i < |vs| => Meaning(vs[i]))
  }

  /** Unpacking what was packed gives the same values. */
  lemma {:induction false} RoundTrip(vs: seq<Value>)
    requires AllPackable(vs)
    ensures DecodeAll(EncodeAll(vs)) == Ok(Meanings(vs))
  {
    if vs != [] {
      assert Meanings(vs) == [Meaning(vs[0])] + Meanings(vs[1..]);
      DecodeEncoded(vs[0], EncodeAll(vs[1..]));
      EncodedNotEmpty(vs[0]);
      RoundTrip(vs[1..]);
    }
  }
}
