/** The documents of lua-bson.c: the element productions of the BSON 1.1
    specification as the encoder writes and the decoder reads them. */
module Bson {
  import opened Wrappers
  import opened Bytes

  type int32 = x: int | -0x8000_0000 <= x < 0x8000_0000
  type int64 = x: int | -0x8000_0000_0000_0000 <= x < 0x8000_0000_0000_0000
  type uint32 = x: int | 0 <= x < 0x1_0000_0000

  /** The element types whose bytes the encoder copies as they are: DBPOINTER,
      JSCODE, SYMBOL and CODEWS. */
  type RawKind = x: int | 12 <= x <= 15 witness 12

  /** The elements that are not documents, as they are on the wire.  `Binary` holds
      the subtype and the data; reals are opaque words. */
  datatype Atom =
    | Real(w: word64)
    | Str(s: seq<byte>)
    | Binary(data: seq<byte>)
    | ObjectId(id: seq<byte>)
    | Bool(b: bool)
    | Date(t: uint32)
    | Null
    | Regex(pattern: seq<byte>, options: seq<byte>)
    | Raw(kind: RawKind, raw: seq<byte>)
    | Int32(i: int32)
    | Timestamp(inc: uint32, ts: uint32)
    | Int64(j: int64)
    | MinKey
    | MaxKey

  datatype Value = Scalar(a: Atom) | Doc(fields: seq<Field>) | Array(items: seq<Value>)
  datatype Field = Field(key: seq<byte>, value: Value)

  /** Lua values: a table is a finite map.  `Odd` stands for the keys that are
      neither strings nor integers. */
  datatype Key = Named(name: seq<byte>) | Numbered(n: int) | Odd(id: nat)
  datatype Lua = Nil | Flag(b: bool) | Int(i: int64) | Num(w: word64) | Text(s: seq<byte>) | Table(m: map<Key, Lua>)

  // ------------------------------------------------------------ meaning

  /** The bytes that make_object puts behind the type. */
  function Payload(a: Atom): seq<byte> {
    match a
    case Real(_) => []
    case Str(s) => s
    case Binary(data) => data
    case ObjectId(id) => id
    case Bool(_) => []
    case Date(t) => LeBytes(t, 4)
    case Null => []
    case Regex(p, o) => (p + [0]) + (o + [0])
    case Raw(_, raw) => raw
    case Int32(_) => []
    case Timestamp(inc, ts) => LeBytes(inc, 4) + LeBytes(ts, 4)
    case Int64(_) => []
    case MinKey => []
    case MaxKey => []
  }

  /** A string that stands for an element of type `t`: NUL, the type, the payload. */
  function Object(t: byte, payload: seq<byte>): seq<byte> {
    [0, t] + payload
  }

  /** The Lua value that unpack_dict pushes for an element. */
  function Show(a: Atom): Lua {
    match a
    case Real(w) => Num(w)
    case Str(s) => Text(s)
    case Bool(b) => Flag(b)
    case Int32(i) => Int(i)
    case Int64(j) => Int(j)
    case _ => Text(Object(AtomType(a), Payload(a)))
  }

  function Size(v: Value): nat {
    match v
    case Scalar(_) => 0
    case Doc(fs) => |fs|
    case Array(items) => |items|
  }

  function KeyAt(v: Value, j: nat): Key
    requires j < Size(v)
  {
    if v.Doc? then Named(v.fields[j].key) else Numbered(j + 1)
  }

  function ChildAt(v: Value, j: nat): (c: Value)
    requires j < Size(v)
    ensures c < v
  {
    if v.Doc? then v.fields[j].value else v.items[j]
  }

  function Meaning(v: Value): Lua
    decreases v, 1, 0
  {
    if v.Scalar? then Show(v.a) else Table(MeaningUpTo(v, Size(v)))
  }

  function MeaningUpTo(v: Value, j: nat): map<Key, Lua>
    requires j <= Size(v)
    decreases v, 0, j
  {
    if j == 0 then map[] else MeaningUpTo(v, j - 1)[KeyAt(v, j - 1) := Meaning(ChildAt(v, j - 1))]
  }

  // ------------------------------------------------------------ encoding

  /** The low bytes of a number, negative ones in two's complement. */
  function Le32(n: int): (s: seq<byte>)
    requires n >= -0x8000_0000
    ensures |s| == 4
  {
    LeBytes(if n >= 0 then n else n + 0x1_0000_0000, 4)
  }

  function Le64(n: int): (s: seq<byte>)
    requires n >= -0x8000_0000_0000_0000
    ensures |s| == 8
  {
    LeBytes(if n >= 0 then n else n + 0x1_0000_0000_0000_0000, 8)
  }

  function AtomType(a: Atom): byte {
    match a
    case Real(_) => 1
    case Str(_) => 2
    case Binary(_) => 5
    case ObjectId(_) => 7
    case Bool(_) => 8
    case Date(_) => 9
    case Null => 10
    case Regex(_, _) => 11
    case Raw(kind, _) => kind
    case Int32(_) => 16
    case Timestamp(_, _) => 17
    case Int64(_) => 18
    case MinKey => 255
    case MaxKey => 127
  }

  function Type(v: Value): byte {
    match v
    case Scalar(a) => AtomType(a)
    case Doc(_) => 3
    case Array(_) => 4
  }

  function Body(a: Atom): seq<byte> {
    match a
    case Real(w) => LeBytes(w, 8)
    case Str(s) => Le32(|s| + 1) + (s + [0])
    case Binary(data) => Le32(|data| - 1) + data
    case ObjectId(id) => id
    case Bool(b) => [if b then 1 else 0]
    case Date(t) => Le64(t * 1000)
    case Null => []
    case Regex(p, o) => (p + [0]) + (o + [0])
    case Raw(_, raw) => raw
    case Int32(i) => Le32(i)
    case Timestamp(inc, ts) => Le32(inc) + Le32(ts)
    case Int64(j) => Le64(j)
    case MinKey => []
    case MaxKey => []
  }

  /** sprintf("%u"). */
  function Decimal(n: nat): (s: seq<byte>)
    ensures |s| > 0
  {
    if n < 10 then [48 + n] else Decimal(n / 10) + [48 + n % 10]
  }

  function KeyText(v: Value, j: nat): seq<byte>
    requires j < Size(v)
  {
    if v.Doc? then v.fields[j].key else Decimal(j)
  }

  /** A document around its elements: the length counts itself and the end. */
  function Wrap(e: seq<byte>): seq<byte> {
    Le32(|e| + 5) + (e + [0])
  }

  /** An element: its type and key, and the bytes of its value. */
  datatype Piece = Piece(t: byte, key: seq<byte>, body: seq<byte>)

  function Lead(p: Piece): seq<byte> {
    [p.t] + (p.key + [0])
  }

  function Join(ps: seq<Piece>): seq<byte> {
    if ps == [] then [] else Lead(ps[0]) + (ps[0].body + Join(ps[1..]))
  }

  function Encode(v: Value): seq<byte>
    decreases v, 1
  {
    if v.Scalar? then Body(v.a) else Wrap(Join(Pieces(v)))
  }

  /** The elements of a document or an array. */
  function Pieces(v: Value): (ps: seq<Piece>)
    ensures |ps| == Size(v)
    decreases v, 0
  {
    seq(Size(v), j requires 0 <= j < Size(v) => Piece(Type(ChildAt(v, j)), KeyText(v, j), Encode(ChildAt(v, j))))
  }

  // ------------------------------------------------------------ decoding

  function ToInt32(n: uint32): int32 {
    if n < 0x8000_0000 then n else n - 0x1_0000_0000
  }

  function GetInt32(s: seq<byte>): (d: Decoded<int32>)
    ensures d.Got? ==> |d.rest| + 4 == |s|
  {
    match Take(s, 4)
    case Invalid => Invalid
    case Got(b, rest) =>
      LeBound(b);
      PowValues();
      Got(ToInt32(LeNat(b)), rest)
  }

  function ToInt64(n: word64): int64 {
    if n < 0x8000_0000_0000_0000 then n else n - 0x1_0000_0000_0000_0000
  }

  /** read_cstring. */
  function GetString(s: seq<byte>): (d: Decoded<seq<byte>>)
    ensures d.Got? ==> |d.rest| < |s|
  {
    if s == [] then Invalid
    else if s[0] == 0 then Got([], s[1..])
    else
      match GetString(s[1..])
      case Invalid => Invalid
      case Got(t, rest) => Got([s[0]] + t, rest)
  }

  /** C's division of a 64-bit date, taken to 32 bits. */
  function Seconds(date: int64): uint32 {
    var d: int := date;
    (if d >= 0 then d / 1000 else -(-d / 1000)) % 0x1_0000_0000
  }

  function GetAtom(t: byte, s: seq<byte>): (d: Decoded<Atom>)
    ensures d.Got? ==> |d.rest| <= |s|
  {
    if t == 1 then
      match GetWord(s) case Invalid => Invalid case Got(w, rest) => Got(Real(w), rest)
    else if t == 8 then
      if s == [] then Invalid else Got(Bool(s[0] != 0), s[1..])
    else if t == 2 then
      match GetInt32(s)
      case Invalid => Invalid
      case Got(n, rest) =>
        if n <= 0 then Invalid
        else match Take(rest, n) case Invalid => Invalid case Got(b, rest') => Got(Str(b[..n - 1]), rest')
    else if t == 5 then
      match GetInt32(s)
      case Invalid => Invalid
      case Got(n, rest) =>
        if n < 0 || rest == [] then Invalid
        else match Take(rest[1..], n) case Invalid => Invalid case Got(b, rest') => Got(Binary([rest[0]] + b), rest')
    else if t == 7 then
      match Take(s, 12) case Invalid => Invalid case Got(b, rest) => Got(ObjectId(b), rest)
    else if t == 9 then
      match GetWord(s) case Invalid => Invalid case Got(w, rest) => Got(Date(Seconds(ToInt64(w))), rest)
    else if t == 255 then Got(MinKey, s)
    else if t == 127 then Got(MaxKey, s)
    else if t == 10 then Got(Null, s)
    else if t == 11 then
      match GetString(s)
      case Invalid => Invalid
      case Got(p, rest) => match GetString(rest) case Invalid => Invalid case Got(o, rest') => Got(Regex(p, o), rest')
    else if t == 16 then
      match GetInt32(s) case Invalid => Invalid case Got(i, rest) => Got(Int32(i), rest)
    else if t == 17 then
      match GetInt32(s)
      case Invalid => Invalid
      case Got(i, rest) =>
        match GetInt32(rest)
        case Invalid => Invalid
        case Got(j, rest') => Got(Timestamp(i % 0x1_0000_0000, j % 0x1_0000_0000), rest')
    else if t == 18 then
      match GetWord(s) case Invalid => Invalid case Got(w, rest) => Got(Int64(ToInt64(w)), rest)
    else if 12 <= t <= 15 then GetRaw(t, s)
    else Invalid
  }

  /** How many bytes the length field `n` announces behind itself. */
  function RawRest(kind: RawKind, n: int32): int {
    if kind == 12 then n + 12 else if kind == 15 then n - 4 else n
  }

  /** The copied types: a length and the bytes it announces.  A negative number of bytes
      behind the length takes the cursor back into it; make_object refuses only a
      negative number of bytes in all. */
  function GetRaw(kind: RawKind, s: seq<byte>): (d: Decoded<Atom>)
    ensures d.Got? ==> |d.rest| <= |s|
  {
    match GetInt32(s)
    case Invalid => Invalid
    case Got(n, rest) =>
      if 4 + RawRest(kind, n) < 0 then Invalid
      else
        match Take(s, 4 + RawRest(kind, n))
        case Invalid => Invalid
        case Got(b, rest') => Got(Raw(kind, b), rest')
  }

  /** isspace. */
  predicate Blank(c: byte) {
    c == 32 || 9 <= c <= 13
  }

  function SkipBlanks(s: seq<byte>): seq<byte> {
    if s == [] || !Blank(s[0]) then s else SkipBlanks(s[1..])
  }

  /** The digits at the front, behind the number `n`. */
  function Digits(s: seq<byte>, n: nat): nat
    decreases |s|
  {
    if s == [] || !(48 <= s[0] <= 57) then n else Digits(s[1..], n * 10 + (s[0] as int) - 48)
  }

  /** strtol to the base 10: blanks, a sign and digits, cut to 64 bits. */
  function Strtol(s: seq<byte>): int64 {
    var t := SkipBlanks(s);
    var n: int := Digits(if t != [] && (t[0] == 43 || t[0] == 45) then t[1..] else t, 0);
    if t != [] && t[0] == 45 then if n <= 0x8000_0000_0000_0000 then -n else -0x8000_0000_0000_0000
    else if n < 0x8000_0000_0000_0000 then n else 0x7fff_ffff_ffff_ffff
  }

  /** The key of an element in a table; the index of an item is an `int`. */
  function KeyOf(isArray: bool, key: seq<byte>): Key {
    if isArray then Numbered(ToInt32((Strtol(key) + 1) % 0x1_0000_0000)) else Named(key)
  }

  /** The elements of a document: between its length and the NUL at its end. */
  function GetInner(s: seq<byte>): (d: Decoded<seq<byte>>)
    ensures d.Got? ==> |d.value| + |d.rest| + 5 == |s|
  {
    match GetInt32(s)
    case Invalid => Invalid
    case Got(n, rest) =>
      if n < 5 then Invalid
      else
        match Take(rest, n - 5)
        case Invalid => Invalid
        case Got(t, rest') => if rest' == [] || rest'[0] != 0 then Invalid else Got(t, rest'[1..])
  }

  /** unpack_dict. */
  function Decode(s: seq<byte>, isArray: bool): (d: Decoded<Lua>)
    ensures d.Got? ==> |d.rest| < |s|
    decreases |s|, 1
  {
    match GetInner(s)
    case Invalid => Invalid
    case Got(t, rest) =>
      match DecodeElements(t, isArray, map[])
      case None => Invalid
      case Some(m) => Got(Table(m), rest)
  }

  function DecodeValue(t: byte, s: seq<byte>): (d: Decoded<Lua>)
    ensures d.Got? ==> |d.rest| <= |s|
    decreases |s|, 2
  {
    if t == 3 || t == 4 then Decode(s, t == 4)
    else match GetAtom(t, s) case Invalid => Invalid case Got(a, rest) => Got(Show(a), rest)
  }

  /** What is left to read of a document, and the table so far. */
  datatype Reading = Reading(t: seq<byte>, m: map<Key, Lua>)

  /** One round of the loop of unpack_dict. */
  function DecodeElement(t: seq<byte>, isArray: bool, m: map<Key, Lua>): (r: Option<Reading>)
    requires t != []
    ensures r.Some? ==> |r.value.t| < |t|
    decreases |t|, 3
  {
    match GetString(t[1..])
    case Invalid => None
    case Got(key, rest) =>
      match DecodeValue(t[0], rest)
      case Invalid => None
      case Got(v, rest') => Some(Reading(rest', m[KeyOf(isArray, key) := v]))
  }

  /** The loop of unpack_dict over the elements. */
  function DecodeElements(t: seq<byte>, isArray: bool, m: map<Key, Lua>): Option<map<Key, Lua>>
    decreases |t|, 4
  {
    if t == [] then Some(m)
    else
      match DecodeElement(t, isArray, m)
      case None => None
      case Some(r) => DecodeElements(r.t, isArray, r.m)
  }

  // ------------------------------------------------------------ round trip

  ghost predicate NulFree(s: seq<byte>) {
    forall i :: 0 <= i < |s| ==> s[i] != 0
  }

  /** The length at the front of a copied value, before `t`, is its length.  A value of
      fewer than four bytes shares its length field with what follows. */
  predicate RawOk(kind: RawKind, raw: seq<byte>, t: seq<byte>) {
    var n := GetInt32(raw + t);
    n.Got? && |raw| == 4 + RawRest(kind, n.value)
  }

  /** Elements that can be told from `t`, which follows them. */
  ghost predicate AtomOk(a: Atom, t: seq<byte>) {
    && (a.Binary? ==> a.data != [])
    && (a.ObjectId? ==> |a.id| == 12)
    && (a.Regex? ==> NulFree(a.pattern) && NulFree(a.options))
    && (a.Raw? ==> RawOk(a.kind, a.raw, t))
  }

  /** Elements that can be told from anything that follows them. */
  ghost predicate Steady(a: Atom) {
    AtomOk(a, []) && (a.Raw? ==> |a.raw| >= 4)
  }

  /** The keys of documents have no NUL bytes, and each element can be told from the
      elements that follow it, or from `t`. */
  ghost predicate WellFormed(v: Value, t: seq<byte>)
    decreases v
  {
    match v
    case Scalar(a) => AtomOk(a, t)
    case _ => NamesOk(v) && forall j :: 0 <= j < Size(v) ==> WellFormed(ChildAt(v, j), Join(Pieces(v)[j + 1..]))
  }

  ghost predicate NamesOk(v: Value) {
    v.Doc? ==> forall j :: 0 <= j < |v.fields| ==> NulFree(v.fields[j].key)
  }

  /** The same, whatever follows. */
  ghost predicate AllSteady(v: Value)
    decreases v
  {
    match v
    case Scalar(a) => Steady(a)
    case _ => NamesOk(v) && forall j :: 0 <= j < Size(v) ==> AllSteady(ChildAt(v, j))
  }

  lemma LongRaw(kind: RawKind, raw: seq<byte>, t: seq<byte>)
    requires |raw| >= 4
    ensures RawOk(kind, raw, t) <==> RawOk(kind, raw, [])
  {
    assert (raw + t)[..4] == raw[..4] == (raw + [])[..4];
  }

  lemma SteadyOk(a: Atom, t: seq<byte>)
    requires Steady(a)
    ensures AtomOk(a, t)
  {
    if a.Raw? {
      LongRaw(a.kind, a.raw, t);
    }
  }

  lemma {:induction false} SteadyWellFormed(v: Value, t: seq<byte>)
    requires AllSteady(v)
    ensures WellFormed(v, t)
    decreases v
  {
    if v.Scalar? {
      SteadyOk(v.a, t);
    } else {
      forall j | 0 <= j < Size(v) ensures WellFormed(ChildAt(v, j), Join(Pieces(v)[j + 1..])) {
        SteadyWellFormed(ChildAt(v, j), Join(Pieces(v)[j + 1..]));
      }
    }
  }

  lemma Int32RoundTrip(i: int32, t: seq<byte>)
    ensures GetInt32(Le32(i) + t) == Got(i, t)
  {
    PowValues();
    TakePrefix(Le32(i), t);
    LeRoundTrip(if i >= 0 then i else i + 0x1_0000_0000, 4);
  }

  lemma Uint32RoundTrip(n: uint32, t: seq<byte>)
    ensures var d := GetInt32(Le32(n) + t); d.Got? && d.value % 0x1_0000_0000 == n && d.rest == t
  {
    PowValues();
    TakePrefix(Le32(n), t);
    LeRoundTrip(n, 4);
    ToInt32Back(n);
  }

  lemma Int64RoundTrip(j: int64, t: seq<byte>)
    ensures var d := GetWord(Le64(j) + t); d.Got? && ToInt64(d.value) == j && d.rest == t
  {
    WordRoundTrip(if j >= 0 then j else j + 0x1_0000_0000_0000_0000, t);
  }

  lemma {:induction false} StringRoundTrip(s: seq<byte>, t: seq<byte>)
    requires NulFree(s)
    ensures GetString((s + [0]) + t) == Got(s, t)
  {
    var all := (s + [0]) + t;
    if s == [] {
      assert all == [0] + t && all[1..] == t;
    } else {
      StringRoundTrip(s[1..], t);
      assert all[1..] == (s[1..] + [0]) + t && all[0] == s[0];
      assert s == [s[0]] + s[1..];
    }
  }

  lemma {:induction false} DigitsSnoc(n: nat, s: seq<byte>, k: nat)
    requires forall i :: 0 <= i < |s| ==> 48 <= s[i] <= 57
    ensures Digits(s + [48 + n % 10], k) == Digits(s, k) * 10 + n % 10
    decreases |s|
  {
    if s != [] {
      DigitsSnoc(n, s[1..], k * 10 + (s[0] as int) - 48);
      assert (s + [48 + n % 10])[1..] == s[1..] + [48 + n % 10];
    } else {
      var one := s + [48 + n % 10];
      assert one[0] == 48 + n % 10 && one[1..] == [];
    }
  }

  lemma {:induction false} DecimalDigits(n: nat)
    ensures Digits(Decimal(n), 0) == n
    ensures forall i :: 0 <= i < |Decimal(n)| ==> 48 <= Decimal(n)[i] <= 57
  {
    if n >= 10 {
      DecimalDigits(n / 10);
      DigitsSnoc(n, Decimal(n / 10), 0);
    } else {
      var none: seq<byte> := [];
      DigitsSnoc(n, none, 0);
      assert none + [48 + n % 10] == Decimal(n);
    }
  }

  /** Array keys count from zero in decimal. */
  lemma DecimalRoundTrip(n: nat)
    requires n < 0x7fff_ffff
    ensures KeyOf(true, Decimal(n)) == Numbered(n + 1)
  {
    DecimalDigits(n);
    assert SkipBlanks(Decimal(n)) == Decimal(n);
  }

  lemma TextRoundTrip(s: seq<byte>, t: seq<byte>)
    requires |s| + 1 < 0x8000_0000
    ensures GetAtom(2, Body(Str(s)) + t) == Got(Str(s), t)
  {
    Assoc(Le32(|s| + 1), s + [0], t);
    Int32RoundTrip(|s| + 1, (s + [0]) + t);
    TakePrefix(s + [0], t);
    assert (s + [0])[..|s|] == s;
  }

  lemma BinaryRoundTrip(data: seq<byte>, t: seq<byte>)
    requires 0 < |data| < 0x8000_0000
    ensures GetAtom(5, Body(Binary(data)) + t) == Got(Binary(data), t)
  {
    Assoc(Le32(|data| - 1), data, t);
    var rest := data + t;
    Int32RoundTrip(|data| - 1, rest);
    assert rest[0] == data[0] && rest[1..] == data[1..] + t;
    TakePrefix(data[1..], t);
    assert data == [data[0]] + data[1..];
  }

  lemma RawRoundTrip(kind: RawKind, raw: seq<byte>, t: seq<byte>)
    requires RawOk(kind, raw, t)
    ensures GetAtom(kind, raw + t) == Got(Raw(kind, raw), t)
  {
    TakePrefix(raw, t);
  }

  lemma RegexRoundTrip(p: seq<byte>, o: seq<byte>, t: seq<byte>)
    requires NulFree(p) && NulFree(o)
    ensures GetAtom(11, Body(Regex(p, o)) + t) == Got(Regex(p, o), t)
  {
    Assoc(p + [0], o + [0], t);
    StringRoundTrip(p, (o + [0]) + t);
    StringRoundTrip(o, t);
  }

  lemma TimestampRoundTrip(inc: uint32, ts: uint32, t: seq<byte>)
    ensures GetAtom(17, Body(Timestamp(inc, ts)) + t) == Got(Timestamp(inc, ts), t)
  {
    Assoc(Le32(inc), Le32(ts), t);
    Uint32RoundTrip(inc, Le32(ts) + t);
    Uint32RoundTrip(ts, t);
  }

  lemma DateRoundTrip(d: uint32, t: seq<byte>)
    ensures GetAtom(9, Body(Date(d)) + t) == Got(Date(d), t)
  {
    Int64RoundTrip(d * 1000, t);
    SecondsOf(d);
  }

  lemma SecondsOf(d: uint32)
    ensures Seconds(d * 1000) == d
  {
  }

  lemma ToInt32Back(n: uint32)
    ensures ToInt32(n) % 0x1_0000_0000 == n
  {
  }

  lemma AtomRoundTrip(a: Atom, t: seq<byte>)
    requires AtomOk(a, t) && |Body(a)| < 0x8000_0000
    ensures GetAtom(AtomType(a), Body(a) + t) == Got(a, t)
  {
    match a
    case Real(w) => WordRoundTrip(w, t);
    case Str(s) => TextRoundTrip(s, t);
    case Binary(data) => BinaryRoundTrip(data, t);
    case ObjectId(id) => TakePrefix(id, t);
    case Bool(b) => assert ([if b then 1 else 0] + t)[1..] == t;
    case Date(d) => DateRoundTrip(d, t);
    case Null => assert [] + t == t;
    case Regex(p, o) => RegexRoundTrip(p, o, t);
    case Raw(kind, raw) => RawRoundTrip(kind, raw, t);
    case Int32(i) => Int32RoundTrip(i, t);
    case Timestamp(inc, ts) => TimestampRoundTrip(inc, ts, t);
    case Int64(j) => Int64RoundTrip(j, t);
    case MinKey => assert [] + t == t;
    case MaxKey => assert [] + t == t;
  }

  lemma JoinNext(ps: seq<Piece>, j: nat)
    requires j < |ps|
    ensures Join(ps[j..]) == Lead(ps[j]) + (ps[j].body + Join(ps[j + 1..]))
  {
    assert ps[j..][0] == ps[j] && ps[j..][1..] == ps[j + 1..];
  }

  /** What encloses is longer. */
  lemma {:induction false} PieceShorter(ps: seq<Piece>, j: nat)
    requires j < |ps|
    ensures |ps[j].body| <= |Join(ps)|
  {
    if j > 0 {
      PieceShorter(ps[1..], j - 1);
    }
  }

  /** The element is read as `value` before `t`. */
  ghost predicate Decodes(p: Piece, value: Lua, t: seq<byte>) {
    NulFree(p.key) && DecodeValue(p.t, p.body + t) == Got(value, t)
  }

  ghost predicate AllDecode(ps: seq<Piece>, values: seq<Lua>) {
    |ps| == |values| && forall i :: 0 <= i < |ps| ==> Decodes(ps[i], values[i], Join(ps[i + 1..]))
  }

  /** The table after the first `j` elements. */
  function Filled(ps: seq<Piece>, values: seq<Lua>, isArray: bool, j: nat): map<Key, Lua>
    requires j <= |ps| == |values|
  {
    if j == 0 then map[] else Filled(ps, values, isArray, j - 1)[KeyOf(isArray, ps[j - 1].key) := values[j - 1]]
  }

  lemma OneElement(p: Piece, value: Lua, rest: seq<byte>, isArray: bool, m: map<Key, Lua>)
    requires Decodes(p, value, rest)
    ensures Lead(p) + (p.body + rest) != []
    ensures DecodeElement(Lead(p) + (p.body + rest), isArray, m) ==
      Some(Reading(rest, m[KeyOf(isArray, p.key) := value]))
  {
    var t, s := Lead(p) + (p.body + rest), p.body + rest;
    assert t[0] == p.t && t[1..] == (p.key + [0]) + s;
    StringRoundTrip(p.key, s);
  }

  lemma {:induction false} JoinDecodes(ps: seq<Piece>, values: seq<Lua>, isArray: bool, j: nat)
    requires AllDecode(ps, values) && j <= |ps|
    ensures DecodeElements(Join(ps[j..]), isArray, Filled(ps, values, isArray, j)) ==
            Some(Filled(ps, values, isArray, |ps|))
    decreases |ps| - j
  {
    if j < |ps| {
      JoinNext(ps, j);
      OneElement(ps[j], values[j], Join(ps[j + 1..]), isArray, Filled(ps, values, isArray, j));
      JoinDecodes(ps, values, isArray, j + 1);
    }
  }

  function Values(v: Value): (r: seq<Lua>)
    ensures |r| == Size(v)
  {
    seq(Size(v), j requires 0 <= j < Size(v) => Meaning(ChildAt(v, j)))
  }

  lemma {:induction false} FilledMeaning(v: Value, j: nat)
    requires NamesOk(v) && j <= Size(v) <= 0x7fff_ffff
    ensures Filled(Pieces(v), Values(v), v.Array?, j) == MeaningUpTo(v, j)
  {
    if j > 0 {
      FilledMeaning(v, j - 1);
      KeyBack(v, j - 1);
    }
  }

  lemma KeyBack(v: Value, j: nat)
    requires NamesOk(v) && j < Size(v) && j < 0x7fff_ffff
    ensures NulFree(KeyText(v, j)) && KeyOf(v.Array?, KeyText(v, j)) == KeyAt(v, j)
  {
    DecimalDigits(j);
    DecimalRoundTrip(j);
  }

  lemma {:induction false} JoinLonger(ps: seq<Piece>)
    ensures |ps| <= |Join(ps)|
  {
    if ps != [] {
      JoinLonger(ps[1..]);
    }
  }

  /** Decoding an encoded document or array gives it back, whatever follows. */
  lemma {:induction false} DecodeEncoded(v: Value, t: seq<byte>)
    requires WellFormed(v, t) && |Encode(v)| < 0x8000_0000
    ensures DecodeValue(Type(v), Encode(v) + t) == Got(Meaning(v), t)
    decreases v, 1
  {
    if v.Scalar? {
      AtomDecoded(v.a, t);
    } else {
      JoinLonger(Pieces(v));
      forall j | 0 <= j < Size(v) ensures Decodes(Pieces(v)[j], Values(v)[j], Join(Pieces(v)[j + 1..])) {
        PieceShorter(Pieces(v), j);
        ChildDecodes(v, j);
      }
      TableDecoded(v, t);
    }
  }

  lemma {:induction false} ChildDecodes(v: Value, j: nat)
    requires !v.Scalar? && WellFormed(v, []) && j < Size(v) < 0x7fff_ffff && |Encode(ChildAt(v, j))| < 0x8000_0000
    ensures Decodes(Pieces(v)[j], Values(v)[j], Join(Pieces(v)[j + 1..]))
    decreases v, 0
  {
    KeyBack(v, j);
    DecodeEncoded(ChildAt(v, j), Join(Pieces(v)[j + 1..]));
  }

  lemma AtomDecoded(a: Atom, t: seq<byte>)
    requires AtomOk(a, t) && |Body(a)| < 0x8000_0000
    ensures DecodeValue(AtomType(a), Body(a) + t) == Got(Show(a), t)
  {
    AtomRoundTrip(a, t);
  }

  lemma TableDecoded(v: Value, t: seq<byte>)
    requires NamesOk(v) && !v.Scalar? && |Encode(v)| < 0x8000_0000 && AllDecode(Pieces(v), Values(v))
    ensures DecodeValue(Type(v), Encode(v) + t) == Got(Meaning(v), t)
  {
    var ps := Pieces(v);
    JoinLonger(ps);
    JoinDecodes(ps, Values(v), v.Array?, 0);
    assert ps[0..] == ps;
    FilledMeaning(v, Size(v));
    Unwrapped(Join(ps), t, v.Array?, MeaningUpTo(v, Size(v)));
    TableType(v, Encode(v) + t);
  }

  lemma TableType(v: Value, s: seq<byte>)
    requires !v.Scalar?
    ensures DecodeValue(Type(v), s) == Decode(s, v.Array?)
  {
  }

  lemma Unwrapped(e: seq<byte>, t: seq<byte>, isArray: bool, m: map<Key, Lua>)
    requires |e| + 5 < 0x8000_0000 && DecodeElements(e, isArray, map[]) == Some(m)
    ensures Decode(Wrap(e) + t, isArray) == Got(Table(m), t)
  {
    InnerOfWrap(e, t);
  }

  lemma InnerOfWrap(e: seq<byte>, t: seq<byte>)
    requires |e| + 5 < 0x8000_0000
    ensures GetInner(Wrap(e) + t) == Got(e, t)
  {
    Assoc(Le32(|e| + 5), e + [0], t);
    Int32RoundTrip(|e| + 5, (e + [0]) + t);
    Assoc(e, [0], t);
    TakePrefix(e, [0] + t);
    assert ([0] + t)[1..] == t;
  }

  /** lencode and ldecode. */
  lemma RoundTrip(fields: seq<Field>)
    requires WellFormed(Doc(fields), []) && |Encode(Doc(fields))| < 0x8000_0000
    ensures Decode(Encode(Doc(fields)), false) == Got(Meaning(Doc(fields)), [])
  {
    DecodeEncoded(Doc(fields), []);
    assert Encode(Doc(fields)) + [] == Encode(Doc(fields));
  }
}
