/** The element values of the BSON 1.1 specification as relations between bytes and
    values, and that the decoder of lua-bson.c reads exactly these. */
module BsonFormat {
  import opened Wrappers
  import opened Bytes
  import opened Bson
  import BsonLua
  import BsonCount

  // ------------------------------------------------------------ numbers

  predicate Int32Is(b: seq<byte>, i: int)
    requires |b| >= 4
  {
    Denotes(WordOf(b), i, 0x1_0000_0000)
  }

  /** `q` is the quotient of a date by 1000, rounded to zero. */
  predicate WholeSeconds(date: int, q: int) {
    if date >= 0 then 1000 * q <= date < 1000 * (q + 1) else 1000 * (q - 1) < date <= 1000 * q
  }

  ghost predicate DateIs(n: nat, t: uint32) {
    exists date: int, q: int ::
      Denotes(n, date, 0x1_0000_0000_0000_0000) && WholeSeconds(date, q) && (q - t) % 0x1_0000_0000 == 0
  }

  /** The bytes `b` of an element of type `t`, before `rest`, have the value `a`.  The NUL
      behind a string is not looked at. */
  ghost predicate Spells(t: byte, b: seq<byte>, a: Atom, rest: seq<byte>) {
    match a
    case Real(w) => t == 1 && |b| == 8 && w == LongOf(b)
    case Str(s) => t == 2 && |b| == 4 + |s| + 1 && Int32Is(b, |s| + 1) && s == b[4..4 + |s|]
    case Binary(data) => t == 5 && |b| == 4 + |data| && data != [] && Int32Is(b, |data| - 1) && data == b[4..]
    case ObjectId(id) => t == 7 && |b| == 12 && id == b
    case Bool(v) => t == 8 && |b| == 1 && (v <==> b[0] != 0)
    case Date(d) => t == 9 && |b| == 8 && DateIs(LongOf(b), d)
    case Null => t == 10 && b == []
    case Regex(p, o) => t == 11 && NulFree(p) && NulFree(o) && b == (p + [0]) + (o + [0])
    case Raw(kind, raw) => t == kind && raw == b && RawOk(kind, raw, rest)
    case Int32(i) => t == 16 && |b| == 4 && Int32Is(b, i)
    case Timestamp(inc, ts) => t == 17 && |b| == 8 && inc == WordOf(b) && ts == WordOf(b[4..])
    case Int64(j) => t == 18 && |b| == 8 && Denotes(LongOf(b), j, 0x1_0000_0000_0000_0000)
    case MinKey => t == 255 && b == []
    case MaxKey => t == 127 && b == []
  }

  lemma ReadWord(s: seq<byte>)
    ensures |s| < 4 ==> GetInt32(s) == Invalid
    ensures |s| >= 4 ==> GetInt32(s).Got? && GetInt32(s).rest == s[4..] && Int32Is(s, GetInt32(s).value)
    ensures |s| >= 4 ==> GetInt32(s).value % 0x1_0000_0000 == WordOf(s)
  {
    if |s| >= 4 {
      LeNatFour(s[..4]);
      assert WordOf(s[..4]) == WordOf(s);
    }
  }

  /** The quotient of a 64-bit date, taken to 32 bits. */
  lemma SecondsExactly(date: int64, q: int)
    requires WholeSeconds(date, q)
    ensures (q - Seconds(date)) % 0x1_0000_0000 == 0
    ensures 0 <= date < 1000 * 0x1_0000_0000 ==> 1000 * Seconds(date) <= date < 1000 * (Seconds(date) + 1)
  {
    var d: int := date;
    var r := if d >= 0 then d / 1000 else -(-d / 1000);
    assert r == q;
  }

  lemma SameSeconds(x: uint32, y: uint32, q: int)
    requires (q - x) % 0x1_0000_0000 == 0 && (q - y) % 0x1_0000_0000 == 0
    ensures x == y
  {
  }

  lemma DateExactly(n: word64, d: uint32)
    ensures DateIs(n, d) <==> d == Seconds(ToInt64(n))
  {
    var date: int := ToInt64(n);
    var q := if date >= 0 then date / 1000 else -(-date / 1000);
    SecondsExactly(date, q);
    assert Denotes(n, date, 0x1_0000_0000_0000_0000) && WholeSeconds(date, q);
    if DateIs(n, d) {
      var date': int, q': int :| Denotes(n, date', 0x1_0000_0000_0000_0000) && WholeSeconds(date', q') &&
                                 (q' - d) % 0x1_0000_0000 == 0;
      SecondsExactly(date, q');
      SameSeconds(Seconds(date), d, q');
    }
  }

  // ------------------------------------------------------------ elements

  /** What is left after `n` bytes. */
  lemma Behind(b: seq<byte>, rest: seq<byte>, n: nat)
    requires n <= |b| + |rest|
    ensures (b + rest)[n..] == rest <==> n == |b|
    ensures n == |b| ==> (b + rest)[..n] == b
  {
  }

  lemma LongExactly(t: byte, b: seq<byte>, rest: seq<byte>, a: Atom)
    requires t == 1 || t == 18
    ensures GetAtom(t, b + rest) == Got(a, rest) <==> Spells(t, b, a, rest)
  {
    var s := b + rest;
    ReadLong(s);
    if |s| >= 8 {
      Behind(b, rest, 8);
      assert |b| == 8 ==> LongOf(s) == LongOf(b);
    }
  }

  lemma SecondsTold(b: seq<byte>, rest: seq<byte>, a: Atom)
    ensures GetAtom(9, b + rest) == Got(a, rest) <==> Spells(9, b, a, rest)
  {
    var s := b + rest;
    ReadLong(s);
    if |s| >= 8 {
      Behind(b, rest, 8);
      if |b| == 8 {
        assert LongOf(s) == LongOf(b);
        if a.Date? { DateExactly(LongOf(b), a.t); }
      }
    }
  }

  lemma StampExactly(b: seq<byte>, rest: seq<byte>, a: Atom)
    ensures GetAtom(17, b + rest) == Got(a, rest) <==> Spells(17, b, a, rest)
  {
    var s := b + rest;
    ReadWord(s);
    if |s| >= 4 {
      ReadWord(s[4..]);
      if |s| >= 8 {
        Behind(b, rest, 8);
        assert s[4..][4..] == s[8..];
        assert |b| == 8 ==> s[4..8] == b[4..];
      }
    }
  }

  lemma FlagExactly(b: seq<byte>, rest: seq<byte>, a: Atom)
    ensures GetAtom(8, b + rest) == Got(a, rest) <==> Spells(8, b, a, rest)
  {
    var s := b + rest;
    if s != [] { Behind(b, rest, 1); }
  }

  lemma EmptyExactly(t: byte, b: seq<byte>, rest: seq<byte>, a: Atom)
    requires t == 10 || t == 127 || t == 255
    ensures GetAtom(t, b + rest) == Got(a, rest) <==> Spells(t, b, a, rest)
  {
    Behind(b, rest, 0);
    assert (b + rest)[0..] == b + rest;
  }

  lemma IdExactly(b: seq<byte>, rest: seq<byte>, a: Atom)
    ensures GetAtom(7, b + rest) == Got(a, rest) <==> Spells(7, b, a, rest)
  {
    if |b + rest| >= 12 { Behind(b, rest, 12); }
  }

  lemma SmallExactly(b: seq<byte>, rest: seq<byte>, a: Atom)
    ensures GetAtom(16, b + rest) == Got(a, rest) <==> Spells(16, b, a, rest)
  {
    ReadWord(b + rest);
    if |b + rest| >= 4 { Behind(b, rest, 4); }
  }

  lemma TextExactly(b: seq<byte>, rest: seq<byte>, a: Atom)
    ensures GetAtom(2, b + rest) == Got(a, rest) <==> Spells(2, b, a, rest)
  {
    var s := b + rest;
    ReadWord(s);
    if |s| >= 4 {
      var n := GetInt32(s).value;
      if 0 < n <= |s| - 4 {
        Behind(b, rest, 4 + n);
        assert s[4..][..n][..n - 1] == s[4..4 + (n - 1)] && s[4..][n..] == s[4 + n..];
        if |b| == 4 + n {
          assert s[4..4 + (n - 1)] == b[4..4 + (n - 1)];
        }
      }
    }
  }

  lemma SubtypeFirst(s: seq<byte>, n: nat)
    requires 5 + n <= |s|
    ensures s[4..][0] == s[4] && s[4..][1..] == s[5..] && s[5..][n..] == s[5 + n..]
    ensures [s[4]] + s[5..][..n] == s[4..5 + n]
  {
    assert s[5..][..n] == s[5..5 + n];
  }

  lemma BinaryExactly(b: seq<byte>, rest: seq<byte>, a: Atom)
    ensures GetAtom(5, b + rest) == Got(a, rest) <==> Spells(5, b, a, rest)
  {
    var s := b + rest;
    ReadWord(s);
    if |s| >= 5 {
      var n := GetInt32(s).value;
      if 0 <= n <= |s| - 5 {
        Behind(b, rest, 5 + n);
        SubtypeFirst(s, n);
      }
    }
  }

  lemma RawExactly(t: RawKind, b: seq<byte>, rest: seq<byte>, a: Atom)
    ensures GetAtom(t, b + rest) == Got(a, rest) <==> Spells(t, b, a, rest)
  {
    var s := b + rest;
    var n := GetInt32(s);
    if n.Got? && 0 <= 4 + RawRest(t, n.value) <= |s| {
      Behind(b, rest, 4 + RawRest(t, n.value));
    }
  }

  lemma PatternExactly(b: seq<byte>, rest: seq<byte>, a: Atom)
    ensures GetAtom(11, b + rest) == Got(a, rest) <==> Spells(11, b, a, rest)
  {
    if Spells(11, b, a, rest) {
      RegexRoundTrip(a.pattern, a.options, rest);
    }
    if GetAtom(11, b + rest) == Got(a, rest) {
      var p := GetString(b + rest);
      BsonLua.StringRead(b + rest);
      BsonLua.StringRead(p.rest);
      Assoc(a.pattern + [0], a.options + [0], rest);
      BsonLua.Cancel(b, (a.pattern + [0]) + (a.options + [0]), rest);
    }
  }

  /** The decoder reads `b` as the value `a` and stops before `rest` exactly when `b` spells
      that value; other types are refused. */
  lemma ElementExactly(t: byte, b: seq<byte>, rest: seq<byte>, a: Atom)
    ensures GetAtom(t, b + rest) == Got(a, rest) <==> Spells(t, b, a, rest)
  {
    if t == 1 || t == 18 {
      LongExactly(t, b, rest, a);
    } else if t == 9 {
      SecondsTold(b, rest, a);
    } else if t == 17 {
      StampExactly(b, rest, a);
    } else if t == 2 {
      TextExactly(b, rest, a);
    } else if t == 5 {
      BinaryExactly(b, rest, a);
    } else if t == 7 {
      IdExactly(b, rest, a);
    } else if t == 8 {
      FlagExactly(b, rest, a);
    } else if t == 10 || t == 127 || t == 255 {
      EmptyExactly(t, b, rest, a);
    } else if t == 11 {
      PatternExactly(b, rest, a);
    } else if 12 <= t <= 15 {
      RawExactly(t, b, rest, a);
    } else if t == 16 {
      SmallExactly(b, rest, a);
    }
  }

  // ------------------------------------------------------------ Lua values

  /** A copied value announces its own length: all of it for CODEWS, and what follows for
      the others, a DBPOINTER with twelve bytes more. */
  ghost predicate RawIs(t: RawKind, b: seq<byte>, rest: seq<byte>) {
    |b + rest| >= 4 && Int32Is(b + rest, |b| - if t == 12 then 16 else if t == 15 then 0 else 4)
  }

  /** The bytes `b` of an element that is no table, before `rest`, are read as `v`: the
      types that Lua does not have are strings of NUL, the type and the bytes. */
  ghost predicate Tells(t: byte, b: seq<byte>, v: Lua, rest: seq<byte>) {
    if t == 1 then |b| == 8 && v == Num(LongOf(b))
    else if t == 2 then |b| >= 5 && Int32Is(b, |b| - 4) && v == Text(b[4..|b| - 1])
    else if t == 5 then |b| >= 5 && Int32Is(b, |b| - 5) && v == Text([0, t] + b[4..])
    else if t == 7 then |b| == 12 && v == Text([0, t] + b)
    else if t == 8 then |b| == 1 && v == Flag(b[0] != 0)
    else if t == 9 then
      |b| == 8 && v.Text? && |v.s| == 6 && v.s[..2] == [0, t] && DateIs(LongOf(b), WordOf(v.s[2..]))
    else if t == 10 || t == 127 || t == 255 then b == [] && v == Text([0, t])
    else if t == 11 then v == Text([0, t] + b) && TwoStrings(b)
    else if 12 <= t <= 15 then v == Text([0, t] + b) && RawIs(t, b, rest)
    else if t == 16 then |b| == 4 && v.Int? && Int32Is(b, v.i)
    else if t == 17 then |b| == 8 && v == Text([0, t] + b)
    else if t == 18 then |b| == 8 && v.Int? && Denotes(LongOf(b), v.i, 0x1_0000_0000_0000_0000)
    else false
  }

  ghost predicate TwoStrings(b: seq<byte>) {
    exists p: seq<byte>, o: seq<byte> :: NulFree(p) && NulFree(o) && b == (p + [0]) + (o + [0])
  }

  lemma RawSame(t: RawKind, b: seq<byte>, rest: seq<byte>)
    ensures RawIs(t, b, rest) <==> RawOk(t, b, rest)
  {
    ReadWord(b + rest);
  }

  lemma WordBytes(b: seq<byte>, n: nat)
    requires |b| == 4
    ensures WordOf(b) == n ==> b == LeBytes(n, 4)
    ensures n < 0x1_0000_0000 && b == LeBytes(n, 4) ==> WordOf(b) == n
  {
    LeNatFour(b);
    LeOfBytes(b);
    PowValues();
    if n < 0x1_0000_0000 { LeRoundTrip(n, 4); }
  }

  /** The atom that the bytes spell is shown as `v`. */
  lemma AtomTells(t: byte, b: seq<byte>, a: Atom, rest: seq<byte>)
    requires Spells(t, b, a, rest)
    ensures Tells(t, b, Show(a), rest)
  {
    match a
    case Date(d) =>
      var s := Object(9, LeBytes(d, 4));
      assert s[..2] == [0, 9] && s[2..] == LeBytes(d, 4);
      WordBytes(s[2..], d);
    case Timestamp(inc, ts) =>
      WordBytes(b[..4], inc);
      WordBytes(b[4..], ts);
      assert b == b[..4] + b[4..];
    case Raw(kind, raw) => RawSame(kind, b, rest);
    case Regex(p, o) => assert TwoStrings(b);
    case Str(x) => assert b[4..|b| - 1] == x;
    case _ =>
  }

  lemma WordBound(b: seq<byte>)
    requires |b| >= 4
    ensures WordOf(b) < 0x1_0000_0000
  {
  }

  lemma DateTold(b: seq<byte>, v: Lua, rest: seq<byte>) returns (a: Atom)
    requires Tells(9, b, v, rest)
    ensures Spells(9, b, a, rest) && Show(a) == v
  {
    var w := v.s[2..];
    WordBound(w);
    a := Date(WordOf(w));
    WordBytes(w, WordOf(w));
    assert v.s == v.s[..2] + w;
  }

  lemma StampTold(b: seq<byte>, v: Lua, rest: seq<byte>) returns (a: Atom)
    requires Tells(17, b, v, rest)
    ensures Spells(17, b, a, rest) && Show(a) == v
  {
    WordBound(b);
    WordBound(b[4..]);
    a := Timestamp(WordOf(b), WordOf(b[4..]));
    WordBytes(b[..4], WordOf(b));
    WordBytes(b[4..], WordOf(b[4..]));
    assert b == b[..4] + b[4..];
  }

  lemma LongBound(b: seq<byte>)
    requires |b| >= 8
    ensures LongOf(b) < 0x1_0000_0000_0000_0000
  {
    WordBound(b);
    WordBound(b[4..]);
  }

  lemma PlainTold(t: byte, b: seq<byte>, v: Lua, rest: seq<byte>) returns (a: Atom)
    requires Tells(t, b, v, rest) && t in {1, 2, 5, 7, 8, 10, 16, 18, 127, 255}
    ensures Spells(t, b, a, rest) && Show(a) == v
  {
    if t == 1 {
      LongBound(b);
      a := Real(LongOf(b));
    } else if t == 2 {
      a := Str(b[4..|b| - 1]);
    } else if t == 5 {
      a := Binary(b[4..]);
    } else if t == 7 {
      a := ObjectId(b);
    } else if t == 8 {
      a := Bool(b[0] != 0);
    } else if t == 16 {
      a := Int32(v.i);
    } else if t == 18 {
      a := Int64(v.i);
    } else {
      a := if t == 10 then Null else if t == 127 then MaxKey else MinKey;
    }
  }

  lemma AtomTold(t: byte, b: seq<byte>, v: Lua, rest: seq<byte>) returns (a: Atom)
    requires Tells(t, b, v, rest)
    ensures Spells(t, b, a, rest) && Show(a) == v
  {
    if t == 9 {
      a := DateTold(b, v, rest);
    } else if t == 17 {
      a := StampTold(b, v, rest);
    } else if t == 11 {
      var p: seq<byte>, o: seq<byte> :| NulFree(p) && NulFree(o) && b == (p + [0]) + (o + [0]);
      a := Regex(p, o);
    } else if 12 <= t <= 15 {
      RawSame(t, b, rest);
      a := Raw(t, b);
    } else {
      a := PlainTold(t, b, v, rest);
    }
  }

  /** A value that is no table is read from `b` exactly when `b` tells it. */
  lemma ValueExactly(t: byte, b: seq<byte>, rest: seq<byte>, v: Lua)
    requires t != 3 && t != 4
    ensures DecodeValue(t, b + rest) == Got(v, rest) <==> Tells(t, b, v, rest)
  {
    if Tells(t, b, v, rest) {
      var a := AtomTold(t, b, v, rest);
      ElementExactly(t, b, rest, a);
    }
    var d := GetAtom(t, b + rest);
    if DecodeValue(t, b + rest) == Got(v, rest) {
      ElementExactly(t, b, rest, d.value);
      AtomTells(t, b, d.value, rest);
    }
  }

  // ------------------------------------------------------------ documents

  lemma {:induction false} BlanksSkipped(blanks: seq<byte>, t: seq<byte>)
    requires forall i :: 0 <= i < |blanks| ==> Blank(blanks[i])
    requires t != [] && !Blank(t[0])
    ensures SkipBlanks(blanks + t) == t
  {
    var s := blanks + t;
    if blanks != [] {
      BlanksSkipped(blanks[1..], t);
      assert s[1..] == blanks[1..] + t;
    } else {
      assert s == t;
    }
  }

  lemma {:induction false} DigitsStop(d: seq<byte>, rest: seq<byte>, n: nat)
    requires forall i :: 0 <= i < |d| ==> 48 <= d[i] <= 57
    requires rest == [] || !(48 <= rest[0] <= 57)
    ensures Digits(d + rest, n) == Digits(d, n)
    decreases |d|
  {
    if d != [] {
      DigitsStop(d[1..], rest, n * 10 + (d[0] as int) - 48);
      assert (d + rest)[1..] == d[1..] + rest;
    } else {
      assert d + rest == rest;
    }
  }

  lemma NumberExactly(n: nat, rest: seq<byte>)
    requires rest == [] || !(48 <= rest[0] <= 57)
    ensures Digits(Decimal(n) + rest, 0) == n && 48 <= (Decimal(n) + rest)[0] <= 57
  {
    DecimalDigits(n);
    DigitsStop(Decimal(n), rest, 0);
  }

  lemma PlusExactly(key: seq<byte>, d: seq<byte>, n: nat)
    requires n < 0x7fff_ffff && SkipBlanks(key) == d && d != [] && 48 <= d[0] <= 57 && Digits(d, 0) == n
    ensures KeyOf(true, key) == Numbered(n + 1)
  {
  }

  lemma MinusExactly(key: seq<byte>, d: seq<byte>, n: nat)
    requires n < 0x7fff_ffff && SkipBlanks(key) == [45] + d && Digits(d, 0) == n
    ensures KeyOf(true, key) == Numbered(1 - n)
  {
    assert ([45] + d)[1..] == d;
  }

  /** The index of an item is one above the number that its key begins with. */
  lemma IndexExactly(blanks: seq<byte>, n: nat, rest: seq<byte>)
    requires n < 0x7fff_ffff && forall i :: 0 <= i < |blanks| ==> Blank(blanks[i])
    requires rest == [] || !(48 <= rest[0] <= 57)
    ensures KeyOf(true, blanks + (Decimal(n) + rest)) == Numbered(n + 1)
    ensures KeyOf(true, blanks + ([45] + (Decimal(n) + rest))) == Numbered(1 - n)
  {
    var d := Decimal(n) + rest;
    NumberExactly(n, rest);
    BlanksSkipped(blanks, d);
    BlanksSkipped(blanks, [45] + d);
    PlusExactly(blanks + d, d, n);
    MinusExactly(blanks + ([45] + d), d, n);
  }

  /** The key of an element in the table: its name, or in an array the number one above. */
  function KeyIn(p: Piece, isArray: bool): Key {
    KeyOf(isArray, p.key)
  }

  /** The table has the keys of the elements, each with the value of its last one. */
  ghost predicate Collects(m: map<Key, Lua>, ps: seq<Piece>, values: seq<Lua>, isArray: bool)
    requires |ps| == |values|
  {
    && (forall k :: k in m <==> exists i :: 0 <= i < |ps| && KeyIn(ps[i], isArray) == k)
    && (forall i :: 0 <= i < |ps| && IsLast(ps, isArray, i) ==>
          KeyIn(ps[i], isArray) in m && m[KeyIn(ps[i], isArray)] == values[i])
  }

  ghost predicate IsLast(ps: seq<Piece>, isArray: bool, i: nat)
    requires i < |ps|
  {
    forall j :: i < j < |ps| ==> KeyIn(ps[j], isArray) != KeyIn(ps[i], isArray)
  }

  lemma {:induction false} FilledKeys(ps: seq<Piece>, values: seq<Lua>, isArray: bool, j: nat, k: Key)
    requires j <= |ps| == |values|
    ensures k in Filled(ps, values, isArray, j) <==> exists i :: 0 <= i < j && KeyIn(ps[i], isArray) == k
  {
    if j > 0 {
      FilledKeys(ps, values, isArray, j - 1, k);
      if KeyIn(ps[j - 1], isArray) == k {
        assert k in Filled(ps, values, isArray, j);
      }
    }
  }

  lemma {:induction false} FilledLast(ps: seq<Piece>, values: seq<Lua>, isArray: bool, j: nat, i: nat)
    requires i < j <= |ps| == |values|
    requires forall l :: i < l < j ==> KeyIn(ps[l], isArray) != KeyIn(ps[i], isArray)
    ensures var m, k := Filled(ps, values, isArray, j), KeyIn(ps[i], isArray); k in m && m[k] == values[i]
  {
    if i < j - 1 {
      FilledLast(ps, values, isArray, j - 1, i);
    }
  }

  lemma FilledCollects(ps: seq<Piece>, values: seq<Lua>, isArray: bool)
    requires |ps| == |values|
    ensures Collects(Filled(ps, values, isArray, |ps|), ps, values, isArray)
  {
    var m := Filled(ps, values, isArray, |ps|);
    forall k ensures k in m <==> exists i :: 0 <= i < |ps| && KeyIn(ps[i], isArray) == k {
      FilledKeys(ps, values, isArray, |ps|, k);
    }
    forall i | 0 <= i < |ps| && IsLast(ps, isArray, i)
      ensures KeyIn(ps[i], isArray) in m && m[KeyIn(ps[i], isArray)] == values[i]
    {
      FilledLast(ps, values, isArray, |ps|, i);
    }
  }

  /** Every key has a last element. */
  lemma LastOne(ps: seq<Piece>, isArray: bool, i: nat) returns (j: nat)
    requires i < |ps|
    ensures i <= j < |ps| && KeyIn(ps[j], isArray) == KeyIn(ps[i], isArray) && IsLast(ps, isArray, j)
    decreases |ps| - i
  {
    j := i;
    if !IsLast(ps, isArray, i) {
      var l :| i < l < |ps| && KeyIn(ps[l], isArray) == KeyIn(ps[i], isArray);
      j := LastOne(ps, isArray, l);
    }
  }

  lemma CollectsOnce(m: map<Key, Lua>, n: map<Key, Lua>, ps: seq<Piece>, values: seq<Lua>, isArray: bool)
    requires |ps| == |values| && Collects(m, ps, values, isArray) && Collects(n, ps, values, isArray)
    ensures m == n
  {
    assert m.Keys == n.Keys by {
      forall k ensures k in m.Keys <==> k in n.Keys {
        assert k in m <==> exists i :: 0 <= i < |ps| && KeyIn(ps[i], isArray) == k;
        assert k in n <==> exists i :: 0 <= i < |ps| && KeyIn(ps[i], isArray) == k;
      }
    }
    forall k | k in m ensures m[k] == n[k] {
      var i :| 0 <= i < |ps| && KeyIn(ps[i], isArray) == k;
      var j := LastOne(ps, isArray, i);
    }
  }

  /** `b` is the document for the table `m`: its length, elements and a NUL. */
  ghost predicate IsDocument(b: seq<byte>, isArray: bool, m: map<Key, Lua>)
    decreases |b|, 1, 0
  {
    && |b| >= 5 && Int32Is(b, |b|) && b[|b| - 1] == 0
    && exists ps: seq<Piece>, values: seq<Lua> ::
         |ps| == |values| && b[4..|b| - 1] == Join(ps) && AllElements(b, ps, values) && Collects(m, ps, values, isArray)
  }

  ghost predicate AllElements(b: seq<byte>, ps: seq<Piece>, values: seq<Lua>)
    requires |ps| == |values|
    decreases |b|, 0, 0
  {
    forall i :: 0 <= i < |ps| ==> |ps[i].body| < |b| && IsElement(ps[i], values[i], Join(ps[i + 1..]))
  }

  /** An element of a document: a name without NUL and a value. */
  ghost predicate IsElement(p: Piece, v: Lua, rest: seq<byte>)
    decreases |p.body|, 2, 0
  {
    NulFree(p.key) && IsValue(p.t, p.body, v, rest)
  }

  ghost predicate IsValue(t: byte, b: seq<byte>, v: Lua, rest: seq<byte>)
    decreases |b|, 1, 1
  {
    if t == 3 || t == 4 then v.Table? && IsDocument(b, t == 4, v.m) else Tells(t, b, v, rest)
  }

  // ------------------------------------------------------------ reading documents

  /** The length, the elements and the end of a document. */
  lemma InnerExactly(b: seq<byte>, rest: seq<byte>, e: seq<byte>)
    ensures GetInner(b + rest) == Got(e, rest) <==>
            |b| >= 5 && Int32Is(b, |b|) && b[|b| - 1] == 0 && e == b[4..|b| - 1]
  {
    var s := b + rest;
    ReadWord(s);
    if |s| >= 4 {
      var n := GetInt32(s).value;
      if 5 <= n <= |s| {
        Behind(b, rest, n);
        assert s[4..][..n - 5] == s[4..n - 1] && s[4..][n - 5..] == s[n - 1..] && s[n - 1..][1..] == s[n..];
        if n == |b| {
          assert s[4..n - 1] == b[4..n - 1];
        }
      }
    }
  }

  /** The elements that the loop of unpack_dict reads from `t`, and their values. */
  lemma {:induction false} ElementsOf(t: seq<byte>, isArray: bool, m: map<Key, Lua>)
    returns (ps: seq<Piece>, values: seq<Lua>)
    requires DecodeElements(t, isArray, m).Some?
    ensures AllDecode(ps, values) && t == Join(ps)
    ensures DecodeElements(t, isArray, m) == Some(Over(m, ps, values, isArray))
    decreases |t|
  {
    if t == [] {
      ps, values := [], [];
    } else {
      var p, v := FirstElement(t, isArray, m);
      var r := DecodeElement(t, isArray, m).value;
      var ps', values' := ElementsOf(r.t, isArray, r.m);
      ps, values := [p] + ps', [v] + values';
      assert ps[1..] == ps' && values[1..] == values';
      forall i | 0 <= i < |ps| ensures Decodes(ps[i], values[i], Join(ps[i + 1..])) {
        if i > 0 {
          assert Decodes(ps'[i - 1], values'[i - 1], Join(ps'[i..]));
          assert ps[i + 1..] == ps'[i..];
        }
      }
    }
  }

  /** The table `m` with the elements put into it one after the other. */
  function Over(m: map<Key, Lua>, ps: seq<Piece>, values: seq<Lua>, isArray: bool): map<Key, Lua>
    requires |ps| == |values|
    decreases |ps|
  {
    if ps == [] then m else Over(m[KeyIn(ps[0], isArray) := values[0]], ps[1..], values[1..], isArray)
  }

  lemma FirstElement(t: seq<byte>, isArray: bool, m: map<Key, Lua>) returns (p: Piece, v: Lua)
    requires t != [] && DecodeElement(t, isArray, m).Some?
    ensures var r := DecodeElement(t, isArray, m).value;
            && t == Lead(p) + (p.body + r.t) && Decodes(p, v, r.t) && r.m == m[KeyIn(p, isArray) := v]
  {
    var key := GetString(t[1..]);
    BsonLua.StringRead(t[1..]);
    var d := DecodeValue(t[0], key.rest);
    BsonCount.ValueEnds(t[0], key.rest);
    TakeDrop(key.rest, |key.rest| - |d.rest|);
    p, v := Piece(t[0], key.value, key.rest[..|key.rest| - |d.rest|]), d.value;
    assert t == [t[0]] + ((key.value + [0]) + key.rest);
    Assoc([t[0]], key.value + [0], key.rest);
  }

  lemma {:induction false} OverFilled(ps: seq<Piece>, values: seq<Lua>, isArray: bool, j: nat)
    requires j <= |ps| == |values|
    ensures Over(Filled(ps, values, isArray, j), ps[j..], values[j..], isArray) == Filled(ps, values, isArray, |ps|)
    decreases |ps| - j
  {
    if j < |ps| {
      OverFilled(ps, values, isArray, j + 1);
      assert ps[j..][1..] == ps[j + 1..] && values[j..][1..] == values[j + 1..];
    }
  }

  /** What the decoder reads of an element of `b`. */
  ghost predicate ElementTold(p: Piece, v: Lua, rest: seq<byte>) {
    Decodes(p, v, rest) <==> IsElement(p, v, rest)
  }

  lemma AllTold(b: seq<byte>, ps: seq<Piece>, values: seq<Lua>)
    requires |ps| == |values| && |Join(ps)| < |b|
    requires forall i :: 0 <= i < |ps| ==> ElementTold(ps[i], values[i], Join(ps[i + 1..]))
    ensures AllDecode(ps, values) <==> AllElements(b, ps, values)
  {
    forall i | 0 <= i < |ps|
      ensures |ps[i].body| < |b| && (Decodes(ps[i], values[i], Join(ps[i + 1..])) <==>
                                     IsElement(ps[i], values[i], Join(ps[i + 1..])))
    {
      PieceShorter(ps, i);
      assert ElementTold(ps[i], values[i], Join(ps[i + 1..]));
    }
  }

  /** The decoder reads a value from `b`, and stops before `rest`, exactly when `b` is an
      encoding of the value. */
  lemma {:induction false} AnyExactly(t: byte, b: seq<byte>, rest: seq<byte>, v: Lua)
    ensures DecodeValue(t, b + rest) == Got(v, rest) <==> IsValue(t, b, v, rest)
    decreases |b|, 2
  {
    if t != 3 && t != 4 {
      ValueExactly(t, b, rest, v);
    } else if v.Table? {
      DocumentExactly(b, rest, t == 4, v.m);
    }
  }

  lemma {:induction false} AllExactly(b: seq<byte>, ps: seq<Piece>, values: seq<Lua>)
    requires |ps| == |values| && |Join(ps)| < |b|
    ensures AllDecode(ps, values) <==> AllElements(b, ps, values)
    decreases |b|, 0
  {
    forall i | 0 <= i < |ps| ensures ElementTold(ps[i], values[i], Join(ps[i + 1..])) {
      PieceShorter(ps, i);
      AnyExactly(ps[i].t, ps[i].body, Join(ps[i + 1..]), values[i]);
    }
    AllTold(b, ps, values);
  }

  /** The decoder reads a table from `b`, and stops before `rest`, exactly when `b` is a
      document for the table. */
  lemma {:induction false} DocumentExactly(b: seq<byte>, rest: seq<byte>, isArray: bool, m: map<Key, Lua>)
    ensures Decode(b + rest, isArray) == Got(Table(m), rest) <==> IsDocument(b, isArray, m)
    decreases |b|, 1
  {
    if Decode(b + rest, isArray) == Got(Table(m), rest) {
      var e := GetInner(b + rest).value;
      InnerExactly(b, rest, e);
      var ps, values := ElementsOf(e, isArray, map[]);
      AllExactly(b, ps, values);
      OverFilled(ps, values, isArray, 0);
      assert ps[0..] == ps && values[0..] == values;
      FilledCollects(ps, values, isArray);
    }
    if IsDocument(b, isArray, m) {
      var e := b[4..|b| - 1];
      InnerExactly(b, rest, e);
      var ps: seq<Piece>, values: seq<Lua> :|
        |ps| == |values| && e == Join(ps) && AllElements(b, ps, values) && Collects(m, ps, values, isArray);
      AllExactly(b, ps, values);
      JoinDecodes(ps, values, isArray, 0);
      assert ps[0..] == ps;
      FilledCollects(ps, values, isArray);
      CollectsOnce(m, Filled(ps, values, isArray, |ps|), ps, values, isArray);
    }
  }

  // ------------------------------------------------------------ what is written

  /** What lencode writes is a document for its table. */
  lemma EncodedIsDocument(fields: seq<Field>)
    requires WellFormed(Doc(fields), []) && |Encode(Doc(fields))| < 0x8000_0000
    ensures IsDocument(Encode(Doc(fields)), false, Meaning(Doc(fields)).m)
  {
    var b := Encode(Doc(fields));
    RoundTrip(fields);
    assert b + [] == b;
    DocumentExactly(b, [], false, Meaning(Doc(fields)).m);
  }

  /** Where the format leaves a choice: strings end with NUL, true is 1, and dates are whole
      seconds. */
  lemma Canonical(a: Atom)
    requires AtomOk(a, []) && |Body(a)| < 0x8000_0000
    ensures Spells(AtomType(a), Body(a), a, [])
    ensures a.Str? ==> Body(a)[|Body(a)| - 1] == 0
    ensures a.Bool? ==> Body(a) == [if a.b then 1 else 0]
    ensures a.Date? ==> |Body(a)| == 8 && LongOf(Body(a)) == 1000 * a.t
  {
    AtomRoundTrip(a, []);
    assert Body(a) + [] == Body(a);
    ElementExactly(AtomType(a), Body(a), [], a);
    if a.Date? {
      Int64RoundTrip(a.t * 1000, []);
      ReadLong(Body(a));
    }
  }

  /** An integer takes four bytes (type 16) exactly when it fits, and eight (type 18) otherwise. */
  lemma IntegerWidth(i: int64)
    ensures var a := BsonLua.OfInteger(i);
            if -0x8000_0000 <= i < 0x8000_0000 then AtomType(a) == 16 && |Body(a)| == 4
            else AtomType(a) == 18 && |Body(a)| == 8
  {
  }
}
