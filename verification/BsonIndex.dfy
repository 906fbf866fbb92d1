/** The offset index of a document and the fields overwritten through it. */
module BsonIndex {
  import opened Wrappers
  import opened Bytes
  import opened Bson
  import opened BsonReader
  import opened BsonLua

  // ------------------------------------------------------------ places in a document

  lemma {:induction false} JoinSplit(ps: seq<Piece>, j: nat)
    requires j <= |ps|
    ensures Join(ps) == Join(ps[..j]) + Join(ps[j..])
  {
    if j > 0 {
      JoinSplit(ps[1..], j - 1);
      assert ps[1..][..j - 1] == ps[..j][1..] && ps[1..][j - 1..] == ps[j..];
      Regrouped(Lead(ps[0]), ps[0].body, Join(ps[1..][..j - 1]), Join(ps[j..]));
    } else {
      assert ps[0..] == ps && ps[..0] == [];
    }
  }

  lemma Regrouped(a: seq<byte>, b: seq<byte>, c: seq<byte>, d: seq<byte>)
    ensures a + (b + (c + d)) == (a + (b + c)) + d
  {
  }

  lemma {:induction false} JoinLength(ps: seq<Piece>, j: nat)
    requires j < |ps|
    ensures |Join(ps[..j + 1])| == |Join(ps[..j])| + |Lead(ps[j])| + |ps[j].body|
  {
    JoinSplit(ps[..j + 1], j);
    assert ps[..j + 1][..j] == ps[..j] && ps[..j + 1][j..] == [ps[j]];
    assert [ps[j]][1..] == [];
  }

  /** Where the value of the `j`-th element starts, after the length. */
  function Place(ps: seq<Piece>, j: nat): nat
    requires j < |ps|
  {
    4 + |Join(ps[..j])| + |Lead(ps[j])|
  }

  /** Overwriting the bytes of one value changes that element only. */
  lemma OverwritePiece(n: seq<byte>, ps: seq<Piece>, k: nat, data: seq<byte>)
    requires |n| == 4 && k < |ps| && |data| == |ps[k].body|
    ensures var s := n + (Join(ps) + [0]); var qs := ps[k := ps[k].(body := data)];
            && Place(ps, k) + |data| <= |s|
            && |Join(qs)| == |Join(ps)|
            && Overwrite(s, Place(ps, k), data) == n + (Join(qs) + [0])
  {
    var qs := ps[k := ps[k].(body := data)];
    JoinSplit(ps, k);
    JoinSplit(qs, k);
    assert qs[..k] == ps[..k] && qs[k..][1..] == qs[k + 1..] == ps[k + 1..] == ps[k..][1..];
    assert qs[k..][0] == qs[k] && ps[k..][0] == ps[k] && Lead(qs[k]) == Lead(ps[k]);
    OverwriteParts(n, Join(ps[..k]), Lead(ps[k]), ps[k].body, data, Join(ps[k + 1..]));
  }

  lemma OverwriteParts(n: seq<byte>, p: seq<byte>, l: seq<byte>, c: seq<byte>, data: seq<byte>, e: seq<byte>)
    requires |c| == |data|
    ensures var s := n + ((p + (l + (c + e))) + [0]); var at := |n| + |p| + |l|;
            at + |data| <= |s| && Overwrite(s, at, data) == n + ((p + (l + (data + e))) + [0])
  {
    assert n + ((p + (l + (c + e))) + [0]) == (n + p + l) + c + (e + [0]);
    assert n + ((p + (l + (data + e))) + [0]) == (n + p + l) + data + (e + [0]);
    Overwritten(n + p + l, c, data, e + [0]);
  }

  lemma Overwritten(head: seq<byte>, was: seq<byte>, data: seq<byte>, tail: seq<byte>)
    requires |was| == |data|
    ensures Overwrite(head + was + tail, |head|, data) == head + data + tail
  {
  }

  // ------------------------------------------------------------ the index

  /** The types whose values have a fixed width, as in lmakeindex. */
  function Width(t: byte): nat {
    if t == 18 || t == 17 || t == 9 || t == 1 then 8
    else if t == 8 then 1
    else if t == 7 then 12
    else if t == 16 then 4
    else 0
  }

  lemma WidthOf(v: Value)
    requires AllSteady(v) && Width(Type(v)) > 0
    ensures v.Scalar? && |Encode(v)| == Width(Type(v)) && Type(v) < 32
  {
  }

  /** How many bytes lmakeindex skips behind the length field `n`. */
  function Announced(t: byte, n: int32): int {
    if t == 5 then n + 1 else if t == 12 then n + 12 else if t == 3 || t == 4 || t == 15 then n - 4 else n
  }

  /** What lmakeindex makes of a value: it goes on with `rest`, it fails, or a length
      takes the cursor back to before the value, where it may loop or leave the
      document. */
  datatype Passed = Ahead(rest: seq<byte>) | Stuck | Astray

  /** Passing over a value of another type. */
  function Pass(t: byte, s: seq<byte>): (d: Passed)
    ensures d.Ahead? ==> |d.rest| <= |s|
  {
    if 2 <= t <= 5 || 12 <= t <= 15 then
      match GetInt32(s)
      case Invalid => Stuck
      case Got(n, _) =>
        if 4 + Announced(t, n) < 0 then Astray
        else match Take(s, 4 + Announced(t, n)) case Invalid => Stuck case Got(_, rest) => Ahead(rest)
    else if t == 255 || t == 127 || t == 10 then Ahead(s)
    else if t == 11 then
      match GetString(s)
      case Invalid => Stuck
      case Got(_, rest) => match GetString(rest) case Invalid => Stuck case Got(_, rest') => Ahead(rest')
    else Stuck
  }

  /** The type in the low five bits and the offset above them. */
  function IndexEntry(t: byte, offset: nat): nat {
    t + 32 * offset
  }

  /** A reader at offset `at` with `t` left to read, and the index so far. */
  datatype Cursor = Cursor(t: seq<byte>, at: nat, m: map<seq<byte>, nat>)

  /** The end of lmakeindex: the index, an error, or the cursor went astray. */
  datatype Indexed = Done(m: map<seq<byte>, nat>) | Failed | Lost

  datatype Round = Next(c: Cursor) | End(r: Indexed)

  /** One round of the loop of lmakeindex. */
  function IndexOne(c: Cursor): (r: Round)
    requires c.t != []
    ensures r.Next? ==> |r.c.t| < |c.t|
  {
    match GetString(c.t[1..])
    case Invalid => End(Failed)
    case Got(key, rest) =>
      var here := c.at + |c.t| - |rest|;
      if Width(c.t[0]) > 0 then
        match Take(rest, Width(c.t[0]))
        case Invalid => End(Failed)
        case Got(_, rest') => Next(Cursor(rest', here + Width(c.t[0]), c.m[key := IndexEntry(c.t[0], here)]))
      else
        match Pass(c.t[0], rest)
        case Stuck => End(Failed)
        case Astray => End(Lost)
        case Ahead(rest') => Next(Cursor(rest', c.at + |c.t| - |rest'|, c.m))
  }

  /** lmakeindex. */
  function Index(c: Cursor): Indexed
    decreases |c.t|
  {
    if c.t == [] then Done(c.m)
    else match IndexOne(c) case End(r) => r case Next(c') => Index(c')
  }

  /** The index that a document with these elements should have. */
  function Expected(ps: seq<Piece>, j: nat): map<seq<byte>, nat>
    requires j <= |ps|
  {
    if j == 0 then map[]
    else if Width(ps[j - 1].t) > 0 then Expected(ps, j - 1)[ps[j - 1].key := IndexEntry(ps[j - 1].t, Place(ps, j - 1))]
    else Expected(ps, j - 1)
  }

  lemma PassWrap(e: seq<byte>, t: seq<byte>, ty: byte)
    requires (ty == 3 || ty == 4) && |e| + 5 < 0x8000_0000
    ensures Pass(ty, Wrap(e) + t) == Ahead(t)
  {
    PassCounted(Le32(|e| + 5), e + [0], t);
    Int32RoundTrip(|e| + 5, (e + [0]) + t);
  }

  lemma PassText(s: seq<byte>, t: seq<byte>)
    requires |s| + 1 < 0x8000_0000
    ensures Pass(2, Body(Str(s)) + t) == Ahead(t)
  {
    PassCounted(Le32(|s| + 1), s + [0], t);
    Int32RoundTrip(|s| + 1, (s + [0]) + t);
  }

  lemma PassBinary(data: seq<byte>, t: seq<byte>)
    requires 0 < |data| < 0x8000_0000
    ensures Pass(5, Body(Binary(data)) + t) == Ahead(t)
  {
    PassCounted(Le32(|data| - 1), data, t);
    Int32RoundTrip(|data| - 1, data + t);
  }

  /** Bytes behind a length field. */
  lemma PassCounted(n: seq<byte>, e: seq<byte>, t: seq<byte>)
    ensures (n + e) + t == n + (e + t) && Take((n + e) + t, |n| + |e|) == Got(n + e, t)
  {
    TakePrefix(n + e, t);
  }

  /** lmakeindex passes a copied value as the reader reads it. */
  lemma PassRaw(kind: RawKind, raw: seq<byte>, t: seq<byte>)
    requires RawOk(kind, raw, t)
    ensures Pass(kind, raw + t) == Ahead(t)
  {
    TakePrefix(raw, t);
  }

  lemma PassEncoded(v: Value, t: seq<byte>)
    requires AllSteady(v) && |Encode(v)| < 0x8000_0000 && Width(Type(v)) == 0
    ensures Pass(Type(v), Encode(v) + t) == Ahead(t)
  {
    if !v.Scalar? {
      PassWrap(Join(Pieces(v)), t, Type(v));
    } else {
      match v.a
      case Str(s) => PassText(s, t);
      case Binary(data) => PassBinary(data, t);
      case Raw(kind, raw) =>
        SteadyOk(v.a, t);
        PassRaw(kind, raw, t);
      case Regex(p, o) =>
        Assoc(p + [0], o + [0], t);
        StringRoundTrip(p, (o + [0]) + t);
        StringRoundTrip(o, t);
      case Null => assert [] + t == t;
      case MinKey => assert [] + t == t;
      case MaxKey => assert [] + t == t;
    }
  }

  /** An element that lmakeindex reads: a value of fixed width, or one it passes. */
  ghost predicate Readable(p: Piece) {
    NulFree(p.key) &&
    if Width(p.t) > 0 then |p.body| == Width(p.t) else forall rest :: Pass(p.t, p.body + rest) == Ahead(rest)
  }

  lemma KeyOfPiece(p: Piece, s: seq<byte>)
    requires NulFree(p.key)
    ensures var t := Lead(p) + s; t != [] && t[0] == p.t && GetString(t[1..]) == Got(p.key, s) && |t| == |Lead(p)| + |s|
  {
    StringRoundTrip(p.key, s);
    assert (Lead(p) + s)[1..] == (p.key + [0]) + s;
  }

  lemma IndexStep(p: Piece, rest: seq<byte>, at: nat, m: map<seq<byte>, nat>)
    requires Readable(p)
    ensures Lead(p) + (p.body + rest) != []
    ensures IndexOne(Cursor(Lead(p) + (p.body + rest), at, m)) ==
            Next(Cursor(rest, at + |Lead(p)| + |p.body|,
                        if Width(p.t) > 0 then m[p.key := IndexEntry(p.t, at + |Lead(p)|)] else m))
  {
    KeyOfPiece(p, p.body + rest);
    if Width(p.t) > 0 {
      TakePrefix(p.body, rest);
    } else {
      assert Pass(p.t, p.body + rest) == Ahead(rest);
    }
  }

  ghost predicate AllReadable(ps: seq<Piece>) {
    forall j :: 0 <= j < |ps| ==> Readable(ps[j])
  }

  lemma {:induction false} IndexJoin(ps: seq<Piece>, j: nat)
    requires AllReadable(ps) && j <= |ps|
    ensures Index(At(ps, j)) == Done(Expected(ps, |ps|))
    decreases |ps| - j
  {
    if j < |ps| {
      AtNext(ps, j);
      IndexJoin(ps, j + 1);
    } else {
      assert ps[|ps|..] == [];
    }
  }

  /** The reader of lmakeindex before the `j`-th element. */
  function At(ps: seq<Piece>, j: nat): Cursor
    requires j <= |ps|
  {
    Cursor(Join(ps[j..]), 4 + |Join(ps[..j])|, Expected(ps, j))
  }

  lemma AtBegin(ps: seq<Piece>, j: nat)
    requires j < |ps|
    ensures var p := ps[j]; var c := At(ps, j);
            c == Cursor(Lead(p) + (p.body + Join(ps[j + 1..])), c.at, c.m)
  {
    JoinNext(ps, j);
  }

  lemma AtEnd(ps: seq<Piece>, j: nat)
    requires j < |ps|
    ensures var p := ps[j]; var c := At(ps, j);
            At(ps, j + 1) == Cursor(Join(ps[j + 1..]), c.at + |Lead(p)| + |p.body|,
                                    if Width(p.t) > 0 then c.m[p.key := IndexEntry(p.t, c.at + |Lead(p)|)] else c.m)
  {
    JoinLength(ps, j);
    ExpectedNext(ps, j);
  }

  lemma AtNext(ps: seq<Piece>, j: nat)
    requires AllReadable(ps) && j < |ps|
    ensures At(ps, j).t != [] && IndexOne(At(ps, j)) == Next(At(ps, j + 1))
  {
    var c := At(ps, j);
    AtBegin(ps, j);
    IndexStep(ps[j], Join(ps[j + 1..]), c.at, c.m);
    AtEnd(ps, j);
  }

  lemma ExpectedNext(ps: seq<Piece>, j: nat)
    requires j < |ps|
    ensures Expected(ps, j + 1) ==
            if Width(ps[j].t) > 0 then
              Expected(ps, j)[ps[j].key := IndexEntry(ps[j].t, 4 + |Join(ps[..j])| + |Lead(ps[j])|)]
            else Expected(ps, j)
  {
  }

  lemma PiecesReadable(v: Value)
    requires v.Doc? && AllSteady(v) && |Join(Pieces(v))| < 0x8000_0000
    ensures AllReadable(Pieces(v))
  {
    forall j | 0 <= j < Size(v) ensures Readable(Pieces(v)[j]) {
      PieceShorter(Pieces(v), j);
      PieceReadable(v, j);
    }
  }

  lemma PieceReadable(v: Value, j: nat)
    requires v.Doc? && AllSteady(v) && j < Size(v) && |Encode(ChildAt(v, j))| < 0x8000_0000
    ensures Readable(Pieces(v)[j])
  {
    var c := ChildAt(v, j);
    if Width(Type(c)) > 0 {
      WidthOf(c);
    } else {
      forall rest ensures Pass(Type(c), Encode(c) + rest) == Ahead(rest) {
        PassEncoded(c, rest);
      }
    }
  }

  ghost predicate DistinctPieces(ps: seq<Piece>) {
    forall i, j :: 0 <= i < j < |ps| ==> ps[i].key != ps[j].key
  }

  /** The index has exactly the fixed-width fields, at their places. */
  lemma {:induction false} ExpectedAt(ps: seq<Piece>, j: nat, k: nat)
    requires DistinctPieces(ps) && k < |ps| && j <= |ps|
    ensures ps[k].key in Expected(ps, j) <==> k < j && Width(ps[k].t) > 0
    ensures k < j && Width(ps[k].t) > 0 ==> Expected(ps, j)[ps[k].key] == IndexEntry(ps[k].t, Place(ps, k))
  {
    if j > 0 {
      ExpectedAt(ps, j - 1, k);
      assert j - 1 != k ==> ps[j - 1].key != ps[k].key;
    }
  }

  // ------------------------------------------------------------ replacing

  /** luaL_checknumber: the double of a number, or of a value that converts to one. */
  type Checknumber = Lua -> Option<word64>

  ghost predicate KeepsReals(number: Checknumber) {
    forall w: word64 :: number(Num(w)) == Some(w)
  }

  /** The payload of an object of type `t`, as replace_object checks it. */
  function ObjectOf(t: byte, x: Lua): Option<seq<byte>> {
    if x.Text? && |x.s| >= 6 && x.s[0] == 0 && x.s[1] == t then Some(x.s[2..]) else None
  }

  /** What lreplace writes over a field of type `t` when it is given a Lua value. */
  function Patch(number: Checknumber, t: byte, x: Lua): Option<seq<byte>> {
    if t == 1 then
      match number(x) case None => None case Some(w) => Some(LeBytes(w, 8))
    else if t == 8 then Some([if x == Nil || x == Flag(false) then 0 else 1])
    else if t == 7 || t == 9 || t == 17 then
      match ObjectOf(t, x) case None => None case Some(r) => PatchObject(t, r)
    else if t == 16 && x.Int? then Some(LeBytes(x.i % 0x1_0000_0000, 4))
    else if t == 18 && x.Int? then Some(Le64(x.i))
    else None
  }

  /** replace_object behind its first check. */
  function PatchObject(t: byte, r: seq<byte>): Option<seq<byte>> {
    if t == 7 && |r| == 12 then Some(r)
    else if t == 9 && |r| == 4 then Some(Le64(Unsigned(r) * 1000))
    else if t == 17 && |r| == 8 then Some(Le32(Unsigned(r[..4])) + Le32(Unsigned(r[4..])))
    else None
  }

  lemma DateBytes(d: uint32)
    ensures Unsigned(LeBytes(d, 4)) == d
  {
    PowValues();
    LeRoundTrip(d, 4);
  }

  lemma ShownObject(a: Atom)
    requires (a.ObjectId? && |a.id| == 12) || a.Date? || a.Timestamp?
    ensures ObjectOf(AtomType(a), Show(a)) == Some(Payload(a))
  {
    assert Show(a) == Text(Object(AtomType(a), Payload(a)));
    assert Object(AtomType(a), Payload(a))[2..] == Payload(a);
  }

  lemma PatchIsStamp(number: Checknumber, a: Atom)
    requires a.Timestamp?
    ensures Patch(number, AtomType(a), Show(a)) == Some(Body(a))
  {
    ShownObject(a);
    DateBytes(a.inc);
    DateBytes(a.ts);
    var r := Payload(a);
    assert r[..4] == LeBytes(a.inc, 4) && r[4..] == LeBytes(a.ts, 4);
  }

  /** An in-range value of the same type is written as it would be encoded. */
  lemma PatchIsBody(number: Checknumber, a: Atom)
    requires Width(AtomType(a)) > 0 && Steady(a) && KeepsReals(number)
    ensures Patch(number, AtomType(a), Show(a)) == Some(Body(a))
  {
    if a.Date? {
      ShownObject(a);
      DateBytes(a.t);
    } else if a.Timestamp? {
      PatchIsStamp(number, a);
    } else if a.ObjectId? {
      ShownObject(a);
    }
  }

  function With(v: Value, k: nat, a: Atom): Value
    requires v.Doc? && k < |v.fields|
  {
    Doc(v.fields[k := Field(v.fields[k].key, Scalar(a))])
  }

  lemma PiecesWith(v: Value, k: nat, a: Atom)
    requires v.Doc? && k < |v.fields| && AtomType(a) == Type(v.fields[k].value)
    ensures Pieces(With(v, k, a)) == Pieces(v)[k := Pieces(v)[k].(body := Body(a))]
  {
    var w := With(v, k, a);
    forall j | 0 <= j < Size(v) ensures Pieces(w)[j] == Pieces(v)[k := Pieces(v)[k].(body := Body(a))][j] {
      assert j != k ==> w.fields[j] == v.fields[j];
    }
  }

  /** Overwriting the bytes of a value gives the encoding of the changed document. */
  lemma OverwriteEncoded(v: Value, k: nat, a: Atom)
    requires v.Doc? && k < |v.fields| && AtomType(a) == Type(v.fields[k].value)
    requires |Body(a)| == |Encode(v.fields[k].value)|
    ensures Place(Pieces(v), k) + |Body(a)| <= |Encode(v)|
    ensures Overwrite(Encode(v), Place(Pieces(v), k), Body(a)) == Encode(With(v, k, a))
  {
    PiecesWith(v, k, a);
    OverwriteWrap(Pieces(v), k, Body(a));
  }

  lemma OverwriteWrap(ps: seq<Piece>, k: nat, data: seq<byte>)
    requires k < |ps| && |data| == |ps[k].body|
    ensures Place(ps, k) + |data| <= |Wrap(Join(ps))|
    ensures Overwrite(Wrap(Join(ps)), Place(ps, k), data) == Wrap(Join(ps[k := ps[k].(body := data)]))
  {
    var n, qs := Le32(|Join(ps)| + 5), ps[k := ps[k].(body := data)];
    OverwritePiece(n, ps, k, data);
    WrapFrom(n, Join(ps), Join(qs));
  }

  lemma WrapFrom(n: seq<byte>, e: seq<byte>, e': seq<byte>)
    requires |e| == |e'| && n == Le32(|e| + 5)
    ensures Wrap(e) == n + (e + [0]) && Wrap(e') == n + (e' + [0])
  {
  }

  lemma {:induction false} MeaningWith(v: Value, k: nat, a: Atom, j: nat)
    requires v.Doc? && DistinctPieces(Pieces(v)) && k < |v.fields| && j <= |v.fields|
    ensures MeaningUpTo(With(v, k, a), j) ==
            if k < j then MeaningUpTo(v, j)[Named(v.fields[k].key) := Show(a)] else MeaningUpTo(v, j)
  {
    if j > 0 {
      MeaningWith(v, k, a, j - 1);
      assert Pieces(v)[j - 1].key == v.fields[j - 1].key && Pieces(v)[k].key == v.fields[k].key;
      assert j - 1 != k ==> v.fields[j - 1].key != v.fields[k].key;
    }
  }

  // ------------------------------------------------------------ makeindex and replace

  /** A document in memory: its length field counts its bytes. */
  predicate InMemory(doc: seq<byte>) {
    var n := GetInt32(doc);
    n.Got? && 5 <= n.value <= |doc|
  }

  /** The elements that lmakeindex reads: up to the NUL that the length field gives. */
  function Inner(doc: seq<byte>): seq<byte>
    requires InMemory(doc)
  {
    doc[4..GetInt32(doc).value - 1]
  }

  ghost predicate PassDone(d: Passed, ok: bool, astray: bool, left: seq<byte>) {
    match d
    case Ahead(rest) => ok && left == rest
    case Stuck => !ok && !astray
    case Astray => !ok && astray
  }

  ghost predicate RoundDone(d: Round, r: Indexed, left: seq<byte>, at: nat) {
    match d
    case Next(c) => r.Done? && c == Cursor(left, at, r.m)
    case End(e) => r == e && !r.Done?
  }

  /** Skipping a value that has no fixed width. */
  method PassValue(br: Reader, t: byte) returns (ok: bool, astray: bool)
    requires br.Valid()
    modifies br
    ensures br.Valid() && PassDone(Pass(t, old(br.Left())), ok, astray, br.Left()) && br.size <= old(br.size)
  {
    ok, astray := false, false;
    if 2 <= t <= 5 || 12 <= t <= 15 {
      ok, astray := PassLength(br, t);
    } else if t == 11 {
      var p := br.ReadString();
      if p.Some? {
        var o := br.ReadString();
        ok := o.Some?;
      }
    } else {
      ok := t == 255 || t == 127 || t == 10;
    }
  }

  method PassLength(br: Reader, t: byte) returns (ok: bool, astray: bool)
    requires br.Valid() && (2 <= t <= 5 || 12 <= t <= 15)
    modifies br
    ensures br.Valid() && PassDone(Pass(t, old(br.Left())), ok, astray, br.Left()) && br.size <= old(br.size)
  {
    ghost var s, start := br.Left(), br.ptr;
    var n := br.ReadInt32();
    if n.None? {
      return false, false;
    }
    if 4 + Announced(t, n.value) < 0 {
      return false, true;
    }
    ok := br.Skip(Announced(t, n.value));
    astray := false;
    assert ok ==> br.Left() == s[br.ptr - start..];
  }

  /** One round of the loop of lmakeindex, which notes where a value of fixed width
      starts. */
  method IndexRound(br: Reader, m: map<seq<byte>, nat>) returns (r: Indexed)
    requires br.Valid() && br.size > 0
    modifies br
    ensures br.Valid() && (r.Done? ==> br.size < old(br.size))
    ensures RoundDone(IndexOne(Cursor(old(br.Left()), 4 + old(br.ptr), m)), r, br.Left(), 4 + br.ptr)
  {
    var bt := br.ReadByte();
    var key := br.ReadString();
    if key.None? {
      return Failed;
    }
    if Width(bt.value) > 0 {
      var id := IndexEntry(bt.value, 4 + br.ptr);
      var b := br.ReadBytes(Width(bt.value));
      r := if b.Some? then Done(m[key.value := id]) else Failed;
    } else {
      var ok, astray := PassValue(br, bt.value);
      r := if ok then Done(m) else if astray then Lost else Failed;
    }
  }

  /** lmakeindex. */
  method MakeIndex(doc: seq<byte>) returns (r: Indexed)
    requires InMemory(doc)
    ensures r == Index(Cursor(Inner(doc), 4, map[]))
  {
    var br := new Reader(Inner(doc));
    var m: map<seq<byte>, nat> := map[];
    while br.size > 0
      invariant br.Valid() && fresh(br)
      invariant Index(Cursor(Inner(doc), 4, map[])) == Index(Cursor(br.Left(), 4 + br.ptr, m))
      decreases br.size
    {
      r := IndexRound(br, m);
      if !r.Done? {
        return;
      }
      m := r.m;
    }
    r := Done(m);
  }

  /** lreplace: the bytes at the offset in the index are overwritten in place. */
  method Replace(number: Checknumber, doc: array<byte>, index: map<seq<byte>, nat>, key: seq<byte>, x: Lua)
    returns (r: Result<()>)
    requires key in index ==> index[key] / 32 + Width(index[key] % 32) <= doc.Length
    modifies doc
    ensures r.Ok? <==> key in index && Patch(number, index[key] % 32, x).Some?
    ensures r.Ok? ==>
      var data := Patch(number, index[key] % 32, x).value;
      index[key] / 32 + |data| <= doc.Length && doc[..] == Overwrite(old(doc[..]), index[key] / 32, data)
    ensures r.Error? ==> doc[..] == old(doc[..])
  {
    if key !in index {
      return Error("Can't replace key");
    }
    var t, offset := index[key] % 32, index[key] / 32;
    var data := Patch(number, t, x);
    if data.None? {
      return Error("Type mismatch");
    }
    PatchWidth(number, t, x);
    ghost var was := doc[..];
    for i := 0 to |data.value|
      invariant forall k :: 0 <= k < doc.Length ==>
        doc[k] == if offset <= k < offset + i then data.value[k - offset] else was[k]
    {
      doc[offset + i] := data.value[i];
    }
    r := Ok(());
  }

  lemma PatchWidth(number: Checknumber, t: byte, x: Lua)
    requires t < 32 && Patch(number, t, x).Some?
    ensures |Patch(number, t, x).value| == Width(t)
  {
  }

  lemma InnerOfEncoded(v: Value)
    requires v.Doc? && |Encode(v)| < 0x8000_0000
    ensures InMemory(Encode(v)) && Inner(Encode(v)) == Join(Pieces(v))
  {
    var e := Join(Pieces(v));
    Int32RoundTrip(|e| + 5, e + [0]);
    InnerOf(Le32(|e| + 5), e);
  }

  lemma InnerOf(n: seq<byte>, e: seq<byte>)
    requires |n| == 4
    ensures |n + (e + [0])| == |e| + 5 && (n + (e + [0]))[4..|e| + 4] == e
  {
  }

  /** makeindex on an encoded document finds exactly the fixed-width fields. */
  lemma IndexOfEncoded(v: Value)
    requires v.Doc? && AllSteady(v) && |Encode(v)| < 0x8000_0000
    ensures InMemory(Encode(v))
    ensures Index(Cursor(Inner(Encode(v)), 4, map[])) == Done(Expected(Pieces(v), Size(v)))
  {
    var ps := Pieces(v);
    InnerOfEncoded(v);
    PiecesReadable(v);
    IndexJoin(ps, 0);
    AtStart(ps);
  }

  lemma AtStart(ps: seq<Piece>)
    ensures At(ps, 0) == Cursor(Join(ps), 4, map[])
  {
    assert ps[0..] == ps && ps[..0] == [];
  }

  lemma EntryParts(t: nat, offset: nat)
    requires t < 32
    ensures (t + 32 * offset) % 32 == t && (t + 32 * offset) / 32 == offset
  {
  }

  lemma BodyWidth(a: Atom, c: Value)
    requires Steady(a) && AllSteady(c) && AtomType(a) == Type(c) && Width(Type(c)) > 0
    ensures |Body(a)| == |Encode(c)| && Type(c) < 32
  {
    WidthOf(c);
    WidthOf(Scalar(a));
  }

  /** The index entry of a fixed-width field. */
  lemma IndexedField(v: Value, k: nat)
    requires v.Doc? && AllSteady(v) && DistinctPieces(Pieces(v)) && |Encode(v)| < 0x400_0000
    requires k < |v.fields| && Width(Type(v.fields[k].value)) > 0
    ensures var m := Expected(Pieces(v), Size(v)); var key := v.fields[k].key;
            && key in m && m[key] < 0x8000_0000
            && m[key] % 32 == Type(v.fields[k].value) && m[key] / 32 == Place(Pieces(v), k)
  {
    var ps, c := Pieces(v), v.fields[k].value;
    assert ps[k].t == Type(c) && ps[k].key == v.fields[k].key;
    WidthOf(c);
    PlaceInside(v, k);
    EntryAt(ps, k);
  }

  lemma EntryAt(ps: seq<Piece>, k: nat)
    requires DistinctPieces(ps) && k < |ps| && 0 < Width(ps[k].t) && ps[k].t < 32 && Place(ps, k) < 0x400_0000
    ensures var m := Expected(ps, |ps|);
            && ps[k].key in m && m[ps[k].key] < 0x8000_0000
            && m[ps[k].key] % 32 == ps[k].t && m[ps[k].key] / 32 == Place(ps, k)
  {
    ExpectedAt(ps, |ps|, k);
    EntryParts(ps[k].t, Place(ps, k));
  }

  lemma PlaceInside(v: Value, k: nat)
    requires v.Doc? && k < |v.fields|
    ensures Place(Pieces(v), k) < |Encode(v)|
  {
    var ps := Pieces(v);
    JoinSplit(ps, k);
    JoinNext(ps, k);
  }

  /** Patching a fixed-width field through the index and decoding gives the document
      with only that key changed, and the same length. */
  lemma PatchedDecodes(number: Checknumber, v: Value, k: nat, a: Atom)
    requires v.Doc? && AllSteady(v) && DistinctPieces(Pieces(v)) && |Encode(v)| < 0x400_0000
    requires k < |v.fields| && Steady(a) && AtomType(a) == Type(v.fields[k].value) && Width(AtomType(a)) > 0
    requires KeepsReals(number)
    ensures InMemory(Encode(v))
    ensures var index := Index(Cursor(Inner(Encode(v)), 4, map[])); var key := v.fields[k].key;
            && index.Done? && key in index.m && index.m[key] < 0x8000_0000
            && Patch(number, index.m[key] % 32, Show(a)) == Some(Body(a))
            && index.m[key] / 32 + |Body(a)| <= |Encode(v)|
            && var doc := Overwrite(Encode(v), index.m[key] / 32, Body(a));
            && doc == Encode(With(v, k, a)) && |doc| == |Encode(v)|
            && Decode(doc, false) == Got(Table(Meaning(v).m[Named(key) := Show(a)]), [])
  {
    IndexOfEncoded(v);
    IndexedField(v, k);
    BodyWidth(a, v.fields[k].value);
    PatchIsBody(number, a);
    OverwriteEncoded(v, k, a);
    PatchedMeaning(v, k, a);
  }

  lemma PatchedMeaning(v: Value, k: nat, a: Atom)
    requires v.Doc? && AllSteady(v) && DistinctPieces(Pieces(v)) && k < |v.fields| && Steady(a)
    requires |Encode(With(v, k, a))| < 0x8000_0000
    ensures Decode(Encode(With(v, k, a)), false) == Got(Table(Meaning(v).m[Named(v.fields[k].key) := Show(a)]), [])
  {
    var w := With(v, k, a);
    MeaningWith(v, k, a, |v.fields|);
    forall j | 0 <= j < Size(w) ensures AllSteady(ChildAt(w, j)) {
      assert j != k ==> ChildAt(w, j) == ChildAt(v, j);
    }
    SteadyWellFormed(w, []);
    RoundTrip(w.fields);
  }

  // ------------------------------------------------------------ documents of Lua values

  lemma WireNames(v: LuaValue)
    requires BsonLua.WellFormed(v) && AcceptsDocument(v)
    ensures Wire(v).Doc? && Size(Wire(v)) == |v.entries| && DistinctPieces(Pieces(Wire(v)))
    ensures forall k :: 0 <= k < |v.entries| ==> v.entries[k].key == Named(Wire(v).fields[k].key)
  {
    var ps := Pieces(Wire(v));
    forall k | 0 <= k < |v.entries|
      ensures v.entries[k].key == Named(Wire(v).fields[k].key) && ps[k].key == Wire(v).fields[k].key
    {
      WireAt(v, 0, k);
    }
  }

  /** For a table of Lua values that comes back as it was: writing over the field `k`
      a value of the same BSON type gives a document that decodes to the table with
      only that key changed. */
  lemma PatchedTable(number: Checknumber, v: LuaValue, k: nat, x: LuaValue)
    requires BsonLua.WellFormed(v) && AcceptsDocument(v) && Clean(v) && Same(v) && k < |v.entries|
    requires |Encode(Wire(v))| < 0x400_0000 && KeepsReals(number)
    requires ToAtom(x).Some? && Steady(ToAtom(x).value) && Same(x)
    requires Type(Wire(v.entries[k].value)) == AtomType(ToAtom(x).value) && Width(AtomType(ToAtom(x).value)) > 0
    ensures InMemory(Encode(Wire(v))) && v.entries[k].key.Named?
    ensures var index := Index(Cursor(Inner(Encode(Wire(v))), 4, map[])); var key := v.entries[k].key.name;
            && index.Done? && key in index.m
            && var data := Patch(number, index.m[key] % 32, Means(x));
            && data.Some? && index.m[key] / 32 + |data.value| <= |Encode(Wire(v))|
            && Decode(Overwrite(Encode(Wire(v)), index.m[key] / 32, data.value), false) ==
               Got(Table(Means(v).m[Named(key) := Means(x)]), [])
  {
    var w, a := Wire(v), ToAtom(x).value;
    CleanWire(v, 0);
    WireNames(v);
    SameExactly(v, 0);
    WireAt(v, 0, k);
    ShownSame(x);
    PatchedDecodes(number, w, k, a);
  }

  lemma ShownSame(x: LuaValue)
    requires ToAtom(x).Some? && Same(x)
    ensures Show(ToAtom(x).value) == Means(x)
  {
    if x.String? {
      ShownExactly(x.s);
    }
  }
}
