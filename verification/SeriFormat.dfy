/** The bytes of lua-seri.c's values that are not tables, and which values can be packed,
    said of the bytes and the values themselves. */
module SeriFormat {
  import opened Wrappers
  import opened Bytes
  import opened Seri

  /** An integer behind its tag: no byte for 0, one or two bytes without a sign, four or
      eight with one. */
  predicate IsInteger(b: seq<byte>, cookie: nat, i: int) {
    || (cookie == 0 && b == [] && i == 0)
    || (cookie == 1 && |b| == 1 && i == b[0])
    || (cookie == 2 && |b| == 2 && i == b[0] as int + 0x100 * b[1] as int)
    || (cookie == 4 && |b| == 4 && Denotes(WordOf(b), i, 0x1_0000_0000))
    || (cookie == 6 && |b| == 8 && Denotes(LongOf(b), i, 0x1_0000_0000_0000_0000))
  }

  /** What is behind the first byte, by type and cookie: nil (0), a boolean (1), a number
      (2), a pointer (3), a string of less than 32 bytes (4), and a string behind its length
      in two or four bytes (5). */
  predicate IsBody(t: nat, cookie: nat, b: seq<byte>, v: Plain) {
    match v
    case PNil => t == 0 && b == []
    case PAtom(Bool(x)) => t == 1 && b == [] && (x <==> cookie != 0)
    case PAtom(Int(i)) => t == 2 && IsInteger(b, cookie, i)
    case PAtom(Real(w)) => t == 2 && cookie == 8 && |b| == 8 && w == LongOf(b)
    case PAtom(Pointer(w)) => t == 3 && |b| == 8 && w == LongOf(b)
    case PAtom(Str(s)) =>
      || (t == 4 && |s| == cookie && b == s)
      || (t == 5 && cookie == 2 && |b| == 2 + |s| && b[0] as int + 0x100 * b[1] as int == |s| && b[2..] == s)
      || (t == 5 && cookie == 4 && |b| == 4 + |s| && WordOf(b) == |s| && b[4..] == s)
    case PTable(_) => false
  }

  /** The low three bits of the first byte are the type, the others the cookie. */
  predicate IsAtom(b: seq<byte>, v: Plain) {
    b != [] && IsBody(b[0] % 8, b[0] / 8, b[1..], v)
  }

  lemma LeNatTwo(b: seq<byte>)
    requires |b| == 2
    ensures LeNat(b) == b[0] as nat + 0x100 * b[1] as nat
  {
    assert b[1..][1..] == [] && LeNat(b[1..]) == b[1];
  }

  lemma LeNatOne(b: seq<byte>)
    requires |b| == 1
    ensures LeNat(b) == b[0]
  {
    assert b[1..] == [];
  }

  lemma Front(b: seq<byte>, rest: seq<byte>, n: nat)
    requires n <= |b| + |rest|
    ensures (b + rest)[n..] == rest <==> n == |b|
    ensures n == |b| ==> (b + rest)[..n] == b
    ensures n <= |b| ==> (b + rest)[..n] == b[..n]
  {
  }

  lemma SignedIs(n: nat, width: nat, i: int)
    requires (width == 4 || width == 8) && n < Pow256(width)
    ensures Signed(n, width) == i <==> Denotes(n, i, Pow256(width))
  {
    PowValues();
  }

  lemma NumberIs(s: seq<byte>, width: nat, signed: bool)
    requires width == 1 || width == 2 || width == 4 || width == 8
    requires signed <==> width >= 4
    ensures |s| < width ==> Number(s, width, signed) == Invalid
    ensures |s| >= width ==>
      Number(s, width, signed) ==
        Got(if signed then Signed(LeNat(s[..width]), width) else LeNat(s[..width]), s[width..])
  {
  }

  lemma SmallExactly(b: seq<byte>, rest: seq<byte>, cookie: nat, i: int64)
    requires cookie == 1 || cookie == 2
    ensures GetInteger(b + rest, cookie) == Got(i, rest) <==> IsInteger(b, cookie, i)
  {
    var s := b + rest;
    NumberIs(s, cookie, false);
    if |s| >= cookie {
      Front(b, rest, cookie);
      if cookie == 1 { LeNatOne(s[..1]); } else { LeNatTwo(s[..2]); }
    }
  }

  lemma SignedExactly(b: seq<byte>, rest: seq<byte>, cookie: nat, i: int64)
    requires cookie == 4 || cookie == 6
    ensures GetInteger(b + rest, cookie) == Got(i, rest) <==> IsInteger(b, cookie, i)
  {
    var s, width := b + rest, if cookie == 4 then 4 else 8;
    NumberIs(s, width, true);
    PowValues();
    if |s| >= width {
      Front(b, rest, width);
      LeBound(s[..width]);
      SignedIs(LeNat(s[..width]), width, i);
      if width == 4 { LeNatFour(s[..4]); } else { LeNatEight(s[..8]); }
    }
  }

  lemma IntegerExactly(b: seq<byte>, rest: seq<byte>, cookie: nat, i: int64)
    ensures GetInteger(b + rest, cookie) == Got(i, rest) <==> IsInteger(b, cookie, i)
  {
    if cookie == 1 || cookie == 2 {
      SmallExactly(b, rest, cookie, i);
    } else if cookie == 4 || cookie == 6 {
      SignedExactly(b, rest, cookie, i);
    } else {
      Front(b, rest, 0);
      assert (b + rest)[0..] == b + rest;
    }
  }

  lemma LongExactly(b: seq<byte>, rest: seq<byte>, w: word64)
    ensures GetWord(b + rest) == Got(w, rest) <==> |b| == 8 && w == LongOf(b)
  {
    var s := b + rest;
    ReadLong(s);
    if |s| >= 8 {
      Front(b, rest, 8);
      assert |b| == 8 ==> LongOf(s) == LongOf(b);
    }
  }

  lemma ShortExactly(b: seq<byte>, rest: seq<byte>, n: nat, x: seq<byte>)
    ensures Take(b + rest, n) == Got(x, rest) <==> |b| == n && x == b
  {
    if n <= |b + rest| { Front(b, rest, n); }
  }

  lemma LongStringExactly(b: seq<byte>, rest: seq<byte>, width: nat, x: seq<byte>)
    requires width == 2 || width == 4
    ensures GetLongString(b + rest, width) == Got(x, rest) <==>
            |b| == width + |x| && LeNat(b[..width]) == |x| && b[width..] == x
  {
    var s := b + rest;
    if width <= |s| {
      var n := LeNat(s[..width]);
      if n <= |s| - width {
        Front(b, rest, width + n);
        assert s[width..][..n] == s[width..width + n] && s[width..][n..] == s[width + n..];
      }
      if width <= |b| {
        Front(b, rest, width);
      }
    }
  }

  lemma StringExactly(t: nat, cookie: nat, b: seq<byte>, rest: seq<byte>, v: Plain)
    requires t == 4 || t == 5
    ensures GetAtom(b + rest, t, cookie) == Got(v, rest) <==> IsBody(t, cookie, b, v)
  {
    if v.PAtom? && v.a.Str? {
      if t == 4 {
        ShortExactly(b, rest, cookie, v.a.s);
      } else if cookie == 2 || cookie == 4 {
        LongStringExactly(b, rest, cookie, v.a.s);
        if cookie == 2 && |b| >= 2 { LeNatTwo(b[..2]); }
        if cookie == 4 && |b| >= 4 { LeNatFour(b[..4]); }
      }
    }
  }

  lemma NumberExactly(cookie: nat, b: seq<byte>, rest: seq<byte>, v: Plain)
    ensures GetAtom(b + rest, 2, cookie) == Got(v, rest) <==> IsBody(2, cookie, b, v)
  {
    if v.PAtom? && v.a.Int? {
      IntegerExactly(b, rest, cookie, v.a.i);
    }
    if v.PAtom? && v.a.Real? {
      LongExactly(b, rest, v.a.real64);
    }
  }

  lemma BodyExactly(t: nat, cookie: nat, b: seq<byte>, rest: seq<byte>, v: Plain)
    requires t != 6
    ensures GetAtom(b + rest, t, cookie) == Got(v, rest) <==> IsBody(t, cookie, b, v)
  {
    if t == 4 || t == 5 {
      StringExactly(t, cookie, b, rest, v);
    } else if t == 2 {
      NumberExactly(cookie, b, rest, v);
    } else if t == 3 {
      if v.PAtom? && v.a.Pointer? {
        LongExactly(b, rest, v.a.p);
      }
    } else {
      Front(b, rest, 0);
      assert (b + rest)[0..] == b + rest;
    }
  }

  lemma {:induction false} HashIsTable(s: seq<byte>, m: map<Scalar, Plain>)
    ensures DecodeHash(s, m).Got? ==> DecodeHash(s, m).value.PTable?
    decreases |s|
  {
    var k := Decode(s);
    if k.Got? && k.value.PAtom? {
      var v := Decode(k.rest);
      if v.Got? {
        HashIsTable(v.rest, RawSet(m, k.value.a, v.value));
      }
    }
  }

  lemma TableIsTable(s: seq<byte>, cookie: nat)
    requires cookie < 32
    ensures DecodeTable(s, cookie).Got? ==> DecodeTable(s, cookie).value.PTable?
  {
    var n := GetSize(s, cookie);
    if n.Got? {
      var m := DecodeArray(n.rest, 1, n.value, map[]);
      if m.Got? { HashIsTable(m.rest, m.value); }
    }
  }

  /** unpack_one reads a value that is no table from `b`, and stops before `rest`, exactly
      when these are its bytes. */
  lemma AtomExactly(b: seq<byte>, rest: seq<byte>, v: Plain)
    requires b != [] && !v.PTable?
    ensures Decode(b + rest) == Got(v, rest) <==> IsAtom(b, v)
  {
    var s, body := b + rest, b[1..];
    assert s[0] == b[0] && s[1..] == body + rest;
    if b[0] % 8 == 6 {
      TableIsTable(s[1..], s[0] / 8);
    } else {
      BodyExactly(b[0] % 8, b[0] / 8, body, rest, v);
    }
  }

  // ------------------------------------------------------------ the shortest form

  /** An integer takes no more bytes than its range needs. */
  lemma IntegerLength(i: int64)
    ensures |EncodeInteger(i)| ==
            if i == 0 then 1 else if 0 < i < 0x100 then 2 else if 0 < i < 0x1_0000 then 3
            else if -0x8000_0000 <= i < 0x8000_0000 then 5 else 9
  {
  }

  /** So do the length of a string and the number of items of a table. */
  lemma StringLength(s: seq<byte>, n: int)
    requires 0 <= n < 0x8000_0000
    ensures |EncodeString(s)| == |s| + if |s| < 32 then 1 else if |s| < 0x1_0000 then 3 else 5
    ensures |EncodeSize(n)| == 1 <==> n < 31
  {
  }

  // ------------------------------------------------------------ what can be packed

  /** Everything but what Lua has no type for here, with tables nested at most `levels`
      deep below the value; an empty table counts for nothing. */
  ghost predicate Packable(v: Value, levels: nat) {
    match v
    case Nil => true
    case Atom(_) => true
    case Table(n, es) =>
      (n == 0 && es == []) || (levels > 0 && forall i :: 0 <= i < |es| ==> Packable(es[i].value, levels - 1))
    case Other => false
  }
}
