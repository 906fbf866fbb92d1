/** The UTF-8 check of lua-bson.c: utf8_copy copies one character, and refuses what is
    not the encoding of a code point. */
module Utf8 {
  import opened Bytes

  const MAXUNICODE: nat := 0x10FFFF

  // ------------------------------------------------------------ the standard

  /** Section 3 of RFC 3629, but surrogates are code points too. */
  function Encoded(code: nat): (e: seq<byte>)
    requires code <= 0x10FFFF
    ensures 1 <= |e| <= 4
  {
    if code < 0x80 then [code]
    else if code < 0x800 then [0xC0 + code / 64, 0x80 + code % 64]
    else if code < 0x10000 then [0xE0 + code / 4096, 0x80 + code / 64 % 64, 0x80 + code % 64]
    else [0xF0 + code / 262144, 0x80 + code / 4096 % 64, 0x80 + code / 64 % 64, 0x80 + code % 64]
  }

  type CodePoint = c: nat | c <= 0x10FFFF

  function EncodedAll(codes: seq<CodePoint>): seq<byte> {
    if codes == [] then [] else Encoded(codes[0]) + EncodedAll(codes[1..])
  }

  // ------------------------------------------------------------ one character

  /** How many bytes the first byte announces behind itself: the ones after the first. */
  function Follow(b: byte): (k: nat)
    ensures k <= 7
  {
    if b < 0xC0 then 0 else if b < 0xE0 then 1 else if b < 0xF0 then 2 else if b < 0xF8 then 3
    else if b < 0xFC then 4 else if b < 0xFE then 5 else if b == 0xFE then 6 else 7
  }

  predicate Tail(b: byte) {
    0x80 <= b < 0xC0
  }

  /** How many bytes at the front continue a character, up to `k`. */
  function Run(s: seq<byte>, k: nat): (n: nat)
    ensures n <= k && n <= |s|
    ensures forall i :: 0 <= i < n ==> Tail(s[i])
    ensures n < k && n < |s| ==> !Tail(s[n])
  {
    if k == 0 || s == [] || !Tail(s[0]) then 0 else 1 + Run(s[1..], k - 1)
  }

  function Six(b: byte): nat {
    b % 64
  }

  function Bits(s: seq<byte>): nat {
    if s == [] then 0 else 64 * Bits(s[..|s| - 1]) + Six(s[|s| - 1])
  }

  /** The code point of a first byte and `k` bytes behind it. */
  function Code(b: byte, s: seq<byte>): nat
    requires 1 <= |s| <= 3
  {
    if |s| == 1 then (b as int % 32) * 64 + Bits(s)
    else if |s| == 2 then (b as int % 16) * 4096 + Bits(s)
    else (b as int % 8) * 262144 + Bits(s)
  }

  function Limit(k: nat): nat {
    if k == 1 then 0x7F else if k == 2 then 0x7FF else 0xFFFF
  }

  /** The length of the character at the front, or 0 when there is none. */
  function Char(s: seq<byte>): (n: nat)
    ensures n <= |s|
  {
    if s == [] then 0
    else if s[0] < 0x80 then 1
    else
      var k := Follow(s[0]);
      if k == 0 || k > 3 || Run(s[1..], k) < k then 0
      else if Limit(k) < Code(s[0], s[1..k + 1]) <= MAXUNICODE then k + 1
      else 0
  }

  /** How many bytes are stored before the character is accepted or refused. */
  function Stored(s: seq<byte>): nat {
    if s == [] then 0 else if s[0] < 0x80 then 1 else 1 + Run(s[1..], Follow(s[0]))
  }

  /** All of it is characters. */
  predicate Valid(s: seq<byte>) {
    s == [] || (Char(s) > 0 && Valid(s[Char(s)..]))
  }

  /** How many bytes are stored when the copy of all characters stops. */
  function Copied(s: seq<byte>): nat {
    if s == [] then 0
    else if Char(s) == 0 then Stored(s)
    else Char(s) + Copied(s[Char(s)..])
  }

  // ------------------------------------------------------------ against the standard

  lemma EncodedChar(code: CodePoint, t: seq<byte>)
    ensures Char(Encoded(code) + t) == |Encoded(code)|
  {
    var e := Encoded(code);
    var s := e + t;
    if code >= 0x80 {
      var k := |e| - 1;
      assert s[1..k + 1] == e[1..];
      RunIs(s[1..], k, k);
      CodeOfEncoded(code);
    }
  }

  lemma {:induction false} RunIs(s: seq<byte>, k: nat, n: nat)
    requires n <= k && n <= |s| && forall i :: 0 <= i < n ==> Tail(s[i])
    requires n == k || n == |s| || !Tail(s[n])
    ensures Run(s, k) == n
  {
    if n > 0 {
      RunIs(s[1..], k - 1, n - 1);
    }
  }

  lemma BitsValues(s: seq<byte>)
    requires 1 <= |s| <= 3
    ensures |s| == 1 ==> Bits(s) == Six(s[0])
    ensures |s| == 2 ==> Bits(s) == 64 * Six(s[0]) + Six(s[1])
    ensures |s| == 3 ==> Bits(s) == 4096 * Six(s[0]) + 64 * Six(s[1]) + Six(s[2])
  {
    if |s| == 2 {
      assert s[..1][..0] == [];
    } else if |s| == 3 {
      assert s[..2][..1][..0] == [] && s[..2][..1] == [s[0]];
    }
  }

  lemma Digits64(n: nat, a: nat, b: nat, c: nat, d: nat)
    requires b < 64 && c < 64 && d < 64 && n == 262144 * a + 4096 * b + 64 * c + d
    ensures n / 262144 == a && n / 4096 % 64 == b && n / 64 % 64 == c && n % 64 == d
  {
    assert n / 64 == 4096 * a + 64 * b + c;
    assert n / 4096 == 64 * a + b;
  }

  lemma CodeOfEncoded(code: CodePoint)
    requires code >= 0x80
    ensures var e := Encoded(code); Code(e[0], e[1..]) == code && Follow(e[0]) == |e| - 1
  {
    var q1 := code / 64;
    var q2 := q1 / 64;
    var q3 := q2 / 64;
    Digits64(code, q3, q2 % 64, q1 % 64, code % 64);
    var e := Encoded(code);
    BitsValues(e[1..]);
    if code < 0x800 {
      TwoOf(e, code);
    } else if code < 0x10000 {
      ThreeOf(e, code, code / 4096, q1 % 64, code % 64);
    } else {
      FourOf(e, code, q3, q2 % 64, q1 % 64, code % 64);
    }
  }

  lemma TwoOf(e: seq<byte>, code: nat)
    requires 0x80 <= code < 0x800 && e == [0xC0 + code / 64, 0x80 + code % 64] && Bits(e[1..]) == Six(e[1])
    ensures Code(e[0], e[1..]) == code && Follow(e[0]) == 1
  {
  }

  lemma ThreeOf(e: seq<byte>, code: nat, a: nat, b: nat, c: nat)
    requires a < 16 && b < 64 && c < 64 && code == 4096 * a + 64 * b + c
    requires e == [0xE0 + a, 0x80 + b, 0x80 + c] && Bits(e[1..]) == 64 * Six(e[1]) + Six(e[2])
    ensures Code(e[0], e[1..]) == code && Follow(e[0]) == 2
  {
  }

  lemma FourOf(e: seq<byte>, code: nat, a: nat, b: nat, c: nat, d: nat)
    requires a < 8 && b < 64 && c < 64 && d < 64 && code == 262144 * a + 4096 * b + 64 * c + d
    requires e == [0xF0 + a, 0x80 + b, 0x80 + c, 0x80 + d]
    requires Bits(e[1..]) == 4096 * Six(e[1]) + 64 * Six(e[2]) + Six(e[3])
    ensures Code(e[0], e[1..]) == code && Follow(e[0]) == 3
  {
  }

  /** A character is exactly the encoding of a code point. */
  lemma CharExactly(s: seq<byte>)
    ensures Char(s) > 0 <==> exists code: CodePoint :: |Encoded(code)| <= |s| && s[..|Encoded(code)|] == Encoded(code)
  {
    if code: CodePoint :| |Encoded(code)| <= |s| && s[..|Encoded(code)|] == Encoded(code) {
      EncodedChar(code, s[|Encoded(code)|..]);
      assert s == Encoded(code) + s[|Encoded(code)|..];
    }
    if Char(s) > 0 {
      var _ := CodeOf(s);
    }
  }

  /** The code point that a character encodes. */
  lemma CodeOf(s: seq<byte>) returns (code: CodePoint)
    requires Char(s) > 0
    ensures |Encoded(code)| == Char(s) && s[..Char(s)] == Encoded(code)
  {
    if s[0] < 0x80 {
      code := s[0];
    } else {
      var k := Follow(s[0]);
      code := Code(s[0], s[1..k + 1]);
      assert forall i :: 0 <= i < k ==> Tail(s[1..][i]);
      BitsValues(s[1..k + 1]);
      CodeBytes(s[..k + 1], code);
    }
  }

  lemma CodeBytes(e: seq<byte>, code: CodePoint)
    requires 2 <= |e| <= 4 && Follow(e[0]) == |e| - 1 && forall i :: 1 <= i < |e| ==> Tail(e[i])
    requires code == Code(e[0], e[1..]) && Limit(|e| - 1) < code
    ensures Encoded(code) == e
  {
    BitsValues(e[1..]);
    if |e| == 2 {
      TwoBytes(e[0], e[1], code);
    } else if |e| == 3 {
      ThreeBytes(e[0], e[1], e[2], code);
    } else {
      FourBytes(e[0], e[1], e[2], e[3], code);
    }
  }

  lemma TwoBytes(a: byte, b: byte, code: nat)
    requires 0xC0 <= a < 0xE0 && Tail(b) && code == (a as int % 32) * 64 + Six(b)
    ensures 0xC0 + code / 64 == a && 0x80 + code % 64 == b && code < 0x800
  {
  }

  lemma ThreeBytes(a: byte, b: byte, c: byte, code: nat)
    requires 0xE0 <= a < 0xF0 && Tail(b) && Tail(c) && code == (a as int % 16) * 4096 + (64 * Six(b) + Six(c))
    ensures 0xE0 + code / 4096 == a && 0x80 + code / 64 % 64 == b && 0x80 + code % 64 == c && code < 0x10000
  {
    assert code / 64 == (a as int % 16) * 64 + Six(b);
  }

  lemma FourBytes(a: byte, b: byte, c: byte, d: byte, code: nat)
    requires 0xF0 <= a < 0xF8 && Tail(b) && Tail(c) && Tail(d)
    requires code == (a as int % 8) * 262144 + (4096 * Six(b) + 64 * Six(c) + Six(d))
    ensures 0xF0 + code / 262144 == a && 0x80 + code / 4096 % 64 == b
    ensures 0x80 + code / 64 % 64 == c && 0x80 + code % 64 == d
  {
    assert code / 64 == (a as int % 8) * 4096 + 64 * Six(b) + Six(c);
    assert code / 4096 == (a as int % 8) * 64 + Six(b);
  }

  /** What passes is exactly the encodings of sequences of code points. */
  lemma {:induction false} ValidExactly(s: seq<byte>)
    ensures Valid(s) <==> exists codes :: EncodedAll(codes) == s
    decreases |s|
  {
    if Valid(s) {
      var _ := CodesOf(s);
    }
    if codes :| EncodedAll(codes) == s {
      ValidEncoded(codes);
    }
  }

  lemma {:induction false} CodesOf(s: seq<byte>) returns (codes: seq<CodePoint>)
    requires Valid(s)
    ensures EncodedAll(codes) == s
    decreases |s|
  {
    if s == [] {
      codes := [];
    } else {
      var n := Char(s);
      var code := CodeOf(s);
      var rest := CodesOf(s[n..]);
      codes := [code] + rest;
      assert codes[1..] == rest && s == s[..n] + s[n..];
    }
  }

  lemma {:induction false} ValidEncoded(codes: seq<CodePoint>)
    ensures Valid(EncodedAll(codes))
  {
    if codes != [] {
      ValidEncoded(codes[1..]);
      EncodedChar(codes[0], EncodedAll(codes[1..]));
      var s := EncodedAll(codes);
      assert s[|Encoded(codes[0])|..] == EncodedAll(codes[1..]);
    }
  }

  // ------------------------------------------------------------ copying

  function Shifted(b: nat, k: nat): nat {
    if k == 0 then b else 2 * Shifted(b, k - 1)
  }

  /** Bit 6 of a first byte that is shifted left says whether another byte follows. */
  lemma BitSix(b: byte, k: nat)
    requires 0x80 <= b && k <= Follow(b)
    ensures Shifted(b, k) / 64 % 2 == 1 <==> k < Follow(b)
  {
    assert Shifted(b, 1) == 2 * b as int && Shifted(b, 2) == 2 * Shifted(b, 1) && Shifted(b, 3) == 2 * Shifted(b, 2);
    assert Shifted(b, 4) == 2 * Shifted(b, 3) && Shifted(b, 5) == 2 * Shifted(b, 4);
    assert Shifted(b, 6) == 2 * Shifted(b, 5) && Shifted(b, 7) == 2 * Shifted(b, 6);
    BitOf(b, k, Shifted(b, k));
  }

  lemma BitOf(b: nat, k: nat, c: nat)
    requires 0x80 <= b < 256 && k <= 7
    requires c == b * (if k == 0 then 1 else if k == 1 then 2 else if k == 2 then 4 else if k == 3 then 8
                       else if k == 4 then 16 else if k == 5 then 32 else if k == 6 then 64 else 128)
    requires k <= Follow(b)
    ensures c / 64 % 2 == 1 <==> k < Follow(b)
  {
  }

  lemma ShiftedValues(b: nat)
    ensures Shifted(b, 1) == 2 * b && Shifted(b, 2) == 4 * b && Shifted(b, 3) == 8 * b
  {
    assert Shifted(b, 2) == 2 * Shifted(b, 1);
  }

  lemma LeadOne(b: nat, x: nat)
    requires x < 32 && b == 0xC0 + x
    ensures Shifted(b, 1) % 128 * 32 == x * 64 && b % 32 == x
  {
    ShiftedValues(b);
    assert 2 * b == 128 * 3 + 2 * x;
  }

  lemma LeadTwo(b: nat, x: nat)
    requires x < 16 && b == 0xE0 + x
    ensures Shifted(b, 2) % 128 * 1024 == x * 4096 && b % 16 == x
  {
    ShiftedValues(b);
    assert 4 * b == 128 * 7 + 4 * x;
  }

  lemma LeadThree(b: nat, x: nat)
    requires x < 8 && b == 0xF0 + x
    ensures Shifted(b, 3) % 128 * 32768 == x * 262144 && b % 8 == x
  {
    ShiftedValues(b);
    assert 8 * b == 128 * 15 + 8 * x;
  }

  /** What a shifted first byte of `k` announced bytes adds. */
  function Lead(c: nat, k: nat): nat {
    c % 128 * (if k == 0 then 1 else if k == 1 then 32 else if k == 2 then 1024 else 32768)
  }

  lemma LeadBits(b: byte, tail: seq<byte>)
    requires 1 <= |tail| <= 3 && Follow(b) == |tail|
    ensures Code(b, tail) == Bits(tail) + Lead(Shifted(b, |tail|), |tail|)
  {
    if |tail| == 1 {
      LeadOne(b, b - 0xC0);
    } else if |tail| == 2 {
      LeadTwo(b, b - 0xE0);
    } else {
      LeadThree(b, b - 0xF0);
    }
  }

  lemma BitsSnoc(t: seq<byte>, b: byte)
    ensures Bits(t + [b]) == 64 * Bits(t) + Six(b)
  {
    assert (t + [b])[..|t|] == t;
  }

  /** `t` is behind the first byte of `s` and continues a character. */
  ghost predicate Behind(s: seq<byte>, t: seq<byte>) {
    |t| < |s| && forall i :: 0 <= i < |t| ==> t[i] == s[i + 1] && Tail(t[i])
  }

  lemma RunBehind(s: seq<byte>, k: nat, t: seq<byte>)
    requires Behind(s, t) && |t| <= k && (|t| == k || |t| + 1 == |s| || !Tail(s[|t| + 1]))
    ensures Run(s[1..], k) == |t|
  {
    var r := s[1..];
    forall i | 0 <= i < |t| ensures Tail(r[i]) {
      assert t[i] == s[i + 1];
    }
    RunIs(r, k, |t|);
  }

  lemma CharIs(s: seq<byte>, t: seq<byte>)
    requires s != [] && s[0] >= 0x80 && Behind(s, t) && |t| == Follow(s[0])
    ensures Stored(s) == |t| + 1
    ensures Char(s) == if 1 <= |t| <= 3 && Limit(|t|) < Bits(t) + Lead(Shifted(s[0], |t|), |t|) <= MAXUNICODE
                       then |t| + 1 else 0
  {
    RunBehind(s, |t|, t);
    assert s[1..|t| + 1] == t;
    if 1 <= |t| <= 3 {
      LeadBits(s[0], t);
    }
  }

  lemma CharStops(s: seq<byte>, t: seq<byte>)
    requires s != [] && s[0] >= 0x80 && Behind(s, t) && |t| < Follow(s[0]) && (|t| + 1 == |s| || !Tail(s[|t| + 1]))
    ensures Stored(s) == |t| + 1 && Char(s) == 0
  {
    RunBehind(s, Follow(s[0]), t);
  }

  /** The string in front of the NUL that ends it in memory. */
  function Before(m: seq<byte>): seq<byte>
    requires m != []
  {
    m[..|m| - 1]
  }

  /** utf8_copy from memory that ends in a NUL: the length of the character, or 0, and
      how many bytes were stored.  It reads no further than the NUL. */
  method CopyChar(m: seq<byte>, limit: nat) returns (n: nat, stored: nat)
    requires m != [] && m[|m| - 1] == 0 && limit >= 1 && limit >= |m| - 1
    ensures |m| > 1 ==> n == Char(Before(m)) && stored == Stored(Before(m))
    ensures |m| == 1 ==> n == 1 && stored == 1
  {
    var c: nat := m[0];
    if c < 0x80 {
      return 1, 1;
    }
    ghost var s, k := Before(m), Follow(m[0]);
    ghost var tail: seq<byte> := [];
    var count, res := 0, 0;
    BitSix(m[0], 0);
    while c / 64 % 2 == 1
      invariant count <= k && count + 1 < |m| && c == Shifted(m[0], count) && (c / 64 % 2 == 1 <==> count < k)
      invariant |tail| == count && Behind(s, tail)
      invariant res == Bits(tail)
      decreases k - count
    {
      count := count + 1;
      var cc := m[count];
      if limit <= count || !Tail(cc) {
        CharStops(s, tail);
        return 0, count;
      }
      BitsSnoc(tail, cc);
      tail := tail + [cc];
      res := 64 * res + cc as int % 64;
      c := 2 * c;
      BitSix(m[0], count);
    }
    CharIs(s, tail);
    stored := count + 1;
    if count > 3 {
      return 0, stored;
    }
    // The bits are disjoint.
    res := res + Lead(c, count);
    if res > MAXUNICODE || res <= (if count == 0 then 0xFF else Limit(count)) {
      return 0, stored;
    }
    n := count + 1;
  }

  lemma {:induction false} CopiedBound(s: seq<byte>)
    ensures Copied(s) <= |s|
    ensures s != [] ==> Char(s) <= Stored(s) <= Copied(s)
    decreases |s|
  {
    if s != [] && Char(s) > 0 {
      CopiedBound(s[Char(s)..]);
    }
  }

  /** The copy of `s` has got to `p`: what is behind `p` is valid if all of it is, and
      stores what is left of `k` bytes. */
  ghost predicate Reached(s: seq<byte>, p: nat, valid: bool, k: nat) {
    p <= |s| && (valid <==> Valid(s[p..])) && k == p + Copied(s[p..])
  }

  /** What the copy of one character says at `p`. */
  ghost predicate Next(s: seq<byte>, p: nat, c: nat, stored: nat) {
    p <= |s| && if p < |s| then c == Char(s[p..]) && stored == Stored(s[p..]) else c == stored == 1
  }

  lemma ReachedNext(s: seq<byte>, p: nat, valid: bool, k: nat, c: nat, stored: nat)
    requires Reached(s, p, valid, k) && p < |s| && Next(s, p, c, stored)
    ensures c > 0 ==> Reached(s, p + c, valid, k)
    ensures c == 0 ==> !valid && k == p + stored
    ensures c <= stored && p + stored <= k
  {
    var t := s[p..];
    CopiedBound(t);
    assert t[c..] == s[p + c..];
  }

  lemma ReachedBound(s: seq<byte>, p: nat, valid: bool, k: nat)
    requires Reached(s, p, valid, k)
    ensures p <= |s| && k <= |s| && (p == |s| ==> valid)
  {
    CopiedBound(s[p..]);
    if p == |s| {
      assert s[p..] == [];
    }
  }

  method CopyNext(m: seq<byte>, p: nat, limit: nat) returns (c: nat, stored: nat)
    requires p < |m| && m[|m| - 1] == 0 && limit >= 1 && p + limit >= |m| - 1
    ensures Next(Before(m), p, c, stored)
  {
    assert Before(m[p..]) == Before(m)[p..] && m[p..][|m| - p - 1] == m[|m| - 1];
    c, stored := CopyChar(m[p..], limit);
  }

  /** How a copy ends: all is copied, a character is refused, or the copy leaves the
      string or the memory that it may write. */
  datatype Copying = Done | Refused | Outside

  ghost predicate Going(m: seq<byte>, p: nat, valid: bool, k: nat)
    requires m != []
  {
    p <= |m| && if p < |m| then Reached(Before(m), p, valid, k) else valid
  }

  /** One round of the loop of write_string; nothing when it goes on. */
  method CopyRound(m: seq<byte>, p: nat, limit: nat, room: nat, ghost valid: bool, ghost k: nat)
    returns (c: nat, o: Copying)
    requires m != [] && m[|m| - 1] == 0 && limit >= 1 && p + limit >= |m| - 1 && p <= room
    requires Going(m, p, valid, k)
    ensures o.Done? ==> 0 < c && p + c <= room && Going(m, p + c, valid, k) && (p < |m| - 1 ==> p + c < |m|)
    ensures o.Refused? ==> !valid && k <= room
    ensures o.Outside? ==> p >= |m| || p + 1 == |m| || k > room
    ensures p >= |m| - 1 ==> valid && !o.Refused? && (o.Done? ==> p + 1 == |m| && c == 1)
  {
    if p >= |m| {
      return 0, Outside;
    }
    var stored;
    ReachedBound(Before(m), p, valid, k);
    c, stored := CopyNext(m, p, limit);
    if p < |m| - 1 {
      ReachedNext(Before(m), p, valid, k, c, stored);
    }
    o := if p + stored > room then Outside else if c == 0 then Refused else Done;
  }

  /** The loop of write_string for a string in memory. */
  method CopyLoop(m: seq<byte>, sz: nat, room: nat, ghost valid: bool, ghost k: nat) returns (o: Copying)
    requires m != [] && m[|m| - 1] == 0 && (sz == |m| - 1 < room || sz > |m|)
    requires Going(m, 0, valid, k) && k <= |m| - 1
    ensures sz < |m| ==> o == if valid then Done else Refused
    ensures sz > |m| ==> o == if valid || k > room then Outside else Refused
  {
    var p, n := 0, sz;
    while n > 0
      invariant p <= |m| && n == sz - p && p <= room && Going(m, p, valid, k)
      decreases n
    {
      var c, r := CopyRound(m, p, n, room, valid, k);
      if !r.Done? {
        return r;
      }
      p, n := p + c, n - c;
    }
    EndReached(m, p, valid, k);
    o := Done;
  }

  lemma EndReached(m: seq<byte>, p: nat, valid: bool, k: nat)
    requires m != [] && p >= |m| - 1 && Going(m, p, valid, k)
    ensures valid
  {
    if p < |m| {
      ReachedBound(Before(m), p, valid, k);
    }
  }

  /** write_string copies `sz` bytes of a string in memory to a place with `room` bytes:
      for the size of the string, and for a size that is larger. */
  method CopyString(m: seq<byte>, sz: nat, room: nat) returns (o: Copying)
    requires m != [] && m[|m| - 1] == 0 && (sz == |m| - 1 < room || sz > |m|)
    ensures sz < |m| ==> o == if Valid(Before(m)) then Done else Refused
    ensures sz > |m| ==> o == if Valid(Before(m)) || Copied(Before(m)) > room then Outside else Refused
  {
    assert Before(m)[0..] == Before(m);
    CopiedBound(Before(m));
    o := CopyLoop(m, sz, room, Valid(Before(m)), Copied(Before(m)));
  }
}
