/** A stream of length-prefixed frames: a big-endian length of two or four bytes
    and then that many bytes.  The parsers of netpack, gate and harbor are proved
    against the parse of the whole byte string that is defined here. */
module Framing {
  import opened Wrappers
  import opened Bytes

  /** The width of the length field. */
  type Header = h: nat | h == 2 || h == 4 witness 2

  function Limit(h: Header): nat { if h == 2 then 0x10000 else 0x1_0000_0000 }

  function SizeOf(h: Header, s: seq<byte>): (n: nat)
    requires |s| >= h
    ensures n < Limit(h)
  {
    if h == 2 then 0x100 * (s[0] as int) + s[1]
    else 0x1000000 * (s[0] as int) + 0x10000 * (s[1] as int) + 0x100 * (s[2] as int) + s[3]
  }

  function SizeBytes(h: Header, n: nat): (s: seq<byte>)
    ensures |s| == h
  {
    if h == 2 then [(n / 0x100) % 256, n % 256]
    else [(n / 0x1000000) % 256, (n / 0x10000) % 256, (n / 0x100) % 256, n % 256]
  }

  /** The four base-256 digits of a 32-bit number. */
  lemma Digits(n: nat, a: nat, b: nat, c: nat, d: nat)
    requires a < 256 && b < 256 && c < 256 && d < 256
    requires n == 0x1000000 * a + 0x10000 * b + 0x100 * c + d
    ensures (n / 0x1000000) % 256 == a && (n / 0x10000) % 256 == b && (n / 0x100) % 256 == c && n % 256 == d
  {
    assert n / 0x100 == 0x10000 * a + 0x100 * b + c;
    assert n / 0x10000 == 0x100 * a + b;
    assert n / 0x1000000 == a;
  }

  lemma DigitsExist(n: nat) returns (a: nat, b: nat, c: nat, d: nat)
    requires n < 0x1_0000_0000
    ensures a < 256 && b < 256 && c < 256 && d < 256
    ensures n == 0x1000000 * a + 0x10000 * b + 0x100 * c + d
  {
    var q1 := n / 256;
    var q2 := q1 / 256;
    var q3 := q2 / 256;
    a, b, c, d := q3, q2 % 256, q1 % 256, n % 256;
  }

  lemma SizeRoundTrip(h: Header, n: nat, s: seq<byte>)
    requires n < Limit(h) && |s| >= h && s[..h] == SizeBytes(h, n)
    ensures SizeOf(h, s) == n
  {
    assert s[0] == s[..h][0] && s[1] == s[..h][1];
    if h == 4 {
      assert s[2] == s[..h][2] && s[3] == s[..h][3];
      var a, b, c, d := DigitsExist(n);
      Digits(n, a, b, c, d);
    }
  }

  lemma SizeBytesOf(h: Header, s: seq<byte>)
    requires |s| >= h
    ensures SizeBytes(h, SizeOf(h, s)) == s[..h]
  {
    if h == 4 {
      Digits(SizeOf(h, s), s[0], s[1], s[2], s[3]);
    }
  }

  /** `s` starts with a whole frame. */
  predicate Complete(h: Header, s: seq<byte>) {
    |s| >= h && |s| >= h + SizeOf(h, s)
  }

  /** The bodies of the whole frames at the front of `s`. */
  function Parse(h: Header, s: seq<byte>): seq<seq<byte>>
    decreases |s|
  {
    if Complete(h, s) then
      var n := h + SizeOf(h, s);
      [s[h..n]] + Parse(h, s[n..])
    else []
  }

  /** What is left after them: a proper prefix of one frame. */
  function Rest(h: Header, s: seq<byte>): seq<byte>
    decreases |s|
  {
    if Complete(h, s) then Rest(h, s[h + SizeOf(h, s)..]) else s
  }

  lemma {:induction false} RestIncomplete(h: Header, s: seq<byte>)
    ensures !Complete(h, Rest(h, s))
    decreases |s|
  {
    if Complete(h, s) {
      RestIncomplete(h, s[h + SizeOf(h, s)..]);
    }
  }

  /** Chunking does not matter: parsing a longer stream continues from the rest
      of the shorter one. */
  lemma {:induction false} ParseAppend(h: Header, s: seq<byte>, t: seq<byte>)
    ensures Parse(h, s + t) == Parse(h, s) + Parse(h, Rest(h, s) + t)
    ensures Rest(h, s + t) == Rest(h, Rest(h, s) + t)
    decreases |s|
  {
    if Complete(h, s) {
      var n := SizeOf(h, s);
      var tail := s[h + n..];
      ParseFirst(h, s, n);
      ParseLonger(h, s, t, n);
      ParseAppend(h, tail, t);
      Assoc([s[h..h + n]], Parse(h, tail), Parse(h, Rest(h, tail) + t));
    } else {
      ParseNone(h, s);
    }
  }

  lemma SizeOfPrefix(h: Header, s: seq<byte>, t: seq<byte>)
    requires |s| >= h
    ensures SizeOf(h, s + t) == SizeOf(h, s)
  {
  }

  lemma ParseFirst(h: Header, s: seq<byte>, n: nat)
    requires |s| >= h && n == SizeOf(h, s) && |s| >= h + n
    ensures Parse(h, s) == [s[h..h + n]] + Parse(h, s[h + n..]) && Rest(h, s) == Rest(h, s[h + n..])
  {
  }

  lemma ParseLonger(h: Header, s: seq<byte>, t: seq<byte>, n: nat)
    requires |s| >= h && n == SizeOf(h, s) && |s| >= h + n
    ensures Parse(h, s + t) == [s[h..h + n]] + Parse(h, s[h + n..] + t)
    ensures Rest(h, s + t) == Rest(h, s[h + n..] + t)
  {
    SizeOfPrefix(h, s, t);
    ParseFirst(h, s + t, n);
    assert (s + t)[h + n..] == s[h + n..] + t;
    assert (s + t)[h..h + n] == s[h..h + n];
  }

  lemma ParseNone(h: Header, s: seq<byte>)
    requires !Complete(h, s)
    ensures Parse(h, s) == [] && Rest(h, s) == s
  {
  }

  function Frame(h: Header, body: seq<byte>): seq<byte> {
    SizeBytes(h, |body|) + body
  }

  /** One whole frame followed by anything. */
  lemma ParseStep(h: Header, body: seq<byte>, t: seq<byte>)
    requires |body| < Limit(h)
    ensures Parse(h, Frame(h, body) + t) == [body] + Parse(h, t)
    ensures Rest(h, Frame(h, body) + t) == Rest(h, t)
  {
    var s := Frame(h, body) + t;
    assert s[..h] == SizeBytes(h, |body|);
    SizeRoundTrip(h, |body|, s);
    ParseFirst(h, s, |body|);
    assert s[h..h + |body|] == body && s[h + |body|..] == t;
  }

  function Frames(h: Header, bodies: seq<seq<byte>>): seq<byte> {
    if bodies == [] then [] else Frame(h, bodies[0]) + Frames(h, bodies[1..])
  }

  /** Framing is undone by parsing, for any bodies that fit the length field. */
  lemma {:induction false} ParseFrames(h: Header, bodies: seq<seq<byte>>)
    requires forall i :: 0 <= i < |bodies| ==> |bodies[i]| < Limit(h)
    ensures Parse(h, Frames(h, bodies)) == bodies && Rest(h, Frames(h, bodies)) == []
  {
    if bodies == [] {
      ParseNone(h, []);
    } else {
      ParseStep(h, bodies[0], Frames(h, bodies[1..]));
      ParseFrames(h, bodies[1..]);
    }
  }
}
