/** The streaming digest of lsha1.c and its HMAC, for any block transform. */
module Sha1 {
  import opened Wrappers
  import opened Bytes
  import opened Arith

  const BLOCKSIZE: nat := 64

  type word = x: int | 0 <= x < 0x1_0000_0000

  datatype State = State(a: word, b: word, c: word, d: word, e: word)

  const INIT: State := State(0x67452301, 0xEFCDAB89, 0x98BADCFE, 0x10325476, 0xC3D2E1F0)

  /** SHA1_Transform. */
  type Transform = (State, seq<byte>) -> State

  // ------------------------------------------------------------ the standard

  /** Hashing the first `n` 64-byte blocks of a message. */
  function Blocks(f: Transform, s: State, m: seq<byte>, n: nat): State
    requires 64 * n <= |m|
  {
    if n == 0 then s else f(Blocks(f, s, m, n - 1), m[64 * (n - 1)..64 * n])
  }

  /** Hashing all whole blocks. */
  function Absorb(f: Transform, s: State, m: seq<byte>): State {
    Blocks(f, s, m, |m| / 64)
  }

  function Zeros(n: nat): seq<byte> {
    seq(n, _ => 0)
  }

  function PadLength(n: nat): nat {
    (119 - n % 64) % 64
  }

  /** FIPS 180-4 section 5.1.1: a one bit, the fewest zeros that leave 64 bits
      of the last block, and a 64-bit bit count. */
  function Padded(m: seq<byte>, bits: nat): seq<byte> {
    m + [0x80] + Zeros(PadLength(|m|)) + BeBytes(bits, 8)
  }

  function BitCount(m: seq<byte>): nat {
    8 * |m| % 0x1_0000_0000_0000_0000
  }

  function DigestBytes(s: State): (d: seq<byte>)
    ensures |d| == 20
  {
    BeBytes(s.a, 4) + BeBytes(s.b, 4) + BeBytes(s.c, 4) + BeBytes(s.d, 4) + BeBytes(s.e, 4)
  }

  function WordAt(s: State, k: nat): word
    requires k < 5
  {
    match k case 0 => s.a case 1 => s.b case 2 => s.c case 3 => s.d case 4 => s.e
  }

  /** The words of the state follow each other, the high byte first. */
  lemma DigestAt(s: State, i: nat)
    requires i < 20
    ensures DigestBytes(s)[i] == WordAt(s, i / 4) / Pow256(3 - i % 4) % 256
  {
    var k, j := i / 4, i % 4;
    BeDigits(WordAt(s, k), 4, 3 - j);
    WordBytes(s, k);
    assert DigestBytes(s)[4 * k..4 * k + 4][j] == DigestBytes(s)[i];
  }

  lemma WordBytes(s: State, k: nat)
    requires k < 5
    ensures DigestBytes(s)[4 * k..4 * k + 4] == BeBytes(WordAt(s, k), 4)
  {
    var a, b, c, d, e := BeBytes(s.a, 4), BeBytes(s.b, 4), BeBytes(s.c, 4), BeBytes(s.d, 4), BeBytes(s.e, 4);
    FiveParts(a, b, c, d, e);
  }

  lemma FiveParts(a: seq<byte>, b: seq<byte>, c: seq<byte>, d: seq<byte>, e: seq<byte>)
    requires |a| == |b| == |c| == |d| == |e| == 4
    ensures var s := a + b + c + d + e; s[..4] == a && s[4..8] == b && s[8..12] == c && s[12..16] == d && s[16..20] == e
  {
  }

  function Digest(f: Transform, m: seq<byte>): (d: seq<byte>)
    ensures |d| == 20
  {
    DigestBytes(Absorb(f, INIT, Padded(m, BitCount(m))))
  }

  /** The initial words of FIPS 180-4 section 5.3.1 have the hexadecimal digits 0 .. f, f .. 0 and
      0f 1e 2d 3c in order, when their bytes are read from the right. */
  lemma InitialWords()
    ensures LeBytes(INIT.a, 4) == [0x01, 0x23, 0x45, 0x67] && LeBytes(INIT.b, 4) == [0x89, 0xab, 0xcd, 0xef]
    ensures LeBytes(INIT.c, 4) == [0xfe, 0xdc, 0xba, 0x98] && LeBytes(INIT.d, 4) == [0x76, 0x54, 0x32, 0x10]
    ensures LeBytes(INIT.e, 4) == [0xf0, 0xe1, 0xd2, 0xc3]
  {
    FourBytes(INIT.a, [0x01, 0x23, 0x45, 0x67]);
    FourBytes(INIT.b, [0x89, 0xab, 0xcd, 0xef]);
    FourBytes(INIT.c, [0xfe, 0xdc, 0xba, 0x98]);
    FourBytes(INIT.d, [0x76, 0x54, 0x32, 0x10]);
    FourBytes(INIT.e, [0xf0, 0xe1, 0xd2, 0xc3]);
  }

  lemma FourBytes(w: word, s: seq<byte>)
    requires |s| == 4 && w == WordOf(s)
    ensures LeBytes(w, 4) == s
  {
    LeNatFour(s);
    LeOfBytes(s);
  }

  // ------------------------------------------------------------ absorbing

  function Tail(m: seq<byte>): (t: seq<byte>)
    ensures |t| == |m| % 64
  {
    m[|m| - |m| % 64..]
  }

  lemma ModBlock(n: nat)
    ensures (n + 64) % 64 == n % 64
  {
  }

  lemma TailIsShort(m: seq<byte>)
    requires |m| >= 64
    ensures Tail(m[64..]) == Tail(m)
  {
    ModBlock(|m| - 64);
  }

  lemma {:induction false} TailAfterBlocks(m: seq<byte>, q: nat)
    requires 64 * q <= |m|
    ensures Tail(m[64 * q..]) == Tail(m)
  {
    if q > 0 {
      TailAfterBlocks(m[64..], q - 1);
      TailIsShort(m);
      assert m[64..][64 * (q - 1)..] == m[64 * q..];
    } else {
      assert m[0..] == m;
    }
  }

  lemma TailAppend(m: seq<byte>, d: seq<byte>)
    ensures Tail(m + d) == Tail(Tail(m) + d)
  {
    var q := |m| / 64;
    assert (m + d)[64 * q..] == Tail(m) + d;
    TailAfterBlocks(m + d, q);
  }

  lemma {:induction false} BlocksFront(f: Transform, s: State, m: seq<byte>, n: nat)
    requires 1 <= n && 64 * n <= |m|
    ensures Blocks(f, s, m, n) == Blocks(f, f(s, m[..64]), m[64..], n - 1)
  {
    if n > 1 {
      BlocksFront(f, s, m, n - 1);
      assert m[64..][64 * (n - 2)..64 * (n - 1)] == m[64 * (n - 1)..64 * n];
    } else {
      assert Blocks(f, s, m, n - 1) == s;
      assert m[64 * (n - 1)..64 * n] == m[..64];
    }
  }

  lemma AbsorbFront(f: Transform, s: State, m: seq<byte>)
    requires |m| >= 64
    ensures Absorb(f, s, m) == Absorb(f, f(s, m[..64]), m[64..])
  {
    BlocksFront(f, s, m, |m| / 64);
    assert |m[64..]| / 64 == |m| / 64 - 1;
  }

  lemma AbsorbStep(f: Transform, s: State, m: seq<byte>, d: seq<byte>)
    requires |m| >= 64
    ensures Absorb(f, s, m + d) == Absorb(f, f(s, m[..64]), m[64..] + d)
  {
    AbsorbFront(f, s, m + d);
    assert (m + d)[..64] == m[..64] && (m + d)[64..] == m[64..] + d;
  }

  lemma AbsorbNone(f: Transform, s: State, m: seq<byte>)
    requires |m| < 64
    ensures Absorb(f, s, m) == s && Tail(m) == m
  {
  }

  /** Only the unfinished block has to be remembered. */
  lemma {:induction false} AbsorbAppend(f: Transform, s: State, m: seq<byte>, d: seq<byte>)
    ensures Absorb(f, s, m + d) == Absorb(f, Absorb(f, s, m), Tail(m) + d)
    decreases |m|
  {
    if |m| < 64 {
      AbsorbNone(f, s, m);
    } else {
      TailIsShort(m);
      AbsorbFront(f, s, m);
      AbsorbAppend(f, f(s, m[..64]), m[64..], d);
      AbsorbStep(f, s, m, d);
    }
  }

  // ------------------------------------------------------------ counting

  /** The low count word gives the position in the buffer. */
  lemma PositionOf(n: nat)
    ensures (8 * n % 0x1_0000_0000) / 8 % 64 == n % 64
  {
    var q, r := 8 * n / 0x1_0000_0000, 8 * n % 0x1_0000_0000;
    assert r == 8 * (n - 0x2000_0000 * q);
    assert r / 8 == n - 0x2000_0000 * q == n - 64 * (0x80_0000 * q);
  }

  /** Whether the test of the low word's sum against `len << 3` sees the carry. */
  predicate CarrySeen(count0: word, len: nat) {
    8 * len % 0x1_0000_0000_0000_0000 < 0x1_0000_0000 || count0 + 8 * len % 0x1_0000_0000 >= 0x1_0000_0000
  }

  lemma ShortSeen(count0: word, len: nat)
    ensures len < 0x2000_0000 ==> CarrySeen(count0, len)
  {
  }

  /** A first update of 2^29 bytes adds a carry that is not there. */
  lemma LongUpdateMiscounts()
    ensures !CarrySeen(0, 0x2000_0000)
  {
  }

  function HighAfter(count0: word, count1: word, len: nat): word {
    var shifted := 8 * len % 0x1_0000_0000_0000_0000;
    var carry := if (count0 + shifted) % 0x1_0000_0000 < shifted then 1 else 0;
    (count1 + carry + len / 0x2000_0000) % 0x1_0000_0000
  }

  lemma LowAdd(n: nat, len: nat)
    ensures (8 * n % 0x1_0000_0000 + 8 * len % 0x1_0000_0000_0000_0000) % 0x1_0000_0000 == 8 * (n + len) % 0x1_0000_0000
  {
    var q1, r1 := 8 * n / 0x1_0000_0000, 8 * n % 0x1_0000_0000;
    var q2, r2 := 8 * len / 0x1_0000_0000_0000_0000, 8 * len % 0x1_0000_0000_0000_0000;
    assert r1 + r2 == 8 * (n + len) - 0x1_0000_0000 * (q1 + 0x1_0000_0000 * q2);
    ModShift(r1 + r2, q1 + 0x1_0000_0000 * q2);
  }

  lemma ModShift(x: nat, q: nat)
    ensures (x + 0x1_0000_0000 * q) % 0x1_0000_0000 == x % 0x1_0000_0000
  {
  }

  /** Each carry that is not seen is one too many. */
  lemma HighKept(n: nat, e: nat, len: nat)
    ensures var low, high := 8 * n % 0x1_0000_0000, (8 * n / 0x1_0000_0000 + e) % 0x1_0000_0000;
            HighAfter(low, high, len) ==
            (8 * (n + len) / 0x1_0000_0000 + e + if CarrySeen(low, len) then 0 else 1) % 0x1_0000_0000
  {
    var q1, r1 := 8 * n / 0x1_0000_0000, 8 * n % 0x1_0000_0000;
    var q2, low := 8 * len / 0x1_0000_0000, 8 * len % 0x1_0000_0000;
    var shifted := 8 * len % 0x1_0000_0000_0000_0000;
    LowOfShifted(8 * len);
    assert q2 == len / 0x2000_0000;
    var due := if r1 + low >= 0x1_0000_0000 then 1 else 0;
    assert 8 * (n + len) / 0x1_0000_0000 == q1 + q2 + due;
    var seen := if (r1 + shifted) % 0x1_0000_0000 < shifted then 1 else 0;
    assert seen == due + if CarrySeen(r1, len) then 0 else 1 by {
      if shifted < 0x1_0000_0000 {
        assert shifted == low;
      } else {
        assert seen == 1;
      }
    }
    ModAdd(q1 + e, seen + q2);
  }

  lemma ModAdd(q: nat, a: nat)
    ensures (q % 0x1_0000_0000 + a) % 0x1_0000_0000 == (q + a) % 0x1_0000_0000
  {
    var k, r := q / 0x1_0000_0000, q % 0x1_0000_0000;
    assert q + a == r + a + 0x1_0000_0000 * k;
    ModShift(r + a, k);
  }

  /** The high word counts on exactly when the carry is seen. */
  lemma HighAdd(n: nat, len: nat)
    ensures var low, high := 8 * n % 0x1_0000_0000, 8 * n / 0x1_0000_0000 % 0x1_0000_0000;
            HighAfter(low, high, len) == 8 * (n + len) / 0x1_0000_0000 % 0x1_0000_0000 <==> CarrySeen(low, len)
  {
    HighKept(n, 0, len);
    ErrorShows(8 * (n + len) / 0x1_0000_0000, 1);
  }

  lemma ErrorShows(q: nat, e: nat)
    ensures (q + e) % 0x1_0000_0000 == q % 0x1_0000_0000 <==> e % 0x1_0000_0000 == 0
  {
    var k, r := q / 0x1_0000_0000, q % 0x1_0000_0000;
    var l, d := e / 0x1_0000_0000, e % 0x1_0000_0000;
    assert q + e == r + d + 0x1_0000_0000 * (k + l);
    ModShift(r + d, k + l);
  }

  lemma LowOfShifted(x: nat)
    ensures (x % 0x1_0000_0000_0000_0000) % 0x1_0000_0000 == x % 0x1_0000_0000
  {
    var q, r := x / 0x1_0000_0000_0000_0000, x % 0x1_0000_0000_0000_0000;
    assert x == r + 0x1_0000_0000 * (0x1_0000_0000 * q);
    ModShift(r, 0x1_0000_0000 * q);
  }

  lemma MissedOne(e: nat, e': nat)
    requires e % 0x1_0000_0000 == 0 && e <= e' <= e + 1
    ensures e' % 0x1_0000_0000 == 0 <==> e' == e
  {
  }

  lemma FirstBlock(f: Transform, s: State, tail: seq<byte>, data: seq<byte>)
    requires |tail| < 64 <= |tail| + |data|
    ensures var i := 64 - |tail|; Absorb(f, s, tail + data) == Absorb(f, f(s, tail + data[..i]), data[i..])
  {
    var i := 64 - |tail|;
    AbsorbFront(f, s, tail + data);
    assert (tail + data)[..64] == tail + data[..i] && (tail + data)[64..] == data[i..];
  }

  lemma LastBlock(tail: seq<byte>, data: seq<byte>, i: nat, q: nat)
    requires |tail| < 64 && |tail| + i == 64 * q && i <= |data| < i + 64
    ensures Tail(tail + data) == data[i..]
  {
    var all := tail + data;
    TailAfterBlocks(all, q);
    assert all[64 * q..] == data[i..];
    assert Tail(data[i..]) == data[i..];
  }

  /** The unfinished block of a message is at the front of the buffer. */
  ghost predicate Kept(b: seq<byte>, m: seq<byte>)
    requires |b| == 64
  {
    forall i :: 0 <= i < |m| % 64 ==> b[i] == m[|m| - |m| % 64 + i]
  }

  lemma KeptTail(b: seq<byte>, m: seq<byte>)
    requires |b| == 64
    ensures Kept(b, m) <==> b[..|m| % 64] == Tail(m)
  {
    var t := Tail(m);
    assert forall i :: 0 <= i < |m| % 64 ==> t[i] == m[|m| - |m| % 64 + i] && b[..|m| % 64][i] == b[i];
  }

  // ------------------------------------------------------------ the context

  function Bits(count0: word, count1: word): nat {
    0x1_0000_0000 * count1 + count0
  }

  /** SHA1_CTX; `message` is everything that was given to Update. */
  class Context {
    ghost var message: seq<byte>
    /** The updates whose carry was not seen. */
    ghost var missed: nat
    const transform: Transform
    var state: State
    var count0: word
    var count1: word
    const buffer: array<byte>

    ghost predicate Valid()
      reads this, buffer
    {
      && buffer.Length == 64
      && state == Absorb(transform, INIT, message)
      && Kept(buffer[..], message)
      && count0 == 8 * |message| % 0x1_0000_0000
      && count1 == (8 * |message| / 0x1_0000_0000 + missed) % 0x1_0000_0000
    }

    /** The two count words hold the number of bits. */
    ghost predicate Counted()
      reads this
    {
      count1 == 8 * |message| / 0x1_0000_0000 % 0x1_0000_0000
    }

    /** sat_SHA1_Init. */
    constructor (f: Transform)
      ensures Valid() && Counted() && message == [] && missed == 0 && transform == f && fresh(buffer)
    {
      transform := f;
      state := INIT;
      count0, count1 := 0, 0;
      buffer := new byte[64];
      message, missed := [], 0;
    }

    /** sat_SHA1_Update: the message grows by the data, and the count stays right
        exactly when the carry is seen. */
    method Update(data: seq<byte>)
      requires Valid()
      modifies this, buffer
      ensures Valid() && message == old(message) + data
      ensures missed == old(missed) + if CarrySeen(old(count0), |data|) then 0 else 1
      ensures old(Counted()) ==> (Counted() <==> CarrySeen(old(count0), |data|))
      ensures old(Counted()) && |data| < 0x2000_0000 ==> Counted()
    {
      ghost var m := message;
      PositionOf(|m|);
      AbsorbAppend(transform, INIT, m, data);
      TailAppend(m, data);
      var j := count0 / 8 % 64;
      Count(|m|, |data|);
      message := m + data;
      KeptTail(buffer[..], m);
      Take(j, data, Tail(m));
      KeptTail(buffer[..], message);
    }

    /** The two count words after `len` more bytes. */
    method Count(ghost n: nat, len: nat)
      requires count0 == 8 * n % 0x1_0000_0000 && count1 == (8 * n / 0x1_0000_0000 + missed) % 0x1_0000_0000
      modifies this`count0, this`count1, this`missed
      ensures count0 == 8 * (n + len) % 0x1_0000_0000
      ensures count1 == (8 * (n + len) / 0x1_0000_0000 + missed) % 0x1_0000_0000
      ensures missed == old(missed) + if CarrySeen(old(count0), len) then 0 else 1
      ensures len < 0x2000_0000 ==> CarrySeen(old(count0), len)
      ensures old(count1) == 8 * n / 0x1_0000_0000 % 0x1_0000_0000 ==>
        (count1 == 8 * (n + len) / 0x1_0000_0000 % 0x1_0000_0000 <==> CarrySeen(old(count0), len))
    {
      ghost var was := missed;
      ErrorShows(8 * n / 0x1_0000_0000, missed);
      LowAdd(n, len);
      HighKept(n, missed, len);
      ShortSeen(count0, len);
      missed := missed + if CarrySeen(count0, len) then 0 else 1;
      count1 := HighAfter(count0, count1, len);
      count0 := (count0 + 8 * len % 0x1_0000_0000_0000_0000) % 0x1_0000_0000;
      if was % 0x1_0000_0000 == 0 { MissedOne(was, missed); }
      ErrorShows(8 * (n + len) / 0x1_0000_0000, missed);
    }

    /** The copying and hashing of sat_SHA1_Update, from position `j`. */
    method Take(j: nat, data: seq<byte>, ghost tail: seq<byte>)
      requires j < 64 && buffer.Length == 64 && buffer[..][..j] == tail
      modifies this`state, buffer
      ensures state == Absorb(transform, old(state), tail + data)
      ensures buffer[..][..|Tail(tail + data)|] == Tail(tail + data)
    {
      if j + |data| > 63 {
        Fill(j, data[..64 - j]);
        FirstBlock(transform, state, tail, data);
        assert buffer[..] == buffer[..j + |data[..64 - j]|];
        state := transform(state, buffer[..]);
        var i, q := WholeBlocks(data, 64 - j);
        LastBlock(tail, data, i, q + 1);
        Fill(0, data[i..]);
      } else {
        Fill(j, data);
        AbsorbNone(transform, state, tail + data);
      }
    }

    /** The loop of sat_SHA1_Update that hashes straight from the data. */
    method WholeBlocks(data: seq<byte>, start: nat) returns (i: nat, ghost q: nat)
      requires start <= |data|
      modifies this`state
      ensures i <= |data| < i + 64 && i == start + 64 * q
      ensures state == Absorb(transform, old(state), data[start..])
    {
      i, q := start, 0;
      while i + 63 < |data|
        invariant i <= |data| && i == start + 64 * q
        invariant Absorb(transform, old(state), data[start..]) == Absorb(transform, state, data[i..])
      {
        AbsorbFront(transform, state, data[i..]);
        assert data[i..][..64] == data[i..i + 64] && data[i..][64..] == data[i + 64..];
        state := transform(state, data[i..i + 64]);
        i, q := i + 64, q + 1;
      }
      AbsorbNone(transform, state, data[i..]);
    }

    /** memcpy into the buffer. */
    method Fill(at: nat, data: seq<byte>)
      requires buffer.Length == 64 && at + |data| <= 64
      modifies buffer
      ensures buffer[..at + |data|] == old(buffer[..at]) + data
    {
      for k := 0 to |data|
        invariant buffer[..at + k] == old(buffer[..at]) + data[..k]
      {
        buffer[at + k] := data[k];
      }
    }

    /** The loop of sat_SHA1_Final, after the one bit. */
    method PadZeros()
      requires Valid() && |message| > 0
      modifies this, buffer
      ensures Valid() && message == old(message) + Zeros(PadLength(|old(message)| - 1))
    {
      ghost var m, k: nat := message, 0;
      ghost var zeros := PadLength(|m| - 1);
      NoZeros(m);
      AtPosition(m, k);
      while count0 / 8 % 64 != 56
        invariant Valid() && message == m + Zeros(k) && k <= zeros
        invariant count0 / 8 % 64 == 56 <==> k == zeros
        decreases zeros - k
      {
        ZerosNext(m, k);
        Update([0]);
        k := k + 1;
        AtPosition(m, k);
      }
    }

    /** The position in the block after the first zeros. */
    lemma AtPosition(m: seq<byte>, k: nat)
      requires |m| > 0 && k <= PadLength(|m| - 1)
      requires |message| == |m| + k && count0 == 8 * |message| % 0x1_0000_0000
      ensures count0 / 8 % 64 == 56 <==> k == PadLength(|m| - 1)
    {
      PositionOf(|message|);
      ZerosEnd(|m| - 1, k);
    }

    /** The three updates of sat_SHA1_Final: the message is extended by the padding
        of the standard, with the bit count as it was kept. */
    method Pad()
      requires Valid()
      modifies this, buffer
      ensures Valid() && message == Padded(old(message), old(Bits(count0, count1)))
    {
      var finalcount := BeBytes(count1, 4) + BeBytes(count0, 4);
      CountBytes(count0, count1);
      Update([0x80]);
      PadZeros();
      Update(finalcount);
    }

    /** sat_SHA1_Final. */
    method Final() returns (digest: seq<byte>)
      requires Valid()
      modifies this, buffer
      ensures digest == DigestBytes(Absorb(transform, INIT, Padded(old(message), old(Bits(count0, count1)))))
      ensures old(Counted()) ==> digest == Digest(transform, old(message))
    {
      if Counted() {
        CountedBits(|message|, count1);
      }
      Pad();
      digest := WriteState(state);
      state, count0, count1 := State(0, 0, 0, 0, 0), 0, 0;
    }
  }

  /** The loop of sat_SHA1_Final over the digest. */
  method WriteState(s: State) returns (digest: seq<byte>)
    ensures digest == DigestBytes(s)
  {
    digest := [];
    for i := 0 to 20
      invariant digest == DigestBytes(s)[..i]
    {
      DigestAt(s, i);
      digest := digest + [WordAt(s, i / 4) / Pow256(3 - i % 4) % 256];
    }
  }

  lemma CountBytes(count0: word, count1: word)
    ensures BeBytes(count1, 4) + BeBytes(count0, 4) == BeBytes(Bits(count0, count1), 8)
  {
    PowValues();
    BeConcat(count1, 4, count0, 4);
    assert Pow256(4) == 0x1_0000_0000;
  }

  lemma {:induction false} BeConcat(hi: nat, j: nat, lo: nat, k: nat)
    requires lo < Pow256(k)
    ensures BeBytes(hi, j) + BeBytes(lo, k) == BeBytes(hi * Pow256(k) + lo, j + k)
  {
    if k == 0 {
      assert BeBytes(hi, j) + [] == BeBytes(hi, j);
    } else {
      BeConcat(hi, j, lo / 256, k - 1);
      var n := hi * Pow256(k) + lo;
      assert n == 256 * (hi * Pow256(k - 1) + lo / 256) + lo % 256;
      assert n / 256 == hi * Pow256(k - 1) + lo / 256 && n % 256 == lo % 256;
    }
  }

  lemma CountedBits(n: nat, count1: word)
    requires count1 == 8 * n / 0x1_0000_0000 % 0x1_0000_0000
    ensures Bits(8 * n % 0x1_0000_0000, count1) == 8 * n % 0x1_0000_0000_0000_0000
  {
    var q, r := 8 * n / 0x1_0000_0000, 8 * n % 0x1_0000_0000;
    var q', r' := q / 0x1_0000_0000, q % 0x1_0000_0000;
    assert 8 * n == 0x1_0000_0000_0000_0000 * q' + (0x1_0000_0000 * r' + r);
  }

  lemma NoZeros(m: seq<byte>)
    ensures m + Zeros(0) == m
  {
  }

  lemma ZerosNext(m: seq<byte>, k: nat)
    ensures m + Zeros(k) + [0] == m + Zeros(k + 1)
  {
  }

  /** The loop of Final writes the number of zeros that the standard asks for. */
  lemma ZerosEnd(n: nat, k: nat)
    requires k <= PadLength(n)
    ensures (n + 1 + k) % 64 == 56 <==> k == PadLength(n)
  {
  }

  /** The blocks hashed are those of the standard exactly when the count is right. */
  lemma PaddedExactly(m: seq<byte>, count0: word, count1: word)
    ensures Padded(m, Bits(count0, count1)) == Padded(m, BitCount(m)) <==> Bits(count0, count1) == BitCount(m)
  {
    var a, b := Bits(count0, count1), BitCount(m);
    PowValues();
    BeRoundTrip(a, 8);
    BeRoundTrip(b, 8);
    var p, q := Padded(m, a), Padded(m, b);
    assert p[|p| - 8..] == BeBytes(a, 8) && q[|q| - 8..] == BeBytes(b, 8);
  }

  // ------------------------------------------------------------ digests

  /** How many of the updates add a carry that is not there. */
  ghost function Missed(chunks: seq<seq<byte>>): nat {
    if chunks == [] then 0
    else
      var before, last := chunks[..|chunks| - 1], chunks[|chunks| - 1];
      Missed(before) + if CarrySeen(8 * |Flatten(before)| % 0x1_0000_0000, |last|) then 0 else 1
  }

  lemma MissedSnoc(chunks: seq<seq<byte>>, x: seq<byte>)
    ensures Missed(chunks + [x]) ==
            Missed(chunks) + if CarrySeen(8 * |Flatten(chunks)| % 0x1_0000_0000, |x|) then 0 else 1
  {
    assert (chunks + [x])[..|chunks|] == chunks;
  }

  lemma ChunkNext(chunks: seq<seq<byte>>, i: nat)
    requires i < |chunks|
    ensures Flatten(chunks[..i + 1]) == Flatten(chunks[..i]) + chunks[i]
    ensures Missed(chunks[..i + 1]) ==
            Missed(chunks[..i]) + if CarrySeen(8 * |Flatten(chunks[..i])| % 0x1_0000_0000, |chunks[i]|) then 0 else 1
  {
    assert chunks[..i + 1] == chunks[..i] + [chunks[i]];
    FlattenSnoc(chunks[..i], chunks[i]);
    MissedSnoc(chunks[..i], chunks[i]);
  }

  /** Short updates miss nothing. */
  lemma {:induction false} ShortMissNothing(chunks: seq<seq<byte>>)
    requires forall i :: 0 <= i < |chunks| ==> |chunks[i]| < 0x2000_0000
    ensures Missed(chunks) == 0
  {
    if chunks != [] {
      var before := chunks[..|chunks| - 1];
      ShortMissNothing(before);
      ShortSeen(8 * |Flatten(before)| % 0x1_0000_0000, |chunks[|chunks| - 1]|);
    }
  }

  /** The bit count as it is kept for `n` bytes with `e` carries too many. */
  function KeptBits(n: nat, e: nat): nat {
    Bits(8 * n % 0x1_0000_0000, (8 * n / 0x1_0000_0000 + e) % 0x1_0000_0000)
  }

  /** The count is right exactly when the carries too many are a multiple of 2^32. */
  lemma KeptExactly(m: seq<byte>, e: nat)
    ensures KeptBits(|m|, e) == BitCount(m) <==> e % 0x1_0000_0000 == 0
  {
    ErrorShows(8 * |m| / 0x1_0000_0000, e);
    CountedBits(|m|, 8 * |m| / 0x1_0000_0000 % 0x1_0000_0000);
  }

  /** What is hashed for a message whose count has `e` carries too many. */
  function KeptDigest(f: Transform, m: seq<byte>, e: nat): (d: seq<byte>)
    ensures |d| == 20
  {
    DigestBytes(Absorb(f, INIT, Padded(m, KeptBits(|m|, e))))
  }

  /** The blocks are those of the standard exactly then. */
  lemma KeptBlocks(f: Transform, m: seq<byte>, e: nat)
    ensures Padded(m, KeptBits(|m|, e)) == Padded(m, BitCount(m)) <==> e % 0x1_0000_0000 == 0
    ensures e % 0x1_0000_0000 == 0 ==> KeptDigest(f, m, e) == Digest(f, m)
  {
    KeptExactly(m, e);
    PaddedExactly(m, 8 * |m| % 0x1_0000_0000, (8 * |m| / 0x1_0000_0000 + e) % 0x1_0000_0000);
  }

  /** One update after the other. */
  method UpdateAll(ctx: Context, chunks: seq<seq<byte>>)
    requires ctx.Valid() && ctx.message == [] && ctx.missed == 0
    modifies ctx, ctx.buffer
    ensures ctx.Valid() && ctx.message == Flatten(chunks) && ctx.missed == Missed(chunks)
  {
    for i := 0 to |chunks|
      invariant ctx.Valid() && ctx.message == Flatten(chunks[..i]) && ctx.missed == Missed(chunks[..i])
    {
      ChunkNext(chunks, i);
      ctx.Update(chunks[i]);
    }
    assert chunks[..|chunks|] == chunks;
  }

  /** The digest of a context, by the carries that it missed. */
  method Finish(ctx: Context) returns (digest: seq<byte>)
    requires ctx.Valid()
    modifies ctx, ctx.buffer
    ensures digest == KeptDigest(ctx.transform, old(ctx.message), old(ctx.missed))
  {
    assert Bits(ctx.count0, ctx.count1) == KeptBits(|ctx.message|, ctx.missed);
    digest := ctx.Final();
  }

  /** Any split of a message into updates gives the digest of the whole message, as far as
      the carries are seen. */
  method HashChunks(f: Transform, chunks: seq<seq<byte>>) returns (digest: seq<byte>)
    ensures digest == KeptDigest(f, Flatten(chunks), Missed(chunks))
    ensures Missed(chunks) % 0x1_0000_0000 == 0 ==> digest == Digest(f, Flatten(chunks))
  {
    var ctx := new Context(f);
    UpdateAll(ctx, chunks);
    digest := Finish(ctx);
    KeptBlocks(f, Flatten(chunks), Missed(chunks));
  }

  /** lsha1. */
  method Sha1(f: Transform, text: seq<byte>) returns (digest: seq<byte>)
    ensures digest == KeptDigest(f, text, if CarrySeen(0, |text|) then 0 else 1)
    ensures CarrySeen(0, |text|) ==> digest == Digest(f, text)
  {
    var ctx := new Context(f);
    assert ctx.message + text == text && ctx.count0 == 0;
    digest := FinishWith(ctx, text);
  }

  // ------------------------------------------------------------ HMAC

  /** Exclusive or of the `k` low bits. */
  function XorBits(x: nat, y: nat, k: nat): (r: nat)
    ensures r < Pow2(k)
  {
    if k == 0 then 0 else (if x % 2 == y % 2 then 0 else 1) + 2 * XorBits(x / 2, y / 2, k - 1)
  }

  lemma {:induction false} XorAssoc(x: nat, a: nat, b: nat, k: nat)
    ensures XorBits(XorBits(x, a, k), b, k) == XorBits(x, XorBits(a, b, k), k)
  {
    if k > 0 {
      XorAssoc(x / 2, a / 2, b / 2, k - 1);
      var xa, ab := XorBits(x, a, k), XorBits(a, b, k);
      assert xa / 2 == XorBits(x / 2, a / 2, k - 1) && ab / 2 == XorBits(a / 2, b / 2, k - 1);
    }
  }

  function Xor(x: byte, y: byte): byte {
    assert Pow2(8) == 256;
    XorBits(x, y, 8)
  }

  lemma HalfOf(a: bv8)
    ensures (a >> 1) as int == (a as int) / 2 && (a & 1) as int == (a as int) % 2
  {
  }

  lemma HalvesOfXor(a: bv8, b: bv8)
    ensures (a ^ b) >> 1 == (a >> 1) ^ (b >> 1) && (a ^ b) & 1 == (if a & 1 == b & 1 then 0 else 1)
  {
  }

  lemma LowBits(a: bv8, b: bv8)
    ensures (a & 1) as int == (b & 1) as int <==> a & 1 == b & 1
  {
  }

  lemma XorStep(a: bv8, b: bv8)
    ensures (a ^ b) as int == (if (a as int) % 2 == (b as int) % 2 then 0 else 1) + 2 * ((a >> 1) ^ (b >> 1)) as int
  {
    HalfOf(a);
    HalfOf(b);
    HalfOf(a ^ b);
    HalvesOfXor(a, b);
    LowBits(a, b);
  }

  lemma ZeroBits(a: bv8, b: bv8)
    requires a as int == 0 && b as int == 0
    ensures (a ^ b) as int == 0
  {
    assert a == 0 && b == 0;
  }

  lemma XorBitsStep(x: nat, y: nat, k: nat, a: bv8, b: bv8, half: nat)
    requires k > 0 && x == a as int && y == b as int
    requires half == ((a >> 1) ^ (b >> 1)) as int && XorBits(x / 2, y / 2, k - 1) == half
    ensures XorBits(x, y, k) == (a ^ b) as int
  {
    XorStep(a, b);
  }

  lemma HalfBelow(x: nat, k: nat)
    requires k > 0 && x < Pow2(k)
    ensures x / 2 < Pow2(k - 1)
  {
  }

  /** The `k` low bits of two bytes, whose other bits are zero. */
  lemma {:induction false} XorBitsOf(x: nat, y: nat, k: nat, a: bv8, b: bv8)
    requires x == a as int && y == b as int && x < Pow2(k) && y < Pow2(k)
    ensures XorBits(x, y, k) == (a ^ b) as int
  {
    if k > 0 {
      var c, d := a >> 1, b >> 1;
      HalfOf(a);
      HalfOf(b);
      HalfBelow(x, k);
      HalfBelow(y, k);
      XorBitsOf(x / 2, y / 2, k - 1, c, d);
      XorBitsStep(x, y, k, a, b, (c ^ d) as int);
    } else {
      ZeroBits(a, b);
    }
  }

  /** The exclusive or of the processor. */
  lemma XorExactly(a: bv8, b: bv8)
    ensures Xor(a as int, b as int) == (a ^ b) as int
  {
    assert Pow2(8) == 256;
    var k: nat := 8;
    XorBitsOf(a as int, b as int, k, a, b);
  }

  lemma {:induction false} XorCancel(o: nat, p: nat, k: nat)
    requires p < Pow2(k)
    ensures XorBits(o, XorBits(o, p, k), k) == p
  {
    if k > 0 {
      XorCancel(o / 2, p / 2, k - 1);
      assert XorBits(o, p, k) / 2 == XorBits(o / 2, p / 2, k - 1);
    }
  }

  lemma XorReplaced(x: byte, o: byte, p: byte)
    ensures Xor(Xor(x, o), Xor(o, p)) == Xor(x, p)
  {
    assert Pow2(8) == 256;
    var k: nat := 8;
    XorAssoc(x, o, XorBits(o, p, k), k);
    XorCancel(o, p, k);
  }

  /** A second pass of xor_key replaces the outer pad by the inner one. */
  lemma XorPads(k: seq<byte>, o: byte, p: byte)
    ensures XorAll(XorAll(k, o), Xor(o, p)) == XorAll(k, p)
  {
    forall i | 0 <= i < |k| ensures Xor(Xor(k[i], o), Xor(o, p)) == Xor(k[i], p) {
      XorReplaced(k[i], o, p);
    }
  }

  function XorAll(k: seq<byte>, pad: byte): (r: seq<byte>) {
    seq(|k|, i requires 0 <= i < |k| => Xor(k[i], pad))
  }

  /** The key brought to the block size: RFC 2104 section 2. */
  function BlockKey(f: Transform, key: seq<byte>): (k: seq<byte>)
    ensures |k| == 64
  {
    if |key| > 64 then Digest(f, key) + Zeros(44) else key + Zeros(64 - |key|)
  }

  /** H(K xor opad, H(K xor ipad, text)). */
  function Hmac(f: Transform, key: seq<byte>, text: seq<byte>): seq<byte> {
    var k := BlockKey(f, key);
    Digest(f, XorAll(k, 0x5c) + Digest(f, XorAll(k, 0x36) + text))
  }

  /** Byte `i` of the key as HMAC uses it: a key longer than a block is hashed first, and
      what a block is longer is zero. */
  function KeyByte(f: Transform, key: seq<byte>, i: nat): byte {
    var k := if |key| > 64 then Digest(f, key) else key;
    if i < |k| then k[i] else 0
  }

  /** Every byte of the key is combined with the pad of RFC 2104 by exclusive or. */
  lemma PaddedKey(f: Transform, key: seq<byte>, k: seq<bv8>, pad: bv8)
    requires |k| == 64 && forall i :: 0 <= i < 64 ==> k[i] as int == KeyByte(f, key, i)
    ensures XorAll(BlockKey(f, key), pad as int) == seq(64, i requires 0 <= i < 64 => (k[i] ^ pad) as int)
  {
    forall i | 0 <= i < 64 ensures Xor(BlockKey(f, key)[i], pad as int) == (k[i] ^ pad) as int {
      assert BlockKey(f, key)[i] == KeyByte(f, key, i);
      XorExactly(k[i], pad);
    }
  }

  /** RFC 2104 section 2, with the key byte by byte. */
  lemma HmacExactly(f: Transform, key: seq<byte>, text: seq<byte>, k: seq<bv8>)
    requires |k| == 64 && forall i :: 0 <= i < 64 ==> k[i] as int == KeyByte(f, key, i)
    ensures var outer := seq(64, i requires 0 <= i < 64 => (k[i] ^ 0x5c) as int);
            var inner := seq(64, i requires 0 <= i < 64 => (k[i] ^ 0x36) as int);
            Hmac(f, key, text) == Digest(f, outer + Digest(f, inner + text))
  {
    PaddedKey(f, key, k, 0x5c);
    PaddedKey(f, key, k, 0x36);
  }

  /** xor_key: four equal bytes at a time. */
  method XorKey(key: array<byte>, pad: byte)
    requires key.Length == BLOCKSIZE
    modifies key
    ensures key[..] == XorAll(old(key[..]), pad)
  {
    var i := 0;
    while i < BLOCKSIZE
      invariant 0 <= i <= BLOCKSIZE && i % 4 == 0
      invariant forall j :: 0 <= j < i ==> key[j] == Xor(old(key[j]), pad)
      invariant forall j :: i <= j < BLOCKSIZE ==> key[j] == old(key[j])
    {
      key[i], key[i + 1], key[i + 2], key[i + 3] :=
        Xor(key[i], pad), Xor(key[i + 1], pad), Xor(key[i + 2], pad), Xor(key[i + 3], pad);
      i := i + 4;
    }
  }

  /** The key block that lhmac_sha1 starts from. */
  method KeyBlock(f: Transform, key: seq<byte>) returns (rkey: array<byte>)
    ensures fresh(rkey) && rkey.Length == BLOCKSIZE
    ensures |key| <= BLOCKSIZE || CarrySeen(0, |key|) ==> rkey[..] == BlockKey(f, key)
  {
    rkey := new byte[BLOCKSIZE](_ => 0);
    var k := key;
    if |key| > BLOCKSIZE {
      k := Sha1(f, key);
    }
    for i := 0 to |k|
      invariant rkey[..] == k[..i] + Zeros(64 - i)
    {
      rkey[i] := k[i];
    }
  }

  /** A context that was given one block. */
  method KeyedContext(f: Transform, rkey: array<byte>) returns (ctx: Context)
    requires rkey.Length == BLOCKSIZE
    ensures fresh(ctx) && fresh(ctx.buffer) && ctx.Valid() && ctx.missed == 0
    ensures ctx.transform == f && ctx.message == rkey[..] && ctx.count0 == 512
  {
    ctx := new Context(f);
    ctx.Update(rkey[..]);
    assert [] + rkey[..] == rkey[..];
  }

  /** lhmac_sha1: the formula of RFC 2104 for keys of any length, as far as the carries
      are seen. */
  method HmacSha1(f: Transform, key: seq<byte>, text: seq<byte>) returns (digest: seq<byte>)
    ensures |digest| == 20
    ensures (|key| <= BLOCKSIZE || CarrySeen(0, |key|)) && CarrySeen(512, |text|) ==> digest == Hmac(f, key, text)
  {
    var rkey := KeyBlock(f, key);
    ghost var k := rkey[..];
    var outer, inner := 0x5c, 0x36;
    XorKey(rkey, outer);
    var ctx1 := KeyedContext(f, rkey);
    XorKey(rkey, Xor(outer, inner));
    XorPads(k, outer, inner);
    var digest2 := Keyed(f, rkey, text);
    ShortSeen(512, |digest2|);
    digest := FinishWith(ctx1, digest2);
  }

  method Keyed(f: Transform, rkey: array<byte>, text: seq<byte>) returns (digest: seq<byte>)
    requires rkey.Length == BLOCKSIZE
    ensures |digest| == 20
    ensures CarrySeen(512, |text|) ==> digest == Digest(f, rkey[..] + text)
  {
    var ctx := KeyedContext(f, rkey);
    digest := FinishWith(ctx, text);
  }

  /** The last update of a context and its digest. */
  method FinishWith(ctx: Context, text: seq<byte>) returns (digest: seq<byte>)
    requires ctx.Valid() && ctx.missed == 0
    modifies ctx, ctx.buffer
    ensures |digest| == 20
    ensures var m := old(ctx.message) + text; var e := if CarrySeen(old(ctx.count0), |text|) then 0 else 1;
            digest == KeptDigest(ctx.transform, m, e) && (e == 0 ==> digest == Digest(ctx.transform, m))
  {
    ghost var m, e := ctx.message + text, if CarrySeen(ctx.count0, |text|) then 0 else 1;
    ctx.Update(text);
    assert ctx.message == m && ctx.missed == e;
    digest := Finish(ctx);
    KeptBlocks(ctx.transform, m, e);
  }
}
