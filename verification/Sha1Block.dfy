/** SHA1_Transform of lsha1.c: eighty rounds that expand the block in place, in sixteen
    words, and rename the working variables instead of moving them. */
module Sha1Block {
  import Sha1
  import Bytes

  type octet = bv8
  type word = bv32

  /** The working variables, and the state. */
  datatype Five = Five(a: word, b: word, c: word, d: word, e: word)

  /** The words of a block. */
  type Words = m: seq<word> | |m| == 16 witness seq(16, _ => 0 as word)

  // ------------------------------------------------------------ the standard

  function Rotl(x: word, n: bv8): word
    requires n <= 32
  {
    (x << n) | (x >> (32 - n))
  }

  /** FIPS 180-4 section 4.1.1. */
  function F(t: nat, x: word, y: word, z: word): word {
    if t < 20 then (x & y) ^ (!x & z)
    else if 40 <= t < 60 then (x & y) ^ (x & z) ^ (y & z)
    else x ^ y ^ z
  }

  /** Section 4.2.1. */
  function K(t: nat): word {
    if t < 20 then 0x5a827999 else if t < 40 then 0x6ed9eba1 else if t < 60 then 0x8f1bbcdc else 0xca62c1d6
  }

  /** The message schedule of section 6.1.2. */
  function W(m: Words, t: nat): word {
    if t < 16 then m[t] else Rotl(W(m, t - 3) ^ W(m, t - 8) ^ W(m, t - 14) ^ W(m, t - 16), 1)
  }

  /** One round: the sum of the last variable, the function, the schedule, the constant and
      the first variable turned is the new first one. */
  function Round(s: Five, t: nat, w: word): Five {
    Five(Sum(s.e, F(t, s.b, s.c, s.d), w, K(t), Rotl(s.a, 5)), s.a, Rotl(s.b, 30), s.c, s.d)
  }

  /** The sum that a macro adds up. */
  function Sum(e: word, f: word, w: word, k: word, a: word): word {
    e + (f + w + k + a)
  }

  /** It is the one of the standard. */
  lemma SumIs(e: word, f: word, w: word, k: word, a: word)
    ensures Sum(e, f, w, k, a) == a + f + e + k + w
  {
  }

  function Rounds(s: Five, m: Words, t: nat): Five {
    if t == 0 then s else Round(Rounds(s, m, t - 1), t - 1, W(m, t - 1))
  }

  /** The state after a block: eighty rounds, five for each word, are added to it. */
  function Compress(s: Five, m: Words): Five {
    Plus(s, Rounds(s, m, 5 * |m|))
  }

  function Plus(s: Five, r: Five): Five {
    Five(s.a + r.a, s.b + r.b, s.c + r.c, s.d + r.d, s.e + r.e)
  }

  /** The words of a block have their high byte first. */
  function WordsOf(b: seq<octet>): Words
    requires |b| == 64
  {
    seq(16, i requires 0 <= i < 16 => BigWord(b[4 * i], b[4 * i + 1], b[4 * i + 2], b[4 * i + 3]))
  }

  function BigWord(b0: octet, b1: octet, b2: octet, b3: octet): word {
    0x100_0000 * (b0 as word) + 0x1_0000 * (b1 as word) + 0x100 * (b2 as word) + (b3 as word)
  }

  /** The constants are the square roots of 2, 3, 5 and 10, times 2^30. */
  lemma RootsOf(t: nat)
    requires t < 80
    ensures var n, k := if t < 20 then 2 else if t < 40 then 3 else if t < 60 then 5 else 10, K(t) as nat;
            k * k <= n * 0x1000_0000_0000_0000 < (k + 1) * (k + 1)
  {
  }

  // ------------------------------------------------------------ the macros

  /** The union of bytes and words on a machine with the low byte first. */
  function Loaded(b0: octet, b1: octet, b2: octet, b3: octet): word {
    (b0 as word) | ((b1 as word) << 8) | ((b2 as word) << 16) | ((b3 as word) << 24)
  }

  /** blk0. */
  function Swapped(l: word): word {
    (Rotl(l, 24) & 0xFF00FF00) | (Rotl(l, 8) & 0x00FF00FF)
  }

  lemma SwapLoads(b0: octet, b1: octet, b2: octet, b3: octet)
    ensures Swapped(Loaded(b0, b1, b2, b3)) == BigWord(b0, b1, b2, b3)
  {
    SwapWords(b0 as word, b1 as word, b2 as word, b3 as word);
  }

  lemma SwapWords(b0: word, b1: word, b2: word, b3: word)
    requires b0 < 0x100 && b1 < 0x100 && b2 < 0x100 && b3 < 0x100
    ensures Swapped(b0 | (b1 << 8) | (b2 << 16) | (b3 << 24)) ==
            0x100_0000 * b0 + 0x1_0000 * b1 + 0x100 * b2 + b3
  {
  }

  /** The functions as the macros R0 .. R4 compute them. */
  function Mixed(t: nat, w: word, x: word, y: word): word {
    if t < 20 then (w & (x ^ y)) ^ y
    else if 40 <= t < 60 then ((w | x) & y) | (w & x)
    else w ^ x ^ y
  }

  lemma Choice(w: word, x: word, y: word)
    ensures (w & (x ^ y)) ^ y == (w & x) ^ (!w & y)
    ensures ((w | x) & y) | (w & x) == (w & x) ^ (w & y) ^ (x & y)
  {
  }

  /** The sixteen words hold the schedule of the rounds before `t`. */
  ghost predicate Holds(block: seq<word>, m: Words, t: nat) {
    |block| == 16 && t >= 16 && forall j :: t - 16 <= j < t ==> block[j % 16] == W(m, j)
  }

  lemma Around(t: nat, a: nat)
    requires a <= 16 && t >= 16
    ensures (t + a) % 16 == (t - (16 - a)) % 16
  {
    assert t + a == t - (16 - a) + 16;
  }

  lemma NextWord(s: seq<word>, m: Words, t: nat, w: word)
    requires t >= 16 && Holds(s, m, t)
    requires w == Rotl(s[(t + 13) % 16] ^ s[(t + 8) % 16] ^ s[(t + 2) % 16] ^ s[t % 16], 1)
    ensures w == W(m, t) && Holds(s[t % 16 := w], m, t + 1)
  {
    Around(t, 13);
    Around(t, 8);
    Around(t, 2);
    Around(t, 0);
    assert s[(t - 3) % 16] == W(m, t - 3) && s[(t - 8) % 16] == W(m, t - 8);
    assert s[(t - 14) % 16] == W(m, t - 14) && s[(t - 16) % 16] == W(m, t - 16);
    Stored(s, m, t, w);
  }

  lemma Stored(s: seq<word>, m: Words, t: nat, w: word)
    requires Holds(s, m, t) && w == W(m, t)
    ensures Holds(s[t % 16 := w], m, t + 1)
  {
  }

  /** blk(t). */
  method Expand(block: array<word>, ghost m: Words, t: nat) returns (w: word)
    requires block.Length == 16 && t >= 16 && Holds(block[..], m, t)
    modifies block
    ensures w == W(m, t) && Holds(block[..], m, t + 1)
  {
    w := Rotl(block[(t + 13) % 16] ^ block[(t + 8) % 16] ^ block[(t + 2) % 16] ^ block[t % 16], 1);
    NextWord(block[..], m, t, w);
    ghost var s := block[..];
    block[t % 16] := w;
    assert block[..] == s[t % 16 := w];
  }

  lemma MixedIsF(t: nat, w: word, x: word, y: word)
    ensures Mixed(t, w, x, y) == F(t, w, x, y)
  {
    Choice(w, x, y);
  }

  /** One macro R0 .. R4: it changes the last variable and turns the second one. */
  method Step(t: nat, v: word, w: word, x: word, y: word, z: word, b: word) returns (w': word, z': word)
    ensures Five(z', v, w', x, y) == Round(Five(v, w, x, y, z), t, b)
  {
    var f, k, r := Mixed(t, w, x, y), K(t), Rotl(v, 5);
    z', w' := Sum(z, f, b, k, r), Rotl(w, 30);
    MixedIsF(t, w, x, y);
  }

  /** blk0(t) for the first rounds and blk(t) afterwards; before its turn a word is as it
      was loaded. */
  ghost predicate Ready(block: seq<word>, l: seq<word>, m: Words, t: nat) {
    if t >= 16 then Holds(block, m, t)
    else
      && |block| == |l| == 16
      && (forall j :: 0 <= j < t ==> block[j] == m[j])
      && (forall j :: t <= j < 16 ==> block[j] == l[j])
  }

  ghost predicate LoadedFrom(l: seq<word>, m: Words) {
    |l| == 16 && forall j :: 0 <= j < 16 ==> Swapped(l[j]) == m[j]
  }

  method Blk(block: array<word>, ghost l: seq<word>, ghost m: Words, t: nat) returns (w: word)
    requires block.Length == 16 && Ready(block[..], l, m, t) && LoadedFrom(l, m)
    modifies block
    ensures w == W(m, t) && Ready(block[..], l, m, t + 1)
  {
    if t < 16 {
      w := Swapped(block[t]);
      block[t] := w;
    } else {
      w := Expand(block, m, t);
    }
  }

  /** Five rounds: the variables are then back in their places. */
  method FiveRounds(block: array<word>, ghost l: seq<word>, ghost m: Words, t: nat, ghost h: Five, s: Five)
    returns (s': Five)
    requires block.Length == 16 && Ready(block[..], l, m, t) && LoadedFrom(l, m) && s == Rounds(h, m, t)
    modifies block
    ensures Ready(block[..], l, m, t + 5) && s' == Rounds(h, m, t + 5)
  {
    var a, b, c, d, e := s.a, s.b, s.c, s.d, s.e;
    var w := Blk(block, l, m, t);
    b, e := Step(t, a, b, c, d, e, w);
    RoundsNext(h, m, t, Five(e, a, b, c, d));
    w := Blk(block, l, m, t + 1);
    a, d := Step(t + 1, e, a, b, c, d, w);
    RoundsNext(h, m, t + 1, Five(d, e, a, b, c));
    w := Blk(block, l, m, t + 2);
    e, c := Step(t + 2, d, e, a, b, c, w);
    RoundsNext(h, m, t + 2, Five(c, d, e, a, b));
    w := Blk(block, l, m, t + 3);
    d, b := Step(t + 3, c, d, e, a, b, w);
    RoundsNext(h, m, t + 3, Five(b, c, d, e, a));
    w := Blk(block, l, m, t + 4);
    c, a := Step(t + 4, b, c, d, e, a, w);
    RoundsNext(h, m, t + 4, Five(a, b, c, d, e));
    s' := Five(a, b, c, d, e);
  }

  lemma RoundsNext(h: Five, m: Words, t: nat, s: Five)
    requires s == Round(Rounds(h, m, t), t, W(m, t))
    ensures s == Rounds(h, m, t + 1)
  {
  }

  /** SHA1_Transform, its eighty rounds not unrolled. */
  method TransformBlock(state: array<word>, buffer: seq<octet>)
    requires state.Length == 5 && |buffer| == 64
    modifies state
    ensures StateOf(state) == Compress(old(StateOf(state)), WordsOf(buffer))
  {
    var h := StateOf(state);
    var s := AllRounds(h, buffer);
    s := Plus(h, s);
    state[0], state[1], state[2], state[3], state[4] := s.a, s.b, s.c, s.d, s.e;
  }

  function StateOf(state: array<word>): Five
    requires state.Length == 5
    reads state
  {
    Five(state[0], state[1], state[2], state[3], state[4])
  }

  method AllRounds(h: Five, buffer: seq<octet>) returns (s: Five)
    requires |buffer| == 64
    ensures s == Rounds(h, WordsOf(buffer), 5 * |WordsOf(buffer)|)
  {
    var block := Load(buffer);
    ghost var l, m := block[..], WordsOf(buffer);
    s := h;
    for turn := 0 to 16
      invariant Ready(block[..], l, m, 5 * turn) && s == Rounds(h, m, 5 * turn)
    {
      s := FiveRounds(block, l, m, 5 * turn, h, s);
    }
  }

  /** memcpy into the union. */
  method Load(buffer: seq<octet>) returns (block: array<word>)
    requires |buffer| == 64
    ensures fresh(block) && block.Length == 16 && LoadedFrom(block[..], WordsOf(buffer))
  {
    block := new word[16](_ => 0);
    for i := 0 to 16
      invariant forall j :: 0 <= j < i ==> Swapped(block[j]) == WordsOf(buffer)[j]
    {
      block[i] := Loaded(buffer[4 * i], buffer[4 * i + 1], buffer[4 * i + 2], buffer[4 * i + 3]);
      SwapLoads(buffer[4 * i], buffer[4 * i + 1], buffer[4 * i + 2], buffer[4 * i + 3]);
    }
  }

  // ------------------------------------------------------------ in module Sha1

  /** The transform that the results of module Sha1 are about, on its integers. */
  function Transform(): Sha1.Transform {
    (s: Sha1.State, b: seq<Bytes.byte>) =>
      if |b| != 64 then s
      else
        var h := Five(s.a as word, s.b as word, s.c as word, s.d as word, s.e as word);
        var r := Compress(h, WordsOf(seq(64, i requires 0 <= i < 64 => b[i] as octet)));
        Sha1.State(r.a as int, r.b as int, r.c as int, r.d as int, r.e as int)
  }
}
