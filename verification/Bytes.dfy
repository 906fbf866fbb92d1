/** Bytes, fixed-width integers in both byte orders, and a few sequence facts
    shared by the codecs. */
module Bytes {
  import opened Wrappers
  import opened Arith

  type byte = x: int | 0 <= x < 256

  function Pow256(k: nat): (p: nat)
    ensures p >= 1
  {
    if k == 0 then 1 else 256 * Pow256(k - 1)
  }

  lemma PowValues()
    ensures Pow256(1) == 0x100 && Pow256(2) == 0x10000 && Pow256(3) == 0x1000000
    ensures Pow256(4) == 0x1_0000_0000 && Pow256(8) == 0x1_0000_0000_0000_0000
  {
    assert Pow256(2) == 256 * Pow256(1);
    assert Pow256(3) == 256 * Pow256(2);
    assert Pow256(4) == 256 * Pow256(3);
    assert Pow256(5) == 256 * Pow256(4);
    assert Pow256(6) == 256 * Pow256(5);
    assert Pow256(7) == 256 * Pow256(6);
  }

  // ------------------------------------------------------------ big endian

  function BeNat(s: seq<byte>): nat {
    if s == [] then 0 else BeNat(s[..|s| - 1]) * 256 + s[|s| - 1]
  }

  lemma BeNatOne(b: byte)
    ensures BeNat([b]) == b
  {
    assert [b][..0] == [];
  }

  lemma BeNatLast(s: seq<byte>)
    requires s != []
    ensures BeNat(s) == BeNat(s[..|s| - 1]) * 256 + s[|s| - 1]
  {
  }

  lemma BeNatFour(s: seq<byte>)
    requires |s| == 4
    ensures BeNat(s) == 0x100_0000 * s[0] as nat + 0x1_0000 * s[1] as nat + 0x100 * s[2] as nat + s[3] as nat
    ensures BeNat(s[1..]) == 0x1_0000 * s[1] as nat + 0x100 * s[2] as nat + s[3] as nat
  {
    assert s[..3][..2] == s[..2] && s[..2][..1] == [s[0]];
    BeNatOne(s[0]);
    BeNatLast(s[..2]);
    BeNatLast(s[..3]);
    var t := s[1..];
    assert t[..2][..1] == [s[1]];
    BeNatOne(s[1]);
    BeNatLast(t[..2]);
    BeNatLast(t);
  }

  /** The `k` low bytes of `n`, most significant first. */
  function BeBytes(n: nat, k: nat): (s: seq<byte>)
    ensures |s| == k
  {
    if k == 0 then [] else BeBytes(n / 256, k - 1) + [n % 256]
  }

  lemma {:induction false} BeRoundTrip(n: nat, k: nat)
    requires n < Pow256(k)
    ensures BeNat(BeBytes(n, k)) == n
  {
    if k > 0 {
      BeRoundTrip(n / 256, k - 1);
      var s := BeBytes(n, k);
      assert s[..k - 1] == BeBytes(n / 256, k - 1);
    }
  }

  /** Byte `i` from the right is worth 256^i. */
  lemma {:induction false} BeDigits(n: nat, k: nat, i: nat)
    requires i < k
    ensures BeBytes(n, k)[k - 1 - i] == n / Pow256(i) % 256
  {
    if i > 0 {
      BeDigits(n / 256, k - 1, i - 1);
      DivDiv(n, Pow256(i - 1));
    }
  }

  lemma DivDiv(n: nat, p: nat)
    requires p > 0
    ensures n / (256 * p) == n / 256 / p
  {
    var q, r := n / (256 * p), n % (256 * p);
    var h := n / 256;
    assert n == 256 * (p * q) + r;
    assert h == p * q + r / 256;
    assert 0 <= r / 256 < p;
    DivUnique(h, p, q, r / 256);
  }

  // ------------------------------------------------------------ little endian

  function LeNat(s: seq<byte>): nat {
    if s == [] then 0 else s[0] + 256 * LeNat(s[1..])
  }

  function LeBytes(n: nat, k: nat): (s: seq<byte>)
    ensures |s| == k
  {
    if k == 0 then [] else [n % 256] + LeBytes(n / 256, k - 1)
  }

  lemma {:induction false} LeRoundTrip(n: nat, k: nat)
    requires n < Pow256(k)
    ensures LeNat(LeBytes(n, k)) == n
  {
    if k > 0 {
      LeRoundTrip(n / 256, k - 1);
      assert LeBytes(n, k)[1..] == LeBytes(n / 256, k - 1);
    }
  }

  /** Byte `i` from the left is worth 256^i. */
  lemma {:induction false} LeDigits(n: nat, k: nat, i: nat)
    requires i < k
    ensures LeBytes(n, k)[i] == n / Pow256(i) % 256
  {
    if i > 0 {
      LeDigits(n / 256, k - 1, i - 1);
      DivDiv(n, Pow256(i - 1));
    }
  }

  /** A 32-bit number, low byte first. */
  function WordOf(b: seq<byte>): nat
    requires |b| >= 4
  {
    b[0] as nat + 0x100 * b[1] as nat + 0x1_0000 * b[2] as nat + 0x100_0000 * b[3] as nat
  }

  lemma LeNatFour(b: seq<byte>)
    requires |b| == 4
    ensures LeNat(b) == WordOf(b)
  {
    assert b[1..][1..] == b[2..] && b[2..][1..] == b[3..] && b[3..][1..] == [];
    LeNatFirst(b[3..], 0);
    LeNatFirst(b[2..], b[3] as nat);
    LeNatFirst(b[1..], LeNat(b[2..]));
    LeNatFirst(b, LeNat(b[1..]));
  }

  /** A 64-bit number, low byte first. */
  function LongOf(b: seq<byte>): nat
    requires |b| >= 8
  {
    WordOf(b) + 0x1_0000_0000 * WordOf(b[4..])
  }

  lemma LeNatFirst(b: seq<byte>, x: nat)
    requires |b| >= 1 && LeNat(b[1..]) == x
    ensures LeNat(b) == b[0] as nat + 256 * x
  {
  }

  lemma LeNatEight(b: seq<byte>)
    requires |b| == 8
    ensures LeNat(b) == LongOf(b)
  {
    var x := WordOf(b[4..]);
    LeNatFour(b[4..]);
    assert b[3..][1..] == b[4..] && b[2..][1..] == b[3..] && b[1..][1..] == b[2..];
    LeNatFirst(b[3..], x);
    LeNatFirst(b[2..], LeNat(b[3..]));
    LeNatFirst(b[1..], LeNat(b[2..]));
  }

  /** `i` is the number `n` in two's complement. */
  predicate Denotes(n: nat, i: int, modulus: int) {
    -modulus <= 2 * i < modulus && (i == n || i == n - modulus)
  }

  lemma {:induction false} LeBound(s: seq<byte>)
    ensures LeNat(s) < Pow256(|s|)
  {
    if s != [] {
      LeBound(s[1..]);
    }
  }

  lemma {:induction false} LeOfBytes(s: seq<byte>)
    ensures LeBytes(LeNat(s), |s|) == s
  {
    if s != [] {
      LeOfBytes(s[1..]);
      assert LeNat(s) % 256 == s[0] && LeNat(s) / 256 == LeNat(s[1..]);
    }
  }

  // ------------------------------------------------------------ sequences

  lemma Assoc<T>(a: seq<T>, b: seq<T>, c: seq<T>)
    ensures a + b + c == a + (b + c)
  {
  }

  lemma Regroup<T>(a: seq<T>, b: seq<T>, c: seq<T>, d: seq<T>)
    ensures a + (b + c) + d == a + b + (c + d)
  {
  }

  function Flatten<T>(ss: seq<seq<T>>): seq<T> {
    if ss == [] then [] else ss[0] + Flatten(ss[1..])
  }

  lemma {:induction false} FlattenAppend<T>(a: seq<seq<T>>, b: seq<seq<T>>)
    ensures Flatten(a + b) == Flatten(a) + Flatten(b)
  {
    if a == [] {
      assert a + b == b;
    } else {
      FlattenAppend(a[1..], b);
      assert (a + b)[1..] == a[1..] + b && (a + b)[0] == a[0];
      Assoc(a[0], Flatten(a[1..]), Flatten(b));
    }
  }

  lemma FlattenSnoc<T>(a: seq<seq<T>>, x: seq<T>)
    ensures Flatten(a + [x]) == Flatten(a) + x
  {
    FlattenAppend(a, [x]);
    assert Flatten([x]) == x + Flatten<T>([]);
  }

  // ------------------------------------------------------------ reading

  /** A value read from the front of a string, or a string that is too short or wrong. */
  datatype Decoded<+T> = Invalid | Got(value: T, rest: seq<byte>)

  /** The next `n` bytes. */
  function Take(s: seq<byte>, n: nat): (d: Decoded<seq<byte>>)
    ensures d.Got? ==> d.value + d.rest == s && |d.value| == n
  {
    if |s| < n then Invalid else Got(s[..n], s[n..])
  }

  lemma TakePrefix(a: seq<byte>, t: seq<byte>)
    ensures Take(a + t, |a|) == Got(a, t)
  {
    assert (a + t)[..|a|] == a && (a + t)[|a|..] == t;
  }

  type word64 = x: int | 0 <= x < 0x1_0000_0000_0000_0000

  function GetWord(s: seq<byte>): (d: Decoded<word64>)
    ensures d.Got? ==> |d.rest| + 8 == |s|
  {
    match Take(s, 8)
    case Invalid => Invalid
    case Got(b, rest) =>
      LeBound(b);
      PowValues();
      Got(LeNat(b), rest)
  }

  lemma ReadLong(s: seq<byte>)
    ensures |s| < 8 ==> GetWord(s) == Invalid
    ensures |s| >= 8 ==> GetWord(s) == Got(LongOf(s), s[8..])
  {
    if |s| >= 8 {
      LeNatEight(s[..8]);
      assert s[..8][4..] == s[4..8] && WordOf(s[..8]) == WordOf(s) && WordOf(s[4..8]) == WordOf(s[4..]);
    }
  }

  lemma WordRoundTrip(w: word64, t: seq<byte>)
    ensures GetWord(LeBytes(w, 8) + t) == Got(w, t)
  {
    PowValues();
    TakePrefix(LeBytes(w, 8), t);
    LeRoundTrip(w, 8);
  }

  /** Whether a read ended as the format says: the value, and the cursor behind it. */
  ghost predicate Reads<T>(d: Decoded<T>, r: Option<T>, left: seq<byte>) {
    match d
    case Invalid => r.None?
    case Got(value, rest) => r == Some(value) && left == rest
  }

  /** memcpy of `data` to offset `at` of a buffer. */
  function Overwrite(buffer: seq<byte>, at: nat, data: seq<byte>): seq<byte>
    requires at + |data| <= |buffer|
  {
    buffer[..at] + data + buffer[at + |data|..]
  }

  lemma TakeDrop<T>(s: seq<T>, n: nat)
    requires n <= |s|
    ensures s[..n] + s[n..] == s
  {
  }
}
