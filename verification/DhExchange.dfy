/** The Diffie-Hellman exchange of lua-crypt.c: multiplication and powers modulo
    the largest 64-bit prime in wrapping 64-bit arithmetic. */
module DhExchange {
  import opened Wrappers
  import opened Bytes

  const WORD: nat := 0x1_0000_0000_0000_0000
  const P: nat := 0xffff_ffff_ffff_ffc5
  const G: nat := 5

  /** The value a `uint64_t` expression takes. */
  function Wrap(x: int): (r: nat)
    ensures r < WORD
  {
    x % WORD
  }

  function Pow(a: nat, n: nat): nat {
    if n == 0 then 1 else a * Pow(a, n - 1)
  }

  // ------------------------------------------------------------ residues

  /** `r` is the residue of `x` as soon as they differ by a multiple of P. */
  lemma ResidueUnique(x: int, r: int, k: int)
    requires 0 <= r < P && x == r + P * k
    ensures x % P == r
  {
    var q, s := x / P, x % P;
    assert x == P * q + s;
  }

  lemma MulResidue(x: int, y: int)
    ensures (x * y) % P == ((x % P) * (y % P)) % P
  {
    var q1, r1, q2, r2 := x / P, x % P, y / P, y % P;
    var r := (r1 * r2) % P;
    var q := (r1 * r2) / P;
    calc {
      x * y;
      (P * q1 + r1) * (P * q2 + r2);
      P * q1 * (P * q2 + r2) + r1 * (P * q2) + r1 * r2;
      P * (q1 * (P * q2 + r2)) + P * (r1 * q2) + P * q + r;
      P * (q1 * (P * q2 + r2) + r1 * q2 + q) + r;
    }
    ResidueUnique(x * y, r, q1 * (P * q2 + r2) + r1 * q2 + q);
  }

  lemma MulCongruent(x: int, y: int, x': int, y': int)
    requires x % P == x' % P && y % P == y' % P
    ensures (x * y) % P == (x' * y') % P
  {
    MulResidue(x, y);
    MulResidue(x', y');
  }

  lemma {:induction false} PowAdd(a: nat, m: nat, n: nat)
    ensures Pow(a, m + n) == Pow(a, m) * Pow(a, n)
  {
    if m > 0 {
      PowAdd(a, m - 1, n);
      var x, y := Pow(a, m - 1), Pow(a, n);
      assert a * (x * y) == (a * x) * y;
    }
  }

  lemma {:induction false} PowPow(a: nat, m: nat, n: nat)
    ensures Pow(Pow(a, m), n) == Pow(a, m * n)
  {
    if n > 0 {
      PowPow(a, m, n - 1);
      PowAdd(a, m, m * (n - 1));
      assert m + m * (n - 1) == m * n;
    }
  }

  lemma {:induction false} PowResidue(a: nat, n: nat)
    ensures Pow(a % P, n) % P == Pow(a, n) % P
  {
    if n > 0 {
      PowResidue(a, n - 1);
      MulCongruent(a % P, Pow(a % P, n - 1), a, Pow(a, n - 1));
    }
  }

  // ------------------------------------------------------------ the code

  /** The conditional addition: m + a, less P when it does not fit. */
  function AddStep(m: nat, a: nat): (r: nat)
    requires m < P && a <= P
    ensures r < P && (r == m + a || r == m + a - P)
  {
    var t := Wrap(P - a);
    if m >= t then Wrap(m - t) else Wrap(m + a)
  }

  /** The doubling, which may wrap before P is taken off. */
  function DoubleStep(a: nat): (r: nat)
    requires a <= P
    ensures r <= P && (r == 2 * a || r == 2 * a - P)
  {
    if a >= Wrap(P - a) then Wrap(Wrap(a * 2) - P) else Wrap(a * 2)
  }

  /** One turn of the loop keeps m + a*b up to a multiple of P. */
  lemma TurnKeeps(m: int, a: int, b: int, k: int, m': int, a': int, total: int) returns (k': int)
    requires b >= 0 && m + a * b + P * k == total
    requires m' == m + (b % 2) * a || m' == m + (b % 2) * a - P
    requires a' == 2 * a || a' == 2 * a - P
    ensures m' + a' * (b / 2) + P * k' == total
  {
    var h, bit := b / 2, b % 2;
    var d, e := if m' == m + bit * a then 0 else 1, if a' == 2 * a then 0 else 1;
    k' := k + d + e * h;
    assert a * b == 2 * a * h + bit * a;
    assert a' * h == 2 * a * h - P * (e * h);
    assert P * k' == P * k + P * d + P * (e * h);
  }

  /** mul_mod_p, although `a * 2` may wrap. */
  method MulModP(a0: nat, b0: nat) returns (m: nat)
    requires a0 <= P && b0 < WORD
    ensures m == (a0 * b0) % P
  {
    var a, b := a0, b0;
    m := 0;
    ghost var k, total := 0, a0 * b0;
    while b != 0
      invariant 0 <= m < P && 0 <= a <= P && 0 <= b < WORD
      invariant m + a * b + P * k == total
      decreases b
    {
      ghost var m1, a1 := m, a;
      if b % 2 == 1 {
        m := AddStep(m, a);
      }
      a := DoubleStep(a);
      k := TurnKeeps(m1, a1, b, k, m, a, total);
      b := b / 2;
    }
    ResidueUnique(total, m, k);
  }

  lemma PowSquare(a: nat, n: nat, t: nat)
    requires t % P == Pow(a, n) % P
    ensures (t * t) % P == Pow(a, 2 * n) % P
  {
    MulCongruent(t, t, Pow(a, n), Pow(a, n));
    PowAdd(a, n, n);
  }

  lemma HalfPower(a: nat, n: nat, t: nat)
    requires a <= P && n >= 1
    requires n == 1 ==> t == a
    requires n > 1 ==> t == Pow(a, n) % P
    ensures t <= P && t % P == Pow(a, n) % P
  {
    assert Pow(a, 1) == a * Pow(a, 0);
  }

  lemma OddPower(a: nat, n: nat, t: nat)
    requires t == Pow(a, 2 * n) % P
    ensures (t * a) % P == Pow(a, 2 * n + 1) % P
  {
    var q := Pow(a, 2 * n);
    MulCongruent(t, a, q, a);
    assert Pow(a, 2 * n + 1) == a * q;
  }

  /** pow_mod_p; an exponent of zero would recurse for ever. */
  method PowModP(a: nat, b: nat) returns (t: nat)
    requires a <= P && 1 <= b < WORD
    ensures b == 1 ==> t == a
    ensures b > 1 ==> t == Pow(a, b) % P
    decreases b
  {
    if b == 1 {
      return a;
    }
    t := PowModP(a, b / 2);
    HalfPower(a, b / 2, t);
    ghost var h := t;
    t := MulModP(t, t);
    PowSquare(a, b / 2, h);
    if b % 2 != 0 {
      OddPower(a, b / 2, t);
      t := MulModP(t, a);
    }
  }

  /** powmodp reduces only bases above P, so P itself to the power one comes
      back as P: that is the one argument pair for which the result is not the
      residue. */
  method PowMod(a0: nat, b: nat) returns (r: nat)
    requires a0 < WORD && 1 <= b < WORD
    ensures r == Pow(a0, b) % P <==> !(a0 == P && b == 1)
    ensures a0 == P && b == 1 ==> r == P
  {
    var a := a0;
    if a > P {
      a := a % P;
    }
    r := PowModP(a, b);
    PowResidue(a0, b);
    PowResidue(a, b);
    assert Pow(a, 1) == a * Pow(a, 0);
    assert b == 1 ==> Pow(a0, b) == a0 * Pow(a0, 0);
  }

  // ------------------------------------------------------------ the exchange

  function KeyError(x: seq<byte>): bool { |x| != 8 || LeNat(x) == 0 }

  /** What ldhexchange is for: G^x, little endian, or an error. */
  function Exchange(x: seq<byte>): Result<seq<byte>> {
    if |x| != 8 then Error("Invalid dh uint64 key")
    else if LeNat(x) == 0 then Error("Can't be 0")
    else Ok(LeBytes(Pow(G, LeNat(x)) % P, 8))
  }

  /** What ldhsecret is for: x^y, little endian, or an error. */
  function Secret(x: seq<byte>, y: seq<byte>): Result<seq<byte>> {
    if |x| != 8 then Error("Invalid uint64 x")
    else if |y| != 8 then Error("Invalid uint64 y")
    else if LeNat(x) == 0 || LeNat(y) == 0 then Error("Can't be 0")
    else Ok(LeBytes(Pow(LeNat(x), LeNat(y)) % P, 8))
  }

  method DhExchangeKey(x: seq<byte>) returns (r: Result<seq<byte>>)
    ensures r == Exchange(x)
  {
    if |x| != 8 {
      return Error("Invalid dh uint64 key");
    }
    LeBound(x);
    PowValues();
    var x64 := LeNat(x);
    if x64 == 0 {
      return Error("Can't be 0");
    }
    var p := PowMod(G, x64);
    r := Ok(LeBytes(p, 8));
  }

  /** ldhsecret computes x^y except on the public value P with exponent one,
      which no peer sends: every exchanged value is a residue. */
  method DhSecret(x: seq<byte>, y: seq<byte>) returns (r: Result<seq<byte>>)
    ensures |x| == 8 && |y| == 8 && LeNat(x) == P && LeNat(y) == 1 ==> r == Ok(x)
    ensures !(|x| == 8 && |y| == 8 && LeNat(x) == P && LeNat(y) == 1) ==> r == Secret(x, y)
  {
    if |x| != 8 {
      return Error("Invalid uint64 x");
    }
    if |y| != 8 {
      return Error("Invalid uint64 y");
    }
    LeBound(x);
    LeBound(y);
    PowValues();
    var xx, yy := LeNat(x), LeNat(y);
    if xx == 0 || yy == 0 {
      return Error("Can't be 0");
    }
    var p := PowMod(xx, yy);
    LeOfBytes(x);
    r := Ok(LeBytes(p, 8));
  }

  // 5 * INVERSE_OF_G == 2 * P + 1
  const INVERSE_OF_G: nat := 7378697629483820623

  lemma {:induction false} InversePower(n: nat)
    ensures (Pow(G, n) * Pow(INVERSE_OF_G, n)) % P == 1
  {
    if n > 0 {
      InversePower(n - 1);
      var x, y := Pow(G, n - 1), Pow(INVERSE_OF_G, n - 1);
      assert (G * x) * (INVERSE_OF_G * y) == (G * INVERSE_OF_G) * (x * y);
      MulResidue(G * INVERSE_OF_G, x * y);
    }
  }

  /** A power of the generator is never zero modulo P, so the peer's check for
      zero accepts it. */
  lemma {:induction false} PublicNonZero(n: nat)
    ensures Pow(G, n) % P != 0
  {
    InversePower(n);
    MulResidue(Pow(G, n), Pow(INVERSE_OF_G, n));
  }

  /** Both sides derive the same secret, G^(x*y), from any two non-zero keys. */
  lemma KeyAgreement(x: seq<byte>, y: seq<byte>)
    requires !KeyError(x) && !KeyError(y)
    ensures Exchange(x).Ok? && Exchange(y).Ok?
    ensures 0 < LeNat(Exchange(x).value) < P && 0 < LeNat(Exchange(y).value) < P
    ensures Secret(Exchange(x).value, y) == Secret(Exchange(y).value, x)
    ensures Secret(Exchange(x).value, y) == Ok(LeBytes(Pow(G, LeNat(x) * LeNat(y)) % P, 8))
  {
    OneSide(x, y);
    OneSide(y, x);
    assert LeNat(x) * LeNat(y) == LeNat(y) * LeNat(x);
  }

  lemma OneSide(x: seq<byte>, y: seq<byte>)
    requires !KeyError(x) && !KeyError(y)
    ensures 0 < LeNat(Exchange(x).value) < P
    ensures Secret(Exchange(x).value, y) == Ok(LeBytes(Pow(G, LeNat(x) * LeNat(y)) % P, 8))
  {
    var gx := Pow(G, LeNat(x)) % P;
    PowValues();
    LeRoundTrip(gx, 8);
    PublicNonZero(LeNat(x));
    PowResidue(Pow(G, LeNat(x)), LeNat(y));
    PowPow(G, LeNat(x), LeNat(y));
  }
}
