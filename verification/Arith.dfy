/** Remainders by a variable modulus, positions in a ring and powers of two. */
module Arith {

  lemma MulAtLeast(n: int, d: int)
    requires n > 0 && d >= 1
    ensures n * d >= n
  {
    assert n * d == n + n * (d - 1);
    assert n * (d - 1) >= 0;
  }

  /** A multiple of `n` between -n and n is zero. */
  lemma SmallMultiple(n: int, d: int)
    requires n > 0 && -n < n * d < n
    ensures d == 0
  {
    assert n * -d == -(n * d);
    if d >= 1 {
      MulAtLeast(n, d);
    } else if d <= -1 {
      MulAtLeast(n, -d);
    }
  }

  lemma DivUnique(x: int, n: int, q: int, r: int)
    requires 0 <= r < n && x == n * q + r
    ensures x % n == r && x / n == q
  {
    var q', r' := x / n, x % n;
    assert x == n * q' + r';
    assert n * (q - q') == n * q - n * q' == r' - r;
    SmallMultiple(n, q - q');
  }

  lemma ModMod(x: nat, n: nat, q: nat)
    requires n > 0 && q > 0
    ensures n * q > 0 && (x % (n * q)) % n == x % n
  {
    var m := n * q;
    var a, r := x / m, x % m;
    assert r == n * (r / n) + r % n;
    calc {
      x;
      m * a + r;
      n * q * a + (n * (r / n) + r % n);
      n * (q * a + r / n) + r % n;
    }
    DivUnique(x, n, q * a + r / n, r % n);
  }

  /** Among `n` consecutive numbers every residue occurs. */
  lemma ModCover(index: nat, n: nat, j: nat) returns (i: nat)
    requires j < n
    ensures i < n && (i + index) % n == j
  {
    var a, q := index % n, index / n;
    if j >= a {
      i := j - a;
      DivUnique(i + index, n, q, j);
    } else {
      i := j + n - a;
      assert i + index == n * q + n + j == n * (q + 1) + j;
      DivUnique(i + index, n, q + 1, j);
    }
  }

  lemma ModSmall(x: nat, m: nat)
    requires x < m
    ensures x % m == x
  {
  }

  lemma ModWrap(x: nat, m: nat)
    requires 0 < m <= x < 2 * m
    ensures x % m == x - m
  {
    var q, r := x / m, x % m;
    assert x == q * m + r;
    assert q >= 2 ==> q * m >= 2 * m;
    assert q <= 0 ==> q * m <= 0;
    assert q == 1;
  }

  /** Where the `i`th element of a ring sits. */
  function Slot(head: nat, i: nat, cap: nat): nat {
    if head + i < cap then head + i else head + i - cap
  }

  lemma Wrapped(head: nat, i: nat, cap: nat)
    requires head < cap && i < cap
    ensures (head + i) % cap == Slot(head, i, cap)
  {
    if head + i >= cap {
      ModWrap(head + i, cap);
    } else {
      ModSmall(head + i, cap);
    }
  }

  function Pow2(k: nat): (p: nat)
    ensures p > 0
  {
    if k == 0 then 1 else 2 * Pow2(k - 1)
  }

  lemma {:induction false} Pow2Add(a: nat, b: nat)
    ensures Pow2(a) * Pow2(b) == Pow2(a + b)
  {
    if a > 0 {
      Pow2Add(a - 1, b);
    }
  }

  lemma {:induction false} Pow2Less(a: nat, b: nat)
    requires a < b
    ensures 2 * Pow2(a) <= Pow2(b)
  {
    if a < b - 1 {
      Pow2Less(a, b - 1);
    }
  }
}
