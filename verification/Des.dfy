/** DES as lua-crypt.c applies it: the permutations and rounds of des_crypt on
    32-bit words.  The S-boxes are
    a parameter: nothing proved here depends on them. */
module Des {

  type octet = bv8
  type word = bv32

  type Block = b: seq<octet> | |b| == 8 witness [0, 0, 0, 0, 0, 0, 0, 0]

  /** The two halves on their way through the network. */
  datatype Halves = Halves(u: word, v: word)

  /** A Feistel cipher: `fold(k1, k2, x, y)` is the half `y` after a round with
      subkeys k1 and k2 on the other half `x`. */
  datatype Cipher = Cipher(fold: (word, word, word, word) -> word)

  /** Folding the same value in twice changes nothing. */
  ghost predicate Involutive(t: Cipher) {
    forall k1, k2, x, y {:trigger t.fold(k1, k2, x, t.fold(k1, k2, x, y))} ::
      t.fold(k1, k2, x, t.fold(k1, k2, x, y)) == y
  }

  // ------------------------------------------------------------ words

  function GetWord(b: seq<octet>): word
    requires |b| >= 4
  {
    ((b[0] as word) << 24) | ((b[1] as word) << 16) | ((b[2] as word) << 8) | (b[3] as word)
  }

  function PutWord(n: word): (b: seq<octet>)
    ensures |b| == 4
  {
    [((n >> 24) & 0xFF) as octet, ((n >> 16) & 0xFF) as octet, ((n >> 8) & 0xFF) as octet, (n & 0xFF) as octet]
  }

  lemma GetPut(n: word)
    ensures GetWord(PutWord(n)) == n
  {
  }

  lemma PutGet(b: seq<octet>)
    requires |b| == 4
    ensures PutWord(GetWord(b)) == b
  {
  }

  // ------------------------------------------------------------ permutations

  // T = ((a >> k) ^ b) & mask; b ^= T; a ^= T << k, once for each shift of the macros.

  function Exchange0(a: word, b: word): (word, word) {
    var t := (a ^ b) & 0xAAAAAAAA;
    (a ^ t, b ^ t)
  }

  function Exchange2(a: word, b: word): (word, word) {
    var t := ((a >> 2) ^ b) & 0x33333333;
    (a ^ (t << 2), b ^ t)
  }

  function Exchange4(a: word, b: word): (word, word) {
    var t := ((a >> 4) ^ b) & 0x0F0F0F0F;
    (a ^ (t << 4), b ^ t)
  }

  function Exchange8(a: word, b: word): (word, word) {
    var t := ((a >> 8) ^ b) & 0x00FF00FF;
    (a ^ (t << 8), b ^ t)
  }

  function Exchange16(a: word, b: word): (word, word) {
    var t := ((a >> 16) ^ b) & 0x0000FFFF;
    (a ^ (t << 16), b ^ t)
  }

  function RotateLeft(x: word): word { (x << 1) | (x >> 31) }

  function RotateRight(x: word): word { (x << 31) | (x >> 1) }

  /** The macro DES_IP. */
  function InitialPermutation(x0: word, y0: word): (word, word) {
    var (x1, y1) := Exchange4(x0, y0);
    var (x2, y2) := Exchange16(x1, y1);
    var (y3, x3) := Exchange2(y2, x2);
    var (y4, x4) := Exchange8(y3, x3);
    var y5 := RotateLeft(y4);
    var (x6, y6) := Exchange0(x4, y5);
    (RotateLeft(x6), y6)
  }

  /** The macro DES_FP. */
  function FinalPermutation(x0: word, y0: word): (word, word) {
    var x1 := RotateRight(x0);
    var (x2, y2) := Exchange0(x1, y0);
    var y3 := RotateRight(y2);
    var (y4, x4) := Exchange8(y3, x2);
    var (y5, x5) := Exchange2(y4, x4);
    var (x6, y6) := Exchange16(x5, y5);
    Exchange4(x6, y6)
  }

  lemma ExchangeTwice0(a: word, b: word)
    ensures var (c, d) := Exchange0(a, b); Exchange0(c, d) == (a, b)
  {
  }

  lemma ExchangeTwice2(a: word, b: word)
    ensures var (c, d) := Exchange2(a, b); Exchange2(c, d) == (a, b)
  {
  }

  lemma ExchangeTwice4(a: word, b: word)
    ensures var (c, d) := Exchange4(a, b); Exchange4(c, d) == (a, b)
  {
  }

  lemma ExchangeTwice8(a: word, b: word)
    ensures var (c, d) := Exchange8(a, b); Exchange8(c, d) == (a, b)
  {
  }

  lemma ExchangeTwice16(a: word, b: word)
    ensures var (c, d) := Exchange16(a, b); Exchange16(c, d) == (a, b)
  {
  }

  lemma Rotations(x: word)
    ensures RotateRight(RotateLeft(x)) == x && RotateLeft(RotateRight(x)) == x
  {
  }

  /** DES_IP undoes DES_FP. */
  lemma InitialAfterFinal(x0: word, y0: word)
    ensures var (x, y) := FinalPermutation(x0, y0); InitialPermutation(x, y) == (x0, y0)
  {
    var x1 := RotateRight(x0);
    Rotations(x0);
    ExchangeTwice0(x1, y0);
    var (x2, y2) := Exchange0(x1, y0);
    Rotations(y2);
    var y3 := RotateRight(y2);
    ExchangeTwice8(y3, x2);
    var (y4, x4) := Exchange8(y3, x2);
    ExchangeTwice2(y4, x4);
    var (y5, x5) := Exchange2(y4, x4);
    ExchangeTwice16(x5, y5);
    var (x6, y6) := Exchange16(x5, y5);
    ExchangeTwice4(x6, y6);
  }

  /** DES_FP undoes DES_IP. */
  lemma FinalAfterInitial(x0: word, y0: word)
    ensures var (x, y) := InitialPermutation(x0, y0); FinalPermutation(x, y) == (x0, y0)
  {
    ExchangeTwice4(x0, y0);
    var (x1, y1) := Exchange4(x0, y0);
    ExchangeTwice16(x1, y1);
    var (x2, y2) := Exchange16(x1, y1);
    ExchangeTwice2(y2, x2);
    var (y3, x3) := Exchange2(y2, x2);
    ExchangeTwice8(y3, x3);
    var (y4, x4) := Exchange8(y3, x3);
    Rotations(y4);
    var y5 := RotateLeft(y4);
    ExchangeTwice0(x4, y5);
    var (x6, y6) := Exchange0(x4, y5);
    Rotations(x6);
  }

  // ------------------------------------------------------------ the tables of the standard

  /** The number of a bit, from the left and from 1, as FIPS 46-3 counts. */
  type Place = i: int | 1 <= i <= 64 witness 1

  /** Bit `i` of a word, alone. */
  function Mask(i: nat): word {
    if i > 8 then Mask(i - 8) >> 8 else if i > 1 then Mask(i - 1) >> 1 else 0x8000_0000
  }

  /** Bit `i` of a block of two halves, worth `w`. */
  function Bit(left: word, right: word, i: Place, w: word): word {
    var bit := if i <= 32 then left & Mask(i) else right & Mask(i - 32);
    if bit != 0 then w else 0
  }

  /** Eight bits of a block, as a number. */
  function Row(l: word, r: word, i1: Place, i2: Place, i3: Place, i4: Place,
               i5: Place, i6: Place, i7: Place, i8: Place): word {
    Bit(l, r, i1, 0x80) | Bit(l, r, i2, 0x40) | Bit(l, r, i3, 0x20) | Bit(l, r, i4, 0x10) |
    Bit(l, r, i5, 0x08) | Bit(l, r, i6, 0x04) | Bit(l, r, i7, 0x02) | Bit(l, r, i8, 0x01)
  }

  /** Six bits of a half, as a number. */
  function Six(h: word, i1: Place, i2: Place, i3: Place, i4: Place, i5: Place, i6: Place): word {
    Bit(h, 0, i1, 0x20) | Bit(h, 0, i2, 0x10) | Bit(h, 0, i3, 0x08) |
    Bit(h, 0, i4, 0x04) | Bit(h, 0, i5, 0x02) | Bit(h, 0, i6, 0x01)
  }

  /** A word of four bytes. */
  function Assemble(b0: word, b1: word, b2: word, b3: word): word {
    (b0 << 24) | (b1 << 16) | (b2 << 8) | b3
  }

  /** The table IP: the bits of the permuted block, row by row. */
  function IP(l: word, r: word): (word, word) {
    (Assemble(Row(l, r, 58, 50, 42, 34, 26, 18, 10, 2), Row(l, r, 60, 52, 44, 36, 28, 20, 12, 4),
              Row(l, r, 62, 54, 46, 38, 30, 22, 14, 6), Row(l, r, 64, 56, 48, 40, 32, 24, 16, 8)),
     Assemble(Row(l, r, 57, 49, 41, 33, 25, 17, 9, 1), Row(l, r, 59, 51, 43, 35, 27, 19, 11, 3),
              Row(l, r, 61, 53, 45, 37, 29, 21, 13, 5), Row(l, r, 63, 55, 47, 39, 31, 23, 15, 7)))
  }

  /** The table IP^-1. */
  function IPInverse(l: word, r: word): (word, word) {
    (Assemble(Row(l, r, 40, 8, 48, 16, 56, 24, 64, 32), Row(l, r, 39, 7, 47, 15, 55, 23, 63, 31),
              Row(l, r, 38, 6, 46, 14, 54, 22, 62, 30), Row(l, r, 37, 5, 45, 13, 53, 21, 61, 29)),
     Assemble(Row(l, r, 36, 4, 44, 12, 52, 20, 60, 28), Row(l, r, 35, 3, 43, 11, 51, 19, 59, 27),
              Row(l, r, 34, 2, 42, 10, 50, 18, 58, 26), Row(l, r, 33, 1, 41, 9, 49, 17, 57, 25)))
  }

  /** The bit selection table E: the six bits of a half for box `n`. */
  function E(half: word, n: nat): word
    requires 1 <= n <= 8
  {
    match n
    case 1 => Six(half, 32, 1, 2, 3, 4, 5)
    case 2 => Six(half, 4, 5, 6, 7, 8, 9)
    case 3 => Six(half, 8, 9, 10, 11, 12, 13)
    case 4 => Six(half, 12, 13, 14, 15, 16, 17)
    case 5 => Six(half, 16, 17, 18, 19, 20, 21)
    case 6 => Six(half, 20, 21, 22, 23, 24, 25)
    case 7 => Six(half, 24, 25, 26, 27, 28, 29)
    case _ => Six(half, 28, 29, 30, 31, 32, 1)
  }

  /** The lowest bits of four bytes, the last one first. */
  function Column(x: word): word {
    ((x & 1) << 3) | (((x >> 8) & 1) << 2) | (((x >> 16) & 1) << 1) | ((x >> 24) & 1)
  }

  /** The lowest bits of the bytes of two words in turn. */
  function Weave(x: word, y: word): word {
    (((x >> 24) & 1) << 7) | (((y >> 24) & 1) << 6) | (((x >> 16) & 1) << 5) | (((y >> 16) & 1) << 4) |
    (((x >> 8) & 1) << 3) | (((y >> 8) & 1) << 2) | ((x & 1) << 1) | (y & 1)
  }

  lemma IPRow0(l: word, r: word)
    ensures Row(l, r, 58, 50, 42, 34, 26, 18, 10, 2) == (Column(r >> 6) << 4) | Column(l >> 6)
  {
  }

  lemma IPRow1(l: word, r: word)
    ensures Row(l, r, 60, 52, 44, 36, 28, 20, 12, 4) == (Column(r >> 4) << 4) | Column(l >> 4)
  {
  }

  lemma IPRow2(l: word, r: word)
    ensures Row(l, r, 62, 54, 46, 38, 30, 22, 14, 6) == (Column(r >> 2) << 4) | Column(l >> 2)
  {
  }

  lemma IPRow3(l: word, r: word)
    ensures Row(l, r, 64, 56, 48, 40, 32, 24, 16, 8) == (Column(r) << 4) | Column(l)
  {
  }

  lemma IPRow4(l: word, r: word)
    ensures Row(l, r, 57, 49, 41, 33, 25, 17, 9, 1) == (Column(r >> 7) << 4) | Column(l >> 7)
  {
  }

  lemma IPRow5(l: word, r: word)
    ensures Row(l, r, 59, 51, 43, 35, 27, 19, 11, 3) == (Column(r >> 5) << 4) | Column(l >> 5)
  {
  }

  lemma IPRow6(l: word, r: word)
    ensures Row(l, r, 61, 53, 45, 37, 29, 21, 13, 5) == (Column(r >> 3) << 4) | Column(l >> 3)
  {
  }

  lemma IPRow7(l: word, r: word)
    ensures Row(l, r, 63, 55, 47, 39, 31, 23, 15, 7) == (Column(r >> 1) << 4) | Column(l >> 1)
  {
  }

  lemma InitialColumnsLeft(l: word, r: word)
    ensures RotateRight(InitialPermutation(l, r).0) ==
            Assemble((Column(r >> 6) << 4) | Column(l >> 6), (Column(r >> 4) << 4) | Column(l >> 4),
                     (Column(r >> 2) << 4) | Column(l >> 2), (Column(r) << 4) | Column(l))
  {
  }

  lemma InitialLeft(l: word, r: word)
    ensures RotateRight(InitialPermutation(l, r).0) == IP(l, r).0
  {
    InitialColumnsLeft(l, r);
    IPRow0(l, r);
    IPRow1(l, r);
    IPRow2(l, r);
    IPRow3(l, r);
  }

  lemma InitialColumnsRight(l: word, r: word)
    ensures RotateRight(InitialPermutation(l, r).1) ==
            Assemble((Column(r >> 7) << 4) | Column(l >> 7), (Column(r >> 5) << 4) | Column(l >> 5),
                     (Column(r >> 3) << 4) | Column(l >> 3), (Column(r >> 1) << 4) | Column(l >> 1))
  {
  }

  lemma InitialRight(l: word, r: word)
    ensures RotateRight(InitialPermutation(l, r).1) == IP(l, r).1
  {
    InitialColumnsRight(l, r);
    IPRow4(l, r);
    IPRow5(l, r);
    IPRow6(l, r);
    IPRow7(l, r);
  }

  /** DES_IP is the permutation IP of the standard, both halves rotated by one to the left. */
  lemma InitialByTable(l: word, r: word)
    ensures InitialPermutation(l, r) == (RotateLeft(IP(l, r).0), RotateLeft(IP(l, r).1))
  {
    var p := InitialPermutation(l, r);
    InitialLeft(l, r);
    InitialRight(l, r);
    Rotations(p.0);
    Rotations(p.1);
  }

  lemma InverseRow0(l: word, r: word)
    ensures Row(l, r, 40, 8, 48, 16, 56, 24, 64, 32) == Weave(r, l)
  {
  }

  lemma InverseRow1(l: word, r: word)
    ensures Row(l, r, 39, 7, 47, 15, 55, 23, 63, 31) == Weave(r >> 1, l >> 1)
  {
  }

  lemma InverseRow2(l: word, r: word)
    ensures Row(l, r, 38, 6, 46, 14, 54, 22, 62, 30) == Weave(r >> 2, l >> 2)
  {
  }

  lemma InverseRow3(l: word, r: word)
    ensures Row(l, r, 37, 5, 45, 13, 53, 21, 61, 29) == Weave(r >> 3, l >> 3)
  {
  }

  lemma InverseRow4(l: word, r: word)
    ensures Row(l, r, 36, 4, 44, 12, 52, 20, 60, 28) == Weave(r >> 4, l >> 4)
  {
  }

  lemma InverseRow5(l: word, r: word)
    ensures Row(l, r, 35, 3, 43, 11, 51, 19, 59, 27) == Weave(r >> 5, l >> 5)
  {
  }

  lemma InverseRow6(l: word, r: word)
    ensures Row(l, r, 34, 2, 42, 10, 50, 18, 58, 26) == Weave(r >> 6, l >> 6)
  {
  }

  lemma InverseRow7(l: word, r: word)
    ensures Row(l, r, 33, 1, 41, 9, 49, 17, 57, 25) == Weave(r >> 7, l >> 7)
  {
  }

  lemma Unwoven(l: word, r: word, a: word, b: word)
    requires a == Assemble(Weave(r, l), Weave(r >> 1, l >> 1), Weave(r >> 2, l >> 2), Weave(r >> 3, l >> 3))
    requires b == Assemble(Weave(r >> 4, l >> 4), Weave(r >> 5, l >> 5), Weave(r >> 6, l >> 6), Weave(r >> 7, l >> 7))
    ensures l == Assemble((Column(b >> 6) << 4) | Column(a >> 6), (Column(b >> 4) << 4) | Column(a >> 4),
                          (Column(b >> 2) << 4) | Column(a >> 2), (Column(b) << 4) | Column(a))
    ensures r == Assemble((Column(b >> 7) << 4) | Column(a >> 7), (Column(b >> 5) << 4) | Column(a >> 5),
                          (Column(b >> 3) << 4) | Column(a >> 3), (Column(b >> 1) << 4) | Column(a >> 1))
  {
  }

  lemma IPInverseWoven(l: word, r: word)
    ensures IPInverse(l, r).0 ==
            Assemble(Weave(r, l), Weave(r >> 1, l >> 1), Weave(r >> 2, l >> 2), Weave(r >> 3, l >> 3))
    ensures IPInverse(l, r).1 ==
            Assemble(Weave(r >> 4, l >> 4), Weave(r >> 5, l >> 5), Weave(r >> 6, l >> 6), Weave(r >> 7, l >> 7))
  {
    InverseRow0(l, r);
    InverseRow1(l, r);
    InverseRow2(l, r);
    InverseRow3(l, r);
    InverseRow4(l, r);
    InverseRow5(l, r);
    InverseRow6(l, r);
    InverseRow7(l, r);
  }

  /** The tables undo each other. */
  lemma IPOfInverse(l: word, r: word)
    ensures IP(IPInverse(l, r).0, IPInverse(l, r).1) == (l, r)
  {
    var a, b := IPInverse(l, r).0, IPInverse(l, r).1;
    IPInverseWoven(l, r);
    Unwoven(l, r, a, b);
    IPRow0(a, b);
    IPRow1(a, b);
    IPRow2(a, b);
    IPRow3(a, b);
    IPRow4(a, b);
    IPRow5(a, b);
    IPRow6(a, b);
    IPRow7(a, b);
  }

  /** DES_FP on halves that are rotated by one is the permutation IP^-1. */
  lemma FinalByTable(l: word, r: word)
    ensures FinalPermutation(RotateLeft(l), RotateLeft(r)) == IPInverse(l, r)
  {
    var p := IPInverse(l, r);
    IPOfInverse(l, r);
    InitialByTable(p.0, p.1);
    FinalAfterInitial(p.0, p.1);
  }

  // ------------------------------------------------------------ rounds

  /** What the macro DES_ROUND(X, Y) folds into Y; `box(n, i)` is SBn[i]. */
  function RoundMask(box: (nat, word) -> word, k1: word, k2: word, x: word): word {
    var u := k1 ^ x;
    var v := k2 ^ ((x << 28) | (x >> 4));
    box(8, u & 0x3F) ^ box(6, (u >> 8) & 0x3F) ^ box(4, (u >> 16) & 0x3F) ^ box(2, (u >> 24) & 0x3F)
    ^ box(7, v & 0x3F) ^ box(5, (v >> 8) & 0x3F) ^ box(3, (v >> 16) & 0x3F) ^ box(1, (v >> 24) & 0x3F)
  }

  // ------------------------------------------------------------ the network of the standard

  /** The six subkey bits of box `n`: the low bits of a byte, in the first word of the pair
      for even boxes and in the second one for odd boxes. */
  function BoxKey(k1: word, k2: word, n: nat): word
    requires 1 <= n <= 8
  {
    var k := if n % 2 == 0 then k1 else k2;
    (if n <= 2 then k >> 24 else if n <= 4 then k >> 16 else if n <= 6 then k >> 8 else k) & 0x3F
  }

  /** What box `n` is applied to: the bits of the half that E selects for it, with its
      subkey. */
  function BoxInput(k1: word, k2: word, half: word, n: nat): word
    requires 1 <= n <= 8
  {
    E(half, n) ^ BoxKey(k1, k2, n)
  }

  /** What the eight boxes fold in. */
  function Boxes(box: (nat, word) -> word, input: nat -> word): word {
    box(8, input(8)) ^ box(6, input(6)) ^ box(4, input(4)) ^ box(2, input(2)) ^
    box(7, input(7)) ^ box(5, input(5)) ^ box(3, input(3)) ^ box(1, input(1))
  }

  /** The cipher of the standard: the function f of one half is folded into the other.  The
      words of the boxes are rotated by one to the left, like the halves of DES_ROUND. */
  function Standard(box: (nat, word) -> word): Cipher {
    Cipher((k1, k2, half, other) => other ^ RotateRight(Boxes(box, BoxInputs(k1, k2, half))))
  }

  function BoxInputs(k1: word, k2: word, half: word): nat -> word {
    n => if 1 <= n <= 8 then BoxInput(k1, k2, half, n) else 0
  }

  lemma E1(half: word)
    ensures E(half, 1) == (((RotateLeft(half) << 28) | (RotateLeft(half) >> 4)) >> 24) & 0x3F
  {
  }

  lemma E2(half: word)
    ensures E(half, 2) == (RotateLeft(half) >> 24) & 0x3F
  {
  }

  lemma E3(half: word)
    ensures E(half, 3) == (((RotateLeft(half) << 28) | (RotateLeft(half) >> 4)) >> 16) & 0x3F
  {
  }

  lemma E4(half: word)
    ensures E(half, 4) == (RotateLeft(half) >> 16) & 0x3F
  {
  }

  lemma E5(half: word)
    ensures E(half, 5) == (((RotateLeft(half) << 28) | (RotateLeft(half) >> 4)) >> 8) & 0x3F
  {
  }

  lemma E6(half: word)
    ensures E(half, 6) == (RotateLeft(half) >> 8) & 0x3F
  {
  }

  lemma E7(half: word)
    ensures E(half, 7) == ((RotateLeft(half) << 28) | (RotateLeft(half) >> 4)) & 0x3F
  {
  }

  lemma E8(half: word)
    ensures E(half, 8) == RotateLeft(half) & 0x3F
  {
  }

  lemma KeyedBits(k: word, x: word)
    ensures (k ^ x) & 0x3F == (x & 0x3F) ^ (k & 0x3F)
    ensures ((k ^ x) >> 8) & 0x3F == ((x >> 8) & 0x3F) ^ ((k >> 8) & 0x3F)
    ensures ((k ^ x) >> 16) & 0x3F == ((x >> 16) & 0x3F) ^ ((k >> 16) & 0x3F)
    ensures ((k ^ x) >> 24) & 0x3F == ((x >> 24) & 0x3F) ^ ((k >> 24) & 0x3F)
  {
  }

  lemma LowEven(k1: word, k2: word, half: word)
    ensures var u := k1 ^ RotateLeft(half);
            u & 0x3F == BoxInput(k1, k2, half, 8) && (u >> 8) & 0x3F == BoxInput(k1, k2, half, 6)
  {
    KeyedBits(k1, RotateLeft(half));
    E6(half);
    E8(half);
  }

  lemma HighEven(k1: word, k2: word, half: word)
    ensures var u := k1 ^ RotateLeft(half);
            (u >> 16) & 0x3F == BoxInput(k1, k2, half, 4) && (u >> 24) & 0x3F == BoxInput(k1, k2, half, 2)
  {
    KeyedBits(k1, RotateLeft(half));
    E2(half);
    E4(half);
  }

  lemma OddInputs(k1: word, k2: word, half: word)
    ensures var x := RotateLeft(half); var v := k2 ^ ((x << 28) | (x >> 4));
            v & 0x3F == BoxInput(k1, k2, half, 7) && (v >> 8) & 0x3F == BoxInput(k1, k2, half, 5) &&
            (v >> 16) & 0x3F == BoxInput(k1, k2, half, 3) && (v >> 24) & 0x3F == BoxInput(k1, k2, half, 1)
  {
    KeyedBits(k2, (RotateLeft(half) << 28) | (RotateLeft(half) >> 4));
    E1(half);
    E3(half);
    E5(half);
    E7(half);
  }

  /** The inputs of the boxes are in the words that DES_ROUND computes. */
  predicate Holds(input: nat -> word, k1: word, k2: word, x: word) {
    var u := k1 ^ x;
    var v := k2 ^ ((x << 28) | (x >> 4));
    && u & 0x3F == input(8) && (u >> 8) & 0x3F == input(6)
    && (u >> 16) & 0x3F == input(4) && (u >> 24) & 0x3F == input(2)
    && v & 0x3F == input(7) && (v >> 8) & 0x3F == input(5)
    && (v >> 16) & 0x3F == input(3) && (v >> 24) & 0x3F == input(1)
  }

  lemma RoundFrom(box: (nat, word) -> word, input: nat -> word, k1: word, k2: word, x: word)
    requires Holds(input, k1, k2, x)
    ensures RoundMask(box, k1, k2, x) == Boxes(box, input)
  {
  }

  lemma InputsHold(input: nat -> word, k1: word, k2: word, half: word)
    requires forall n :: 1 <= n <= 8 ==> input(n) == BoxInput(k1, k2, half, n)
    ensures Holds(input, k1, k2, RotateLeft(half))
  {
    LowEven(k1, k2, half);
    HighEven(k1, k2, half);
    OddInputs(k1, k2, half);
  }

  /** DES_ROUND folds in every box at the bits that the table E selects for it. */
  lemma RoundByTable(box: (nat, word) -> word, k1: word, k2: word, half: word)
    ensures RoundMask(box, k1, k2, RotateLeft(half)) == Boxes(box, BoxInputs(k1, k2, half))
  {
    var input := BoxInputs(k1, k2, half);
    InputsHold(input, k1, k2, half);
    RoundFrom(box, input, k1, k2, RotateLeft(half));
  }

  lemma TurnedXor(l: word, m: word)
    ensures RotateLeft(l ^ RotateRight(m)) == RotateLeft(l) ^ m
  {
  }

  lemma FoldByTable(box: (nat, word) -> word, k1: word, k2: word, l: word, r: word)
    ensures DesCipher(box).fold(k1, k2, RotateLeft(r), RotateLeft(l)) ==
            RotateLeft(Standard(box).fold(k1, k2, r, l))
  {
    RoundByTable(box, k1, k2, r);
    TurnedXor(l, Boxes(box, BoxInputs(k1, k2, r)));
  }

  /** The network of the standard: the right half goes to the left, and the left half with
      the function of the right half folded in goes to the right. */
  function Network(t: Cipher, sk: seq<word>, n: nat, left: word, right: word): (word, word)
    requires |sk| == 32 && n <= 16
  {
    if n == 0 then (left, right)
    else
      var (l, r) := Network(t, sk, n - 1, left, right);
      (r, t.fold(sk[2 * (n - 1)], sk[2 * (n - 1) + 1], r, l))
  }

  /** The cipher of lua-crypt.c for given S-boxes. */
  function DesCipher(box: (nat, word) -> word): Cipher {
    Cipher((k1, k2, x, y) => y ^ RoundMask(box, k1, k2, x))
  }

  lemma XorTwice(a: word, b: word)
    ensures (a ^ b) ^ b == a
  {
  }

  lemma DesInvolutive(box: (nat, word) -> word)
    ensures Involutive(DesCipher(box))
  {
    var t := DesCipher(box);
    forall k1, k2, x, y ensures t.fold(k1, k2, x, t.fold(k1, k2, x, y)) == y {
      XorTwice(y, RoundMask(box, k1, k2, x));
    }
  }

  /** One round of the textbook network: the halves change places. */
  function Round(t: Cipher, sk: seq<word>, i: nat, s: Halves): Halves
    requires |sk| == 32 && i < 16
  {
    Halves(t.fold(sk[2 * i], sk[2 * i + 1], s.u, s.v), s.u)
  }

  /** Rounds 0 .. n-1. */
  function Rounds(t: Cipher, sk: seq<word>, n: nat, s: Halves): Halves
    requires |sk| == 32 && n <= 16
  {
    if n == 0 then s else Round(t, sk, n - 1, Rounds(t, sk, n - 1, s))
  }

  /** One block: permute, sixteen rounds, swap, permute back. */
  function Crypt(t: Cipher, sk: seq<word>, block: Block): Block
    requires |sk| == 32
  {
    var (x, y) := InitialPermutation(GetWord(block[..4]), GetWord(block[4..]));
    var s := Rounds(t, sk, |sk| / 2, Halves(y, x));
    var (y', x') := FinalPermutation(s.u, s.v);
    PutWord(y') + PutWord(x')
  }

  /** The subkeys of ldesdecode: the pairs in reverse order. */
  function Reversed(sk: seq<word>): (r: seq<word>)
    requires |sk| == 32
    ensures |r| == 32
  {
    seq(32, i requires 0 <= i < 32 => if i % 2 == 0 then sk[30 - i] else sk[32 - i])
  }

  function Swap(s: Halves): Halves { Halves(s.v, s.u) }

  lemma RoundInverse(t: Cipher, sk: seq<word>, i: nat, s: Halves)
    requires Involutive(t) && |sk| == 32 && i < 16
    ensures Round(t, Reversed(sk), 15 - i, Swap(Round(t, sk, i, s))) == Swap(s)
  {
    var r := Reversed(sk);
    var k1, k2 := sk[2 * i], sk[2 * i + 1];
    assert r[2 * (15 - i)] == k1 && r[2 * (15 - i) + 1] == k2;
    assert t.fold(k1, k2, s.u, t.fold(k1, k2, s.u, s.v)) == s.v;
  }

  /** The last rounds with reversed subkeys undo the first ones, whatever the
      S-boxes are. */
  lemma {:induction false} RoundsInverse(t: Cipher, sk: seq<word>, n: nat, i: nat, s: Halves, end: Halves)
    requires Involutive(t) && |sk| == 32 && n + i == |sk| / 2
    requires end == Swap(Rounds(t, sk, n + i, s))
    ensures Rounds(t, Reversed(sk), n, end) == Swap(Rounds(t, sk, i, s))
    decreases n
  {
    if n > 0 {
      RoundsInverse(t, sk, n - 1, i + 1, s, end);
      var m := Rounds(t, sk, i, s);
      assert Rounds(t, sk, i + 1, s) == Round(t, sk, i, m);
      UndoRound(t, sk, n, i, end, m);
    }
  }

  lemma UndoRound(t: Cipher, sk: seq<word>, n: nat, i: nat, end: Halves, m: Halves)
    requires Involutive(t) && |sk| == 32 && n > 0 && n + i == |sk| / 2
    requires Rounds(t, Reversed(sk), n - 1, end) == Swap(Round(t, sk, i, m))
    ensures Rounds(t, Reversed(sk), n, end) == Swap(m)
  {
    RoundInverse(t, sk, i, m);
  }

  lemma NextRound(t: Cipher, sk: seq<word>, n: nat, s: Halves, now: Halves)
    requires |sk| == 32 && n < 16 && now == Rounds(t, sk, n, s)
    ensures Rounds(t, sk, n + 1, s) == Halves(t.fold(sk[2 * n], sk[2 * n + 1], now.u, now.v), now.u)
  {
  }

  /** Decrypting an encrypted block gives it back. */
  lemma CryptInverse(t: Cipher, sk: seq<word>, block: Block)
    requires Involutive(t) && |sk| == 32
    ensures Crypt(t, Reversed(sk), Crypt(t, sk, block)) == block
  {
    var x0, y0 := GetWord(block[..4]), GetWord(block[4..]);
    var (x, y) := InitialPermutation(x0, y0);
    var s := Rounds(t, sk, |sk| / 2, Halves(y, x));
    var (y', x') := FinalPermutation(s.u, s.v);
    var c := Crypt(t, sk, block);
    assert c[..4] == PutWord(y') && c[4..] == PutWord(x');
    GetPut(y');
    GetPut(x');
    InitialAfterFinal(s.u, s.v);
    RoundsInverse(t, sk, |sk| / 2, 0, Halves(y, x), Swap(s));
    assert Rounds(t, Reversed(sk), |sk| / 2, Swap(s)) == Halves(x, y);
    FinalAfterInitial(x0, y0);
    PutGet(block[..4]);
    PutGet(block[4..]);
  }

  /** A round of `t` on turned halves is a round of `u`. */
  ghost predicate Follows(t: Cipher, u: Cipher, turn: word -> word) {
    forall k1, k2, l, r {:trigger t.fold(k1, k2, turn(r), turn(l))} ::
      t.fold(k1, k2, turn(r), turn(l)) == turn(u.fold(k1, k2, r, l))
  }

  lemma CipherFollows(box: (nat, word) -> word)
    ensures Follows(DesCipher(box), Standard(box), RotateLeft)
  {
    forall k1, k2, l, r
      ensures DesCipher(box).fold(k1, k2, RotateLeft(r), RotateLeft(l)) ==
              RotateLeft(Standard(box).fold(k1, k2, r, l))
    {
      FoldByTable(box, k1, k2, l, r);
    }
  }

  /** The rounds on halves that are turned are the rounds of the standard. */
  lemma {:induction false} RoundsByNetwork(t: Cipher, u: Cipher, turn: word -> word,
                                           sk: seq<word>, n: nat, left: word, right: word)
    requires |sk| == 32 && n <= 16 && Follows(t, u, turn)
    ensures var (l, r) := Network(u, sk, n, left, right);
            Rounds(t, sk, n, Halves(turn(right), turn(left))) == Halves(turn(r), turn(l))
  {
    if n > 0 {
      RoundsByNetwork(t, u, turn, sk, n - 1, left, right);
      var p := Network(u, sk, n - 1, left, right);
      NextTurned(t, u, turn, sk, n - 1, Halves(turn(right), turn(left)), p.0, p.1);
    }
  }

  lemma NextTurned(t: Cipher, u: Cipher, turn: word -> word, sk: seq<word>, i: nat, start: Halves, l: word, r: word)
    requires |sk| == 32 && i < 16 && Follows(t, u, turn) && Rounds(t, sk, i, start) == Halves(turn(r), turn(l))
    ensures Rounds(t, sk, i + 1, start) == Halves(turn(u.fold(sk[2 * i], sk[2 * i + 1], r, l)), turn(r))
  {
    FollowsAt(t, u, turn, sk[2 * i], sk[2 * i + 1], l, r);
    NextRound(t, sk, i, start, Halves(turn(r), turn(l)));
  }

  lemma FollowsAt(t: Cipher, u: Cipher, turn: word -> word, k1: word, k2: word, l: word, r: word)
    requires Follows(t, u, turn)
    ensures t.fold(k1, k2, turn(r), turn(l)) == turn(u.fold(k1, k2, r, l))
  {
  }

  /** Four octets as a number, the first one highest. */
  function Number(b: seq<octet>): word
    requires |b| >= 4
  {
    0x100_0000 * (b[0] as word) + 0x1_0000 * (b[1] as word) + 0x100 * (b[2] as word) + (b[3] as word)
  }

  lemma WordIsNumber(b: seq<octet>)
    requires |b| >= 4
    ensures GetWord(b) == Number(b)
  {
    NumberOfBytes(b[0] as word, b[1] as word, b[2] as word, b[3] as word);
  }

  lemma NumberOfBytes(b0: word, b1: word, b2: word, b3: word)
    requires b0 < 0x100 && b1 < 0x100 && b2 < 0x100 && b3 < 0x100
    ensures (b0 << 24) | (b1 << 16) | (b2 << 8) | b3 == 0x100_0000 * b0 + 0x1_0000 * b1 + 0x100 * b2 + b3
  {
  }

  /** A block is enciphered as FIPS 46-3 says: the permutation IP, sixteen rounds, the
      halves exchanged, the permutation IP^-1. */
  lemma CryptByTables(box: (nat, word) -> word, sk: seq<word>, block: Block)
    requires |sk| == 32
    ensures var (left, right) := IP(Number(block[..4]), Number(block[4..]));
            var (l, r) := Network(Standard(box), sk, 16, left, right);
            var c := Crypt(DesCipher(box), sk, block);
            (Number(c[..4]), Number(c[4..])) == IPInverse(r, l)
  {
    var (x0, y0) := (GetWord(block[..4]), GetWord(block[4..]));
    WordIsNumber(block[..4]);
    WordIsNumber(block[4..]);
    var (left, right) := IP(x0, y0);
    InitialByTable(x0, y0);
    CipherFollows(box);
    RoundsByNetwork(DesCipher(box), Standard(box), RotateLeft, sk, 16, left, right);
    var (l, r) := Network(Standard(box), sk, 16, left, right);
    FinalByTable(r, l);
    var (y', x') := FinalPermutation(RotateLeft(r), RotateLeft(l));
    var c := Crypt(DesCipher(box), sk, block);
    assert c == PutWord(y') + PutWord(x');
    assert c[..4] == PutWord(y') && c[4..] == PutWord(x');
    GetPut(y');
    GetPut(x');
    WordIsNumber(c[..4]);
    WordIsNumber(c[4..]);
  }

  /** The sixteen rounds of des_crypt: X and Y take turns, two rounds a turn. */
  method DesRounds(t: Cipher, sk: seq<word>, x0: word, y0: word) returns (x: word, y: word)
    requires |sk| == 32
    ensures Halves(y, x) == Rounds(t, sk, |sk| / 2, Halves(y0, x0))
  {
    x, y := x0, y0;
    for turn := 0 to |sk| / 4
      invariant Halves(y, x) == Rounds(t, sk, 2 * turn, Halves(y0, x0))
    {
      ghost var x1, y1 := x, y;
      x := t.fold(sk[4 * turn], sk[4 * turn + 1], y, x);
      y := t.fold(sk[4 * turn + 2], sk[4 * turn + 3], x, y);
      TwoRounds(t, sk, 2 * turn, x1, y1, x, y, Halves(y0, x0));
    }
  }

  lemma TwoRounds(t: Cipher, sk: seq<word>, i: nat, x: word, y: word, x': word, y': word, start: Halves)
    requires |sk| == 32 && i + 2 <= 16 && Halves(y, x) == Rounds(t, sk, i, start)
    requires x' == t.fold(sk[2 * i], sk[2 * i + 1], y, x)
    requires y' == t.fold(sk[2 * i + 2], sk[2 * i + 3], x', y)
    ensures Halves(y', x') == Rounds(t, sk, i + 2, start)
  {
    NextRound(t, sk, i, start, Halves(y, x));
    assert Halves(x', y) == Rounds(t, sk, i + 1, start);
    NextRound(t, sk, i + 1, start, Halves(x', y));
  }

  /** des_crypt. */
  method DesCrypt(t: Cipher, sk: seq<word>, input: Block) returns (output: Block)
    requires |sk| == 32
    ensures output == Crypt(t, sk, input)
  {
    var p := InitialPermutation(GetWord(input[..4]), GetWord(input[4..]));
    var x, y := DesRounds(t, sk, p.0, p.1);
    var q := FinalPermutation(y, x);
    output := PutWord(q.0) + PutWord(q.1);
  }
}
