/** ldesencode and ldesdecode of lua-crypt.c: a text of any length, padded with
    0x80 and zeros, block by block.  The block cipher and the key schedule are
    function values, so that what is proved about texts is independent of them. */
module DesText {
  import opened Wrappers
  import opened Des

  type SubKeys = sk: seq<word> | |sk| == 32 witness seq(32, _ => 0 as word)

  /** `crypt` is des_crypt, `schedule` is des_main_ks. */
  datatype Codec = Codec(crypt: (SubKeys, Block) -> Block, schedule: seq<octet> -> SubKeys)

  /** The subkeys in reverse order undo a block. */
  ghost predicate Invertible(c: Codec) {
    forall sk: SubKeys, b: Block {:trigger c.crypt(Reversed(sk), c.crypt(sk, b))} ::
      c.crypt(Reversed(sk), c.crypt(sk, b)) == b
  }

  /** Block by block. */
  function CryptAll(c: Codec, sk: SubKeys, s: seq<octet>): (r: seq<octet>)
    requires |s| % 8 == 0
    ensures |r| == |s|
  {
    if s == [] then [] else c.crypt(sk, s[..8]) + CryptAll(c, sk, s[8..])
  }

  lemma {:induction false} CryptAllInverse(c: Codec, sk: SubKeys, s: seq<octet>)
    requires Invertible(c) && |s| % 8 == 0
    ensures CryptAll(c, Reversed(sk), CryptAll(c, sk, s)) == s
  {
    if s != [] {
      assert c.crypt(Reversed(sk), c.crypt(sk, s[..8])) == s[..8];
      CryptAllInverse(c, sk, s[8..]);
      var e := CryptAll(c, sk, s);
      assert e[..8] == c.crypt(sk, s[..8]) && e[8..] == CryptAll(c, sk, s[8..]);
      assert s == s[..8] + s[8..];
    }
  }

  lemma {:induction false} CryptAllAppend(c: Codec, sk: SubKeys, a: seq<octet>, b: seq<octet>)
    requires |a| % 8 == 0 && |b| == 8
    ensures CryptAll(c, sk, a + b) == CryptAll(c, sk, a) + c.crypt(sk, b)
  {
    if a == [] {
      assert a + b == b && b[..8] == b && b[8..] == [];
    } else {
      CryptAllAppend(c, sk, a[8..], b);
      assert (a + b)[..8] == a[..8] && (a + b)[8..] == a[8..] + b;
    }
  }

  function ZeroOctets(n: nat): (z: seq<octet>)
    ensures |z| == n && forall i :: 0 <= i < n ==> z[i] == 0
  {
    seq(n, _ => 0 as octet)
  }

  /** Method 2 of ISO/IEC 9797-1: one bit, then zeros up to a whole block. */
  function Pad(text: seq<octet>): (p: seq<octet>)
    ensures |p| % 8 == 0 && |text| < |p| <= |text| + 8
  {
    text + [0x80] + ZeroOctets(7 - |text| % 8)
  }

  /** A byte with only its top bit, and the fewest zeros that fill up a block of eight. */
  predicate IsPadded(text: seq<octet>, p: seq<octet>) {
    && |text| < |p| && |p| % 8 == 0 && |p| - |text| <= 8
    && p[..|text|] == text && p[|text|] == 1 << 7 && forall i :: |text| < i < |p| ==> p[i] == 0
  }

  lemma PaddedLength(text: seq<octet>, n: nat)
    requires |text| < n && n % 8 == 0 && n - |text| <= 8
    ensures n == |Pad(text)|
  {
  }

  lemma PadIsPadded(text: seq<octet>)
    ensures IsPadded(text, Pad(text))
  {
  }

  /** That is the padded text, and nothing else. */
  lemma PadExactly(text: seq<octet>, p: seq<octet>)
    ensures p == Pad(text) <==> IsPadded(text, p)
  {
    PadIsPadded(text);
    if IsPadded(text, p) {
      PaddedLength(text, |p|);
      forall i | 0 <= i < |p| ensures p[i] == Pad(text)[i] {
        assert i < |text| ==> p[i] == p[..|text|][i] == Pad(text)[..|text|][i];
      }
    }
  }

  /** The text in front of the last byte that is not zero, which must be 0x80
      and lie in the last block. */
  function Unpad(p: seq<octet>, window: nat): Result<seq<octet>>
    requires window <= |p|
    decreases window
  {
    if window == 0 then Error("Invalid des crypt text")
    else
      var last := |p| - 1;
      if p[last] == 0 then Unpad(p[..last], window - 1)
      else if p[last] == 0x80 then Ok(p[..last])
      else Error("Invalid des crypt text")
  }

  lemma {:induction false} UnpadZeros(text: seq<octet>, n: nat, window: nat)
    requires n < window <= |text| + 1 + n
    ensures Unpad(text + [0x80] + ZeroOctets(n), window) == Ok(text)
  {
    var p := text + [0x80] + ZeroOctets(n);
    if n == 0 {
      assert p[..|p| - 1] == text;
    } else {
      UnpadZeros(text, n - 1, window - 1);
      assert p[..|p| - 1] == text + [0x80] + ZeroOctets(n - 1);
    }
  }

  /** What ldesencode computes. */
  function Encode(c: Codec, key: seq<octet>, text: seq<octet>): Result<seq<octet>>
  {
    if |key| != 8 then Error("Invalid key size") else Ok(CryptAll(c, c.schedule(key), Pad(text)))
  }

  /** What ldesdecode computes. */
  function Decode(c: Codec, key: seq<octet>, text: seq<octet>): Result<seq<octet>>
  {
    if |key| != 8 then Error("Invalid key size")
    else if |text| % 8 != 0 || |text| == 0 then Error("Invalid des crypt text length")
    else Unpad(CryptAll(c, Reversed(c.schedule(key)), text), 8)
  }

  /** The codec of lua-crypt.c for given S-boxes and key schedule. */
  function DesCodec(box: (nat, word) -> word, schedule: seq<octet> -> SubKeys): Codec {
    Codec((sk: SubKeys, b: Block) => Crypt(DesCipher(box), sk, b), schedule)
  }

  lemma DesInvertible(box: (nat, word) -> word, schedule: seq<octet> -> SubKeys)
    ensures Invertible(DesCodec(box, schedule))
  {
    var c := DesCodec(box, schedule);
    DesInvolutive(box);
    forall sk: SubKeys, b: Block ensures c.crypt(Reversed(sk), c.crypt(sk, b)) == b {
      CryptInverse(DesCipher(box), sk, b);
    }
  }

  /** For every 8-byte key, every text and any S-boxes and key schedule, decoding
      the encoded text gives it back. */
  lemma RoundTrip(box: (nat, word) -> word, schedule: seq<octet> -> SubKeys, key: seq<octet>, text: seq<octet>)
    requires |key| == 8
    ensures var c := DesCodec(box, schedule);
            Encode(c, key, text).Ok? && Decode(c, key, Encode(c, key, text).value) == Ok(text)
  {
    DesInvertible(box, schedule);
    CodecRoundTrip(DesCodec(box, schedule), key, text);
  }

  lemma CodecRoundTrip(c: Codec, key: seq<octet>, text: seq<octet>)
    requires Invertible(c) && |key| == 8
    ensures Encode(c, key, text).Ok? && Decode(c, key, Encode(c, key, text).value) == Ok(text)
  {
    CryptAllInverse(c, c.schedule(key), Pad(text));
    UnpadZeros(text, 7 - |text| % 8, 8);
  }

  /** The padding is recovered uniquely: no two texts share a padded form. */
  lemma PadInjective(a: seq<octet>, b: seq<octet>)
    requires Pad(a) == Pad(b)
    ensures a == b
  {
    UnpadZeros(a, 7 - |a| % 8, 8);
    UnpadZeros(b, 7 - |b| % 8, 8);
  }

  // ------------------------------------------------------------ C's numbers

  /** A size_t as an `int`. */
  function AsInt(n: nat): (i: int)
    ensures -0x8000_0000 <= i < 0x8000_0000
    ensures n < 0x8000_0000 ==> i == n
  {
    var low := n % 0x1_0000_0000;
    if low < 0x8000_0000 then low else low - 0x1_0000_0000
  }

  /** The value of an `int` compared with a `size_t`. */
  function AsSize(i: int): nat
    requires i >= -0x8000_0000
  {
    if i >= 0 then i else i + 0x1_0000_0000_0000_0000
  }

  // ------------------------------------------------------------ the methods

  /** ldesencode; nothing when the `int` index does not get to the end of the buffer that
      is returned. */
  method DesEncode(c: Codec, key: seq<octet>, text: seq<octet>) returns (r: Option<Result<seq<octet>>>)
    ensures r.None? <==> |key| == 8 && |text| >= 0x8000_0000
    ensures r.Some? ==> r.value == Encode(c, key, text)
  {
    if |key| != 8 {
      return Some(Error("Invalid key size"));
    }
    var sk := c.schedule(key);
    var chunksz := (|text| + 8) / 8 * 8;
    var buffer := [];
    var i := 0;
    while i < AsInt(|text|) - 7
      invariant 0 <= i <= |text| && i % 8 == 0 && (i > 0 ==> i <= AsInt(|text|))
      invariant buffer == CryptAll(c, sk, text[..i])
    {
      var block := c.crypt(sk, text[i..i + 8]);
      NextBlock(c, sk, text, i);
      buffer := buffer + block;
      i := i + 8;
    }
    if i + 8 < chunksz {
      return None;
    }
    var tail := LastBlock(text, i);
    var block := c.crypt(sk, tail);
    PadSplit(text, i);
    CryptAllAppend(c, sk, text[..i], tail);
    r := Some(Ok(buffer + block));
  }

  lemma NextBlock(c: Codec, sk: SubKeys, text: seq<octet>, i: nat)
    requires i % 8 == 0 && i + 8 <= |text|
    ensures CryptAll(c, sk, text[..i + 8]) == CryptAll(c, sk, text[..i]) + c.crypt(sk, text[i..i + 8])
  {
    CryptAllAppend(c, sk, text[..i], text[i..i + 8]);
    assert text[..i] + text[i..i + 8] == text[..i + 8];
  }

  lemma PadSplit(text: seq<octet>, i: nat)
    requires i <= |text| && i % 8 == 0 && |text| - i < 8
    ensures text[..i] + (text[i..] + [0x80] + ZeroOctets(7 - (|text| - i))) == Pad(text)
  {
    assert |text| % 8 == |text| - i;
  }

  /** The loop that fills `tail`. */
  method LastBlock(text: seq<octet>, i: nat) returns (tail: seq<octet>)
    requires i <= |text| && |text| - i < 8
    ensures |tail| == 8 && tail == text[i..] + [0x80] + ZeroOctets(7 - (|text| - i))
  {
    var bytes := |text| - i;
    tail := [];
    for j := 0 to 8
      invariant |tail| == j
      invariant tail == (text[i..] + [0x80] + ZeroOctets(7 - bytes))[..j]
    {
      if j < bytes {
        tail := tail + [text[i + j]];
      } else if j == bytes {
        tail := tail + [0x80];
      } else {
        tail := tail + [0];
      }
    }
  }

  /** The key loop of ldesdecode. */
  method ReverseKeys(esk: SubKeys) returns (sk: seq<word>)
    ensures sk == Reversed(esk)
  {
    sk := [];
    var i := 0;
    while i < 32
      invariant 0 <= i <= 32 && i % 2 == 0 && |sk| == i
      invariant forall j :: 0 <= j < i ==> sk[j] == Reversed(esk)[j]
    {
      sk := sk + [esk[30 - i], esk[31 - i]];
      i := i + 2;
    }
  }

  /** A single block that decrypts to zeros: the scan for the padding goes on to the
      byte before the buffer, because the index is compared as unsigned. */
  predicate ReadsOutside(c: Codec, key: seq<octet>, text: seq<octet>) {
    |key| == 8 && |text| == 8 && CryptAll(c, Reversed(c.schedule(key)), text) == ZeroOctets(8)
  }

  /** What ldesdecode does is not defined: it reads before its buffer, or its `int` index
      runs over. */
  predicate Undefined(c: Codec, key: seq<octet>, text: seq<octet>) {
    ReadsOutside(c, key, text) || (|key| == 8 && |text| % 8 == 0 && |text| >= 0x8000_0000)
  }

  /** No encoded text is such a block; and its index runs over exactly when the padded
      text has 2^31 bytes or more. */
  lemma EncodedIsSafe(c: Codec, key: seq<octet>, text: seq<octet>)
    requires Invertible(c) && |key| == 8
    ensures Encode(c, key, text).Ok? && !ReadsOutside(c, key, Encode(c, key, text).value)
    ensures Undefined(c, key, Encode(c, key, text).value) <==> |text| >= 0x7fff_fff8
  {
    CryptAllInverse(c, c.schedule(key), Pad(text));
    assert Pad(text)[|text|] == 0x80;
    assert |Pad(text)| == (|text| / 8 + 1) * 8;
  }

  /** The scan for the padding: its length, -1 for a wrong byte, or nothing when it
      reads outside the buffer.  The `int` index of a buffer of more than 2^31 bytes starts
      before it or is too low to scan anything. */
  method Padding(buffer: seq<octet>) returns (padding: Option<int>)
    requires 8 <= |buffer| < 0x8000_0000_0000_0000 && |buffer| % 8 == 0
    ensures padding.None? <==> buffer == ZeroOctets(8) || AsInt(|buffer| - 1) < 0
    ensures padding != Some(0)
    ensures padding.Some? && |buffer| <= 0x8000_0000 ==>
      if 1 <= padding.value <= 8 then Unpad(buffer, 8) == Ok(buffer[..|buffer| - padding.value])
      else Unpad(buffer, 8).Error?
    ensures padding.Some? && |buffer| > 0x8000_0000 ==> padding == Some(1)
  {
    if |buffer| <= 0x8000_0000 {
      padding := ScanShort(buffer);
      return;
    }
    var n, i := 1, AsInt(|buffer| - 1);
    if AsSize(i) >= |buffer| - 8 {
      return None;
    }
    padding := Some(n);
  }

  /** The scan of a buffer that an `int` can index. */
  method ScanShort(buffer: seq<octet>) returns (padding: Option<int>)
    requires 8 <= |buffer| <= 0x8000_0000 && |buffer| % 8 == 0
    ensures padding.None? <==> buffer == ZeroOctets(8)
    ensures padding != Some(0)
    ensures padding.Some? ==>
      if 1 <= padding.value <= 8 then Unpad(buffer, 8) == Ok(buffer[..|buffer| - padding.value])
      else Unpad(buffer, 8).Error?
  {
    var n, i := 1, |buffer| - 1;
    assert buffer[..i + 1] == buffer;
    while AsSize(i) >= |buffer| - 8
      invariant |buffer| - 9 <= i < |buffer| && n == |buffer| - i
      invariant Unpad(buffer, 8) == Unpad(buffer[..i + 1], i + 9 - |buffer|)
      invariant forall k :: i < k < |buffer| ==> buffer[k] == 0
      decreases i
    {
      if i < 0 {
        return None;
      }
      assert i >= |buffer| - 8;
      assert buffer[..i + 1][..i] == buffer[..i];
      if buffer[i] == 0 {
        n := n + 1;
      } else if buffer[i] == 0x80 {
        return Some(n);
      } else {
        return Some(-1);
      }
      i := i - 1;
    }
    padding := Some(n);
  }

  /** The same text, or an error both times. */
  predicate Same(a: Result<seq<octet>>, b: Result<seq<octet>>) {
    (a.Ok? <==> b.Ok?) && (a.Ok? ==> a.value == b.value)
  }

  /** ldesdecode; nothing where what it does is not defined. */
  method DesDecode(c: Codec, key: seq<octet>, text: seq<octet>) returns (r: Option<Result<seq<octet>>>)
    ensures r.None? <==> Undefined(c, key, text)
    ensures r.Some? ==> Same(r.value, Decode(c, key, text))
  {
    if |key| != 8 {
      return Some(Error("Invalid key size"));
    }
    var sk := ReverseKeys(c.schedule(key));
    if |text| % 8 != 0 || |text| == 0 {
      return Some(Error("Invalid des crypt text length"));
    }
    var buffer := CryptBlocks(c, sk, text);
    if buffer.None? {
      return None;
    }
    var padding := Padding(buffer.value);
    if padding.None? {
      return None;
    }
    if padding.value < 0 || padding.value > 8 {
      return Some(Error("Invalid des crypt text"));
    }
    r := Some(Ok(buffer.value[..|text| - padding.value]));
  }

  /** The block loop of ldesdecode; nothing when its index runs over. */
  method CryptBlocks(c: Codec, sk: SubKeys, text: seq<octet>) returns (buffer: Option<seq<octet>>)
    requires |text| % 8 == 0
    ensures buffer == if |text| < 0x8000_0000 then Some(CryptAll(c, sk, text)) else None
  {
    var b := [];
    var i := 0;
    while AsSize(i) < |text|
      invariant 0 <= i <= |text| && i % 8 == 0 && i < 0x8000_0000
      invariant b == CryptAll(c, sk, text[..i])
    {
      var block := c.crypt(sk, text[i..i + 8]);
      NextBlock(c, sk, text, i);
      b := b + block;
      i := i + 8;
      if i >= 0x8000_0000 {
        return None;
      }
    }
    assert text[..i] == text;
    buffer := Some(b);
  }
}
