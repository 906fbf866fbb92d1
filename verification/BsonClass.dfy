/** Which Lua values lua-bson.c writes, said of the values themselves. */
module BsonClass {
  import opened Wrappers
  import opened Bytes
  import opened Bson
  import opened BsonLua
  import Utf8

  /** A text: code points in UTF-8, one behind the other. */
  ghost predicate IsText(s: seq<byte>) {
    exists codes: seq<Utf8.CodePoint> :: s == Utf8.EncodedAll(codes)
  }

  /** A pattern and options, each with a byte behind it: the one between them is NUL, and
      the options have none. */
  ghost predicate IsPattern(r: seq<byte>) {
    exists k: nat :: k < |r| - 1 && SplitsAt(r, k)
  }

  ghost predicate SplitsAt(r: seq<byte>, k: nat)
    requires k < |r| - 1
  {
    r[k] == 0 && NulFree(r[k + 1..|r| - 1]) && IsText(r[..k]) && IsText(r[k + 1..|r| - 1])
  }

  /** The payloads that may stand behind NUL and the number of a type: any bytes for
      BINARY (5), NULL (10), DBPOINTER, JSCODE, SYMBOL, CODEWS (12 .. 15), MAXKEY (127) and
      MINKEY (255); 12, 4 and 8 bytes for OBJECTID (7), DATE (9) and TIMESTAMP (17). */
  ghost predicate IsPayload(t: byte, r: seq<byte>) {
    || t in {5, 10, 12, 13, 14, 15, 127, 255}
    || (t == 7 && |r| == 12) || (t == 9 && |r| == 4) || (t == 17 && |r| == 8)
    || (t == 11 && IsPattern(r))
  }

  ghost predicate WritableString(s: seq<byte>) {
    if |s| < 2 || s[0] != 0 then IsText(s) else IsPayload(s[1], s[2..])
  }

  /** Booleans, numbers, texts, the strings above, and tables nested at most `levels`
      deep. */
  ghost predicate Writable(v: LuaValue, levels: nat)
    decreases v, 2
  {
    match v
    case Boolean(_) => true
    case Integer(_) => true
    case Number(_) => true
    case String(s) => WritableString(s)
    case TableValue(_, _) => levels > 0 && WritableTable(v, levels - 1)
    case _ => false
  }

  /** A table has the items 1 .. n when lua_next has nothing behind item n, and otherwise
      texts as names. */
  ghost predicate WritableTable(v: LuaValue, levels: nat)
    requires v.TableValue?
    decreases v, 1
  {
    var n, es := v.length, v.entries;
    if n > 0 && es != [] && es[|es| - 1].key == Numbered(n) then
      forall m :: 1 <= m <= n ==> WritableItem(v, m, levels)
    else forall i :: 0 <= i < |es| ==> WritableEntry(v, i, levels)
  }

  ghost predicate WritableItem(v: LuaValue, m: nat, levels: nat)
    requires v.TableValue?
    decreases v, 0
  {
    exists i: nat :: i < |v.entries| && v.entries[i].key == Numbered(m) && Writable(v.entries[i].value, levels)
  }

  ghost predicate WritableEntry(v: LuaValue, i: nat, levels: nat)
    requires v.TableValue? && i < |v.entries|
    decreases v, 0
  {
    var e := v.entries[i];
    e.key.Named? && IsText(e.key.name) && Writable(e.value, levels)
  }

  /** A table of names with values that are nested at most 128 deep. */
  ghost predicate WritableDocument(v: LuaValue) {
    v.TableValue? && forall i :: 0 <= i < |v.entries| ==> WritableEntry(v, i, 128)
  }

  // ------------------------------------------------------------ strings

  lemma TextExactly(s: seq<byte>)
    ensures IsText(s) <==> Passes(s)
  {
    if IsText(s) {
      var codes: seq<Utf8.CodePoint> :| s == Utf8.EncodedAll(codes);
      Utf8.ValidEncoded(codes);
    }
    if Passes(s) {
      var _ := Utf8.CodesOf(s);
    }
  }

  lemma PatternSplit(r: seq<byte>, k: nat)
    requires k < |r| - 1 && r[k] == 0 && NulFree(r[k + 1..|r| - 1])
    ensures LastNul(r, |r| - 1) == k
  {
    var options := r[k + 1..|r| - 1];
    assert forall i :: k < i < |r| - 1 ==> r[i] == options[i - k - 1];
  }

  lemma PatternExactly(r: seq<byte>)
    ensures IsPattern(r) <==>
            HasInnerNul(r) && (var k := LastNul(r, |r| - 1); Passes(r[..k]) && Passes(r[k + 1..|r| - 1]))
  {
    if IsPattern(r) {
      var k: nat :| k < |r| - 1 && SplitsAt(r, k);
      PatternSplit(r, k);
      TextExactly(r[..k]);
      TextExactly(r[k + 1..|r| - 1]);
    }
    if HasInnerNul(r) {
      var k := LastNul(r, |r| - 1);
      RegexParts(r, k);
      TextExactly(r[..k]);
      TextExactly(r[k + 1..|r| - 1]);
      assert Passes(r[..k]) && Passes(r[k + 1..|r| - 1]) ==> SplitsAt(r, k);
    }
  }

  lemma PayloadExactly(t: byte, r: seq<byte>)
    ensures IsPayload(t, r) <==> ClassifyObject(t, r).Some? && Texts(ClassifyObject(t, r).value)
  {
    PatternExactly(r);
  }

  lemma StringWritable(s: seq<byte>)
    ensures WritableString(s) <==> Classify(s).Some? && Texts(Classify(s).value)
  {
    if IsObject(s) {
      PayloadExactly(s[1], s[2..]);
    } else {
      TextExactly(s);
    }
  }

  // ------------------------------------------------------------ tables

  lemma {:induction false} DigitsValid(s: seq<byte>)
    requires forall i :: 0 <= i < |s| ==> s[i] < 0x80
    ensures Utf8.Valid(s)
  {
    if s != [] {
      DigitsValid(s[1..]);
    }
  }

  lemma DecimalPasses(n: nat)
    ensures Passes(Decimal(n))
  {
    DecimalDigits(n);
    DigitsValid(Decimal(n));
  }

  lemma FindIs(es: seq<Entry>, i: nat)
    requires DistinctKeys(es) && i < |es|
    ensures Find(es, es[i].key) == i
  {
  }

  /** What is accepted `depth` tables down may be nested as much less. */
  lemma {:induction false} AcceptsExactly(v: LuaValue, depth: nat, levels: nat)
    requires BsonLua.WellFormed(v) && depth + levels == MAX_DEPTH
    ensures Accepts(v, depth) <==> Writable(v, levels)
    decreases v, 1
  {
    if v.TableValue? {
      if levels > 0 {
        AllExactly(v, depth + 1, levels - 1);
      }
    } else if v.String? {
      StringWritable(v.s);
    }
  }

  lemma {:induction false} AllExactly(v: LuaValue, depth: nat, levels: nat)
    requires v.TableValue? && BsonLua.WellFormed(v) && depth + levels == MAX_DEPTH
    ensures AcceptsAll(v, depth) <==> WritableTable(v, levels)
    decreases v, 0
  {
    forall i | 0 <= i < |v.entries|
      ensures Accepts(v.entries[i].value, depth) <==> Writable(v.entries[i].value, levels)
    {
      AcceptsExactly(v.entries[i].value, depth, levels);
    }
    if IsArray(v) {
      ItemsExactly(v, depth, levels);
    } else {
      EntriesExactly(v, depth, levels);
    }
  }

  lemma ItemsExactly(v: LuaValue, depth: nat, levels: nat)
    requires IsArray(v) && BsonLua.WellFormed(v)
    requires forall i :: 0 <= i < |v.entries| ==>
      (Accepts(v.entries[i].value, depth) <==> Writable(v.entries[i].value, levels))
    ensures AcceptsAll(v, depth) <==> WritableTable(v, levels)
  {
    forall j | 0 <= j < Count(v) ensures ElementAccepted(v, j, depth) <==> WritableItem(v, j + 1, levels) {
      DecimalPasses(j);
      if WritableItem(v, j + 1, levels) {
        var i: nat :| i < |v.entries| && v.entries[i].key == Numbered(j + 1) && Writable(v.entries[i].value, levels);
        FindIs(v.entries, i);
      }
    }
    ByItem(v, depth, levels);
  }

  lemma ByItem(v: LuaValue, depth: nat, levels: nat)
    requires IsArray(v)
    requires forall j :: 0 <= j < Count(v) ==> (ElementAccepted(v, j, depth) <==> WritableItem(v, j + 1, levels))
    ensures AcceptsAll(v, depth) <==> WritableTable(v, levels)
  {
    if AcceptsAll(v, depth) {
      forall m | 1 <= m <= v.length ensures WritableItem(v, m, levels) {
        assert ElementAccepted(v, m - 1, depth);
      }
    }
    if WritableTable(v, levels) {
      forall j | 0 <= j < Count(v) ensures ElementAccepted(v, j, depth) {
        assert WritableItem(v, j + 1, levels);
      }
    }
  }

  lemma EntriesExactly(v: LuaValue, depth: nat, levels: nat)
    requires v.TableValue? && !IsArray(v)
    requires forall i :: 0 <= i < |v.entries| ==>
      (Accepts(v.entries[i].value, depth) <==> Writable(v.entries[i].value, levels))
    ensures AcceptsAll(v, depth) <==> WritableTable(v, levels)
  {
    forall i | 0 <= i < |v.entries| ensures ElementAccepted(v, i, depth) <==> WritableEntry(v, i, levels) {
      if v.entries[i].key.Named? {
        TextExactly(v.entries[i].key.name);
      }
      assert Child(v, i) == v.entries[i].value;
    }
  }

  /** lencode writes exactly these tables. */
  lemma DocumentExactly(v: LuaValue)
    requires v.TableValue? && BsonLua.WellFormed(v)
    ensures AcceptsDocument(v) <==> WritableDocument(v)
  {
    AllExactly(v, 0, 128);
    if IsArray(v) {
      assert !WritableEntry(v, |v.entries| - 1, 128);
    }
  }
}
