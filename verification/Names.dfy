/** The sorted name table of skynet_handle.c: binary search, insertion with and
    without growth, and the compaction that retiring a handle performs. */
module Names {
  import opened Wrappers
  import opened Bytes
  import opened Arith

  const MAX_SLOT_SIZE: nat := 0x40000000

  type Text = seq<byte>

  /** `struct handle_name`. */
  datatype Name = Name(name: Text, handle: nat)

  // ------------------------------------------------------------ strcmp

  /** The sign of strcmp: bytes compare as unsigned, a proper prefix is less. */
  function Compare(a: Text, b: Text): (c: int)
    ensures -1 <= c <= 1
  {
    if a == [] && b == [] then 0
    else if a == [] then -1
    else if b == [] then 1
    else if a[0] < b[0] then -1
    else if a[0] > b[0] then 1
    else Compare(a[1..], b[1..])
  }

  lemma {:induction false} CompareEqual(a: Text, b: Text)
    ensures Compare(a, b) == 0 <==> a == b
  {
    if a != [] && b != [] {
      CompareEqual(a[1..], b[1..]);
      assert a == [a[0]] + a[1..] && b == [b[0]] + b[1..];
    }
  }

  lemma {:induction false} CompareSwap(a: Text, b: Text)
    ensures Compare(a, b) == -Compare(b, a)
  {
    if a != [] && b != [] {
      CompareSwap(a[1..], b[1..]);
    }
  }

  lemma {:induction false} CompareTransitive(a: Text, b: Text, c: Text)
    requires Compare(a, b) < 0 && Compare(b, c) < 0
    ensures Compare(a, c) < 0
  {
    if a != [] && b != [] && c != [] && a[0] == b[0] == c[0] {
      CompareTransitive(a[1..], b[1..], c[1..]);
    }
  }

  predicate Less(a: Text, b: Text) { Compare(a, b) < 0 }

  /** Strictly ascending. */
  ghost predicate Sorted(s: seq<Name>) {
    forall i, j :: 0 <= i < j < |s| ==> Less(s[i].name, s[j].name)
  }

  // ------------------------------------------------------------ as a map

  /** Plain lookup: the handle filed under `n`, if any. */
  function Lookup(s: seq<Name>, n: Text): Option<nat> {
    if s == [] then None else if s[0].name == n then Some(s[0].handle) else Lookup(s[1..], n)
  }

  lemma {:induction false} LookupAt(s: seq<Name>, k: nat)
    requires Sorted(s) && k < |s|
    ensures Lookup(s, s[k].name) == Some(s[k].handle)
  {
    if k > 0 {
      assert Less(s[0].name, s[k].name);
      CompareEqual(s[0].name, s[k].name);
      LookupAt(s[1..], k - 1);
    }
  }

  lemma {:induction false} LookupNone(s: seq<Name>, n: Text)
    requires forall i :: 0 <= i < |s| ==> s[i].name != n
    ensures Lookup(s, n) == None
  {
    if s != [] {
      LookupNone(s[1..], n);
    }
  }

  /** Inserting under a new name changes the map at that name only. */
  lemma {:induction false} LookupInsert(s: seq<Name>, k: nat, x: Name, n: Text)
    requires k <= |s| && forall i :: 0 <= i < |s| ==> s[i].name != x.name
    ensures Lookup(s[..k] + [x] + s[k..], n) == if n == x.name then Some(x.handle) else Lookup(s, n)
  {
    var t := s[..k] + [x] + s[k..];
    if k == 0 {
      assert t[1..] == s;
    } else {
      LookupInsert(s[1..], k - 1, x, n);
      assert t[1..] == s[1..][..k - 1] + [x] + s[1..][k - 1..];
    }
  }

  lemma SortedInsert(s: seq<Name>, k: nat, x: Name)
    requires Sorted(s) && k <= |s|
    requires forall i :: 0 <= i < k ==> Less(s[i].name, x.name)
    requires forall i :: k <= i < |s| ==> Less(x.name, s[i].name)
    ensures Sorted(s[..k] + [x] + s[k..])
  {
  }

  /** The names that do not belong to `handle`. */
  function Without(s: seq<Name>, handle: nat): seq<Name> {
    if s == [] then []
    else
      var n := |s| - 1;
      if s[n].handle == handle then Without(s[..n], handle) else Without(s[..n], handle) + [s[n]]
  }

  lemma {:induction false} WithoutMember(s: seq<Name>, handle: nat, k: nat)
    requires k < |Without(s, handle)|
    ensures Without(s, handle)[k].handle != handle
    ensures exists i :: 0 <= i < |s| && s[i] == Without(s, handle)[k]
  {
    var n := |s| - 1;
    var w := Without(s[..n], handle);
    if k < |w| {
      WithoutMember(s[..n], handle, k);
      var i :| 0 <= i < n && s[..n][i] == w[k];
      assert s[i] == Without(s, handle)[k];
    }
  }

  lemma {:induction false} WithoutSorted(s: seq<Name>, handle: nat)
    requires Sorted(s)
    ensures Sorted(Without(s, handle))
  {
    if s != [] {
      var n := |s| - 1;
      WithoutSorted(s[..n], handle);
      var w := Without(s[..n], handle);
      forall k | 0 <= k < |w| ensures Less(w[k].name, s[n].name) {
        WithoutMember(s[..n], handle, k);
        var i :| 0 <= i < n && s[..n][i] == w[k];
        assert Less(s[i].name, s[n].name);
      }
    }
  }

  lemma {:induction false} LookupAppend(s: seq<Name>, x: Name, n: Text)
    ensures Lookup(s + [x], n) == if Lookup(s, n).Some? then Lookup(s, n)
      else if x.name == n then Some(x.handle) else None
  {
    if s == [] {
      assert s + [x] == [x];
    } else {
      LookupAppend(s[1..], x, n);
      assert (s + [x])[1..] == s[1..] + [x];
    }
  }

  lemma {:induction false} LookupFound(s: seq<Name>, n: Text) returns (i: nat)
    requires Lookup(s, n).Some?
    ensures i < |s| && s[i].name == n && Lookup(s, n) == Some(s[i].handle)
  {
    if s[0].name == n {
      i := 0;
    } else {
      i := LookupFound(s[1..], n);
      i := i + 1;
    }
  }

  /** Retiring a handle removes exactly its names from the map. */
  lemma {:induction false} LookupWithout(s: seq<Name>, handle: nat, n: Text)
    requires Sorted(s)
    ensures Lookup(Without(s, handle), n) == if Lookup(s, n) == Some(handle) then None else Lookup(s, n)
  {
    if s != [] {
      var m := |s| - 1;
      LookupWithout(s[..m], handle, n);
      assert s == s[..m] + [s[m]];
      LookupAppend(s[..m], s[m], n);
      LookupAppend(Without(s[..m], handle), s[m], n);
      if Lookup(s[..m], n).Some? {
        var i := LookupFound(s[..m], n);
        assert Less(s[i].name, s[m].name);
        CompareEqual(s[i].name, s[m].name);
      }
    }
  }

  // ------------------------------------------------------------ binary search

  /** What skynet_handle_findname answers: zero when there is no such name. */
  function Answer(s: seq<Name>, n: Text): nat {
    if Lookup(s, n).Some? then Lookup(s, n).value else 0
  }

  /** A zero means that there is no such name if and only if no name has handle 0. */
  lemma ZeroMeansMissing(s: seq<Name>)
    requires Sorted(s)
    ensures (forall n :: Answer(s, n) == 0 <==> Lookup(s, n).None?) <==> (forall i :: 0 <= i < |s| ==> s[i].handle != 0)
  {
    forall i | 0 <= i < |s| ensures Lookup(s, s[i].name) == Some(s[i].handle) {
      LookupAt(s, i);
    }
    if forall i :: 0 <= i < |s| ==> s[i].handle != 0 {
      forall n ensures Answer(s, n) == 0 <==> Lookup(s, n).None? {
        if Lookup(s, n).Some? {
          var i := LookupFound(s, n);
        }
      }
    } else {
      var i :| 0 <= i < |s| && s[i].handle == 0;
      assert Answer(s, s[i].name) == 0 && Lookup(s, s[i].name).Some?;
    }
  }

  /** What the search loops keep: everything left of `begin` is less than the
      name, everything from `end` on is greater. */
  ghost predicate Bracket(s: seq<Name>, n: Text, begin: nat, end: nat) {
    && begin <= end <= |s|
    && (forall i :: 0 <= i < begin ==> Less(s[i].name, n))
    && (forall i :: end <= i < |s| ==> Less(n, s[i].name))
  }

  lemma BracketLeft(s: seq<Name>, n: Text, begin: nat, end: nat, mid: nat)
    requires Sorted(s) && Bracket(s, n, begin, end) && begin <= mid < end && Less(s[mid].name, n)
    ensures Bracket(s, n, mid + 1, end)
  {
    forall i | 0 <= i < mid + 1 ensures Less(s[i].name, n) {
      if i < mid {
        CompareTransitive(s[i].name, s[mid].name, n);
      }
    }
  }

  lemma BracketRight(s: seq<Name>, n: Text, begin: nat, end: nat, mid: nat)
    requires Sorted(s) && Bracket(s, n, begin, end) && begin <= mid < end && Compare(s[mid].name, n) > 0
    ensures Bracket(s, n, begin, mid)
  {
    CompareSwap(s[mid].name, n);
    forall i | mid <= i < |s| ensures Less(n, s[i].name) {
      if i > mid {
        CompareTransitive(n, s[mid].name, s[i].name);
      }
    }
  }

  lemma BracketClosed(s: seq<Name>, n: Text, k: nat)
    requires Bracket(s, n, k, k)
    ensures Lookup(s, n) == None && forall i :: 0 <= i < |s| ==> s[i].name != n
  {
    CompareEqual(n, n);
    LookupNone(s, n);
  }

  lemma Glue(s: seq<Name>, a: seq<Name>, x: Name, b: seq<Name>)
    requires |a| + 1 + |b| <= |s| && s[..|a|] == a && s[|a|] == x && s[|a| + 1..|a| + 1 + |b|] == b
    ensures s[..|a| + 1 + |b|] == a + [x] + b
  {
  }

  lemma Pow2Thirty()
    ensures Pow2(30) == 0x4000_0000
  {
    assert Pow2(5) == 32;
    Pow2Add(5, 5);
    Pow2Add(10, 10);
    Pow2Add(20, 10);
  }

  /** The table is at its largest with 2^30 names. */
  lemma Largest(bits: nat)
    requires 1 <= bits <= 30
    ensures 2 * Pow2(bits) > MAX_SLOT_SIZE <==> Pow2(bits) == 0x4000_0000
    ensures 2 * Pow2(bits) > MAX_SLOT_SIZE <==> bits == 30
  {
    Pow2Thirty();
    if bits < 30 {
      Pow2Less(bits, 30);
    }
  }

  lemma AtLeastTwo(bits: nat)
    requires 1 <= bits
    ensures Pow2(bits) >= 2
  {
  }

  lemma GapMade(s: seq<Name>, t: seq<Name>, before: nat, count: nat)
    requires before <= count <= |s| && count < |t|
    requires forall j :: 0 <= j < before ==> t[j] == s[j]
    requires forall j :: before < j <= count ==> t[j] == s[j - 1]
    ensures t[..before] == s[..before] && t[before + 1..count + 1] == s[before..count]
  {
  }

  class NameTable {
    /** The names in use, sorted. */
    ghost var contents: seq<Name>
    ghost var bits: nat
    var cap: nat
    var count: nat
    var name: array<Name>

    ghost predicate Valid()
      reads this, name
    {
      && name.Length == cap && count <= cap && name[..count] == contents && Sorted(contents)
      && cap == Pow2(bits) && 1 <= bits <= 30
    }

    constructor ()
      ensures Valid() && contents == [] && fresh(name)
    {
      cap, count, contents, bits := 2, 0, [], 1;
      name := new Name[2](_ => Name([], 0));
    }

    /** The search loop: the index of the name, or the place where it belongs. */
    method Search(n: Text) returns (found: bool, k: nat)
      requires Valid()
      ensures found ==> k < |contents| && contents[k].name == n && Lookup(contents, n) == Some(contents[k].handle)
      ensures !found ==> Bracket(contents, n, k, k)
    {
      var begin, end := 0, count - 1;
      while begin <= end
        invariant 0 <= begin <= end + 1 <= count && Bracket(contents, n, begin, end + 1)
      {
        var mid := (begin + end) / 2;
        assert name[mid] == contents[mid];
        var c := Compare(name[mid].name, n);
        if c == 0 {
          CompareEqual(name[mid].name, n);
          LookupAt(contents, mid);
          return true, mid;
        }
        if c < 0 {
          BracketLeft(contents, n, begin, end + 1, mid);
          begin := mid + 1;
        } else {
          BracketRight(contents, n, begin, end + 1, mid);
          end := mid - 1;
        }
      }
      return false, begin;
    }

    /** skynet_handle_findname: zero when there is no such name. */
    method FindName(n: Text) returns (handle: nat)
      requires Valid()
      ensures handle == Answer(contents, n)
    {
      var found, k := Search(n);
      if found {
        assert name[k] == contents[k];
        handle := name[k].handle;
      } else {
        BracketClosed(contents, n, k);
        handle := 0;
      }
    }

    /** _insert_name_before: a full table moves to twice the room, leaving the
        gap; otherwise the tail moves up by one. */
    method InsertBefore(x: Name, before: nat)
      requires Valid() && before <= count && (count == cap ==> cap * 2 <= MAX_SLOT_SIZE)
      requires Sorted(contents[..before] + [x] + contents[before..])
      modifies this, name
      ensures Valid() && (name == old(name) || fresh(name))
      ensures contents == old(contents[..before] + [x] + contents[before..])
      ensures cap == old(cap) || cap == 2 * old(cap)
    {
      MakeRoom(before);
      ghost var a, b := name[..before], name[before + 1..count + 1];
      assert a == contents[..before] && b == contents[before..];
      name[before] := x;
      count := count + 1;
      Glue(name[..], a, x, b);
      contents := contents[..before] + [x] + contents[before..];
    }

    /** A free place at `before`. */
    method MakeRoom(before: nat)
      requires name.Length == cap == Pow2(bits) && before <= count <= cap && 1 <= bits <= 30
      requires count == cap ==> cap * 2 <= MAX_SLOT_SIZE
      modifies this`cap, this`bits, this`name, name
      ensures name.Length == cap == Pow2(bits) && count < cap && 1 <= bits <= 30
      ensures (name == old(name) && cap == old(cap)) || (fresh(name) && cap == 2 * old(cap))
      ensures name[..before] == old(name[..before]) && name[before + 1..count + 1] == old(name[before..count])
    {
      if count >= cap {
        Largest(bits);
        AtLeastTwo(bits);
        Grow(before);
        bits := bits + 1;
      } else {
        Shift(before);
      }
    }

    method Grow(before: nat)
      requires name.Length == cap == count && before <= count && cap >= 2
      modifies this`cap, this`name
      ensures name.Length == cap == 2 * old(cap) && fresh(name)
      ensures name[..before] == old(name[..before]) && name[before + 1..count + 1] == old(name[before..count])
    {
      var bigger := new Name[cap * 2](_ => Name([], 0));
      var i := 0;
      while i < before
        modifies bigger
        invariant 0 <= i <= before && forall j :: 0 <= j < i ==> bigger[j] == name[j]
      {
        bigger[i] := name[i];
        i := i + 1;
      }
      while i < count
        modifies bigger
        invariant before <= i <= count && forall j :: 0 <= j < before ==> bigger[j] == name[j]
        invariant forall j :: before <= j < i ==> bigger[j + 1] == name[j]
      {
        bigger[i + 1] := name[i];
        i := i + 1;
      }
      GapMade(name[..], bigger[..], before, count);
      name := bigger;
      cap := cap * 2;
    }

    method Shift(before: nat)
      requires name.Length == cap && before <= count < cap
      modifies name
      ensures name[..before] == old(name[..before]) && name[before + 1..count + 1] == old(name[before..count])
    {
      var i := count;
      while i > before
        invariant before <= i <= count
        invariant forall j :: 0 <= j < i ==> name[j] == old(name[j])
        invariant forall j :: i < j <= count ==> name[j] == old(name[j - 1])
      {
        name[i] := name[i - 1];
        i := i - 1;
      }
      GapMade(old(name[..]), name[..], before, count);
    }

    /** _insert_name: nothing when the name is taken; an error when the table
        may not grow any more. */
    method InsertName(n: Text, handle: nat) returns (r: Result<bool>)
      requires Valid()
      modifies this, name
      ensures Valid() && (name == old(name) || fresh(name))
      ensures r == Ok(false) <==> Lookup(old(contents), n).Some?
      ensures r == Ok(true) ==>
        forall m :: Lookup(contents, m) == if m == n then Some(handle) else Lookup(old(contents), m)
      ensures r != Ok(true) ==> contents == old(contents)
      ensures r.Error? <==> Lookup(old(contents), n).None? && |old(contents)| == 0x4000_0000
    {
      var found, k := Search(n);
      if found {
        return Ok(false);
      }
      BracketClosed(contents, n, k);
      Largest(bits);
      if count >= cap && cap * 2 > MAX_SLOT_SIZE {
        return Error("name table full");
      }
      ghost var s, x := contents, Name(n, handle);
      SortedInsert(s, k, x);
      forall m ensures Lookup(s[..k] + [x] + s[k..], m) == if m == n then Some(handle) else Lookup(s, m) {
        LookupInsert(s, k, x, m);
      }
      InsertBefore(Name(n, handle), k);
      r := Ok(true);
    }

    /** The loop of skynet_handle_retire that moves the other names together. */
    method Compact(handle: nat) returns (j: nat)
      requires Valid()
      modifies name
      ensures j <= count && name[..j] == Without(contents, handle)
    {
      ghost var s := contents;
      j := 0;
      for i := 0 to count
        invariant j <= i && name[..j] == Without(s[..i], handle)
        invariant forall k :: i <= k < count ==> name[k] == s[k]
      {
        assert s[..i + 1][..i] == s[..i];
        if name[i].handle != handle {
          if i != j {
            name[j] := name[i];
          }
          j := j + 1;
        }
      }
      assert s[..count] == s;
    }

    /** The names of skynet_handle_retire. */
    method RemoveHandle(handle: nat)
      requires Valid()
      modifies this`contents, this`count, name
      ensures Valid()
      ensures forall m ::
        Lookup(contents, m) == if Lookup(old(contents), m) == Some(handle) then None else Lookup(old(contents), m)
    {
      ghost var s := contents;
      var j := Compact(handle);
      count := j;
      contents := Without(s, handle);
      WithoutSorted(s, handle);
      forall m ensures Lookup(contents, m) == if Lookup(s, m) == Some(handle) then None else Lookup(s, m) {
        LookupWithout(s, handle, m);
      }
    }
  }
}
