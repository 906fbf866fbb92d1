/** The socket id table of hashid.h: a fixed pool of nodes chained into buckets. */
module HashId {
  import opened Wrappers
  import opened Bytes
  import opened Chains
  import Arith

  /** struct hashid_node; -1 marks a free node. */
  datatype IdNode = IdNode(id: int, next: int)

  // ------------------------------------------------------------ buckets

  ghost predicate Chained(ids: seq<IdNode>, list: seq<nat>, head: int) {
    && head == First(list)
    && (forall i :: 0 <= i < |list| ==> list[i] < |ids|)
    && (forall i :: 0 <= i < |list| ==> ids[list[i]].next == After(list, i))
  }

  /** The nodes chained from `head` in the bucket `h` of `size`. */
  ghost predicate Bucket(ids: seq<IdNode>, list: seq<nat>, head: int, h: nat, size: nat)
    requires size > 0
  {
    && Chained(ids, list, head)
    && forall i :: 0 <= i < |list| ==> ids[list[i]].id >= 0 && ids[list[i]].id % size == h
  }

  ghost predicate BucketAt(ids: seq<IdNode>, chain: seq<seq<nat>>, hash: seq<int>, h: nat) {
    h < |chain| == |hash| && Bucket(ids, chain[h], hash[h], h, |hash|)
  }

  /** A node in use is on the chain of its bucket, and known by its id. */
  ghost predicate NodeAt(ids: seq<IdNode>, chain: seq<seq<nat>>, slots: map<int, nat>, n: nat)
    requires |chain| > 0
  {
    && n < |ids|
    && (if ids[n].id == -1 then ids[n].next == NULL
        else ids[n].id >= 0 && n in chain[ids[n].id % |chain|] && ids[n].id in slots && slots[ids[n].id] == n)
  }

  ghost predicate SlotAt(ids: seq<IdNode>, slots: map<int, nat>, id: int) {
    id in slots ==> 0 <= id && slots[id] < |ids| && ids[slots[id]].id == id
  }

  ghost predicate Table(ids: seq<IdNode>, hash: seq<int>, chain: seq<seq<nat>>, slots: map<int, nat>) {
    && |chain| == |hash| > 0
    && (forall h :: 0 <= h < |hash| ==> BucketAt(ids, chain, hash, h))
    && (forall n :: 0 <= n < |ids| ==> NodeAt(ids, chain, slots, n))
    && (forall id :: SlotAt(ids, slots, id))
  }

  // ------------------------------------------------------------ counting

  function Used(ids: seq<IdNode>): (u: nat)
    ensures u <= |ids|
  {
    if ids == [] then 0 else Used(ids[1..]) + if ids[0].id == -1 then 0 else 1
  }

  lemma {:induction false} UsedUpdate(ids: seq<IdNode>, n: nat, node: IdNode)
    requires n < |ids|
    ensures Used(ids[n := node]) ==
            Used(ids) - (if ids[n].id == -1 then 0 else 1) + (if node.id == -1 then 0 else 1)
  {
    if n == 0 {
      assert ids[n := node][1..] == ids[1..];
    } else {
      UsedUpdate(ids[1..], n - 1, node);
      assert ids[n := node][1..] == ids[1..][n - 1 := node];
    }
  }

  lemma {:induction false} UsedAll(ids: seq<IdNode>)
    requires forall n :: 0 <= n < |ids| ==> ids[n].id != -1
    ensures Used(ids) == |ids|
  {
    if ids != [] {
      UsedAll(ids[1..]);
    }
  }

  lemma {:induction false} UsedNext(ids: seq<IdNode>, n: nat, next: int)
    requires n < |ids|
    ensures Used(ids[n := ids[n].(next := next)]) == Used(ids)
  {
    UsedUpdate(ids, n, ids[n].(next := next));
  }

  // ------------------------------------------------------------ insertion

  /** A bucket is untouched by a change to a node that is not on it. */
  lemma BucketFrame(ids: seq<IdNode>, list: seq<nat>, head: int, h: nat, size: nat, n: nat, node: IdNode)
    requires size > 0 && Bucket(ids, list, head, h, size) && n < |ids| && n !in list
    ensures Bucket(ids[n := node], list, head, h, size)
  {
  }

  /** A free node is put at the front of a bucket. */
  lemma InsertBucket(ids: seq<IdNode>, list: seq<nat>, head: int, h: nat, size: nat, n: nat, id: int)
    requires size > 0 && Bucket(ids, list, head, h, size) && n < |ids| && n !in list && id >= 0 && id % size == h
    ensures Bucket(ids[n := IdNode(id, head)], [n] + list, n, h, size)
  {
    var ids', list' := ids[n := IdNode(id, head)], [n] + list;
    forall i | 0 <= i < |list'|
      ensures list'[i] < |ids'| && ids'[list'[i]].id >= 0 && ids'[list'[i]].id % size == h
        && ids'[list'[i]].next == After(list', i)
    {
      if i > 0 {
        assert list'[i] == list[i - 1] && list[i - 1] != n;
        assert ids[list[i - 1]].next == After(list, i - 1);
      }
    }
  }

  lemma FreeElsewhere(ids: seq<IdNode>, chain: seq<seq<nat>>, hash: seq<int>, h: nat, n: nat)
    requires BucketAt(ids, chain, hash, h) && n < |ids|
    requires ids[n].id == -1 || ids[n].id % |hash| != h
    ensures n !in chain[h]
  {
  }

  lemma InsertTable(ids: seq<IdNode>, hash: seq<int>, chain: seq<seq<nat>>, slots: map<int, nat>, n: nat, id: int)
    requires Table(ids, hash, chain, slots) && n < |ids| && ids[n].id == -1 && id >= 0 && id !in slots
    ensures var h := id % |hash|;
            Table(ids[n := IdNode(id, hash[h])], hash[h := n], chain[h := [n] + chain[h]], slots[id := n])
  {
    var h := id % |hash|;
    var ids', hash', chain', slots' := ids[n := IdNode(id, hash[h])], hash[h := n], chain[h := [n] + chain[h]],
      slots[id := n];
    forall g | 0 <= g < |hash| ensures BucketAt(ids', chain', hash', g) {
      assert BucketAt(ids, chain, hash, g);
      FreeElsewhere(ids, chain, hash, g, n);
      if g == h {
        InsertBucket(ids, chain[h], hash[h], h, |hash|, n, id);
      } else {
        BucketFrame(ids, chain[g], hash[g], g, |hash|, n, IdNode(id, hash[h]));
      }
    }
    forall m | 0 <= m < |ids| ensures NodeAt(ids', chain', slots', m) {
      assert NodeAt(ids, chain, slots, m);
    }
    forall j ensures SlotAt(ids', slots', j) {
      assert SlotAt(ids, slots, j);
    }
  }

  // ------------------------------------------------------------ removal

  /** A chain that ends has no node twice. */
  lemma {:induction false} Acyclic(ids: seq<IdNode>, list: seq<nat>, head: int, i: nat, j: nat)
    requires Chained(ids, list, head) && i < j < |list|
    ensures list[i] != list[j]
    decreases |list| - j
  {
    assert ids[list[i]].next == list[i + 1] && ids[list[j]].next == After(list, j);
    if j + 1 < |list| {
      Acyclic(ids, list, head, i + 1, j + 1);
    }
  }

  function Without(list: seq<nat>, k: nat): seq<nat>
    requires k < |list|
  {
    list[..k] + list[k + 1..]
  }

  /** The nodes after the `k`-th of a chain was unlinked and freed. */
  function Unlinked(ids: seq<IdNode>, list: seq<nat>, k: nat): (r: seq<IdNode>)
    requires k < |list| && forall i :: 0 <= i < |list| ==> list[i] < |ids|
    ensures |r| == |ids|
  {
    var n := list[k];
    var ids1 := if k == 0 then ids else ids[list[k - 1] := ids[list[k - 1]].(next := ids[n].next)];
    ids1[n := IdNode(-1, NULL)]
  }

  lemma UnlinkedAt(ids: seq<IdNode>, list: seq<nat>, head: int, k: nat, m: nat)
    requires Chained(ids, list, head) && k < |list| && m < |ids|
    ensures m == list[k] ==> Unlinked(ids, list, k)[m] == IdNode(-1, NULL)
    ensures m != list[k] ==> Unlinked(ids, list, k)[m].id == ids[m].id
    ensures m != list[k] && (k > 0 ==> m != list[k - 1]) ==> Unlinked(ids, list, k)[m] == ids[m]
    ensures k > 0 && m == list[k - 1] ==> Unlinked(ids, list, k)[m].next == After(list, k)
  {
    if k > 0 {
      Acyclic(ids, list, head, k - 1, k);
    }
  }

  lemma UnlinkedIds(ids: seq<IdNode>, list: seq<nat>, head: int, k: nat)
    requires Chained(ids, list, head) && k < |list|
    ensures forall m :: 0 <= m < |ids| ==> Unlinked(ids, list, k)[m].id == if m == list[k] then -1 else ids[m].id
  {
    forall m | 0 <= m < |ids| ensures Unlinked(ids, list, k)[m].id == if m == list[k] then -1 else ids[m].id {
      UnlinkedAt(ids, list, head, k, m);
    }
  }

  /** The `j`-th node of a chain after the `k`-th was unlinked. */
  lemma UnlinkedNode(ids: seq<IdNode>, list: seq<nat>, head: int, k: nat, j: nat)
    requires Chained(ids, list, head) && k < |list| && j < |list| && j != k
    ensures Unlinked(ids, list, k)[list[j]].id == ids[list[j]].id
    ensures Unlinked(ids, list, k)[list[j]].next == if j + 1 == k then After(list, k) else After(list, j)
  {
    Acyclic(ids, list, head, if j < k then j else k, if j < k then k else j);
    UnlinkedAt(ids, list, head, k, list[j]);
    if k > 0 && j != k - 1 {
      Acyclic(ids, list, head, if j < k - 1 then j else k - 1, if j < k - 1 then k - 1 else j);
    }
    assert ids[list[j]].next == After(list, j);
  }

  lemma RemoveChained(ids: seq<IdNode>, list: seq<nat>, head: int, k: nat)
    requires Chained(ids, list, head) && k < |list|
    ensures Chained(Unlinked(ids, list, k), Without(list, k), if k == 0 then ids[list[0]].next else head)
  {
    var ids', list' := Unlinked(ids, list, k), Without(list, k);
    assert ids[list[0]].next == After(list, 0);
    forall i | 0 <= i < |list'| ensures ids'[list'[i]].next == After(list', i) {
      var j := if i < k then i else i + 1;
      assert list'[i] == list[j];
      UnlinkedNode(ids, list, head, k, j);
    }
  }

  lemma RemoveHome(ids: seq<IdNode>, list: seq<nat>, head: int, h: nat, size: nat, k: nat, i: nat)
    requires size > 0 && Bucket(ids, list, head, h, size) && k < |list| && i < |Without(list, k)|
    ensures var n := Without(list, k)[i];
            n < |ids| && Unlinked(ids, list, k)[n].id == ids[n].id >= 0 && ids[n].id % size == h
  {
    var j := if i < k then i else i + 1;
    assert Without(list, k)[i] == list[j];
    UnlinkedNode(ids, list, head, k, j);
  }

  lemma RemoveBucket(ids: seq<IdNode>, list: seq<nat>, head: int, h: nat, size: nat, k: nat)
    requires size > 0 && Bucket(ids, list, head, h, size) && k < |list|
    ensures Bucket(Unlinked(ids, list, k), Without(list, k), if k == 0 then ids[list[0]].next else head, h, size)
  {
    RemoveChained(ids, list, head, k);
    forall i | 0 <= i < |Without(list, k)|
      ensures var n := Without(list, k)[i];
              Unlinked(ids, list, k)[n].id >= 0 && Unlinked(ids, list, k)[n].id % size == h
    {
      RemoveHome(ids, list, head, h, size, k, i);
    }
  }

  lemma WithoutKeeps(list: seq<nat>, k: nat, m: nat)
    requires k < |list| && m in list && m != list[k]
    ensures m in Without(list, k)
  {
    var i :| 0 <= i < |list| && list[i] == m;
    assert i < k ==> Without(list, k)[i] == m;
    assert i > k ==> Without(list, k)[i - 1] == m;
  }

  lemma RemoveOther(ids: seq<IdNode>, chain: seq<seq<nat>>, hash: seq<int>, h: nat, k: nat, g: nat)
    requires BucketAt(ids, chain, hash, h) && BucketAt(ids, chain, hash, g) && g != h && k < |chain[h]|
    ensures Bucket(Unlinked(ids, chain[h], k), chain[g], hash[g], g, |hash|)
  {
    forall i | 0 <= i < |chain[g]| ensures Unlinked(ids, chain[h], k)[chain[g][i]] == ids[chain[g][i]] {
      assert ids[chain[h][k]].id % |hash| == h;
      assert k > 0 ==> ids[chain[h][k - 1]].id % |hash| == h;
      UnlinkedAt(ids, chain[h], hash[h], k, chain[g][i]);
    }
  }

  lemma RemoveTable(ids: seq<IdNode>, hash: seq<int>, chain: seq<seq<nat>>, slots: map<int, nat>, id: int, k: nat)
    requires Table(ids, hash, chain, slots) && id >= 0
    requires var h := id % |hash|; BucketAt(ids, chain, hash, h) && k < |chain[h]| && ids[chain[h][k]].id == id
    ensures var h := id % |hash|; var n := chain[h][k];
            && id in slots && slots[id] == n
            && Table(Unlinked(ids, chain[h], k), hash[h := if k == 0 then ids[n].next else hash[h]],
                     chain[h := Without(chain[h], k)], slots - {id})
  {
    var h := id % |hash|;
    var list, n := chain[h], chain[h][k];
    var ids', chain', slots' := Unlinked(ids, list, k), chain[h := Without(list, k)], slots - {id};
    var hash' := hash[h := if k == 0 then ids[n].next else hash[h]];
    assert NodeAt(ids, chain, slots, n);
    forall g | 0 <= g < |hash| ensures BucketAt(ids', chain', hash', g) {
      if g == h {
        RemoveBucket(ids, list, hash[h], h, |hash|, k);
      } else {
        assert BucketAt(ids, chain, hash, g);
        RemoveOther(ids, chain, hash, h, k, g);
      }
    }
    forall m | 0 <= m < |ids| ensures NodeAt(ids', chain', slots', m) {
      RemoveNode(ids, hash, chain, slots, id, k, m);
    }
    forall j ensures SlotAt(ids', slots', j) {
      assert SlotAt(ids, slots, j);
      if j in slots' {
        UnlinkedAt(ids, list, hash[h], k, slots[j]);
      }
    }
  }

  lemma RemoveNode(ids: seq<IdNode>, hash: seq<int>, chain: seq<seq<nat>>, slots: map<int, nat>, id: int, k: nat,
                   m: nat)
    requires Table(ids, hash, chain, slots) && id >= 0 && m < |ids|
    requires var h := id % |hash|; BucketAt(ids, chain, hash, h) && k < |chain[h]| && ids[chain[h][k]].id == id
    ensures var h := id % |hash|; NodeAt(Unlinked(ids, chain[h], k), chain[h := Without(chain[h], k)], slots - {id}, m)
  {
    var h := id % |hash|;
    var list, n := chain[h], chain[h][k];
    assert NodeAt(ids, chain, slots, m) && NodeAt(ids, chain, slots, n);
    UnlinkedAt(ids, list, hash[h], k, m);
    if m != n && ids[m].id != -1 && ids[m].id % |hash| == h {
      WithoutKeeps(list, k, m);
    }
    assert k > 0 ==> ids[list[k - 1]].id >= 0;
  }

  /** The chain of a bucket has the id if and only if the table does. */
  lemma Found(ids: seq<IdNode>, hash: seq<int>, chain: seq<seq<nat>>, slots: map<int, nat>, id: int)
    requires Table(ids, hash, chain, slots)
    ensures BucketAt(ids, chain, hash, id % |hash|) && SlotAt(ids, slots, id)
    ensures id in slots ==> slots[id] in chain[id % |hash|]
    ensures forall i :: 0 <= i < |chain[id % |hash|]| && ids[chain[id % |hash|][i]].id == id ==>
              id in slots && slots[id] == chain[id % |hash|][i]
  {
    var h := id % |hash|;
    assert SlotAt(ids, slots, id);
    if id in slots {
      assert NodeAt(ids, chain, slots, slots[id]);
    }
    assert BucketAt(ids, chain, hash, h);
    forall i | 0 <= i < |chain[h]| && ids[chain[h][i]].id == id ensures id in slots && slots[id] == chain[h][i] {
      assert NodeAt(ids, chain, slots, chain[h][i]);
    }
  }

  // ------------------------------------------------------------ the table

  predicate InUse(ids: seq<IdNode>, id: nat, j: nat)
    requires |ids| > 0
  {
    ids[(j + id) % |ids|].id != -1
  }

  class Ids {
    ghost var slots: map<int, nat>
    ghost var chain: seq<seq<nat>>
    var count: nat
    const cap: nat
    var ids: seq<IdNode>
    var hash: seq<int>

    ghost predicate Valid()
      reads this
    {
      Table(ids, hash, chain, slots) && |ids| == cap && count == Used(ids) == |slots.Keys|
    }

    /** hashid_init. */
    constructor (max: nat)
      ensures Valid() && slots == map[] && cap == max && forall n :: 0 <= n < |ids| ==> ids[n].id == -1
    {
      var hashcap := 16;
      while hashcap < max
        invariant hashcap >= 16
      {
        hashcap := hashcap * 2;
      }
      cap := max;
      count := 0;
      ids := seq(max, _ => IdNode(-1, NULL));
      hash := seq(hashcap, _ => NULL);
      chain := seq(hashcap, _ => []);
      slots := map[];
      new;
      NoneUsed(ids);
    }

    /** hashid_lookup: exactly the ids in the table are found, at their slots. */
    method Lookup(id: int) returns (r: int)
      requires Valid()
      ensures r == if id in slots then slots[id] else -1
    {
      var h := id % |hash|;
      Found(ids, hash, chain, slots, id);
      var c := hash[h];
      ghost var i := 0;
      while c != NULL
        invariant 0 <= i <= |chain[h]| && c == (if i < |chain[h]| then chain[h][i] else NULL)
        invariant forall j :: 0 <= j < i ==> ids[chain[h][j]].id != id
        decreases |chain[h]| - i
      {
        if ids[c].id == id {
          return c;
        }
        c := ids[c].next;
        i := i + 1;
      }
      r := -1;
    }

    /** hashid_remove. */
    method Remove(id: int) returns (r: int)
      requires Valid()
      modifies this`slots, this`chain, this`count, this`ids, this`hash
      ensures Valid() && slots == old(slots) - {id}
      ensures r == if id in old(slots) then old(slots)[id] else -1
      ensures |ids| == |old(ids)| && forall n :: 0 <= n < |ids| ==> ids[n].id == if n == r then -1 else old(ids)[n].id
    {
      var prev, c, k := Search(id);
      if c != NULL {
        Unlink(id, prev, c, k);
      }
      r := c;
    }

    /** The walk of hashid_remove along a bucket, one node behind. */
    method Search(id: int) returns (prev: int, c: int, ghost k: nat)
      requires Valid()
      ensures c == NULL ==> id !in slots
      ensures c != NULL ==>
        && 0 <= c < |ids| && id >= 0 && BucketAt(ids, chain, hash, id % |hash|)
        && k < |chain[id % |hash|]| && chain[id % |hash|][k] == c && ids[c].id == id
        && prev == (if k == 0 then NULL else chain[id % |hash|][k - 1])
    {
      Found(ids, hash, chain, slots, id);
      prev, c, k := Walk(ids, hash[id % |hash|], id, chain[id % |hash|]);
    }

    /** The relinking and clearing of hashid_remove, behind `prev` or at the front. */
    method Unlink(id: int, prev: int, n: nat, ghost k: nat)
      requires Valid() && id >= 0 && BucketAt(ids, chain, hash, id % |hash|)
      requires k < |chain[id % |hash|]| && chain[id % |hash|][k] == n < |ids| && ids[n].id == id
      requires prev == (if k == 0 then NULL else chain[id % |hash|][k - 1])
      modifies this`slots, this`chain, this`count, this`ids, this`hash
      ensures Valid() && id in old(slots) && old(slots)[id] == n && slots == old(slots) - {id}
      ensures |ids| == |old(ids)| && forall m :: 0 <= m < |ids| ==> ids[m].id == if m == n then -1 else old(ids)[m].id
    {
      ghost var h, was, list := id % |hash|, ids, chain[id % |hash|];
      RemoveTable(ids, hash, chain, slots, id, k);
      UnlinkedIds(ids, list, hash[h], k);
      UsedUnlinked(ids, list, hash[h], h, |hash|, k);
      if prev == NULL {
        hash := hash[id % |hash| := ids[n].next];
      } else {
        ids := ids[prev := ids[prev].(next := ids[n].next)];
      }
      ids := ids[n := IdNode(-1, NULL)];
      count := count - 1;
      assert (slots - {id}).Keys == slots.Keys - {id};
      slots := slots - {id};
      chain := chain[h := Without(list, k)];
      assert prev != NULL ==> hash[h := hash[h]] == hash;
    }

    /** hashid_full. */
    method Full() returns (r: bool)
      requires Valid()
      ensures r <==> |slots.Keys| == cap
    {
      r := count == cap;
    }

    /** hashid_insert: a free node is found, so the first assertion holds; it is not
        linked, so the second does. */
    method Insert(id: nat) returns (r: nat)
      requires Valid() && id !in slots && |slots.Keys| < cap
      modifies this`slots, this`chain, this`count, this`ids, this`hash
      ensures Valid() && r < |ids| == |old(ids)| && old(ids)[r].id == -1 && slots == old(slots)[id := r]
      ensures forall n :: 0 <= n < |ids| ==> ids[n].id == if n == r then id else old(ids)[n].id
    {
      r := FindFree(id);
      assert NodeAt(ids, chain, slots, r);
      InsertTable(ids, hash, chain, slots, r, id);
      UsedUpdate(ids, r, IdNode(id, hash[id % |hash|]));
      count := count + 1;
      var h := id % |hash|;
      assert ids[r].next == NULL;
      ids := ids[r := IdNode(id, hash[h])];
      chain := chain[h := [r] + chain[h]];
      hash := hash[h := r];
      assert slots[id := r].Keys == slots.Keys + {id};
      slots := slots[id := r];
    }

    method FindFree(id: nat) returns (r: nat)
      requires Valid() && count != cap
      ensures r < |ids| && ids[r].id == -1
    {
      var i := 0;
      while ids[(i + id) % cap].id != -1
        invariant 0 <= i < cap
        invariant forall j :: 0 <= j < i ==> InUse(ids, id, j)
        decreases cap - i
      {
        i := i + 1;
        if i == cap {
          AllProbed(ids, id);
          UsedAll(ids);
        }
      }
      r := (i + id) % cap;
    }
  }

  method Walk(ids: seq<IdNode>, head: int, id: int, ghost list: seq<nat>) returns (prev: int, c: int, ghost k: nat)
    requires Chained(ids, list, head)
    ensures c == NULL ==> forall j :: 0 <= j < |list| ==> ids[list[j]].id != id
    ensures c != NULL ==>
      k < |list| && list[k] == c && ids[c].id == id && prev == (if k == 0 then NULL else list[k - 1])
  {
    prev, c, k := NULL, head, 0;
    while c != NULL && ids[c].id != id
      invariant k <= |list| && c == (if k < |list| then list[k] else NULL)
      invariant prev == (if k == 0 then NULL else list[k - 1])
      invariant forall j :: 0 <= j < k ==> ids[list[j]].id != id
      decreases |list| - k
    {
      prev, c, k := c, ids[c].next, k + 1;
    }
  }

  lemma NoneUsed(ids: seq<IdNode>)
    requires forall n :: 0 <= n < |ids| ==> ids[n].id == -1
    ensures Used(ids) == 0
  {
  }

  lemma UsedUnlinked(ids: seq<IdNode>, list: seq<nat>, head: int, h: nat, size: nat, k: nat)
    requires size > 0 && Bucket(ids, list, head, h, size) && k < |list|
    ensures Used(Unlinked(ids, list, k)) == Used(ids) - 1
  {
    if k > 0 {
      Acyclic(ids, list, head, k - 1, k);
      UsedNext(ids, list[k - 1], ids[list[k]].next);
      UsedUpdate(ids[list[k - 1] := ids[list[k - 1]].(next := ids[list[k]].next)], list[k], IdNode(-1, NULL));
    } else {
      UsedUpdate(ids, list[k], IdNode(-1, NULL));
    }
  }

  /** The probe sequence of an id passes every node. */
  lemma AllProbed(ids: seq<IdNode>, id: nat)
    requires |ids| > 0 && forall j :: 0 <= j < |ids| ==> InUse(ids, id, j)
    ensures forall n :: 0 <= n < |ids| ==> ids[n].id != -1
  {
    forall n | 0 <= n < |ids| ensures ids[n].id != -1 {
      var j := Arith.ModCover(id, |ids|, n);
      assert InUse(ids, id, j);
    }
  }
}
