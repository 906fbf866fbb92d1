/** The read-only tables of lua-sharedata.c: an array part and a hash part that is
    built in two passes to exactly full load, with collisions chained through
    otherwise unused slots. */
module ShareData {
  import opened Wrappers
  import opened Bytes
  import opened Sets

  type i32 = x: int | -0x8000_0000 <= x < 0x8000_0000
  type u32 = x: int | 0 <= x < 0x1_0000_0000

  /** Integer keys and string keys; the string stands for its index. */
  datatype Key = IntKey(i: i32) | StrKey(s: seq<byte>)

  datatype Entry<V> = Entry(key: Key, value: V)

  /** `struct node`; Nil is valuetype VALUETYPE_NIL, an empty slot. */
  datatype Node<V> = Nil | Node(key: Key, keyhash: u32, next: int, nocolliding: bool, value: V)

  /** (uint32_t)key for integers; calchash is any function of the string. */
  function HashOf(calchash: seq<byte> -> u32, k: Key): u32 {
    match k
    case IntKey(i) => if i < 0 then i + 0x1_0000_0000 else i
    case StrKey(s) => calchash(s)
  }

  /** The key belongs to the hash part. */
  predicate IsHashKey(k: Key, sizearray: nat) {
    !(k.IntKey? && 0 < k.i <= sizearray)
  }

  /** The source table in the order of lua_next: each key once. */
  ghost predicate Distinct<V>(es: seq<Entry<V>>) {
    forall i, j :: 0 <= i < j < |es| ==> es[i].key != es[j].key
  }

  function Keys<V>(es: seq<Entry<V>>): set<Key> { set i | 0 <= i < |es| :: es[i].key }

  function HashKeys<V>(es: seq<Entry<V>>, sizearray: nat): set<Key> {
    set i | 0 <= i < |es| && IsHashKey(es[i].key, sizearray) :: es[i].key
  }

  ghost predicate Has<V>(es: seq<Entry<V>>, k: Key, v: V) {
    exists i :: 0 <= i < |es| && es[i] == Entry(k, v)
  }

  // ------------------------------------------------------------ the hash part

  /** The hash code of a key and the slot it leads to. */
  datatype Hashing = Hashing(code: Key -> u32, home: Key -> nat)

  /** `keyhash % sizehash` for a table of `n` slots. */
  function HashingOf(calchash: seq<byte> -> u32, n: nat): Hashing
    requires n > 0
  {
    Hashing(k => HashOf(calchash, k), k => HashOf(calchash, k) % n)
  }

  ghost predicate InRange(c: Hashing, n: nat) {
    forall k :: c.home(k) < n
  }

  lemma HashingInRange(calchash: seq<byte> -> u32, n: nat)
    requires n > 0
    ensures InRange(HashingOf(calchash, n), n)
  {
  }

  /** A filled slot: it holds a source entry, lies below the head of its group,
      and its link leads one step down. */
  ghost predicate SlotOk<V>(c: Hashing, es: seq<Entry<V>>, ns: seq<Node<V>>, depth: seq<nat>, j: nat)
    requires |depth| == |ns| && j < |ns| && InRange(c, |ns|)
  {
    ns[j].Node? ==>
      var m := c.home(ns[j].key);
      && Has(es, ns[j].key, ns[j].value) && ns[j].keyhash == c.code(ns[j].key)
      && ns[m].Node? && c.home(ns[m].key) == m && depth[j] <= depth[m]
      && (ns[j].nocolliding ==> depth[j] == 0 && j == m)
      && (if depth[j] == 0 then ns[j].next == -1
          else && 0 <= ns[j].next < |ns| && ns[ns[j].next].Node?
               && c.home(ns[ns[j].next].key) == m && depth[ns[j].next] == depth[j] - 1)
  }

  /** Two filled slots: different keys, and within one group different depths. */
  ghost predicate Apart<V>(c: Hashing, ns: seq<Node<V>>, depth: seq<nat>, i: nat, j: nat)
    requires |depth| == |ns| && i < |ns| && j < |ns|
  {
    ns[i].Node? && ns[j].Node? ==>
      ns[i].key != ns[j].key && (c.home(ns[i].key) == c.home(ns[j].key) ==> depth[i] != depth[j])
  }

  /** Chained hashing: `depth` counts the links below a slot, so no chain has a
      cycle, and no two slots of one group share a depth. */
  ghost predicate Chained<V>(c: Hashing, es: seq<Entry<V>>, ns: seq<Node<V>>, depth: seq<nat>) {
    && |depth| == |ns| > 0 && InRange(c, |ns|)
    && (forall j :: 0 <= j < |ns| ==> SlotOk(c, es, ns, depth, j))
    && (forall i, j :: 0 <= i < |ns| && 0 <= j < |ns| && i != j ==> Apart(c, ns, depth, i, j))
  }

  /** The keys that have a slot. */
  function Placed<V>(ns: seq<Node<V>>): set<Key> {
    set j | 0 <= j < |ns| && ns[j].Node? :: ns[j].key
  }

  function Filled<V>(ns: seq<Node<V>>): set<nat> {
    set j | 0 <= j < |ns| && ns[j].Node?
  }

  /** Filling an empty slot with a new key. */
  lemma PlacedGrows<V>(ns: seq<Node<V>>, j: nat, x: Node<V>)
    requires j < |ns| && ns[j].Nil? && x.Node?
    ensures Placed(ns[j := x]) == Placed(ns) + {x.key}
    ensures Filled(ns[j := x]) == Filled(ns) + {j} && j !in Filled(ns)
  {
    var ns' := ns[j := x];
    assert ns'[j].key in Placed(ns');
    forall k | k in Placed(ns) ensures k in Placed(ns') {
      var i :| 0 <= i < |ns| && ns[i].Node? && ns[i].key == k;
      assert ns'[i] == ns[i];
    }
    forall k | k in Placed(ns') ensures k in Placed(ns) + {x.key} {
      var i :| 0 <= i < |ns'| && ns'[i].Node? && ns'[i].key == k;
      if i != j { assert ns[i].key in Placed(ns); }
    }
  }

  /** Changing only the links of a filled slot. */
  lemma PlacedKept<V>(ns: seq<Node<V>>, j: nat, x: Node<V>)
    requires j < |ns| && ns[j].Node? && x.Node? && x.key == ns[j].key
    ensures Placed(ns[j := x]) == Placed(ns) && Filled(ns[j := x]) == Filled(ns)
  {
    var ns' := ns[j := x];
    forall k | k in Placed(ns) ensures k in Placed(ns') {
      var i :| 0 <= i < |ns| && ns[i].Node? && ns[i].key == k;
      assert ns'[i].key == k;
    }
    forall k | k in Placed(ns') ensures k in Placed(ns) {
      var i :| 0 <= i < |ns'| && ns'[i].Node? && ns'[i].key == k;
      assert ns[i].key == k;
    }
  }

  // ------------------------------------------------------------ first pass

  /** Filled slots hold keys that hash there; nothing is linked yet. */
  ghost predicate Unlinked<V>(c: Hashing, ns: seq<Node<V>>, depth: seq<nat>)
    requires |depth| == |ns|
  {
    forall j :: 0 <= j < |ns| && ns[j].Node? ==> c.home(ns[j].key) == j && depth[j] == 0
  }

  /** The home slots of the hash keys among `es[..i]` are filled, by keys that
      hash there. */
  ghost predicate HomesFilled<V>(c: Hashing, es: seq<Entry<V>>, sizearray: nat, i: nat, ns: seq<Node<V>>)
    requires i <= |es| && InRange(c, |ns|)
  {
    forall e :: 0 <= e < i && IsHashKey(es[e].key, sizearray) ==>
      ns[c.home(es[e].key)].Node? && c.home(ns[c.home(es[e].key)].key) == c.home(es[e].key)
  }

  function FreshNode<V>(c: Hashing, e: Entry<V>): Node<V> {
    Node(e.key, c.code(e.key), -1, true, e.value)
  }

  /** A key placed in its empty home slot. */
  lemma FillHome<V>(c: Hashing, es: seq<Entry<V>>, i: nat, ns: seq<Node<V>>, depth: seq<nat>)
    requires i < |es| && Chained(c, es, ns, depth) && Unlinked(c, ns, depth) && ns[c.home(es[i].key)].Nil?
    ensures var m := c.home(es[i].key);
            Chained(c, es, ns[m := FreshNode(c, es[i])], depth[m := 0])
            && Unlinked(c, ns[m := FreshNode(c, es[i])], depth[m := 0])
  {
    var m := c.home(es[i].key);
    var x := FreshNode(c, es[i]);
    var ns', depth' := ns[m := x], depth[m := 0];
    assert es[i] == Entry(x.key, x.value) && Has(es, x.key, x.value);
    forall j | 0 <= j < |ns'| ensures SlotOk(c, es, ns', depth', j) {
      assert SlotOk(c, es, ns, depth, j);
    }
    forall a, b | 0 <= a < |ns| && 0 <= b < |ns| && a != b ensures Apart(c, ns', depth', a, b) {
      assert Apart(c, ns, depth, a, b);
    }
  }

  // ------------------------------------------------------------ second pass

  /** A key whose home slot `m` is taken goes to the empty slot `n`, linked
      directly behind the head of its group. */
  lemma Collide<V>(c: Hashing, es: seq<Entry<V>>, i: nat, ns: seq<Node<V>>, depth: seq<nat>, n: nat)
    requires i < |es| && Chained(c, es, ns, depth) && n < |ns| && ns[n].Nil?
    requires var m := c.home(es[i].key); ns[m].Node? && c.home(ns[m].key) == m
    requires forall j :: 0 <= j < |ns| && ns[j].Node? ==> ns[j].key != es[i].key
    ensures var m := c.home(es[i].key);
            Chained(c, es, Linked(c, es[i], ns, m, n), depth[n := depth[m]][m := depth[m] + 1])
  {
    var m := c.home(es[i].key);
    var ns', depth' := Linked(c, es[i], ns, m, n), depth[n := depth[m]][m := depth[m] + 1];
    assert es[i] == Entry(es[i].key, es[i].value) && Has(es, es[i].key, es[i].value);
    assert SlotOk(c, es, ns, depth, m);
    forall j | 0 <= j < |ns'| ensures SlotOk(c, es, ns', depth', j) {
      assert SlotOk(c, es, ns, depth, j);
      assert j != m ==> Apart(c, ns, depth, j, m);
    }
    forall a, b | 0 <= a < |ns| && 0 <= b < |ns| && a != b ensures Apart(c, ns', depth', a, b) {
      assert Apart(c, ns, depth, a, b);
      assert SlotOk(c, es, ns, depth, a) && SlotOk(c, es, ns, depth, b);
      assert (a != m ==> Apart(c, ns, depth, a, m)) && (b != m ==> Apart(c, ns, depth, b, m));
    }
  }

  /** The assignments of fillcolliding to the two nodes. */
  function Linked<V>(c: Hashing, e: Entry<V>, ns: seq<Node<V>>, m: nat, n: nat): seq<Node<V>>
    requires m < |ns| && n < |ns| && ns[m].Node?
  {
    ns[n := Node(e.key, c.code(e.key), ns[m].next, false, e.value)]
      [m := ns[m].(next := n, nocolliding := false)]
  }

  lemma LinkedPlaced<V>(c: Hashing, e: Entry<V>, ns: seq<Node<V>>, m: nat, n: nat)
    requires m < |ns| && n < |ns| && ns[m].Node? && ns[n].Nil?
    ensures Placed(Linked(c, e, ns, m, n)) == Placed(ns) + {e.key}
    ensures Filled(Linked(c, e, ns, m, n)) == Filled(ns) + {n} && n !in Filled(ns)
  {
    var x := Node(e.key, c.code(e.key), ns[m].next, false, e.value);
    PlacedGrows(ns, n, x);
    PlacedKept(ns[n := x], m, ns[m].(next := n, nocolliding := false));
  }

  function Range(n: nat): (r: set<nat>)
    ensures |r| == n && forall x: nat :: x in r <==> x < n
  {
    if n == 0 then {} else Range(n - 1) + {n - 1}
  }

  /** While a key is missing, some slot is empty: the assertion of fillcolliding. */
  lemma EmptySlotExists<V>(ns: seq<Node<V>>, all: set<Key>, k: Key)
    requires |Placed(ns)| == |Filled(ns)| && Placed(ns) <= all && |all| == |ns| && k in all && k !in Placed(ns)
    ensures exists j :: 0 <= j < |ns| && ns[j].Nil?
  {
    SubsetSize(Placed(ns) + {k}, all);
    assert (forall j :: 0 <= j < |ns| ==> ns[j].Node?) ==> Filled(ns) == Range(|ns|);
  }

  /** Once every key has a slot, every slot is filled. */
  lemma AllFilled<V>(ns: seq<Node<V>>)
    requires |Placed(ns)| == |Filled(ns)| == |ns|
    ensures forall j :: 0 <= j < |ns| ==> ns[j].Node?
  {
    SubsetSize(Filled(ns), Range(|ns|));
    assert Filled(ns) == Range(|ns|);
    forall j | 0 <= j < |ns| ensures ns[j].Node? {
      assert j in Range(|ns|);
      assert j in Filled(ns);
    }
  }

  // ------------------------------------------------------------ the source table

  /** Plain lookup in the source table. */
  function RawGet<V>(es: seq<Entry<V>>, k: Key): Option<V> {
    if es == [] then None else if es[0].key == k then Some(es[0].value) else RawGet(es[1..], k)
  }

  lemma {:induction false} RawGetHas<V>(es: seq<Entry<V>>, k: Key, v: V)
    requires Distinct(es)
    ensures RawGet(es, k) == Some(v) <==> Has(es, k, v)
  {
    if es != [] {
      RawGetHas(es[1..], k, v);
      if Has(es[1..], k, v) {
        var i :| 0 <= i < |es[1..]| && es[1..][i] == Entry(k, v);
        assert es[i + 1] == Entry(k, v);
      }
      if Has(es, k, v) {
        var i :| 0 <= i < |es| && es[i] == Entry(k, v);
        if i > 0 {
          assert es[1..][i - 1] == Entry(k, v) && es[0].key != es[i].key;
        }
      }
      if es[0].key == k && es[0].value == v {
        assert es[0] == Entry(k, v);
      }
    }
  }

  lemma {:induction false} RawGetNone<V>(es: seq<Entry<V>>, k: Key)
    ensures RawGet(es, k).None? <==> k !in Keys(es)
  {
    if es != [] {
      RawGetNone(es[1..], k);
      assert forall i :: 0 <= i < |es[1..]| ==> es[1..][i] == es[i + 1];
      if k in Keys(es) && es[0].key != k {
        var i :| 0 <= i < |es| && es[i].key == k;
        assert es[1..][i - 1].key == k;
      }
      if k in Keys(es[1..]) {
        var i :| 0 <= i < |es[1..]| && es[1..][i].key == k;
        assert es[i + 1].key == k;
      }
      assert es[0].key in Keys(es);
    }
  }

  /** The hash keys among the first `i` entries. */
  lemma HashKeysStep<V>(es: seq<Entry<V>>, sizearray: nat, i: nat)
    requires i < |es| && Distinct(es)
    ensures HashKeys(es[..i + 1], sizearray)
            == HashKeys(es[..i], sizearray) + (if IsHashKey(es[i].key, sizearray) then {es[i].key} else {})
    ensures es[i].key !in HashKeys(es[..i], sizearray)
  {
    var a, b := es[..i], es[..i + 1];
    assert b[i] == es[i];
    forall k | k in HashKeys(a, sizearray) ensures k in HashKeys(b, sizearray) {
      var x :| 0 <= x < i && IsHashKey(a[x].key, sizearray) && a[x].key == k;
      assert b[x].key == k;
    }
    forall k | k in HashKeys(b, sizearray) && k != es[i].key ensures k in HashKeys(a, sizearray) {
      var x :| 0 <= x < i + 1 && IsHashKey(b[x].key, sizearray) && b[x].key == k;
      assert a[x].key == k;
    }
  }

  /** countsize: how many keys go to the hash part. */
  method CountSize<V>(es: seq<Entry<V>>, sizearray: nat) returns (n: nat)
    requires Distinct(es)
    ensures n == |HashKeys(es, sizearray)|
  {
    n := 0;
    for i := 0 to |es|
      invariant n == |HashKeys(es[..i], sizearray)|
    {
      HashKeysStep(es, sizearray, i);
      n := n + 1;
      if es[i].key.IntKey? && 0 < es[i].key.i <= sizearray {
        n := n - 1;
      }
    }
    assert es[..|es|] == es;
  }

  /** The keys with a slot are exactly `keys`, all of them hash keys. */
  ghost predicate PlacedAre<V>(es: seq<Entry<V>>, sizearray: nat, ns: seq<Node<V>>, keys: set<Key>) {
    Placed(ns) == keys && |keys| == |Filled(ns)| && keys <= HashKeys(es, sizearray)
  }

  /** The keys of `homes` sit in their home slots. */
  ghost predicate AtHome<V>(c: Hashing, ns: seq<Node<V>>, homes: set<Key>) {
    forall j :: 0 <= j < |ns| && ns[j].Node? && ns[j].key in homes ==> c.home(ns[j].key) == j
  }

  /** During the second pass: the first pass placed `homes`, each in its home
      slot; the keys with a slot by now are `keys`. */
  ghost predicate SecondPass<V>(c: Hashing, es: seq<Entry<V>>, sizearray: nat,
                                ns: seq<Node<V>>, depth: seq<nat>, homes: set<Key>, keys: set<Key>)
  {
    && Chained(c, es, ns, depth) && HomesFilled(c, es, sizearray, |es|, ns) && AtHome(c, ns, homes)
    && PlacedAre(es, sizearray, ns, keys)
    && |ns| == |HashKeys(es, sizearray)|
  }

  /** The current key is not in its home slot: it has no slot, and one is free. */
  lemma NeedsSlot<V>(c: Hashing, es: seq<Entry<V>>, sizearray: nat, i: nat,
                     ns: seq<Node<V>>, depth: seq<nat>, homes: set<Key>, keys: set<Key>)
    requires i < |es| && SecondPass(c, es, sizearray, ns, depth, homes, keys)
    requires es[i].key in keys ==> es[i].key in homes
    requires IsHashKey(es[i].key, sizearray) && ns[c.home(es[i].key)].key != es[i].key
    ensures es[i].key !in keys
    ensures exists j :: 0 <= j < |ns| && ns[j].Nil?
  {
    var k := es[i].key;
    assert k in homes ==> k !in Placed(ns);
    assert k in HashKeys(es, sizearray);
    EmptySlotExists(ns, HashKeys(es, sizearray), k);
  }

  lemma SecondPassSkip<V>(c: Hashing, es: seq<Entry<V>>, sizearray: nat, i: nat,
                          ns: seq<Node<V>>, depth: seq<nat>, homes: set<Key>, keys: set<Key>)
    requires i < |es| && SecondPass(c, es, sizearray, ns, depth, homes, keys)
    requires IsHashKey(es[i].key, sizearray) ==> ns[c.home(es[i].key)].key == es[i].key
    ensures IsHashKey(es[i].key, sizearray) ==> es[i].key in keys
  {
    if IsHashKey(es[i].key, sizearray) {
      assert ns[c.home(es[i].key)].key in Placed(ns);
    }
  }

  lemma SecondPassPlace<V>(c: Hashing, es: seq<Entry<V>>, sizearray: nat, i: nat,
                           ns: seq<Node<V>>, depth: seq<nat>, homes: set<Key>, keys: set<Key>, n: nat,
                           ns': seq<Node<V>>, depth': seq<nat>)
    requires i < |es| && SecondPass(c, es, sizearray, ns, depth, homes, keys)
    requires es[i].key !in keys && homes <= keys && IsHashKey(es[i].key, sizearray)
    requires n < |ns| && ns[n].Nil?
    requires var m := c.home(es[i].key);
             ns' == Linked(c, es[i], ns, m, n) && depth' == depth[n := depth[m]][m := depth[m] + 1]
    ensures SecondPass(c, es, sizearray, ns', depth', homes, keys + {es[i].key})
  {
    var m := c.home(es[i].key);
    CollideNew(c, es, i, ns, depth, n);
    PlacedMore(c, es, sizearray, i, ns, m, n, keys);
    LinkedKeys(c, es[i], ns, m, n);
    HomesStay(c, es, sizearray, ns, ns', n);
    AtHomeStays(c, es[i], ns, m, n, homes);
  }

  lemma CollideNew<V>(c: Hashing, es: seq<Entry<V>>, i: nat, ns: seq<Node<V>>, depth: seq<nat>, n: nat)
    requires i < |es| && Chained(c, es, ns, depth) && n < |ns| && ns[n].Nil? && es[i].key !in Placed(ns)
    requires var m := c.home(es[i].key); ns[m].Node? && c.home(ns[m].key) == m
    ensures var m := c.home(es[i].key);
            Chained(c, es, Linked(c, es[i], ns, m, n), depth[n := depth[m]][m := depth[m] + 1])
  {
    assert forall j :: 0 <= j < |ns| && ns[j].Node? ==> ns[j].key in Placed(ns);
    Collide(c, es, i, ns, depth, n);
  }

  lemma PlacedMore<V>(c: Hashing, es: seq<Entry<V>>, sizearray: nat, i: nat, ns: seq<Node<V>>, m: nat, n: nat,
                      keys: set<Key>)
    requires i < |es| && m < |ns| && n < |ns| && ns[m].Node? && ns[n].Nil?
    requires PlacedAre(es, sizearray, ns, keys) && es[i].key !in keys && IsHashKey(es[i].key, sizearray)
    ensures PlacedAre(es, sizearray, Linked(c, es[i], ns, m, n), keys + {es[i].key})
  {
    LinkedPlaced(c, es[i], ns, m, n);
    assert es[i].key in HashKeys(es, sizearray);
  }

  lemma AtHomeStays<V>(c: Hashing, e: Entry<V>, ns: seq<Node<V>>, m: nat, n: nat, homes: set<Key>)
    requires m < |ns| && n < |ns| && ns[m].Node? && ns[n].Nil? && AtHome(c, ns, homes) && e.key !in homes
    ensures AtHome(c, Linked(c, e, ns, m, n), homes)
  {
  }

  /** The first empty slot, or the size. */
  function FirstNil<V>(ns: seq<Node<V>>): (n: nat)
    ensures n <= |ns| && (n < |ns| ==> ns[n].Nil?)
    ensures n == |ns| ==> forall j :: 0 <= j < |ns| ==> ns[j].Node?
  {
    if ns == [] then 0 else if ns[0].Nil? then 0 else 1 + FirstNil(ns[1..])
  }

  /** What one turn of fillcolliding needs: the home slot of a hash key is filled,
      and an empty slot exists when it is filled by another key. */
  ghost predicate CanTurn<V>(c: Hashing, e: Entry<V>, sizearray: nat, ns: seq<Node<V>>) {
    IsHashKey(e.key, sizearray) ==>
      && c.home(e.key) < |ns| && ns[c.home(e.key)].Node?
      && (ns[c.home(e.key)].key != e.key ==> exists j :: 0 <= j < |ns| && ns[j].Nil?)
  }

  function Turn<V>(c: Hashing, e: Entry<V>, sizearray: nat, ns: seq<Node<V>>): (r: seq<Node<V>>)
    ensures |r| == |ns|
  {
    var m, n := c.home(e.key), FirstNil(ns);
    if IsHashKey(e.key, sizearray) && m < |ns| && ns[m].Node? && ns[m].key != e.key && n < |ns|
    then Linked(c, e, ns, m, n) else ns
  }

  function TurnDepth<V>(c: Hashing, e: Entry<V>, sizearray: nat, ns: seq<Node<V>>, depth: seq<nat>): (r: seq<nat>)
    requires |depth| == |ns|
    ensures |r| == |ns|
  {
    var m, n := c.home(e.key), FirstNil(ns);
    if IsHashKey(e.key, sizearray) && m < |ns| && ns[m].Node? && ns[m].key != e.key && n < |ns|
    then depth[n := depth[m]][m := depth[m] + 1] else depth
  }

  lemma TurnSafe<V>(c: Hashing, es: seq<Entry<V>>, sizearray: nat, i: nat,
                    ns: seq<Node<V>>, depth: seq<nat>, homes: set<Key>, keys: set<Key>)
    requires i < |es| && SecondPass(c, es, sizearray, ns, depth, homes, keys)
    requires es[i].key in keys ==> es[i].key in homes
    ensures |depth| == |ns| && CanTurn(c, es[i], sizearray, ns)
  {
    HomeIsFilled(c, es, sizearray, ns, i);
    if IsHashKey(es[i].key, sizearray) && ns[c.home(es[i].key)].key != es[i].key {
      NeedsSlot(c, es, sizearray, i, ns, depth, homes, keys);
    }
  }

  lemma TurnKeeps<V>(c: Hashing, es: seq<Entry<V>>, sizearray: nat, i: nat,
                     ns: seq<Node<V>>, depth: seq<nat>, homes: set<Key>, keys: set<Key>,
                     ns': seq<Node<V>>, depth': seq<nat>, keys': set<Key>)
    requires i < |es| && SecondPass(c, es, sizearray, ns, depth, homes, keys) && homes <= keys
    requires (es[i].key in keys ==> es[i].key in homes) && CanTurn(c, es[i], sizearray, ns)
    requires ns' == Turn(c, es[i], sizearray, ns) && depth' == TurnDepth(c, es[i], sizearray, ns, depth)
    requires keys' == keys + (if IsHashKey(es[i].key, sizearray) then {es[i].key} else {})
    ensures SecondPass(c, es, sizearray, ns', depth', homes, keys')
  {
    if IsHashKey(es[i].key, sizearray) && ns[c.home(es[i].key)].key != es[i].key {
      NeedsSlot(c, es, sizearray, i, ns, depth, homes, keys);
      TurnPlaces(c, es[i], sizearray, ns, depth);
      SecondPassPlace(c, es, sizearray, i, ns, depth, homes, keys, FirstNil(ns), ns', depth');
    } else {
      TurnSkips(c, es[i], sizearray, ns, depth);
      SecondPassSkip(c, es, sizearray, i, ns, depth, homes, keys);
      assert keys' == keys;
    }
  }

  lemma TurnPlaces<V>(c: Hashing, e: Entry<V>, sizearray: nat, ns: seq<Node<V>>, depth: seq<nat>)
    requires |depth| == |ns| && CanTurn(c, e, sizearray, ns)
    requires IsHashKey(e.key, sizearray) && ns[c.home(e.key)].key != e.key
    ensures FirstNil(ns) < |ns| && ns[FirstNil(ns)].Nil?
    ensures Turn(c, e, sizearray, ns) == Linked(c, e, ns, c.home(e.key), FirstNil(ns))
    ensures TurnDepth(c, e, sizearray, ns, depth)
            == depth[FirstNil(ns) := depth[c.home(e.key)]][c.home(e.key) := depth[c.home(e.key)] + 1]
  {
  }

  lemma TurnSkips<V>(c: Hashing, e: Entry<V>, sizearray: nat, ns: seq<Node<V>>, depth: seq<nat>)
    requires |depth| == |ns| && CanTurn(c, e, sizearray, ns)
    requires IsHashKey(e.key, sizearray) ==> ns[c.home(e.key)].key == e.key
    ensures Turn(c, e, sizearray, ns) == ns && TurnDepth(c, e, sizearray, ns, depth) == depth
  {
  }

  /** Only the new slot gets a key. */
  lemma LinkedKeys<V>(c: Hashing, e: Entry<V>, ns: seq<Node<V>>, m: nat, n: nat)
    requires m < |ns| && n < |ns| && ns[m].Node? && ns[n].Nil?
    ensures var ns' := Linked(c, e, ns, m, n);
            && |ns'| == |ns| && ns'[n].Node? && ns'[n].key == e.key
            && forall j :: 0 <= j < |ns| && j != n ==>
                 (ns'[j].Node? <==> ns[j].Node?) && (ns[j].Node? ==> ns'[j].key == ns[j].key)
  {
  }

  lemma HomeIsFilled<V>(c: Hashing, es: seq<Entry<V>>, sizearray: nat, ns: seq<Node<V>>, i: nat)
    requires i < |es| && InRange(c, |ns|) && HomesFilled(c, es, sizearray, |es|, ns)
    ensures c.home(es[i].key) < |ns| && (IsHashKey(es[i].key, sizearray) ==> ns[c.home(es[i].key)].Node?)
  {
  }

  lemma HomesStay<V>(c: Hashing, es: seq<Entry<V>>, sizearray: nat, ns: seq<Node<V>>, ns': seq<Node<V>>, n: nat)
    requires |ns'| == |ns| && InRange(c, |ns|) && HomesFilled(c, es, sizearray, |es|, ns) && n < |ns| && ns[n].Nil?
    requires forall j :: 0 <= j < |ns| && j != n ==>
               (ns'[j].Node? <==> ns[j].Node?) && (ns[j].Node? ==> ns'[j].key == ns[j].key)
    ensures HomesFilled(c, es, sizearray, |es|, ns')
  {
  }

  /** During the first pass, after `es[..i]`. */
  ghost predicate FirstPass<V>(c: Hashing, es: seq<Entry<V>>, sizearray: nat, i: nat, ns: seq<Node<V>>, depth: seq<nat>)
    requires i <= |es|
  {
    && Chained(c, es, ns, depth) && Unlinked(c, ns, depth) && HomesFilled(c, es, sizearray, i, ns)
    && PlacedAre(es, sizearray, ns, Placed(ns))
  }

  lemma FirstPassStart<V>(c: Hashing, es: seq<Entry<V>>, sizearray: nat, ns: seq<Node<V>>, depth: seq<nat>)
    requires |depth| == |ns| > 0 && InRange(c, |ns|) && forall j :: 0 <= j < |ns| ==> ns[j].Nil?
    ensures FirstPass(c, es, sizearray, 0, ns, depth)
  {
    assert Placed(ns) == {} && Filled(ns) == {};
  }

  /** fillnocolliding on a hash key whose home slot is empty. */
  lemma FirstPassPlace<V>(c: Hashing, es: seq<Entry<V>>, sizearray: nat, i: nat, ns: seq<Node<V>>, depth: seq<nat>)
    requires i < |es| && FirstPass(c, es, sizearray, i, ns, depth)
    requires IsHashKey(es[i].key, sizearray) && ns[c.home(es[i].key)].Nil?
    ensures var m := c.home(es[i].key);
            FirstPass(c, es, sizearray, i + 1, ns[m := FreshNode(c, es[i])], depth[m := 0])
  {
    var m := c.home(es[i].key);
    var ns' := ns[m := FreshNode(c, es[i])];
    FillHome(c, es, i, ns, depth);
    HomesGrow(c, es, sizearray, i, ns);
    HomeUnplaced(c, ns, depth, es[i].key);
    PlacedGrows(ns, m, FreshNode(c, es[i]));
    assert es[i].key in HashKeys(es, sizearray);
  }

  lemma HomesGrow<V>(c: Hashing, es: seq<Entry<V>>, sizearray: nat, i: nat, ns: seq<Node<V>>)
    requires i < |es| && InRange(c, |ns|) && HomesFilled(c, es, sizearray, i, ns) && ns[c.home(es[i].key)].Nil?
    ensures HomesFilled(c, es, sizearray, i + 1, ns[c.home(es[i].key) := FreshNode(c, es[i])])
  {
  }

  lemma FirstPassSkip<V>(c: Hashing, es: seq<Entry<V>>, sizearray: nat, i: nat, ns: seq<Node<V>>, depth: seq<nat>)
    requires i < |es| && FirstPass(c, es, sizearray, i, ns, depth)
    requires IsHashKey(es[i].key, sizearray) ==> ns[c.home(es[i].key)].Node?
    ensures FirstPass(c, es, sizearray, i + 1, ns, depth)
  {
  }

  lemma HomeUnplaced<V>(c: Hashing, ns: seq<Node<V>>, depth: seq<nat>, k: Key)
    requires |depth| == |ns| && InRange(c, |ns|) && Unlinked(c, ns, depth) && ns[c.home(k)].Nil?
    ensures k !in Placed(ns)
  {
  }

  ghost predicate KeysAt<V>(es: seq<Entry<V>>, sizearray: nat, i: nat, homes: set<Key>, keys: set<Key>)
    requires i <= |es|
  {
    keys == homes + HashKeys(es[..i], sizearray)
  }

  lemma KeysStart<V>(es: seq<Entry<V>>, sizearray: nat, homes: set<Key>)
    ensures KeysAt(es, sizearray, 0, homes, homes)
  {
    assert HashKeys(es[..0], sizearray) == {};
  }

  lemma KeysStep<V>(es: seq<Entry<V>>, sizearray: nat, i: nat, homes: set<Key>, keys: set<Key>)
    requires i < |es| && Distinct(es) && KeysAt(es, sizearray, i, homes, keys)
    ensures es[i].key in keys ==> es[i].key in homes
    ensures KeysAt(es, sizearray, i + 1, homes, keys + (if IsHashKey(es[i].key, sizearray) then {es[i].key} else {}))
  {
    HashKeysStep(es, sizearray, i);
  }

  lemma KeysEnd<V>(es: seq<Entry<V>>, sizearray: nat, homes: set<Key>, keys: set<Key>)
    requires KeysAt(es, sizearray, |es|, homes, keys) && homes <= HashKeys(es, sizearray)
    ensures keys == HashKeys(es, sizearray)
  {
    assert es[..|es|] == es;
  }

  datatype Built<V> = Built(ns: seq<Node<V>>, depth: seq<nat>)

  /** The table after `i` turns of fillcolliding. */
  function Turns<V>(c: Hashing, es: seq<Entry<V>>, sizearray: nat, i: nat, b: Built<V>): (r: Built<V>)
    requires i <= |es| && |b.depth| == |b.ns|
    ensures |r.depth| == |r.ns| == |b.ns|
  {
    if i == 0 then b
    else
      var p := Turns(c, es, sizearray, i - 1, b);
      Built(Turn(c, es[i - 1], sizearray, p.ns), TurnDepth(c, es[i - 1], sizearray, p.ns, p.depth))
  }

  /** The second pass starts from a table left by the first pass. */
  ghost predicate AfterFirst<V>(c: Hashing, es: seq<Entry<V>>, sizearray: nat, b: Built<V>) {
    Distinct(es) && FirstPass(c, es, sizearray, |es|, b.ns, b.depth) && |b.ns| == |HashKeys(es, sizearray)|
  }

  lemma SecondPassStart<V>(c: Hashing, es: seq<Entry<V>>, sizearray: nat, b: Built<V>)
    requires AfterFirst(c, es, sizearray, b)
    ensures SecondPass(c, es, sizearray, b.ns, b.depth, Placed(b.ns), Placed(b.ns))
  {
  }

  lemma {:induction false} TurnsKeep<V>(c: Hashing, es: seq<Entry<V>>, sizearray: nat, i: nat, b: Built<V>, r: Built<V>,
                                        homes: set<Key>) returns (keys: set<Key>)
    requires i <= |es| && Distinct(es) && SecondPass(c, es, sizearray, b.ns, b.depth, homes, homes)
    requires |b.depth| == |b.ns| && r == Turns(c, es, sizearray, i, b)
    ensures SecondPass(c, es, sizearray, r.ns, r.depth, homes, keys)
    ensures homes <= keys && KeysAt(es, sizearray, i, homes, keys)
  {
    if i == 0 {
      KeysStart(es, sizearray, homes);
      keys := homes;
    } else {
      var p := Turns(c, es, sizearray, i - 1, b);
      var keys0 := TurnsKeep(c, es, sizearray, i - 1, b, p, homes);
      keys := TurnsStep(c, es, sizearray, i - 1, p, r, homes, keys0);
    }
  }

  lemma TurnsStep<V>(c: Hashing, es: seq<Entry<V>>, sizearray: nat, i: nat, p: Built<V>, r: Built<V>,
                     homes: set<Key>, keys0: set<Key>) returns (keys: set<Key>)
    requires i < |es| && Distinct(es) && SecondPass(c, es, sizearray, p.ns, p.depth, homes, keys0)
    requires homes <= keys0 && KeysAt(es, sizearray, i, homes, keys0)
    requires r == Built(Turn(c, es[i], sizearray, p.ns), TurnDepth(c, es[i], sizearray, p.ns, p.depth))
    ensures SecondPass(c, es, sizearray, r.ns, r.depth, homes, keys)
    ensures homes <= keys && KeysAt(es, sizearray, i + 1, homes, keys)
  {
    KeysStep(es, sizearray, i, homes, keys0);
    TurnSafe(c, es, sizearray, i, p.ns, p.depth, homes, keys0);
    keys := keys0 + (if IsHashKey(es[i].key, sizearray) then {es[i].key} else {});
    TurnKeeps(c, es, sizearray, i, p.ns, p.depth, homes, keys0, r.ns, r.depth, keys);
  }

  lemma TurnsSafe<V>(c: Hashing, es: seq<Entry<V>>, sizearray: nat, i: nat, b: Built<V>)
    requires i < |es| && AfterFirst(c, es, sizearray, b)
    ensures CanTurn(c, es[i], sizearray, Turns(c, es, sizearray, i, b).ns)
  {
    var p := Turns(c, es, sizearray, i, b);
    SecondPassStart(c, es, sizearray, b);
    var keys := TurnsKeep(c, es, sizearray, i, b, p, Placed(b.ns));
    KeysStep(es, sizearray, i, Placed(b.ns), keys);
    TurnSafe(c, es, sizearray, i, p.ns, p.depth, Placed(b.ns), keys);
  }

  /** After the second pass every key has a slot and every slot is filled. */
  lemma TurnsEnd<V>(c: Hashing, es: seq<Entry<V>>, sizearray: nat, b: Built<V>)
    requires AfterFirst(c, es, sizearray, b)
    ensures var r := Turns(c, es, sizearray, |es|, b);
            && Chained(c, es, r.ns, r.depth) && Placed(r.ns) == HashKeys(es, sizearray)
            && forall j :: 0 <= j < |r.ns| ==> r.ns[j].Node?
  {
    var r := Turns(c, es, sizearray, |es|, b);
    SecondPassStart(c, es, sizearray, b);
    var keys := TurnsKeep(c, es, sizearray, |es|, b, r, Placed(b.ns));
    KeysEnd(es, sizearray, Placed(b.ns), keys);
    AllFilled(r.ns);
  }

  /** Storing an array entry. */
  lemma ArrayStep<V>(es: seq<Entry<V>>, i: nat, arr: seq<Option<V>>)
    requires i < |es| && Distinct(es) && ArrayOk(es, i, arr)
    ensures ArrayOk(es, i + 1, if IsHashKey(es[i].key, |arr|) then arr else arr[es[i].key.i - 1 := Some(es[i].value)])
  {
    if !IsHashKey(es[i].key, |arr|) {
      assert es[i] == Entry(IntKey(es[i].key.i - 1 + 1), es[i].value);
    }
  }

  /** The array part holds what the source has under 1 .. sizearray. */
  ghost predicate ArrayOk<V>(es: seq<Entry<V>>, i: nat, arr: seq<Option<V>>)
    requires i <= |es|
  {
    && |arr| < 0x8000_0000
    && (forall j :: 0 <= j < |arr| && arr[j].Some? ==> Has(es, IntKey(j + 1), arr[j].value))
    && (forall e :: 0 <= e < i && !IsHashKey(es[e].key, |arr|) ==> arr[es[e].key.i - 1] == Some(es[e].value))
  }

  // ------------------------------------------------------------ iteration order

  /** The keys of the array part from index `i` on. */
  function ArrayFrom<V>(arr: seq<Option<V>>, i: nat): seq<Key>
    requires |arr| < 0x8000_0000
    decreases |arr| - i
  {
    if i >= |arr| then []
    else if arr[i].Some? then [IntKey(i + 1)] + ArrayFrom(arr, i + 1)
    else ArrayFrom(arr, i + 1)
  }

  function HashOrder<V>(ns: seq<Node<V>>): (ks: seq<Key>)
    requires forall j :: 0 <= j < |ns| ==> ns[j].Node?
    ensures |ks| == |ns| && forall j :: 0 <= j < |ns| ==> ks[j] == ns[j].key
  {
    seq(|ns|, j requires 0 <= j < |ns| => ns[j].key)
  }

  lemma {:induction false} ArrayFromKeys<V>(arr: seq<Option<V>>, i: nat, x: nat)
    requires |arr| < 0x8000_0000 && x < |ArrayFrom(arr, i)|
    ensures var k := ArrayFrom(arr, i)[x]; k.IntKey? && i < k.i <= |arr| && arr[k.i - 1].Some?
    decreases |arr| - i
  {
    if arr[i].Some? {
      if x > 0 { ArrayFromKeys(arr, i + 1, x - 1); }
    } else {
      ArrayFromKeys(arr, i + 1, x);
    }
  }

  lemma {:induction false} ArrayFromSorted<V>(arr: seq<Option<V>>, i: nat, x: nat, y: nat)
    requires |arr| < 0x8000_0000 && x < y < |ArrayFrom(arr, i)|
    ensures ArrayFrom(arr, i)[x] != ArrayFrom(arr, i)[y]
    decreases |arr| - i
  {
    if arr[i].Some? {
      if x > 0 {
        ArrayFromSorted(arr, i + 1, x - 1, y - 1);
      } else {
        ArrayFromKeys(arr, i + 1, y - 1);
      }
    } else {
      ArrayFromSorted(arr, i + 1, x, y);
    }
  }

  lemma {:induction false} ArrayFromHas<V>(arr: seq<Option<V>>, i: nat, j: nat)
    requires |arr| < 0x8000_0000 && i <= j < |arr| && arr[j].Some?
    ensures IntKey(j + 1) in ArrayFrom(arr, i)
    decreases |arr| - i
  {
    if i < j {
      ArrayFromHas(arr, i + 1, j);
    }
  }

  /** The order in which nextkey visits the keys. */
  function Order<V>(arr: seq<Option<V>>, ns: seq<Node<V>>): seq<Key>
    requires |arr| < 0x8000_0000 && forall j :: 0 <= j < |ns| ==> ns[j].Node?
  {
    ArrayFrom(arr, 0) + HashOrder(ns)
  }

  function HeadOf<T>(s: seq<T>): Option<T> { if s == [] then None else Some(s[0]) }

  lemma ArrayKeysExact<V>(es: seq<Entry<V>>, arr: seq<Option<V>>, k: Key)
    requires ArrayOk(es, |es|, arr)
    ensures k in ArrayFrom(arr, 0) <==> k in Keys(es) && !IsHashKey(k, |arr|)
  {
    if k in ArrayFrom(arr, 0) {
      var x :| 0 <= x < |ArrayFrom(arr, 0)| && ArrayFrom(arr, 0)[x] == k;
      ArrayFromKeys(arr, 0, x);
      var e :| 0 <= e < |es| && es[e] == Entry(IntKey(k.i - 1 + 1), arr[k.i - 1].value);
      assert es[e].key == k;
    }
    if k in Keys(es) && !IsHashKey(k, |arr|) {
      var e :| 0 <= e < |es| && es[e].key == k;
      assert arr[es[e].key.i - 1] == Some(es[e].value);
      ArrayFromHas(arr, 0, k.i - 1);
    }
  }

  lemma HashKeysExact<V>(es: seq<Entry<V>>, sizearray: nat, k: Key)
    ensures k in HashKeys(es, sizearray) <==> k in Keys(es) && IsHashKey(k, sizearray)
  {
    if k in Keys(es) && IsHashKey(k, sizearray) {
      var e :| 0 <= e < |es| && es[e].key == k;
      assert es[e].key in HashKeys(es, sizearray);
    }
    if k in HashKeys(es, sizearray) {
      var e :| 0 <= e < |es| && IsHashKey(es[e].key, sizearray) && es[e].key == k;
      assert es[e].key in Keys(es);
    }
  }

  ghost function SlotOfKey<V>(ns: seq<Node<V>>, k: Key): (j: nat)
    requires k in Placed(ns)
    ensures j < |ns| && ns[j].Node? && ns[j].key == k
  {
    var j :| 0 <= j < |ns| && ns[j].Node? && ns[j].key == k; j
  }

  /** What nextkey has still to visit after `k`. */
  ghost function After<V>(arr: seq<Option<V>>, ns: seq<Node<V>>, k: Key): seq<Key>
    requires |arr| < 0x8000_0000 && forall j :: 0 <= j < |ns| ==> ns[j].Node?
  {
    if !IsHashKey(k, |arr|) then ArrayFrom(arr, k.i) + HashOrder(ns)
    else if k in Placed(ns) then HashOrder(ns)[SlotOfKey(ns, k) + 1..]
    else []
  }

  lemma HashNext<V>(ns: seq<Node<V>>, n: nat)
    requires n < |ns| && forall j :: 0 <= j < |ns| ==> ns[j].Node?
    ensures HeadOf(HashOrder(ns)[n + 1..]) == if n + 1 == |ns| then None else Some(ns[n + 1].key)
  {
  }

  /** The search for `k` has the slot that holds it, if any, still ahead. */
  ghost predicate Below<V>(c: Hashing, ns: seq<Node<V>>, depth: seq<nat>, k: Key, n: nat, target: Option<nat>)
    requires |depth| == |ns|
  {
    && n < |ns|
    && (target.None? ==> k !in Placed(ns))
    && (target.Some? ==>
          && target.value < |ns| && ns[target.value].Node? && ns[target.value].key == k
          && ns[n].Node? && c.home(ns[n].key) == c.home(k) && depth[target.value] <= depth[n])
  }

  /** `struct table`. */
  class SharedTable<V> {
    var hashing: Hashing
    var sizearray: nat
    var arr: seq<Option<V>>
    var nodes: seq<Node<V>>
    ghost var depth: seq<nat>
    ghost var source: seq<Entry<V>>

    /** Every hash key of the source sits in exactly one slot of a full table. */
    ghost predicate HashOk(c: Hashing)
      reads this
    {
      && |nodes| == |HashKeys(source, sizearray)|
      && (forall j :: 0 <= j < |nodes| ==> nodes[j].Node?)
      && Placed(nodes) == HashKeys(source, sizearray)
      && (|nodes| > 0 ==> Chained(c, source, nodes, depth))
    }

    ghost predicate Valid()
      reads this
    {
      Distinct(source) && |arr| == sizearray && ArrayOk(source, |source|, arr) && HashOk(hashing)
    }

    /** fillnocolliding. */
    method FillNoColliding(es: seq<Entry<V>>, c: Hashing)
      requires Distinct(es) && |nodes| > 0 && InRange(c, |nodes|) && |arr| == sizearray < 0x8000_0000
      requires forall j :: 0 <= j < |nodes| ==> nodes[j].Nil?
      requires forall j :: 0 <= j < |arr| ==> arr[j].None?
      modifies this`nodes, this`depth, this`arr
      ensures |nodes| == old(|nodes|) && |arr| == sizearray && ArrayOk(es, |es|, arr)
      ensures FirstPass(c, es, sizearray, |es|, nodes, depth)
    {
      depth := seq(|nodes|, _ => 0);
      FirstPassStart(c, es, sizearray, nodes, depth);
      for i := 0 to |es|
        invariant |nodes| == old(|nodes|) && |arr| == sizearray && ArrayOk(es, i, arr)
        invariant FirstPass(c, es, sizearray, i, nodes, depth)
      {
        ArrayStep(es, i, arr);
        if !IsHashKey(es[i].key, sizearray) {
          FirstPassSkip(c, es, sizearray, i, nodes, depth);
          arr := arr[es[i].key.i - 1 := Some(es[i].value)];
        } else {
          var m := c.home(es[i].key);
          if nodes[m].Nil? {
            FirstPassPlace(c, es, sizearray, i, nodes, depth);
            nodes := nodes[m := FreshNode(c, es[i])];
            depth := depth[m := 0];
          } else {
            FirstPassSkip(c, es, sizearray, i, nodes, depth);
          }
        }
      }
    }

    /** fillcolliding: every key that is not in its home slot goes to an empty
        one; the search for it never fails. */
    method FillColliding(es: seq<Entry<V>>, c: Hashing)
      requires es == source && Distinct(source) && |nodes| == |HashKeys(source, sizearray)| > 0
      requires FirstPass(c, source, sizearray, |source|, nodes, depth)
      modifies this`nodes, this`depth
      ensures HashOk(c)
    {
      ghost var b := Built(nodes, depth);
      for i := 0 to |es|
        invariant |depth| == |nodes| && Built(nodes, depth) == Turns(c, es, sizearray, i, b)
      {
        TurnsSafe(c, es, sizearray, i, b);
        PlaceOne(es[i], c);
      }
      TurnsEnd(c, es, sizearray, b);
    }

    /** One turn of the loop of fillcolliding. */
    method PlaceOne(e: Entry<V>, c: Hashing)
      requires |depth| == |nodes| && CanTurn(c, e, sizearray, nodes)
      modifies this`nodes, this`depth
      ensures nodes == Turn(c, e, sizearray, old(nodes)) && depth == TurnDepth(c, e, sizearray, old(nodes), old(depth))
    {
      var m := c.home(e.key);
      if IsHashKey(e.key, sizearray) && nodes[m].key != e.key {
        var n := FindEmpty();
        depth := depth[n := depth[m]][m := depth[m] + 1];
        nodes := nodes[n := Node(e.key, c.code(e.key), nodes[m].next, false, e.value)];
        nodes := nodes[m := nodes[m].(next := n, nocolliding := false)];
      }
    }

    /** The search loop of fillcolliding. */
    method FindEmpty() returns (n: nat)
      requires exists j :: 0 <= j < |nodes| && nodes[j].Nil?
      ensures n < |nodes| && n == FirstNil(nodes) && nodes[n].Nil?
    {
      n := 0;
      while n < |nodes| && nodes[n].Node?
        invariant 0 <= n <= |nodes| && forall j :: 0 <= j < n ==> nodes[j].Node?
        invariant FirstNil(nodes) == n + FirstNil(nodes[n..])
      {
        assert nodes[n..][1..] == nodes[n + 1..];
        n := n + 1;
      }
    }

    /** convtable: the array part, then the hash part in two passes. */
    constructor (es: seq<Entry<V>>, rawlen: nat, calchash: seq<byte> -> u32)
      requires Distinct(es) && rawlen < 0x8000_0000
      ensures Valid() && source == es && sizearray == rawlen
      ensures |nodes| > 0 ==> hashing == HashingOf(calchash, |nodes|)
    {
      sizearray := rawlen;
      arr := seq(rawlen, _ => None);
      nodes, depth, source := [], [], es;
      hashing := HashingOf(calchash, 1);
      new;
      var sizehash := CountSize(es, rawlen);
      if sizehash != 0 {
        nodes := seq(sizehash, _ => Nil);
        hashing := HashingOf(calchash, sizehash);
        HashingInRange(calchash, sizehash);
        var c := hashing;
        FillNoColliding(es, c);
        FillColliding(es, c);
      } else {
        FillArray(es);
        assert Placed(nodes) == {} == HashKeys(source, sizearray);
      }
    }

    /** The loop over rawgeti for a table without a hash part. */
    method FillArray(es: seq<Entry<V>>)
      requires Distinct(es) && |arr| == sizearray < 0x8000_0000
      modifies this`arr
      ensures |arr| == sizearray && ArrayOk(es, |es|, arr)
    {
      for i := 0 to sizearray
        invariant |arr| == sizearray && forall j :: 0 <= j < i ==> arr[j] == RawGet(es, IntKey(j + 1))
      {
        arr := arr[i := RawGet(es, IntKey(i + 1))];
      }
      forall j | 0 <= j < |arr| && arr[j].Some? ensures Has(es, IntKey(j + 1), arr[j].value) {
        RawGetHas(es, IntKey(j + 1), arr[j].value);
      }
      forall e | 0 <= e < |es| && !IsHashKey(es[e].key, |arr|)
        ensures arr[es[e].key.i - 1] == Some(es[e].value)
      {
        assert es[e] == Entry(es[e].key, es[e].value);
        RawGetHas(es, es[e].key, es[e].value);
      }
    }

    /** lookup_key: the slot of a key, or nothing when the source has no such
        hash key. */
    method LookupKey(k: Key) returns (r: Option<nat>)
      requires Valid()
      ensures r.Some? ==> r.value < |nodes| && nodes[r.value].key == k
      ensures r.None? ==> k !in HashKeys(source, sizearray)
    {
      if |nodes| == 0 {
        return None;
      }
      var keyhash := hashing.code(k);
      var n: nat := hashing.home(k);
      ghost var target := if k in Placed(nodes) then Some(SlotOfKey(nodes, k)) else None;
      TargetBelow(hashing, source, nodes, depth, k, n, target);
      if keyhash != nodes[n].keyhash && nodes[n].nocolliding {
        TargetStep(hashing, source, nodes, depth, k, n, target);
        return None;
      }
      while true
        invariant n < |nodes| && Below(hashing, nodes, depth, k, n, target)
        decreases depth[n]
      {
        if keyhash == nodes[n].keyhash && nodes[n].key == k {
          return Some(n);
        }
        TargetStep(hashing, source, nodes, depth, k, n, target);
        if nodes[n].next < 0 {
          return None;
        }
        n := nodes[n].next;
      }
    }

    /** lindexconf: lookup agrees with the source table. */
    method Index(k: Key) returns (r: Option<V>)
      requires Valid()
      ensures r == RawGet(source, k)
    {
      RawGetNone(source, k);
      if k.IntKey? && 0 < k.i <= sizearray {
        r := arr[k.i - 1];
        IndexArray(source, arr, k);
        return;
      }
      HashKeysExact(source, sizearray, k);
      var n := LookupKey(k);
      if n.Some? {
        assert SlotOk(hashing, source, nodes, depth, n.value);
        RawGetHas(source, k, nodes[n.value].value);
        r := Some(nodes[n.value].value);
      } else {
        r := None;
      }
    }

    /** pushfirsthash. */
    method FirstHash() returns (r: Option<Key>)
      requires Valid()
      ensures r == HeadOf(HashOrder(nodes))
    {
      r := if |nodes| > 0 then Some(nodes[0].key) else None;
    }

    /** The array loop of lnextkey, from index `start`. */
    method NextInArray(start: nat) returns (r: Option<Key>)
      requires Valid()
      ensures r == HeadOf(ArrayFrom(arr, start) + HashOrder(nodes))
    {
      var i := start;
      while i < sizearray
        invariant start <= i && ArrayFrom(arr, start) == ArrayFrom(arr, i)
      {
        if arr[i].Some? {
          return Some(IntKey(i + 1));
        }
        i := i + 1;
      }
      assert [] + HashOrder(nodes) == HashOrder(nodes);
      r := FirstHash();
    }

    /** lnextkey. */
    method NextKey(k: Option<Key>) returns (r: Option<Key>)
      requires Valid()
      ensures k.None? ==> r == HeadOf(Order(arr, nodes))
      ensures k.Some? ==> r == HeadOf(After(arr, nodes, k.value))
    {
      if k.None? {
        r := NextInArray(0);
        return;
      }
      if k.value.IntKey? && 0 < k.value.i <= sizearray {
        r := NextInArray(k.value.i);
        return;
      }
      var n := LookupKey(k.value);
      if n.None? {
        return None;
      }
      OneSlot(hashing, source, nodes, depth, n.value);
      HashNext(nodes, n.value);
      var index := n.value + 1;
      r := if index == |nodes| then None else Some(nodes[index].key);
    }

    /** Iterating nextkey from nil visits every key exactly once and stops. */
    method Traverse() returns (keys: seq<Key>)
      requires Valid()
      ensures forall k :: k in keys <==> k in Keys(source)
      ensures forall x, y :: 0 <= x < y < |keys| ==> keys[x] != keys[y]
    {
      ghost var all := Order(arr, nodes);
      keys := [];
      var k := NextKey(None);
      while k.Some?
        invariant |keys| <= |all| && keys == all[..|keys|] && k == HeadOf(all[|keys|..])
        decreases |all| - |keys|
      {
        AfterIs(source, hashing, arr, nodes, depth, |keys|);
        keys := keys + [k.value];
        k := NextKey(k);
      }
      assert keys == all;
      OrderExact(source, hashing, arr, nodes, depth);
    }
  }

  lemma IndexArray<V>(es: seq<Entry<V>>, arr: seq<Option<V>>, k: Key)
    requires Distinct(es) && ArrayOk(es, |es|, arr) && !IsHashKey(k, |arr|)
    ensures arr[k.i - 1] == RawGet(es, k)
  {
    RawGetNone(es, k);
    if arr[k.i - 1].Some? {
      assert k == IntKey(k.i - 1 + 1);
      RawGetHas(es, k, arr[k.i - 1].value);
    }
  }

  lemma OneSlot<V>(c: Hashing, es: seq<Entry<V>>, ns: seq<Node<V>>, depth: seq<nat>, n: nat)
    requires Chained(c, es, ns, depth) && n < |ns| && ns[n].Node?
    ensures ns[n].key in Placed(ns) && SlotOfKey(ns, ns[n].key) == n
  {
    assert ns[n].key in Placed(ns);
    var j := SlotOfKey(ns, ns[n].key);
    assert j != n ==> Apart(c, ns, depth, j, n);
  }

  lemma {:induction false} ArrayAfter<V>(arr: seq<Option<V>>, i: nat, x: nat)
    requires |arr| < 0x8000_0000 && x < |ArrayFrom(arr, i)|
    ensures var k := ArrayFrom(arr, i)[x];
            k.IntKey? && 0 < k.i <= |arr| && ArrayFrom(arr, k.i) == ArrayFrom(arr, i)[x + 1..]
    decreases |arr| - i
  {
    if arr[i].Some? {
      if x > 0 { ArrayAfter(arr, i + 1, x - 1); }
    } else {
      ArrayAfter(arr, i + 1, x);
    }
  }

  /** If each item of two sequences is followed by the rest, so it is in both together. */
  lemma AfterBoth<T>(after: T -> seq<T>, a: seq<T>, b: seq<T>, p: nat)
    requires p < |a + b|
    requires p < |a| ==> after(a[p]) == a[p + 1..] + b
    requires p >= |a| ==> after(b[p - |a|]) == b[p - |a| + 1..]
    ensures after((a + b)[p]) == (a + b)[p + 1..]
  {
    if p < |a| {
      assert (a + b)[p + 1..] == a[p + 1..] + b;
    } else {
      assert (a + b)[p + 1..] == b[p - |a| + 1..];
    }
  }

  lemma AfterHash<V>(es: seq<Entry<V>>, c: Hashing, arr: seq<Option<V>>, ns: seq<Node<V>>, depth: seq<nat>, q: nat)
    requires |arr| < 0x8000_0000 && |ns| > 0 && Chained(c, es, ns, depth)
    requires (forall j :: 0 <= j < |ns| ==> ns[j].Node?) && Placed(ns) == HashKeys(es, |arr|)
    requires q < |HashOrder(ns)|
    ensures After(arr, ns, HashOrder(ns)[q]) == HashOrder(ns)[q + 1..]
  {
    OneSlot(c, es, ns, depth, q);
    HashKeysExact(es, |arr|, HashOrder(ns)[q]);
  }

  lemma AfterArray<V>(arr: seq<Option<V>>, ns: seq<Node<V>>, p: nat)
    requires |arr| < 0x8000_0000 && p < |ArrayFrom(arr, 0)| && forall j :: 0 <= j < |ns| ==> ns[j].Node?
    ensures After(arr, ns, ArrayFrom(arr, 0)[p]) == ArrayFrom(arr, 0)[p + 1..] + HashOrder(ns)
  {
    ArrayAfter(arr, 0, p);
  }

  /** Each key of the order is followed by the next one. */
  lemma AfterIs<V>(es: seq<Entry<V>>, c: Hashing, arr: seq<Option<V>>, ns: seq<Node<V>>, depth: seq<nat>, p: nat)
    requires |arr| < 0x8000_0000 && (|ns| > 0 ==> Chained(c, es, ns, depth))
    requires (forall j :: 0 <= j < |ns| ==> ns[j].Node?) && Placed(ns) == HashKeys(es, |arr|)
    requires p < |Order(arr, ns)|
    ensures After(arr, ns, Order(arr, ns)[p]) == Order(arr, ns)[p + 1..]
  {
    var a, h := ArrayFrom(arr, 0), HashOrder(ns);
    var after := k => After(arr, ns, k);
    if p < |a| {
      AfterArray(arr, ns, p);
    } else {
      AfterHash(es, c, arr, ns, depth, p - |a|);
    }
    AfterBoth(after, a, h, p);
  }

  /** Every key of the source comes exactly once in the iteration order. */
  lemma OrderExact<V>(es: seq<Entry<V>>, c: Hashing, arr: seq<Option<V>>, ns: seq<Node<V>>, depth: seq<nat>)
    requires ArrayOk(es, |es|, arr) && (|ns| > 0 ==> Chained(c, es, ns, depth))
    requires (forall j :: 0 <= j < |ns| ==> ns[j].Node?) && Placed(ns) == HashKeys(es, |arr|)
    ensures forall k :: k in Order(arr, ns) <==> k in Keys(es)
    ensures forall x, y :: 0 <= x < y < |Order(arr, ns)| ==> Order(arr, ns)[x] != Order(arr, ns)[y]
  {
    var a, h := ArrayFrom(arr, 0), HashOrder(ns);
    forall k ensures k in Order(arr, ns) <==> k in Keys(es) {
      ArrayKeysExact(es, arr, k);
      HashKeysExact(es, |arr|, k);
      if k in Placed(ns) {
        var j :| 0 <= j < |ns| && ns[j].Node? && ns[j].key == k;
        assert h[j] == k;
      }
      if k in h {
        var j :| 0 <= j < |h| && h[j] == k;
        assert ns[j].key in Placed(ns);
      }
    }
    forall x, y | 0 <= x < y < |a + h| ensures (a + h)[x] != (a + h)[y] {
      if y < |a| {
        ArrayFromSorted(arr, 0, x, y);
      } else if x < |a| {
        ArrayFromKeys(arr, 0, x);
        assert ns[y - |a|].key in Placed(ns);
        HashKeysExact(es, |arr|, h[y - |a|]);
      } else {
        assert Apart(c, ns, depth, x - |a|, y - |a|);
      }
    }
  }

  lemma TargetBelow<V>(c: Hashing, es: seq<Entry<V>>, ns: seq<Node<V>>, depth: seq<nat>, k: Key, n: nat,
                       target: Option<nat>)
    requires Chained(c, es, ns, depth) && n == c.home(k)
    requires target == if k in Placed(ns) then Some(SlotOfKey(ns, k)) else None
    ensures Below(c, ns, depth, k, n, target)
  {
    if target.Some? {
      assert SlotOk(c, es, ns, depth, target.value);
    }
  }

  /** One link down, or the end of the chain: nothing was skipped. */
  lemma TargetStep<V>(c: Hashing, es: seq<Entry<V>>, ns: seq<Node<V>>, depth: seq<nat>, k: Key, n: nat,
                      target: Option<nat>)
    requires Chained(c, es, ns, depth) && Below(c, ns, depth, k, n, target) && ns[n].Node?
    requires !(ns[n].keyhash == c.code(k) && ns[n].key == k)
    ensures target.Some? ==> 0 <= ns[n].next && !ns[n].nocolliding
    ensures ns[n].next >= 0 ==>
              && ns[n].next < |ns| && ns[ns[n].next].Node? && depth[ns[n].next] < depth[n]
              && Below(c, ns, depth, k, ns[n].next, target)
  {
    assert SlotOk(c, es, ns, depth, n);
    if target.Some? && target.value != n {
      assert Apart(c, ns, depth, n, target.value);
    }
  }
}
