/** The handle table of skynet_handle.c: contexts in a doubling slot table,
    addressed by the low bits of a 24-bit handle that keeps counting. */
module Handles {
  import opened Wrappers
  import opened Bytes
  import opened Names
  import opened Arith

  const MASK: nat := 0x1000000          // HANDLE_MASK + 1
  const DEFAULT_SLOT_SIZE: nat := 4

  /** A context pointer in the table together with the context's handle field,
      which registration sets. */
  datatype Live = Live(ctx: nat, handle: nat)

  // ------------------------------------------------------------ arithmetic

  /** One more bit of the handle decides between two slots. */
  lemma ModDouble(h: nat, n: nat)
    requires n > 0
    ensures h % (2 * n) == h % n || h % (2 * n) == h % n + n
  {
    var m := 2 * n;
    var q, r := h / m, h % m;
    if r < n {
      assert h == n * (2 * q) + r;
      DivUnique(h, n, 2 * q, r);
    } else {
      assert h == n * (2 * q + 1) + (r - n);
      DivUnique(h, n, 2 * q + 1, r - n);
    }
  }

  lemma Pow2Values()
    ensures Pow2(2) == DEFAULT_SLOT_SIZE && Pow2(24) == MASK
  {
    assert Pow2(4) == 16;
    Pow2Add(4, 4);
    Pow2Add(8, 8);
    Pow2Add(16, 8);
  }

  /** Masking to 24 bits does not change the slot. */
  lemma MaskKeepsSlot(x: nat, k: nat)
    requires k <= 24
    ensures (x % MASK) % Pow2(k) == x % Pow2(k)
  {
    Pow2Values();
    Pow2Add(k, 24 - k);
    ModMod(x, Pow2(k), Pow2(24 - k));
  }

  /** Neither do the harbor bits. */
  lemma HarborKeepsSlot(harbor: nat, low: nat, k: nat)
    requires k <= 24 && low < MASK
    ensures (harbor * MASK + low) % Pow2(k) == low % Pow2(k)
  {
    DivUnique(harbor * MASK + low, MASK, harbor, low);
    MaskKeepsSlot(harbor * MASK + low, k);
  }

  lemma AtCapacity(k: nat)
    requires k <= 24
    ensures 2 * Pow2(k) > MASK <==> k == 24
    ensures k == 24 ==> Pow2(k) == MASK
  {
    Pow2Values();
    if k < 24 {
      Pow2Less(k, 24);
    }
  }

  // ------------------------------------------------------------ the slot table

  type Slots = seq<Option<Live>>

  /** Every context sits at `handle & (slot_size - 1)`. */
  ghost predicate AtHome(s: Slots) {
    |s| > 0 && forall i :: 0 <= i < |s| && s[i].Some? ==> s[i].value.handle % |s| == i
  }

  /** The context that the table holds under a handle. */
  function ContextAt(s: Slots, h: nat): Option<nat>
    requires |s| > 0
  {
    var e := s[h % |s|];
    if e.Some? && e.value.handle == h then Some(e.value.ctx) else None
  }

  /** The table holds exactly the live contexts. */
  ghost predicate Holds(s: Slots, live: map<nat, nat>)
    requires |s| > 0
  {
    forall h: nat :: ContextAt(s, h) == if h in live then Some(live[h]) else None
  }

  lemma Occupy(s: Slots, live: map<nat, nat>, h: nat, ctx: nat)
    requires AtHome(s) && Holds(s, live) && s[h % |s|].None?
    ensures var s' := s[h % |s| := Some(Live(ctx, h))];
            h !in live && AtHome(s') && Holds(s', live[h := ctx])
  {
    assert ContextAt(s, h) == None;
    var s' := s[h % |s| := Some(Live(ctx, h))];
    forall g: nat ensures ContextAt(s', g) == if g in live[h := ctx] then Some(live[h := ctx][g]) else None {
      assert ContextAt(s, g) == if g in live then Some(live[g]) else None;
    }
  }

  lemma Vacate(s: Slots, live: map<nat, nat>, h: nat)
    requires AtHome(s) && Holds(s, live) && ContextAt(s, h).Some?
    ensures var s' := s[h % |s| := None]; h in live && AtHome(s') && Holds(s', live - {h})
  {
    assert ContextAt(s, h) == if h in live then Some(live[h]) else None;
    var s' := s[h % |s| := None];
    forall g: nat ensures ContextAt(s', g) == if g in live - {h} then Some((live - {h})[g]) else None {
      assert ContextAt(s, g) == if g in live then Some(live[g]) else None;
    }
  }

  // ------------------------------------------------------------ doubling

  /** After the first `i` slots of a full table moved into one of twice the size. */
  ghost predicate Moved(s: Slots, t: Slots, i: nat) {
    && |t| == 2 * |s| && i <= |s|
    && (forall j :: 0 <= j < |t| && t[j].Some? ==>
          j % |s| < i && t[j] == s[j % |s|] && t[j].value.handle % |t| == j)
    && (forall x :: 0 <= x < i && s[x].Some? ==> t[s[x].value.handle % |t|] == s[x])
  }

  /** The slot the next context moves to is empty: the assertion of the loop. */
  lemma MoveFinds(s: Slots, t: Slots, i: nat)
    requires AtHome(s) && Moved(s, t, i) && i < |s| && s[i].Some?
    ensures s[i].value.handle % |t| < |t| && t[s[i].value.handle % |t|].None?
    ensures (s[i].value.handle % |t|) % |s| == i
  {
    var h := s[i].value.handle;
    ModMod(h, |s|, 2);
    assert |s| * 2 == |t|;
  }

  lemma MoveOne(s: Slots, t: Slots, i: nat)
    requires AtHome(s) && Moved(s, t, i) && i < |s| && s[i].Some?
    ensures Moved(s, t[s[i].value.handle % |t| := s[i]], i + 1)
  {
    MoveFinds(s, t, i);
    var p := s[i].value.handle % |t|;
    var t' := t[p := s[i]];
    forall x | 0 <= x < i + 1 && s[x].Some? ensures t'[s[x].value.handle % |t'|] == s[x] {
      if x < i {
        assert t[s[x].value.handle % |t|] == s[x];
      }
    }
  }

  /** The table after the doubling: each slot holds what belongs there. */
  function DoubledTable(s: Slots): (t: Slots)
    requires |s| > 0
    ensures |t| == 2 * |s|
  {
    seq(2 * |s|, j requires 0 <= j < 2 * |s| =>
      var e := s[j % |s|];
      if e.Some? && e.value.handle % (2 * |s|) == j then e else None)
  }

  lemma MovedIs(s: Slots, t: Slots)
    requires AtHome(s) && Moved(s, t, |s|)
    ensures t == DoubledTable(s)
  {
    forall j | 0 <= j < |t| ensures t[j] == DoubledTable(s)[j] {
      var x := j % |s|;
      if s[x].Some? && s[x].value.handle % |t| == j {
        assert t[s[x].value.handle % |t|] == s[x];
      }
    }
  }

  ghost predicate HasRoom(s: Slots) {
    exists j :: 0 <= j < |s| && s[j].None?
  }

  /** The table in which register finds its slot. */
  ghost function Searched(s: Slots): (t: Slots)
    requires |s| > 0
    ensures |t| > 0
  {
    if HasRoom(s) then s else DoubledTable(s)
  }

  lemma DoubledHolds(s: Slots, t: Slots, live: map<nat, nat>)
    requires AtHome(s) && Holds(s, live) && Moved(s, t, |s|)
    ensures AtHome(t) && Holds(t, live)
  {
    forall h: nat ensures ContextAt(t, h) == if h in live then Some(live[h]) else None {
      assert ContextAt(s, h) == if h in live then Some(live[h]) else None;
      ModMod(h, |s|, 2);
      assert |s| * 2 == |t|;
      var x := h % |s|;
      if s[x].Some? && s[x].value.handle == h {
        assert t[s[x].value.handle % |t|] == s[x];
      }
    }
  }

  /** A table that was just doubled has room. */
  lemma DoubledHasRoom(s: Slots, t: Slots)
    requires AtHome(s) && Moved(s, t, |s|) && s[0].Some?
    ensures exists j :: 0 <= j < |t| && t[j].None?
  {
    var n := |s|;
    var h := s[0].value.handle;
    ModDouble(h, n);
    assert t[h % |t|] == s[0];
    var other := n - h % |t|;
    assert 0 <= other < |t| && other != h % |t|;
    DivUnique(n, n, 1, 0);
    DivUnique(0, n, 0, 0);
    assert other % n == 0;
    assert t[other].None?;
  }

  function Handles(s: Slots, n: nat): set<nat>
    requires n <= |s|
  {
    set j | 0 <= j < n && s[j].Some? :: s[j].value.handle
  }

  lemma {:induction false} HandlesSize(s: Slots, n: nat)
    requires AtHome(s) && n <= |s| && forall j :: 0 <= j < |s| ==> s[j].Some?
    ensures |Handles(s, n)| == n
  {
    if n > 0 {
      HandlesSize(s, n - 1);
      var h := s[n - 1].value.handle;
      assert h !in Handles(s, n - 1);
      assert Handles(s, n) == Handles(s, n - 1) + {h};
    }
  }

  /** A full table has as many live contexts as slots. */
  lemma FullCount(s: Slots, live: map<nat, nat>)
    requires AtHome(s) && Holds(s, live) && forall j :: 0 <= j < |s| ==> s[j].Some?
    ensures |live.Keys| == |s|
  {
    HandlesSize(s, |s|);
    forall h: nat ensures h in live <==> h in Handles(s, |s|) {
      assert ContextAt(s, h) == if h in live then Some(live[h]) else None;
    }
    assert live.Keys == Handles(s, |s|);
  }

  /** A table with room has fewer live contexts than slots. */
  lemma NotFull(s: Slots, live: map<nat, nat>)
    requires AtHome(s) && Holds(s, live) && HasRoom(s)
    ensures |live.Keys| < |s|
  {
    HandlesBound(s, |s|);
    forall h: nat ensures h in live <==> h in Handles(s, |s|) {
      assert ContextAt(s, h) == if h in live then Some(live[h]) else None;
    }
    assert live.Keys == Handles(s, |s|);
  }

  lemma {:induction false} HandlesBound(s: Slots, n: nat)
    requires n <= |s|
    ensures |Handles(s, n)| <= n
    ensures (exists j :: 0 <= j < n && s[j].None?) ==> |Handles(s, n)| < n
  {
    if n > 0 {
      HandlesBound(s, n - 1);
      if s[n - 1].Some? {
        assert Handles(s, n) == Handles(s, n - 1) + {s[n - 1].value.handle};
      } else {
        assert Handles(s, n) == Handles(s, n - 1);
      }
    }
  }

  /** The name map after all names of a handle were removed. */
  ghost predicate NamesWithout(before: seq<Name>, after: seq<Name>, handle: nat) {
    forall m :: Lookup(after, m) == if Lookup(before, m) == Some(handle) then None else Lookup(before, m)
  }

  predicate Taken(s: Slots, index: nat, x: nat)
    requires |s| > 0
  {
    s[(x + index) % |s|].Some?
  }

  /** The first probe, from the `i`-th on, that finds an empty slot; or the size. */
  function FirstFrom(s: Slots, index: nat, i: nat): (f: nat)
    requires |s| > 0 && i <= |s|
    ensures i <= f <= |s|
    ensures f < |s| ==> !Taken(s, index, f)
    ensures forall x :: i <= x < f ==> Taken(s, index, x)
    decreases |s| - i
  {
    if i == |s| || !Taken(s, index, i) then i else FirstFrom(s, index, i + 1)
  }

  /** The low bits that the search arrives at. */
  function Probe(s: Slots, index: nat): nat
    requires |s| > 0
  {
    (FirstFrom(s, index, 0) + index) % MASK
  }

  /** The index wraps to the reserved handle 0 before another slot is found empty. */
  ghost predicate GivesZero(s: Slots, index: nat)
    requires |s| > 0 && index <= MASK
  {
    MASK - index < |s| && s[0].None? && forall x :: 0 <= x < MASK - index ==> Taken(s, index, x)
  }

  lemma WrapsOnce(f: nat, index: nat)
    requires f < MASK && 1 <= index <= MASK
    ensures (f + index) % MASK == 0 <==> f + index == MASK
  {
    if f + index >= MASK {
      DivUnique(f + index, MASK, 1, f + index - MASK);
    }
  }

  /** The probe at which the index wraps looks at slot 0. */
  lemma ZeroSlot(s: Slots, index: nat, k: nat)
    requires k <= 24 && |s| == Pow2(k) && index <= MASK && MASK - index < |s|
    ensures Taken(s, index, MASK - index) <==> s[0].Some?
  {
    MaskKeepsSlot(MASK, k);
    DivUnique(MASK, MASK, 1, 0);
    DivUnique(0, |s|, 0, 0);
  }

  /** The search of a table gives the low bits 0 exactly in that case. */
  lemma ZeroExactly(s: Slots, index: nat, k: nat)
    requires k <= 24 && |s| == Pow2(k) && 1 <= index <= MASK
    ensures FirstFrom(s, index, 0) < |s| && Probe(s, index) == 0 <==> GivesZero(s, index)
  {
    var f := FirstFrom(s, index, 0);
    AtCapacity(k);
    if f < |s| {
      WrapsOnce(f, index);
    }
    if MASK - index < |s| {
      ZeroSlot(s, index, k);
    }
  }

  /** The `i`-th probe looks at the slot of its low bits. */
  lemma ProbeAt(s: Slots, index: nat, i: nat, k: nat)
    requires k <= 24 && |s| == Pow2(k) && i < |s|
    ensures var h := (i + index) % MASK;
            FirstFrom(s, index, i) == if s[h % |s|].None? then i else FirstFrom(s, index, i + 1)
  {
    MaskKeepsSlot(i + index, k);
  }

  lemma RoomExactly(s: Slots, index: nat)
    requires |s| > 0
    ensures HasRoom(s) <==> FirstFrom(s, index, 0) < |s|
  {
    var f := FirstFrom(s, index, 0);
    if f == |s| {
      AllTaken(s, index);
    } else {
      assert s[(f + index) % |s|].None?;
    }
  }

  lemma AllTaken(s: Slots, index: nat)
    requires |s| > 0 && forall x :: 0 <= x < |s| ==> Taken(s, index, x)
    ensures forall j :: 0 <= j < |s| ==> s[j].Some?
  {
    forall j | 0 <= j < |s| ensures s[j].Some? {
      var x := ModCover(index, |s|, j);
      assert Taken(s, index, x);
    }
  }

  /** The loop over the slots from `index` on. */
  method FirstFree(s: Slots, index: nat, ghost k: nat) returns (handle: Option<nat>)
    requires k <= 24 && |s| == Pow2(k)
    ensures handle.None? <==> FirstFrom(s, index, 0) == |s|
    ensures handle.Some? ==> handle.value == Probe(s, index) && s[handle.value % |s|].None?
  {
    for i := 0 to |s|
      invariant FirstFrom(s, index, 0) == FirstFrom(s, index, i)
    {
      var h := (i + index) % MASK;
      ProbeAt(s, index, i, k);
      if s[h % |s|].None? {
        return Some(h);
      }
    }
    handle := None;
  }

  /** `struct handle_storage`. */
  class Storage {
    ghost var live: map<nat, nat>
    ghost var bits: nat
    const harbor: nat
    var handleIndex: nat
    var slot: Slots
    const names: NameTable

    ghost predicate Valid()
      reads this, names, names.name
    {
      && bits <= 24 && |slot| == Pow2(bits) && 1 <= handleIndex <= MASK
      && AtHome(slot) && Holds(slot, live)
      && (forall h :: h in live ==> h / MASK == harbor)
      && names.Valid()
    }

    constructor (id: nat)
      ensures Valid() && live == map[] && names.contents == [] && harbor == id % 256 && handleIndex == 1
      ensures fresh(names) && fresh(names.name)
    {
      slot := seq(DEFAULT_SLOT_SIZE, _ => None);
      harbor := id % 256;
      handleIndex := 1;
      names := new NameTable();
      live, bits := map[], 2;
      new;
      Pow2Values();
    }

    /** One pass of the search in skynet_handle_register: the first free probe.  The low
        bits are 0 exactly when the index wraps before another slot is found. */
    method Search() returns (handle: Option<nat>)
      requires Valid()
      ensures handle.Some? ==> handle.value == Probe(slot, handleIndex)
      ensures handle.Some? ==> handle.value < MASK && slot[handle.value % |slot|].None?
      ensures handle.None? <==> !HasRoom(slot)
      ensures handle == Some(0) <==> GivesZero(slot, handleIndex)
    {
      handle := FirstFree(slot, handleIndex, bits);
      ZeroExactly(slot, handleIndex, bits);
      RoomExactly(slot, handleIndex);
    }

    /** The doubling in skynet_handle_register: no two contexts meet. */
    method Double()
      requires Valid() && bits < 24 && !HasRoom(slot)
      modifies this`slot, this`bits
      ensures Valid() && HasRoom(slot) && slot == DoubledTable(old(slot))
    {
      var newSlot: Slots := seq(2 * |slot|, _ => None);
      var i := 0;
      while i < |slot|
        modifies {}
        invariant 0 <= i <= |slot| && Moved(slot, newSlot, i)
      {
        MoveFinds(slot, newSlot, i);
        MoveOne(slot, newSlot, i);
        var hash := slot[i].value.handle % |newSlot|;
        assert newSlot[hash].None?;
        newSlot := newSlot[hash := slot[i]];
        i := i + 1;
      }
      DoubledHolds(slot, newSlot, live);
      DoubledHasRoom(slot, newSlot);
      MovedIs(slot, newSlot);
      slot := newSlot;
      bits := bits + 1;
    }

    /** skynet_handle_register: a handle that no live context has, or the failed
        assertion when 2^24 contexts are live.  It searches at most twice.  The reserved
        handle 0 is given out exactly on harbor 0 when the index wraps first. */
    method Register(ctx: nat) returns (r: Option<nat>)
      requires Valid()
      modifies this`slot, this`bits, this`live, this`handleIndex
      ensures Valid()
      ensures r.Some? ==> r.value !in old(live) && live == old(live)[r.value := ctx] && r.value / MASK == harbor
      ensures r.Some? ==> handleIndex == r.value % MASK + 1
      ensures r.Some? ==> r.value % MASK == Probe(Searched(old(slot)), old(handleIndex))
      ensures r == Some(0) <==> r.Some? && harbor == 0 && GivesZero(Searched(old(slot)), old(handleIndex))
      ensures r.None? <==> |old(live).Keys| == MASK
      ensures r.None? ==> live == old(live) && slot == old(slot)
    {
      ghost var doubled := false;
      while true
        invariant Valid() && live == old(live) && handleIndex == old(handleIndex)
        invariant doubled ==> !HasRoom(old(slot)) && HasRoom(slot) && slot == DoubledTable(old(slot))
        invariant !doubled ==> slot == old(slot)
        decreases !doubled
      {
        var handle := Search();
        if handle.Some? {
          assert slot == Searched(old(slot));
          NotFull(slot, live);
          AtCapacity(bits);
          var h := Place(ctx, handle.value);
          return Some(h);
        }
        FullCount(slot, live);
        AtCapacity(bits);
        if 2 * |slot| > MASK {
          return None;
        }
        Double();
        doubled := true;
      }
    }

    /** The context is stored in the slot that was found. */
    method Place(ctx: nat, low: nat) returns (h: nat)
      requires Valid() && low < MASK && slot[low % |slot|].None?
      modifies this`slot, this`live, this`handleIndex
      ensures Valid() && h == harbor * MASK + low && h % MASK == low && h / MASK == harbor
      ensures h == 0 <==> harbor == 0 && low == 0
      ensures h !in old(live) && live == old(live)[h := ctx] && handleIndex == low + 1
    {
      h := harbor * MASK + low;
      HarborKeepsSlot(harbor, low, bits);
      DivUnique(h, MASK, harbor, low);
      Occupy(slot, live, h, ctx);
      slot := slot[low % |slot| := Some(Live(ctx, h))];
      live := live[h := ctx];
      handleIndex := low + 1;
    }

    /** skynet_handle_retire: the context and all names of its handle go. */
    method Retire(handle: nat) returns (ret: bool)
      requires Valid()
      modifies this`slot, this`live, names, names.name
      ensures Valid() && names.name == old(names.name)
      ensures ret <==> handle in old(live)
      ensures live == old(live) - {handle}
      ensures !ret ==> names.contents == old(names.contents)
      ensures ret ==> NamesWithout(old(names.contents), names.contents, handle)
    {
      assert ContextAt(slot, handle) == if handle in live then Some(live[handle]) else None;
      var hash := handle % |slot|;
      if slot[hash].Some? && slot[hash].value.handle == handle {
        Vacate(slot, live, handle);
        slot := slot[hash := None];
        live := live - {handle};
        names.RemoveHandle(handle);
        ret := true;
      } else {
        ret := false;
      }
    }

    /** skynet_handle_grab: exactly the context still live under the handle. */
    method Grab(handle: nat) returns (ctx: Option<nat>)
      requires Valid()
      ensures ctx == if handle in live then Some(live[handle]) else None
    {
      var e := slot[handle % |slot|];
      ctx := if e.Some? && e.value.handle == handle then Some(e.value.ctx) else None;
      assert ContextAt(slot, handle) == ctx;
    }
  }

  // ------------------------------------------------------------ handle 0

  /** An empty table whose index has wrapped gives the reserved handle. */
  lemma ZeroWitness()
    ensures GivesZero([None, None, None, None], MASK)
  {
  }

  lemma EmptyProbe(s: Slots, index: nat)
    requires |s| > 0 && forall j :: 0 <= j < |s| ==> s[j].None?
    ensures FirstFrom(s, index, 0) == 0 && Searched(s) == s
  {
    assert s[0].None?;
  }

  lemma Occupied(s: Slots, j: nat)
    requires AtHome(s) && j < |s| && s[j].Some?
    ensures ContextAt(s, s[j].value.handle) == Some(s[j].value.ctx)
  {
  }

  lemma EmptySlots(s: Slots)
    requires AtHome(s) && Holds(s, map[])
    ensures forall j :: 0 <= j < |s| ==> s[j].None?
  {
    forall j | 0 <= j < |s| ensures s[j].None? {
      if s[j].Some? {
        Occupied(s, j);
      }
    }
  }

  /** In an empty table the next index is free. */
  method RegisterFirst(s: Storage, ctx: nat) returns (h: nat)
    requires s.Valid() && s.live == map[] && s.handleIndex < MASK
    modifies s`slot, s`bits, s`live, s`handleIndex
    ensures s.Valid() && s.live == map[h := ctx] && s.handleIndex == old(s.handleIndex) + 1
  {
    EmptySlots(s.slot);
    EmptyProbe(s.slot, s.handleIndex);
    ModSmall(s.handleIndex, MASK);
    var r := s.Register(ctx);
    h := r.value;
  }

  /** Registering in an empty table and retiring again moves the index on by one. */
  method Cycle(s: Storage, ctx: nat)
    requires s.Valid() && s.live == map[] && s.handleIndex < MASK
    modifies s, s.names, s.names.name
    ensures s.Valid() && s.live == map[] && s.handleIndex == old(s.handleIndex) + 1
    ensures s.names.name == old(s.names.name)
  {
    var h := RegisterFirst(s, ctx);
    var _ := s.Retire(h);
    assert map[h := ctx] - {h} == map[];
  }

  /** On harbor 0 a context that is registered and retired 2^24 - 1 times brings the
      index around, and the next registration gets handle 0. */
  method ReachesZero(ctx: nat) returns (r: Option<nat>)
    ensures r == Some(0)
  {
    var s := new Storage(0);
    for i := 1 to MASK
      invariant s.Valid() && fresh(s) && fresh(s.names) && fresh(s.names.name)
      invariant s.live == map[] && s.handleIndex == i
    {
      Cycle(s, ctx);
    }
    EmptySlots(s.slot);
    assert GivesZero(s.slot, MASK);
    r := s.Register(ctx);
  }

  // ------------------------------------------------------------ whole runs

  datatype Call = Register(ctx: nat) | Retire(handle: nat) | NameHandle(name: Text, handle: nat)

  datatype Outcome =
    | Registered(handle: nat, ctx: nat)
    | Retired(handle: nat)
    | Named(name: Text, handle: nat)
    | Nothing

  function StepLive(before: map<nat, nat>, o: Outcome): map<nat, nat> {
    if o.Registered? then before[o.handle := o.ctx]
    else if o.Retired? then before - {o.handle}
    else before
  }

  /** The contexts that are live after a history of outcomes. */
  function LiveAfter(tr: seq<Outcome>): map<nat, nat> {
    if tr == [] then map[] else StepLive(LiveAfter(tr[..|tr| - 1]), tr[|tr| - 1])
  }

  function StepNames(before: map<Text, nat>, o: Outcome): map<Text, nat> {
    if o.Named? then before[o.name := o.handle]
    else if o.Retired? then map n | n in before && before[n] != o.handle :: before[n]
    else before
  }

  /** The names in use after a history of outcomes. */
  function NamesAfter(tr: seq<Outcome>): map<Text, nat> {
    if tr == [] then map[] else StepNames(NamesAfter(tr[..|tr| - 1]), tr[|tr| - 1])
  }

  /** What each call does after a history: a registration gives a handle that is not in
      use unless 2^24 are, a live context is retired, and a new name is taken unless there
      are 2^30. */
  ghost predicate Right(before: seq<Outcome>, call: Call, o: Outcome) {
    var live, names := LiveAfter(before), NamesAfter(before);
    match call
    case Register(ctx) =>
      if |live.Keys| == 0x100_0000 then o == Nothing else o.Registered? && o.ctx == ctx && o.handle !in live
    case Retire(handle) => o == if handle in live then Retired(handle) else Nothing
    case NameHandle(name, handle) =>
      o == if name in names || |names.Keys| == 0x4000_0000 then Nothing else Named(name, handle)
  }

  ghost predicate AllRight(calls: seq<Call>, tr: seq<Outcome>) {
    |tr| <= |calls| && forall i :: 0 <= i < |tr| ==> Right(tr[..i], calls[i], tr[i])
  }

  /** The sorted array holds exactly the names of the map. */
  ghost predicate NamesHold(s: seq<Name>, names: map<Text, nat>) {
    forall n :: Lookup(s, n) == if n in names then Some(names[n]) else None
  }

  /** There are as many names in the map as in the array. */
  lemma NamesCount(s: seq<Name>, names: map<Text, nat>)
    requires Sorted(s) && NamesHold(s, names)
    ensures |names.Keys| == |s|
  {
    forall n ensures n in names <==> n in NamesOf(s, |s|) {
      assert Lookup(s, n) == if n in names then Some(names[n]) else None;
      if n in names {
        var i := LookupFound(s, n);
      } else if n in NamesOf(s, |s|) {
        var i :| 0 <= i < |s| && s[i].name == n;
        LookupAt(s, i);
      }
    }
    assert names.Keys == NamesOf(s, |s|);
    NamesSize(s, |s|);
  }

  function NamesOf(s: seq<Name>, n: nat): set<Text>
    requires n <= |s|
  {
    set i | 0 <= i < n :: s[i].name
  }

  lemma {:induction false} NamesSize(s: seq<Name>, n: nat)
    requires Sorted(s) && n <= |s|
    ensures |NamesOf(s, n)| == n
  {
    if n > 0 {
      NamesSize(s, n - 1);
      forall i | 0 <= i < n - 1 ensures s[i].name != s[n - 1].name {
        assert Less(s[i].name, s[n - 1].name);
        CompareEqual(s[i].name, s[n - 1].name);
      }
      assert NamesOf(s, n) == NamesOf(s, n - 1) + {s[n - 1].name};
    }
  }

  /** Over every run of register, name and retire, even after the 24-bit index wraps,
      each call is answered rightly, and the tables are the maps of the live contexts and
      of their names. */
  method Run(s: Storage, calls: seq<Call>) returns (tr: seq<Outcome>)
    requires s.Valid() && s.live == map[] && s.names.contents == []
    modifies s, s.names, s.names.name
    ensures s.Valid() && |tr| == |calls| && s.live == LiveAfter(tr) && AllRight(calls, tr)
    ensures NamesHold(s.names.contents, NamesAfter(tr))
  {
    tr := [];
    for i := 0 to |calls|
      invariant s.Valid() && |tr| == i && s.live == LiveAfter(tr) && AllRight(calls, tr)
      invariant NamesHold(s.names.contents, NamesAfter(tr))
      invariant s.names.name == old(s.names.name) || fresh(s.names.name)
    {
      var o := RunOne(s, calls[i], tr);
      Extend(calls, tr, o);
      tr := tr + [o];
    }
  }

  method RunOne(s: Storage, call: Call, ghost tr: seq<Outcome>) returns (o: Outcome)
    requires s.Valid() && s.live == LiveAfter(tr) && NamesHold(s.names.contents, NamesAfter(tr))
    modifies s, s.names, s.names.name
    ensures s.Valid() && s.live == StepLive(LiveAfter(tr), o) && Right(tr, call, o)
    ensures NamesHold(s.names.contents, StepNames(NamesAfter(tr), o))
    ensures s.names.name == old(s.names.name) || fresh(s.names.name)
  {
    match call {
      case Register(ctx) =>
        o := RunRegister(s, ctx);
      case Retire(handle) =>
        o := RunRetire(s, handle, NamesAfter(tr));
      case NameHandle(name, handle) =>
        o := RunName(s, name, handle, NamesAfter(tr));
    }
  }

  method RunRegister(s: Storage, ctx: nat) returns (o: Outcome)
    requires s.Valid()
    modifies s
    ensures s.Valid() && s.live == StepLive(old(s.live), o)
    ensures if |old(s.live).Keys| == 0x100_0000 then o == Nothing
            else o.Registered? && o.ctx == ctx && o.handle !in old(s.live)
  {
    var r := s.Register(ctx);
    o := if r.Some? then Registered(r.value, ctx) else Nothing;
  }

  method RunRetire(s: Storage, handle: nat, ghost names: map<Text, nat>) returns (o: Outcome)
    requires s.Valid() && NamesHold(s.names.contents, names)
    modifies s, s.names, s.names.name
    ensures s.Valid() && s.names.name == old(s.names.name) && s.live == StepLive(old(s.live), o)
    ensures o == if handle in old(s.live) then Retired(handle) else Nothing
    ensures NamesHold(s.names.contents, StepNames(names, o))
  {
    ghost var was := s.names.contents;
    var r := s.Retire(handle);
    o := if r then Retired(handle) else Nothing;
    if r {
      RetiredNames(was, s.names.contents, names, handle);
    }
  }

  lemma RetiredNames(was: seq<Name>, now: seq<Name>, names: map<Text, nat>, handle: nat)
    requires NamesHold(was, names) && NamesWithout(was, now, handle)
    ensures NamesHold(now, StepNames(names, Retired(handle)))
  {
    forall n ensures Lookup(now, n) ==
                     if n in names && names[n] != handle then Some(names[n]) else None
    {
      assert Lookup(was, n) == if n in names then Some(names[n]) else None;
    }
  }

  method RunName(s: Storage, name: Text, handle: nat, ghost names: map<Text, nat>) returns (o: Outcome)
    requires s.Valid() && NamesHold(s.names.contents, names)
    modifies s.names, s.names.name
    ensures s.Valid()
    ensures o == if name in names || |names.Keys| == 0x4000_0000 then Nothing else Named(name, handle)
    ensures NamesHold(s.names.contents, StepNames(names, o))
    ensures s.names.name == old(s.names.name) || fresh(s.names.name)
  {
    ghost var was := s.names.contents;
    assert Lookup(was, name) == if name in names then Some(names[name]) else None;
    NamesCount(was, names);
    var r := s.names.InsertName(name, handle);
    if r.Ok? {
      assert if r.value then r == Ok(true) else r == Ok(false);
    }
    o := if r == Ok(true) then Named(name, handle) else Nothing;
  }

  lemma Extend(calls: seq<Call>, tr: seq<Outcome>, o: Outcome)
    requires AllRight(calls, tr) && |tr| < |calls| && Right(tr, calls[|tr|], o)
    ensures AllRight(calls, tr + [o])
    ensures LiveAfter(tr + [o]) == StepLive(LiveAfter(tr), o)
    ensures NamesAfter(tr + [o]) == StepNames(NamesAfter(tr), o)
  {
    var t := tr + [o];
    assert t[..|t| - 1] == tr;
    forall i | 0 <= i < |t| ensures Right(t[..i], calls[i], t[i]) {
      assert i < |tr| ==> t[..i] == tr[..i];
      assert i == |tr| ==> t[..i] == tr;
    }
  }
}
