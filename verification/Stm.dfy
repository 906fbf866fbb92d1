/** The software-transactional-memory cell of lua-stm.c: one writer box publishes
    reference-counted copies, any number of reader boxes hold the cell and the
    copy they saw last.  Every atomic memory access is one step; the cell's
    reader/writer lock is the transition system of module RwLock, embedded as is. */
module Stm {
  import opened Wrappers
  import RwLock

  type Pid = RwLock.Tid
  type CopyId = nat

  /** `struct stm_copy`; `frees` counts how often its message was freed. */
  datatype Copy = Copy(ref: int, frees: nat)

  /** `obj->copy`.  `Stale` is a non-NULL pointer whose count was already given
      up (inside stm_release, between the decrement and the store of NULL). */
  datatype Pointer = Null | Ptr(c: CopyId) | Stale(c: CopyId)

  datatype Box = NoBox | WriterBox | ReaderBox

  datatype After = ToReady | ToRelNull

  /** Program counters of the STM operations, one value per atomic step. */
  datatype Op =
    | Ready
    // stm_grab
    | GrabLock | GrabInc | GrabUnlock(ref: int) | GrabAssert(ref: int)
    // stm_copy and the rest of lread
    | CopyLock | CopyLoad | CopyInc(ret: Option<CopyId>) | CopyAssert(ref: int)
    | CopyUnlock | Compare | DropLast
    // stm_update
    | UpdLock | UpdLoad | UpdStore(prev: Pointer) | UpdUnlock
    // stm_releasecopy of the local copy, and its two frees
    | DropTemp | FreeCopy(c: CopyId, after: After)
    // stm_release
    | RelAssert | RelLock | RelDrop | RelNull | RelDec | RelUnlock | RelFree
    // stm_releasereader, then the reader's last copy
    | RdrLock | RdrDec | RdrUnlock | RdrFree | RdrDropLast

  /** The service that owns one box: what it executes, the reader's `lastcopy`, the counted
      copy held in a local variable, and whether lread reports a message. */
  datatype Proc = Proc(box: Box, op: Op, last: Option<CopyId>, temp: Option<CopyId>, told: bool)

  /** `pending` counts grabbed cell pointers that no reader box was made from
      yet; `frees` counts how often the cell itself was freed. */
  datatype State = State(
    lock: RwLock.State, reference: int, copy: Pointer, frees: nat, pending: nat,
    copies: map<CopyId, Copy>, procs: map<Pid, Proc>)

  ghost predicate Init(s: State) {
    && RwLock.Init(s.lock)
    && s.reference == 1 && s.frees == 0 && s.pending == 0
    && s.copy.Ptr? && s.copies == map[s.copy.c := Copy(1, 0)]
    && exists w: Pid :: s.procs == map[w := Proc(WriterBox, Ready, None, None, false)]
  }

  // ------------------------------------------------------------ steps

  function At(s: State, t: Pid, p: Proc): State {
    s.(procs := s.procs[t := p])
  }

  function Go(s: State, t: Pid, op: Op): State
    requires t in s.procs
  {
    At(s, t, s.procs[t].(op := op))
  }

  /** A lock access of `t`; `inside` is where `t` continues once the lock's
      program counter has reached `goal`. */
  predicate LockStep(s: State, s': State, t: Pid, goal: RwLock.Pc, inside: Op)
    requires t in s.procs
  {
    && RwLock.Step(s.lock, s'.lock, t)
    && s' == Go(s, t, if RwLock.PcOf(s'.lock, t) == goal then inside else s.procs[t].op)
             .(lock := s'.lock)
  }

  /** A call: `t` enters rwlock_rlock or rwlock_wlock. */
  predicate Enter(s: State, s': State, t: Pid, entry: RwLock.Pc, op: Op)
    requires t in s.procs
  {
    && RwLock.Step(s.lock, s'.lock, t)
    && RwLock.PcOf(s'.lock, t) == entry
    && s' == Go(s, t, op).(lock := s'.lock)
  }

  /** The atomic decrement in stm_releasecopy; a count of zero leads to the frees. */
  function Dec(s: State, t: Pid, c: Option<CopyId>, p: Proc, after: After): State {
    var done := p.(op := if after.ToReady? then Ready else RelNull);
    if c.None? || c.value !in s.copies then At(s, t, done)
    else
      var k := s.copies[c.value];
      var s1 := s.(copies := s.copies[c.value := k.(ref := k.ref - 1)]);
      At(s1, t, if k.ref - 1 == 0 then p.(op := FreeCopy(c.value, after)) else done)
  }

  /** stm_update: a copy at a fresh address with count one, then the write lock. */
  predicate UpdateCall(s: State, s': State, t: Pid)
    requires t in s.procs
  {
    exists c | c in s'.copies.Keys - s.copies.Keys ::
      && RwLock.Step(s.lock, s'.lock, t)
      && RwLock.PcOf(s'.lock, t) == RwLock.WTas
      && s' == At(s, t, s.procs[t].(op := UpdLock, temp := Some(c)))
               .(lock := s'.lock, copies := s.copies[c := Copy(1, 0)])
  }

  predicate ReadyStep(s: State, s': State, t: Pid)
    requires t in s.procs
  {
    match s.procs[t].box
    case NoBox => false
    case WriterBox =>
      || Enter(s, s', t, RwLock.RSpin, GrabLock)
      || UpdateCall(s, s', t)
      || s' == Go(s, t, RelAssert)
    case ReaderBox =>
      || Enter(s, s', t, RwLock.RSpin, GrabLock)
      || Enter(s, s', t, RwLock.RSpin, CopyLock)
      || Enter(s, s', t, RwLock.RSpin, RdrLock)
  }

  function FreeOf(s: State, c: CopyId): State {
    if c in s.copies then
      s.(copies := s.copies[c := s.copies[c].(frees := s.copies[c].frees + 1)])
    else s
  }

  predicate GrabStep(s: State, s': State, t: Pid)
    requires t in s.procs
  {
    match s.procs[t].op
    case GrabLock => LockStep(s, s', t, RwLock.RIn, GrabInc)
    case GrabInc =>
      s' == Go(s, t, GrabUnlock(s.reference)).(reference := s.reference + 1, pending := s.pending + 1)
    case GrabUnlock(ref) => LockStep(s, s', t, RwLock.Idle, GrabAssert(ref))
    case GrabAssert(_) => s' == Go(s, t, Ready)
    case _ => false
  }

  predicate ReadStep(s: State, s': State, t: Pid)
    requires t in s.procs
  {
    var p := s.procs[t];
    match p.op
    case CopyLock => LockStep(s, s', t, RwLock.RIn, CopyLoad)
    case CopyLoad =>
      s' == Go(s, t, CopyInc(if s.copy.Null? then None else Some(s.copy.c)))
    case CopyInc(ret) =>
      if ret.None? || ret.value !in s.copies then s' == Go(s, t, CopyUnlock)
      else
        var k := s.copies[ret.value];
        s' == At(s, t, p.(op := CopyAssert(k.ref), temp := ret))
              .(copies := s.copies[ret.value := k.(ref := k.ref + 1)])
    case CopyAssert(_) => s' == Go(s, t, CopyUnlock)
    case CopyUnlock => LockStep(s, s', t, RwLock.Idle, Compare)
    case Compare =>
      s' == if p.temp == p.last then At(s, t, p.(op := DropTemp, told := false))
            else At(s, t, p.(op := DropLast, told := p.temp.Some?))
    case _ => false
  }

  predicate DropStep(s: State, s': State, t: Pid)
    requires t in s.procs
  {
    var p := s.procs[t];
    match p.op
    case DropLast => s' == Dec(s, t, p.last, p.(last := p.temp, temp := None), ToReady)
    case DropTemp => s' == Dec(s, t, p.temp, p.(temp := None), ToReady)
    case RdrDropLast => s' == Dec(s, t, p.last, p.(box := NoBox, last := None), ToReady)
    case FreeCopy(c, after) =>
      s' == Go(FreeOf(s, c), t, if after.ToReady? then Ready else RelNull)
    case _ => false
  }

  predicate ReaderReleaseStep(s: State, s': State, t: Pid)
    requires t in s.procs
  {
    match s.procs[t].op
    case RdrLock => LockStep(s, s', t, RwLock.RIn, RdrDec)
    case RdrDec =>
      s' == Go(s, t, if s.reference - 1 == 0 then RdrFree else RdrUnlock).(reference := s.reference - 1)
    case RdrUnlock => LockStep(s, s', t, RwLock.Idle, RdrDropLast)
    case RdrFree => s' == Go(s, t, RdrDropLast).(frees := s.frees + 1)
    case _ => false
  }

  predicate UpdateStep(s: State, s': State, t: Pid)
    requires t in s.procs
  {
    var p := s.procs[t];
    match p.op
    case UpdLock => LockStep(s, s', t, RwLock.WIn, UpdLoad)
    case UpdLoad => s' == Go(s, t, UpdStore(s.copy))
    case UpdStore(prev) =>
      p.temp.Some?
      && s' == At(s, t, p.(op := UpdUnlock, temp := if prev.Null? then None else Some(prev.c)))
               .(copy := Ptr(p.temp.value))
    case UpdUnlock => LockStep(s, s', t, RwLock.Idle, DropTemp)
    case _ => false
  }

  predicate ReleaseStep(s: State, s': State, t: Pid)
    requires t in s.procs
  {
    var p := s.procs[t];
    match p.op
    case RelAssert => Enter(s, s', t, RwLock.WTas, RelLock)
    case RelLock => LockStep(s, s', t, RwLock.WIn, RelDrop)
    case RelDrop =>
      if s.copy.Null? then s' == Go(s, t, RelNull)
      else s' == Dec(s, t, Some(s.copy.c), p, ToRelNull).(copy := Stale(s.copy.c))
    case RelNull => s' == Go(s, t, RelDec).(copy := Null)
    case RelDec =>
      s' == Go(s, t, if s.reference - 1 > 0 then RelUnlock else RelFree).(reference := s.reference - 1)
    case RelUnlock =>
      && RwLock.Step(s.lock, s'.lock, t)
      && s' == At(s, t, p.(box := NoBox, op := Ready)).(lock := s'.lock)
    case RelFree => s' == At(s, t, p.(box := NoBox, op := Ready)).(frees := s.frees + 1)
    case _ => false
  }

  /** lnewreader: a new box made from a grabbed pointer. */
  predicate NewReader(s: State, s': State, t: Pid) {
    && t !in s.procs && RwLock.PcOf(s.lock, t) == RwLock.Idle && s.pending > 0
    && s' == At(s, t, Proc(ReaderBox, Ready, None, None, false)).(pending := s.pending - 1)
  }

  predicate Step(s: State, s': State, t: Pid) {
    if t !in s.procs then NewReader(s, s', t)
    else if s.procs[t].op.Ready? then ReadyStep(s, s', t)
    else
      || GrabStep(s, s', t) || ReadStep(s, s', t) || DropStep(s, s', t)
      || ReaderReleaseStep(s, s', t) || UpdateStep(s, s', t) || ReleaseStep(s, s', t)
  }

  // ------------------------------------------------------------ holders

  /** Still counted in `obj->reference`. */
  predicate Holds(p: Proc) {
    !p.box.NoBox? && !p.op.RdrFree? && !p.op.RdrUnlock? && !p.op.RdrDropLast?
    && !p.op.RelUnlock? && !p.op.RelFree?
  }

  function Holding(s: State): set<Pid> { set t | t in s.procs && Holds(s.procs[t]) }

  predicate FreesObject(p: Proc) { p.op.RelFree? || p.op.RdrFree? }

  function ObjectFreers(s: State): set<Pid> { set t | t in s.procs && FreesObject(s.procs[t]) }

  predicate FreesCopy(p: Proc, c: CopyId) { p.op.FreeCopy? && p.op.c == c }

  function CopyFreers(s: State, c: CopyId): set<Pid> {
    set t | t in s.procs && FreesCopy(s.procs[t], c)
  }

  /** Readers that keep `c` as their last copy. */
  function LastHolders(s: State, c: CopyId): set<Pid> {
    set t | t in s.procs && s.procs[t].last == Some(c)
  }

  /** Operations in flight that hold `c` in a local variable. */
  function LocalHolders(s: State, c: CopyId): set<Pid> {
    set t | t in s.procs && s.procs[t].temp == Some(c)
  }

  function Ind(b: bool): nat { if b then 1 else 0 }

  /** The references to `c`: the object's pointer, readers' last copies and
      copies in flight. */
  function HolderCount(s: State, c: CopyId): nat {
    Ind(s.copy == Ptr(c)) + |LastHolders(s, c)| + |LocalHolders(s, c)|
  }

  // ------------------------------------------------------------ the invariant

  datatype Mode = Outside | ReadSpin | ReadIn | WriteSpin | WriteIn

  function ModeOf(op: Op): Mode {
    match op
    case Ready | GrabAssert(_) | Compare | DropLast | DropTemp | RelAssert | RdrDropLast => Outside
    case FreeCopy(_, after) => if after.ToReady? then Outside else WriteIn
    case GrabLock | CopyLock | RdrLock => ReadSpin
    case UpdLock | RelLock => WriteSpin
    case UpdLoad | UpdStore(_) | UpdUnlock | RelDrop | RelNull | RelDec | RelUnlock | RelFree => WriteIn
    case _ => ReadIn
  }

  /** The operation and the lock's program counter of one process agree. */
  predicate Linked(s: State, t: Pid)
    requires t in s.procs
  {
    var pc := RwLock.PcOf(s.lock, t);
    match ModeOf(s.procs[t].op)
    case Outside => pc == RwLock.Idle || (s.reference == 0 && !Holds(s.procs[t]))
    case ReadSpin => pc in {RwLock.RSpin, RwLock.RInc, RwLock.RCheck, RwLock.RBack}
    case ReadIn => pc == RwLock.RIn
    case WriteSpin => pc in {RwLock.WTas, RwLock.WWait}
    case WriteIn => pc == RwLock.WIn
  }

  predicate WriterOp(op: Op) {
    match op
    case UpdLock | UpdLoad | UpdStore(_) | UpdUnlock | RelAssert | RelLock | RelDrop | RelNull
       | RelDec | RelUnlock | RelFree => true
    case FreeCopy(_, after) => after.ToRelNull?
    case _ => false
  }

  predicate ReaderOp(op: Op) {
    match op
    case CopyLock | CopyLoad | CopyInc(_) | CopyAssert(_) | CopyUnlock | Compare | DropLast
       | RdrLock | RdrDec | RdrUnlock | RdrFree | RdrDropLast => true
    case _ => false
  }

  predicate MayHoldLocal(op: Op) {
    match op
    case CopyAssert(_) | CopyUnlock | Compare | DropLast | DropTemp
       | UpdLock | UpdLoad | UpdStore(_) | UpdUnlock => true
    case _ => false
  }

  predicate WellFormed(p: Proc) {
    && (WriterOp(p.op) ==> p.box.WriterBox?)
    && (ReaderOp(p.op) ==> p.box.ReaderBox?)
    && (p.box.NoBox? ==> p.op.Ready? || (p.op.FreeCopy? && p.op.after.ToReady?))
    && (p.temp.Some? ==> MayHoldLocal(p.op))
    && (p.op.UpdLock? || p.op.UpdLoad? || p.op.UpdStore? ==> p.temp.Some?)
    && (p.last.Some? ==> p.box.ReaderBox?)
  }

  predicate GoingNull(p: Proc) {
    p.op.RelNull? || (p.op.FreeCopy? && p.op.after.ToRelNull?)
  }

  /** The writer's count on the published copy still stands. */
  predicate Publishes(p: Proc) {
    p.box.WriterBox? && !GoingNull(p) && !p.op.RelDec? && !p.op.RelUnlock? && !p.op.RelFree?
  }

  /** What the operation in progress knows about the shared state. */
  predicate LocalFacts(s: State, p: Proc) {
    && (p.op.CopyInc? ==> p.op.ret == if s.copy.Ptr? then Some(s.copy.c) else None)
    && (p.op.UpdStore? ==> p.op.prev == s.copy)
    && (p.op.GrabUnlock? || p.op.GrabAssert? || p.op.CopyAssert? ==> p.op.ref > 0)
    && (p.op.RelUnlock? ==> s.reference > 0)
    && (FreesObject(p) ==> s.reference == 0)
    && (p.box.WriterBox? ==> (Publishes(p) <==> s.copy.Ptr?) && (GoingNull(p) <==> s.copy.Stale?))
  }

  predicate IsWriter(s: State, t: Pid) { t in s.procs && s.procs[t].box.WriterBox? }

  ghost predicate ProcsOk(s: State) {
    && (forall t :: t in s.procs ==>
          Linked(s, t) && WellFormed(s.procs[t]) && LocalFacts(s, s.procs[t]))
    && (forall t, u :: IsWriter(s, t) && IsWriter(s, u) ==> t == u)
    && (!s.copy.Null? ==> exists t :: IsWriter(s, t))
    && (forall t :: t !in s.procs ==> RwLock.PcOf(s.lock, t) == RwLock.Idle)
  }

  ghost predicate PointersOk(s: State) {
    && (!s.copy.Null? ==> s.copy.c in s.copies)
    && (forall t :: t in s.procs ==>
          && (s.procs[t].last.Some? ==> s.procs[t].last.value in s.copies)
          && (s.procs[t].temp.Some? ==> s.procs[t].temp.value in s.copies)
          && (s.procs[t].op.FreeCopy? ==> s.procs[t].op.c in s.copies))
  }

  /** A copy's count equals its holders; it is freed, once, after the last of
      them has gone. */
  ghost predicate CopyOk(s: State, c: CopyId)
    requires c in s.copies
  {
    && s.copies[c].ref == HolderCount(s, c)
    && s.copies[c].frees + |CopyFreers(s, c)| == (if s.copies[c].ref == 0 then 1 else 0)
  }

  ghost predicate ObjectOk(s: State) {
    && s.reference == |Holding(s)| + s.pending
    && s.frees + |ObjectFreers(s)| == (if s.reference == 0 then 1 else 0)
  }

  ghost predicate Inv(s: State) {
    && RwLock.Inv(s.lock) && ProcsOk(s) && PointersOk(s) && ObjectOk(s)
    && forall c :: c in s.copies ==> CopyOk(s, c)
  }

  // ------------------------------------------------------------ preservation

  /** Only `t` moves. */
  ghost predicate Frame(s: State, s': State, t: Pid) {
    && t in s'.procs
    && forall u :: u != t ==>
         && (u in s'.procs <==> u in s.procs)
         && (u in s.procs ==> s'.procs[u] == s.procs[u])
         && RwLock.PcOf(s'.lock, u) == RwLock.PcOf(s.lock, u)
  }

  /** Moving one member changes a cardinality by that member only. */
  lemma MemberDelta<T>(a: set<T>, b: set<T>, x: T)
    requires a - {x} == b - {x}
    ensures |b| + Ind(x in a) == |a| + Ind(x in b)
  {
    assert x in a ==> a == (a - {x}) + {x};
    assert x in b ==> b == (b - {x}) + {x};
    assert x !in a ==> a == a - {x};
    assert x !in b ==> b == b - {x};
  }

  lemma ObjectDeltas(s: State, s': State, t: Pid)
    requires Frame(s, s', t)
    ensures |Holding(s')| + Ind(t in Holding(s)) == |Holding(s)| + Ind(t in Holding(s'))
    ensures |ObjectFreers(s')| + Ind(t in ObjectFreers(s)) == |ObjectFreers(s)| + Ind(t in ObjectFreers(s'))
  {
    MemberDelta(Holding(s), Holding(s'), t);
    MemberDelta(ObjectFreers(s), ObjectFreers(s'), t);
  }

  lemma CopyDeltas(s: State, s': State, t: Pid, c: CopyId)
    requires Frame(s, s', t)
    ensures |LastHolders(s', c)| + Ind(t in LastHolders(s, c)) == |LastHolders(s, c)| + Ind(t in LastHolders(s', c))
    ensures |LocalHolders(s', c)| + Ind(t in LocalHolders(s, c)) == |LocalHolders(s, c)| + Ind(t in LocalHolders(s', c))
    ensures |CopyFreers(s', c)| + Ind(t in CopyFreers(s, c)) == |CopyFreers(s, c)| + Ind(t in CopyFreers(s', c))
  {
    MemberDelta(LastHolders(s, c), LastHolders(s', c), t);
    MemberDelta(LocalHolders(s, c), LocalHolders(s', c), t);
    MemberDelta(CopyFreers(s, c), CopyFreers(s', c), t);
  }

  lemma NonEmpty<T>(a: set<T>, x: T)
    requires x in a
    ensures |a| >= 1
  {
    assert a != {};
  }

  function HoldsAt(s: State, t: Pid): nat { Ind(t in s.procs && Holds(s.procs[t])) }

  function FreesAt(s: State, t: Pid): nat { Ind(t in s.procs && FreesObject(s.procs[t])) }

  /** The cell's count moves with `t`'s holding and the pending pointers, and
      the duty to free it appears exactly when the count reaches zero. */
  predicate ObjectEffect(s: State, s': State, t: Pid) {
    && s'.reference + HoldsAt(s, t) + s.pending == s.reference + HoldsAt(s', t) + s'.pending
    && s'.frees + FreesAt(s', t) + Ind(s.reference == 0)
       == s.frees + FreesAt(s, t) + Ind(s'.reference == 0)
  }

  /** References to `c` that the object's pointer or `t` own. */
  function Own(s: State, t: Pid, c: CopyId): nat {
    Ind(s.copy == Ptr(c))
    + Ind(t in s.procs && s.procs[t].last == Some(c))
    + Ind(t in s.procs && s.procs[t].temp == Some(c))
  }

  function FreesCopyAt(s: State, t: Pid, c: CopyId): nat { Ind(t in s.procs && FreesCopy(s.procs[t], c)) }

  /** A copy's count moves with the references of `t` and the object, and the
      duty to free it appears exactly when the count reaches zero. */
  predicate CopyEffect(s: State, s': State, t: Pid, c: CopyId) {
    c in s.copies ==>
      && c in s'.copies
      && s'.copies[c].ref + Own(s, t, c) == s.copies[c].ref + Own(s', t, c)
      && s'.copies[c].frees + FreesCopyAt(s', t, c) + Ind(s.copies[c].ref == 0)
         == s.copies[c].frees + FreesCopyAt(s, t, c) + Ind(s'.copies[c].ref == 0)
  }

  /** A copy that was not there before is the one an update just made. */
  predicate FreshEffect(s: State, s': State, t: Pid, c: CopyId) {
    c !in s.copies && c in s'.copies ==>
      s'.copies[c] == Copy(1, 0) && Own(s', t, c) == 1 && s'.copy == s.copy && FreesCopyAt(s', t, c) == 0
  }

  predicate ProcPointersOk(s: State, t: Pid) {
    && t in s.procs
    && (!s.copy.Null? ==> s.copy.c in s.copies)
    && (s.procs[t].last.Some? ==> s.procs[t].last.value in s.copies)
    && (s.procs[t].temp.Some? ==> s.procs[t].temp.value in s.copies)
    && (s.procs[t].op.FreeCopy? ==> s.procs[t].op.c in s.copies)
  }

  predicate Moves(s: State, s': State, t: Pid) {
    && (RwLock.Step(s.lock, s'.lock, t) || s'.lock == s.lock)
    && t in s'.procs && s'.procs == s.procs[t := s'.procs[t]]
    && s.copies.Keys <= s'.copies.Keys
  }

  /** What the invariant says about `t` itself before its step. */
  predicate LocalOk(s: State, t: Pid, c: CopyId) {
    && ProcPointersOk(s, t) && WellFormed(s.procs[t]) && LocalFacts(s, s.procs[t])
    && (Holds(s.procs[t]) ==> s.reference > 0)
    && (c in s.copies ==> s.copies[c].ref >= Own(s, t, c))
  }

  /** Everything a step does to the counts, seen from the process that moves. */
  predicate Effect(s: State, s': State, t: Pid, c: CopyId) {
    && Moves(s, s', t) && ObjectEffect(s, s', t) && CopyEffect(s, s', t, c) && FreshEffect(s, s', t, c)
    && ProcPointersOk(s', t) && WellFormed(s'.procs[t])
  }

  lemma NewEffect(s: State, s': State, t: Pid, c: CopyId)
    requires NewReader(s, s', t) && (!s.copy.Null? ==> s.copy.c in s.copies)
    ensures Effect(s, s', t, c)
  {
  }

  /** A lock access leaves the counts alone; both continuations hold the same. */
  lemma LockEffect(s: State, s': State, t: Pid, c: CopyId, inside: Op)
    requires LocalOk(s, t, c) && RwLock.Step(s.lock, s'.lock, t)
    requires s' == Go(s, t, inside).(lock := s'.lock)
    requires !s.procs[t].op.FreeCopy? && !inside.FreeCopy?
    requires !FreesObject(s.procs[t]) && !inside.RelFree? && !inside.RdrFree?
    requires Holds(s.procs[t]) == Holds(s.procs[t].(op := inside))
    requires WellFormed(s.procs[t].(op := inside))
    ensures Effect(s, s', t, c)
  {
  }

  lemma ReadyEffect(s: State, s': State, t: Pid, c: CopyId)
    requires LocalOk(s, t, c) && s.procs[t].op.Ready? && ReadyStep(s, s', t)
    ensures Effect(s, s', t, c)
  {
    if Enter(s, s', t, RwLock.RSpin, GrabLock) {
      LockEffect(s, s', t, c, GrabLock);
    } else if s.procs[t].box.ReaderBox? {
      ReaderCallEffect(s, s', t, c);
    } else if UpdateCall(s, s', t) {
      UpdateCallEffect(s, s', t, c);
    } else {
      RelCallEffect(s, s', t, c);
    }
  }

  lemma ReaderCallEffect(s: State, s': State, t: Pid, c: CopyId)
    requires LocalOk(s, t, c) && s.procs[t].op.Ready? && s.procs[t].box.ReaderBox?
    requires Enter(s, s', t, RwLock.RSpin, CopyLock) || Enter(s, s', t, RwLock.RSpin, RdrLock)
    ensures Effect(s, s', t, c)
  {
    if Enter(s, s', t, RwLock.RSpin, CopyLock) {
      LockEffect(s, s', t, c, CopyLock);
    } else {
      LockEffect(s, s', t, c, RdrLock);
    }
  }

  lemma RelCallEffect(s: State, s': State, t: Pid, c: CopyId)
    requires LocalOk(s, t, c) && s.procs[t].op.Ready? && s.procs[t].box.WriterBox? && s' == Go(s, t, RelAssert)
    ensures Effect(s, s', t, c)
  {
  }

  lemma UpdateCallEffect(s: State, s': State, t: Pid, c: CopyId)
    requires LocalOk(s, t, c) && s.procs[t].op.Ready? && s.procs[t].box.WriterBox? && UpdateCall(s, s', t)
    ensures Effect(s, s', t, c)
  {
  }

  lemma GrabEffect(s: State, s': State, t: Pid, c: CopyId)
    requires LocalOk(s, t, c) && GrabStep(s, s', t)
    ensures Effect(s, s', t, c)
  {
    match s.procs[t].op
    case GrabLock | GrabUnlock(_) => LockEffect(s, s', t, c, s'.procs[t].op);
    case GrabInc | GrabAssert(_) =>
  }

  lemma ReadEffect(s: State, s': State, t: Pid, c: CopyId)
    requires LocalOk(s, t, c) && ReadStep(s, s', t)
    ensures Effect(s, s', t, c)
  {
    match s.procs[t].op
    case CopyLock | CopyUnlock => LockEffect(s, s', t, c, s'.procs[t].op);
    case CopyInc(_) => ReadIncEffect(s, s', t, c);
    case CopyLoad | CopyAssert(_) | Compare => GoEffect(s, s', t, c, s'.procs[t].op, s'.procs[t].told);
  }

  /** A step that changes no shared field but `t`'s own position. */
  lemma GoEffect(s: State, s': State, t: Pid, c: CopyId, op: Op, told: bool)
    requires LocalOk(s, t, c) && s' == At(s, t, s.procs[t].(op := op, told := told))
    requires s.procs[t].op.CopyLoad? || s.procs[t].op.CopyAssert? || s.procs[t].op.Compare?
    requires op.CopyInc? || op.CopyUnlock? || op.DropTemp? || op.DropLast?
    requires WellFormed(s.procs[t].(op := op, told := told))
    ensures Effect(s, s', t, c)
  {
  }

  lemma ReadIncEffect(s: State, s': State, t: Pid, c: CopyId)
    requires LocalOk(s, t, c) && ReadStep(s, s', t) && s.procs[t].op.CopyInc?
    ensures Effect(s, s', t, c)
  {
  }

  lemma DropEffect(s: State, s': State, t: Pid, c: CopyId)
    requires LocalOk(s, t, c) && DropStep(s, s', t)
    ensures Effect(s, s', t, c)
  {
    var p := s.procs[t];
    match p.op
    case DropLast => DecEffect(s, s', t, c, p.last, p.(last := p.temp, temp := None));
    case DropTemp => DecEffect(s, s', t, c, p.temp, p.(temp := None));
    case RdrDropLast => DecEffect(s, s', t, c, p.last, p.(box := NoBox, last := None));
    case FreeCopy(_, _) =>
  }

  /** `q` is `p` after it has given up its local or its last copy `d`. */
  predicate Drops(p: Proc, d: Option<CopyId>, q: Proc) {
    || (p.op.DropLast? && d == p.last && q == p.(last := p.temp, temp := None))
    || (p.op.DropTemp? && d == p.temp && q == p.(temp := None))
    || (p.op.RdrDropLast? && d == p.last && q == p.(box := NoBox, last := None))
  }

  lemma DecEffect(s: State, s': State, t: Pid, c: CopyId, d: Option<CopyId>, q: Proc)
    requires LocalOk(s, t, c) && s' == Dec(s, t, d, q, ToReady) && Drops(s.procs[t], d, q)
    ensures Effect(s, s', t, c)
  {
    if d.None? {
      DecNoneEffect(s, s', t, c, q);
    } else {
      DecSomeEffect(s, s', t, c, d.value, q);
    }
  }

  lemma DecNoneEffect(s: State, s': State, t: Pid, c: CopyId, q: Proc)
    requires LocalOk(s, t, c) && s' == Dec(s, t, None, q, ToReady) && Drops(s.procs[t], None, q)
    ensures Effect(s, s', t, c)
  {
  }

  lemma DecSomeEffect(s: State, s': State, t: Pid, c: CopyId, d: CopyId, q: Proc)
    requires LocalOk(s, t, c) && s' == Dec(s, t, Some(d), q, ToReady) && Drops(s.procs[t], Some(d), q)
    ensures Effect(s, s', t, c)
  {
    if s.procs[t].op.DropLast? {
      DecLastEffect(s, s', t, c, d, q);
    } else {
      DecOtherEffect(s, s', t, c, d, q);
    }
  }

  lemma DecLastEffect(s: State, s': State, t: Pid, c: CopyId, d: CopyId, q: Proc)
    requires LocalOk(s, t, c) && s' == Dec(s, t, Some(d), q, ToReady) && Drops(s.procs[t], Some(d), q)
    requires s.procs[t].op.DropLast?
    ensures Effect(s, s', t, c)
  {
  }

  lemma DecOtherEffect(s: State, s': State, t: Pid, c: CopyId, d: CopyId, q: Proc)
    requires LocalOk(s, t, c) && s' == Dec(s, t, Some(d), q, ToReady) && Drops(s.procs[t], Some(d), q)
    requires !s.procs[t].op.DropLast?
    ensures Effect(s, s', t, c)
  {
  }

  lemma ReaderReleaseEffect(s: State, s': State, t: Pid, c: CopyId)
    requires LocalOk(s, t, c) && ReaderReleaseStep(s, s', t)
    ensures Effect(s, s', t, c)
  {
    match s.procs[t].op
    case RdrLock | RdrUnlock => LockEffect(s, s', t, c, s'.procs[t].op);
    case RdrDec | RdrFree => ReaderCountEffect(s, s', t, c);
  }

  lemma ReaderCountEffect(s: State, s': State, t: Pid, c: CopyId)
    requires LocalOk(s, t, c) && ReaderReleaseStep(s, s', t) && (s.procs[t].op.RdrDec? || s.procs[t].op.RdrFree?)
    ensures Effect(s, s', t, c)
  {
  }

  lemma UpdateEffect(s: State, s': State, t: Pid, c: CopyId)
    requires LocalOk(s, t, c) && UpdateStep(s, s', t)
    ensures Effect(s, s', t, c)
  {
    match s.procs[t].op
    case UpdLock | UpdUnlock => LockEffect(s, s', t, c, s'.procs[t].op);
    case UpdLoad => UpdLoadEffect(s, s', t, c);
    case UpdStore(_) => UpdStoreEffect(s, s', t, c);
  }

  lemma UpdLoadEffect(s: State, s': State, t: Pid, c: CopyId)
    requires LocalOk(s, t, c) && s.procs[t].op.UpdLoad? && s' == Go(s, t, UpdStore(s.copy))
    ensures Effect(s, s', t, c)
  {
  }

  lemma UpdStoreEffect(s: State, s': State, t: Pid, c: CopyId)
    requires LocalOk(s, t, c) && s.procs[t].op.UpdStore? && UpdateStep(s, s', t)
    ensures Effect(s, s', t, c)
  {
  }

  lemma ReleaseEffect(s: State, s': State, t: Pid, c: CopyId)
    requires LocalOk(s, t, c) && ReleaseStep(s, s', t)
    ensures Effect(s, s', t, c)
  {
    match s.procs[t].op
    case RelAssert | RelLock => LockEffect(s, s', t, c, s'.procs[t].op);
    case RelDrop => RelDropEffect(s, s', t, c);
    case RelNull | RelDec | RelUnlock | RelFree => RelEndEffect(s, s', t, c);
  }

  lemma RelDropEffect(s: State, s': State, t: Pid, c: CopyId)
    requires LocalOk(s, t, c) && s.procs[t].op.RelDrop? && ReleaseStep(s, s', t)
    ensures Effect(s, s', t, c)
  {
  }

  lemma RelEndEffect(s: State, s': State, t: Pid, c: CopyId)
    requires LocalOk(s, t, c) && ReleaseStep(s, s', t)
    requires s.procs[t].op.RelNull? || s.procs[t].op.RelDec? || s.procs[t].op.RelUnlock? || s.procs[t].op.RelFree?
    ensures Effect(s, s', t, c)
  {
  }

  lemma LocalInv(s: State, t: Pid, c: CopyId)
    requires Inv(s) && t in s.procs
    ensures LocalOk(s, t, c) && Linked(s, t)
  {
    if Holds(s.procs[t]) {
      assert t in Holding(s);
      NonEmpty(Holding(s), t);
    }
    if c in s.copies {
      assert CopyOk(s, c);
      if t in LastHolders(s, c) { NonEmpty(LastHolders(s, c), t); }
      if t in LocalHolders(s, c) { NonEmpty(LocalHolders(s, c), t); }
    }
  }

  lemma StepEffect(s: State, s': State, t: Pid, c: CopyId)
    requires Inv(s) && Step(s, s', t)
    ensures Effect(s, s', t, c) && Frame(s, s', t)
  {
    if t !in s.procs {
      NewEffect(s, s', t, c);
    } else {
      LocalInv(s, t, c);
      if s.procs[t].op.Ready? { ReadyEffect(s, s', t, c); }
      else if GrabStep(s, s', t) { GrabEffect(s, s', t, c); }
      else if ReadStep(s, s', t) { ReadEffect(s, s', t, c); }
      else if DropStep(s, s', t) { DropEffect(s, s', t, c); }
      else if ReaderReleaseStep(s, s', t) { ReaderReleaseEffect(s, s', t, c); }
      else if UpdateStep(s, s', t) { UpdateEffect(s, s', t, c); }
      else { ReleaseEffect(s, s', t, c); }
    }
    MovesFrame(s, s', t);
  }

  lemma MovesFrame(s: State, s': State, t: Pid)
    requires Moves(s, s', t)
    ensures Frame(s, s', t)
  {
  }

  lemma ObjectStep(s: State, s': State, t: Pid)
    requires Inv(s) && Step(s, s', t)
    ensures ObjectOk(s')
  {
    StepEffect(s, s', t, 0);
    ObjectDeltas(s, s', t);
  }

  lemma CopyStep(s: State, s': State, t: Pid, c: CopyId)
    requires Inv(s) && Step(s, s', t) && c in s'.copies
    ensures CopyOk(s', c)
  {
    StepEffect(s, s', t, c);
    CopyDeltas(s, s', t, c);
    if c in s.copies {
      assert CopyOk(s, c);
    } else {
      assert LastHolders(s, c) == {} && LocalHolders(s, c) == {} && CopyFreers(s, c) == {};
      assert s.copy != Ptr(c);
    }
  }

  lemma PointersStep(s: State, s': State, t: Pid)
    requires Inv(s) && Step(s, s', t)
    ensures PointersOk(s')
  {
    StepEffect(s, s', t, 0);
  }

  /** The shared fields change only inside the lock; what `t` knows afterwards
      is again consistent with its lock state. */
  predicate Guarded(s: State, s': State, t: Pid) {
    && t in s.procs && t in s'.procs
    && (s'.copy != s.copy ==> s.procs[t].box.WriterBox? && ModeOf(s.procs[t].op) == WriteIn)
    && (s'.reference != s.reference ==>
          Holds(s.procs[t]) && ModeOf(s.procs[t].op) in {ReadIn, WriteIn})
    && (s'.procs[t].box == s.procs[t].box || s'.procs[t].box.NoBox?)
    && (s.procs[t].box.WriterBox? && s'.procs[t].box.NoBox? ==> s'.copy.Null?)
    && Linked(s', t) && LocalFacts(s', s'.procs[t])
  }

  predicate Calm(s: State, t: Pid) {
    && LocalOk(s, t, 0) && Linked(s, t)
    && (ModeOf(s.procs[t].op) == ReadIn ==> !s.copy.Stale?)
    && (s.copy.Ptr? ==> s.copy.c in s.copies && s.copies[s.copy.c].ref > 0)
  }

  /** Where an access to the lock can lead an operation. */
  predicate Leads(from: Mode, goal: RwLock.Pc, to: Mode) {
    || (from == ReadSpin && goal == RwLock.RIn && to == ReadIn)
    || (from == WriteSpin && goal == RwLock.WIn && to == WriteIn)
    || ((from == ReadIn || from == WriteIn) && goal == RwLock.Idle && to == Outside)
  }

  lemma LockLinked(s: State, s': State, t: Pid, goal: RwLock.Pc, inside: Op)
    requires t in s.procs && Linked(s, t) && LockStep(s, s', t, goal, inside)
    requires Leads(ModeOf(s.procs[t].op), goal, ModeOf(inside))
    ensures Linked(s', t)
  {
  }

  /** What an operation knows is the same for all that is not decided in the lock. */
  predicate Plain(op: Op) {
    op.GrabInc? || op.CopyLoad? || op.RdrDec? || op.UpdLoad? || op.RelDrop? || op.Compare? || op.DropTemp?
    || op.RdrDropLast? || op.GrabLock? || op.CopyLock? || op.RdrLock? || op.UpdLock? || op.RelLock? || op.RelAssert?
  }

  lemma PlainFacts(s: State, s': State, p: Proc, op: Op)
    requires WellFormed(p) && LocalFacts(s, p) && s'.copy == s.copy && s'.reference == s.reference
    requires Plain(op) || (p.op.GrabUnlock? && op == GrabAssert(p.op.ref))
    requires p.op.Ready? || p.op.GrabUnlock? || p.op.CopyUnlock? || p.op.UpdUnlock? || p.op.RdrUnlock? || Plain(p.op)
    ensures LocalFacts(s', p.(op := op)) && LocalFacts(s', p)
  {
  }

  /** A lock access that ends where the operation expects it. */
  lemma LockGuarded(s: State, s': State, t: Pid, goal: RwLock.Pc, inside: Op)
    requires Calm(s, t) && LockStep(s, s', t, goal, inside)
    requires Leads(ModeOf(s.procs[t].op), goal, ModeOf(inside))
    requires var p := s.procs[t];
             && (Plain(inside) || (p.op.GrabUnlock? && inside == GrabAssert(p.op.ref)))
             && (p.op.GrabUnlock? || p.op.CopyUnlock? || p.op.UpdUnlock? || p.op.RdrUnlock? || Plain(p.op))
    ensures Guarded(s, s', t)
  {
    LockLinked(s, s', t, goal, inside);
    PlainFacts(s, s', s.procs[t], inside);
  }

  lemma EnterGuarded(s: State, s': State, t: Pid, entry: RwLock.Pc, op: Op)
    requires Calm(s, t) && (s.procs[t].op.Ready? || s.procs[t].op.RelAssert?) && Enter(s, s', t, entry, op)
    requires (entry == RwLock.RSpin && ModeOf(op) == ReadSpin) || (entry == RwLock.WTas && ModeOf(op) == WriteSpin)
    requires Plain(op)
    ensures Guarded(s, s', t)
  {
    PlainFacts(s, s', s.procs[t], op);
  }

  lemma ReadyGuarded(s: State, s': State, t: Pid)
    requires Calm(s, t) && s.procs[t].op.Ready? && ReadyStep(s, s', t)
    ensures Guarded(s, s', t)
  {
    if Enter(s, s', t, RwLock.RSpin, GrabLock) {
      EnterGuarded(s, s', t, RwLock.RSpin, GrabLock);
    } else if s.procs[t].box.ReaderBox? {
      if Enter(s, s', t, RwLock.RSpin, CopyLock) {
        EnterGuarded(s, s', t, RwLock.RSpin, CopyLock);
      } else {
        EnterGuarded(s, s', t, RwLock.RSpin, RdrLock);
      }
    } else if UpdateCall(s, s', t) {
      UpdateCallGuarded(s, s', t);
    } else {
      RelCallGuarded(s, s', t);
    }
  }

  lemma UpdateCallGuarded(s: State, s': State, t: Pid)
    requires Calm(s, t) && s.procs[t].op.Ready? && s.procs[t].box.WriterBox? && UpdateCall(s, s', t)
    ensures Guarded(s, s', t)
  {
  }

  lemma RelCallGuarded(s: State, s': State, t: Pid)
    requires Calm(s, t) && s.procs[t].op.Ready? && s.procs[t].box.WriterBox? && s' == Go(s, t, RelAssert)
    ensures Guarded(s, s', t)
  {
  }

  lemma GrabGuarded(s: State, s': State, t: Pid)
    requires Calm(s, t) && GrabStep(s, s', t)
    ensures Guarded(s, s', t)
  {
    match s.procs[t].op
    case GrabLock => LockGuarded(s, s', t, RwLock.RIn, GrabInc);
    case GrabUnlock(ref) => LockGuarded(s, s', t, RwLock.Idle, GrabAssert(ref));
    case GrabInc | GrabAssert(_) => GrabIncGuarded(s, s', t);
  }

  lemma GrabIncGuarded(s: State, s': State, t: Pid)
    requires Calm(s, t) && GrabStep(s, s', t) && (s.procs[t].op.GrabInc? || s.procs[t].op.GrabAssert?)
    ensures Guarded(s, s', t)
  {
  }

  lemma ReadGuarded(s: State, s': State, t: Pid)
    requires Calm(s, t) && ReadStep(s, s', t)
    ensures Guarded(s, s', t)
  {
    match s.procs[t].op
    case CopyLock => LockGuarded(s, s', t, RwLock.RIn, CopyLoad);
    case CopyUnlock => LockGuarded(s, s', t, RwLock.Idle, Compare);
    case CopyInc(_) => CopyIncGuarded(s, s', t);
    case CopyLoad | CopyAssert(_) | Compare => CopyLoadGuarded(s, s', t);
  }

  lemma CopyIncGuarded(s: State, s': State, t: Pid)
    requires Calm(s, t) && ReadStep(s, s', t) && s.procs[t].op.CopyInc?
    ensures Guarded(s, s', t)
  {
  }

  lemma CopyLoadGuarded(s: State, s': State, t: Pid)
    requires Calm(s, t) && ReadStep(s, s', t)
    requires s.procs[t].op.CopyLoad? || s.procs[t].op.CopyAssert? || s.procs[t].op.Compare?
    ensures Guarded(s, s', t)
  {
  }

  lemma DropGuarded(s: State, s': State, t: Pid)
    requires Calm(s, t) && DropStep(s, s', t)
    ensures Guarded(s, s', t)
  {
    var p := s.procs[t];
    match p.op
    case DropLast => DecGuarded(s, s', t, p.last, p.(last := p.temp, temp := None));
    case DropTemp => DecGuarded(s, s', t, p.temp, p.(temp := None));
    case RdrDropLast => DecGuarded(s, s', t, p.last, p.(box := NoBox, last := None));
    case FreeCopy(_, _) => FreeCopyGuarded(s, s', t);
  }

  lemma DecGuarded(s: State, s': State, t: Pid, d: Option<CopyId>, q: Proc)
    requires Calm(s, t) && s' == Dec(s, t, d, q, ToReady) && Drops(s.procs[t], d, q)
    ensures Guarded(s, s', t)
  {
  }

  lemma FreeCopyGuarded(s: State, s': State, t: Pid)
    requires Calm(s, t) && DropStep(s, s', t) && s.procs[t].op.FreeCopy?
    ensures Guarded(s, s', t)
  {
  }

  lemma ReaderReleaseGuarded(s: State, s': State, t: Pid)
    requires Calm(s, t) && ReaderReleaseStep(s, s', t)
    ensures Guarded(s, s', t)
  {
    match s.procs[t].op
    case RdrLock => LockGuarded(s, s', t, RwLock.RIn, RdrDec);
    case RdrUnlock => LockGuarded(s, s', t, RwLock.Idle, RdrDropLast);
    case RdrDec | RdrFree => ReaderCountGuarded(s, s', t);
  }

  lemma ReaderCountGuarded(s: State, s': State, t: Pid)
    requires Calm(s, t) && ReaderReleaseStep(s, s', t) && (s.procs[t].op.RdrDec? || s.procs[t].op.RdrFree?)
    ensures Guarded(s, s', t)
  {
  }

  lemma UpdateGuarded(s: State, s': State, t: Pid)
    requires Calm(s, t) && UpdateStep(s, s', t)
    ensures Guarded(s, s', t)
  {
    match s.procs[t].op
    case UpdLock => LockGuarded(s, s', t, RwLock.WIn, UpdLoad);
    case UpdUnlock => LockGuarded(s, s', t, RwLock.Idle, DropTemp);
    case UpdLoad | UpdStore(_) => UpdStoreGuarded(s, s', t);
  }

  lemma UpdStoreGuarded(s: State, s': State, t: Pid)
    requires Calm(s, t) && UpdateStep(s, s', t) && (s.procs[t].op.UpdLoad? || s.procs[t].op.UpdStore?)
    ensures Guarded(s, s', t)
  {
  }

  lemma ReleaseGuarded(s: State, s': State, t: Pid)
    requires Calm(s, t) && ReleaseStep(s, s', t)
    ensures Guarded(s, s', t)
  {
    match s.procs[t].op
    case RelAssert => EnterGuarded(s, s', t, RwLock.WTas, RelLock);
    case RelLock => LockGuarded(s, s', t, RwLock.WIn, RelDrop);
    case RelDrop => RelDropGuarded(s, s', t);
    case RelNull | RelDec => RelNullGuarded(s, s', t);
    case RelUnlock | RelFree => RelEndGuarded(s, s', t);
  }

  lemma RelDropGuarded(s: State, s': State, t: Pid)
    requires Calm(s, t) && s.procs[t].op.RelDrop? && ReleaseStep(s, s', t)
    ensures Guarded(s, s', t)
  {
  }

  lemma RelNullGuarded(s: State, s': State, t: Pid)
    requires Calm(s, t) && ReleaseStep(s, s', t) && (s.procs[t].op.RelNull? || s.procs[t].op.RelDec?)
    ensures Guarded(s, s', t)
  {
  }

  lemma RelEndGuarded(s: State, s': State, t: Pid)
    requires Calm(s, t) && ReleaseStep(s, s', t) && (s.procs[t].op.RelUnlock? || s.procs[t].op.RelFree?)
    ensures Guarded(s, s', t)
  {
  }

  lemma CalmInv(s: State, t: Pid)
    requires Inv(s) && t in s.procs
    ensures Calm(s, t)
  {
    LocalInv(s, t, 0);
    if s.copy.Ptr? {
      assert CopyOk(s, s.copy.c);
    }
    if s.copy.Stale? {
      StaleExcludes(s, t);
    }
  }

  lemma Excludes(s: RwLock.State, w: Pid, t: Pid)
    requires RwLock.Inv(s) && RwLock.PcOf(s, w) == RwLock.WIn
    ensures RwLock.PcOf(s, t) != RwLock.RIn
  {
  }

  lemma GoingNullInside(s: State, w: Pid)
    requires w in s.procs && Linked(s, w) && s.procs[w].box.WriterBox?
    requires LocalFacts(s, s.procs[w]) && s.copy.Stale?
    ensures RwLock.PcOf(s.lock, w) == RwLock.WIn
  {
  }

  lemma StaleExcludes(s: State, t: Pid)
    requires Inv(s) && t in s.procs && s.copy.Stale?
    ensures ModeOf(s.procs[t].op) != ReadIn
  {
    var w :| IsWriter(s, w);
    GoingNullInside(s, w);
    Excludes(s.lock, w, t);
    assert Linked(s, t);
  }

  lemma StepGuarded(s: State, s': State, t: Pid)
    requires Inv(s) && Step(s, s', t) && t in s.procs
    ensures Guarded(s, s', t)
  {
    CalmInv(s, t);
    if s.procs[t].op.Ready? { ReadyGuarded(s, s', t); }
    else if GrabStep(s, s', t) { GrabGuarded(s, s', t); }
    else if ReadStep(s, s', t) { ReadGuarded(s, s', t); }
    else if DropStep(s, s', t) { DropGuarded(s, s', t); }
    else if ReaderReleaseStep(s, s', t) { ReaderReleaseGuarded(s, s', t); }
    else if UpdateStep(s, s', t) { UpdateGuarded(s, s', t); }
    else { ReleaseGuarded(s, s', t); }
  }

  /** `t` and `u` are not inside the lock in conflicting ways. */
  predicate Apart(s: State, t: Pid, u: Pid) {
    && (RwLock.PcOf(s.lock, u) == RwLock.RIn ==> RwLock.PcOf(s.lock, t) != RwLock.WIn)
    && (RwLock.PcOf(s.lock, u) == RwLock.WIn ==>
          RwLock.PcOf(s.lock, t) != RwLock.RIn && RwLock.PcOf(s.lock, t) != RwLock.WIn)
    && (IsWriter(s, t) ==> !IsWriter(s, u))
  }

  lemma ApartInv(s: State, t: Pid, u: Pid)
    requires Inv(s) && u != t
    ensures Apart(s, t, u)
  {
    assert RwLock.Exclusive(s.lock);
  }

  /** The lock keeps `t` from changing what another process relies on. */
  lemma GuardKeeps(s: State, s': State, t: Pid, u: Pid)
    requires Guarded(s, s', t) && Linked(s, t) && Apart(s, t, u)
    requires Holds(s.procs[t]) ==> s.reference > 0
    requires u in s.procs && u in s'.procs && s'.procs[u] == s.procs[u]
    requires RwLock.PcOf(s'.lock, u) == RwLock.PcOf(s.lock, u)
    requires Linked(s, u) && LocalFacts(s, s.procs[u]) && WellFormed(s.procs[u])
    ensures Linked(s', u) && LocalFacts(s', s'.procs[u])
  {
    assert s'.copy != s.copy ==> RwLock.PcOf(s.lock, t) == RwLock.WIn;
    assert s'.reference != s.reference ==> RwLock.PcOf(s.lock, t) == RwLock.RIn || RwLock.PcOf(s.lock, t) == RwLock.WIn;
  }

  lemma OtherKeeps(s: State, s': State, t: Pid, u: Pid)
    requires Inv(s) && Step(s, s', t) && u != t && u in s.procs
    ensures u in s'.procs && Linked(s', u) && LocalFacts(s', s'.procs[u])
  {
    StepEffect(s, s', t, 0);
    LocalInv(s, u, 0);
    if t in s.procs {
      StepGuarded(s, s', t);
      LocalInv(s, t, 0);
      ApartInv(s, t, u);
      GuardKeeps(s, s', t, u);
    }
  }

  lemma LocalStep(s: State, s': State, t: Pid, u: Pid)
    requires Inv(s) && Step(s, s', t) && u in s'.procs
    ensures Linked(s', u) && WellFormed(s'.procs[u]) && LocalFacts(s', s'.procs[u])
  {
    StepEffect(s, s', t, 0);
    if u != t {
      OtherKeeps(s, s', t, u);
      assert WellFormed(s.procs[u]);
    } else if t in s.procs {
      StepGuarded(s, s', t);
    }
  }

  lemma WriterStep(s: State, s': State, t: Pid)
    requires Inv(s) && Step(s, s', t)
    ensures forall u :: IsWriter(s', u) ==> IsWriter(s, u)
    ensures !s'.copy.Null? ==> exists u :: IsWriter(s', u)
  {
    StepEffect(s, s', t, 0);
    if t in s.procs {
      StepGuarded(s, s', t);
    }
    if !s'.copy.Null? {
      var _ := WriterStays(s, s', t);
    }
  }

  lemma WriterStays(s: State, s': State, t: Pid) returns (w: Pid)
    requires Frame(s, s', t) && !s'.copy.Null?
    requires t in s.procs ==> Guarded(s, s', t)
    requires t !in s.procs ==> s'.copy == s.copy
    requires !s.copy.Null? ==> exists u :: IsWriter(s, u)
    ensures IsWriter(s', w)
  {
    if s.copy.Null? {
      w := t;
    } else {
      w :| IsWriter(s, w);
    }
  }

  lemma ProcsStep(s: State, s': State, t: Pid)
    requires Inv(s) && Step(s, s', t)
    ensures ProcsOk(s')
  {
    forall u | u in s'.procs
      ensures Linked(s', u) && WellFormed(s'.procs[u]) && LocalFacts(s', s'.procs[u])
    {
      LocalStep(s, s', t, u);
    }
    WriterStep(s, s', t);
    StepEffect(s, s', t, 0);
  }

  lemma InvStep(s: State, s': State, t: Pid)
    requires Inv(s) && Step(s, s', t)
    ensures Inv(s')
  {
    StepEffect(s, s', t, 0);
    if s'.lock != s.lock {
      RwLock.InvStep(s.lock, s'.lock, t);
    }
    ProcsStep(s, s', t);
    PointersStep(s, s', t);
    ObjectStep(s, s', t);
    forall c | c in s'.copies ensures CopyOk(s', c) {
      CopyStep(s, s', t, c);
    }
  }

  lemma InvInit(s: State)
    requires Init(s)
    ensures Inv(s)
  {
    var w: Pid :| s.procs == map[w := Proc(WriterBox, Ready, None, None, false)];
    assert IsWriter(s, w);
    assert RwLock.Counted(s.lock) == {} && RwLock.Owners(s.lock) == {};
    assert Holding(s) == {w} && ObjectFreers(s) == {};
    forall c | c in s.copies ensures CopyOk(s, c) {
      assert c == s.copy.c;
      assert LastHolders(s, c) == {} && LocalHolders(s, c) == {} && CopyFreers(s, c) == {};
    }
  }

  // ------------------------------------------------------------ whole runs

  /** The states visited when the processes of `sched` step one after the other. */
  ghost predicate Chain(run: seq<State>, sched: seq<Pid>) {
    && |run| == |sched| + 1
    && forall i {:trigger sched[i]} :: 0 <= i < |sched| ==> Step(run[i], run[i + 1], sched[i])
  }

  ghost predicate IsRun(run: seq<State>, sched: seq<Pid>) {
    Chain(run, sched) && Init(run[0])
  }

  /** Every state of every interleaving: each copy's count equals its holders
      and the cell's count equals the boxes and pointers that refer to it. */
  lemma {:induction false} RunCounts(run: seq<State>, sched: seq<Pid>, i: nat)
    requires IsRun(run, sched) && i < |run|
    ensures forall c :: c in run[i].copies ==> run[i].copies[c].ref == HolderCount(run[i], c)
    ensures run[i].reference == |Holding(run[i])| + run[i].pending
    ensures Inv(run[i])
  {
    if i == 0 {
      InvInit(run[0]);
    } else {
      RunCounts(run, sched, i - 1);
      assert Step(run[i - 1], run[i - 1 + 1], sched[i - 1]);
      InvStep(run[i - 1], run[i], sched[i - 1]);
    }
    assert forall c :: c in run[i].copies ==> CopyOk(run[i], c);
  }

  /** The C assertions, at the program points that execute them. */
  predicate AssertsHold(s: State, p: Proc) {
    && (p.op.GrabAssert? ==> p.op.ref > 0)   // stm_grab
    && (p.op.CopyAssert? ==> p.op.ref > 0)   // stm_copy
    && (p.op.RelAssert? ==> !s.copy.Null?)   // stm_release
    && (p.op.RdrFree? ==> s.copy.Null?)      // stm_releasereader
    && (p.op.RelFree? ==> s.copy.Null?)
  }

  /** The cell is touched by the step `p` is about to take, other than by the
      unlock at the end of stm_releasereader. */
  predicate TouchesObject(p: Proc) {
    (ModeOf(p.op) != Outside && !p.op.RdrUnlock?) || p.op.RelAssert?
  }

  /** The copies that the step `p` is about to take dereferences, frees or keeps. */
  predicate Uses(s: State, p: Proc, c: CopyId) {
    || p.last == Some(c) || p.temp == Some(c)
    || (p.op.CopyInc? && p.op.ret == Some(c))
    || (p.op.RelDrop? && s.copy == Ptr(c))
    || FreesCopy(p, c)
  }

  lemma OneFreer(s: State, t: Pid, u: Pid)
    requires Inv(s) && t in ObjectFreers(s) && u in ObjectFreers(s)
    ensures t == u
  {
    NonEmpty(ObjectFreers(s), t);
    RwLock.SingletonEq(ObjectFreers(s), t, u);
  }

  /** With the count at zero, a writer box that is left is about to free the cell. */
  lemma LastWriter(s: State, w: Pid)
    requires Inv(s) && s.reference == 0 && IsWriter(s, w)
    ensures s.procs[w].op.RelFree? && w in ObjectFreers(s) && |ObjectFreers(s)| >= 1
  {
    LocalInv(s, w, 0);
    WriterNotHolding(s, s.procs[w]);
    assert w in ObjectFreers(s);
    NonEmpty(ObjectFreers(s), w);
  }

  lemma WriterNotHolding(s: State, p: Proc)
    requires WellFormed(p) && LocalFacts(s, p) && p.box.WriterBox? && !Holds(p) && s.reference == 0
    ensures p.op.RelFree?
  {
  }

  lemma FreerFindsNull(s: State, t: Pid)
    requires Inv(s) && t in s.procs && FreesObject(s.procs[t])
    ensures s.copy.Null? && s.frees == 0
  {
    LocalInv(s, t, 0);
    assert t in ObjectFreers(s);
    NonEmpty(ObjectFreers(s), t);
    if !s.copy.Null? {
      var w :| IsWriter(s, w);
      LastWriter(s, w);
      OneFreer(s, t, w);
    }
  }

  /** No assertion fails, nothing freed is used, and the last releaser finds the
      cell's copy already NULL. */
  lemma RunSafe(run: seq<State>, sched: seq<Pid>, i: nat, t: Pid)
    requires IsRun(run, sched) && i < |run| && t in run[i].procs
    ensures AssertsHold(run[i], run[i].procs[t])
    ensures TouchesObject(run[i].procs[t]) ==> run[i].frees == 0
    ensures forall c :: Uses(run[i], run[i].procs[t], c) ==> c in run[i].copies && run[i].copies[c].frees == 0
  {
    RunCounts(run, sched, i);
    var s := run[i];
    LocalInv(s, t, 0);
    if FreesObject(s.procs[t]) {
      FreerFindsNull(s, t);
    }
    TouchedIsLive(s, s.procs[t]);
    forall c | Uses(s, s.procs[t], c) ensures c in s.copies && s.copies[c].frees == 0 {
      UsedIsLive(s, t, c);
    }
  }

  lemma TouchedIsLive(s: State, p: Proc)
    requires WellFormed(p) && LocalFacts(s, p) && (Holds(p) ==> s.reference > 0)
    requires FreesObject(p) ==> s.copy.Null?
    ensures AssertsHold(s, p)
    ensures TouchesObject(p) ==> s.reference > 0 || FreesObject(p)
  {
  }

  lemma UsedIsLive(s: State, t: Pid, c: CopyId)
    requires Inv(s) && t in s.procs && Uses(s, s.procs[t], c)
    ensures c in s.copies && s.copies[c].frees == 0
  {
    LocalInv(s, t, c);
    assert CopyOk(s, c);
    if FreesCopy(s.procs[t], c) {
      assert t in CopyFreers(s, c);
      NonEmpty(CopyFreers(s, c), t);
    }
  }

  /** Each message is freed at most once and only when no holder is left; each
      copy that has lost its last holder is freed or is about to be freed by
      exactly one process.  The same holds for the cell. */
  lemma RunFrees(run: seq<State>, sched: seq<Pid>, i: nat)
    requires IsRun(run, sched) && i < |run|
    ensures var s := run[i];
      && (forall c :: c in s.copies ==>
            && s.copies[c].frees <= 1
            && (s.copies[c].frees == 1 ==> HolderCount(s, c) == 0)
            && (HolderCount(s, c) == 0 ==> s.copies[c].frees + |CopyFreers(s, c)| == 1))
      && s.frees <= 1
      && (s.frees == 1 ==> Holding(s) == {} && s.pending == 0 && s.copy.Null?)
      && (Holding(s) == {} && s.pending == 0 ==> s.frees + |ObjectFreers(s)| == 1)
  {
    RunCounts(run, sched, i);
    var s := run[i];
    assert forall c :: c in s.copies ==> CopyOk(s, c);
    if s.frees == 1 {
      assert |Holding(s)| == 0 && Holding(s) == {};
      if !s.copy.Null? {
        var w :| IsWriter(s, w);
        LastWriter(s, w);
      }
    }
  }

  ghost predicate Quiescent(s: State) {
    s.pending == 0 && forall t :: t in s.procs ==> s.procs[t].box.NoBox? && s.procs[t].op.Ready?
  }

  /** No leak: once every box is gone, the cell and every message published
      during the whole run have been freed exactly once. */
  lemma RunLeaksNothing(run: seq<State>, sched: seq<Pid>, i: nat)
    requires IsRun(run, sched) && i < |run| && Quiescent(run[i])
    ensures run[i].frees == 1
    ensures forall c :: c in run[i].copies ==> run[i].copies[c].frees == 1
  {
    RunCounts(run, sched, i);
    var s := run[i];
    assert Holding(s) == {} && ObjectFreers(s) == {};
    forall c | c in s.copies ensures s.copies[c].frees == 1 {
      assert CopyOk(s, c);
      assert CopyFreers(s, c) == {};
      assert s.copy.Null?;
      assert forall t :: t in s.procs ==> WellFormed(s.procs[t]);
      assert LastHolders(s, c) == {} && LocalHolders(s, c) == {};
    }
  }
}
