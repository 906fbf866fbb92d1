/** What can still happen to a cell of module Stm: everything can be given back from
    every state that a run reaches; and when the last unlock of stm_releasereader meets
    a cell that is freed already. */
module StmProgress {
  import opened Wrappers
  import RwLock
  import opened Runs
  import opened Stm

  // ------------------------------------------------------------ the next step

  /** `t` is inside an operation, and the cell is counted for it if it should be. */
  predicate Inside(s: State, t: Pid) {
    && t in s.procs && !s.procs[t].op.Ready? && WellFormed(s.procs[t]) && Linked(s, t)
    && (Holds(s.procs[t]) ==> s.reference > 0)
  }

  function LockNext(s: State, t: Pid, goal: RwLock.Pc, inside: Op): (s': State)
    requires t in s.procs && RwLock.PcOf(s.lock, t) != RwLock.Idle
    ensures LockStep(s, s', t, goal, inside)
  {
    var lock := RwLock.Next(s.lock, t);
    Go(s, t, if RwLock.PcOf(lock, t) == goal then inside else s.procs[t].op).(lock := lock)
  }

  /** The call of rwlock_rlock or rwlock_wlock. */
  function EnterNext(s: State, t: Pid, entry: RwLock.Pc, op: Op): (s': State)
    requires t in s.procs && RwLock.PcOf(s.lock, t) == RwLock.Idle
    requires entry == RwLock.RSpin || entry == RwLock.WTas
    ensures Enter(s, s', t, entry, op)
  {
    Go(s, t, op).(lock := s.lock.(pc := s.lock.pc[t := entry]))
  }

  /** The state that `t` steps to. */
  function Next(s: State, t: Pid): State
    requires Inside(s, t)
  {
    var p := s.procs[t];
    match p.op
    case GrabLock => LockNext(s, t, RwLock.RIn, GrabInc)
    case GrabInc => Go(s, t, GrabUnlock(s.reference)).(reference := s.reference + 1, pending := s.pending + 1)
    case GrabUnlock(ref) => LockNext(s, t, RwLock.Idle, GrabAssert(ref))
    case GrabAssert(_) => Go(s, t, Ready)
    case CopyLock => LockNext(s, t, RwLock.RIn, CopyLoad)
    case CopyLoad => Go(s, t, CopyInc(if s.copy.Null? then None else Some(s.copy.c)))
    case CopyInc(ret) =>
      if ret.None? || ret.value !in s.copies then Go(s, t, CopyUnlock)
      else
        var k := s.copies[ret.value];
        At(s, t, p.(op := CopyAssert(k.ref), temp := ret)).(copies := s.copies[ret.value := k.(ref := k.ref + 1)])
    case CopyAssert(_) => Go(s, t, CopyUnlock)
    case CopyUnlock => LockNext(s, t, RwLock.Idle, Compare)
    case Compare =>
      if p.temp == p.last then At(s, t, p.(op := DropTemp, told := false))
      else At(s, t, p.(op := DropLast, told := p.temp.Some?))
    case DropLast => Dec(s, t, p.last, p.(last := p.temp, temp := None), ToReady)
    case DropTemp => Dec(s, t, p.temp, p.(temp := None), ToReady)
    case FreeCopy(c, after) => Go(FreeOf(s, c), t, if after.ToReady? then Ready else RelNull)
    case UpdLock => LockNext(s, t, RwLock.WIn, UpdLoad)
    case UpdLoad => Go(s, t, UpdStore(s.copy))
    case UpdStore(prev) =>
      At(s, t, p.(op := UpdUnlock, temp := if prev.Null? then None else Some(prev.c))).(copy := Ptr(p.temp.value))
    case UpdUnlock => LockNext(s, t, RwLock.Idle, DropTemp)
    case RelAssert => EnterNext(s, t, RwLock.WTas, RelLock)
    case RelLock => LockNext(s, t, RwLock.WIn, RelDrop)
    case RelDrop =>
      if s.copy.Null? then Go(s, t, RelNull)
      else Dec(s, t, Some(s.copy.c), p, ToRelNull).(copy := Stale(s.copy.c))
    case RelNull => Go(s, t, RelDec).(copy := Null)
    case RelDec =>
      Go(s, t, if s.reference - 1 > 0 then RelUnlock else RelFree).(reference := s.reference - 1)
    case RelUnlock => At(s, t, p.(box := NoBox, op := Ready)).(lock := RwLock.Next(s.lock, t))
    case RelFree => At(s, t, p.(box := NoBox, op := Ready)).(frees := s.frees + 1)
    case RdrLock => LockNext(s, t, RwLock.RIn, RdrDec)
    case RdrDec =>
      Go(s, t, if s.reference - 1 == 0 then RdrFree else RdrUnlock).(reference := s.reference - 1)
    case RdrUnlock => LockNext(s, t, RwLock.Idle, RdrDropLast)
    case RdrFree => Go(s, t, RdrDropLast).(frees := s.frees + 1)
    case RdrDropLast => Dec(s, t, p.last, p.(box := NoBox, last := None), ToReady)
  }

  lemma NextSteps(s: State, t: Pid)
    requires Inside(s, t)
    ensures Step(s, Next(s, t), t)
  {
  }

  // ------------------------------------------------------------ what is left to do

  /** How far a box is from being given back. */
  function Rank(p: Proc): nat {
    if p.box.NoBox? then if p.op.Ready? then 0 else 1
    else
      match p.op
      case RelUnlock | RelFree => 3
      case RelDec => 4
      case RelNull => 5
      case RdrDropLast => 6
      case RelDrop | RdrUnlock | RdrFree => 7
      case RelLock | RdrDec => 8
      case RelAssert | RdrLock => 9
      case Ready => 10
      case FreeCopy(_, after) => if after.ToReady? then 11 else 6
      case GrabAssert(_) => 11
      case DropLast | DropTemp | GrabUnlock(_) => 12
      case Compare | UpdUnlock => 13
      case CopyUnlock | UpdStore(_) => 14
      case CopyAssert(_) | UpdLoad => 15
      case CopyInc(_) | UpdLock => 16
      case CopyLoad => 17
      case CopyLock => 18
      case GrabInc => 24
      case GrabLock => 25
  }

  /** How far a process that waits for the lock is from getting in or standing back. */
  function Weight(write: int, pc: RwLock.Pc): nat {
    match pc
    case RSpin => if write == 0 then 4 else 1
    case RInc => if write == 0 then 3 else 0
    case RCheck => if write == 0 then 2 else 3
    case RBack => if write == 0 then 5 else 2
    case _ => 0
  }

  predicate Spins(op: Op) {
    op.GrabLock? || op.CopyLock? || op.RdrLock? || op.UpdLock? || op.RelLock?
  }

  /** A step that advances the operation leaves less to do; one that does not is a step
      in the lock. */
  predicate Lowers(s: State, s': State, t: Pid) {
    && t in s.procs && t in s'.procs && s'.procs == s.procs[t := s'.procs[t]]
    && (s'.procs[t].op != s.procs[t].op ==>
          Rank(s'.procs[t]) + 11 * s'.pending < Rank(s.procs[t]) + 11 * s.pending)
    && (s'.procs[t].op == s.procs[t].op ==>
          && Spins(s.procs[t].op) && s'.procs[t] == s.procs[t] && s'.pending == s.pending
          && RwLock.PcOf(s.lock, t) != RwLock.Idle && s'.lock == RwLock.Next(s.lock, t)
          && RwLock.PcOf(s'.lock, t) !in {RwLock.RIn, RwLock.WIn})
  }

  lemma LockLowers(s: State, t: Pid, goal: RwLock.Pc, inside: Op)
    requires t in s.procs && RwLock.PcOf(s.lock, t) != RwLock.Idle
    requires Rank(s.procs[t].(op := inside)) < Rank(s.procs[t])
    requires var pc := RwLock.PcOf(RwLock.Next(s.lock, t), t);
             pc != goal ==> Spins(s.procs[t].op) && pc !in {RwLock.RIn, RwLock.WIn}
    ensures Lowers(s, LockNext(s, t, goal, inside), t)
  {
  }

  predicate GivesUp(op: Op) {
    op.DropLast? || op.DropTemp? || op.RdrDropLast? || op.RelDrop?
  }

  lemma DecLowers(s: State, t: Pid, c: Option<CopyId>, p: Proc, after: After)
    requires t in s.procs && GivesUp(s.procs[t].op)
    requires Rank(p.(op := if after.ToReady? then Ready else RelNull)) < Rank(s.procs[t])
    requires c.Some? ==> Rank(p.(op := FreeCopy(c.value, after))) < Rank(s.procs[t])
    ensures Lowers(s, Dec(s, t, c, p, after), t)
  {
  }

  lemma AtLowers(s: State, s': State, t: Pid, p: Proc)
    requires t in s.procs && s'.procs == s.procs[t := p] && s'.pending == s.pending
    requires Rank(p) < Rank(s.procs[t]) && p.op != s.procs[t].op
    ensures Lowers(s, s', t)
  {
  }

  lemma DropLowers(s: State, t: Pid)
    requires Inside(s, t) && GivesUp(s.procs[t].op)
    ensures Lowers(s, Next(s, t), t)
  {
    var p := s.procs[t];
    match p.op
    case DropLast => DecLowers(s, t, p.last, p.(last := p.temp, temp := None), ToReady);
    case DropTemp => DecLowers(s, t, p.temp, p.(temp := None), ToReady);
    case RdrDropLast => DecLowers(s, t, p.last, p.(box := NoBox, last := None), ToReady);
    case RelDrop => RelDropLowers(s, t);
  }

  lemma RelDropLowers(s: State, t: Pid)
    requires Inside(s, t) && s.procs[t].op.RelDrop?
    ensures Lowers(s, Next(s, t), t)
  {
    var p := s.procs[t];
    if s.copy.Null? {
      AtLowers(s, Next(s, t), t, p.(op := RelNull));
    } else {
      DecLowers(s, t, Some(s.copy.c), p, ToRelNull);
    }
  }

  lemma SpinLowers(s: State, t: Pid)
    requires Inside(s, t) && Spins(s.procs[t].op)
    ensures Lowers(s, Next(s, t), t)
  {
    match s.procs[t].op
    case GrabLock => LockLowers(s, t, RwLock.RIn, GrabInc);
    case CopyLock => LockLowers(s, t, RwLock.RIn, CopyLoad);
    case RdrLock => LockLowers(s, t, RwLock.RIn, RdrDec);
    case UpdLock => LockLowers(s, t, RwLock.WIn, UpdLoad);
    case RelLock => LockLowers(s, t, RwLock.WIn, RelDrop);
  }

  predicate Unlocks(op: Op) {
    op.GrabUnlock? || op.CopyUnlock? || op.UpdUnlock? || op.RdrUnlock?
  }

  lemma UnlockLowers(s: State, t: Pid)
    requires Inside(s, t) && Unlocks(s.procs[t].op)
    ensures Lowers(s, Next(s, t), t)
  {
    match s.procs[t].op
    case GrabUnlock(ref) => LockLowers(s, t, RwLock.Idle, GrabAssert(ref));
    case CopyUnlock => LockLowers(s, t, RwLock.Idle, Compare);
    case UpdUnlock => LockLowers(s, t, RwLock.Idle, DropTemp);
    case RdrUnlock => LockLowers(s, t, RwLock.Idle, RdrDropLast);
  }

  predicate Releases(op: Op) {
    op.RelAssert? || op.RelNull? || op.RelDec? || op.RelUnlock? || op.RelFree?
  }

  lemma OwnLowers(s: State, t: Pid)
    requires Inside(s, t) && !Spins(s.procs[t].op) && !Unlocks(s.procs[t].op) && !GivesUp(s.procs[t].op)
    requires !s.procs[t].op.GrabInc?
    ensures Lowers(s, Next(s, t), t)
  {
    if ReaderOp(s.procs[t].op) {
      ReaderLowers(s, t);
    } else if Releases(s.procs[t].op) {
      ReleaseLowers(s, t);
    } else {
      WriterLowers(s, t);
    }
  }

  lemma ReaderLowers(s: State, t: Pid)
    requires Inside(s, t) && !Spins(s.procs[t].op) && !Unlocks(s.procs[t].op) && !GivesUp(s.procs[t].op)
    requires ReaderOp(s.procs[t].op)
    ensures Lowers(s, Next(s, t), t)
  {
    var s' := Next(s, t);
    AtLowers(s, s', t, s'.procs[t]);
  }

  lemma ReleaseLowers(s: State, t: Pid)
    requires Inside(s, t) && Releases(s.procs[t].op)
    ensures Lowers(s, Next(s, t), t)
  {
    var p := s.procs[t];
    var s' := Next(s, t);
    match p.op
    case RelAssert => AtLowers(s, s', t, p.(op := RelLock));
    case RelNull => AtLowers(s, s', t, p.(op := RelDec));
    case RelDec => AtLowers(s, s', t, p.(op := if s.reference - 1 > 0 then RelUnlock else RelFree));
    case RelUnlock | RelFree => AtLowers(s, s', t, p.(box := NoBox, op := Ready));
  }

  lemma WriterLowers(s: State, t: Pid)
    requires Inside(s, t) && (s.procs[t].op.GrabAssert? || s.procs[t].op.FreeCopy? ||
                              s.procs[t].op.UpdLoad? || s.procs[t].op.UpdStore?)
    ensures Lowers(s, Next(s, t), t)
  {
    var p := s.procs[t];
    var s' := Next(s, t);
    match p.op
    case GrabAssert(_) => AtLowers(s, s', t, p.(op := Ready));
    case FreeCopy(_, after) => AtLowers(s, s', t, p.(op := if after.ToReady? then Ready else RelNull));
    case UpdLoad => AtLowers(s, s', t, p.(op := UpdStore(s.copy)));
    case UpdStore(prev) => AtLowers(s, s', t, s'.procs[t]);
  }

  lemma GrabLowers(s: State, t: Pid)
    requires Inside(s, t) && s.procs[t].op.GrabInc?
    ensures Lowers(s, Next(s, t), t)
  {
  }

  lemma NextLowers(s: State, t: Pid)
    requires Inside(s, t)
    ensures Lowers(s, Next(s, t), t)
  {
    var op := s.procs[t].op;
    if Spins(op) {
      SpinLowers(s, t);
    } else if Unlocks(op) {
      UnlockLowers(s, t);
    } else if GivesUp(op) {
      DropLowers(s, t);
    } else if op.GrabInc? {
      GrabLowers(s, t);
    } else {
      OwnLowers(s, t);
    }
  }

  ghost function Sum(m: map<Pid, nat>): nat {
    if m == map[] then 0
    else
      var t :| t in m;
      m[t] + Sum(m - {t})
  }

  lemma {:induction false} SumRemove(m: map<Pid, nat>, t: Pid)
    requires t in m
    ensures Sum(m) == m[t] + Sum(m - {t})
  {
    var u :| u in m && Sum(m) == m[u] + Sum(m - {u});
    if u != t {
      SumRemove(m - {u}, t);
      SumRemove(m - {t}, u);
      assert m - {u} - {t} == m - {t} - {u};
    }
  }

  lemma SumUpdate(m: map<Pid, nat>, t: Pid, v: nat)
    ensures Sum(m[t := v]) == Sum(m) + v - if t in m then m[t] else 0
  {
    SumRemove(m[t := v], t);
    assert m[t := v] - {t} == m - {t};
    if t in m {
      SumRemove(m, t);
    } else {
      assert m - {t} == m;
    }
  }

  function Ranks(s: State): map<Pid, nat> {
    map t | t in s.procs :: Rank(s.procs[t])
  }

  function Weights(s: State): map<Pid, nat> {
    map t | t in s.procs :: Weight(s.lock.write, RwLock.PcOf(s.lock, t))
  }

  ghost function Work(s: State): nat {
    Sum(Ranks(s)) + 11 * s.pending
  }

  ghost function Waits(s: State): nat {
    Sum(Weights(s))
  }

  ghost predicate Closer(s': State, s: State) {
    || Work(s') < Work(s)
    || (Work(s') == Work(s) && s.lock.write == 0 && s'.lock.write == 1)
    || (Work(s') == Work(s) && s.lock.write == s'.lock.write && Waits(s') < Waits(s))
  }

  lemma WorkStep(s: State, s': State, t: Pid)
    requires t in s'.procs && s'.procs == s.procs[t := s'.procs[t]]
    ensures Work(s') - 11 * s'.pending - Rank(s'.procs[t]) ==
            Work(s) - 11 * s.pending - if t in s.procs then Rank(s.procs[t]) else 0
  {
    assert Ranks(s') == Ranks(s)[t := Rank(s'.procs[t])];
    SumUpdate(Ranks(s), t, Rank(s'.procs[t]));
  }

  lemma RankCloser(s: State, s': State, t: Pid, p: Proc)
    requires s'.procs == s.procs[t := p]
    requires Rank(p) + 11 * s'.pending < (if t in s.procs then Rank(s.procs[t]) else 0) + 11 * s.pending
    ensures Closer(s', s)
  {
    WorkStep(s, s', t);
  }

  lemma WaitsStep(s: State, s': State, t: Pid)
    requires t in s.procs && s'.procs == s.procs && s'.lock.write == s.lock.write
    requires t in s'.lock.pc && s'.lock.pc == s.lock.pc[t := s'.lock.pc[t]]
    requires Weight(s.lock.write, RwLock.PcOf(s'.lock, t)) < Weight(s.lock.write, RwLock.PcOf(s.lock, t))
    ensures Waits(s') < Waits(s)
  {
    var v := Weight(s.lock.write, RwLock.PcOf(s'.lock, t));
    assert Weights(s') == Weights(s)[t := v];
    SumUpdate(Weights(s), t, v);
  }

  /** `t` is not kept waiting by the others. */
  predicate Unhindered(s: State, t: Pid)
    requires t in s.procs
  {
    Spins(s.procs[t].op) ==>
      match RwLock.PcOf(s.lock, t)
      case RBack | RCheck => true
      case WWait => s.lock.read == 0
      case _ => s.lock.write == 0
  }

  lemma SpinCloser(s: RwLock.State, t: Pid)
    requires RwLock.PcOf(s, t) in {RwLock.RSpin, RwLock.RInc, RwLock.RCheck, RwLock.RBack, RwLock.WTas, RwLock.WWait}
    requires s.write == 0 || s.write == 1
    requires match RwLock.PcOf(s, t)
             case RBack | RCheck => true
             case WWait => s.read == 0
             case _ => s.write == 0
    requires RwLock.PcOf(RwLock.Next(s, t), t) !in {RwLock.RIn, RwLock.WIn}
    ensures var s' := RwLock.Next(s, t);
            && s'.pc == s.pc[t := s'.pc[t]]
            && if s'.write == s.write then Weight(s.write, RwLock.PcOf(s', t)) < Weight(s.write, RwLock.PcOf(s, t))
               else s.write == 0 && s'.write == 1
  {
  }

  lemma NextCloser(s: State, t: Pid)
    requires Inside(s, t) && Unhindered(s, t) && (s.lock.write == 0 || s.lock.write == 1)
    ensures Step(s, Next(s, t), t) && Closer(Next(s, t), s)
  {
    var s' := Next(s, t);
    NextSteps(s, t);
    NextLowers(s, t);
    WorkStep(s, s', t);
    if s'.procs[t].op == s.procs[t].op {
      SpinCloser(s.lock, t);
      if s'.lock.write == s.lock.write {
        assert s'.procs == s.procs;
        WaitsStep(s, s', t);
      }
    }
  }

  // ------------------------------------------------------------ giving back

  /** The first step of releasing a box that does nothing. */
  function Release(s: State, t: Pid): State
    requires t in s.procs && RwLock.PcOf(s.lock, t) == RwLock.Idle
  {
    if s.procs[t].box.WriterBox? then Go(s, t, RelAssert) else EnterNext(s, t, RwLock.RSpin, RdrLock)
  }

  lemma ReleaseSteps(s: State, t: Pid)
    requires t in s.procs && RwLock.PcOf(s.lock, t) == RwLock.Idle
    requires s.procs[t].op.Ready? && !s.procs[t].box.NoBox?
    ensures Step(s, Release(s, t), t)
  {
    var s' := Release(s, t);
    if s.procs[t].box.ReaderBox? {
      assert Enter(s, s', t, RwLock.RSpin, RdrLock);
    }
    assert ReadyStep(s, s', t);
  }

  lemma ReleaseCloser(s: State, t: Pid)
    requires t in s.procs && RwLock.PcOf(s.lock, t) == RwLock.Idle
    requires s.procs[t].op.Ready? && !s.procs[t].box.NoBox?
    ensures Closer(Release(s, t), s)
  {
    var op := if s.procs[t].box.WriterBox? then RelAssert else RdrLock;
    RankCloser(s, Release(s, t), t, s.procs[t].(op := op));
  }

  lemma ReadyIdle(s: State, t: Pid)
    requires Inv(s) && t in s.procs && s.procs[t].op.Ready? && !s.procs[t].box.NoBox?
    ensures RwLock.PcOf(s.lock, t) == RwLock.Idle
  {
    LocalInv(s, t, 0);
  }

  ghost function Above(a: set<Pid>): (n: Pid)
    ensures forall t :: t in a ==> t < n
  {
    if a == {} then 0
    else
      var t :| t in a;
      var n := Above(a - {t});
      assert forall u :: u in a ==> u == t || u in a - {t};
      if t < n then n else t + 1
  }

  lemma ReaderCloser(s: State, t: Pid) returns (s': State)
    requires Inv(s) && s.pending > 0 && t !in s.procs
    ensures Step(s, s', t) && Closer(s', s)
  {
    s' := At(s, t, Proc(ReaderBox, Ready, None, None, false)).(pending := s.pending - 1);
    WorkStep(s, s', t);
  }

  lemma InsideInv(s: State, t: Pid)
    requires Inv(s) && t in s.procs && !s.procs[t].op.Ready?
    ensures Inside(s, t)
  {
    LocalInv(s, t, 0);
  }

  /** While someone waits for the cell's lock, a process outside it is idle in the lock. */
  lemma IdleOutside(s: State, w: Pid, t: Pid)
    requires Inv(s) && w in s.procs && Spins(s.procs[w].op)
    requires t in s.procs ==> s.procs[t].op.Ready?
    ensures RwLock.PcOf(s.lock, t) == RwLock.Idle
  {
    LocalInv(s, w, 0);
    if t in s.procs {
      LocalInv(s, t, 0);
    }
  }

  lemma SpinsPc(s: State, t: Pid)
    requires t in s.procs && Spins(s.procs[t].op) && Linked(s, t)
    ensures RwLock.PcOf(s.lock, t) in
            {RwLock.RSpin, RwLock.RInc, RwLock.RCheck, RwLock.RBack, RwLock.WTas, RwLock.WWait}
  {
  }

  lemma LinkedInv(s: State, t: Pid)
    requires Inv(s) && t in s.procs
    ensures Linked(s, t)
  {
  }

  /** If all that is not idle waits for the lock, one of the waiting gets on. */
  lemma Waiter(s: State, w: Pid) returns (t: Pid)
    requires Inv(s) && w in s.procs && Spins(s.procs[w].op)
    requires forall u :: u in s.procs ==> s.procs[u].op.Ready? || Spins(s.procs[u].op)
    ensures t in s.procs && Spins(s.procs[t].op) && Unhindered(s, t)
  {
    forall u ensures RwLock.PcOf(s.lock, u) !in {RwLock.RIn, RwLock.WIn}
      ensures RwLock.PcOf(s.lock, u) != RwLock.Idle ==> u in s.procs && Spins(s.procs[u].op)
    {
      if u in s.procs && Spins(s.procs[u].op) {
        LinkedInv(s, u);
        SpinsPc(s, u);
      } else {
        IdleOutside(s, w, u);
      }
    }
    if u :| RwLock.PcOf(s.lock, u) in {RwLock.RCheck, RwLock.RBack} {
      t := u;
    } else {
      assert RwLock.Counted(s.lock) == {};
      if u :| RwLock.PcOf(s.lock, u) == RwLock.WWait {
        t := u;
      } else {
        assert RwLock.Owners(s.lock) == {};
        t := w;
      }
    }
  }

  /** Unless everything is given back, some process has a step that leaves less to do. */
  lemma Choose(s: State) returns (t: Pid, s': State)
    requires Inv(s) && !Quiescent(s)
    ensures Step(s, s', t) && Closer(s', s)
  {
    if u :| u in s.procs && !s.procs[u].op.Ready? && !Spins(s.procs[u].op) {
      t := u;
      InsideInv(s, t);
      NextCloser(s, t);
      s' := Next(s, t);
    } else if w :| w in s.procs && Spins(s.procs[w].op) {
      t := Waiter(s, w);
      InsideInv(s, t);
      NextCloser(s, t);
      s' := Next(s, t);
    } else if s.pending > 0 {
      t := Above(s.procs.Keys);
      s' := ReaderCloser(s, t);
    } else {
      t :| t in s.procs && !s.procs[t].box.NoBox?;
      ReadyIdle(s, t);
      ReleaseSteps(s, t);
      ReleaseCloser(s, t);
      s' := Release(s, t);
    }
  }

  /** A process that may be scheduled has a step that leaves less to do and that keeps
      what is good. */
  ghost predicate CanGo(step: (State, State, Pid) -> bool, may: Pid -> bool, good: State -> bool, s: State) {
    exists t, s' {:trigger step(s, s', t)} :: step(s, s', t) && may(t) && good(s') && Closer(s', s)
  }

  /** The schedule that follows such steps is finite and ends when nothing is to do. */
  lemma {:induction false} Reaches(step: (State, State, Pid) -> bool, may: Pid -> bool, good: State -> bool,
                                   done: State -> bool, s: State) returns (run: seq<State>, sched: seq<Pid>)
    requires good(s) && forall x {:trigger good(x)} :: good(x) && !done(x) ==> CanGo(step, may, good, x)
    ensures |run| == |sched| + 1 && run[0] == s && good(run[|sched|]) && done(run[|sched|])
    ensures forall i :: 0 <= i < |sched| ==> step(run[i], run[i + 1], sched[i]) && may(sched[i])
    decreases Work(s), 1 - s.lock.write, Waits(s)
  {
    if done(s) {
      return [s], [];
    }
    var t, s' :| step(s, s', t) && may(t) && good(s') && Closer(s', s);
    var r, c := Reaches(step, may, good, done, s');
    run, sched := [s] + r, [t] + c;
    forall i | 0 <= i < |sched| ensures step(run[i], run[i + 1], sched[i]) && may(sched[i]) {
      if i > 0 {
        assert step(r[i - 1], r[i - 1 + 1], c[i - 1]);
      }
    }
  }

  lemma ChainOf(run: seq<State>, sched: seq<Pid>, step: (State, State, Pid) -> bool)
    requires |run| == |sched| + 1 && forall i :: 0 <= i < |sched| ==> step(run[i], run[i + 1], sched[i])
    requires forall s, s', t :: step(s, s', t) ==> Step(s, s', t)
    ensures Chain(run, sched)
  {
  }

  lemma QuiesceGoes(s: State, step: (State, State, Pid) -> bool, may: Pid -> bool, good: State -> bool)
    requires Inv(s) && !Quiescent(s)
    requires forall s', t :: Step(s, s', t) ==> step(s, s', t)
    requires forall t :: may(t)
    requires forall s' {:trigger good(s')} :: Inv(s') ==> good(s')
    ensures CanGo(step, may, good, s)
  {
    var t, s' := Choose(s);
    InvStep(s, s', t);
    assert step(s, s', t) && may(t) && good(s');
  }

  /** From every state that a run can reach, some schedule gives everything back. */
  lemma CanQuiesce(s: State) returns (run: seq<State>, sched: seq<Pid>)
    requires Inv(s)
    ensures Chain(run, sched) && run[0] == s && Quiescent(run[|run| - 1])
  {
    var step := (x: State, x': State, t: Pid) => Step(x, x', t);
    var may := (t: Pid) => true;
    var good := (x: State) => Inv(x);
    forall x: State | good(x) && !Quiescent(x) ensures CanGo(step, may, good, x) {
      QuiesceGoes(x, step, may, good);
    }
    run, sched := Reaches(step, may, good, (x: State) => Quiescent(x), s);
    ChainOf(run, sched, step);
  }

  lemma Join(run: seq<State>, sched: seq<Pid>, run': seq<State>, sched': seq<Pid>)
    requires Chain(run, sched) && Chain(run', sched') && run[|run| - 1] == run'[0]
    ensures Chain(run + run'[1..], sched + sched')
    ensures (run + run'[1..])[|run| + |run'| - 2] == run'[|run'| - 1]
  {
    JoinRuns((s: State, s': State, t: Pid) => Step(s, s', t), run, sched, run', sched');
  }

  /** Every run goes on to one after which the cell and all messages have been freed
      exactly once. */
  lemma CanFinish(run: seq<State>, sched: seq<Pid>) returns (run': seq<State>, sched': seq<Pid>)
    requires IsRun(run, sched)
    ensures IsRun(run', sched') && run <= run' && sched <= sched'
    ensures var s := run'[|run'| - 1];
            Quiescent(s) && s.frees == 1 && forall c :: c in s.copies ==> s.copies[c].frees == 1
  {
    RunCounts(run, sched, |run| - 1);
    var r, c := CanQuiesce(run[|run| - 1]);
    Join(run, sched, r, c);
    run', sched' := run + r[1..], sched + c;
    RunLeaksNothing(run', sched', |run'| - 1);
  }

  // ------------------------------------------------------------ the last unlock

  /** `t` has given up its reference and is about to leave the lock. */
  predicate Unlocking(s: State, t: Pid) {
    t in s.procs && s.procs[t].op.RdrUnlock?
  }

  ghost predicate NoWriter(s: State) {
    forall u :: !IsWriter(s, u)
  }

  /** Only a writer has `write` set, as long as the cell is counted. */
  lemma NotOwner(s: State, v: Pid)
    requires v in s.procs && Linked(s, v) && WellFormed(s.procs[v]) && !s.procs[v].box.WriterBox? && s.reference > 0
    ensures !RwLock.OwnsWrite(RwLock.PcOf(s.lock, v))
  {
  }

  lemma NoOwners(s: State)
    requires Inv(s) && NoWriter(s) && s.reference > 0
    ensures s.lock.write == 0
  {
    forall v ensures !RwLock.OwnsWrite(RwLock.PcOf(s.lock, v)) {
      if v in s.procs {
        assert !IsWriter(s, v);
        NotOwner(s, v);
      }
    }
    assert RwLock.Owners(s.lock) == {};
  }

  lemma SpinnerFree(s: State, u: Pid)
    requires Inv(s) && NoWriter(s) && u in s.procs && Spins(s.procs[u].op)
    ensures Unhindered(s, u)
  {
    LocalInv(s, u, 0);
    NoOwners(s);
    assert !IsWriter(s, u);
    NotOwner(s, u);
  }

  /** Without the writer the other processes can go on while `t` does not. */
  lemma ChooseOther(s: State, t: Pid) returns (u: Pid, s': State)
    requires Inv(s) && NoWriter(s) && Unlocking(s, t)
    requires s.pending > 0 || exists u :: u in s.procs && u != t && !(s.procs[u].box.NoBox? && s.procs[u].op.Ready?)
    ensures u != t && Step(s, s', u) && Closer(s', s)
  {
    if v :| v in s.procs && v != t && !s.procs[v].op.Ready? {
      u := v;
      InsideInv(s, u);
      if Spins(s.procs[u].op) {
        SpinnerFree(s, u);
      }
      NextCloser(s, u);
      s' := Next(s, u);
    } else if s.pending > 0 {
      u := Above(s.procs.Keys);
      s' := ReaderCloser(s, u);
    } else {
      u :| u in s.procs && u != t && !(s.procs[u].box.NoBox? && s.procs[u].op.Ready?);
      ReadyIdle(s, u);
      ReleaseSteps(s, u);
      ReleaseCloser(s, u);
      s' := Release(s, u);
    }
  }

  lemma AllGone(s: State, t: Pid)
    requires Inv(s) && Unlocking(s, t) && s.pending == 0
    requires forall u :: u in s.procs && u != t ==> s.procs[u].box.NoBox? && s.procs[u].op.Ready?
    ensures s.frees == 1
  {
    assert Holding(s) == {} && ObjectFreers(s) == {};
  }

  /** `t` is at the unlock and the writer is gone. */
  ghost predicate LastUnlock(s: State, t: Pid) {
    Inv(s) && NoWriter(s) && Unlocking(s, t)
  }

  lemma LastUnlockStep(s: State, s': State, u: Pid, t: Pid)
    requires LastUnlock(s, t) && Step(s, s', u) && u != t
    ensures LastUnlock(s', t)
  {
    InvStep(s, s', u);
    StepEffect(s, s', u, 0);
    WriterStep(s, s', u);
  }

  lemma FreedGoes(s: State, t: Pid, step: (State, State, Pid) -> bool, may: Pid -> bool, good: State -> bool)
    requires LastUnlock(s, t) && s.frees != 1
    requires forall s', u :: Step(s, s', u) ==> step(s, s', u)
    requires forall u :: u != t ==> may(u)
    requires forall s' {:trigger good(s')} :: LastUnlock(s', t) ==> good(s')
    ensures CanGo(step, may, good, s)
  {
    if s.pending == 0 && forall u :: u in s.procs && u != t ==> s.procs[u].box.NoBox? && s.procs[u].op.Ready? {
      AllGone(s, t);
    } else {
      var u, s' := ChooseOther(s, t);
      LastUnlockStep(s, s', u, t);
      assert step(s, s', u) && may(u) && good(s');
    }
  }

  lemma FreedRun(s: State, t: Pid, step: (State, State, Pid) -> bool, may: Pid -> bool, good: State -> bool)
    returns (run: seq<State>, sched: seq<Pid>)
    requires good(s)
    requires forall x, x', u :: step(x, x', u) <==> Step(x, x', u)
    requires forall u :: may(u) <==> u != t
    requires forall x {:trigger good(x)} :: good(x) <==> LastUnlock(x, t)
    ensures |run| == |sched| + 1 && run[0] == s && good(run[|sched|]) && run[|sched|].frees == 1
    ensures forall i :: 0 <= i < |sched| ==> step(run[i], run[i + 1], sched[i]) && may(sched[i])
  {
    forall x: State | good(x) && x.frees != 1 ensures CanGo(step, may, good, x) {
      FreedGoes(x, t, step, may, good);
    }
    run, sched := Reaches(step, may, good, (x: State) => x.frees == 1, s);
  }

  lemma FreedByOthers(s: State, t: Pid) returns (run: seq<State>, sched: seq<Pid>)
    requires LastUnlock(s, t)
    ensures Chain(run, sched) && run[0] == s && t !in sched
    ensures LastUnlock(run[|run| - 1], t) && run[|run| - 1].frees == 1
  {
    var step := (x: State, x': State, u: Pid) => Step(x, x', u);
    var may := (u: Pid) => u != t;
    var good := (x: State) => LastUnlock(x, t);
    run, sched := FreedRun(s, t, step, may, good);
    ChainOf(run, sched, step);
  }

  lemma WriterHolds(s: State, t: Pid, w: Pid)
    requires w in s.procs && t in s.procs && Linked(s, w) && Linked(s, t) && Apart(s, w, t)
    requires WellFormed(s.procs[w]) && s.procs[w].box.WriterBox? && s.procs[t].op.RdrUnlock?
    ensures Holds(s.procs[w]) && ModeOf(s.procs[w].op) != WriteIn
  {
  }

  lemma CountedLives(s: State)
    requires ObjectOk(s) && s.reference > 0
    ensures s.frees == 0
  {
  }

  /** A writer that is kept out by `t` stays a holder of the cell. */
  lemma WriterKeptOut(s: State, t: Pid, w: Pid)
    requires Inv(s) && Unlocking(s, t) && IsWriter(s, w)
    ensures s.frees == 0 && ModeOf(s.procs[w].op) != WriteIn && WellFormed(s.procs[w])
  {
    ReadsAlone(s, t, w);
    LocalInv(s, w, 0);
    CountedLives(s);
  }

  lemma ReadsAlone(s: State, t: Pid, w: Pid)
    requires Inv(s) && Unlocking(s, t) && IsWriter(s, w)
    ensures Holds(s.procs[w]) && ModeOf(s.procs[w].op) != WriteIn
  {
    assert WellFormed(s.procs[t]) && t != w;
    ApartInv(s, w, t);
    assert Linked(s, t) && Linked(s, w) && WellFormed(s.procs[w]);
    WriterHolds(s, t, w);
  }

  lemma WriterBoxStays(s: State, s': State, w: Pid)
    requires IsWriter(s, w) && Step(s, s', w) && ModeOf(s.procs[w].op) != WriteIn && WellFormed(s.procs[w])
    ensures IsWriter(s', w)
  {
  }

  ghost predicate KeptOut(s: State, t: Pid, w: Pid) {
    Inv(s) && Unlocking(s, t) && IsWriter(s, w)
  }

  lemma KeptOutStep(s: State, s': State, u: Pid, t: Pid, w: Pid)
    requires KeptOut(s, t, w) && Step(s, s', u) && u != t
    ensures KeptOut(s', t, w)
  {
    InvStep(s, s', u);
    StepEffect(s, s', u, 0);
    if u == w {
      WriterKeptOut(s, t, w);
      WriterBoxStays(s, s', w);
    }
  }

  lemma KeptOutAlong(run: seq<State>, sched: seq<Pid>, t: Pid, w: Pid, i: nat)
    requires Chain(run, sched) && t !in sched && 0 < i <= |sched| && KeptOut(run[i - 1], t, w)
    ensures KeptOut(run[i], t, w)
  {
    assert Step(run[i - 1], run[i - 1 + 1], sched[i - 1]);
    KeptOutStep(run[i - 1], run[i], sched[i - 1], t, w);
  }

  lemma {:induction false} Along(good: State -> bool, run: seq<State>, i: nat)
    requires i < |run| && good(run[0])
    requires forall j :: 0 < j < |run| && good(run[j - 1]) ==> good(run[j])
    ensures good(run[i])
  {
    if i > 0 {
      Along(good, run, i - 1);
    }
  }

  lemma NotFreedByOthers(run: seq<State>, sched: seq<Pid>, t: Pid, w: Pid)
    requires Chain(run, sched) && KeptOut(run[0], t, w) && t !in sched
    ensures KeptOut(run[|run| - 1], t, w)
  {
    var good := (x: State) => KeptOut(x, t, w);
    forall j | 0 < j < |run| && good(run[j - 1]) ensures good(run[j]) {
      KeptOutAlong(run, sched, t, w, j);
    }
    Along(good, run, |run| - 1);
  }

  /** The unlock that ends stm_releasereader can come after the cell has been freed if
      and only if the writer has been released by then. */
  lemma UnlockAfterFree(s: State, t: Pid)
    requires Inv(s) && Unlocking(s, t)
    ensures (exists run: seq<State>, sched: seq<Pid> ::
               Chain(run, sched) && run[0] == s && t !in sched && run[|run| - 1].frees == 1)
            <==> NoWriter(s)
  {
    if NoWriter(s) {
      var run, sched := FreedByOthers(s, t);
    } else {
      var w :| IsWriter(s, w);
      forall run: seq<State>, sched: seq<Pid> | Chain(run, sched) && run[0] == s && t !in sched
        ensures run[|run| - 1].frees != 1
      {
        NotFreedByOthers(run, sched, t, w);
        WriterKeptOut(run[|run| - 1], t, w);
      }
    }
  }

  /** The unlock meets a live cell if and only if the cell is still counted or a process
      is about to free it. */
  lemma UnlockMeetsLive(s: State, t: Pid)
    requires Inv(s) && Unlocking(s, t)
    ensures s.frees == 0 <==> s.reference > 0 || exists u :: u in s.procs && FreesObject(s.procs[u])
  {
    if s.frees == 0 && s.reference == 0 {
      var u :| u in ObjectFreers(s);
    }
    if u :| u in s.procs && FreesObject(s.procs[u]) {
      assert u in ObjectFreers(s);
    }
  }

  // ------------------------------------------------------------ a run to that unlock

  function Locked(s: RwLock.State, t: Pid): RwLock.State {
    s.(read := s.read + 1, pc := s.pc[t := RwLock.RIn])
  }

  lemma Chain4(s: State, s1: State, s2: State, s3: State, s4: State, t: Pid)
    requires Step(s, s1, t) && Step(s1, s2, t) && Step(s2, s3, t) && Step(s3, s4, t)
    ensures Chain([s, s1, s2, s3, s4], [t, t, t, t])
  {
  }

  /** A process alone at the lock gets in for reading. */
  lemma ReadLocked(s: State, t: Pid, op: Op, inside: Op) returns (run: seq<State>, sched: seq<Pid>)
    requires t in s.procs && s.procs[t].op.Ready? && s.lock.write == 0 && RwLock.PcOf(s.lock, t) == RwLock.Idle
    requires || (op.GrabLock? && inside.GrabInc? && !s.procs[t].box.NoBox?)
             || (op.RdrLock? && inside.RdrDec? && s.procs[t].box.ReaderBox?)
    ensures Chain(run, sched) && run[0] == s
    ensures run[|run| - 1] == Go(s, t, inside).(lock := Locked(s.lock, t))
  {
    var s1 := EnterNext(s, t, RwLock.RSpin, op);
    var s2 := LockNext(s1, t, RwLock.RIn, inside);
    var s3 := LockNext(s2, t, RwLock.RIn, inside);
    var s4 := LockNext(s3, t, RwLock.RIn, inside);
    Chain4(s, s1, s2, s3, s4, t);
    run, sched := [s, s1, s2, s3, s4], [t, t, t, t];
    assert s4.lock.pc == s.lock.pc[t := RwLock.RIn];
    assert s4.procs == s.procs[t := s.procs[t].(op := inside)];
  }

  lemma Extend(run: seq<State>, sched: seq<Pid>, s: State, t: Pid)
    requires Chain(run, sched) && Step(run[|run| - 1], s, t)
    ensures Chain(run + [s], sched + [t])
  {
  }

  /** lcopy: one more pointer to the cell. */
  lemma Grabbed(s: State, t: Pid) returns (run: seq<State>, sched: seq<Pid>)
    requires t in s.procs && s.procs[t].op.Ready? && !s.procs[t].box.NoBox?
    requires s.lock.write == 0 && RwLock.PcOf(s.lock, t) == RwLock.Idle
    ensures Chain(run, sched) && run[0] == s
    ensures run[|run| - 1] == s.(reference := s.reference + 1, pending := s.pending + 1,
                                 lock := s.lock.(pc := s.lock.pc[t := RwLock.Idle]))
  {
    run, sched := ReadLocked(s, t, GrabLock, GrabInc);
    var s1 := run[|run| - 1];
    var s2 := Go(s1, t, GrabUnlock(s.reference)).(reference := s.reference + 1, pending := s.pending + 1);
    var s3 := LockNext(s2, t, RwLock.Idle, GrabAssert(s.reference));
    var s4 := Go(s3, t, Ready);
    Extend(run, sched, s2, t);
    Extend(run + [s2], sched + [t], s3, t);
    Extend(run + [s2] + [s3], sched + [t] + [t], s4, t);
    run, sched := run + [s2] + [s3] + [s4], sched + [t] + [t] + [t];
    assert s4.procs == s.procs && s4.lock.pc == s.lock.pc[t := RwLock.Idle];
  }

  /** The writer's box goes while readers hold the cell. */
  lemma Released(s: State, w: Pid) returns (run: seq<State>, sched: seq<Pid>)
    requires w in s.procs && s.procs[w] == Proc(WriterBox, Ready, None, None, false)
    requires s.lock.write == 0 && s.lock.read == 0 && RwLock.PcOf(s.lock, w) == RwLock.Idle
    requires s.reference > 1 && s.copy.Ptr? && s.copy.c in s.copies && s.copies[s.copy.c] == Copy(1, 0)
    ensures Chain(run, sched) && run[0] == s
    ensures run[|run| - 1] == s.(reference := s.reference - 1, copy := Null,
                                 lock := s.lock.(pc := s.lock.pc[w := RwLock.Idle]),
                                 copies := s.copies[s.copy.c := Copy(0, 1)],
                                 procs := s.procs[w := Proc(NoBox, Ready, None, None, false)])
  {
    run, sched := WriteLocked(s, w);
    var s1 := run[|run| - 1];
    var r2, c2 := CopyGiven(s1, w);
    var s2 := r2[|r2| - 1];
    var r3, c3 := CellGiven(s2, w);
    Join(run, sched, r2, c2);
    Join(run + r2[1..], sched + c2, r3, c3);
    assert s2.procs[w := Proc(NoBox, Ready, None, None, false)] == s.procs[w := Proc(NoBox, Ready, None, None, false)];
    assert s1.lock.pc[w := RwLock.Idle] == s.lock.pc[w := RwLock.Idle];
    run, sched := run + r2[1..] + r3[1..], sched + c2 + c3;
  }

  lemma WriteLocked(s: State, w: Pid) returns (run: seq<State>, sched: seq<Pid>)
    requires w in s.procs && s.procs[w] == Proc(WriterBox, Ready, None, None, false)
    requires s.lock.write == 0 && s.lock.read == 0 && RwLock.PcOf(s.lock, w) == RwLock.Idle
    ensures Chain(run, sched) && run[0] == s
    ensures run[|run| - 1] == s.(lock := RwLock.State(1, 0, s.lock.pc[w := RwLock.WIn]),
                                 procs := s.procs[w := Proc(WriterBox, RelDrop, None, None, false)])
  {
    var s1 := Go(s, w, RelAssert);
    var s2 := EnterNext(s1, w, RwLock.WTas, RelLock);
    assert s2.procs == s.procs[w := Proc(WriterBox, RelLock, None, None, false)];
    var s3, s4 := WriteWaited(s2, w);
    assert ReadyStep(s, s1, w);
    assert ReleaseStep(s1, s2, w);
    Chain4(s, s1, s2, s3, s4, w);
    assert s4.lock.pc == s.lock.pc[w := RwLock.WIn];
    assert s4.procs == s.procs[w := Proc(WriterBox, RelDrop, None, None, false)];
    run, sched := [s, s1, s2, s3, s4], [w, w, w, w];
  }

  lemma WriteWaited(s: State, w: Pid) returns (s1: State, s2: State)
    requires w in s.procs && s.procs[w] == Proc(WriterBox, RelLock, None, None, false)
    requires s.lock.write == 0 && s.lock.read == 0 && RwLock.PcOf(s.lock, w) == RwLock.WTas
    ensures Step(s, s1, w) && Step(s1, s2, w)
    ensures s2 == s.(lock := RwLock.State(1, 0, s.lock.pc[w := RwLock.WIn]),
                     procs := s.procs[w := Proc(WriterBox, RelDrop, None, None, false)])
  {
    s1 := LockNext(s, w, RwLock.WIn, RelDrop);
    s2 := LockNext(s1, w, RwLock.WIn, RelDrop);
    assert s2.lock.pc == s.lock.pc[w := RwLock.WIn];
    assert s2.procs == s.procs[w := Proc(WriterBox, RelDrop, None, None, false)];
    assert ReleaseStep(s, s1, w);
    assert ReleaseStep(s1, s2, w);
  }

  predicate GivingUp(s: State, w: Pid) {
    && w in s.procs && s.procs[w] == Proc(WriterBox, RelDrop, None, None, false)
    && s.copy.Ptr? && s.copy.c in s.copies && s.copies[s.copy.c] == Copy(1, 0)
  }

  /** The writer gives up and frees the only reference to the copy. */
  lemma CopyGiven(s: State, w: Pid) returns (run: seq<State>, sched: seq<Pid>)
    requires GivingUp(s, w)
    ensures Chain(run, sched) && run[0] == s
    ensures run[|run| - 1] == s.(procs := s.procs[w := Proc(WriterBox, RelNull, None, None, false)],
                                 copies := s.copies[s.copy.c := Copy(0, 1)], copy := Stale(s.copy.c))
  {
    var c := s.copy.c;
    var s1 := s.(procs := s.procs[w := Proc(WriterBox, FreeCopy(c, ToRelNull), None, None, false)],
                 copies := s.copies[c := Copy(0, 0)], copy := Stale(c));
    var s2 := s.(procs := s.procs[w := Proc(WriterBox, RelNull, None, None, false)],
                 copies := s.copies[c := Copy(0, 1)], copy := Stale(c));
    assert ReleaseStep(s, s1, w);
    assert s1.copies[c := Copy(0, 1)] == s2.copies && s1.procs[w := s2.procs[w]] == s2.procs;
    assert DropStep(s1, s2, w);
    run, sched := [s, s1, s2], [w, w];
  }

  /** The rest of stm_release, when readers are left. */
  lemma CellGiven(s: State, w: Pid) returns (run: seq<State>, sched: seq<Pid>)
    requires w in s.procs && s.procs[w] == Proc(WriterBox, RelNull, None, None, false) && s.reference > 1
    requires RwLock.PcOf(s.lock, w) == RwLock.WIn
    ensures Chain(run, sched) && run[0] == s
    ensures run[|run| - 1] == s.(procs := s.procs[w := Proc(NoBox, Ready, None, None, false)], copy := Null,
                                 reference := s.reference - 1,
                                 lock := RwLock.State(0, s.lock.read, s.lock.pc[w := RwLock.Idle]))
  {
    var s1 := Go(s, w, RelDec).(copy := Null);
    var s2 := Go(s1, w, RelUnlock).(reference := s.reference - 1);
    var s3 := At(s2, w, Proc(NoBox, Ready, None, None, false)).(lock := RwLock.Next(s.lock, w));
    assert ReleaseStep(s, s1, w);
    assert ReleaseStep(s1, s2, w);
    assert ReleaseStep(s2, s3, w);
    assert s3.procs == s.procs[w := Proc(NoBox, Ready, None, None, false)];
    run, sched := [s, s1, s2, s3], [w, w, w];
  }

  /** One writer and two readers that have read nothing. */
  function Three(pc: map<Pid, RwLock.Pc>): State {
    State(RwLock.State(0, 0, pc), 3, Ptr(0), 0, 0, map[0 := Copy(1, 0)],
          map[0 := Proc(WriterBox, Ready, None, None, false), 1 := Proc(ReaderBox, Ready, None, None, false),
              2 := Proc(ReaderBox, Ready, None, None, false)])
  }

  function One(pending: nat, pc: map<Pid, RwLock.Pc>): State {
    State(RwLock.State(0, 0, pc), 1 + pending, Ptr(0), 0, pending, map[0 := Copy(1, 0)],
          map[0 := Proc(WriterBox, Ready, None, None, false)])
  }

  lemma TwoGrabbed() returns (run: seq<State>, sched: seq<Pid>)
    ensures IsRun(run, sched) && run[|run| - 1] == One(2, map[0 := RwLock.Idle])
  {
    var idle: map<Pid, RwLock.Pc> := map[0 := RwLock.Idle];
    var r1, c1 := Grabbed(One(0, idle), 0);
    assert idle[0 := RwLock.Idle] == idle;
    var r2, c2 := Grabbed(One(1, idle), 0);
    Join(r1, c1, r2, c2);
    run, sched := r1 + r2[1..], c1 + c2;
  }

  lemma TwoReaders() returns (run: seq<State>, sched: seq<Pid>)
    ensures IsRun(run, sched) && run[|run| - 1] == Three(map[0 := RwLock.Idle])
  {
    run, sched := TwoGrabbed();
    var s := run[|run| - 1];
    var s1 := At(s, 1, Proc(ReaderBox, Ready, None, None, false)).(pending := 1);
    var s2 := At(s1, 2, Proc(ReaderBox, Ready, None, None, false)).(pending := 0);
    Extend(run, sched, s1, 1);
    Extend(run + [s1], sched + [1], s2, 2);
    run, sched := run + [s1] + [s2], sched + [1] + [2];
  }

  /** Two readers are left, and the first has given up its reference. */
  ghost predicate FirstUnlocking(s: State) {
    && Unlocking(s, 1) && s.frees == 0
    && s.procs == map[0 := Proc(NoBox, Ready, None, None, false), 1 := Proc(ReaderBox, RdrUnlock, None, None, false),
                      2 := Proc(ReaderBox, Ready, None, None, false)]
  }

  lemma FirstReader() returns (run: seq<State>, sched: seq<Pid>)
    ensures IsRun(run, sched) && FirstUnlocking(run[|run| - 1])
  {
    run, sched := TwoReaders();
    var r1, c1 := Released(run[|run| - 1], 0);
    var r2, c2 := ReadLocked(r1[|r1| - 1], 1, RdrLock, RdrDec);
    Join(run, sched, r1, c1);
    run, sched := run + r1[1..], sched + c1;
    Join(run, sched, r2, c2);
    run, sched := run + r2[1..], sched + c2;
    var s := run[|run| - 1];
    var s' := Go(s, 1, RdrUnlock).(reference := s.reference - 1);
    Extend(run, sched, s', 1);
    run, sched := run + [s'], sched + [1];
  }

  lemma FirstHasNoWriter(s: State)
    requires FirstUnlocking(s)
    ensures NoWriter(s)
  {
  }

  /** A run to an unlock that has no writer goes on until the cell has been freed. */
  lemma GoesOn(run: seq<State>, sched: seq<Pid>, t: Pid) returns (run': seq<State>, sched': seq<Pid>)
    requires IsRun(run, sched) && Unlocking(run[|run| - 1], t) && NoWriter(run[|run| - 1])
    ensures IsRun(run', sched') && Unlocking(run'[|run'| - 1], t) && run'[|run'| - 1].frees == 1
  {
    RunCounts(run, sched, |run| - 1);
    var r, c := FreedByOthers(run[|run| - 1], t);
    Join(run, sched, r, c);
    run', sched' := run + r[1..], sched + c;
  }

  /** There is a run, with a released writer and two readers, in which the unlock that
      ends stm_releasereader meets the cell after it has been freed. */
  lemma UnlockOfFreed() returns (run: seq<State>, sched: seq<Pid>, t: Pid)
    ensures IsRun(run, sched) && Unlocking(run[|run| - 1], t) && run[|run| - 1].frees == 1
  {
    run, sched := FirstReader();
    t := 1;
    FirstHasNoWriter(run[|run| - 1]);
    run, sched := GoesOn(run, sched, t);
  }
}
