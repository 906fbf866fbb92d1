/** The reader/writer spinlock of rwlock.h (the `__sync_*` version) as a
    transition system: any number of threads, each with its own program counter,
    take one atomic memory access at a time under sequential consistency. */
module RwLock {
  import opened Sets
  import opened Runs

  type Tid = nat

  /** Where a thread is inside the four lock procedures. */
  datatype Pc =
    | Idle    // outside the lock
    | RSpin   // rwlock_rlock, about to read `write` in the spin loop
    | RInc    // saw write == 0, about to increment `read`
    | RCheck  // incremented, about to read `write` again
    | RBack   // saw write != 0, about to undo the increment
    | RIn     // holds the lock for reading
    | WTas    // rwlock_wlock, about to test-and-set `write`
    | WWait   // owns `write`, waiting for `read` to drop to zero
    | WIn     // holds the lock for writing

  /** The two shared fields and every thread's program counter; a thread that is
      not in `pc` is idle. */
  datatype State = State(write: int, read: int, pc: map<Tid, Pc>)

  function PcOf(s: State, t: Tid): Pc {
    if t in s.pc then s.pc[t] else Idle
  }

  ghost predicate Init(s: State) {
    s.write == 0 && s.read == 0 && forall t :: t in s.pc ==> s.pc[t] == Idle
  }

  predicate Goto(s: State, s': State, t: Tid, write: int, read: int, pc: Pc) {
    s' == State(write, read, s.pc[t := pc])
  }

  /** One atomic step of thread `t`. */
  predicate Step(s: State, s': State, t: Tid) {
    match PcOf(s, t)
    case Idle =>
      Goto(s, s', t, s.write, s.read, RSpin) || Goto(s, s', t, s.write, s.read, WTas)
    case RSpin =>
      Goto(s, s', t, s.write, s.read, if s.write != 0 then RSpin else RInc)
    case RInc =>
      Goto(s, s', t, s.write, s.read + 1, RCheck)
    case RCheck =>
      Goto(s, s', t, s.write, s.read, if s.write != 0 then RBack else RIn)
    case RBack =>
      Goto(s, s', t, s.write, s.read - 1, RSpin)
    case RIn =>
      Goto(s, s', t, s.write, s.read - 1, Idle)
    case WTas =>
      Goto(s, s', t, 1, s.read, if s.write != 0 then WTas else WWait)
    case WWait =>
      Goto(s, s', t, s.write, s.read, if s.read != 0 then WWait else WIn)
    case WIn =>
      Goto(s, s', t, 0, s.read, Idle)
  }

  /** Between the increment and the decrement of `read`. */
  predicate IsCounted(pc: Pc) { pc.RCheck? || pc.RBack? || pc.RIn? }

  /** Between a winning test-and-set and the release of `write`. */
  predicate OwnsWrite(pc: Pc) { pc.WWait? || pc.WIn? }

  function Counted(s: State): set<Tid> {
    set t | t in s.pc && IsCounted(s.pc[t])
  }

  function Owners(s: State): set<Tid> {
    set t | t in s.pc && OwnsWrite(s.pc[t])
  }

  /** A writer past its wait loop excludes every reader inside and every other
      writer. */
  ghost predicate Exclusive(s: State) {
    forall w, t :: PcOf(s, w) == WIn && t != w ==> PcOf(s, t) != RIn && PcOf(s, t) != WIn
  }

  ghost predicate Inv(s: State) {
    && s.read == |Counted(s)|
    && (s.write == 0 || s.write == 1)
    && s.write == |Owners(s)|
    && Exclusive(s)
  }

  lemma SingletonEq<T>(a: set<T>, x: T, y: T)
    requires |a| == 1 && x in a && y in a
    ensures x == y
  {
    if x != y {
      assert {x, y} <= a;
      SubsetSize({x, y}, a);
    }
  }

  lemma CountedStep(s: State, s': State, t: Tid)
    requires s.read == |Counted(s)| && Step(s, s', t)
    ensures s'.read == |Counted(s')|
  {
    if IsCounted(PcOf(s', t)) {
      assert Counted(s') == Counted(s) + {t};
    } else {
      assert Counted(s') == Counted(s) - {t};
    }
  }

  lemma OwnersStep(s: State, s': State, t: Tid)
    requires Inv(s) && Step(s, s', t)
    ensures (s'.write == 0 || s'.write == 1) && s'.write == |Owners(s')|
  {
    if OwnsWrite(PcOf(s', t)) {
      assert Owners(s') == Owners(s) + {t};
    } else {
      assert Owners(s') == Owners(s) - {t};
    }
  }

  lemma ExclusiveStep(s: State, s': State, t: Tid, w: Tid, r: Tid)
    requires Inv(s) && Step(s, s', t)
    requires PcOf(s', w) == WIn && r != w
    ensures PcOf(s', r) != RIn && PcOf(s', r) != WIn
  {
    OwnersStep(s, s', t);
    assert w in Owners(s');
    if r in Owners(s') {
      SingletonEq(Owners(s'), w, r);
    }
    assert PcOf(s, w) == WIn ==> w in Owners(s) && Owners(s) != {};
    assert PcOf(s, r) == RIn ==> r in Counted(s) && Counted(s) != {};
  }

  lemma InvStep(s: State, s': State, t: Tid)
    requires Inv(s) && Step(s, s', t)
    ensures Inv(s')
  {
    CountedStep(s, s', t);
    OwnersStep(s, s', t);
    forall w, r | PcOf(s', w) == WIn && r != w
      ensures PcOf(s', r) != RIn && PcOf(s', r) != WIn
    {
      ExclusiveStep(s, s', t, w, r);
    }
  }

  // ------------------------------------------------------------ whole runs

  /** The states visited when the threads of `sched` step one after the other. */
  ghost predicate Chain(run: seq<State>, sched: seq<Tid>) {
    && |run| == |sched| + 1
    && forall i :: 0 <= i < |sched| ==> Step(run[i], run[i + 1], sched[i])
  }

  ghost predicate IsRun(run: seq<State>, sched: seq<Tid>) {
    Chain(run, sched) && Init(run[0])
  }

  /** Every state of every run, for any number of threads and any interleaving:
      mutual exclusion holds and `read` is the number of threads between their
      increment and their decrement. */
  lemma {:induction false} RunSafe(run: seq<State>, sched: seq<Tid>, i: nat)
    requires IsRun(run, sched) && i < |run|
    ensures Exclusive(run[i])
    ensures run[i].read == |Counted(run[i])|
    ensures run[i].write == |Owners(run[i])| <= 1
    ensures Inv(run[i])
  {
    if i == 0 {
      assert Counted(run[0]) == {} && Owners(run[0]) == {};
    } else {
      RunSafe(run, sched, i - 1);
      assert Step(run[i - 1], run[i - 1 + 1], sched[i - 1]);
      InvStep(run[i - 1], run[i], sched[i - 1]);
    }
  }

  // ------------------------------------------------------------ no deadlock

  function Busy(s: State): set<Tid> {
    set t | t in s.pc && s.pc[t] != Idle
  }

  function Checking(s: State): set<Tid> {
    set t | t in s.pc && s.pc[t] == RCheck
  }

  function Waiting(s: State): set<Tid> {
    set t | t in s.pc && s.pc[t] == WWait
  }

  /** The state that thread `t`, inside one of the procedures, steps to. */
  function Next(s: State, t: Tid): (s': State)
    requires PcOf(s, t) != Idle
    ensures Step(s, s', t)
  {
    match PcOf(s, t)
    case RSpin => s.(pc := s.pc[t := if s.write != 0 then RSpin else RInc])
    case RInc => s.(read := s.read + 1, pc := s.pc[t := RCheck])
    case RCheck => s.(pc := s.pc[t := if s.write != 0 then RBack else RIn])
    case RBack => s.(read := s.read - 1, pc := s.pc[t := RSpin])
    case RIn => s.(read := s.read - 1, pc := s.pc[t := Idle])
    case WTas => s.(write := 1, pc := s.pc[t := if s.write != 0 then WTas else WWait])
    case WWait => s.(pc := s.pc[t := if s.read != 0 then WWait else WIn])
    case WIn => s.(write := 0, pc := s.pc[t := Idle])
  }

  lemma BusyShrinks(s: State, s': State, t: Tid)
    requires t in s.pc && s.pc[t] != Idle && s'.pc == s.pc[t := Idle]
    ensures |Busy(s')| < |Busy(s)|
  {
    assert t in Busy(s);
    assert Busy(s') == Busy(s) - {t};
  }

  lemma Prepend(s: State, t: Tid, run: seq<State>, sched: seq<Tid>)
    requires Chain(run, sched) && Step(s, run[0], t)
    ensures Chain([s] + run, [t] + sched)
  {
  }

  /** A thread alone at the lock runs from its entry to the matching unlock. */
  lemma Solo(s: State, t: Tid) returns (run: seq<State>, sched: seq<Tid>)
    requires Inv(s) && s.write == 0 && s.read == 0
    requires PcOf(s, t) in {RSpin, RInc, WTas}
    ensures Chain(run, sched) && run[0] == s
    ensures run[|run| - 1].pc == s.pc[t := Idle] && Inv(run[|run| - 1])
  {
    var s1 := Next(s, t);
    var s2 := Next(s1, t);
    var s3 := Next(s2, t);
    InvStep(s, s1, t); InvStep(s1, s2, t); InvStep(s2, s3, t);
    run, sched := [s, s1, s2, s3], [t, t, t];
    if PcOf(s3, t) != Idle {
      var s4 := Next(s3, t);
      InvStep(s3, s4, t);
      run, sched := run + [s4], sched + [t];
    }
  }

  lemma Join(run: seq<State>, sched: seq<Tid>, run': seq<State>, sched': seq<Tid>)
    requires Chain(run, sched) && Chain(run', sched') && run[|run| - 1] == run'[0]
    ensures Chain(run + run'[1..], sched + sched')
    ensures (run + run'[1..])[|run| + |run'| - 2] == run'[|run'| - 1]
  {
    JoinRuns((s: State, s': State, t: Tid) => Step(s, s', t), run, sched, run', sched');
  }

  /** The thread to schedule next: holders leave first, then readers that are
      backing out, then the waiting writer, then anyone who is still spinning. */
  lemma Pick(s: State) returns (t: Tid)
    requires Busy(s) != {}
    ensures t in Busy(s)
    ensures s.pc[t] in {WIn, RIn, RBack, RCheck} ||
            (Counted(s) == {} && (s.pc[t] == WWait || Owners(s) == {}))
  {
    if a :| a in s.pc && s.pc[a] in {WIn, RIn, RBack, RCheck} {
      t := a;
    } else if a :| a in s.pc && s.pc[a] == WWait {
      t := a;
      assert Counted(s) == {};
    } else {
      t :| t in Busy(s);
      assert Counted(s) == {} && Owners(s) == {};
    }
  }

  lemma Progress(s: State, t: Tid)
    requires Inv(s) && t in s.pc && s.pc[t] in {WIn, RIn, RBack, RCheck, WWait}
    requires s.pc[t] == WWait ==> Counted(s) == {}
    ensures var s' := Next(s, t);
            |Busy(s')| < |Busy(s)|
            || (|Busy(s')| == |Busy(s)| && |Counted(s')| < |Counted(s)|)
            || (|Busy(s')| == |Busy(s)| && |Counted(s')| == |Counted(s)|
                && |Checking(s')| + |Waiting(s')| < |Checking(s)| + |Waiting(s)|)
  {
    var s' := Next(s, t);
    match s.pc[t]
    case WIn => BusyShrinks(s, s', t);
    case RIn => BusyShrinks(s, s', t);
    case RBack =>
      assert Busy(s') == Busy(s) && t in Counted(s) && Counted(s') == Counted(s) - {t};
    case RCheck =>
      assert Busy(s') == Busy(s) && Counted(s') == Counted(s) && Waiting(s') == Waiting(s);
      assert t in Checking(s) && Checking(s') == Checking(s) - {t};
    case WWait =>
      assert Busy(s') == Busy(s) && Counted(s') == Counted(s) && Checking(s') == Checking(s);
      assert t in Waiting(s) && Waiting(s') == Waiting(s) - {t};
  }

  /** The lock never deadlocks: from every state that a run can reach, some
      schedule brings every thread that is inside back out. */
  lemma {:induction false} CanQuiesce(s: State) returns (run: seq<State>, sched: seq<Tid>)
    requires Inv(s)
    ensures Chain(run, sched) && run[0] == s
    ensures Busy(run[|run| - 1]) == {}
    decreases |Busy(s)|, |Counted(s)|, |Checking(s)| + |Waiting(s)|
  {
    if Busy(s) == {} {
      return [s], [];
    }
    var t := Pick(s);
    if s.pc[t] in {WIn, RIn, RBack, RCheck, WWait} {
      Progress(s, t);
      var s' := Next(s, t);
      InvStep(s, s', t);
      run, sched := CanQuiesce(s');
      Prepend(s, t, run, sched);
      run, sched := [s] + run, [t] + sched;
    } else {
      var r0, c0 := Solo(s, t);
      var last := r0[|r0| - 1];
      BusyShrinks(s, last, t);
      var r1, c1 := CanQuiesce(last);
      Join(r0, c0, r1, c1);
      run, sched := r0 + r1[1..], c0 + c1;
    }
  }
}
