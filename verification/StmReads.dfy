/** What readers of a cell of module Stm get: the message that is published when they read,
    so the one of the last update or a newer one. */
module StmReads {
  import opened Wrappers
  import RwLock
  import opened Stm

  // ------------------------------------------------------------ what an update publishes

  predicate Updating(op: Op) {
    op.UpdLock? || op.UpdLoad? || op.UpdStore?
  }

  /** `w` waits for the lock of stm_update in state `i`, with the new copy `c`, and has come
      to its unlock in state `j`. */
  ghost predicate Updates(run: seq<State>, w: Pid, c: CopyId, i: nat, j: nat) {
    && i < j < |run|
    && w in run[i].procs && run[i].procs[w].op.UpdLock? && run[i].procs[w].temp == Some(c)
    && (forall k {:trigger run[k]} :: i <= k < j ==> w in run[k].procs && Updating(run[k].procs[w].op))
    && w in run[j].procs && run[j].procs[w].op.UpdUnlock?
  }

  /** `w` keeps its new copy until it has stored it in the cell. */
  predicate Carries(s: State, w: Pid, c: CopyId) {
    w in s.procs && s.procs[w].box.WriterBox? &&
    if Updating(s.procs[w].op) then s.procs[w].temp == Some(c)
    else s.procs[w].op.UpdUnlock? ==> s.copy == Ptr(c)
  }

  lemma OthersStay(s: State, s': State, t: Pid, u: Pid)
    requires Inv(s) && Step(s, s', t) && u in s.procs && u != t
    ensures u in s'.procs && s'.procs[u] == s.procs[u]
  {
    StepEffect(s, s', t, 0);
  }

  lemma UpdaterIsWriter(s: State, w: Pid)
    requires Inv(s) && w in s.procs && WriterOp(s.procs[w].op)
    ensures IsWriter(s, w)
  {
    LocalInv(s, w, 0);
  }

  lemma CarriesOn(s: State, s': State, t: Pid, w: Pid, c: CopyId)
    requires Inv(s) && Step(s, s', t) && Carries(s, w, c) && Updating(s.procs[w].op)
    requires w in s'.procs && (Updating(s'.procs[w].op) || s'.procs[w].op.UpdUnlock?)
    ensures Carries(s', w, c)
  {
    if t != w {
      OthersStay(s, s', t, w);
    } else {
      OwnUpdate(s, s', w, c);
    }
  }

  lemma OwnUpdate(s: State, s': State, w: Pid, c: CopyId)
    requires Step(s, s', w) && Carries(s, w, c) && Updating(s.procs[w].op)
    ensures Carries(s', w, c)
  {
    assert UpdateStep(s, s', w);
  }

  /** One step of a run. */
  lemma RunStep(run: seq<State>, sched: seq<Pid>, k: nat) returns (s: State, s': State, t: Pid)
    requires IsRun(run, sched) && k < |sched|
    ensures s == run[k] && s' == run[k + 1] && t == sched[k] && Inv(s) && Step(s, s', t)
  {
    s, s', t := run[k], run[k + 1], sched[k];
    RunCounts(run, sched, k);
  }

  lemma CarriesAt(run: seq<State>, sched: seq<Pid>, w: Pid, c: CopyId, k: nat)
    requires IsRun(run, sched) && k < |sched| && Carries(run[k], w, c) && Updating(run[k].procs[w].op)
    requires w in run[k + 1].procs && (Updating(run[k + 1].procs[w].op) || run[k + 1].procs[w].op.UpdUnlock?)
    ensures Carries(run[k + 1], w, c)
  {
    var s, s', t := RunStep(run, sched, k);
    CarriesOn(s, s', t, w, c);
  }

  /** After the update the cell publishes the new copy. */
  lemma {:induction false} UpdatePublishes(run: seq<State>, sched: seq<Pid>, w: Pid, c: CopyId, i: nat, j: nat)
    requires IsRun(run, sched) && Updates(run, w, c, i, j)
    ensures run[j].copy == Ptr(c) && IsWriter(run[j], w)
  {
    CarriesFrom(run, sched, w, c, i);
    for k := i to j
      invariant Carries(run[k], w, c)
    {
      CarriesAt(run, sched, w, c, k);
    }
  }

  lemma CarriesFrom(run: seq<State>, sched: seq<Pid>, w: Pid, c: CopyId, i: nat)
    requires IsRun(run, sched) && i < |run|
    requires w in run[i].procs && run[i].procs[w].op.UpdLock? && run[i].procs[w].temp == Some(c)
    ensures Carries(run[i], w, c)
  {
    RunCounts(run, sched, i);
    UpdaterIsWriter(run[i], w);
  }

  // ------------------------------------------------------------ how long it is published

  /** The writer stores another copy, or gives its copy up. */
  predicate Replacing(op: Op) {
    op.UpdStore? || op.RelDrop?
  }

  /** What a step may do to `obj->copy`: a store, or the writer's copy going away. */
  predicate Changes(s: State, s': State, p: Proc, p': Proc) {
    && (s.copy.Ptr? ==> Replacing(p.op))
    && (p.op.UpdStore? ==> s'.copy.Ptr? && p.temp == Some(s'.copy.c) && p'.op.UpdUnlock?)
    && (!p.op.UpdStore? ==> !s'.copy.Ptr?)
    && p'.op != p.op
  }

  lemma UpdateChanges(s: State, s': State, t: Pid)
    requires t in s.procs && UpdateStep(s, s', t) && s'.copy != s.copy
    ensures Changes(s, s', s.procs[t], s'.procs[t])
  {
  }

  lemma ReleaseChanges(s: State, s': State, t: Pid)
    requires t in s.procs && ReleaseStep(s, s', t) && LocalFacts(s, s.procs[t]) && WellFormed(s.procs[t])
    requires s'.copy != s.copy
    ensures Changes(s, s', s.procs[t], s'.procs[t])
  {
  }

  lemma OnlyWriters(s: State, s': State, t: Pid)
    requires t in s.procs && Step(s, s', t) && s'.copy != s.copy
    ensures UpdateStep(s, s', t) || ReleaseStep(s, s', t)
  {
    if s.procs[t].op.Ready? {
      ReadyKeeps(s, s', t);
    } else {
      OtherKeep(s, s', t);
    }
  }

  lemma ReadyKeeps(s: State, s': State, t: Pid)
    requires t in s.procs && ReadyStep(s, s', t)
    ensures s'.copy == s.copy
  {
  }

  lemma OtherKeep(s: State, s': State, t: Pid)
    requires t in s.procs
    requires GrabStep(s, s', t) || ReadStep(s, s', t) || DropStep(s, s', t) || ReaderReleaseStep(s, s', t)
             || UpdateStep(s, s', t) || ReleaseStep(s, s', t)
    ensures s'.copy != s.copy ==> UpdateStep(s, s', t) || ReleaseStep(s, s', t)
  {
  }

  /** Who changes `obj->copy`, and to what. */
  lemma WriterChanges(s: State, s': State, t: Pid)
    requires Inv(s) && Step(s, s', t) && s'.copy != s.copy
    ensures IsWriter(s, t) && t in s'.procs && Changes(s, s', s.procs[t], s'.procs[t])
  {
    if t in s.procs {
      LocalInv(s, t, 0);
      StepEffect(s, s', t, 0);
      OnlyWriters(s, s', t);
      if UpdateStep(s, s', t) {
        UpdateChanges(s, s', t);
        UpdaterIsWriter(s, t);
      } else {
        ReleaseChanges(s, s', t);
        UpdaterIsWriter(s, t);
      }
    }
  }

  lemma OneWriter(s: State, w: Pid, t: Pid)
    requires Inv(s) && IsWriter(s, w) && IsWriter(s, t)
    ensures w == t
  {
  }

  lemma KeptStep(s: State, s': State, t: Pid, w: Pid)
    requires Inv(s) && Step(s, s', t) && IsWriter(s, w) && s.copy.Ptr? && !Replacing(s.procs[w].op)
    ensures IsWriter(s', w) && s'.copy == s.copy
  {
    if s'.copy != s.copy {
      WriterChanges(s, s', t);
      OneWriter(s, w, t);
    } else {
      WriterOf(s, s', t, w);
    }
  }

  /** While a copy is published there is a writer, and no other than before. */
  lemma WriterOf(s: State, s': State, t: Pid, w: Pid)
    requires Inv(s) && Step(s, s', t) && IsWriter(s, w) && s'.copy.Ptr?
    ensures IsWriter(s', w)
  {
    WriterStep(s, s', t);
    var u :| IsWriter(s', u);
    OneWriter(s, w, u);
  }

  lemma KeptAt(run: seq<State>, sched: seq<Pid>, w: Pid, k: nat)
    requires IsRun(run, sched) && k < |sched| && IsWriter(run[k], w) && run[k].copy.Ptr?
    requires !Replacing(run[k].procs[w].op)
    ensures IsWriter(run[k + 1], w) && run[k + 1].copy == run[k].copy
  {
    var s, s', t := RunStep(run, sched, k);
    KeptStep(s, s', t, w);
  }

  /** It stays published until the writer stores another copy or releases the cell. */
  lemma StaysPublished(run: seq<State>, sched: seq<Pid>, w: Pid, c: CopyId, i: nat, j: nat)
    requires IsRun(run, sched) && i <= j < |run| && IsWriter(run[i], w) && run[i].copy == Ptr(c)
    requires forall k {:trigger run[k]} :: i <= k < j && w in run[k].procs ==> !Replacing(run[k].procs[w].op)
    ensures IsWriter(run[j], w) && run[j].copy == Ptr(c)
  {
    for k := i to j
      invariant IsWriter(run[k], w) && run[k].copy == Ptr(c)
    {
      KeptAt(run, sched, w, k);
    }
  }

  // ------------------------------------------------------------ what a read returns

  /** A call of lread: from the wait for the lock to the return. */
  predicate Reading(p: Proc) {
    p.box.ReaderBox? &&
    match p.op
    case CopyLock | CopyLoad | CopyInc(_) | CopyAssert(_) | CopyUnlock | Compare | DropLast | DropTemp => true
    case FreeCopy(_, after) => after.ToReady?
    case _ => false
  }

  /** `r` waits for the lock of stm_copy in state `i`, and has returned from lread in state `j`. */
  ghost predicate ReadCall(run: seq<State>, r: Pid, i: nat, j: nat) {
    && i < j < |run|
    && r in run[i].procs && run[i].procs[r].op.CopyLock?
    && (forall k {:trigger run[k]} :: i <= k < j ==> r in run[k].procs && Reading(run[k].procs[r]))
    && r in run[j].procs && run[j].procs[r].op.Ready?
  }

  /** The message behind `obj->copy`. */
  function Message(p: Pointer): Option<CopyId> {
    if p.Ptr? then Some(p.c) else None
  }

  /** What the cell published in the states from `i` to `j`. */
  ghost function PublishedIn(run: seq<State>, i: nat, j: nat): Option<CopyId> -> bool
    requires j < |run|
  {
    q => exists l: nat {:trigger run[l]} :: i <= l <= j && !run[l].copy.Stale? && Message(run[l].copy) == q
  }

  /** How far a read has come that began with the last copy `before`. */
  ghost predicate Phase(seen: Option<CopyId> -> bool, p: Proc, before: Option<CopyId>) {
    match p.op
    case CopyLock | CopyLoad => p.last == before && p.temp == None
    case CopyInc(ret) => p.last == before && p.temp == None && seen(ret)
    case CopyAssert(_) | CopyUnlock | Compare => p.last == before && seen(p.temp)
    case DropTemp => p.last == before && seen(before) && !p.told
    case DropLast => p.temp != before && seen(p.temp) && (p.told <==> p.temp.Some?)
    case FreeCopy(_, _) | Ready => seen(p.last) && (p.told <==> p.last != before && p.last.Some?)
    case _ => false
  }

  /** A step of the reader itself; before it has loaded the pointer, `seen` knows it. */
  lemma OwnPhase(s: State, s': State, r: Pid, seen: Option<CopyId> -> bool, before: Option<CopyId>)
    requires Step(s, s', r) && r in s.procs && Reading(s.procs[r]) && Phase(seen, s.procs[r], before)
    requires s.procs[r].op.CopyInc? && s.procs[r].op.ret.Some? ==> s.procs[r].op.ret.value in s.copies
    requires s.procs[r].op.CopyLoad? ==> !s.copy.Stale? && seen(Message(s.copy))
    ensures r in s'.procs && Phase(seen, s'.procs[r], before)
  {
    if s.procs[r].op.DropLast? || s.procs[r].op.DropTemp? || s.procs[r].op.FreeCopy? {
      assert DropStep(s, s', r);
      DropPhase(s, s', r, seen, before);
    } else {
      assert ReadStep(s, s', r);
      ReadPhase(s, s', r, seen, before);
    }
  }

  lemma DropPhase(s: State, s': State, r: Pid, seen: Option<CopyId> -> bool, before: Option<CopyId>)
    requires r in s.procs && DropStep(s, s', r) && Reading(s.procs[r]) && Phase(seen, s.procs[r], before)
    ensures r in s'.procs && Phase(seen, s'.procs[r], before)
  {
  }

  lemma ReadPhase(s: State, s': State, r: Pid, seen: Option<CopyId> -> bool, before: Option<CopyId>)
    requires r in s.procs && ReadStep(s, s', r) && Reading(s.procs[r]) && Phase(seen, s.procs[r], before)
    requires s.procs[r].op.CopyInc? && s.procs[r].op.ret.Some? ==> s.procs[r].op.ret.value in s.copies
    requires s.procs[r].op.CopyLoad? ==> !s.copy.Stale? && seen(Message(s.copy))
    ensures r in s'.procs && Phase(seen, s'.procs[r], before)
  {
  }

  /** What the invariant gives the reader. */
  lemma LoadsSafely(s: State, r: Pid)
    requires Inv(s) && r in s.procs
    ensures s.procs[r].op.CopyInc? && s.procs[r].op.ret.Some? ==> s.procs[r].op.ret.value in s.copies
    ensures s.procs[r].op.CopyLoad? ==> !s.copy.Stale?
    ensures s.procs[r].op.CopyLock? ==> s.procs[r].temp == None
  {
    LocalInv(s, r, 0);
    if s.copy.Stale? {
      StaleExcludes(s, r);
    }
  }

  lemma PhaseStep(s: State, s': State, t: Pid, r: Pid, seen: Option<CopyId> -> bool, before: Option<CopyId>)
    requires Inv(s) && Step(s, s', t) && r in s.procs && Reading(s.procs[r]) && Phase(seen, s.procs[r], before)
    requires !s.copy.Stale? ==> seen(Message(s.copy))
    ensures r in s'.procs && Phase(seen, s'.procs[r], before)
  {
    if t == r {
      LoadsSafely(s, r);
      OwnPhase(s, s', r, seen, before);
    } else {
      OthersStay(s, s', t, r);
    }
  }

  lemma PhaseAt(run: seq<State>, sched: seq<Pid>, r: Pid, i: nat, j: nat, k: nat, before: Option<CopyId>)
    requires IsRun(run, sched) && i <= k < j < |run| && r in run[k].procs && Reading(run[k].procs[r])
    requires Phase(PublishedIn(run, i, j), run[k].procs[r], before)
    ensures r in run[k + 1].procs && Phase(PublishedIn(run, i, j), run[k + 1].procs[r], before)
  {
    var s, s', t := RunStep(run, sched, k);
    PhaseStep(s, s', t, r, PublishedIn(run, i, j), before);
  }

  lemma PhaseFrom(run: seq<State>, sched: seq<Pid>, r: Pid, i: nat)
    requires IsRun(run, sched) && i < |run| && r in run[i].procs && run[i].procs[r].op.CopyLock?
    ensures run[i].procs[r].temp == None
  {
    RunCounts(run, sched, i);
    LoadsSafely(run[i], r);
  }

  /** When lread returns, the reader's last copy is one that was published during the call,
      and a message is reported exactly when that is another copy than before and not NULL. */
  lemma ReadReturns(run: seq<State>, sched: seq<Pid>, r: Pid, i: nat, j: nat)
    requires IsRun(run, sched) && ReadCall(run, r, i, j)
    ensures var p, before := run[j].procs[r], run[i].procs[r].last;
            && (exists l: nat {:trigger run[l]} ::
                  i <= l <= j && !run[l].copy.Stale? && Message(run[l].copy) == p.last)
            && (p.told <==> p.last != before && p.last.Some?)
  {
    var before := run[i].procs[r].last;
    PhaseFrom(run, sched, r, i);
    for k := i to j
      invariant r in run[k].procs && Phase(PublishedIn(run, i, j), run[k].procs[r], before)
    {
      PhaseAt(run, sched, r, i, j, k, before);
    }
  }

  // ------------------------------------------------------------ no read is behind

  /** In step `l` the writer stored `q`, or gave up its copy when `q` is None. */
  ghost predicate Replaced(run: seq<State>, w: Pid, l: nat, q: Option<CopyId>)
    requires l + 1 < |run|
  {
    && w in run[l].procs && w in run[l + 1].procs && run[l + 1].procs[w].op != run[l].procs[w].op
    && if q.Some? then run[l].procs[w].op.UpdStore? && run[l].procs[w].temp == q && run[l + 1].copy == Ptr(q.value)
       else run[l].procs[w].op.RelDrop?
  }

  /** The cell publishes `c` in state `k`, or what `w` has put in its place since state `i`. */
  ghost predicate Since(run: seq<State>, w: Pid, c: CopyId, i: nat, k: nat)
    requires k < |run|
  {
    && (forall u :: IsWriter(run[k], u) ==> u == w)
    && (run[k].copy == Ptr(c) || exists l: nat :: i <= l < k && Replaced(run, w, l, Message(run[k].copy)))
  }

  lemma SinceAt(run: seq<State>, sched: seq<Pid>, w: Pid, c: CopyId, i: nat, k: nat)
    requires IsRun(run, sched) && i <= k < |sched| && Since(run, w, c, i, k)
    ensures Since(run, w, c, i, k + 1)
  {
    var s, s', t := RunStep(run, sched, k);
    WriterStep(s, s', t);
    if s'.copy == s.copy {
      if l: nat :| i <= l < k && Replaced(run, w, l, Message(run[k].copy)) {
        assert Replaced(run, w, l, Message(run[k + 1].copy));
      }
    } else {
      WriterChanges(s, s', t);
      assert t == w;
      if s.copy.Ptr? || s.procs[t].op.UpdStore? {
        assert Replaced(run, w, k, Message(run[k + 1].copy));
      } else {
        var l: nat :| i <= l < k && Replaced(run, w, l, Message(run[k].copy));
        assert Replaced(run, w, l, Message(run[k + 1].copy));
      }
    }
  }

  /** A read that begins after an update has stored its message returns with that message,
      or with what the writer has put in its place since then. */
  lemma ReadAfterUpdate(run: seq<State>, sched: seq<Pid>, w: Pid, c: CopyId, u: nat, b: nat, r: Pid, i: nat, j: nat)
    requires IsRun(run, sched) && Updates(run, w, c, u, b) && ReadCall(run, r, i, j) && b <= i
    ensures run[j].procs[r].last == Some(c) ||
            exists l: nat :: b <= l < j && Replaced(run, w, l, run[j].procs[r].last)
  {
    UpdatePublishes(run, sched, w, c, u, b);
    SinceFrom(run, sched, w, c, b);
    ReadReturns(run, sched, r, i, j);
    var l: nat :| i <= l <= j && !run[l].copy.Stale? && Message(run[l].copy) == run[j].procs[r].last;
    for k := b to l
      invariant Since(run, w, c, b, k)
    {
      SinceAt(run, sched, w, c, b, k);
    }
  }

  lemma SinceFrom(run: seq<State>, sched: seq<Pid>, w: Pid, c: CopyId, b: nat)
    requires IsRun(run, sched) && b < |run| && IsWriter(run[b], w) && run[b].copy == Ptr(c)
    ensures Since(run, w, c, b, b)
  {
    RunCounts(run, sched, b);
    forall u | IsWriter(run[b], u) ensures u == w {
      OneWriter(run[b], w, u);
    }
  }
}
