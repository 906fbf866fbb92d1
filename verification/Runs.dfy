/** Runs of transition systems: the states visited when the processes of a schedule step
    one after the other. */
module Runs {
  ghost predicate Follows<S, T>(step: (S, S, T) -> bool, run: seq<S>, sched: seq<T>) {
    |run| == |sched| + 1 && forall i {:trigger sched[i]} :: 0 <= i < |sched| ==> step(run[i], run[i + 1], sched[i])
  }

  /** A run that starts where another ends continues it. */
  lemma JoinRuns<S, T>(step: (S, S, T) -> bool, run: seq<S>, sched: seq<T>, run': seq<S>, sched': seq<T>)
    requires Follows(step, run, sched) && Follows(step, run', sched') && run[|run| - 1] == run'[0]
    ensures Follows(step, run + run'[1..], sched + sched')
    ensures (run + run'[1..])[|run| + |run'| - 2] == run'[|run'| - 1]
  {
    var r, c := run + run'[1..], sched + sched';
    forall i | 0 <= i < |c| ensures step(r[i], r[i + 1], c[i]) {
      if i >= |sched| {
        assert step(run'[i - |sched|], run'[i - |sched| + 1], sched'[i - |sched|]);
      }
    }
  }
}
