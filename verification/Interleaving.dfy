/** Messages that are sent in several packages, whose packages arrive interleaved at a
    receiver. */
module Interleaving {
  import opened Wrappers

  datatype Step<S, O> = Step(state: S, outcome: Option<O>)

  /** `order` says whose package comes next; `p` counts those that came. */
  ghost predicate Order<T>(packs: seq<seq<T>>, p: seq<nat>, order: seq<nat>)
    requires |p| == |packs|
    decreases |order|
  {
    order == [] ||
    (var k := order[0];
     k < |packs| && p[k] < |packs[k]| && Order(packs, p[k := p[k] + 1], order[1..]))
  }

  /** The packages as they arrive. */
  ghost function Arrivals<T>(packs: seq<seq<T>>, p: seq<nat>, order: seq<nat>): (ts: seq<T>)
    requires |p| == |packs| && Order(packs, p, order)
    ensures |ts| == |order|
    decreases |order|
  {
    if order == [] then []
    else
      var k := order[0];
      [packs[k][p[k]]] + Arrivals(packs, p[k := p[k] + 1], order[1..])
  }

  /** Whose last packages arrive, in that order. */
  ghost function Finishers<T>(packs: seq<seq<T>>, p: seq<nat>, order: seq<nat>): (ks: seq<nat>)
    requires |p| == |packs| && Order(packs, p, order)
    ensures forall i :: 0 <= i < |ks| ==> ks[i] < |packs|
    decreases |order|
  {
    if order == [] then []
    else
      var k := order[0];
      (if p[k] + 1 == |packs[k]| then [k] else []) + Finishers(packs, p[k := p[k] + 1], order[1..])
  }

  /** No package has come yet. */
  function NoneYet(n: nat): (p: seq<nat>)
    ensures |p| == n && forall i :: 0 <= i < n ==> p[i] == 0
  {
    seq(n, _ => 0)
  }

  /** How often `k` occurs. */
  function Times(ks: seq<nat>, k: nat): nat {
    if ks == [] then 0 else (if ks[0] == k then 1 else 0) + Times(ks[1..], k)
  }

  lemma TimesFirst(j: nat, ks: seq<nat>, k: nat)
    ensures Times([j] + ks, k) == (if j == k then 1 else 0) + Times(ks, k)
  {
    assert ([j] + ks)[1..] == ks;
  }

  /** One message finishes with this package, or none. */
  lemma FinisherTimes<T>(packs: seq<seq<T>>, p: seq<nat>, order: seq<nat>, k: nat)
    requires |p| == |packs| && Order(packs, p, order) && order != []
    ensures var j := order[0]; var rest := Finishers(packs, p[j := p[j] + 1], order[1..]);
            Times(Finishers(packs, p, order), k) ==
            (if j == k && p[j] + 1 == |packs[j]| then 1 else 0) + Times(rest, k)
  {
    var j := order[0];
    var rest := Finishers(packs, p[j := p[j] + 1], order[1..]);
    if p[j] + 1 == |packs[j]| {
      TimesFirst(j, rest, k);
    } else {
      assert Finishers(packs, p, order) == rest;
    }
  }

  /** A message is among them once if all its packages arrive, and otherwise not. */
  lemma {:induction false} ExactlyOnce<T>(packs: seq<seq<T>>, p: seq<nat>, order: seq<nat>, k: nat)
    requires |p| == |packs| && Order(packs, p, order) && k < |packs| && p[k] <= |packs[k]|
    ensures p[k] + Times(order, k) <= |packs[k]|
    ensures Times(Finishers(packs, p, order), k) ==
            if p[k] < |packs[k]| == p[k] + Times(order, k) then 1 else 0
    decreases |order|
  {
    if order != [] {
      var j := order[0];
      var p' := p[j := p[j] + 1];
      ExactlyOnce(packs, p', order[1..], k);
      FinisherTimes(packs, p, order, k);
      assert Times(order, k) == (if j == k then 1 else 0) + Times(order[1..], k);
    }
  }

  /** Every package is let through when it arrives. */
  ghost predicate Admitted(free: (seq<nat>, nat) -> bool, p: seq<nat>, order: seq<nat>)
    decreases |order|
  {
    order == [] ||
    (var k := order[0];
     k < |p| && free(p, k) && Admitted(free, p[k := p[k] + 1], order[1..]))
  }

  /** What the receiver says on the way. */
  function Results<S, T, O>(recv: (S, T) -> Step<S, O>, s: S, ts: seq<T>): seq<O>
    decreases |ts|
  {
    if ts == [] then []
    else
      var st := recv(s, ts[0]);
      (if st.outcome.None? then [] else [st.outcome.value]) + Results(recv, st.state, ts[1..])
  }

  function Each<O>(out: nat -> O, ks: seq<nat>): seq<O> {
    seq(|ks|, i requires 0 <= i < |ks| => out(ks[i]))
  }

  /** A package that is let through keeps `good`, and the receiver says something
      exactly at the last package of a message. */
  ghost predicate Advances<S(!new), T, O>(recv: (S, T) -> Step<S, O>, packs: seq<seq<T>>, out: nat -> O,
                                          free: (seq<nat>, nat) -> bool, good: (seq<nat>, S) -> bool)
  {
    forall p: seq<nat>, s: S, k: nat {:trigger good(p, s), free(p, k)} ::
      |p| == |packs| && k < |packs| && p[k] < |packs[k]| && good(p, s) && free(p, k) ==>
        var st := recv(s, packs[k][p[k]]);
        && good(p[k := p[k] + 1], st.state)
        && st.outcome == if p[k] + 1 == |packs[k]| then Some(out(k)) else None
  }

  lemma ResultsStep<S, T, O>(recv: (S, T) -> Step<S, O>, s: S, t: T, ts: seq<T>)
    ensures var st := recv(s, t);
            Results(recv, s, [t] + ts) ==
            (if st.outcome.None? then [] else [st.outcome.value]) + Results(recv, st.state, ts)
  {
    assert ([t] + ts)[1..] == ts;
  }

  lemma EachAppend<O>(out: nat -> O, a: seq<nat>, b: seq<nat>)
    ensures Each(out, a + b) == Each(out, a) + Each(out, b)
  {
  }

  /** However the packages are interleaved, the receiver says what it should of exactly
      the messages whose packages all arrive, each at its last package. */
  lemma {:induction false} Interleaved<S(!new), T, O>(
    recv: (S, T) -> Step<S, O>, packs: seq<seq<T>>, out: nat -> O, free: (seq<nat>, nat) -> bool,
    good: (seq<nat>, S) -> bool, p: seq<nat>, order: seq<nat>, s: S)
    requires |p| == |packs| && Order(packs, p, order) && Admitted(free, p, order)
    requires Advances(recv, packs, out, free, good) && good(p, s)
    ensures Results(recv, s, Arrivals(packs, p, order)) == Each(out, Finishers(packs, p, order))
    decreases |order|
  {
    if order != [] {
      var k := order[0];
      var p' := p[k := p[k] + 1];
      var st := recv(s, packs[k][p[k]]);
      Interleaved(recv, packs, out, free, good, p', order[1..], st.state);
      ResultsStep(recv, s, packs[k][p[k]], Arrivals(packs, p', order[1..]));
      EachAppend(out, if p[k] + 1 == |packs[k]| then [k] else [], Finishers(packs, p', order[1..]));
    }
  }
}
