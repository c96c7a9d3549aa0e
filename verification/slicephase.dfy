/**
 * The worker phase of the sort programs, for any in-place slice transform:
 * every worker rewrites its own unit of the shared array and nothing else,
 * and the workers may finish in any order. Because the units are disjoint,
 * the order does not matter: afterwards each unit holds the transform of
 * what it held before.
 */
module SlicePhase {
  import opened Partitioner

  /** The transform gives back as many elements as it was handed. */
  ghost predicate KeepsLength<T(!new)>(f: seq<T> -> seq<T>) {
    forall s :: |f(s)| == |s|
  }

  /** Every unit lies inside an array of length `n`. */
  predicate InBounds(units: seq<WorkUnit>, n: nat) {
    forall i :: 0 <= i < |units| ==> units[i].End() <= n
  }

  /** Every entry of `order` names a unit. */
  predicate NamesUnits(order: seq<nat>, count: nat) {
    forall k :: 0 <= k < |order| ==> order[k] < count
  }

  /** The units are pairwise disjoint. */
  predicate Disjoint(units: seq<WorkUnit>) {
    forall i, j :: 0 <= i < |units| && 0 <= j < |units| && i != j ==>
      units[i].End() <= units[j].start || units[j].End() <= units[i].start
  }

  /** The order indices are pairwise distinct. */
  predicate Distinct(order: seq<nat>) {
    forall k, l :: 0 <= k < l < |order| ==> order[k] != order[l]
  }

  /** One worker rewriting its unit of the shared array in place. */
  function UpdateUnit<T(!new)>(a: seq<T>, u: WorkUnit, f: seq<T> -> seq<T>): (r: seq<T>)
    requires u.End() <= |a| && KeepsLength(f)
    ensures |r| == |a|
    ensures forall x :: 0 <= x < |a| && !u.Contains(x) ==> r[x] == a[x]
    ensures Slice(r, u) == f(Slice(a, u))
  {
    var piece := f(Slice(a, u));
    var r := a[..u.start] + piece + a[u.End()..];
    assert Slice(r, u) == piece;
    r
  }

  /** Rewriting one unit leaves a disjoint unit's slice as it was. */
  lemma UpdateLeavesOtherUnit<T(!new)>(a: seq<T>, u: WorkUnit, v: WorkUnit, f: seq<T> -> seq<T>)
    requires u.End() <= |a| && v.End() <= |a| && KeepsLength(f)
    requires u.End() <= v.start || v.End() <= u.start
    ensures Slice(UpdateUnit(a, u, f), v) == Slice(a, v)
  {
    var r := UpdateUnit(a, u, f);
    forall x | v.start <= x < v.End() ensures r[x] == a[x] {
      assert !u.Contains(x);
    }
  }

  /** The whole phase: the workers rewrite their units in the order `order`. */
  function RunPhase<T(!new)>(a: seq<T>, units: seq<WorkUnit>, order: seq<nat>, f: seq<T> -> seq<T>): (r: seq<T>)
    requires NamesUnits(order, |units|) && InBounds(units, |a|) && KeepsLength(f)
    ensures |r| == |a|
    decreases |order|
  {
    if order == [] then a
    else RunPhase(UpdateUnit(a, units[order[0]], f), units, order[1..], f)
  }

  /** An index no scheduled unit covers keeps its value. */
  lemma {:induction false} RunPhaseUntouched<T(!new)>(a: seq<T>, units: seq<WorkUnit>, order: seq<nat>, f: seq<T> -> seq<T>, x: int)
    requires NamesUnits(order, |units|) && InBounds(units, |a|) && KeepsLength(f)
    requires 0 <= x < |a| && !Covered(units, order, x)
    ensures RunPhase(a, units, order, f)[x] == a[x]
    decreases |order|
  {
    if order != [] {
      var rest := order[1..];
      assert !units[order[0]].Contains(x);
      RunPhaseUntouched(UpdateUnit(a, units[order[0]], f), units, rest, f, x);
    }
  }

  /** The unit run first is not covered by any unit run after it. */
  lemma NotCoveredByOthers(units: seq<WorkUnit>, order: seq<nat>, x: int)
    requires NamesUnits(order, |units|)
    requires Disjoint(units) && Distinct(order)
    requires order != [] && units[order[0]].Contains(x)
    ensures !Covered(units, order[1..], x)
  {
  }

  /** An index of the unit run first keeps the value that unit's rewrite gave it. */
  lemma FirstUnitIndexKept<T(!new)>(a': seq<T>, units: seq<WorkUnit>, order: seq<nat>, f: seq<T> -> seq<T>, x: int)
    requires NamesUnits(order, |units|) && InBounds(units, |a'|) && KeepsLength(f)
    requires Disjoint(units) && Distinct(order) && order != []
    requires units[order[0]].Contains(x)
    ensures RunPhase(a', units, order[1..], f)[x] == a'[x]
  {
    NotCoveredByOthers(units, order, x);
    RunPhaseUntouched(a', units, order[1..], f, x);
  }

  /** The first unit's slice is not touched again by the workers after it. */
  lemma FirstUnitKeepsItsResult<T(!new)>(a: seq<T>, units: seq<WorkUnit>, order: seq<nat>, f: seq<T> -> seq<T>)
    requires NamesUnits(order, |units|) && InBounds(units, |a|) && KeepsLength(f)
    requires Disjoint(units) && Distinct(order) && order != []
    ensures Slice(RunPhase(a, units, order, f), units[order[0]]) == f(Slice(a, units[order[0]]))
  {
    var u := units[order[0]];
    var a' := UpdateUnit(a, u, f);
    var r := RunPhase(a', units, order[1..], f);
    assert r == RunPhase(a, units, order, f);
    forall x | u.start <= x < u.End() ensures r[x] == a'[x] {
      FirstUnitIndexKept(a', units, order, f, x);
    }
    assert Slice(r, u) == Slice(a', u);
  }

  /**
   * Each worker touches only its own slice: after the phase, the slice of
   * every unit that ran is the transform of its original contents, whatever
   * the order the workers ran in.
   */
  lemma {:induction false} RunPhaseSlice<T(!new)>(a: seq<T>, units: seq<WorkUnit>, order: seq<nat>, f: seq<T> -> seq<T>, k: nat)
    requires NamesUnits(order, |units|) && InBounds(units, |a|) && KeepsLength(f)
    requires Disjoint(units) && Distinct(order)
    requires k < |order|
    ensures Slice(RunPhase(a, units, order, f), units[order[k]]) == f(Slice(a, units[order[k]]))
    decreases |order|
  {
    if k == 0 {
      FirstUnitKeepsItsResult(a, units, order, f);
    } else {
      var u := units[order[0]];
      var v := units[order[k]];
      var a' := UpdateUnit(a, u, f);
      var rest := order[1..];
      assert RunPhase(a', units, rest, f) == RunPhase(a, units, order, f);
      assert rest[k - 1] == order[k];
      assert order[0] != order[k];
      RunPhaseSlice(a', units, rest, f, k - 1);
      UpdateLeavesOtherUnit(a, u, v, f);
    }
  }
}
