/** The max pipeline of `process_max.c` and `thread_max.c`: every worker takes the
    maximum of its unit and folds it into a shared aggregate that starts at `INT_MIN`
    and is only ever raised. Workers finish in an arbitrary order, modelled as a
    schedule: the aggregate is folded over the units in that order. */
module MaxReduce {
  import opened CTypes
  import opened Partitioner

  function Max(a: int, b: int): int {
    if a >= b then a else b
  }

  /** Reference maximum of a non-empty sequence: the sequential scan the parallel
      result is compared with. */
  function SeqMax(s: seq<int>): (m: int)
    requires |s| > 0
    ensures m in s
    ensures forall x :: x in s ==> x <= m
  {
    if |s| == 1 then s[0]
    else
      assert s == [s[0]] + s[1..];
      Max(s[0], SeqMax(s[1..]))
  }

  /** A value of `s` that bounds all of `s` is its maximum. */
  lemma MaxUnique(s: seq<int>, m: int)
    requires |s| > 0 && m in s
    requires forall x :: x in s ==> x <= m
    ensures m == SeqMax(s)
  {
  }

  /** The guarded update `if (localMax > agg) agg = localMax`: the aggregate becomes the
      larger of the two and never decreases. */
  function Offer(agg: int, candidate: int): (r: int)
    ensures r >= agg && r >= candidate
    ensures r == agg || r == candidate
  {
    if candidate > agg then candidate else agg
  }

  /** The local-max loop of a worker: start from the first element of the unit and
      keep the larger value while scanning the rest. */
  method LocalMax(data: seq<CInt>, start: nat, len: nat) returns (localMax: CInt)
    requires len > 0 && start + len <= |data|
    ensures exists m :: start <= m < start + len && localMax == data[m]
    ensures forall m :: start <= m < start + len ==> data[m] <= localMax
  {
    localMax := data[start];
    var k := 1;
    while k < len
      invariant 1 <= k <= len
      invariant exists m :: start <= m < start + k && localMax == data[m]
      invariant forall m :: start <= m < start + k ==> data[m] <= localMax
    {
      var v := data[start + k];
      if v > localMax {
        localMax := v;
      }
      k := k + 1;
    }
  }

  /** What one worker does to the aggregate: an empty unit leaves it alone; otherwise
      the unit's maximum is offered. */
  function WorkerStep(agg: int, data: seq<CInt>, u: WorkUnit): (r: int)
    requires u.End() <= |data|
    ensures r >= agg
    ensures u.len == 0 ==> r == agg
    ensures forall m :: u.Contains(m) ==> data[m] <= r
    ensures r == agg || exists m :: u.Contains(m) && r == data[m]
  {
    if u.len == 0 then agg
    else
      var s := Slice(data, u);
      var m := SeqMax(s);
      assert forall k :: u.Contains(k) ==> data[k] == s[k - u.start];
      assert forall k :: u.Contains(k) ==> data[k] <= m by {
        forall k | u.Contains(k) ensures data[k] <= m {
          assert s[k - u.start] in s;
        }
      }
      assert exists k :: u.Contains(k) && m == data[k] by {
        var i :| 0 <= i < |s| && s[i] == m;
        assert u.Contains(u.start + i);
      }
      Offer(agg, m)
  }

  /** `workerFindMax` (and the child branch of `process_max.c`) as written: return
      early on an empty range, compute the local maximum, then raise the aggregate
      under the lock if the local maximum is larger. */
  method WorkerFindMax(agg: int, data: seq<CInt>, u: WorkUnit) returns (newAgg: int)
    requires u.End() <= |data|
    ensures newAgg == WorkerStep(agg, data, u)
    ensures u.len == 0 ==> newAgg == agg
    ensures u.len > 0 ==> newAgg == Max(agg, SeqMax(Slice(data, u)))
  {
    if u.len == 0 {
      return agg;
    }
    var localMax := LocalMax(data, u.start, u.len);
    var s := Slice(data, u);
    assert forall k :: u.Contains(k) ==> data[k] == s[k - u.start];
    assert localMax in s by {
      var m :| u.start <= m < u.End() && localMax == data[m];
      assert s[m - u.start] == localMax;
    }
    MaxUnique(s, localMax);
    newAgg := agg;
    if localMax > newAgg {
      newAgg := localMax;
    }
  }

  /** All workers applying their update in the order `order` (a unit index per
      completed worker), starting from aggregate `agg`. */
  function RunWorkers(agg: int, data: seq<CInt>, units: seq<WorkUnit>, order: seq<nat>): int
    requires forall k :: 0 <= k < |order| ==> order[k] < |units|
    requires forall i :: 0 <= i < |units| ==> units[i].End() <= |data|
    decreases |order|
  {
    if order == [] then agg
    else RunWorkers(WorkerStep(agg, data, units[order[0]]), data, units, order[1..])
  }

  /** Whatever the order, the final aggregate is at least the initial one, bounds every
      covered element, and is either the initial value or one of the covered
      elements. */
  lemma {:induction false} RunWorkersBounds(agg: int, data: seq<CInt>, units: seq<WorkUnit>, order: seq<nat>)
    requires forall k :: 0 <= k < |order| ==> order[k] < |units|
    requires forall i :: 0 <= i < |units| ==> units[i].End() <= |data|
    ensures RunWorkers(agg, data, units, order) >= agg
    ensures forall x :: 0 <= x < |data| && Covered(units, order, x) ==> data[x] <= RunWorkers(agg, data, units, order)
    ensures var r := RunWorkers(agg, data, units, order);
      r == agg || exists x :: 0 <= x < |data| && Covered(units, order, x) && r == data[x]
    decreases |order|
  {
    if order != [] {
      var u := units[order[0]];
      var agg' := WorkerStep(agg, data, u);
      var rest := order[1..];
      RunWorkersBounds(agg', data, units, rest);
      var r := RunWorkers(agg', data, units, rest);
      forall x | 0 <= x < |data| && Covered(units, order, x) ensures data[x] <= r {
        var k :| 0 <= k < |order| && units[order[k]].Contains(x);
        if k > 0 {
          assert rest[k - 1] == order[k];
          assert Covered(units, rest, x);
        }
      }
      if r != agg {
        if r == agg' {
          var m :| u.Contains(m) && agg' == data[m];
          assert Covered(units, order, m);
        } else {
          var x :| 0 <= x < |data| && Covered(units, rest, x) && r == data[x];
          var k :| 0 <= k < |rest| && units[rest[k]].Contains(x);
          assert order[k + 1] == rest[k];
          assert Covered(units, order, x);
        }
      }
    }
  }

  /** The report of one max run: the number of workers started and the aggregate read
      after all of them finished. */
  datatype MaxReport = MaxReport(workers: nat, globalMax: int)

  /** The whole max program on input `data`: clamp the worker count, partition, start
      one worker per unit from an aggregate of `INT_MIN`, and let them finish in the
      order `order`. */
  function MaxPipeline(data: seq<CInt>, requested: int, order: seq<nat>): MaxReport
    requires IsSchedule(order, |Partition(|data|, ClampWorkers(requested))|)
  {
    var units := Partition(|data|, ClampWorkers(requested));
    PartitionBounds(|data|, ClampWorkers(requested));
    MaxReport(|units|, RunWorkers(INT_MIN, data, units, order))
  }

  /** The max programs are correct: `min(W, N)` workers run and, for any completion
      order, the aggregate is the maximum of the whole input; for an empty input no
      worker runs and `INT_MIN` is reported. */
  lemma MaxPipelineCorrect(data: seq<CInt>, requested: int, order: seq<nat>)
    requires IsSchedule(order, |Partition(|data|, ClampWorkers(requested))|)
    ensures MaxPipeline(data, requested, order).workers == Min(|data|, ClampWorkers(requested))
    ensures |data| == 0 ==> MaxPipeline(data, requested, order) == MaxReport(0, INT_MIN)
    ensures |data| > 0 ==> MaxPipeline(data, requested, order).globalMax == SeqMax(data)
  {
    var n, w := |data|, ClampWorkers(requested);
    PartitionCount(n, w);
    if n > 0 {
      FullRunIsMax(data, requested, order);
    }
  }

  /** With every unit run, the aggregate started at `INT_MIN` ends at the maximum. */
  lemma FullRunIsMax(data: seq<CInt>, requested: int, order: seq<nat>)
    requires |data| > 0
    requires IsSchedule(order, |Partition(|data|, ClampWorkers(requested))|)
    ensures MaxPipeline(data, requested, order).globalMax == SeqMax(data)
  {
    var n, w := |data|, ClampWorkers(requested);
    var units := Partition(n, w);
    PartitionBounds(n, w);
    forall x | 0 <= x < n ensures Covered(units, order, x) {
      ScheduleCoversAll(n, w, order, x);
    }
    CoveringRunIsMax(data, units, order);
  }

  /** When the units run cover every index, the aggregate started at `INT_MIN` ends
      at the maximum of the input. */
  lemma CoveringRunIsMax(data: seq<CInt>, units: seq<WorkUnit>, order: seq<nat>)
    requires |data| > 0
    requires forall k :: 0 <= k < |order| ==> order[k] < |units|
    requires forall i :: 0 <= i < |units| ==> units[i].End() <= |data|
    requires forall x :: 0 <= x < |data| ==> Covered(units, order, x)
    ensures RunWorkers(INT_MIN, data, units, order) == SeqMax(data)
  {
    RunWorkersBounds(INT_MIN, data, units, order);
    var r := RunWorkers(INT_MIN, data, units, order);
    forall v | v in data ensures v <= r {
      var x :| 0 <= x < |data| && data[x] == v;
    }
    if r == INT_MIN {
      assert data[0] <= r;
    }
    assert r in data;
    MaxUnique(data, r);
  }

  /** The reported maximum depends neither on the worker count nor on the order in
      which workers finish. */
  lemma MaxIndependentOfWorkers(data: seq<CInt>, requested1: int, order1: seq<nat>, requested2: int, order2: seq<nat>)
    requires IsSchedule(order1, |Partition(|data|, ClampWorkers(requested1))|)
    requires IsSchedule(order2, |Partition(|data|, ClampWorkers(requested2))|)
    ensures MaxPipeline(data, requested1, order1).globalMax == MaxPipeline(data, requested2, order2).globalMax
  {
    MaxPipelineCorrect(data, requested1, order1);
    MaxPipelineCorrect(data, requested2, order2);
  }
}
