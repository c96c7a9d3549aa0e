/** The partitioner shared by all four programs: the `baseChunk`/`remainder` loop that
    cuts `[0, N)` into at most `W` contiguous, non-empty work units. */
module Partitioner {

  /** A contiguous slice `[start, start + len)` of the input (`WorkUnit`, `Range`,
      `ChunkInfo` and `ThreadArg` in the programs). */
  datatype WorkUnit = WorkUnit(start: nat, len: nat) {

    /** One past the last index of the unit. */
    function End(): nat {
      start + len
    }

    predicate Contains(i: int) {
      start <= i < start + len
    }
  }

  /** The elements of `a` that unit `u` covers. */
  function Slice<T>(a: seq<T>, u: WorkUnit): seq<T>
    requires u.End() <= |a|
  {
    a[u.start..u.End()]
  }

  function Min(a: nat, b: nat): nat {
    if a <= b then a else b
  }

  /** The effective worker count: `atoi` results below 1 are raised to 1. */
  function ClampWorkers(requested: int): (w: nat)
    ensures w >= 1
    ensures requested >= 1 ==> w == requested
    ensures requested < 1 ==> w == 1
  {
    if requested < 1 then 1 else requested
  }

  /** Length the loop computes for worker `k`: `baseChunk + (k < remainder ? 1 : 0)`. */
  function ChunkLen(n: nat, w: nat, k: nat): nat
    requires w >= 1
  {
    n / w + (if k < n % w then 1 else 0)
  }

  /** Closed form of the running `offset` when the loop reaches worker `k`. */
  function StartOf(n: nat, w: nat, k: nat): nat
    requires w >= 1
  {
    k * (n / w) + (if k < n % w then k else n % w)
  }

  /** The partition loop from worker `k` on, with `offset` already consumed: a unit
      is emitted only when its length is positive. */
  function PartitionFrom(n: nat, w: nat, k: nat, offset: nat): seq<WorkUnit>
    requires 1 <= w && k <= w
    decreases w - k
  {
    if k == w then []
    else
      var len := ChunkLen(n, w, k);
      if len > 0 then [WorkUnit(offset, len)] + PartitionFrom(n, w, k + 1, offset + len)
      else PartitionFrom(n, w, k + 1, offset)
  }

  /** The units the programs create for `N` elements and `W` (already clamped) workers. */
  function Partition(n: nat, w: nat): seq<WorkUnit>
    requires w >= 1
  {
    PartitionFrom(n, w, 0, 0)
  }

  /** `us` cuts `[lo, hi)` into consecutive non-empty units, in increasing order. */
  predicate Tiles(us: seq<WorkUnit>, lo: nat, hi: nat)
    decreases |us|
  {
    if us == [] then lo == hi
    else us[0].start == lo && us[0].len > 0 && Tiles(us[1..], lo + us[0].len, hi)
  }

  /** A worker completion order: every unit index `0 .. count-1` appears exactly once. */
  predicate IsSchedule(order: seq<nat>, count: nat) {
    && |order| == count
    && (forall k :: 0 <= k < |order| ==> order[k] < count)
    && (forall k, l :: 0 <= k < l < |order| ==> order[k] != order[l])
    && (forall i :: 0 <= i < count ==> i in order)
  }

  /** Index `x` lies in one of the units the schedule `order` has run. */
  predicate Covered(units: seq<WorkUnit>, order: seq<nat>, x: int)
    requires forall k :: 0 <= k < |order| ==> order[k] < |units|
  {
    exists k :: 0 <= k < |order| && units[order[k]].Contains(x)
  }

  /** Under a complete schedule, exactly the indices of `[0, N)` are covered. */
  lemma ScheduleCoversAll(n: nat, w: nat, order: seq<nat>, x: int)
    requires w >= 1 && IsSchedule(order, |Partition(n, w)|)
    ensures Covered(Partition(n, w), order, x) <==> 0 <= x < n
  {
    var units := Partition(n, w);
    PartitionCoversExactlyOnce(n, w, x);
    if 0 <= x < n {
      var i :| 0 <= i < |units| && units[i].Contains(x);
      assert i in order;
      var k :| 0 <= k < |order| && order[k] == i;
    }
  }

  /** The identity schedule: units finish in the order they were started. */
  function InOrder(count: nat): (order: seq<nat>)
    ensures IsSchedule(order, count)
  {
    var order := seq(count, i => i);
    assert forall i :: 0 <= i < count ==> order[i] == i;
    assert forall i :: 0 <= i < count ==> i in order by {
      forall i | 0 <= i < count ensures i in order {
        assert order[i] == i;
      }
    }
    order
  }

  function SumLens(us: seq<WorkUnit>): nat
    decreases |us|
  {
    if us == [] then 0 else us[0].len + SumLens(us[1..])
  }

  // ---------------------------------------------------------------------------
  // Arithmetic of the chunk lengths

  lemma DivModFacts(n: nat, w: nat)
    requires w >= 1
    ensures n == w * (n / w) + n % w
    ensures 0 <= n % w < w
    ensures n < w ==> n / w == 0 && n % w == n
    ensures n >= w ==> n / w >= 1
  {
    if n < w {
      assert n / w == 0;
    }
  }

  /** Advancing one worker moves the offset by exactly that worker's chunk length. */
  lemma StartStep(n: nat, w: nat, k: nat)
    requires w >= 1
    ensures StartOf(n, w, k + 1) == StartOf(n, w, k) + ChunkLen(n, w, k)
  {
    assert (k + 1) * (n / w) == k * (n / w) + n / w;
  }

  /** After the last non-empty chunk the offset has reached `N`. */
  lemma StartAtEnd(n: nat, w: nat, k: nat)
    requires w >= 1 && Min(n, w) <= k <= w
    ensures StartOf(n, w, k) == n
  {
    DivModFacts(n, w);
    if n >= w {
      assert k == w;
      assert StartOf(n, w, k) == w * (n / w) + n % w;
    }
  }

  // ---------------------------------------------------------------------------
  // Shape of the partition

  /** Worker `k` gets a non-empty chunk exactly when `k < min(N, W)`. */
  lemma ChunkLenPositive(n: nat, w: nat, k: nat)
    requires w >= 1 && k < w
    ensures ChunkLen(n, w, k) > 0 <==> k < Min(n, w)
  {
    DivModFacts(n, w);
  }

  /** One step of `PartitionFrom` at the closed-form offset. */
  lemma PartitionFromUnfold(n: nat, w: nat, k: nat)
    requires 1 <= w && k < w
    ensures ChunkLen(n, w, k) > 0 ==>
      (PartitionFrom(n, w, k, StartOf(n, w, k))
       == [WorkUnit(StartOf(n, w, k), ChunkLen(n, w, k))] + PartitionFrom(n, w, k + 1, StartOf(n, w, k + 1)))
    ensures ChunkLen(n, w, k) == 0 ==>
      (PartitionFrom(n, w, k, StartOf(n, w, k)) == PartitionFrom(n, w, k + 1, StartOf(n, w, k + 1)))
  {
    StartStep(n, w, k);
  }

  lemma {:induction false} PartitionFromShape(n: nat, w: nat, k: nat)
    requires 1 <= w && k <= w
    ensures var us := PartitionFrom(n, w, k, StartOf(n, w, k));
      && |us| == (if k <= Min(n, w) then Min(n, w) - k else 0)
      && forall i :: 0 <= i < |us| ==>
           us[i] == WorkUnit(StartOf(n, w, k + i), ChunkLen(n, w, k + i)) && us[i].len > 0
    decreases w - k
  {
    if k == w {
      assert Min(n, w) <= w;
    } else {
      PartitionFromUnfold(n, w, k);
      ChunkLenPositive(n, w, k);
      PartitionFromShape(n, w, k + 1);
      var us := PartitionFrom(n, w, k, StartOf(n, w, k));
      var rest := PartitionFrom(n, w, k + 1, StartOf(n, w, k + 1));
      if ChunkLen(n, w, k) > 0 {
        forall i | 0 <= i < |us|
          ensures us[i] == WorkUnit(StartOf(n, w, k + i), ChunkLen(n, w, k + i)) && us[i].len > 0
        {
          if i > 0 {
            assert us[i] == rest[i - 1];
            assert k + 1 + (i - 1) == k + i;
          }
        }
      } else {
        assert us == rest;
      }
    }
  }

  /** Unit `i` is worker `i`'s chunk: it starts at the running offset and has length
      `N/W + (i < N mod W ? 1 : 0)`; exactly `min(W, N)` units survive (none when
      `N = 0`) and none of them is empty. */
  lemma PartitionShape(n: nat, w: nat)
    requires w >= 1
    ensures var us := Partition(n, w);
      && |us| == Min(n, w)
      && (n == 0 ==> us == [])
      && forall i :: 0 <= i < |us| ==>
           && us[i].start == StartOf(n, w, i)
           && us[i].len == ChunkLen(n, w, i)
           && (us[i].len == n / w || us[i].len == n / w + 1)
           && us[i].len > 0
  {
    assert StartOf(n, w, 0) == 0;
    PartitionFromShape(n, w, 0);
  }

  /** The number of units alone: `min(W, N)`. */
  lemma PartitionCount(n: nat, w: nat)
    requires w >= 1
    ensures |Partition(n, w)| == Min(n, w)
  {
    PartitionShape(n, w);
  }

  lemma {:induction false} PartitionFromTiles(n: nat, w: nat, k: nat)
    requires 1 <= w && k <= w
    ensures Tiles(PartitionFrom(n, w, k, StartOf(n, w, k)), StartOf(n, w, k), n)
    decreases w - k
  {
    if k == w {
      StartAtEnd(n, w, k);
    } else {
      StartStep(n, w, k);
      PartitionFromTiles(n, w, k + 1);
    }
  }

  /** The units tile `[0, N)`: they start at offset 0, each begins where the previous
      one ends, none is empty, and the last one ends at `N`. */
  lemma PartitionTiles(n: nat, w: nat)
    requires w >= 1
    ensures Tiles(Partition(n, w), 0, n)
  {
    PartitionFromTiles(n, w, 0);
  }

  // ---------------------------------------------------------------------------
  // Consequences of tiling

  lemma {:induction false} TilesSum(us: seq<WorkUnit>, lo: nat, hi: nat)
    requires Tiles(us, lo, hi)
    ensures lo + SumLens(us) == hi
    decreases |us|
  {
    if us != [] {
      TilesSum(us[1..], lo + us[0].len, hi);
    }
  }

  /** Tiling units are non-empty, inside `[lo, hi)`, and ordered without overlap. */
  lemma {:induction false} TilesOrdered(us: seq<WorkUnit>, lo: nat, hi: nat)
    requires Tiles(us, lo, hi)
    ensures lo <= hi
    ensures forall i :: 0 <= i < |us| ==> lo <= us[i].start && us[i].End() <= hi && us[i].len > 0
    ensures forall i, j :: 0 <= i < j < |us| ==> us[i].End() <= us[j].start
    decreases |us|
  {
    if us != [] {
      var rest := us[1..];
      TilesOrdered(rest, lo + us[0].len, hi);
      assert forall i :: 1 <= i < |us| ==> us[i] == rest[i - 1];
    }
  }

  lemma {:induction false} TilesCover(us: seq<WorkUnit>, lo: nat, hi: nat, x: int)
    requires Tiles(us, lo, hi) && lo <= x < hi
    ensures exists i :: 0 <= i < |us| && us[i].Contains(x)
    decreases |us|
  {
    if !us[0].Contains(x) {
      TilesCover(us[1..], lo + us[0].len, hi, x);
      var i :| 0 <= i < |us[1..]| && us[1..][i].Contains(x);
      assert us[i + 1].Contains(x);
    }
  }

  /** Every unit lies inside the input and is non-empty. */
  lemma PartitionBounds(n: nat, w: nat)
    requires w >= 1
    ensures forall i :: 0 <= i < |Partition(n, w)| ==>
      Partition(n, w)[i].End() <= n && Partition(n, w)[i].len > 0
  {
    PartitionTiles(n, w);
    TilesOrdered(Partition(n, w), 0, n);
  }

  /** Every index of `[0, N)` lies in exactly one unit and no unit reaches past `N`;
      the lengths add up to `N`. */
  lemma PartitionCoversExactlyOnce(n: nat, w: nat, x: int)
    requires w >= 1
    ensures var us := Partition(n, w);
      && SumLens(us) == n
      && (forall i :: 0 <= i < |us| ==> us[i].End() <= n)
      && (0 <= x < n <==> exists i :: 0 <= i < |us| && us[i].Contains(x))
      && forall i, j :: 0 <= i < |us| && 0 <= j < |us| && us[i].Contains(x) && us[j].Contains(x) ==> i == j
  {
    var us := Partition(n, w);
    PartitionTiles(n, w);
    TilesSum(us, 0, n);
    TilesOrdered(us, 0, n);
    if 0 <= x < n {
      TilesCover(us, 0, n, x);
    }
  }

  // ---------------------------------------------------------------------------
  // The loop as written

  /** The partition loop of the programs, run on the clamped worker count: returns
      the units and `chunkCount`. */
  method PartitionLoop(n: nat, requested: int) returns (units: seq<WorkUnit>, chunkCount: nat)
    ensures units == Partition(n, ClampWorkers(requested))
    ensures chunkCount == |units| == Min(n, ClampWorkers(requested))
    ensures Tiles(units, 0, n)
    ensures forall i :: 0 <= i < |units| ==>
      units[i] == WorkUnit(StartOf(n, ClampWorkers(requested), i), ChunkLen(n, ClampWorkers(requested), i))
  {
    var w := ClampWorkers(requested);
    var baseChunk, remainder := n / w, n % w;
    var offset := 0;
    units, chunkCount := [], 0;
    var k := 0;
    while k < w
      invariant 0 <= k <= w
      invariant chunkCount == |units|
      invariant units + PartitionFrom(n, w, k, offset) == Partition(n, w)
    {
      var len := baseChunk + (if k < remainder then 1 else 0);
      PartitionLoopStep(n, w, k, offset, units, len);
      if len > 0 {
        units := units + [WorkUnit(offset, len)];
        chunkCount := chunkCount + 1;
        offset := offset + len;
      }
      k := k + 1;
    }
    assert units == Partition(n, w);
    PartitionFacts(n, w);
  }

  /** One turn of the loop: emitting worker `k`'s unit (when non-empty) keeps the
      emitted units a prefix of the partition. */
  lemma PartitionLoopStep(n: nat, w: nat, k: nat, offset: nat, units: seq<WorkUnit>, len: nat)
    requires 1 <= w && k < w && len == ChunkLen(n, w, k)
    requires units + PartitionFrom(n, w, k, offset) == Partition(n, w)
    ensures len > 0 ==> (units + [WorkUnit(offset, len)]) + PartitionFrom(n, w, k + 1, offset + len) == Partition(n, w)
    ensures len == 0 ==> units + PartitionFrom(n, w, k + 1, offset) == Partition(n, w)
  {
    if len > 0 {
      assert PartitionFrom(n, w, k, offset) == [WorkUnit(offset, len)] + PartitionFrom(n, w, k + 1, offset + len);
      assert (units + [WorkUnit(offset, len)]) + PartitionFrom(n, w, k + 1, offset + len)
        == units + ([WorkUnit(offset, len)] + PartitionFrom(n, w, k + 1, offset + len));
    }
  }

  /** The facts about the partition that the loop's caller relies on. */
  lemma PartitionFacts(n: nat, w: nat)
    requires w >= 1
    ensures |Partition(n, w)| == Min(n, w)
    ensures Tiles(Partition(n, w), 0, n)
    ensures forall i :: 0 <= i < |Partition(n, w)| ==>
      Partition(n, w)[i] == WorkUnit(StartOf(n, w, i), ChunkLen(n, w, i))
  {
    PartitionShape(n, w);
    PartitionTiles(n, w);
  }
}
