/** The sort pipeline of `process_sort.c` and `thread_sort.c`: every worker sorts its
    own unit of the array in place with `qsort`, then the parent merges the sorted
    units left to right. */
module SortPipeline {
  import opened CTypes
  import opened Optional
  import opened Partitioner
  import opened MergeCombiner
  import opened SlicePhase

  /** The programs merge and sort `int`s by their own value. */
  function Id(x: int): int {
    x
  }

  /** Non-decreasing: sorted by the merge's order with each value as its own key. */
  predicate Sorted(s: seq<int>) {
    SortedBy(s, Id)
  }

  /** Sorted integers are exactly the non-decreasing sequences. */
  lemma SortedById(s: seq<int>)
    ensures Sorted(s) <==> forall i, j :: 0 <= i < j < |s| ==> s[i] <= s[j]
  {
    if Sorted(s) {
      forall i, j | 0 <= i < j < |s| ensures s[i] <= s[j] {
        assert Id(s[i]) <= Id(s[j]);
      }
    }
  }

  /** `qsort` with `intCompare` orders the slice exactly by the comparator's sign:
      a slice is in comparator order iff it is non-decreasing. */
  lemma ComparatorOrderIsSorted(s: seq<CInt>)
    ensures (forall i, j :: 0 <= i < j < |s| ==> IntCompare(s[i], s[j]) <= 0) <==> Sorted(s)
  {
  }

  /** Reference sort (insertion by merging a singleton): the sorted permutation that
      `qsort`'s contract describes. */
  function SortedVersion(s: seq<int>): (r: seq<int>)
    ensures Sorted(r)
    ensures multiset(r) == multiset(s)
    decreases |s|
  {
    if s == [] then []
    else
      var rest := SortedVersion(s[1..]);
      SortedById([s[0]]);
      SortedById(rest);
      MergeFacts([s[0]], rest, Id);
      SortedById(Merge([s[0]], rest, Id));
      assert s == [s[0]] + s[1..];
      Merge([s[0]], rest, Id)
  }

  /** The head of a sorted sequence is its least element. */
  lemma SortedHeadIsLeast(x: seq<int>)
    requires Sorted(x) && x != []
    ensures forall v :: v in multiset(x) ==> x[0] <= v
  {
    forall v | v in multiset(x) ensures x[0] <= v {
      var i :| 0 <= i < |x| && x[i] == v;
    }
  }

  /** Two sorted arrangements of one multiset start with the same (least) element. */
  lemma SameHeadElement(x: seq<int>, y: seq<int>)
    requires Sorted(x) && Sorted(y) && x != []
    requires multiset(x) == multiset(y)
    ensures y != [] && x[0] == y[0]
  {
    assert |multiset(y)| == |x|;
    assert x[0] in multiset(x);
    assert y[0] in multiset(y);
    SortedHeadIsLeast(x);
    SortedHeadIsLeast(y);
  }

  /** Dropping the head removes one copy of it from the multiset. */
  lemma TailMultiset(x: seq<int>)
    requires x != []
    ensures multiset(x[1..]) == multiset(x) - multiset{x[0]}
  {
    assert x == [x[0]] + x[1..];
  }

  /** Two sorted arrangements of one multiset start alike and continue with equal
      multisets. */
  lemma SameHead(x: seq<int>, y: seq<int>)
    requires Sorted(x) && Sorted(y) && x != []
    requires multiset(x) == multiset(y)
    ensures y != [] && x[0] == y[0]
    ensures multiset(x[1..]) == multiset(y[1..])
  {
    SameHeadElement(x, y);
    TailMultiset(x);
    TailMultiset(y);
  }

  /** A multiset has exactly one sorted arrangement. */
  lemma {:induction false} SortedUnique(x: seq<int>, y: seq<int>)
    requires Sorted(x) && Sorted(y)
    requires multiset(x) == multiset(y)
    ensures x == y
    decreases |x|
  {
    if x == [] {
      assert |multiset(y)| == 0;
    } else {
      SameHead(x, y);
      SortedUnique(x[1..], y[1..]);
      assert x == [x[0]] + x[1..] && y == [y[0]] + y[1..];
    }
  }

  /** What a worker does to its slice: slices of length 0 or 1 are left as they are,
      longer ones are handed to `qsort`, which makes them a sorted permutation of
      themselves. */
  function ThreadSort(s: seq<int>): (r: seq<int>)
    ensures Sorted(r)
    ensures multiset(r) == multiset(s)
    ensures |s| <= 1 ==> r == s
  {
    if |s| > 1 then SortedVersion(s) else s
  }

  /** `qsort` is specified by its contract alone, and that contract pins the result
      down: any sorted permutation of the slice is the one `ThreadSort` gives. */
  lemma QsortContractDeterminesResult(s: seq<int>, r: seq<int>)
    requires Sorted(r) && multiset(r) == multiset(s)
    ensures r == ThreadSort(s)
  {
    SortedUnique(r, ThreadSort(s));
  }

  /** A worker's sort gives back as many elements as it was handed. */
  lemma ThreadSortKeepsLength()
    ensures KeepsLength(ThreadSort)
  {
    forall s ensures |ThreadSort(s)| == |s| {
      assert |multiset(ThreadSort(s))| == |multiset(s)|;
    }
  }

  /** The sort phase: the workers sort their units in place, in the order `order`. */
  function SortPhase(a: seq<int>, units: seq<WorkUnit>, order: seq<nat>): seq<int>
    requires NamesUnits(order, |units|) && InBounds(units, |a|)
  {
    ThreadSortKeepsLength();
    RunPhase(a, units, order, ThreadSort)
  }

  // ---------------------------------------------------------------------------
  // Combine phase and the whole program

  /** The chunks handed to `mergeAll`: unit `c`'s slice of the array. */
  function Slices(a: seq<int>, units: seq<WorkUnit>): seq<seq<int>>
    requires forall i :: 0 <= i < |units| ==> units[i].End() <= |a|
  {
    seq(|units|, c requires 0 <= c < |units| => Slice(a, units[c]))
  }

  /** The slices of a tiling, laid end to end, give back the tiled range. */
  lemma {:induction false} ConcatSlices(a: seq<int>, us: seq<WorkUnit>, lo: nat, hi: nat)
    requires Tiles(us, lo, hi) && lo <= hi <= |a|
    requires forall i :: 0 <= i < |us| ==> us[i].End() <= |a|
    ensures Concat(Slices(a, us)) == a[lo..hi]
    decreases |us|
  {
    TilesOrdered(us, lo, hi);
    if us != [] {
      var mid := lo + us[0].len;
      ConcatSlices(a, us[1..], mid, hi);
      assert Slices(a, us) == [a[lo..mid]] + Slices(a, us[1..]);
      assert a[lo..hi] == a[lo..mid] + a[mid..hi];
    }
  }

  /** Chunk-wise permutations concatenate to a permutation. */
  lemma {:induction false} ConcatPermutation(cs: seq<seq<int>>, ds: seq<seq<int>>)
    requires |cs| == |ds|
    requires forall c :: 0 <= c < |cs| ==> multiset(cs[c]) == multiset(ds[c])
    ensures multiset(Concat(cs)) == multiset(Concat(ds))
    decreases |cs|
  {
    if cs != [] {
      ConcatPermutation(cs[1..], ds[1..]);
    }
  }

  /** After a complete sort phase, every chunk is the sorted version of the input's
      chunk at the same place. */
  lemma SortedChunks(data: seq<int>, w: nat, order: seq<nat>)
    requires w >= 1 && IsSchedule(order, |Partition(|data|, w)|)
    ensures PartitionBoundsHold(data, w)
    ensures var units := Partition(|data|, w);
      forall c :: 0 <= c < |units| ==>
        Slices(SortPhase(data, units, order), units)[c] == ThreadSort(Slices(data, units)[c])
  {
    var units := Partition(|data|, w);
    PartitionBounds(|data|, w);
    PartitionTiles(|data|, w);
    TilesOrdered(units, 0, |data|);
    assert Disjoint(units) by {
      forall i, j | 0 <= i < |units| && 0 <= j < |units| && i != j
        ensures units[i].End() <= units[j].start || units[j].End() <= units[i].start
      {
        if i > j {
          assert units[j].End() <= units[i].start;
        }
      }
    }
    forall c | 0 <= c < |units|
      ensures Slices(SortPhase(data, units, order), units)[c] == ThreadSort(Slices(data, units)[c])
    {
      assert c in order;
      var k :| 0 <= k < |order| && order[k] == c;
      ThreadSortKeepsLength();
      RunPhaseSlice(data, units, order, ThreadSort, k);
    }
  }

  /** Every unit of the partition lies inside `data`. */
  predicate PartitionBoundsHold(data: seq<int>, w: nat)
    requires w >= 1
  {
    forall i :: 0 <= i < |Partition(|data|, w)| ==> Partition(|data|, w)[i].End() <= |data|
  }

  /** The whole sort program on input `data`: clamp the worker count, partition, let
      the workers sort their units (finishing in the order `order`), then merge the
      units left to right. */
  function SortPipeline(data: seq<int>, requested: int, order: seq<nat>): seq<int>
    requires IsSchedule(order, |Partition(|data|, ClampWorkers(requested))|)
  {
    var units := Partition(|data|, ClampWorkers(requested));
    PartitionBounds(|data|, ClampWorkers(requested));
    MergeAllSpec(Slices(SortPhase(data, units, order), units), Id)
  }

  /** The sort phase only rearranges elements: the shared array afterwards is a
      permutation of the input. */
  lemma SortPhasePermutes(data: seq<int>, w: nat, order: seq<nat>)
    requires w >= 1 && IsSchedule(order, |Partition(|data|, w)|)
    ensures PartitionBoundsHold(data, w)
    ensures multiset(SortPhase(data, Partition(|data|, w), order)) == multiset(data)
  {
    var n := |data|;
    var units := Partition(n, w);
    PartitionBounds(n, w);
    PartitionTiles(n, w);
    var shared := SortPhase(data, units, order);
    SortedChunks(data, w, order);
    ConcatSlices(shared, units, 0, n);
    ConcatSlices(data, units, 0, n);
    ConcatPermutation(Slices(shared, units), Slices(data, units));
    assert shared[0..n] == shared && data[0..n] == data;
  }

  /** Every chunk handed to `mergeAll` is sorted. */
  lemma ChunksSortedByKey(data: seq<int>, w: nat, order: seq<nat>)
    requires w >= 1 && IsSchedule(order, |Partition(|data|, w)|)
    ensures PartitionBoundsHold(data, w)
    ensures var units := Partition(|data|, w);
      forall c :: 0 <= c < |units| ==> SortedBy(Slices(SortPhase(data, units, order), units)[c], Id)
  {
    var units := Partition(|data|, w);
    PartitionBounds(|data|, w);
    var chunks := Slices(SortPhase(data, units, order), units);
    SortedChunks(data, w, order);
    forall c | 0 <= c < |chunks| ensures SortedBy(chunks[c], Id) {
      SortedById(chunks[c]);
    }
  }

  /** The output of the pipeline is non-decreasing. */
  lemma SortPipelineSorted(data: seq<int>, requested: int, order: seq<nat>)
    requires IsSchedule(order, |Partition(|data|, ClampWorkers(requested))|)
    ensures Sorted(SortPipeline(data, requested, order))
  {
    var n, w := |data|, ClampWorkers(requested);
    var units := Partition(n, w);
    PartitionBounds(n, w);
    var chunks := Slices(SortPhase(data, units, order), units);
    ChunksSortedByKey(data, w, order);
    MergeAllCorrect(chunks, Id);
    SortedById(MergeAllSpec(chunks, Id));
  }

  /** Reading the shared buffer back chunk by chunk gives the whole buffer. */
  lemma ChunksRejoin(a: seq<int>, w: nat)
    requires w >= 1
    requires forall i :: 0 <= i < |Partition(|a|, w)| ==> Partition(|a|, w)[i].End() <= |a|
    ensures Concat(Slices(a, Partition(|a|, w))) == a
  {
    PartitionTiles(|a|, w);
    ConcatSlices(a, Partition(|a|, w), 0, |a|);
    assert a[0..|a|] == a;
  }

  /** The output of the pipeline is a permutation of the input. */
  lemma SortPipelinePermutes(data: seq<int>, requested: int, order: seq<nat>)
    requires IsSchedule(order, |Partition(|data|, ClampWorkers(requested))|)
    ensures multiset(SortPipeline(data, requested, order)) == multiset(data)
  {
    var w := ClampWorkers(requested);
    var units := Partition(|data|, w);
    SortPhasePermutes(data, w, order);
    var shared := SortPhase(data, units, order);
    MergeAllCorrect(Slices(shared, units), Id);
    ChunksRejoin(shared, w);
  }

  /** The sort programs are correct: whatever the worker count and the completion
      order, the output is a non-decreasing permutation of the input, hence the
      input's unique sorted arrangement. */
  lemma SortPipelineCorrect(data: seq<int>, requested: int, order: seq<nat>)
    requires IsSchedule(order, |Partition(|data|, ClampWorkers(requested))|)
    ensures Sorted(SortPipeline(data, requested, order))
    ensures multiset(SortPipeline(data, requested, order)) == multiset(data)
    ensures |SortPipeline(data, requested, order)| == |data|
    ensures SortPipeline(data, requested, order) == SortedVersion(data)
  {
    var out := SortPipeline(data, requested, order);
    SortPipelineSorted(data, requested, order);
    SortPipelinePermutes(data, requested, order);
    assert |out| == |multiset(out)| == |data|;
    SortedUnique(out, SortedVersion(data));
  }

  /** The sorted output depends neither on the worker count nor on the order in which
      workers finish. */
  lemma SortIndependentOfWorkers(data: seq<int>, requested1: int, order1: seq<nat>, requested2: int, order2: seq<nat>)
    requires IsSchedule(order1, |Partition(|data|, ClampWorkers(requested1))|)
    requires IsSchedule(order2, |Partition(|data|, ClampWorkers(requested2))|)
    ensures SortPipeline(data, requested1, order1) == SortPipeline(data, requested2, order2)
  {
    SortPipelineCorrect(data, requested1, order1);
    SortPipelineCorrect(data, requested2, order2);
  }

  /** `main` of the sort programs, sequentialised: partition, run the workers in the
      order `order` (each sorting its unit of the shared array in place), then
      `mergeAll`. `None` is the NULL result of an empty run. */
  method SortProgram(data: seq<CInt>, requested: int, order: seq<nat>)
      returns (finalSorted: Option<seq<int>>, finalLen: nat, workers: nat)
    requires IsSchedule(order, |Partition(|data|, ClampWorkers(requested))|)
    ensures workers == Min(|data|, ClampWorkers(requested))
    ensures finalLen == |data|
    ensures finalSorted == None <==> |data| == 0
    ensures finalSorted.Some? ==> Sorted(finalSorted.value) && multiset(finalSorted.value) == multiset(data)
    ensures finalSorted.Some? ==> AllCInts(finalSorted.value)
  {
    var units, chunkCount := PartitionLoop(|data|, requested);
    PartitionBounds(|data|, ClampWorkers(requested));
    var shared := RunSortWorkers(data, units, order);
    finalSorted, finalLen := MergeAll(Slices(shared, units), Id);
    workers := chunkCount;
    MergedOutputCorrect(data, requested, order, shared, finalSorted);
    if finalSorted.Some? {
      PermutationKeepsCInts(finalSorted.value, data);
    }
  }

  /** A permutation of C `int`s holds only C `int`s. */
  lemma PermutationKeepsCInts(a: seq<int>, b: seq<CInt>)
    requires multiset(a) == multiset(b)
    ensures AllCInts(a)
  {
    forall k | 0 <= k < |a| ensures INT_MIN <= a[k] <= INT_MAX {
      assert a[k] in multiset(b);
    }
  }

  /** How a run of `process_sort` ends: `mmap` refused the shared array (a
      diagnostic and exit status 1), or the report is printed. */
  datatype ProcessSortRun = MapFailed | Reported(finalSorted: Option<seq<int>>, workers: nat)

  /** `mmap` refuses a mapping of length 0 with EINVAL (POSIX.1-2008, `mmap`;
      Linux since 2.6.12). */
  predicate MapsRegion(bytes: nat) {
    bytes > 0
  }

  /** `process_sort` as written: the shared array of `N * sizeof(int)` bytes is
      mapped before anything else, and a failed mapping ends the run. */
  function ProcessSortAsWritten(data: seq<CInt>, requested: int, order: seq<nat>): (r: ProcessSortRun)
    requires IsSchedule(order, |Partition(|data|, ClampWorkers(requested))|)
    ensures r.MapFailed? <==> |data| == 0
    ensures r.Reported? ==> r.workers == Min(|data|, ClampWorkers(requested))
    ensures r.Reported? ==> r.finalSorted == Some(SortedVersion(data))
  {
    if !MapsRegion(|data| * 4) then MapFailed
    else
      PartitionCount(|data|, ClampWorkers(requested));
      SortPipelineCorrect(data, requested, order);
      Reported(Some(SortPipeline(data, requested, order)), |Partition(|data|, ClampWorkers(requested))|)
  }

  /** On an empty input `process_sort` fails before its report, although the
      partition has no units and the run would report an empty result from zero
      workers, as `SortProgram` does. */
  lemma ProcessSortFailsOnEmptyInput(requested: int)
    ensures |Partition(0, ClampWorkers(requested))| == 0
    ensures ProcessSortAsWritten([], requested, []) == MapFailed
  {
    PartitionCount(0, ClampWorkers(requested));
  }

  /** The worker loop: each scheduled worker sorts its unit of the shared array in place. */
  method RunSortWorkers(data: seq<int>, units: seq<WorkUnit>, order: seq<nat>) returns (shared: seq<int>)
    requires NamesUnits(order, |units|) && InBounds(units, |data|)
    ensures shared == SortPhase(data, units, order)
  {
    shared := data;
    var k := 0;
    while k < |order|
      invariant 0 <= k <= |order|
      invariant |shared| == |data|
      invariant SortPhase(shared, units, order[k..]) == SortPhase(data, units, order)
    {
      SortPhaseStep(shared, units, order, k);
      shared := UpdateUnit(shared, units[order[k]], ThreadSort);
      k := k + 1;
    }
    assert order[k..] == [];
  }

  /** What `mergeAll` makes of the shared array after the worker phase is the pipeline's output. */
  lemma MergedOutputCorrect(data: seq<int>, requested: int, order: seq<nat>, shared: seq<int>, out: Option<seq<int>>)
    requires IsSchedule(order, |Partition(|data|, ClampWorkers(requested))|)
    requires InBounds(Partition(|data|, ClampWorkers(requested)), |data|)
    requires shared == SortPhase(data, Partition(|data|, ClampWorkers(requested)), order)
    requires out.Some? ==> out.value == MergeAllSpec(Slices(shared, Partition(|data|, ClampWorkers(requested))), Id)
    ensures out.Some? ==> Sorted(out.value) && multiset(out.value) == multiset(data)
  {
    if out.Some? {
      assert out.value == SortPipeline(data, requested, order);
      SortPipelineCorrect(data, requested, order);
    }
  }

  /** One turn of the worker loop: running the next worker, then the rest. */
  lemma SortPhaseStep(shared: seq<int>, units: seq<WorkUnit>, order: seq<nat>, k: nat)
    requires NamesUnits(order, |units|) && InBounds(units, |shared|) && k < |order|
    ensures KeepsLength(ThreadSort)
    ensures SortPhase(shared, units, order[k..])
      == SortPhase(UpdateUnit(shared, units[order[k]], ThreadSort), units, order[k + 1..])
  {
    ThreadSortKeepsLength();
    assert order[k..][0] == order[k] && order[k..][1..] == order[k + 1..];
  }
}
