# mapreduce-os-project in Dafny

The repository holds four small C benchmark programs and a Python test oracle:

- `process_sort` and `thread_sort` split an `int` array into contiguous chunks. One worker sorts each chunk in place with `qsort`. The parent then merges the sorted chunks left to right with `mergeTwo`/`mergeAll`.
- `process_max` and `thread_max` split the array the same way. Each worker computes the maximum of its chunk and folds it into a shared aggregate. The aggregate starts at `INT_MIN` and is only ever raised.
- `verify_sorted.py` reads a program's output. It finds the first bracketed list, parses it, and reports whether the list is non-decreasing.

This project models the sequential logic of all five and proves it correct. Workers are processes in one pair of programs and threads in the other. Either way they finish in an arbitrary order, modelled as a *schedule*: a permutation `order` of the unit indices, in which the workers' effects are applied.

| file | module | what it models |
|---|---|---|
| `ctypes.dfy` | `CTypes`, `Optional` | 32-bit `int` bounds, `intCompare`, an option type for NULL results and failed parses |
| `partition.dfy` | `Partitioner` | the worker clamp and the `baseChunk`/`remainder` chunk loop |
| `maxreduce.dfy` | `MaxReduce` | local max per worker, the guarded update from `INT_MIN`, the fold over any schedule |
| `slicephase.dfy` | `SlicePhase` | workers rewriting disjoint units of one shared array, in any order |
| `merge.dfy` | `MergeCombiner` | `mergeTwo` (left input first on ties) and `mergeAll` |
| `sortpipeline.dfy` | `SortPipeline` | `qsort` by its contract, the per-chunk sort phase, the whole sort program |
| `verifysorted.dfy` | `VerifySorted` | `is_sorted`, `str.strip`, `str.split`, and the scan/parse/verdict logic of `main` |
| `report.dfy` | `SortReport` | `%d` and `printArray`, the sort programs' report, and what the oracle says about it |

The merge works on any element type ordered by an integer key, so that its tie rule can be stated; the programs use it on `int`s keyed by their own value. `qsort` is specified only by its contract: the slice becomes a sorted permutation of itself. That contract determines the result uniquely (`SortPipeline.QsortContractDeterminesResult`). Python's `int()` is the parameter `parseInt`; the oracle lemmas ask of it only that it read back every C `int` that `%d` printed.

## Model

| member | source | states |
|---|---|---|
| CTypes.IntCompare | mapreduce-os-project/src/process_sort.c:18-21 | the comparator returns exactly -1, 0 or 1, negative iff a < b, zero iff equal, positive iff a > b; it is the sign of a - b and stays inside the `int` range |
| CTypes.IntCompareIsTotalOrder | mapreduce-os-project/src/thread_sort.c:19-23 | the comparator is antisymmetric, transitive and total, so it is a valid `qsort` comparator |
| Partitioner.ClampWorkers | mapreduce-os-project/src/process_sort.c:85-86 | a requested worker count below 1 becomes 1; any other count is kept |
| Partitioner.PartitionLoop | mapreduce-os-project/src/process_sort.c:99-113 | the loop as written returns the units of `Partition`, `chunkCount` equals their number min(W, N), they tile [0, N), and unit i starts at the running offset with length N/W + (i < N mod W ? 1 : 0) |
| Partitioner.PartitionShape | mapreduce-os-project/src/thread_sort.c:106-119 | exactly min(W, N) units (none when N = 0); unit i has start `StartOf(i)` and length N/W or N/W + 1 by the remainder rule, and is never empty |
| Partitioner.PartitionCount | mapreduce-os-project/src/process_max.c:47-51 | the job count is min(W, N) |
| Partitioner.PartitionTiles | mapreduce-os-project/src/process_max.c:45-51 | the units start at 0, each starts where the previous one ends, none is empty, and the last ends at N |
| Partitioner.TilesOrdered | mapreduce-os-project/src/process_max.c:50 | tiling units lie inside [0, N), are non-empty and come in increasing order without overlap |
| Partitioner.PartitionCoversExactlyOnce | mapreduce-os-project/src/thread_max.c:57-65 | the lengths sum to N, every unit ends by N, and an index lies in some unit iff it is in [0, N), in exactly one unit |
| Partitioner.PartitionBounds | mapreduce-os-project/src/thread_max.c:64 | every range is a non-empty slice inside `data` |
| Partitioner.ScheduleCoversAll | mapreduce-os-project/src/process_max.c:68-86 | once every worker of a complete schedule has run, exactly the indices of [0, N) have been covered |
| Partitioner.InOrder | mapreduce-os-project/src/thread_max.c:72-75 | workers finishing in launch order form a complete schedule |
| MaxReduce.SeqMax | mapreduce-os-project/src/process_max.c:74-75 | the reference maximum of a non-empty sequence is one of its elements and bounds all of them |
| MaxReduce.MaxUnique | mapreduce-os-project/src/thread_max.c:35-36 | an element that bounds the whole sequence is its maximum |
| MaxReduce.LocalMax | mapreduce-os-project/src/process_max.c:72-75 | the local-max loop returns an element of `data[start..start+len)` that bounds every element of it |
| MaxReduce.Offer | mapreduce-os-project/src/process_max.c:76-78 | the guarded update yields the larger of aggregate and candidate: never below either, and equal to one of them |
| MaxReduce.WorkerStep | mapreduce-os-project/src/thread_max.c:34-39 | one worker never lowers the aggregate, leaves it alone on an empty range, and afterwards the aggregate bounds the range and is the old value or a range element |
| MaxReduce.WorkerFindMax | mapreduce-os-project/src/thread_max.c:33-41 | `workerFindMax` as written returns the aggregate unchanged on an empty range and max(aggregate, maximum of the range) otherwise |
| MaxReduce.RunWorkersBounds | mapreduce-os-project/src/thread_max.c:72-75 | for any completion order the final aggregate is at least the initial one, bounds every covered element, and is the initial value or a covered element |
| MaxReduce.MaxPipelineCorrect | mapreduce-os-project/src/process_max.c:58-93 | min(W, N) workers run; for N > 0 and any completion order the reported maximum is the maximum of the whole input; for N = 0 no worker runs and `INT_MIN` is reported |
| MaxReduce.FullRunIsMax | mapreduce-os-project/src/thread_max.c:68-75 | with every unit run from `INT_MIN`, the aggregate ends at the sequential maximum of `data` |
| MaxReduce.CoveringRunIsMax | mapreduce-os-project/src/process_max.c:58-86 | when the units that ran cover every index, an aggregate started at `INT_MIN` ends at the maximum |
| MaxReduce.MaxIndependentOfWorkers | mapreduce-os-project/src/thread_max.c:57-83 | the reported maximum depends neither on the worker count nor on the completion order |
| SlicePhase.UpdateUnit | mapreduce-os-project/src/process_sort.c:122-123 | a worker rewriting its unit in place keeps the array length, leaves every index outside its unit unchanged, and makes the unit the transform of its old contents |
| SlicePhase.UpdateLeavesOtherUnit | mapreduce-os-project/src/process_sort.c:119-128 | rewriting one unit leaves a disjoint unit's slice as it was |
| SlicePhase.RunPhase | mapreduce-os-project/src/thread_sort.c:127-130 | running all workers in a schedule keeps the array length |
| SlicePhase.RunPhaseUntouched | mapreduce-os-project/src/process_sort.c:119-130 | an index that no worker's unit covers keeps its value |
| SlicePhase.FirstUnitKeepsItsResult | mapreduce-os-project/src/thread_sort.c:127-130 | the slice of the first worker to finish is not touched by the workers after it |
| SlicePhase.RunPhaseSlice | mapreduce-os-project/src/process_sort.c:119-130 | with disjoint units and any order, every unit's final slice is the transform of its original slice |
| MergeCombiner.MergePermutation | mapreduce-os-project/src/process_sort.c:24-32 | the merge has lenA + lenB elements and is a permutation of A ++ B |
| MergeCombiner.MergeSorted | mapreduce-os-project/src/process_sort.c:26-29 | merging two non-decreasing inputs gives a non-decreasing output |
| MergeCombiner.MergeInterleaves | mapreduce-os-project/src/thread_sort.c:39-44 | the elements taken from A keep their order from A, and likewise for B |
| MergeCombiner.MergeLeftFirstOnTies | mapreduce-os-project/src/thread_sort.c:40-41 | on equal keys the element from A is output before the one from B |
| MergeCombiner.MergeTwo | mapreduce-os-project/src/thread_sort.c:35-45 | the three loops as written produce the merge: lenA + lenB elements, a permutation of A ++ B, sorted when both inputs are |
| MergeCombiner.MergeHeads | mapreduce-os-project/src/process_sort.c:26-29 | the first loop stops with one input used up, and the output so far followed by the merge of the rest is the whole merge |
| MergeCombiner.CopyRestOfLeft | mapreduce-os-project/src/process_sort.c:30 | copying the rest of A uses it up and keeps the output a prefix of the merge |
| MergeCombiner.CopyRestOfRight | mapreduce-os-project/src/process_sort.c:31 | copying the rest of B uses it up and keeps the output a prefix of the merge |
| MergeCombiner.MergeIntoPermutation | mapreduce-os-project/src/process_sort.c:43-51 | each merge into the accumulator adds exactly that chunk's elements |
| MergeCombiner.MergeIntoSorted | mapreduce-os-project/src/thread_sort.c:55-63 | a sorted accumulator merged with sorted chunks stays sorted |
| MergeCombiner.MergeAllCorrect | mapreduce-os-project/src/process_sort.c:35-53 | the result holds exactly the elements of all chunks, so its length is the sum of their lengths; one chunk comes back unchanged; sorted chunks give a sorted result |
| MergeCombiner.MergeAll | mapreduce-os-project/src/thread_sort.c:48-66 | `mergeAll` as written returns NULL with length 0 for no chunks and a copy of chunk 0 for one; otherwise its length is the sum of the chunk lengths, it is a permutation of their concatenation, and it is sorted when every chunk is |
| SortPipeline.SortedById | mapreduce-os-project/src/process_sort.c:27 | a sequence sorted by the merge's `<=` on its values as keys is exactly a non-decreasing one |
| SortPipeline.ComparatorOrderIsSorted | mapreduce-os-project/src/process_sort.c:123 | a slice is in `intCompare` order iff it is non-decreasing |
| SortPipeline.SortedVersion | mapreduce-os-project/src/process_sort.c:123 | the reference sort yields a sorted permutation of its input |
| SortPipeline.SortedUnique | mapreduce-os-project/src/thread_sort.c:29 | two sorted permutations of one multiset are equal |
| SortPipeline.ThreadSort | mapreduce-os-project/src/thread_sort.c:26-32 | a worker's slice becomes a sorted permutation of itself, and a slice of length 0 or 1 is left untouched |
| SortPipeline.QsortContractDeterminesResult | mapreduce-os-project/src/thread_sort.c:28-30 | any result meeting `qsort`'s contract is the one `ThreadSort` gives |
| SortPipeline.ThreadSortKeepsLength | mapreduce-os-project/src/thread_sort.c:29 | sorting a slice keeps its length |
| SortPipeline.ConcatSlices | mapreduce-os-project/src/process_sort.c:103-113 | the slices of a tiling, laid end to end, give back the tiled range |
| SortPipeline.SortedChunks | mapreduce-os-project/src/process_sort.c:119-130 | after every child has sorted its own slice, in any order, each chunk is the sorted version of the input's chunk |
| SortPipeline.SortPhasePermutes | mapreduce-os-project/src/thread_sort.c:127-130 | the sort phase only rearranges elements of the shared array |
| SortPipeline.ChunksSortedByKey | mapreduce-os-project/src/process_sort.c:130-133 | every chunk handed to `mergeAll` is sorted |
| SortPipeline.SortPipelineSorted | mapreduce-os-project/src/process_sort.c:119-133 | the program's output is non-decreasing |
| SortPipeline.SortPipelinePermutes | mapreduce-os-project/src/thread_sort.c:127-133 | the program's output is a permutation of the input |
| SortPipeline.SortPipelineCorrect | mapreduce-os-project/src/thread_sort.c:112-133 | for any worker count and completion order the output is a non-decreasing permutation of the input, of its length, and equals its unique sorted arrangement |
| SortPipeline.SortIndependentOfWorkers | mapreduce-os-project/src/process_sort.c:85-133 | the output does not depend on the worker count or on the completion order |
| SortPipeline.SortProgram | mapreduce-os-project/src/thread_sort.c:97-133 | the program's steps as written report min(W, N) workers and `finalLen` = N; the result is NULL iff N = 0 and is otherwise a sorted permutation of the input, holding only C `int`s |
| SortPipeline.ProcessSortAsWritten | mapreduce-os-project/src/process_sort.c:84-133 | `process_sort` ends at the failed `mmap` iff N = 0; otherwise it reports min(W, N) workers and the input's sorted arrangement |
| SortPipeline.ProcessSortFailsOnEmptyInput | mapreduce-os-project/src/process_sort.c:90-93 | on an empty input there are no units, yet `process_sort` stops at `mmap` instead of reporting them |
| SortPipeline.RunSortWorkers | mapreduce-os-project/src/thread_sort.c:127-130 | the worker loop leaves the shared array as the sort phase describes |
| SortPipeline.MergedOutputCorrect | mapreduce-os-project/src/process_sort.c:132-133 | what `mergeAll` makes of the sorted shared array is a sorted permutation of the input |
| VerifySorted.IsSortedIffSorted | mapreduce-os-project/tests/verify_sorted.py:5-6 | the adjacent-pair check holds iff the list is non-decreasing in the pairwise sense, and holds vacuously for length 0 and 1 |
| VerifySorted.LeadingSpaces | mapreduce-os-project/tests/verify_sorted.py:11 | the count of leading whitespace covers only whitespace and stops at the first visible character |
| VerifySorted.TrailingSpaces | mapreduce-os-project/tests/verify_sorted.py:11 | the count of trailing whitespace covers only whitespace and stops at the last visible character |
| VerifySorted.StripCharacterized | mapreduce-os-project/tests/verify_sorted.py:11 | `strip()` gives a piece of the line with visible ends, and everything cut away on either side is whitespace |
| VerifySorted.StripEmptyIff | mapreduce-os-project/tests/verify_sorted.py:12 | a line strips to nothing iff it is all whitespace |
| VerifySorted.StripPadded | mapreduce-os-project/tests/verify_sorted.py:18 | stripping removes exactly the whitespace padding around a word with visible ends |
| VerifySorted.Split | mapreduce-os-project/tests/verify_sorted.py:18 | `split(',')` gives at least one piece, no piece contains a comma, and joining the pieces with commas gives the line back |
| VerifySorted.SplitJoin | mapreduce-os-project/tests/verify_sorted.py:18 | splitting undoes joining comma-free pieces |
| VerifySorted.ParseAll | mapreduce-os-project/tests/verify_sorted.py:20 | `list(map(int, parts))` succeeds iff every piece parses, and then holds the parsed pieces in order |
| VerifySorted.ParseElements | mapreduce-os-project/tests/verify_sorted.py:18-23 | a successful parse has one number per comma-separated piece, at least one, each the parse of the stripped piece; a failed parse has a piece that does not parse |
| VerifySorted.Inner | mapreduce-os-project/tests/verify_sorted.py:14 | `line[1:-1]` is what lies between the brackets |
| VerifySorted.ExamineCases | mapreduce-os-project/tests/verify_sorted.py:15-29 | a bracketed line gives "OK: empty list" iff its inside is blank, the parse error iff some piece does not parse, and "OK" or "NOT SORTED" by `is_sorted` otherwise; never "no array found" |
| VerifySorted.FirstBracketedDecides | mapreduce-os-project/tests/verify_sorted.py:10-14 | earlier lines that are not bracketed are skipped, and the first bracketed line is the one examined |
| VerifySorted.FirstBracketedLineDecidesVerdict | mapreduce-os-project/tests/verify_sorted.py:24 | the verdict is that of the first bracketed line, and lines after it are ignored |
| VerifySorted.FirstArrayNoneIff | mapreduce-os-project/tests/verify_sorted.py:10-14 | the search finds nothing iff no stripped line is bracketed |
| VerifySorted.NoArrayIff | mapreduce-os-project/tests/verify_sorted.py:25-27 | "no array found" is reported iff no stripped line is bracketed |
| VerifySorted.ExitCodeIff | mapreduce-os-project/tests/verify_sorted.py:16-32 | the exit status is 1 exactly for the parse error and "no array found", and 0 exactly for the empty list, "OK" and "NOT SORTED" |
| SortReport.Digits | mapreduce-os-project/src/process_sort.c:73 | `%d` of a non-negative value is a non-empty run of digits with no leading zero |
| SortReport.ShowInt | mapreduce-os-project/src/thread_sort.c:89 | `%d` is non-empty and starts with '-' iff the value is negative; a non-negative value prints only digits, and a negative one '-' followed by at least one digit and only digits |
| SortReport.ParseShowRoundTrip | mapreduce-os-project/src/process_sort.c:73 | reading back what `%d` printed gives the value |
| SortReport.CIntDigitCount | mapreduce-os-project/src/thread_sort.c:89 | `%d` of a C `int` has at most ten digits after the optional minus sign |
| SortReport.DigitsRoundTrip | mapreduce-os-project/src/thread_sort.c:89 | the digits of n read back as n |
| SortReport.CommasIsJoin | mapreduce-os-project/src/process_sort.c:73 | the numbers printed with ", " between them are the numbers joined by commas, each after the first padded by one space |
| SortReport.PrintArrayInner | mapreduce-os-project/src/process_sort.c:71-75 | the `printArray` line strips to a bracketed line whose inside is the printed elements |
| SortReport.PrintElementsSplit | mapreduce-os-project/src/thread_sort.c:87-91 | splitting the printed elements at commas gives the padded numbers back |
| SortReport.WordStrips | mapreduce-os-project/tests/verify_sorted.py:18 | a printed number strips to itself, with or without the space in front |
| SortReport.PrintElementsParse | mapreduce-os-project/tests/verify_sorted.py:18-23 | given a reader that reads back `%d` of every C `int`, the oracle parses the printed elements of an array of C `int`s back to that array |
| SortReport.PrintElementsNotBlank | mapreduce-os-project/tests/verify_sorted.py:15 | a printed non-empty array is never taken for an empty list |
| SortReport.OracleAcceptsPrintedArray | mapreduce-os-project/tests/verify_sorted.py:10-29 | after lines without a bracketed list, a printed non-empty sorted array of C `int`s is judged "OK" by such a reader |
| SortReport.OracleFindsNoArray | mapreduce-os-project/tests/verify_sorted.py:25-27 | output without a bracketed line gives the "no array found" message and exit status 1 |
| SortReport.SummaryFirstChars | mapreduce-os-project/src/process_sort.c:137-145 | every header line of the report starts with a visible character other than '[' |
| SortReport.OracleVerdictOnSortReport | mapreduce-os-project/src/process_sort.c:137-147 | on a sort program's report the oracle prints "OK" and exits 0 for 1 to 32 elements, and prints "no array found" and exits 1 for 0 elements or more than 32 |
| SortReport.OracleOnReport | mapreduce-os-project/src/thread_sort.c:143 | the same verdicts for any header in which the oracle finds no array |

## Left out

- Processes, threads, shared memory, semaphores and the mutex (`fork`, `waitpid`, `pthread_create`/`pthread_join`, `shm_open`, `mmap`, `sem_open`, `pthread_mutex_lock`). Workers are applied one after another, in the order a schedule `order` gives. Every lock-protected update is therefore atomic, as the locks make it in the programs.
- `qsort` itself. It is specified by its contract, a sorted permutation of the slice, which `SortPipeline.ThreadSort` realises with a reference sort. No claim is made about `qsort`'s algorithm or stability. For `int`s stability cannot be observed.
- `srand`/`rand`. The input is an arbitrary `seq<CInt>`; the sort pipeline's lemmas hold for any `seq<int>`.
- `nowMs` and `getMemoryUsageKB`. They read the clock and `/proc`. Their printed values are the opaque strings `time` and `rss` in `SortReport.Summary`. `%.3f` formatting is not modelled.
- `strtoull`/`atoi` and the argument-count check. N is a `nat`. The requested worker count is an arbitrary `int`, and only its clamp to at least 1 is modelled.
- `malloc` failure, the `exit(1)`/`return 1` error paths and resource cleanup. The programs neither release shared memory on those paths nor read child exit statuses. The model has no such paths.
- Integer widths: `size_t` arithmetic in the partition loop, `N * sizeof(int)` and `mergedLen + chunks[c].len` are unbounded here, so wrap-around for huge N is not modelled.
- The max programs' report and their "Input array" print. Only the maximum and the worker count are modelled (`MaxReduce.MaxReport`).
- Python's `int()`. It is the parameter `parseInt`, which answers `None` where `int()` raises `ValueError`. Reading stdin into lines is not modelled: the oracle's input is a `seq<string>`, one string per line.
- SortReport.OracleVerdictOnSortReport: it assumes `parseInt` reads back every numeral `%d` prints for a C `int`: an optional minus sign and at most ten digits (`SortReport.CIntDigitCount`). Python's `int()` reads such numerals back; in current CPython releases it refuses only numerals of more than 4300 digits. `SortReport.LimitedReader` is a decimal reader with such a digit limit, and `SortReport.LimitedReaderReadsBackCInts` shows it meets the requirement for any limit of ten or more. Nothing shows that `int()` itself is that reader.
- SortPipeline.SortProgram: at N = 0 it gives `thread_sort`'s outcome: zero workers, a NULL result, and a report with no array printed (thread_sort.c:97-147). `process_sort` instead fails at `mmap` and exits 1 (see Findings); `SortPipeline.ProcessSortAsWritten` models that. `thread_sort` reaches its report at N = 0 only where `malloc(0)` returns a non-NULL pointer, as glibc's does.
- The oracle applied to a sort program's report prints "no array found" and exits 1 when N = 0 or N > 32, because no array is printed then. This is a consequence of the code as written. For `process_sort` at N = 0 there is no report at all: the program stops at `mmap` with nothing on standard output, and `SortReport.OracleFindsNoArray` on no lines gives the same verdict. `SortReport.OracleVerdictOnSortReport` with `Processes` and N = 0 describes a report that program never prints.

## Findings

| source | as written | input that shows it | evidently intended | confidence | as-written member | corrected member |
|---|---|---|---|---|---|---|
| mapreduce-os-project/src/process_sort.c:90-93 | the shared array is mapped with `mmap(NULL, N*sizeof(int), …)`, and a failed mapping prints a diagnostic and returns 1; POSIX and Linux refuse a zero-length mapping with EINVAL | N = 0, any worker count | an empty run: the report with zero workers and no array, as `thread_sort` gives | not executed; high, given `mmap`'s documented EINVAL for length 0 | SortPipeline.ProcessSortAsWritten, SortPipeline.ProcessSortFailsOnEmptyInput | SortPipeline.SortProgram |
