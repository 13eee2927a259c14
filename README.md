# Parallel sorts and the stride benchmark, in Dafny

This project models the sorting homework of a high-performance computing
course (C++ with OpenMP) and its Saavedra-Barrera memory benchmark:

- `sort.dfy` (module `Sort`) covers the keys and the sequential baseline sort. Keys are 64-bit unsigned
  `keytype` values. It also has the key-buffer helpers `newKeys` and `newCopy`, and the two checking
  oracles `assertIsSorted` and `assertIsEqual`.
- `parallel_qsort.dfy` (module `ParallelQuicksort`) covers quicksort with a two-pass three-way partition.
  A counting pass is followed by a scatter pass with one write cursor per run.
- `parallel_mergesort.dfy` (module `ParallelMergesort`) covers mergesort with a scratch buffer. Above a size
  threshold it uses a split merge. The merge is cut at the middle key of the left run, and binary search
  locates that key in the right run.
- `sb.dfy` (module `StrideBench`) covers `setup` and `bench`. `setup` threads a cyclic chain of stride `s`
  through an `int` array, and `bench` walks that chain.

How the C code is represented:
- A C pointer with an offset (`A + halfSize`) is an array together with a start index.
- The OpenMP tasks become sequential calls on disjoint segments.
- Each algorithm that works in place is a method over `array<Key>`:
  - its loops carry invariants;
  - it is specified against a pure function (`MergeSeq`, `Run`, `Count`, `ScatterState`, `Hops`);
  - lemmas prove what the sorts promise: sorted output, a permutation of the input, and nothing outside
    the segment changed.

Two behaviours of the C code matter when reading the model:
- `binarySearch` returns at the first probe that hits the key, at the position just after it. On
  `[1, 3, 3, 5]` with key 3 it returns 2, which is not the position after the last copy (3). `ParallelMergesort.BinarySearch`
  promises only what holds for every hit: everything before the rank is at most the key, and everything
  from the rank on is at least the key.
- `merge` takes the right key on ties (`left[i] < right[j]`), so on equal keys it does not take the left one first.
  `ParallelMergesort.MergeSeq` does the same. Keys have no identity beyond their value, so no result
  differs.

## Model

| member | source | states |
|---|---|---|
| Sort.Compare | sort.cc:20-30 | The comparator returns -1 exactly when `ka < kb`, 0 exactly when they are equal, and 1 exactly when `ka > kb`. The reference sort that stands for qsort orders keys through it |
| Sort.CompareAntisymmetric | sort.cc:20-30 | `compare(a, b) == -compare(b, a)`: the comparator is consistent in both directions, as qsort needs |
| Sort.SortSeq | sort.cc:32-35 | The reference sort: its result is sorted and is a permutation of its input |
| Sort.SequentialSort | sort.cc:32-35 | After the call the segment `A[0:N)` is sorted and is a permutation of what it held. Nothing outside it changes |
| Sort.NewKeys | sort.cc:41-47 | A fresh buffer of `N` keys |
| Sort.NewCopy | sort.cc:49-56 | A fresh buffer of `N` keys holding exactly `A[0:N)` |
| Sort.AdjacentSortedIffSorted | sort.cc:62-72 | Checking neighbours only, as the oracle does, is equivalent to full pairwise order |
| Sort.AssertIsSorted | sort.cc:62-72 | Passes exactly when `A[0:N)` is sorted. Otherwise it stops at the first `i` with `A[i-1] > A[i]` |
| Sort.AssertIsEqual | sort.cc:74-84 | Passes exactly when `A[0:N) == B[0:N)`. Otherwise it stops at the first differing position |
| Sort.SortedPermutationUnique | driver.cc:62-72 | Two sorted permutations of the same keys are equal. So the driver's equality check of the parallel result against the sequential one passes whenever both sorts are correct |
| Sort.WriteBack | parallel-mergesort.cc:44-47 | The copy loop: afterwards the target segment holds the copied keys, and nothing else in the array changes |
| ParallelQuicksort.CountRuns | parallel-qsort.cc:33-41 | The counting pass returns the number of keys below, equal to and above the pivot. The three add up to `N` |
| ParallelQuicksort.CountsCover | parallel-qsort.cc:35-41 | For any pivot, `n_lt + n_eq + n_gt` is the number of keys scanned |
| ParallelQuicksort.RunLength | parallel-qsort.cc:14-29 | The run of each side has as many keys as the count of that side |
| ParallelQuicksort.RunOnSide | parallel-qsort.cc:14-29 | Every key of a run lies on that run's side of the pivot |
| ParallelQuicksort.RunMultiplicity | parallel-qsort.cc:45-49 | A run holds every key of its side exactly as often as the segment does, and no other key |
| ParallelQuicksort.RunsPermute | parallel-qsort.cc:45-49 | The `<` run, the `=` run and the `>` run, laid end to end, are a permutation of the segment |
| ParallelQuicksort.PivotCounted | parallel-qsort.cc:82 | A pivot drawn from the segment is counted at least once among the equal keys, so both recursive calls get a shorter segment |
| ParallelQuicksort.PivotIndex | parallel-qsort.cc:82 | `rand() % N` is a valid index of a non-empty segment |
| ParallelQuicksort.SlotInRegion | parallel-qsort.cc:50-62 | Every write of the scatter pass lands inside the segment, inside the region of its key's side |
| ParallelQuicksort.ScatterStateFrame | parallel-qsort.cc:53-62 | The scatter pass changes nothing outside the segment |
| ParallelQuicksort.ScatterStateRegion | parallel-qsort.cc:53-62 | After `i` keys, each region starts with the run of its side among the first `i` keys, in order |
| ParallelQuicksort.RegionStep | parallel-qsort.cc:55-61 | One more key written keeps every region equal to its run so far |
| ParallelQuicksort.ScatterRegions | parallel-qsort.cc:53-65 | After the whole pass the three regions `[0, n_lt)`, `[n_lt, n_lt+n_eq)` and `[n_lt+n_eq, N)` hold the three runs. Nothing outside the segment changes |
| ParallelQuicksort.RunsLaidOut | parallel-qsort.cc:45-49 | A segment holding the three runs in their regions is partitioned around the pivot and is a permutation of the original |
| ParallelQuicksort.Place | parallel-qsort.cc:55-61 | One scatter step: the cursor of the key's side advances by one, and the array is the scatter state one key further |
| ParallelQuicksort.Scatter | parallel-qsort.cc:43-65 | The scatter pass leaves the array equal to the scatter state of the whole segment. The cursors end at `i_lt == n_lt`, `i_eq == n_lt+n_eq` and `i_gt == N`, the values the C asserts check |
| ParallelQuicksort.Partition | parallel-qsort.cc:30-72 | Returns the three counts. The segment becomes the `<` run, then the `=` run, then the `>` run (each in its original order), so it is a permutation of the input. Nothing outside the segment changes |
| ParallelQuicksort.Assemble | parallel-qsort.cc:90-93 | The sorted `<` run, the `=` run and the sorted `>` run form a sorted permutation of the partitioned segment |
| ParallelQuicksort.JoinSegments | parallel-qsort.cc:90-93 | Sorting the `<` run and then the `>` run of a partitioned segment sorts the whole segment, keeps its keys, and changes nothing outside it |
| ParallelQuicksort.SortAroundPivot | parallel-qsort.cc:90-93 | The two recursive calls sort the partitioned segment in place |
| ParallelQuicksort.QuickSort | parallel-qsort.cc:74-95 | The segment ends sorted and is a permutation of what it held. Nothing outside it changes |
| ParallelQuicksort.ParallelSort | parallel-qsort.cc:97-103 | `A[0:N)` ends sorted and is a permutation of its input. The rest of the array is unchanged |
| ParallelMergesort.MergeSeq | parallel-mergesort.cc:51-73 | The merge of two runs is as long as both together |
| ParallelMergesort.MergePermutes | parallel-mergesort.cc:51-73 | The merge holds exactly the keys of both runs |
| ParallelMergesort.MergeSorted | parallel-mergesort.cc:51-73 | The merge of two sorted runs is sorted |
| ParallelMergesort.MergeIsSort | parallel-mergesort.cc:51-73 | The merge of two sorted runs equals the reference sort of their concatenation |
| ParallelMergesort.TakeLeft | parallel-mergesort.cc:56-59 | When the left head is strictly smaller, or the right run is used up, the merge starts with the left head |
| ParallelMergesort.TakeRight | parallel-mergesort.cc:60-63 | Otherwise, ties included, the merge starts with the right head |
| ParallelMergesort.MergedLeft | parallel-mergesort.cc:58 | Writing the left head extends the emitted prefix of the merge by one key |
| ParallelMergesort.MergedRight | parallel-mergesort.cc:62 | Writing the right head extends the emitted prefix of the merge by one key |
| ParallelMergesort.MergedEnd | parallel-mergesort.cc:65-72 | Once both runs are used up, the written window is the whole merge |
| ParallelMergesort.Emit | parallel-mergesort.cc:58 | `temp[k++] = v` keeps the merge invariant, one key further on the side it took |
| ParallelMergesort.DrainLeft | parallel-mergesort.cc:65-68 | Copies the rest of the left run, keeping the merge invariant until the left run is used up |
| ParallelMergesort.DrainRight | parallel-mergesort.cc:69-72 | Copies the rest of the right run, keeping the merge invariant until the right run is used up |
| ParallelMergesort.Merge | parallel-mergesort.cc:51-73 | The scratch window holds exactly the merge of the two runs. Nothing else in the scratch buffer changes |
| ParallelMergesort.BinarySearch | parallel-mergesort.cc:93-114 | Returns a rank `q <= N` with every key before it at most `key` and every key from it on at least `key`. The key is present exactly when the key just before the rank is `key`. When the key is absent, every key before the rank is strictly below it |
| ParallelMergesort.SearchHit | parallel-mergesort.cc:100-103 | On a hit at `mid`, the rank `mid + 1` splits the run around the key |
| ParallelMergesort.SearchMiss | parallel-mergesort.cc:97-113 | When the loop ends without a hit, `low` is the insertion point and the key is absent |
| ParallelMergesort.SplitMerge | parallel-mergesort.cc:83-88 | Cutting both sorted runs around a key that bounds the lower parts and the upper parts, then merging lower with lower and upper with upper, gives exactly the merge of the whole runs |
| ParallelMergesort.SplitAtMiddle | parallel-mergesort.cc:83-88 | The same, with the left run cut at its middle key and the right run cut at a rank of that key |
| ParallelMergesort.SplitRuns | parallel-mergesort.cc:86-88 | Both sub-merges receive sorted runs |
| ParallelMergesort.JoinWindows | parallel-mergesort.cc:87-88 | The two sub-merges write adjacent windows at `temp` and `temp+p+q`. Together they fill the whole window and touch nothing outside it |
| ParallelMergesort.JoinMerges | parallel-mergesort.cc:83-89 | After both sub-merges the window holds the merge of the two runs, and nothing outside it has changed |
| ParallelMergesort.PMerge | parallel-mergesort.cc:75-91 | The scratch window holds exactly the merge of the two runs, the same as the linear merge. The inputs are unchanged |
| ParallelMergesort.HalvesSorted | parallel-mergesort.cc:38-41 | After the two recursive sorts, both halves are sorted. Together they hold the keys of the segment, and nothing outside it has moved |
| ParallelMergesort.CopiedBack | parallel-mergesort.cc:43-47 | Merging the sorted halves and copying the result back sorts the segment and keeps its keys |
| ParallelMergesort.ScratchFrame | parallel-mergesort.cc:40-43 | The halves of the scratch window, used in turn, leave the scratch buffer unchanged outside the window |
| ParallelMergesort.MergeBack | parallel-mergesort.cc:43-47 | pmerge into the scratch window followed by the copy loop leaves the segment sorted from its original keys |
| ParallelMergesort.SortHalves | parallel-mergesort.cc:36-48 | The recursive case sorts the segment in place, keeps its keys, and changes neither `A` nor `temp` outside their windows |
| ParallelMergesort.MergeSort | parallel-mergesort.cc:29-49 | The segment ends sorted and is a permutation of what it held. Nothing outside it changes, in `A` or in the scratch buffer |
| ParallelMergesort.ParallelSort | parallel-mergesort.cc:21-27 | `A[0:N)` ends sorted and is a permutation of its input. The rest of the array is unchanged |
| ParallelMergesort.SplitKeyAsWritten | parallel-mergesort.cc:84 | The split key after `int x = left[p]` and its conversion back equals the key exactly when the key is below 2^31 or at least 2^64 - 2^31 |
| ParallelMergesort.TruncatedSplitMisorders | parallel-mergesort.cc:83-88 | With the narrowed key, the two sub-merges of a concrete input join into an unsorted window |
| StrideBench.Setup | homework4/sb.cc:17-31 | Returns the number of multiples of `s` below `n`. Entry `k*s` holds `(k+1)*s`, the last multiple holds 0, and every other entry keeps its value |
| StrideBench.SetupStep | homework4/sb.cc:23-27 | One loop round links the current multiple to the next one and extends the chain |
| StrideBench.SetupClose | homework4/sb.cc:28-29 | Linking the last multiple back to 0 closes the chain into a cycle |
| StrideBench.Bench | homework4/sb.cc:33-49 | The four-way unrolled loop plus the remainder loop ends exactly where `n` single hops from 0 lead, and at 0 when `n <= 0` |
| StrideBench.NodeIsProduct | homework4/sb.cc:23 | The `k`-th position of the chain is `k*s` |
| StrideBench.HopsAdd | homework4/sb.cc:38-47 | `p + q` hops are `p` hops followed by `q` more |
| StrideBench.ChainWalk | homework4/sb.cc:38-47 | Within one cycle, `m` hops from 0 along the chain lead to `m*s` |
| StrideBench.ChainCycle | homework4/sb.cc:29 | After exactly `count` hops the walk is back at 0 |
| StrideBench.ChainVisitsOnce | homework4/sb.cc:23-27 | Within one cycle no position is read twice |
| StrideBench.ChainPeriodic | homework4/sb.cc:29 | After a full cycle the walk repeats itself |
| StrideBench.ChainStaysOn | homework4/sb.cc:38-47 | However many hops are taken, the walk stays on the chain |
| StrideBench.SetupReadyForBench | homework4/sb.cc:69-86 | The array setup builds meets bench's precondition for any hop count: every read is inside the array |
| StrideBench.CountIsCeiling | homework4/sb.cc:30 | The count setup returns is the least `c` with `c*s >= n`: `(c-1)*s < n <= c*s` |
| StrideBench.CountUnique | homework4/sb.cc:30 | Only one count satisfies those bounds, so it is determined by `n` and `s` |
| StrideBench.ChainClosedForm | homework4/sb.cc:78-86 | After `q*count + r` hops (`r < count`) the walk is at `r*s`. In particular, the timed `bench(num_reads * num_trials)` ends at 0 |

## Left out

- The OpenMP parallelism is left out. The tasks of `quickSort`, `mergeSort` and `pmerge`, and the
  `parallel for` loops of `partition`, run sequentially in the model. In the C code the two `parallel for`
  loops of `partition` update the shared counters `n_lt`, `n_eq`, `n_gt` and the cursors `i_lt`, `i_eq`,
  `i_gt` without a reduction or atomics, which is a data race. The model is the race-free sequential
  execution, in which each run keeps the order of its keys.
- `qsort` inside `sequentialSort` is not modelled step by step. Its result, the sorted permutation, is
  computed by the reference sort `SortSeq` and copied back.
- `rand()` is a parameter `rand(lo, n)` of `QuickSort`. Any value it returns is handled.
- `G` and `THRESHOLD` (both 1250000) are passed as parameters `g` and `th`. The model is proved for every
  value of at least 1, and `ParallelSort` passes the C constant.
- Sizes are `nat`. The C `int` sizes are never negative in these call paths. For `setup`, the C assert
  `cur < n` aborts when `n <= 0`, so `n >= 1` is a precondition. Likewise the C assert `n <= n_max` aborts
  when `n` exceeds the array, so `n <= nMax` is a precondition of `StrideBench.Setup`.
- `StrideBench.Setup`: requires a stride `s >= 1`. With `s <= 0` the C loop does not terminate or writes
  at negative indices.
- The integer widths of `int` sizes, counters and `Index` entries are left out, so `next += s` in `setup`
  and `num_reads * num_trials` in the benchmark's `main` are unbounded. The one narrowing that changes a
  result, the 32-bit split key of `pmerge`, is modelled by `SplitKeyAsWritten`. `PMerge` keeps the key at
  full width, as the Findings table explains.
- Allocation failure (`assert(A)` after `malloc`) is left out. `free` and `delete[]` are left out too, and
  the scratch buffer of `parallelSort`, which is never freed, is a fresh array in the model.
- The oracles' abort, `fprintf` and `printf` are left out. `AssertIsSorted` and `AssertIsEqual` return a
  verdict instead: pass, or the index at which the C code aborts.
- `StrideBench.Step`: a read outside the array (undefined in C) stays put: the position is
  returned unchanged. `Bench` requires
  every read to be in range, and `SetupReadyForBench` shows that the chain built by `setup` ensures this.
- The drivers (`driver.cc` and the `main` of `homework4/sb.cc`) are left out. So are the timers and the
  benchmark's calibration loop. Their uses of the core are covered by `SortedPermutationUnique`,
  `SetupReadyForBench` and `ChainClosedForm`.
- `ParallelMergesort.Merge`: the two tail loops of `merge` are written as the methods `DrainLeft` and
  `DrainRight`, which `Merge` calls in order. Likewise the recursive case of `mergeSort` is the method
  `SortHalves`, and its merge-and-copy-back tail is `MergeBack`.
- `ParallelMergesort.BinarySearch`: states the rank's properties rather than which of several equal keys
  the first probe hits.

## Findings

| source | as written | input that shows it | evidently intended | confidence | as-written member | corrected member |
|---|---|---|---|---|---|---|
| parallel-mergesort.cc:84 | `int x = left[p];` narrows the 64-bit split key to a 32-bit `int`, and `binarySearch` then gets it back sign-extended. Any key at or above 2^31 (and below 2^64 - 2^31) becomes a different key | Left run `[0, 2^31]`, right run `[1, 2^31 + 1]`, with both sub-merges at or below the threshold. The key 2^31 becomes 2^64 - 2^31, the rank is 2, and the window becomes `[0, 1, 2^31 + 1, 2^31]`, which is unsorted. In the C code the runs must be longer than `THRESHOLD`. Keys from the driver's `lrand48` are below 2^31, so the driver never hits this | Keep the split key as a `keytype` | not executed | ParallelMergesort.SplitKeyAsWritten, ParallelMergesort.TruncatedSplitMisorders | ParallelMergesort.PMerge, ParallelMergesort.SplitAtMiddle |
