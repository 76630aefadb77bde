# Sorting visualisers: trace generators and playback cursor

This project models the core of the app's two sorting visualisers:

- **The fish visualiser** (`components/AlgorithmVisualizer.tsx`) sorts fish records `{nome, preco}` by price. It offers quicksort and merge sort.
- **The bar visualiser** (`components/BarSortVisualizer.tsx`) sorts plain numbers. It offers bubble sort, quicksort and merge sort.

Each generator runs on a copy of the input. As it sorts that copy in place, it appends a step to a shared list at every comparison, swap, pivot placement, write and pass. Each step holds a snapshot of the array, optional highlights (`comparing`, `pivot`, `sorted`, and `merging` in the fish visualiser only) and a narration sentence. A playback cursor then walks through the finished list with play, pause, reset, next and previous.

The model is written in Dafny and has these parts:

- **Common and Traces.** The step record, with the narration reduced to a `StepKind` tag. It also holds recursive summaries of a step list: tag counts, compared pairs, snapshot permutations and pivot announcements. The `Tracer` class is the working array plus the step list the nested helpers share.
- **QuickSort, MergeSort and BubbleSort.**
  - Each generator is given twice. First it is a pure function on the array contents, one per loop or recursion level, in tail form: the loop state from a position on. Then it is the in-place methods on a `Tracer`, proved to produce exactly that function's array and steps.
  - The properties the components promise are proved as lemmas about the pure functions: sortedness, permutation, frame, stability, step counts, comparison ranges and pivot finality.
  - Quicksort and merge sort are written once, generic over the element type and an integer key. A `Visualiser` tag (`Records` or `Numbers`) selects the few places where the two components record different steps:
    - the fish partition records a swap step even when `i == j`; the bar partition does not;
    - only the bar visualiser marks `end` as the pivot when selecting it;
    - only the fish visualiser fills in the `merging` ranges.
- **Playback.** The cursor both components keep, as one generic class `Player`. The two components' cursor code is identical.
- **AlgorithmVisualizer and BarSortVisualizer.** Each component's `generateSteps` dispatch, its end-to-end properties, and two concrete examples:
  - the stable order of two fish at the same price;
  - `[3, 1, 3, 2, 3]` sorted by quicksort.

## Model

| member | source | states |
|---|---|---|
| Common.SwappedFacts | components/AlgorithmVisualizer.tsx:121 | the destructuring swap exchanges positions i and j and leaves every other position as it was |
| Common.SwappedPerm | components/BarSortVisualizer.tsx:106 | a swap permutes the array |
| Traces.Tracer.Push | components/AlgorithmVisualizer.tsx:92-95 | `steps.push` appends exactly the given step to the shared list |
| Traces.Tracer.Exchange | components/BarSortVisualizer.tsx:166 | the in-place swap leaves the working array equal to the swapped snapshot |
| Traces.Tracer.Write | components/AlgorithmVisualizer.tsx:200 | `array[k] = x` changes position k only |
| Playback.Player.constructor | components/AlgorithmVisualizer.tsx:32-34 | the initial state: no steps, cursor 0, not playing |
| Playback.Player.CurrentStep | components/AlgorithmVisualizer.tsx:251 | while a trace is loaded, the step under the cursor (an element of the trace); with no trace, the ready fallback showing the input; BarSortVisualizer.tsx:293 is the same code |
| Playback.Player.Load | components/AlgorithmVisualizer.tsx:79-83 | installing a trace sets the steps, rewinds the cursor to 0 and leaves the playing flag alone |
| Playback.Player.Play | components/AlgorithmVisualizer.tsx:253 | sets playing; steps and cursor unchanged |
| Playback.Player.Pause | components/AlgorithmVisualizer.tsx:254 | clears playing; steps and cursor unchanged |
| Playback.Player.Reset | components/AlgorithmVisualizer.tsx:255-259 | cursor back to 0 and paused; steps unchanged; BarSortVisualizer.tsx:297-301 is the same code |
| Playback.Player.NextStep | components/AlgorithmVisualizer.tsx:261-266 | advances by one exactly while the cursor is before the last step, else stays; the cursor stays a valid index; BarSortVisualizer.tsx:303-308 is the same code |
| Playback.Player.PrevStep | components/AlgorithmVisualizer.tsx:268-272 | moves back by one exactly while the cursor is after 0, else stays at 0; BarSortVisualizer.tsx:310-314 is the same code |
| Playback.Player.Tick | components/BarSortVisualizer.tsx:40-51 | one timer firing: while playing before the last step it advances; playing at or past the last step it stops and reports completion; otherwise nothing changes |
| BubbleSort.BubbleStep | components/BarSortVisualizer.tsx:99-111 | defines one inner iteration: record the comparison [j, j + 1]; when arr[j] > arr[j + 1], exchange them and record the exchange; the length is kept |
| BubbleSort.InnerFrom | components/BarSortVisualizer.tsx:98-112 | defines the inner loop from position j up to hi: BubbleStep at j, j + 1, …, hi − 1 |
| BubbleSort.PassStep | components/BarSortVisualizer.tsx:97-118 | defines pass i: the inner loop over [0, n − i − 1], then the pass-done step marking [n − 1, …, n − 1 − i] |
| BubbleSort.PassesFrom | components/BarSortVisualizer.tsx:97-119 | defines the outer loop from pass i to pass n − 2 |
| BubbleSort.StepMax | components/BarSortVisualizer.tsx:98-111 | one inner iteration carries the largest value seen so far from j to j + 1, touches only j and j + 1, and permutes |
| BubbleSort.FromMax | components/BarSortVisualizer.tsx:98-112 | the inner loop of a pass carries the largest value of the prefix to its last position n − i − 1, touches only that prefix, and permutes |
| BubbleSort.PassSettles | components/BarSortVisualizer.tsx:97-118 | after pass i, the last i + 1 positions hold the i + 1 largest values in ascending order |
| BubbleSort.PassesSort | components/BarSortVisualizer.tsx:97-119 | the outer loop leaves the array sorted ascending, permuted, and touched only below the settled tail |
| BubbleSort.BubblePairsCount | components/BarSortVisualizer.tsx:97-98 | the passes compare exactly n(n − 1)/2 pairs |
| BubbleSort.BubblePairsIn | components/BarSortVisualizer.tsx:101 | every compared pair is x < y inside [0, n − 1] |
| BubbleSort.AdjacentPairsIn | components/BarSortVisualizer.tsx:98-101 | the pairs [j, j + 1] of one pass lie inside the array |
| BubbleSort.AdjacentPairsCount | components/BarSortVisualizer.tsx:98 | pass i compares n − i − 1 pairs |
| BubbleSort.StepCompares | components/BarSortVisualizer.tsx:99-103 | one iteration records exactly the comparison [j, j + 1] |
| BubbleSort.FromCompares | components/BarSortVisualizer.tsx:98-112 | the inner loop records exactly the pairs [j, j + 1] for its remaining j, in order |
| BubbleSort.PassCompares | components/BarSortVisualizer.tsx:97-118 | pass i records exactly the pairs [0, 1] … [n − i − 2, n − i − 1] |
| BubbleSort.PassesCompares | components/BarSortVisualizer.tsx:97-119 | the outer loop records exactly the concatenated pairs of all its passes |
| BubbleSort.StepSnapshots | components/BarSortVisualizer.tsx:105-110 | a conditional exchange keeps every snapshot a permutation of the input |
| BubbleSort.FromSnapshots | components/BarSortVisualizer.tsx:98-112 | every snapshot of the inner loop is a permutation of the input |
| BubbleSort.PassSnapshots | components/BarSortVisualizer.tsx:97-118 | every snapshot of a pass, its mark included, is a permutation of the input |
| BubbleSort.PassesSnapshots | components/BarSortVisualizer.tsx:97-119 | every snapshot of all passes is a permutation of the input |
| BubbleSort.StepMarks | components/BarSortVisualizer.tsx:99-110 | an inner iteration records no pass-done step and keeps earlier marks valid |
| BubbleSort.FromMarks | components/BarSortVisualizer.tsx:98-112 | the inner loop records no pass-done step |
| BubbleSort.PassMarks | components/BarSortVisualizer.tsx:114-118 | pass i ends with a pass-done step whose `sorted` is exactly [n − 1, …, n − 1 − i]; every mark recorded so far names a tail that already holds the values the array has after the pass; the pass adds exactly one pass-done step |
| BubbleSort.PassesMarks | components/BarSortVisualizer.tsx:97-119 | every pass-done step marks a tail that holds its final values, one such step per pass |
| BubbleSort.PrefixKept | components/BarSortVisualizer.tsx:97-119 | the passes only append steps |
| BubbleSort.InnerPrefixKept | components/BarSortVisualizer.tsx:98-112 | the inner loop only appends steps |
| BubbleSort.BubbleSortEnds | components/BarSortVisualizer.tsx:92-125 | the trace opens on the input and closes on it sorted ascending and permuted, with all n indices marked sorted; n ≤ 1 gives exactly two steps |
| BubbleSort.BubbleSortSnapshots | components/BarSortVisualizer.tsx:105-110 | every snapshot of the trace is a permutation of the input |
| BubbleSort.BubbleSortCompares | components/BarSortVisualizer.tsx:97-103 | the comparisons are exactly the pairs [j, j + 1] pass by pass: n(n − 1)/2 of them, all inside the input |
| BubbleSort.BubbleSortMarks | components/BarSortVisualizer.tsx:114-118 | one pass-done step per pass (n − 1 for non-empty input), each marking a tail that holds the final sorted values |
| BubbleSort.CompareAdjacent | components/BarSortVisualizer.tsx:98-111 | one iteration of the in-place inner loop produces exactly `BubbleStep`'s array and steps |
| BubbleSort.GenerateBubbleSortSteps | components/BarSortVisualizer.tsx:88-128 | the nested in-place loops on a copy return exactly `BubbleSortSteps(data)` |
| QuickSort.ScanStep | components/AlgorithmVisualizer.tsx:113-129 | defines one iteration of partition's loop: the comparison [j, end] is recorded; an element below the pivot is swapped to the boundary i, i moves on, and the swap is recorded (always for fish; for bars only when i ≠ j, BarSortVisualizer.tsx:168-173). The iteration's properties are StepPerm, StepFrame, StepSplit and StepKinds |
| QuickSort.PartitionFrom | components/AlgorithmVisualizer.tsx:113-139 | defines partition's loop from position j on, followed by the pivot swap from end to the boundary and the placement step; the returned boundary lies in [i, end] |
| QuickSort.PartitionOf | components/AlgorithmVisualizer.tsx:109-140 | partition returns a position p with start ≤ p ≤ end |
| QuickSort.StepPerm | components/AlgorithmVisualizer.tsx:120-121 | an iteration permutes the array |
| QuickSort.StepFrame | components/AlgorithmVisualizer.tsx:120-121 | an iteration touches only positions i through j |
| QuickSort.StepSplit | components/AlgorithmVisualizer.tsx:120-128 | an iteration keeps [start, i) below the pivot and [i, j] at or above it |
| QuickSort.StepKinds | components/BarSortVisualizer.tsx:158-176 | an iteration records one comparison, plus one swap step when the element is below the pivot, except in the bar visualiser when i = j |
| QuickSort.StepCompares | components/AlgorithmVisualizer.tsx:114-118 | an iteration records exactly the comparison [j, end] |
| QuickSort.StepSnapshots | components/AlgorithmVisualizer.tsx:121-126 | an iteration's snapshots are permutations of the input |
| QuickSort.FromPerm | components/AlgorithmVisualizer.tsx:113-132 | the loop and the pivot swap permute the array |
| QuickSort.FromFrame | components/AlgorithmVisualizer.tsx:113-132 | the loop and the pivot swap touch only [i, end] |
| QuickSort.FromSplit | components/AlgorithmVisualizer.tsx:113-139 | partition puts the old array[end] at the returned index, keys below the pivot before it and keys at or above it after it |
| QuickSort.FromCount | components/AlgorithmVisualizer.tsx:120-128 | the boundary moves once per element below the pivot |
| QuickSort.FromLead | components/BarSortVisualizer.tsx:165-175 | from a state where i = j, the leading run of elements below the pivot is no longer than the boundary's advance over the rest of the loop; FromKinds uses this bound to count the bar swap steps |
| QuickSort.FromKinds | components/BarSortVisualizer.tsx:158-183 | the loop records end − j comparisons, one swap per element below the pivot (fewer by the leading run in the bar visualiser), and one placement |
| QuickSort.FromCompares | components/AlgorithmVisualizer.tsx:113-118 | the loop records exactly the pairs [j, end], [j + 1, end], …, [end − 1, end] |
| QuickSort.FromSnapshots | components/AlgorithmVisualizer.tsx:113-137 | every snapshot of partition is a permutation of the input |
| QuickSort.FromLast | components/AlgorithmVisualizer.tsx:132-137 | partition's last step is the placement step over the final array |
| QuickSort.FromKeeps | components/AlgorithmVisualizer.tsx:113-132 | a bound that holds for every key in [lo, end] still holds after partition |
| QuickSort.PartitionSplits | components/AlgorithmVisualizer.tsx:109-140 | start ≤ p ≤ end; array[p] is the old array[end]; keys in [start, p) are below the pivot and keys in (p, end] at or above it; nothing outside [start, end] changes; the array is permuted; the bar partition at BarSortVisualizer.tsx:154-187 has the same post-state |
| QuickSort.PartitionSteps | components/AlgorithmVisualizer.tsx:113-137 | the comparisons are exactly [start, end] … [end − 1, end]; the last step is the placement; every snapshot is a permutation |
| QuickSort.PartitionKinds | components/AlgorithmVisualizer.tsx:113-137 | exactly end − start comparisons; one swap step per element below the pivot (fish) or per such element with i ≠ j (bars, BarSortVisualizer.tsx:168-173: below-pivot elements minus the leading run found with i = j); one placement step |
| QuickSort.PartitionKeeps | components/AlgorithmVisualizer.tsx:109-140 | a bound on every key of [start, end] survives partition |
| QuickSort.QuickSortTrace | components/AlgorithmVisualizer.tsx:89-107 | defines quickSortWithSteps on [start, end]: no steps for fewer than two elements, otherwise QuickLevel |
| QuickSort.QuickLevel | components/AlgorithmVisualizer.tsx:92-106 | defines one level: the selection step `SelectStep` (pivot = end for bars only), partition, the `pivot: pivotIndex` step `PivotStep`, then the left and right sides |
| QuickSort.QuickFrame | components/AlgorithmVisualizer.tsx:89-107 | quickSortWithSteps changes nothing outside [start, end] |
| QuickSort.QuickPerm | components/AlgorithmVisualizer.tsx:89-107 | quickSortWithSteps permutes the array |
| QuickSort.QuickKeeps | components/AlgorithmVisualizer.tsx:89-107 | a bound on every key of [start, end] survives the recursion |
| QuickSort.QuickSorted | components/AlgorithmVisualizer.tsx:89-107 | quickSortWithSteps leaves [start, end] in non-decreasing key order |
| QuickSort.QuickSnapshots | components/AlgorithmVisualizer.tsx:92-103 | every snapshot of the recursion is a permutation of the input |
| QuickSort.QuickCompares | components/BarSortVisualizer.tsx:133-152 | every comparison the recursion records is a pair x < y inside [start, end] |
| QuickSort.QuickPivots | components/BarSortVisualizer.tsx:144-148 | every pivot announcement names an index whose element is already the one the sorted segment ends with there |
| QuickSort.QuickSortEnds | components/AlgorithmVisualizer.tsx:142-153 | the trace opens on the input and closes on it sorted by key and permuted, with all n indices marked sorted; n ≤ 1 gives exactly two steps; likewise for the bar trace (BarSortVisualizer.tsx:189-200) |
| QuickSort.QuickSortSnapshots | components/AlgorithmVisualizer.tsx:93-145 | every snapshot of the whole trace is a permutation of the input |
| QuickSort.QuickSortCompares | components/BarSortVisualizer.tsx:158-163 | every comparison of the trace is a pair x < y of input indices |
| QuickSort.QuickSortPivots | components/BarSortVisualizer.tsx:144-148 | each `pivot = pivotIndex` step names a position that holds its final sorted element |
| QuickSort.ScanAt | components/BarSortVisualizer.tsx:158-176 | one in-place loop iteration produces exactly `ScanStep`'s array, boundary and steps |
| QuickSort.Partition | components/AlgorithmVisualizer.tsx:109-140 | the in-place partition returns `PartitionOf`'s boundary and leaves its array and steps |
| QuickSort.QuickSortRec | components/AlgorithmVisualizer.tsx:89-107 | the in-place recursion leaves exactly `QuickSortTrace`'s array and appends exactly its steps |
| QuickSort.GenerateQuickSortSteps | components/AlgorithmVisualizer.tsx:86-156 | sorting a fresh copy returns exactly `QuickSortSteps(v, key, data)`; the caller's data is a value and is untouched; likewise the bar generator (BarSortVisualizer.tsx:130-203) |
| MergeSort.MergeComparesBounds | components/AlgorithmVisualizer.tsx:192-212 | the main loop runs between min(\|l\|, \|r\|) and \|l\| + \|r\| − 1 times, and not at all when a half is empty |
| MergeSort.MergedPerm | components/AlgorithmVisualizer.tsx:176-232 | the merged output is exactly the two halves' elements |
| MergeSort.MergedSorted | components/AlgorithmVisualizer.tsx:199-205 | merging two sorted halves gives a sorted sequence |
| MergeSort.MergedStable | components/AlgorithmVisualizer.tsx:199 | taking the left element on ties keeps equal keys in input order: the left half's, then the right half's |
| MergeSort.MergeFrom | components/AlgorithmVisualizer.tsx:192-232 | defines merge's three loops from a state (i, j): MergeStep until both copies are used up |
| MergeSort.MergeStep | components/AlgorithmVisualizer.tsx:192-232 | each iteration of whichever loop runs places exactly one element, from the left or the right copy |
| MergeSort.StepKinds | components/AlgorithmVisualizer.tsx:192-232 | a main-loop iteration records a comparison and a placement; a remainder iteration records one copy step |
| MergeSort.StepPairs | components/AlgorithmVisualizer.tsx:193-197 | the compared pair [start + i, mid + 1 + j] lies inside [start, end] |
| MergeSort.FromArr | components/AlgorithmVisualizer.tsx:190-232 | the loops write the merge of the remaining copies at positions start + i + j onwards and nothing else |
| MergeSort.FromKinds | components/AlgorithmVisualizer.tsx:192-232 | the loops record n comparisons, n placements and one copy step per remaining element, n being the main-loop count |
| MergeSort.FromPairs | components/AlgorithmVisualizer.tsx:192-212 | every comparison the loops record lies inside [start, end] |
| MergeSort.FromPrefix | components/AlgorithmVisualizer.tsx:192-232 | the loops only append steps |
| MergeSort.MergeOf | components/AlgorithmVisualizer.tsx:176-233 | defines merge: copy the halves, record the merging step, then the loops from (0, 0) |
| MergeSort.MergeResult | components/AlgorithmVisualizer.tsx:176-233 | merge leaves [start, end] holding the merge of the two halves, nothing else changed, the array permuted; likewise the bar merge (BarSortVisualizer.tsx:223-275) |
| MergeSort.MergeOfArr | components/BarSortVisualizer.tsx:223-275 | the array after merge is the old prefix, the merged segment, then the old suffix |
| MergeSort.MergeSorts | components/AlgorithmVisualizer.tsx:176-233 | two sorted halves leave [start, end] sorted |
| MergeSort.MergeSteps | components/AlgorithmVisualizer.tsx:180-232 | one merging step, `MergingStep` (left = start..mid, right = mid+1..end, merged = []); exactly end − start + 1 placement and copy steps; one comparison per main-loop iteration, each inside [start, end] |
| MergeSort.MergeSortTrace | components/AlgorithmVisualizer.tsx:161-174 | defines mergeSortWithSteps on [start, end]: no steps for fewer than two elements, otherwise MergeLevel |
| MergeSort.MergeLevel | components/AlgorithmVisualizer.tsx:164-173 | defines one level: the dividing step, the halves [start, mid] and [mid + 1, end] with mid = ⌊(start + end)/2⌋, then merge |
| MergeSort.MergeSortFrame | components/AlgorithmVisualizer.tsx:161-174 | mergeSortWithSteps changes nothing outside [start, end] and permutes the array |
| MergeSort.MergeSortSorted | components/AlgorithmVisualizer.tsx:161-174 | mergeSortWithSteps leaves [start, end] sorted |
| MergeSort.MergeSortStable | components/AlgorithmVisualizer.tsx:161-174 | the elements of each key keep their input order within [start, end] |
| MergeSort.MergeSortCompares | components/BarSortVisualizer.tsx:208-221 | every comparison the recursion records lies inside [start, end] |
| MergeSort.MergeSortLevels | components/BarSortVisualizer.tsx:208-230 | a range of m + 1 elements records m dividing steps and m merging steps |
| MergeSort.MergeSortEnds | components/AlgorithmVisualizer.tsx:235-246 | the trace opens on the input and closes on it sorted and permuted, with all n indices marked sorted; n ≤ 1 gives exactly two steps; likewise the bar trace (BarSortVisualizer.tsx:277-288) |
| MergeSort.MergeSortKeepsOrder | components/AlgorithmVisualizer.tsx:199 | in the final array, the elements of each key appear in their input order |
| MergeSort.MergeSortCompareRange | components/BarSortVisualizer.tsx:235-239 | every comparison of the trace is a pair x < y of input indices |
| MergeSort.MergeSortSplits | components/BarSortVisualizer.tsx:211-229 | an input of n ≥ 1 elements gives exactly n − 1 dividing steps and n − 1 merging steps |
| MergeSort.PlaceSmaller | components/AlgorithmVisualizer.tsx:192-212 | one in-place main-loop iteration produces exactly `MergeStep`'s array, indices and steps |
| MergeSort.CopyNext | components/AlgorithmVisualizer.tsx:214-232 | one in-place remainder iteration produces exactly `MergeStep`'s array, indices and steps |
| MergeSort.Merge | components/AlgorithmVisualizer.tsx:176-233 | the in-place merge leaves exactly `MergeOf`'s array and appends its steps |
| MergeSort.MergeSortRec | components/AlgorithmVisualizer.tsx:161-174 | the in-place recursion, split at ⌊(start + end)/2⌋, leaves exactly `MergeSortTrace`'s array and appends its steps |
| MergeSort.GenerateMergeSortSteps | components/AlgorithmVisualizer.tsx:158-249 | sorting a fresh copy returns exactly `MergeSortSteps(v, key, data)`; likewise the bar generator (BarSortVisualizer.tsx:205-291) |
| AlgorithmVisualizer.StepsEnds | components/AlgorithmVisualizer.tsx:77-84 | whichever algorithm is chosen, the trace opens on the fish and closes on them in price order, permuted, all indices sorted; n ≤ 1 gives exactly two steps |
| AlgorithmVisualizer.StepsCompares | components/AlgorithmVisualizer.tsx:114-116 | every comparison either algorithm records is a pair of fish indices x < y |
| AlgorithmVisualizer.QuicksortSnapshots | components/AlgorithmVisualizer.tsx:121-132 | every quicksort snapshot holds exactly the input fish |
| AlgorithmVisualizer.MergesortStable | components/AlgorithmVisualizer.tsx:199 | fish of equal price end in their input order |
| AlgorithmVisualizer.MergesortExample | components/AlgorithmVisualizer.tsx:199-205 | (A, 5), (B, 5), (C, 3) ends as (C, 3), (A, 5), (B, 5) |
| AlgorithmVisualizer.GenerateSteps | components/AlgorithmVisualizer.tsx:77-84 | `Steps(algorithm, data)` is installed and the cursor rewound to its first step, so the step shown is the trace's start step over the input rather than the fallback `ReadyStep(data)`; the playing flag is unchanged |
| BarSortVisualizer.StepsEnds | components/BarSortVisualizer.tsx:73-86 | for all three algorithms the trace opens on the input and closes on it ascending, permuted, all indices sorted; n ≤ 1 gives two steps |
| BarSortVisualizer.StepsCompares | components/BarSortVisualizer.tsx:73-86 | every comparison of the three algorithms is a pair x < y of input indices |
| BarSortVisualizer.SwappingSnapshots | components/BarSortVisualizer.tsx:105-110 | bubble sort and quicksort only exchange bars: every snapshot holds exactly the input |
| BarSortVisualizer.QuicksortDuplicates | components/BarSortVisualizer.tsx:130-203 | quicksort turns [3, 1, 3, 2, 3] into [1, 2, 3, 3, 3] with all five indices marked sorted |
| BarSortVisualizer.GenerateSteps | components/BarSortVisualizer.tsx:73-86 | the switch installs `Steps(algorithm, data)` and rewinds the cursor to its first step, so the step shown is the trace's start step over the input rather than the fallback `ReadyStep(data)`; the playing flag is unchanged |

## Left out

- Narration: the Portuguese `action` sentences are reduced to a `StepKind` tag per step. Their interpolated names, prices and values are not modelled.
- Numbers: prices and bar values are `int`. The code only compares them with `<`, `<=` and `>` and copies them, so NaN and floating point are out of scope.
- Algorithm selectors: the string selectors are closed datatypes. An unknown selector is not rejected by the code: the fish component sends it to merge sort, and the bar switch leaves the steps unchanged. The closed datatypes have no such value, so neither fallback is modelled.
- Animation: `animateStep`, the `Animated` values, their reset inside `reset`, and the timer delays (1500 ms and 800 ms) are not modelled. The timer effect is modelled only as the discrete transition `Playback.Player.Tick`. `onComplete` is reduced to Tick's `completed` result.
- React state mechanics: `useState`, the functional updates `prev => prev + 1`, and the effects' dependency arrays become plain fields and direct updates. Re-running `generateSteps` when `algorithm` or `data` changes is not modelled. The operation itself is `GenerateSteps`.
- Presentation: `getElementStyle`, `getBarStyle`, the colour precedence, the bar height and width arithmetic, `Math.max(...data)`, the legend and the JSX rendering.
- Merge sort snapshots: no lemma says that the snapshots taken inside a merge are permutations of the input. They are not: a write overwrites a position whose old element survives only in the copied halves. Only the final array is proved to be a permutation.
- `components/ui/SafeAreaView.tsx`, the screens under `app/(tabs)/` and the benchmark runner they drive are not part of this model.
