# PseudoSort: sorting by repeated pseudo-sorting passes

This project models the sorting core of `main.c` (CarlosLunaMota/PseudoSort) in Dafny.

A *pseudo-sort* is one pass over an `int` array that leaves the array less disordered and returns a flag. The bubble and heapify passes return whether the array was sorted on entry. The natural merge pass returns whether the array is sorted after the pass. It returns `ini == 0` (main.c:151), although the comment above it (main.c:111) says "already sorted". `Sort` applies a pass repeatedly until the pass returns true. The three passes are:
- a bubble pass;
- a heapify pass, which min-heapifies the suffix that starts at the insertion point of the first out-of-order element;
- a natural merge pass, which merges every adjacent pair of maximal ascending runs in one call, as main.c:121-144 does, halving the runs as main.c:108-109 says.

The file also contains four complete sorts:
- binary insertion sort;
- heap sort;
- natural merge sort;
- bottom-up merge sort.

Every routine is an imperative method on `array<int>`. Each is proved against a specification function on sequences, and lemmas about those functions carry the properties:
- every pass and every sort permutes the array;
- every sort sorts;
- each pass strictly decreases a measure of disorder unless it returns true;
- the bubble and heapify passes return true exactly when the input was sorted, and the natural merge pass returns true exactly when its output is sorted;
- the driver therefore terminates with a sorted permutation;
- the three driver paths end in a sorted permutation, which is unique by `Orders.SortedUnique`; the four sorts and `Drain` are proved equal to `InsertionSorted`, the binary insertion sort of the input.

Modules:
- `Orders`: shared vocabulary.
  - `Sorted`.
  - Maximal runs, `RunEnd`.
  - Descents: positions where `s[i-1] > s[i]`.
  - Inversions.
  - `Swap`.
  - The upper-bound search `FirstAbove`.
  - Uniqueness of sorted permutations.
- `Merging`: the merge specification.
  - The left-biased `Merge` of two sequences.
  - The natural merge sweep `Sweep` and its iterate `Drain`.
  - The fixed-width sweep `FixedSweep` and the `SortedBlocks` invariant of bottom-up merge sort.
- `Sweeps`: the array code shared by the merging routines.
  - The run scan.
  - The merge loop with its two `memcpy` tails.
  - A whole natural sweep and a whole fixed-width sweep from one buffer into the other.
- `Heaps`:
  - Min-heap and max-heap predicates.
  - The sift-down loops of the heapify pass and of heap sort.
- `PseudoSorts`:
  - The three passes.
  - `PseudoSortFunc`, the datatype standing for the function-pointer argument.
  - The driver `Sort`.
- `Sorts`: the four complete sorts.

## Model

| member | source | states |
|---|---|---|
| Orders.AdjacentSortedIsSorted | main.c:393 | The adjacent-pair order that main checks after every run holds exactly when every element is at most every later one. |
| Orders.RunEnd | main.c:79 | The run scan stops past its start. It stops either at the end of the array or at the first descent. |
| Orders.RunIsSorted | main.c:127 | Every maximal ascending run the scan delimits is sorted. |
| Orders.FirstRunCoversIffSorted | main.c:79-82 | The first run reaches the end of the array if and only if the array is sorted. This is the early `return 1` of the heapify pass. |
| Orders.NoDescentsIffSorted | main.c:108-111 | An array has no descents (it is a single run) if and only if it is sorted. |
| Orders.NoInversionsIffSorted | main.c:68-71 | An array has no inversions if and only if it is sorted. |
| Orders.Swap | main.c:58-60 | The three-assignment exchange swaps the two positions, leaves the others alone and keeps the multiset. |
| Orders.SwapInversionDecreases | main.c:57-60 | Exchanging an inverted pair strictly lowers the number of inversions. |
| Orders.FirstAbove | main.c:85-86 | The scan returns the first index from `k` whose element exceeds `x`. Every element before it is at most `x`. |
| Orders.FirstAboveIs | main.c:171-180 | An index with everything before it at most `x` and the element at it above `x` is the upper bound. This is how the binary search is tied to the linear definition. |
| Orders.SortedUnique | main.c:388-458 | Two sorted arrays with the same multiset are equal. Every sort that main checks therefore has exactly one correct output. |
| Merging.Merge | main.c:136-143 | The merge that the loop and the two tail copies write. The smaller head goes first, and on a tie the left run's head goes first (`array[x] <= array[y]`). The output is as long as both runs together. |
| Merging.MergePermutes | main.c:135-143 | Merging two runs gives an output whose length is the sum of the two and whose multiset is their union. |
| Merging.MergeSorted | main.c:135-143 | Merging two sorted runs gives a sorted run. |
| Merging.Sweep | main.c:121-147 | The output of one natural pass over `s[ini..]`. Maximal runs are paired from the left and each pair is merged. A trailing unpaired run is kept as it is. The output is as long as `s[ini..]`. |
| Merging.SweepPermutes | main.c:120-147 | A natural merge sweep over the whole array is a permutation of it. |
| Merging.SweepHalvesDescents | main.c:108-109 | A sweep at least halves the number of descents. |
| Merging.SweepHalvesRuns | main.c:108-109 | A sweep leaves at most half the runs, rounded up, as the pass's comment promises. |
| Merging.SweepKeepsSorted | main.c:129-130 | A sweep over a sorted array leaves it unchanged. |
| Merging.SweepSortedIff | main.c:151 | The sweep's output is sorted if and only if the first pair of runs covers the whole array. This is what `ini == 0` reports. |
| Merging.SweepProgress | main.c:30-33 | A sweep whose output is unsorted has strictly fewer descents than its input, so repeating the pass terminates. |
| Merging.Drain | main.c:241-243 | What repeating the natural pass until it returns true computes. Its result is sorted. |
| Merging.DrainSortedPermutation | main.c:241-243 | Sweeping until the sweep leaves the array sorted yields a sorted permutation of the input. |
| Merging.FixedSweep | main.c:321-337 | The output of one fixed-width sweep over `s[ini..]`. Blocks `[ini, mid)` and `[mid, end)` of width `step`, clamped at the length, are merged in pairs. The output is as long as `s[ini..]`. |
| Merging.FixedSweepPermutes | main.c:319-337 | A fixed-width merge sweep is a permutation of the array. |
| Merging.UnitBlocksSorted | main.c:311 | With `step = 1` every block is trivially sorted. |
| Merging.FixedSweepDoublesBlocks | main.c:319-340 | Merging pairs of sorted blocks of width `step` gives sorted blocks of width `2*step`. |
| Merging.FixedSweepRound | main.c:319-340 | One round of the fixed-width sweep keeps the length and the multiset of the array, and turns sorted blocks of width `step` into sorted blocks of width `2*step`. |
| Merging.SingleBlockSorted | main.c:317 | Once one block covers the array, the array is sorted. |
| Sweeps.CopyRange | main.c:142-143 | Copying `count` elements (`memcpy`) fills the target range from the source and leaves the rest of the target unchanged. |
| Sweeps.ScanRun | main.c:127 | The scanning `for` loop returns the end of the run that contains its start. |
| Sweeps.NextRuns | main.c:260-263 | The two run scans with the clamp of `end` find the next two runs. The second is empty when the first reaches the end. |
| Sweeps.MergeHeads | main.c:138-141 | The merge loop emits a prefix of the merge of the two runs and stops when either run is exhausted. |
| Sweeps.CopyTail | main.c:142-143 | Once one run is used up, the two `memcpy` calls write the rest of the merge, which is the other run's remainder, at `z`. Nothing else in the buffer changes. |
| Sweeps.MergeRuns | main.c:136-143 | The merge loop and the two tail copies write exactly the merge of `[ini,mid)` and `[mid,end)` at `z`. Nothing else changes. |
| Sweeps.NaturalSweep | main.c:256-274 | A full natural sweep writes `Sweep` of the source into the buffer. `ini` ends at 0 exactly when the first block is the whole array. |
| Sweeps.FixedStepSweep | main.c:320-337 | A full fixed-width sweep writes `FixedSweep` of the source into the buffer. `ini` ends at 0 exactly when `2*step` covers the array. |
| Heaps.Parent | main.c:92 | Every position after the base is the first or second child, `b + 2*(p-b) + 1` or `+ 2`, of a position before it. |
| Heaps.MinHeapLeaves | main.c:89 | The positions from `ind + (length-ind)/2` on are leaves of the heap rooted at `ind`, so sift-down may start there. |
| Heaps.MaxHeapLeaves | main.c:200 | The positions from `length/2` on are leaves. |
| Heaps.MinHeapRootIsLeast | main.c:88 | A min-heap rooted at `ind` holds the minimum of `[ind, length)` at `ind`. |
| Heaps.MaxHeapRootIsMax | main.c:217-220 | A max-heap holds its maximum at the root. |
| Heaps.SiftDownMin | main.c:90-102 | Sifting down from `root-1` extends the min-heap by one position and permutes only the suffix. The array either stays unchanged or loses inversions. |
| Heaps.SiftDownMax | main.c:201-213 | Sifting down from `parent` extends the max-heap over `[parent, n)`. It permutes that range and leaves the rest alone. |
| PseudoSorts.BubbleCarry | main.c:56-63 | The bubble loop from the element it carries: at each comparison the lesser element is left behind and the greater is carried right. The output has one more element than the rest of the array. |
| PseudoSorts.BubbleSweep | main.c:56-63 | The array after one bubble pass, as long as the input. |
| PseudoSorts.BubbleCarryPermutes | main.c:56-63 | Carrying the larger element rightward permutes the array. |
| PseudoSorts.BubbleSweepPermutes | main.c:56-63 | One bubble pass is a permutation of its input. |
| PseudoSorts.BubbleCarryLastIsMax | main.c:44-45 | After a bubble pass the last position holds the maximum. |
| PseudoSorts.BubbleCarrySorted | main.c:47 | On sorted input the bubble pass changes nothing. |
| PseudoSorts.BubbleSweepSettles | main.c:44-45 | If the last `k` elements are in their final positions, one more pass puts `k+1` there. |
| PseudoSorts.BubbleInvStep | main.c:56-63 | Each comparison at position `i`, with its exchange when out of order, keeps the pass on course to `BubbleSweep`. The flag stays true exactly while the prefix examined so far has no descent. An exchange lowers the inversion count. |
| PseudoSorts.BubbleSweepsSort | main.c:30-33 | `length` bubble passes sort any array. |
| PseudoSorts.BubblePseudoSort | main.c:49-66 | The pass computes `BubbleSweep` of the input. It returns true exactly when the input was sorted, and then leaves the array unchanged. Otherwise it strictly lowers the inversions. |
| PseudoSorts.HeapBase | main.c:79-86 | Where the heapify pass starts its heap when the input is unsorted. The first run ends before the end of the array. Every element before the heap base is at most the first element after the first run (the out-of-run element), and the element at the base, if any, is above it. |
| PseudoSorts.HeapBaseInFirstRun | main.c:84-86 | The insertion point of the first out-of-run element lies inside the first run, and the element there is larger than that element. |
| PseudoSorts.HeapRootMoved | main.c:88-105 | After min-heapifying from the insertion point, the root is at most the out-of-run element, so the array has changed. |
| PseudoSorts.ScanAbove | main.c:85-86 | The linear scan returns the first index whose element exceeds `aux`. |
| PseudoSorts.BuildMinHeap | main.c:88-103 | The loop over `root` makes `[ind, length)` a min-heap and only permutes that suffix. The array either stays unchanged or loses inversions. |
| PseudoSorts.HeapifyOutcome | main.c:88-105 | For unsorted input, the pass removes at least one inversion. It leaves `Heapified`: the prefix below the heap base is unchanged, and the suffix is permuted into a min-heap rooted at the base whose root is the least element of the suffix. |
| PseudoSorts.HeapifyPseudoSort | main.c:73-106 | Returns true exactly when the input was sorted, and then leaves the array unchanged. Otherwise everything below the insertion point `b` is unchanged, `[b, length)` is permuted into a min-heap whose root is the least element of that suffix, and the inversions strictly decrease. |
| PseudoSorts.NextRunsOrLast | main.c:126-133 | The pass's run scans find `mid` as the end of the run at `ini`, and `end` as the next run's end when there is one. |
| PseudoSorts.MergeRunPairs | main.c:121-144 | The loop writes the sweep of every pair of runs into `aux` up to `end`. It leaves at most one trailing run. `ini == 0` exactly when the first pair covers the array. |
| PseudoSorts.NaturalMergePseudoSort | main.c:113-152 | The pass computes `Sweep` of the input. It returns true exactly when the first two runs cover the array, which is exactly when the result is sorted. |
| PseudoSorts.Apply | main.c:33 | A call to any of the three passes permutes the array. When it returns true the array is sorted; otherwise the pass's disorder measure (inversions for bubble and heapify, descents for natural merge) strictly decreases. |
| PseudoSorts.Sort | main.c:15-42 | Repeating a pass until it returns true terminates with a sorted permutation of the input. With the natural merge pass the result is `Drain` of the input. |
| Sorts.Insert | main.c:171-186 | Insertion of `aux` at the upper bound found by the binary search, after every element at most `aux`. The result has one more element. |
| Sorts.InsertPermutes | main.c:182-186 | Inserting an element at the upper bound adds exactly that element. |
| Sorts.InsertSorted | main.c:182-186 | Inserting at the upper bound of a sorted prefix keeps it sorted. |
| Sorts.InsertedUpToSorts | main.c:169-187 | After inserting the first `k` elements, the prefix is a sorted permutation of the original prefix. |
| Sorts.InsertionSorted | main.c:164-188 | What binary insertion sort leaves in the array: each element in turn inserted into the sorted prefix before it. The result is as long as the input. |
| Sorts.InsertionSortedSorts | main.c:160-162 | Insertion sort yields a sorted permutation. |
| Sorts.SameAsInsertionSort | main.c:164-188 | Any sorted permutation of an array is its insertion sort. |
| Sorts.DrainIsInsertionSorted | main.c:241-243 | Repeating the natural merge pass gives the same array as insertion sort. |
| Sorts.UpperBound | main.c:171-180 | The binary search over the sorted prefix `[0,i)` returns the first index whose element exceeds `aux`. This is the position after every equal element. |
| Sorts.ShiftRight | main.c:184 | The `memmove` moves `[j,i)` one place to the right. Everything outside `[j+1, i+1)` is unchanged. |
| Sorts.InsertAt | main.c:172-186 | One outer iteration inserts `array[i]` into the sorted prefix and leaves the suffix alone. |
| Sorts.InsertionSort | main.c:164-188 | The routine computes `InsertionSorted` of the input, which is sorted and a permutation. |
| Sorts.ExtractKeepsHeap | main.c:217-221 | Swapping the root with position `i` leaves a max-heap below the root on `[0,i)`. |
| Sorts.ExtractGrowsTail | main.c:217-220 | Moving the maximum to position `i` extends the sorted tail. Every tail element is at least every heap element. |
| Sorts.PartitionedSorted | main.c:216-234 | A sorted heap part below a sorted tail whose elements are all at least the heap's makes a sorted array. |
| Sorts.BuildMaxHeap | main.c:199-214 | The heapify phase makes the whole array a max-heap and permutes it. |
| Sorts.ExtractMax | main.c:217-233 | One selection step shrinks the heap by one and keeps the heap, the sorted tail and the partition between them. |
| Sorts.HeapSort | main.c:194-235 | The routine sorts and permutes. Its result is the insertion sort of the input. |
| Sorts.DrainStep | main.c:252-298 | An unsorted sweep leaves the drained result unchanged and lowers the descents. |
| Sorts.NaturalRound | main.c:255-298 | One outer iteration either finishes with `Drain` of the input or ends after two sweeps. In the second case the drained result is unchanged and there are fewer descents. |
| Sorts.NaturalMergeSort | main.c:245-303 | The routine computes `Drain` of the input, as its comment says it is equivalent to repeating the pass. The result is sorted, a permutation, and equal to insertion sort. |
| Sorts.FixedRound | main.c:319-364 | Two fixed-width sweeps turn sorted blocks of width `step` into sorted blocks of width `4*step` and permute. `ini == 0` exactly when `4*step` covers the array. |
| Sorts.MergeSort | main.c:309-369 | The routine sorts and permutes. Its result is the insertion sort of the input. |

## Left out

- `main`, the benchmark loop, `rand` input generation, `clock` timing and the `printf` output are not modelled.
- The `DEBUG` tracing in `Sort` is not modelled, and neither is its `iter` counter. The counter is observational and `DEBUG` is fixed at 0. The comment above `Sort` says it returns the number of iterations, but the code returns `void`; the model follows the code.
- The function-pointer parameter of `Sort` is modelled as the datatype `PseudoSortFunc` with one constructor per pass. `Apply` dispatches on it.
- `malloc` and `free` of the scratch buffer are modelled as a fresh array, which is then dropped. Allocation failure is not modelled.
- `memcpy` and `memmove` are modelled as element-by-element loops (`CopyRange`, `ShiftRight`). The overlapping `memmove` copies from the top down, which moves the same values.
- `size_t` arithmetic is unbounded here:
  - the overflow of `ini+step`, `mid+step` and `step *= 2` on arrays close to `SIZE_MAX` is not modelled;
  - neither is the overflow of `length*size` in `malloc`.
- Two sweeps per outer iteration are factored into helper methods, and so are the several copies of the sift-down loop. The order of array writes is the source's own. The only difference is that the array code is shared.
- Stability is not stated. The elements are plain `int`s, so equal elements cannot be told apart. Merging favours the left run and insertion goes after equal elements, as in the code. Any sorted permutation is unique (`Orders.SortedUnique`), so every result is pinned down exactly.
- PseudoSorts.HeapifyPseudoSort requires `length >= 1`, because for an empty array the code reads `array[1]` out of bounds:
  - the first scan stops at `ind = 1`;
  - `ind == length` is false.
- PseudoSorts.NaturalMergePseudoSort requires `length >= 1`. For an empty array the code returns `ini == 0` with `ini` never assigned (main.c:116 initialises only `end`).
- Sorts.HeapSort requires `length >= 1`. For an empty array `length-1` wraps around at main.c:217, and the code then reads out of bounds.
- PseudoSorts.Sort inherits the `length >= 1` requirement for the heapify and natural merge passes. For `Sort(HeapifyPseudoSort, array, 0)` the source does not terminate: the check `ind == length` at main.c:82 fails, main.c:85 reads `array[1]` out of bounds, the root loop at main.c:89 does not run, and main.c:105 returns 0, so the driver calls the pass forever.
- The driver's termination measure for the bubble pass is the number of inversions. The number of settled tail elements is also proved, by `BubbleSweepSettles` and `BubbleSweepsSort`.
