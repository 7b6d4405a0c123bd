# numba statistics engine, modelled in Dafny

numba ("a NUMBer Analyzer") is a command-line program. It reads a list of
integers and reports statistics about it:

- the list sorted either way;
- the mean, the median and the range;
- the distinct values and how often each occurs;
- the modes;
- how many numbers lie below and above the mean and the median.

This project models its computational core. That core consists of the
routines of `src/numba.cpp` from the XOR swap to `getLessGreaterThanMedian`.
The model is imperative, as the source is. Every routine is a `method` over arrays,
with the same loops as the source. Each method is proved against
specification functions and predicates on sequences, and lemmas state what
those functions promise.

The modules follow the routines:

| module | file | models |
|---|---|---|
| `Numbers` | `numbers.dfy` | the machine widths and the shared specification vocabulary: sortedness, distinctness, sums, multiplicities |
| `Sorter` | `sorter.dfy` | `swap`, `splitArraySmallToLarge`, `splitArrayLargeToSmall`, `quicksort` |
| `Aggregates` | `aggregates.dfy` | `getMean`, `getMedian`, `getRange` |
| `Frequency` | `frequency.dfy` | `removeDuplicates`, `getCount` |
| `Mode` | `mode.dfy` | `getMode` |
| `Thresholds` | `thresholds.dfy` | `getLessGreaterThanMean`, `getLessGreaterThanMedian` |

Machine widths are explicit:

- The values are `int`s read with `atoi`, so they lie in the 32-bit range (`Analyzable`).
- The list length travels as an `unsigned short`, so there are at most 65535 numbers.
- Every `long` accumulator or result, and `getCount`'s counting array `numOccurances`, has the subset type `Long`. The `long` arrays that only hold copies of input values (`numbers`, `noDuplicates`, `modes`) are `array<int>`: their cells are only copied, compared and swapped, so they only ever hold input values and the 0 that the XOR swap writes at a split point.
- Every `unsigned short` variable, parameter and result (the counts, `numUnique`, `mostOccurances`, `numModes`, the `occurances` array) has the type `UShort`. The length `numNumbers` is the array's length, which the preconditions bound by 65535.

Each assignment to one of these types is a proof obligation. So the model
proves that no sum, difference or count of the program overflows for any
list that the program can be given.

Some behaviour of the code differs from a plain reading of its purpose, and
the model follows the code:

- `swap` is an XOR swap. When both of its arguments are the same cell, it
  zeroes that cell. The partition routines always end with such a self-swap
  at the meeting point whenever the range has two or more elements. So the
  partition routines return with a 0 at the split point.
  `quicksort` overwrites that 0 with the pivot, and the sort is correct. The
  model states this (`SplitArraySmallToLarge`, `Quicksort`).
- `getMedian`, `removeDuplicates` (and through it `getCount` and `getMode`) and
  `getLessGreaterThanMedian` sort the caller's array in place. They do not sort
  a private copy. Their contracts say that the array is left sorted and
  permuted.
- The descending partition moves values strictly above the pivot to the
  left. Values equal to the pivot go to the right side.
- The program has no parity (odd/even) routine, and none is modelled.

## Model

| member | source | states |
|---|---|---|
| Sorter.XorSwapOnWords | src/numba.cpp:53-58 | on 64-bit words the three XORs exchange two distinct cells and zero a cell swapped with itself |
| Sorter.Swap | src/numba.cpp:53-58 | the array afterwards is `Swapped`: the two cells exchanged, or the cell zeroed when both positions coincide |
| Sorter.SwapPermutes | src/numba.cpp:53-58 | swapping two distinct positions keeps the multiset of the list |
| Sorter.SwapMovesHole | src/numba.cpp:76-84 | swapping the cell that is due to receive the pivot moves that duty along, keeping the multiset once the pivot is written back |
| Sorter.SplitStep | src/numba.cpp:68-85 | one round of the outer partition loop (two cursor scans and two swaps) keeps the partition invariant: values left of `left` belong left, values right of `right` belong right, the rest of the array is untouched, and the multiset is kept with the pivot at the left cursor |
| Sorter.SplitFinished | src/numba.cpp:85-87 | once the cursors meet, the range is split around the pivot, the meeting cell holds 0 (or the pivot for a one-element range), and the multiset with the pivot restored is the original one |
| Sorter.SplitArraySmallToLarge | src/numba.cpp:63-88 | returns a split point within the range; values at most the pivot lie left of it and values above the pivot right of it; outside the range nothing changes; the split cell holds 0 for ranges of two or more; writing the pivot there restores the original multiset |
| Sorter.SplitArrayLargeToSmall | src/numba.cpp:93-118 | the same, with values above the pivot on the left and values at most the pivot on the right |
| Sorter.Split | src/numba.cpp:132-141 | the direction choice of `quicksort`: the contract of the chosen partition routine |
| Sorter.Quicksort | src/numba.cpp:123-147 | the inclusive range ends sorted in the requested direction and is a permutation of what it held; cells outside it are unchanged; a range with `end <= start` is left alone |
| Sorter.QuicksortSorted | src/numba.cpp:143-145 | a partition around the pivot, the pivot written back, and two sorted sides give a sorted range |
| Sorter.QuicksortPermutes | src/numba.cpp:143-145 | the partition, the pivot write and the two recursive sorts together only permute the range |
| Numbers.SumBounds | src/numba.cpp:154-159 | a sum of n 32-bit values lies between n times the smallest and n times the largest 32-bit value |
| Numbers.SortedAround | src/numba.cpp:143-145 | two sorted sides on the correct sides of a pivot, joined around it, are sorted |
| Numbers.SliceMultiset | src/numba.cpp:144-145 | two lists that agree outside a slice are permutations of each other exactly when the slices are |
| Numbers.PermutationKeepsBounds | src/numba.cpp:171 | reordering a list keeps any bound on all its values |
| Numbers.StrictlyIncreasingIsDistinct | src/numba.cpp:201-209 | a strictly increasing list repeats no value |
| Numbers.DistinctMultiplicity | src/numba.cpp:219-231 | in a list without repetitions each value occurs once or not at all |
| Numbers.MultiplicityAtMostLength | src/numba.cpp:224-230 | no value occurs more often than the list is long |
| Aggregates.GetMean | src/numba.cpp:152-162 | the running `long` total never overflows, and the result is the exact sum divided by the length |
| Aggregates.SumFitsLong | src/numba.cpp:154-158 | the sum of an analyzable list fits a `long` |
| Aggregates.SumBelowBound | src/numba.cpp:152-162 | values all below m sum to less than the length times m |
| Aggregates.SumAboveBound | src/numba.cpp:152-162 | values all above m sum to more than the length times m |
| Aggregates.MeanWithinValues | src/numba.cpp:152-162 | some value is at most the mean and some value is at least the mean |
| Aggregates.PermutationKeepsAnalyzable | src/numba.cpp:171 | sorting keeps the list within the 32-bit and length bounds |
| Aggregates.GetMedian | src/numba.cpp:167-186 | the caller's array ends sorted ascending and permuted; the result is its middle value, or the average of its two middle values at indices n/2-1 and n/2 for even n; their `long` sum does not overflow |
| Aggregates.GetRange | src/numba.cpp:282-301 | the result is non-negative, no difference between two values exceeds it, some difference equals it, and it is 0 exactly when all values are equal |
| Thresholds.CountSideIsPositions | src/numba.cpp:313-323 | the scanned count for a side is the number of positions whose value lies on that side |
| Thresholds.CountSidesPartition | src/numba.cpp:313-323 | the counts below, equal and above add up to the length |
| Thresholds.CountSideConcat | src/numba.cpp:313-323 | the count over a concatenation is the sum of the counts |
| Thresholds.CountSideExtremes | src/numba.cpp:313-323 | the count is 0 exactly when no value is on that side, and the length exactly when every value is |
| Thresholds.CountSideRemove | src/numba.cpp:336-346 | removing one value removes its contribution to the count |
| Thresholds.CountSidePermutation | src/numba.cpp:331-346 | reordering the list changes no count |
| Thresholds.CountSideOutside | src/numba.cpp:336-346 | a block of positions none of which is on a side bounds that side's count by the length minus the block |
| Thresholds.NoTiesIff | src/numba.cpp:313-323 | less plus greater is the length exactly when no value equals the threshold |
| Thresholds.MeanSplitsValues | src/numba.cpp:306-324 | neither the count below the mean nor the count above it takes in every number |
| Thresholds.MedianBalanced | src/numba.cpp:329-347 | in a sorted list at most half the values lie strictly below the median and at most half strictly above |
| Thresholds.CountLessGreater | src/numba.cpp:310-323 | the shared counting loop: the `unsigned short` counts are exactly the number of values strictly below and strictly above the threshold, with ties counted in neither |
| Thresholds.GetLessGreaterThanMean | src/numba.cpp:306-324 | the counts below and above the mean; each is less than the length; they add up to the length exactly when no value equals the mean |
| Thresholds.GetLessGreaterThanMedian | src/numba.cpp:329-347 | the array ends sorted and permuted; the counts below and above the median are those of the original list; each is at most half the length; they add up to the length exactly when no value equals the median |
| Frequency.SumAddIndicator | src/numba.cpp:224-230 | adding one at the positions holding a value adds that value's multiplicity to the sum |
| Frequency.MultiplicitiesSum | src/numba.cpp:215-232 | the counts of a repetition-free list covering all values add up to the length |
| Frequency.DeduplicatedStep | src/numba.cpp:201-209 | scanning one more sorted value copies it exactly when it differs from the last copy, keeping the copies strictly increasing and equal as a set to the values scanned |
| Frequency.RemoveDuplicates | src/numba.cpp:191-210 | the caller's array ends sorted and permuted; the first `numUnique` (between 1 and n) cells of `noDuplicates` are strictly increasing and hold exactly the values of the list; the other cells are unchanged |
| Frequency.MultiplicityStep | src/numba.cpp:224-230 | scanning one more value raises the count of v exactly when it is v |
| Frequency.CountOne | src/numba.cpp:221-230 | the count of one distinct value starts at 0 and ends as the number of its occurrences in the list, without overflowing a `long`; no other cell changes |
| Frequency.CountEach | src/numba.cpp:219-231 | the first `numUnique` `long` counts become the multiplicities of the distinct values, and no increment overflows; the other cells are unchanged |
| Frequency.CountsFacts | src/numba.cpp:215-232 | each count is between 1 and the length, and they add up to the length |
| Frequency.GetCount | src/numba.cpp:215-232 | everything `RemoveDuplicates` promises, plus: each count is the multiplicity of its value, lies between 1 and n, and the counts sum to n |
| Mode.MaxOfIsMaximum | src/numba.cpp:245-256 | the scan's maximum, starting from 0, is at least 0, bounds every count, and is 0 or one of the counts |
| Mode.MaxOfSameEntries | src/numba.cpp:245-256 | lists with the same entries, in any order and number, have the same maximum |
| Mode.MaxMultiplicityIsMaximum | src/numba.cpp:245-256 | no value occurs more often than the largest multiplicity, and in a non-empty list some value occurs exactly that often |
| Mode.MaxMultiplicityPermutation | src/numba.cpp:243 | reordering the list keeps its largest multiplicity |
| Mode.MaxOverValues | src/numba.cpp:245-256 | the largest count over the distinct values is the largest multiplicity of the list |
| Mode.RepeatedMultiplicity | src/numba.cpp:258-262 | a value at two positions occurs at least twice |
| Mode.NoModeIffDistinct | src/numba.cpp:258-262 | for a non-empty list, the largest multiplicity is 1 exactly when no value repeats |
| Mode.ModesAmongPicks | src/numba.cpp:265-273 | the values picked are strictly increasing, no more than the distinct values, and exactly those whose multiplicity is the given count |
| Mode.ModesAmongStep | src/numba.cpp:267-272 | looking at one more distinct value picks it exactly when its count is the maximum |
| Mode.MostOccurrences | src/numba.cpp:245-256 | the first loop of `getMode` returns the maximum of the counts, starting from 0 |
| Mode.CollectModes | src/numba.cpp:265-273 | the second loop writes the picked values to the front of `modes` and the maximum count beside each in `occurances`; the rest of both arrays is unchanged |
| Mode.ModeFacts | src/numba.cpp:243-262 | the counts fit an `unsigned short`, their maximum is the list's largest multiplicity, and it is 1 exactly when the list repeats no value |
| Mode.ModesFound | src/numba.cpp:265-273 | with a maximum other than 1, the picked values are non-empty, strictly increasing and exactly the most frequent values |
| Mode.GetMode | src/numba.cpp:237-277 | the array ends sorted and permuted; there are no modes exactly when no value repeats; otherwise the modes are, in increasing order, exactly the values of largest multiplicity, each reported with that multiplicity; cells past the modes are unchanged |

## Left out

- `main`, `printUsageInfo` and `printFullInfo` are not modelled. These are
  option parsing, `atoi` and printing (I/O). Their only effect on the core
  is that the list holds 32-bit values and has between 1 and 65535 entries,
  which is what `Analyzable` and the length preconditions require.
- The numbers passed in are `long*` plus a separate count. The model passes
  an array whose length is the count, because every call sends the whole
  list.
- The mean and the median are exact rationals (`real`). The program
  computes them in IEEE `double`. Rounding of the division and of the
  comparisons against the mean is not modelled.
- Allocation and freeing are not modelled. That includes the leak in
  `getMode`: when no value repeats it returns before freeing its two
  scratch arrays.
- Sorter.Quicksort: requires `start <= end + 1`. The C code reads
  `numbers[start]` before testing the range and accepts any `start`/`end`.
  The model reads the pivot inside the test and demands a range within the
  array. This covers every call the program makes, including the empty
  ranges of its recursive calls.
- Sorter.SplitArraySmallToLarge and Sorter.SplitArrayLargeToSmall: require
  `a[start] == pivot` and `start <= end`. This is the only way `quicksort`
  calls them, and the partition depends on it.
- Sorter.Split, Thresholds.CountLessGreater, Frequency.CountEach,
  Frequency.CountOne, Mode.MostOccurrences and Mode.CollectModes: each is one loop or branch of
  a source routine, factored out as its own method. The routine that
  contains the code in the source calls it at the same point.
