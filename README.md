# Property-based testing examples: the functions under test, verified

The repository is a set of example test suites for a property-based testing
library. The library itself (strategies, `@given`, `@example`, `@settings`,
shrinking, `event` statistics) is imported and is not part of this model. What
the repository does define are the small functions its tests exercise:

- a run-length codec (`encode`/`decode` in test_hypothesis.py), modelled in
  module `RunLength`. `Encode` and `Decode` are the loops of Python's `encode`
  and `decode`. They are proved equal to two specification functions. `Runs(s)` is the list of
  maximal runs of `s`. `Expand(runs)` is the string a run list stands for.
  The lemmas prove both round trips. They also prove that every encoding is
  well formed: positive counts, and no two neighbouring runs with the same
  character. Finally they prove that a well-formed run list is determined by
  the string it decodes to;
- the bucketing helper `length_to_range` (test_hypothesis.py), modelled in
  module `LengthBuckets`;
- `bubble_sort` (test_bubble_sort.py), modelled in module `Sorting`.
  `BubbleSort` copies its input array and repeats the in-place sweep `Pass`
  until a sweep makes no swap. It is proved to return a sorted permutation
  and to leave its argument untouched. It terminates because each swap
  removes exactly one inversion;
- `count_bits_slow` (test_gmpy_popcount.py), modelled in module `BitCount`
  as the number of '1' characters in Python's `bin(n)`. It is proved equal to
  the population count of |n|.

Python's `encode` keeps the previous character in `prev`, which starts as the
empty string. A `char` cannot be empty, so the model uses `Option<char>`, with
`None` before the first character. Python's `c * n` is `Repeat`, which gives
the empty string for `n <= 0`. Python's `//` with the positive divisor 5
agrees with Dafny's `/` on every integer. `bin` of a negative number starts
with "-0b", and `Bin` models that too.

The tests compare the set of sorted elements with the set of input elements.
The model proves the stronger multiset equality, and derives the membership
equality from it. The tests check only neighbouring pairs for sortedness.
`AdjacentSortedIsSorted` shows that this is the same as full sortedness.

## Model

| member | source | states |
|---|---|---|
| `RunLength.Encode` | test_hypothesis.py:5-22 | the result is the list of maximal runs of the input: empty for the empty string, decodes back to the input, counts at least 1 and summing to the length, neighbouring characters distinct, every character taken from the input |
| `RunLength.Decode` | test_hypothesis.py:25-29 | the accumulated string is the expansion of the run list: each run contributes count copies of its character, none when the count is not positive |
| `RunLength.Repeat` | test_hypothesis.py:28 | `character * count` has max(count, 0) characters, all equal to the character |
| `RunLength.RunsRoundTrip` | test_hypothesis.py:32-34 | decoding the encoding of any string gives back the string |
| `RunLength.RunsWellFormed` | test_hypothesis.py:8-19 | every encoding has counts of at least 1 and no two neighbouring runs with the same character |
| `RunLength.RunsOfExpand` | test_hypothesis.py:5-29 | encoding the decoding of a well-formed run list gives back that list |
| `RunLength.WellFormedUnique` | test_hypothesis.py:11-21 | two well-formed run lists that decode to the same string are equal |
| `RunLength.FirstRunNotShorter` | test_hypothesis.py:12-19 | two well-formed lists with the same decoding start with the same character, and neither first run can be shorter than the other |
| `RunLength.SecondRunBoundary` | test_hypothesis.py:12-15 | in a well-formed list the character right after the first run differs from the first run's character |
| `RunLength.ExtendExpand` | test_hypothesis.py:12-19 | one loop step (grow the last run or start a new one) appends exactly the current character to the decoded string |
| `RunLength.ExtendWellFormed` | test_hypothesis.py:12-19 | one loop step keeps the run list well formed and non-empty |
| `RunLength.ExpandAppend` | test_hypothesis.py:25-29 | decoding a concatenation of run lists is the concatenation of their decodings |
| `RunLength.ExpandLength` | test_hypothesis.py:25-29 | with no negative counts, the decoded length is the sum of the counts |
| `RunLength.ExpandCharsFromRuns` | test_hypothesis.py:25-29 | every character of a decoded string is the character of some run |
| `RunLength.RunCharOccurs` | test_hypothesis.py:25-29 | the character of a run with a positive count occurs in the decoded string |
| `LengthBuckets.LengthToRange` | test_hypothesis.py:85-88 | the range `(lo, hi)` holds n, has width 5, starts at a multiple of 5, and starts at 0 or above for a length |
| `LengthBuckets.LengthToRangeUnique` | test_hypothesis.py:85-91 | the range is the only width-5 range starting at a multiple of 5 that holds n, so the event labels partition the lengths |
| `LengthBuckets.LengthToRangeMonotonic` | test_hypothesis.py:85-88 | a larger length never gets an earlier range, and two lengths in one range are less than 5 apart |
| `Sorting.BubbleSort` | test_bubble_sort.py:5-14 | returns a new array of the same length, a permutation of the input with the same elements, sorted; the argument is not modified; an input with no neighbouring pair out of order comes back unchanged |
| `Sorting.Pass` | test_bubble_sort.py:9-13 | after one sweep the array holds `Sweep` of its old contents: one step for each neighbouring pair from left to right, each swapping its pair when out of order; it reports a swap exactly when some neighbouring pair was out of order; the array is a permutation of the old one, with strictly fewer inversions after a swap and unchanged without one |
| `Sorting.SweepFacts` | test_bubble_sort.py:10-13 | a whole sweep keeps the length and the multiset of elements; it leaves the list unchanged exactly when no neighbouring pair is out of order, and otherwise strictly lowers the inversion count |
| `Sorting.SweepPrefixPermutes` | test_bubble_sort.py:10-13 | the first i steps of a sweep keep the multiset of elements |
| `Sorting.SweepPrefixInversions` | test_bubble_sort.py:10-13 | the first i steps of a sweep never add inversions, and remove at least one whenever they change the list |
| `Sorting.SweepPrefixUnchanged` | test_bubble_sort.py:10-13 | the first i steps of a sweep leave the list unchanged exactly when every neighbouring pair before i is in order |
| `Sorting.SweepPrefixStep` | test_bubble_sort.py:10-13 | after one more step the list is still unchanged exactly when it was unchanged before and the pair at i is in order: the `swapped` flag of the loop |
| `Sorting.StepPermutes` | test_bubble_sort.py:11-12 | one step of the loop keeps the multiset of elements |
| `Sorting.StepInversions` | test_bubble_sort.py:11-12 | one step changes the list exactly when its pair is out of order, never adds inversions, and removes one when it changes the list |
| `Sorting.SwapAdjacentPermutes` | test_bubble_sort.py:12 | exchanging neighbours keeps the multiset of elements |
| `Sorting.SwapAdjacent` | test_bubble_sort.py:12 | exchanging neighbours keeps the length, exchanges the two elements and moves no other |
| `Sorting.SwapReducesInversions` | test_bubble_sort.py:11-13 | swapping an out-of-order neighbouring pair lowers the inversion count by exactly one (the termination argument) |
| `Sorting.CountBelowSwap` | test_bubble_sort.py:12 | swapping neighbours does not change how many elements lie below a given value |
| `Sorting.AdjacentSortedIsSorted` | test_bubble_sort.py:38-40 | a sequence is sorted exactly when every element is at most its right neighbour |
| `Sorting.SortedUnique` | test_bubble_sort.py:35-40 | two sorted sequences with the same multiset of elements are equal |
| `Sorting.HeadIsMinimum` | test_bubble_sort.py:38-40 | the first element of a sorted sequence is at most every element of any rearrangement of it |
| `Sorting.SortSequence` | test_bubble_sort.py:5-14 | sorting a sequence through an array gives a sorted rearrangement of it |
| `Sorting.FirstExample` | test_bubble_sort.py:19 | the only sorted rearrangement of [5, 3, 1, 4, 2] is [1, 2, 3, 4, 5] |
| `Sorting.SecondExample` | test_bubble_sort.py:20 | the only sorted rearrangement of [1, 3, 1, 3, 5] is [1, 1, 3, 3, 5] |
| `Sorting.FirstArrangement` | test_bubble_sort.py:19 | [1, 2, 3, 4, 5] has the same elements as [5, 3, 1, 4, 2] |
| `Sorting.SecondArrangement` | test_bubble_sort.py:20 | [1, 1, 3, 3, 5] has the same elements as [1, 3, 1, 3, 5] |
| `Sorting.Examples` | test_bubble_sort.py:17-20 | bubble sort maps [5, 3, 1, 4, 2] to [1, 2, 3, 4, 5] and [1, 3, 1, 3, 5] to [1, 1, 3, 3, 5] |
| `BitCount.CountBitsSlow` | test_gmpy_popcount.py:11-12 | `bin(n).count("1")` is the population count of abs(n), at most the number of binary digits of abs(n), and 0 for 0 |
| `BitCount.OnesAreSetBits` | test_gmpy_popcount.py:12 | the '1' digits of the binary representation of n are exactly its set bits |
| `BitCount.BinaryDigitsRoundTrip` | test_gmpy_popcount.py:12 | the digits after the "0b" prefix are binary, have no leading zero, and read back as n |
| `BitCount.BinaryDigitsLength` | test_gmpy_popcount.py:12 | a positive n with k digits satisfies 2^(k-1) <= n < 2^k |
| `BitCount.BinaryDigits` | test_gmpy_popcount.py:12 | the binary representation has at least one digit, "0" for zero |
| `BitCount.OccurrencesAppend` | test_gmpy_popcount.py:12 | counting a character in a concatenation adds the counts of the parts |
| `BitCount.Bin` | test_gmpy_popcount.py:12 | `bin(n)` is "-0b" for negative n and "0b" otherwise, followed by binary digits with no leading zero (unless n is 0) that read back as abs(n) |
| `BitCount.Occurrences` | test_gmpy_popcount.py:12 | `str.count` of one character is at most the string's length, and 0 exactly when the character does not occur; `OccurrencesAppend` adds that counts are additive over concatenation |

## Left out

- The property-based testing engine (strategies, `given`, `example`, `settings`, shrinking, `event` statistics): it is an imported library whose code is not part of this model.
- The event label string built from `length_to_range` (test_hypothesis.py:91): it exists only to be passed to `event`, which is not modelled.
- `my_sort` and `sort_this_list`, and the whole of sorted_list_hypothesis.py: they only call Python's built-in `sorted`.
- The JSON, JSON5, YAML and base32 round-trip tests: they call external codec libraries.
- `gmpy2.popcount` is a foreign C library. `Popcount` stands in for it as the reference definition. The import guard and the pytest skip are test plumbing.
- The tests of Python built-ins at test_hypothesis.py:37-63: integer commutativity and cancellation, reversing a list twice, and tuple types. They test the language, not repository code.
- RunLength.Decode: runs hold one `char`, as every run produced by `encode` does. Python's `decode` would also accept tuples whose first item is a longer string, and it would repeat that whole string.
- Sorting.BubbleSort: sorts integers only. Python's version sorts any values that `>` can compare.
- Sorting.Pass: the inner `for` loop and the resetting of `swapped` are a method of their own. Python writes them inline in the `while` loop.
