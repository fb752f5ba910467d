# Counting sort, modelled and verified in Dafny

This project models the counting sort of `c.cpp`. `getMax` scans `vec[1..n]`
for the largest value. `countSort` then sorts `vec[1..n]` in place in four
stages:

1. It builds a frequency table `count[0..max]`.
2. It turns that table, in place, into cumulative counts.
3. It walks the input from back to front. Each element goes into slot
   `count[vec[i]]` of an `output` buffer, and that count is then decremented.
4. It copies `output[1..n]` back over `vec[1..n]`.

The arrays are 1-based, as in the program: slot 0 of `vec` and of `output` is
never read or written.

Two modules:

- `Counts` (`counts.dfy`) is the specification side. It holds ghost functions
  and lemmas over sequences:
  - `Occ(s, i, v)`: copies of `v` among the first `i` elements.
  - `CountLe(s, i, v)`: elements at most `v` among the first `i`.
  - `MaxOf`: the largest element.
  - `Rank(s, j)`: the 1-based slot that input element `j` is placed in. This
    is the number of smaller elements plus the number of copies of `s[j]` at
    or before `j`.
  - `Placed(s, t)`: every element of `s` sits at its rank in `t`.
  - `Tracks(s, src)`: `src[p]` names the input position whose element was
    written into slot `p`, that is `src[Rank(s, j)] == j + 1` for every `j`.

  The lemmas prove that ranks are a bijection onto `1..n` and that they are
  ordered by (value, input position). They then prove that any placed
  sequence is the sorted permutation of the input. They also prove that a
  tracked source map is a bijection of `1..n` that keeps equal values in
  input order, which is stability. These lemmas hold for any integer values,
  negative ones included.
- `CountingSort` (`counting_sort.dfy`) is the program, written as methods over
  `array<int>` with the same loops, bounds and updates as the source. Each
  stage of `countSort` is its own method (`Tally`, `PrefixSums`, `Place`,
  `CopyBack`), so that each loop is verified in a small context. `CountSort`
  calls them in the source's order.

`Place`, `CountingPass` and `CountSort` return a ghost sequence `src`. It
records which input position each written slot came from, so that their
contracts can state stability about what the program does, and not only
about values. It has no counterpart in the program and is never read by it.

In the sequences of `Counts`, `s[j]` stands for `vec[j + 1]`. Slot numbers
(ranks) stay 1-based, as the counts in the program's table are.

## Model

| member | source | states |
|---|---|---|
| `Counts.Occ` | c.cpp:22-25 | the frequency of `v` among the first `i` elements never exceeds `i` |
| `Counts.CountLe` | c.cpp:26-27 | the cumulative count of values `<= v` among the first `i` elements never exceeds `i` |
| `Counts.MaxOf` | c.cpp:10-17 | the maximum of the first `i` elements is at least each of them and equal to one of them |
| `Counts.OccIsMultiplicity` | c.cpp:24-25 | the frequency counted by the tally loop is the value's multiplicity in the multiset of the input |
| `Counts.OccMono` | c.cpp:28-31 | walking further back never finds fewer copies of a value, so later copies get later slots |
| `Counts.CountLeSplit` | c.cpp:26-27 | the prefix-sum step: count of values `<= v` = count of values `<= v-1` + frequency of `v` |
| `Counts.CountLeMono` | c.cpp:26-27 | cumulative counts never decrease as the value grows |
| `Counts.CountLeAbove` | c.cpp:26-27 | at a bound no element exceeds (the maximum) the cumulative count is `n` |
| `Counts.CountLeBelow` | c.cpp:22-27 | with no negative values nothing is below 0, so the prefix sum starts from the frequency of 0 |
| `Counts.Rank` | c.cpp:28-31 | the slot `count[vec[i]]` written for element `i` lies in `1..n`, inside the block of slots of its own value |
| `Counts.RankOrder` | c.cpp:28-31 | slots follow (value, input position): a later element that is not smaller lands later (stability), and a later smaller one lands earlier |
| `Counts.RankOnto` | c.cpp:28-31 | every slot `1..n` of `output` is the rank of some element; with `RankOrder`, every slot is written exactly once |
| `Counts.SlotValue` | c.cpp:28-34 | in the placed output, slot `p` lies in the block `(CountLe(v-1), CountLe(v)]` of the value `v` it holds |
| `Counts.PlacedSorted` | c.cpp:28-34 | an output that holds each element at its rank is non-decreasing |
| `Counts.PlacedOcc` | c.cpp:28-34 | an output that holds each element at its rank has as many copies of each value as the input |
| `Counts.PlacedPermutation` | c.cpp:18-34 | an output that holds each element at its rank is a permutation of the input (equal multisets) |
| `Counts.SourceOf` | c.cpp:28-31 | the source recorded for slot `p` is an input position in `1..n` whose rank is `p`, so the source map inverts the ranks |
| `Counts.SourcePair` | c.cpp:28-31 | two slots never record the same source, and two slots holding equal values record their sources in input order |
| `Counts.TrackedStable` | c.cpp:28-31 | in a placed output with a source map, slot `p` holds input element `src[p]`; `src` is injective on `1..n`, hence a bijection; equal values keep their input order (stability) |
| `Counts.SortedUnique` | c.cpp:18-35 | two sorted sequences with the same multiset are equal, so the sorted result is unique |
| `Counts.PlacedSortedPermutation` | c.cpp:18-34 | the placed output is sorted and a permutation of the input, and it equals the input when the input is already sorted |
| `CountingSort.GetMax` | c.cpp:10-17 | for `n >= 1`, returns a value `>=` every `vec[k]` with `1 <= k <= n` and equal to one of them |
| `CountingSort.Tally` | c.cpp:21-25 | a fresh table of `max + 1` zeros, then `count[v]` = number of `k` in `1..n` with `vec[k] == v`, for every `v` in `0..max` |
| `CountingSort.PrefixSums` | c.cpp:26-27 | in place, `count[v]` becomes the number of elements `<= v`, and `count[max] == n` when no element exceeds `max` |
| `CountingSort.Place` | c.cpp:28-31 | the back-to-front walk writes each `vec[i]` into `output` at its rank, and records `i` as the source of that slot (`Tracks`); it leaves `count[v]` as the number of elements `< v` |
| `CountingSort.CopyBack` | c.cpp:32-34 | `vec[1..n]` becomes `output[1..n]` and no other slot of `vec` changes |
| `CountingSort.CountingPass` | c.cpp:19-31 | the fresh `output` of length `n + 1` holds every input element at its rank, with the source map of each slot; `vec` is only read |
| `CountingSort.UnchangedIfSorted` | c.cpp:32-34 | if `vec` keeps its values outside `1..n`, and keeps them on `1..n` when the input is sorted, then a sorted input leaves `vec` as it was |
| `CountingSort.StableResult` | c.cpp:28-34 | on the array: each `vec[p]` is the input element `before[src[p]]`, `src` is a bijection of `1..n`, and equal values keep their input order |
| `CountingSort.CountSort` | c.cpp:18-35 | for `n >= 1` and non-negative values: `vec[1..n]` ends sorted and a permutation of the input, each element at its rank; each `vec[p]` is `old(vec[src[p]])` for a bijection `src` of `1..n` under which equal values keep their input order (stable); slot 0 and slots past `n` are untouched; a sorted (or single-element) input is returned unchanged |

## Left out

- `print` and `main` (c.cpp:4-8, c.cpp:36-49) are console I/O with `cin` and `cout`. They read `n` and the values into `arr[1..n]` and print the array before and after `countSort`. There is no logic in them to model.
- `benchmark/bars.py` is not part of this model. It reads a JSON file and plots bar charts of floating-point timings with a plotting library.
- Machine integers: values and indices are unbounded `int`s. The model does not capture `long` overflow, such as `max + 1` when `max` is the largest `long`. The variable-length stack arrays `output[n+1]` and `count[max+1]` become heap arrays, and stack exhaustion for a large `max` is not modelled.
- `n < 1` and negative values read out of bounds in the source: `vec[1]` in `getMax`, and `count[vec[i]]` at c.cpp:25. They are undefined behaviour there, not handled error cases, so the model makes them preconditions (`requires 1 <= n` and non-negative `vec[1..n]`) instead of error results.
- `countSort`'s `output` buffer starts uninitialised in C, whereas Dafny zero-fills new arrays. The model does not depend on those zeros: `RankOnto` and `RankOrder` show that every slot `1..n` is written exactly once before it is copied.
- `countSort` is one function in the source. Here its stages are separate methods called in the same order, with the same loops.
- `vec` may be longer than `n + 1`. Slots past `n` are never touched, as in the source.
