# Weighted interval scheduling, modelled in Dafny

This project models the weighted-interval-scheduling solver of `main.py`.
Given intervals with a begin time, an end time and a weight, the solver
sorts them by end time and then picks a set of mutually non-overlapping
intervals of maximum total weight. It returns the weight and the chosen
intervals in time order. Two intervals that only touch (one ends exactly
where the other begins) count as overlapping.

Modules, one per component of `main.py`:

- `Intervals` (`interval.dfy`): the `Interval` value, with field-by-field
  equality. It also holds the predicates the contracts are written in:
  well-formed (`begin <= end`), end-sorted, compatible (no two overlap) and
  the total weight of a list.
- `IntervalsBefore` (`intervals_before.dfy`): `GetIntervalsBefore`. It is a
  method with the source's loop and `break`, proved equal to the function
  `Before`, which the recursion uses.
- `SortByEnd` (`sort_by_end.dfy`): the in-place stable sort by end time that
  `GetBestSchedule` applies to the caller's list. It is an insertion sort on
  the caller's array, proved equal to the function `SortedByEnd`. A stable
  sort by a key has exactly one possible output, so this gives the same
  result as Python's `list.sort`.
- `Subsequences` (`subsequence.dfy`): order-preserving selection from a
  list, stated from the back the way the solver appends.
- `Scheduling` (`schedule.dfy`): `RecursiveBody`, as a recursive function
  that has no cache, just like the source. Also `GetBestSchedule`, as a
  method that sorts the caller's array in place and then runs the
  recursion.
- `ScheduleTable` (`schedule_table.dfy`): an addition, since `main.py` has
  no table. It computes the schedule of each prefix once and is proved to
  return exactly the value of the source's recursion.
- `TestData` (`test_data.dfy`): the data of the source's unit tests, plus
  four small cases: a scan that runs to the end of its list, two touching
  intervals, a weight tie, and a negative weight.

The result pair `(weight, intervals)` is the datatype `Scheduling.Schedule`.

Times and weights are unbounded integers.

The source's `max(..., key=weight)` keeps its first argument when the
weights are equal, so a tie goes to the branch that includes the last
interval. `MaxByWeight` models this.

The single-interval base case returns that interval even when its weight is
negative. A textbook recurrence with an empty base case would skip such an
interval. The model follows the source, so optimality is proved only for
nonnegative weights. `TestData.NegativeWeightKept` shows the difference.

## Model

| member | source | states |
|---|---|---|
| `Intervals.IntervalEquality` | main.py:6-17 | `Interval` is a datatype: two intervals are equal exactly when begin, end and weight are all equal, as `__eq__` compares them. |
| `IntervalsBefore.CutoffIndex` | main.py:28-35 | The scan stops at an index no larger than the list. Every interval before that index ends strictly before the cutoff. If the scan stopped early, the interval at the stop index ends at or after the cutoff (the `break`). |
| `IntervalsBefore.Before` | main.py:26-35 | What `GetIntervalsBefore` returns is a prefix of its input. |
| `IntervalsBefore.GetIntervalsBefore` | main.py:26-35 | The loop with `break` returns a prefix of the input. Every interval in it ends strictly before the reference begins, so touching ones are left out. When the prefix is shorter than the input, the next interval ends at or after the reference's begin. The result equals `Before`. |
| `IntervalsBefore.BeforeIsFilterWhenSorted` | main.py:27-34 | On an end-sorted list, the prefix holds exactly the intervals that end before the reference begins, in input order. |
| `IntervalsBefore.RecursiveArgumentsShrink` | main.py:45-48 | If the last interval is well formed, the include branch's argument is strictly shorter than the list. On an end-sorted list, both recursive arguments stay end-sorted. |
| `SortByEnd.Insert` | main.py:51 | The result is one longer than the list it was inserted into, and it contains the inserted interval. |
| `SortByEnd.SortedByEnd` | main.py:51 | The result of the sort has as many intervals as its input. Permutation, order and stability are the three lemmas below. |
| `SortByEnd.SortedByEndPermutation` | main.py:51 | The sort only reorders: the result is a permutation of the input. |
| `SortByEnd.SortedByEndIsSorted` | main.py:51 | The sort's result is ascending by end time. |
| `SortByEnd.SortedByEndStable` | main.py:51 | The sort is stable: for every end time, the intervals with that end keep their relative order. |
| `SortByEnd.InsertStable` | main.py:51 | Inserting an interval appends it to the intervals of equal end time and leaves every other end time's intervals in order. |
| `SortByEnd.InsertAt` | main.py:51 | The insertion places the new interval after the intervals ending no later than it, and before those ending later. |
| `SortByEnd.SortIntervalsByEnd` | main.py:51 | After the in-place sort, the caller's array holds the stable sort of its old contents. |
| `SortByEnd.InsertLast` | main.py:51 | One insertion pass moves the next interval into place among the sorted ones. The rest of the array is left unchanged. |
| `Scheduling.WithLast` | main.py:46-47 | The include candidate's intervals are the sub-schedule's intervals with the last interval appended. If the sub-schedule's weight is the sum of its weights, so is the candidate's. |
| `Scheduling.MaxByWeight` | main.py:49 | `max(..., key=weight)` returns one of its two arguments, with a weight at least as large as both. On equal weights it returns the first argument, the include branch. |
| `Scheduling.RecursiveBody` | main.py:39-49 | For any well-formed list, the returned weight is the sum of the returned intervals' weights. The returned intervals are a subsequence of the list, and no two of them overlap (touching counts as overlap). An empty list gives `(0, [])`. One interval gives `(its weight, [it])`. |
| `Scheduling.IncludeBranchFeasible` | main.py:45-47 | Appending the last interval to the best schedule of the intervals before it yields a feasible schedule of the whole list. Its weight is the sum of its intervals' weights. |
| `Scheduling.ChosenInEndOrder` | main.py:45-47 | The chosen intervals are in ascending end order, and each ends strictly before the next begins. |
| `Scheduling.OthersEndBeforeLast` | main.py:45 | In an end-sorted list, the intervals that can precede the last one in a compatible selection all lie in the prefix the scan returns. |
| `Scheduling.Optimal` | main.py:44-49 | On an end-sorted list with nonnegative weights, no compatible subsequence weighs more than the returned schedule. |
| `Scheduling.GetBestSchedule` | main.py:38-53 | The caller's array is sorted in place. Afterwards it is a permutation of the old contents, ascending by end time, and stable for equal ends. The result is the recursion applied to the sorted list. Its weight is the sum of the chosen weights. The chosen intervals are a subsequence of the sorted list, in end order, and pairwise non-overlapping. With nonnegative weights, the result weighs at least as much as any compatible subsequence. |
| `ScheduleTable.BestScheduleBottomUp` | main.py:39-49 | The bottom-up table (an addition) returns exactly what the source's recursion returns. |
| `ScheduleTable.ExtendTable` | main.py:44-49 | The next table entry is the recursion's schedule of the next prefix, built from two earlier entries. |
| `ScheduleTable.PrefixScan` | main.py:45 | On the prefix of length k, the scan for its last interval returns a prefix of the list shorter than k. |
| `ScheduleTable.PrefixStep` | main.py:44-49 | The recursion's value on a prefix of two or more intervals depends on two values. One is its value on the prefix the scan returns, with the last interval appended. The other is its value on the prefix one shorter. Ties go to the first. |
| `Intervals.CompatibleIffConsecutive` | main.py:45-47 | For well-formed intervals, "each ends before the next begins" is equivalent to "each ends before every later one begins". |
| `Intervals.CompatibleIsEndSorted` | main.py:45-47 | Well-formed, pairwise non-overlapping intervals are ascending by end time. |
| `TestData.IntervalsBeforeBasic` | main.py:58-65 | For reference `(5, 10)` against `[(1,3), (2,6), (5,10)]`, the scan returns `[(1,3)]`. |
| `TestData.IntervalsBeforeExhausted` | main.py:30-35 | For cutoff 8 against `[(1,3), (2,6), (5,7)]`, all three end earlier, so the scan stops at index 3, the end of the list. |
| `TestData.OptimalInputSortOrder` | main.py:70-76 | The disjoint test intervals sort into end order. |
| `TestData.OptimalInputReturnsInputSorted` | main.py:77-82 | All three disjoint intervals are chosen, for a weight of 3. |
| `TestData.RemovesOverlappingSortOrder` | main.py:84-90 | `(3,4)` sorts after `(1,4)`, whose end it shares, and before `(5,6)`. |
| `TestData.RemovesOverlappingInterval` | main.py:91-95 | `(3,4)` overlaps `(1,4)`: it begins at 3, before 4. It is dropped, and the result is `(7, [(1,4), (5,6)])`. |
| `TestData.TouchingIntervalsNotBothChosen` | main.py:31 | `(1,3)` ends exactly where `(3,5)` begins. Touching counts as overlap, so only one of them is chosen: `(1, [(3,5)])`. |
| `TestData.TieGoesToInclude` | main.py:49 | On equal weights, `max` keeps the include branch, so the later-ending interval is chosen. |
| `TestData.NegativeWeightKept` | main.py:42-43 | The single-interval base case keeps a negative weight, although the empty schedule weighs more. |

## Left out

- Floating-point times and weights (NaN, rounding of sums): the model uses unbounded integers.
- `__str__` and `__repr__` (main.py:19-23): presentation only.
- The `unittest` classes and the `__main__` runner (main.py:56-99): their data appear as lemmas in `TestData`.
- Intervals with `begin > end`: every solver member requires all intervals to be well formed, which excludes every list that holds such an interval. The source does not hang on all of them. It fails only when a malformed interval is last in a sub-list of two or more whose intervals all end before it begins, as in `[(5,3), (10,4)]`. Then the include branch recurses on the same list until Python's recursion limit. On other such lists the source returns a result that the model does not cover. Examples are a lone `(5,3)`, for which it returns `(its weight, [it])`, and `[(5,3), (6,8)]`.
- Recursion depth: the exclude branch recurses on `intervals[:-1]` once per interval (main.py:48), so the call depth grows with the length of the list. With CPython's default recursion limit of 1000, the source raises `RecursionError` on a well-formed list of about 1000 intervals. An example is `(0, k, 1)` for k = 1..1000. The model has no depth limit and returns a schedule for such a list, here `(1, [(0, 1000)])`.
- Scheduling.Optimal: proved only for nonnegative weights. With a negative weight, the single-interval base case is not optimal, as `TestData.NegativeWeightKept` shows.
- Running time and the missing memoization: the model cannot state cost. The bottom-up table shows only that the value computed once per prefix equals the recursion's value.
- Python object identity and aliasing: the single-interval base case returns the very list it was given. The model treats lists as values.
- Permutation invariance of the optimal weight (the same weight for any input order) is not proved.
- Python's library sort is Timsort, modelled by an insertion sort that has the same result, because a stable sort by a key has only one possible output.
