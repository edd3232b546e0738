/** GetBestSchedule and its nested RecursiveBody (main.py:38-53): sort the
    caller's list by end time, then choose, for the last interval, the
    better of including it (after the best schedule of the intervals that
    end before it begins) and excluding it. */
module Scheduling {
  import opened Intervals
  import opened Subsequences
  import opened IntervalsBefore
  import opened SortByEnd

  /** The source's `(weight, intervals)` result pair. */
  datatype Schedule = Schedule(weight: int, chosen: seq<Interval>)

  /** The include branch: the best schedule of the intervals ending before
      `last` begins, with `last` appended. */
  function WithLast(best: Schedule, last: Interval): (r: Schedule)
    ensures |r.chosen| == |best.chosen| + 1 && r.chosen[|best.chosen|] == last
    ensures r.chosen[..|best.chosen|] == best.chosen
    ensures best.weight == TotalWeight(best.chosen) ==> r.weight == TotalWeight(r.chosen)
  {
    assert (best.chosen + [last])[..|best.chosen|] == best.chosen;
    Schedule(best.weight + last.weight, best.chosen + [last])
  }

  /** Python's `max(a, b, key=weight)` keeps its first argument on a tie. */
  function MaxByWeight(a: Schedule, b: Schedule): (r: Schedule)
    ensures r == a || r == b
    ensures r.weight >= a.weight && r.weight >= b.weight
    ensures a.weight == b.weight ==> r == a
  {
    if a.weight >= b.weight then a else b
  }

  /** The source's recursion, without a cache. Whatever the order of `s`,
      the weight is the sum of the chosen weights, the chosen intervals are
      a subsequence of `s`, and no two of them overlap. */
  function RecursiveBody(s: seq<Interval>): (r: Schedule)
    requires WellFormed(s)
    ensures r.weight == TotalWeight(r.chosen)
    ensures IsSubsequence(r.chosen, s)
    ensures Compatible(r.chosen)
    ensures s == [] ==> r == Schedule(0, [])
    ensures |s| == 1 ==> r == Schedule(s[0].weight, s)
    decreases |s|
  {
    if |s| == 0 then Schedule(0, [])
    else if |s| == 1 then
      SubsequenceReflexive(s);
      Schedule(s[0].weight, s)
    else
      var last := s[|s| - 1];
      var before := Before(s, last);
      var hasLastInterval := WithLast(RecursiveBody(before), last);
      var notHasLastInterval := RecursiveBody(s[..|s| - 1]);
      IncludeBranchFeasible(s, RecursiveBody(before));
      MaxByWeight(hasLastInterval, notHasLastInterval)
  }

  /** What the include branch contributes is a feasible schedule of `s`. */
  lemma IncludeBranchFeasible(s: seq<Interval>, best: Schedule)
    requires 2 <= |s| && s[|s| - 1].begin <= s[|s| - 1].end
    requires best.weight == TotalWeight(best.chosen)
    requires IsSubsequence(best.chosen, Before(s, s[|s| - 1]))
    requires Compatible(best.chosen)
    ensures WithLast(best, s[|s| - 1]).weight == TotalWeight(WithLast(best, s[|s| - 1]).chosen)
    ensures IsSubsequence(WithLast(best, s[|s| - 1]).chosen, s)
    ensures Compatible(WithLast(best, s[|s| - 1]).chosen)
  {
    var last := s[|s| - 1];
    var before := Before(s, last);
    var c := best.chosen + [last];
    assert WithLast(best, last).chosen == c;
    assert c[..|c| - 1] == best.chosen;
    assert IsSubsequence(c, s) by {
      assert s[..|s| - 1][..|before|] == before;
      SubsequenceOfPrefix(best.chosen, s[..|s| - 1], |before|);
    }
    assert Compatible(c) by {
      forall i, j | 0 <= i < j < |c| ensures EndsBefore(c[i], c[j]) {
        if j == |c| - 1 {
          SubsequenceElement(best.chosen, before, i);
        }
      }
    }
  }

  /** Sorts the caller's array in place by end time, stably, then runs the
      recursion on the sorted list. */
  method GetBestSchedule(intervals: array<Interval>) returns (r: Schedule)
    requires WellFormed(intervals[..])
    modifies intervals
    ensures intervals[..] == SortedByEnd(old(intervals[..]))
    ensures multiset(intervals[..]) == multiset(old(intervals[..]))
    ensures EndSorted(intervals[..]) && WellFormed(intervals[..])
    ensures r == RecursiveBody(intervals[..])
    ensures r.weight == TotalWeight(r.chosen)
    ensures forall key :: WithEnd(intervals[..], key) == WithEnd(old(intervals[..]), key)
    ensures IsSubsequence(r.chosen, intervals[..]) && Compatible(r.chosen)
    ensures EndSorted(r.chosen) && ConsecutivelyCompatible(r.chosen)
    ensures NonNegativeWeights(intervals[..]) ==>
      forall t :: IsSubsequence(t, intervals[..]) && Compatible(t) ==> TotalWeight(t) <= r.weight
  {
    SortIntervalsByEnd(intervals);
    ghost var sorted := intervals[..];
    SortedByEndPermutation(old(intervals[..]));
    SortedByEndIsSorted(old(intervals[..]));
    PermutationKeepsWellFormed(old(intervals[..]), sorted);
    forall key ensures WithEnd(sorted, key) == WithEnd(old(intervals[..]), key) {
      SortedByEndStable(old(intervals[..]), key);
    }
    r := RecursiveBody(intervals[..]);
    ChosenInEndOrder(sorted);
    if NonNegativeWeights(sorted) {
      forall t | IsSubsequence(t, sorted) && Compatible(t) ensures TotalWeight(t) <= r.weight {
        Optimal(sorted, t);
      }
    }
  }

  /** The chosen intervals come in ascending end order, each ending before
      the next begins. */
  lemma ChosenInEndOrder(s: seq<Interval>)
    requires WellFormed(s)
    ensures EndSorted(RecursiveBody(s).chosen)
    ensures ConsecutivelyCompatible(RecursiveBody(s).chosen)
  {
    var c := RecursiveBody(s).chosen;
    forall i | 0 <= i < |c| ensures c[i].begin <= c[i].end {
      SubsequenceElement(c, s, i);
    }
    CompatibleIsEndSorted(c);
    CompatibleIffConsecutive(c);
  }

  lemma PermutationKeepsWellFormed(s: seq<Interval>, t: seq<Interval>)
    requires WellFormed(s) && multiset(s) == multiset(t)
    ensures WellFormed(t)
  {
    forall i | 0 <= i < |t| ensures t[i].begin <= t[i].end {
      assert t[i] in multiset(t);
      var k :| 0 <= k < |s| && s[k] == t[i];
    }
  }

  /** Optimality: on an end-sorted list with nonnegative weights, no
      compatible subsequence weighs more than the schedule returned. */
  lemma {:induction false} Optimal(s: seq<Interval>, t: seq<Interval>)
    requires WellFormed(s) && EndSorted(s) && NonNegativeWeights(s)
    requires IsSubsequence(t, s) && Compatible(t)
    ensures TotalWeight(t) <= RecursiveBody(s).weight
    decreases |s|
  {
    var r := RecursiveBody(s);
    if t == [] {
      assert NonNegativeWeights(r.chosen) by {
        forall i | 0 <= i < |r.chosen| ensures 0 <= r.chosen[i].weight {
          SubsequenceElement(r.chosen, s, i);
        }
      }
      TotalWeightNonNegative(r.chosen);
    } else if |s| == 1 {
      assert t == s by {
        assert s[..0] == [];
        assert t[..|t| - 1] == [];
      }
    } else {
      var last := s[|s| - 1];
      var s' := s[..|s| - 1];
      var before := Before(s, last);
      assert WellFormed(s') && EndSorted(s') && NonNegativeWeights(s');
      if t[|t| - 1] == last && IsSubsequence(t[..|t| - 1], s') {
        var t' := t[..|t| - 1];
        OthersEndBeforeLast(s, t');
        assert Compatible(t');
        Optimal(before, t');
      } else {
        Optimal(s', t);
      }
    }
  }

  /** If `t' + [last]` is a compatible subsequence of an end-sorted `s`
      ending in `last`, then `t'` is a subsequence of the intervals the
      source's scan returns for `last`. */
  lemma OthersEndBeforeLast(s: seq<Interval>, t': seq<Interval>)
    requires 2 <= |s| && EndSorted(s) && s[|s| - 1].begin <= s[|s| - 1].end
    requires IsSubsequence(t', s[..|s| - 1])
    requires forall i :: 0 <= i < |t'| ==> t'[i].end < s[|s| - 1].begin
    ensures IsSubsequence(t', Before(s, s[|s| - 1]))
  {
    var last := s[|s| - 1];
    var s' := s[..|s| - 1];
    var k := CutoffIndex(s, last.begin);
    if k < |s'| {
      forall i, j | 0 <= i < |t'| && k <= j < |s'| ensures t'[i] != s'[j] {
        assert last.begin <= s[k].end <= s[j].end;
      }
      SubsequenceAvoidingTail(t', s', k);
      assert s'[..k] == s[..k];
    } else {
      assert s'[..k] == s[..k];
      assert s' == s'[..k];
    }
  }
}
