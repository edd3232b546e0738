/** GetIntervalsBefore (main.py:26-35): the longest prefix of an
    end-sorted list whose intervals all end strictly before a reference
    interval begins. */
module IntervalsBefore {
  import opened Intervals

  /** Length of the longest prefix of `s` whose intervals all end before
      `cutoff`: the index at which the source's scan breaks, or `|s|`. */
  function CutoffIndex(s: seq<Interval>, cutoff: int): (k: nat)
    ensures k <= |s|
    ensures forall i :: 0 <= i < k ==> s[i].end < cutoff
    ensures k < |s| ==> cutoff <= s[k].end
  {
    if s == [] || cutoff <= s[0].end then 0
    else 1 + CutoffIndex(s[1..], cutoff)
  }

  /** What GetIntervalsBefore returns, as a value. */
  function Before(s: seq<Interval>, reference: Interval): (r: seq<Interval>)
    ensures |r| <= |s| && r == s[..|r|]
  {
    s[..CutoffIndex(s, reference.begin)]
  }

  /** The source's scan: append while the interval ends before the
      reference begins, stop at the first one that does not. */
  method GetIntervalsBefore(intervals: seq<Interval>, beforeInterval: Interval)
    returns (retValue: seq<Interval>)
    ensures |retValue| <= |intervals| && retValue == intervals[..|retValue|]
    ensures forall i :: 0 <= i < |retValue| ==> retValue[i].end < beforeInterval.begin
    ensures |retValue| < |intervals| ==> beforeInterval.begin <= intervals[|retValue|].end
    ensures retValue == Before(intervals, beforeInterval)
  {
    var cutoffTime := beforeInterval.begin;
    retValue := [];
    for i := 0 to |intervals|
      invariant retValue == intervals[..i]
      invariant forall k :: 0 <= k < i ==> intervals[k].end < cutoffTime
    {
      if intervals[i].end < cutoffTime {
        retValue := retValue + [intervals[i]];
      } else {
        break;
      }
    }
    CutoffIndexUnique(intervals, cutoffTime, |retValue|);
  }

  /** The three facts in CutoffIndex's contract pin the index down. */
  lemma CutoffIndexUnique(s: seq<Interval>, cutoff: int, k: nat)
    requires k <= |s|
    requires forall i :: 0 <= i < k ==> s[i].end < cutoff
    requires k < |s| ==> cutoff <= s[k].end
    ensures CutoffIndex(s, cutoff) == k
  {
  }

  /** Intervals of `s` that end before `cutoff`, in their order in `s`. */
  function EndingBefore(s: seq<Interval>, cutoff: int): seq<Interval> {
    if s == [] then []
    else (if s[0].end < cutoff then [s[0]] else []) + EndingBefore(s[1..], cutoff)
  }

  lemma {:induction false} EndingBeforeNone(s: seq<Interval>, cutoff: int)
    requires forall i :: 0 <= i < |s| ==> cutoff <= s[i].end
    ensures EndingBefore(s, cutoff) == []
  {
    if s != [] {
      EndingBeforeNone(s[1..], cutoff);
    }
  }

  /** On an end-sorted list the prefix scan finds exactly the intervals
      that end before the reference begins; touching ones are left out. */
  lemma {:induction false} BeforeIsFilterWhenSorted(s: seq<Interval>, reference: Interval)
    requires EndSorted(s)
    ensures Before(s, reference) == EndingBefore(s, reference.begin)
  {
    var c := reference.begin;
    if s == [] {
    } else if c <= s[0].end {
      EndingBeforeNone(s, c);
    } else {
      BeforeIsFilterWhenSorted(s[1..], reference);
      assert s[..CutoffIndex(s, c)] == [s[0]] + s[1..][..CutoffIndex(s[1..], c)];
    }
  }

  /** The include branch's argument is shorter than the list whenever the
      last interval is well formed (the recursion's termination measure),
      and both recursive arguments of an end-sorted list stay end-sorted. */
  lemma RecursiveArgumentsShrink(s: seq<Interval>)
    requires s != [] && s[|s| - 1].begin <= s[|s| - 1].end
    ensures |Before(s, s[|s| - 1])| < |s|
    ensures EndSorted(s) ==> EndSorted(Before(s, s[|s| - 1])) && EndSorted(s[..|s| - 1])
  {
  }
}
