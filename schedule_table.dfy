/** An addition: main.py has no table. This bottom-up table computes the
    schedule of each prefix once, where the source's recursion recomputes
    shared sub-problems, and is proved to return exactly what that recursion
    returns. */
module ScheduleTable {
  import opened Intervals
  import opened IntervalsBefore
  import opened Scheduling

  /** The table `best` holds, at index `k`, the schedule of the first `k`
      intervals; the include branch for prefix `k` looks up the entry at the
      length of the prefix the scan returns for interval `k - 1`. */
  method BestScheduleBottomUp(s: seq<Interval>) returns (r: Schedule)
    requires WellFormed(s)
    ensures r == RecursiveBody(s)
  {
    var best: seq<Schedule> := [Schedule(0, [])];
    assert s[..0] == [] && WellFormedPrefix(s, 0);
    while |best| <= |s|
      invariant 1 <= |best| <= |s| + 1 && Tabulated(s, best)
      decreases |s| + 1 - |best|
    {
      best := ExtendTable(s, best);
    }
    assert s[..|s|] == s;
    r := best[|s|];
  }

  /** `best[m]` is the recursion's schedule of the first `m` intervals. */
  predicate Tabulated(s: seq<Interval>, best: seq<Schedule>)
    requires WellFormed(s)
  {
    |best| <= |s| + 1 &&
    forall m {:trigger best[m]} :: 0 <= m < |best| ==>
      WellFormedPrefix(s, m) && best[m] == RecursiveBody(s[..m])
  }

  /** Fills the next entry of the table from two earlier ones. */
  method ExtendTable(s: seq<Interval>, best: seq<Schedule>) returns (best': seq<Schedule>)
    requires WellFormed(s) && 1 <= |best| <= |s| && Tabulated(s, best)
    ensures best' == best + [RecursiveBody(s[..|best|])]
    ensures Tabulated(s, best')
  {
    var k := |best|;
    var last := s[k - 1];
    var before := GetIntervalsBefore(s[..k], last);
    PrefixScan(s, k);
    var next;
    if k == 1 {
      next := Schedule(last.weight, [last]);
      assert s[..k] == [last];
    } else {
      PrefixStep(s, k, |before|);
      next := MaxByWeight(WithLast(best[|before|], last), best[k - 1]);
    }
    assert next == RecursiveBody(s[..k]);
    best' := best + [next];
    TabulatedAppend(s, best, next);
  }

  lemma TabulatedAppend(s: seq<Interval>, best: seq<Schedule>, next: Schedule)
    requires WellFormed(s) && |best| <= |s| && Tabulated(s, best)
    requires WellFormedPrefix(s, |best|) && next == RecursiveBody(s[..|best|])
    ensures Tabulated(s, best + [next])
  {
    var best' := best + [next];
    forall m | 0 <= m < |best|
      ensures WellFormedPrefix(s, m) && best'[m] == RecursiveBody(s[..m])
    {
      assert best'[m] == best[m];
    }
    assert best'[|best|] == next;
  }

  predicate WellFormedPrefix(s: seq<Interval>, m: nat)
    requires m <= |s|
  {
    WellFormed(s[..m])
  }

  /** The scan over a prefix returns a shorter prefix of `s`. */
  lemma PrefixScan(s: seq<Interval>, k: nat)
    requires WellFormed(s) && 1 <= k <= |s|
    ensures WellFormedPrefix(s, k)
    ensures |Before(s[..k], s[k - 1])| < k
    ensures Before(s[..k], s[k - 1]) == s[..|Before(s[..k], s[k - 1])|]
  {
    var prefix := s[..k];
    assert WellFormed(prefix);
    assert prefix[|prefix| - 1] == s[k - 1];
    var before := Before(prefix, s[k - 1]);
    assert before == prefix[..|before|] == s[..|before|];
  }

  /** The recursion's value on the prefix of length `k`, in terms of its
      values on the prefix of length `j` that the scan returns and on the
      prefix one shorter. */
  lemma PrefixStep(s: seq<Interval>, k: nat, j: nat)
    requires WellFormed(s) && 2 <= k <= |s| && j < k
    requires j == |Before(s[..k], s[k - 1])|
    ensures WellFormed(s[..j]) && WellFormed(s[..k]) && WellFormed(s[..k - 1])
    ensures RecursiveBody(s[..k])
         == MaxByWeight(WithLast(RecursiveBody(s[..j]), s[k - 1]), RecursiveBody(s[..k - 1]))
  {
    var prefix := s[..k];
    assert WellFormed(prefix) && WellFormed(s[..j]) && WellFormed(s[..k - 1]);
    var last := prefix[|prefix| - 1];
    assert last == s[k - 1];
    var before := Before(prefix, last);
    assert before == prefix[..j] == s[..j];
    assert prefix[..|prefix| - 1] == s[..k - 1];
  }
}
