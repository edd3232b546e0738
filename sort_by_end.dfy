/** The in-place, stable `intervals.sort(key=lambda interval: interval.end)`
    of main.py:51, as an insertion sort on the caller's array. A stable sort
    by a key has exactly one possible output, so this fixes the same result
    as the source's library sort. */
module SortByEnd {
  import opened Intervals

  /** Insert `x` after the last interval of `t` whose end is not later
      than `x`'s, so that equal ends keep their order. */
  function Insert(x: Interval, t: seq<Interval>): (r: seq<Interval>)
    ensures |r| == |t| + 1 && x in r
  {
    if t == [] || t[|t| - 1].end <= x.end then t + [x]
    else Insert(x, t[..|t| - 1]) + [t[|t| - 1]]
  }

  /** The stable sort of `s` by end time, one insertion per interval. */
  function SortedByEnd(s: seq<Interval>): (r: seq<Interval>)
    ensures |r| == |s|
  {
    if s == [] then [] else Insert(s[|s| - 1], SortedByEnd(s[..|s| - 1]))
  }

  lemma {:induction false} InsertPermutation(x: Interval, t: seq<Interval>)
    ensures multiset(Insert(x, t)) == multiset(t) + multiset{x}
  {
    if !(t == [] || t[|t| - 1].end <= x.end) {
      InsertPermutation(x, t[..|t| - 1]);
      assert t == t[..|t| - 1] + [t[|t| - 1]];
    }
  }

  lemma {:induction false} InsertSorted(x: Interval, t: seq<Interval>)
    requires EndSorted(t)
    ensures EndSorted(Insert(x, t))
  {
    if !(t == [] || t[|t| - 1].end <= x.end) {
      var t', last := t[..|t| - 1], t[|t| - 1];
      var rest := Insert(x, t');
      InsertSorted(x, t');
      InsertPermutation(x, t');
      forall i | 0 <= i < |rest| ensures rest[i].end <= last.end {
        assert rest[i] in multiset(rest);
        if rest[i] != x {
          assert rest[i] in multiset(t');
          var k :| 0 <= k < |t'| && t'[k] == rest[i];
          assert t[k] == rest[i];
        }
      }
    }
  }

  /** The sort only reorders: the result is a permutation of the input. */
  lemma {:induction false} SortedByEndPermutation(s: seq<Interval>)
    ensures multiset(SortedByEnd(s)) == multiset(s)
  {
    if s != [] {
      SortedByEndPermutation(s[..|s| - 1]);
      InsertPermutation(s[|s| - 1], SortedByEnd(s[..|s| - 1]));
      assert s == s[..|s| - 1] + [s[|s| - 1]];
    }
  }

  /** The result is ascending by end time. */
  lemma {:induction false} SortedByEndIsSorted(s: seq<Interval>)
    ensures EndSorted(SortedByEnd(s))
  {
    if s != [] {
      SortedByEndIsSorted(s[..|s| - 1]);
      InsertSorted(s[|s| - 1], SortedByEnd(s[..|s| - 1]));
    }
  }

  /** The intervals of `s` whose end is `key`, in their order in `s`. */
  function WithEnd(s: seq<Interval>, key: int): seq<Interval> {
    if s == [] then []
    else WithEnd(s[..|s| - 1], key) + (if s[|s| - 1].end == key then [s[|s| - 1]] else [])
  }

  lemma {:induction false} InsertStable(x: Interval, t: seq<Interval>, key: int)
    ensures WithEnd(Insert(x, t), key) == WithEnd(t, key) + (if x.end == key then [x] else [])
  {
    if t == [] || t[|t| - 1].end <= x.end {
      assert (t + [x])[..|t|] == t;
    } else {
      var rest := Insert(x, t[..|t| - 1]);
      InsertStable(x, t[..|t| - 1], key);
      assert (rest + [t[|t| - 1]])[..|rest|] == rest;
    }
  }

  /** Stability: for every end time, the intervals with that end keep
      their relative order. */
  lemma {:induction false} SortedByEndStable(s: seq<Interval>, key: int)
    ensures WithEnd(SortedByEnd(s), key) == WithEnd(s, key)
  {
    if s != [] {
      SortedByEndStable(s[..|s| - 1], key);
      InsertStable(s[|s| - 1], SortedByEnd(s[..|s| - 1]), key);
    }
  }

  /** Where the insertion lands: after `t[..j]`, before `t[j..]`. */
  lemma {:induction false} InsertAt(x: Interval, t: seq<Interval>, j: nat)
    requires j <= |t|
    requires forall m :: j <= m < |t| ==> x.end < t[m].end
    requires 0 < j ==> t[j - 1].end <= x.end
    ensures Insert(x, t) == t[..j] + [x] + t[j..]
    decreases |t|
  {
    if j == |t| {
      assert t[..j] == t;
    } else {
      var t', last := t[..|t| - 1], t[|t| - 1];
      assert x.end < last.end;
      InsertAt(x, t', j);
      calc {
        Insert(x, t);
        Insert(x, t') + [last];
        t'[..j] + [x] + t'[j..] + [last];
        { assert t'[..j] == t[..j]; assert t[j..] == t'[j..] + [last]; }
        t[..j] + [x] + t[j..];
      }
    }
  }

  /** Sorts the caller's array in place, stably, by end time. */
  method SortIntervalsByEnd(a: array<Interval>)
    modifies a
    ensures a[..] == SortedByEnd(old(a[..]))
  {
    ghost var orig := a[..];
    for i := 0 to a.Length
      invariant a[..i] == SortedByEnd(orig[..i])
      invariant a[i..] == orig[i..]
    {
      assert a[i + 1..] == orig[i + 1..] && a[i] == orig[i];
      InsertLast(a, i);
      assert a[i + 1..] == orig[i + 1..];
      assert orig[..i + 1][..i] == orig[..i];
    }
    assert orig[..a.Length] == orig;
  }

  /** One pass of the insertion sort: moves `a[i]` left past every
      interval of `a[..i]` that ends later than it. */
  method InsertLast(a: array<Interval>, i: nat)
    requires i < a.Length
    modifies a
    ensures a[..i + 1] == Insert(old(a[i]), old(a[..i]))
    ensures a[i + 1..] == old(a[i + 1..])
  {
    ghost var t := a[..i];
    var x := a[i];
    var j := i;
    while 0 < j && x.end < a[j - 1].end
      invariant 0 <= j <= i
      invariant a[j] == x
      invariant forall m :: 0 <= m < j ==> a[m] == t[m]
      invariant forall m :: j < m <= i ==> a[m] == t[m - 1]
      invariant forall m :: i < m < a.Length ==> a[m] == old(a[m])
      invariant forall m :: j <= m < i ==> x.end < t[m].end
    {
      a[j - 1], a[j] := a[j], a[j - 1];
      j := j - 1;
    }
    InsertAt(x, t, j);
    assert a[..i + 1] == t[..j] + [x] + t[j..];
  }
}
