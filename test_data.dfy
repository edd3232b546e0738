/** The data of the source's unit tests (main.py:56-95), stated as facts
    about the model, with a few small cases of its own: a scan that runs to
    the end, two touching intervals, a weight tie and a negative weight. */
module TestData {
  import opened Intervals
  import opened IntervalsBefore
  import opened SortByEnd
  import opened Scheduling

  /** `(1, 3)` ends before `(5, 10)` begins; `(2, 6)` reaches past 5 and
      stops the scan, so the boundary is index 1. */
  lemma IntervalsBeforeBasic()
    ensures Before([Interval(1, 3, 1), Interval(2, 6, 1), Interval(5, 10, 1)], Interval(5, 10, 1))
         == [Interval(1, 3, 1)]
  {
    var s := [Interval(1, 3, 1), Interval(2, 6, 1), Interval(5, 10, 1)];
    CutoffIndexUnique(s, 5, 1);
  }

  /** Against cutoff 8 all three intervals end earlier, so the scan over
      them runs to the end and stops at index 3. */
  lemma IntervalsBeforeExhausted()
    ensures CutoffIndex([Interval(1, 3, 1), Interval(2, 6, 1), Interval(5, 7, 1)], 8) == 3
  {
    var s := [Interval(1, 3, 1), Interval(2, 6, 1), Interval(5, 7, 1)];
    CutoffIndexUnique(s, 8, 3);
  }

  /** Three disjoint unit intervals: the sort puts them in end order ... */
  lemma OptimalInputSortOrder()
    ensures SortedByEnd([Interval(1, 2, 1), Interval(5, 6, 1), Interval(3, 4, 1)])
         == [Interval(1, 2, 1), Interval(3, 4, 1), Interval(5, 6, 1)]
  {
    SortThree(Interval(1, 2, 1), Interval(5, 6, 1), Interval(3, 4, 1));
    assert Insert(Interval(5, 6, 1), [Interval(1, 2, 1)]) == [Interval(1, 2, 1), Interval(5, 6, 1)];
    assert [Interval(1, 2, 1), Interval(5, 6, 1)][..1] == [Interval(1, 2, 1)];
    assert Insert(Interval(3, 4, 1), [Interval(1, 2, 1)]) == [Interval(1, 2, 1), Interval(3, 4, 1)];
  }

  /** ... and all three are chosen, for a weight of 3. */
  lemma OptimalInputReturnsInputSorted()
    ensures RecursiveBody([Interval(1, 2, 1), Interval(3, 4, 1), Interval(5, 6, 1)])
         == Schedule(3, [Interval(1, 2, 1), Interval(3, 4, 1), Interval(5, 6, 1)])
  {
    var s := [Interval(1, 2, 1), Interval(3, 4, 1), Interval(5, 6, 1)];
    CutoffIndexUnique(s, 5, 2);
    CutoffIndexUnique(s[..2], 3, 1);
    assert s[..2][..1] == s[..1];
  }

  /** `(3, 4)` sorts between `(1, 4)` and `(5, 6)`, after `(1, 4)` whose end
      it shares ... */
  lemma RemovesOverlappingSortOrder()
    ensures SortedByEnd([Interval(1, 4, 6), Interval(5, 6, 1), Interval(3, 4, 1)])
         == [Interval(1, 4, 6), Interval(3, 4, 1), Interval(5, 6, 1)]
  {
    SortThree(Interval(1, 4, 6), Interval(5, 6, 1), Interval(3, 4, 1));
    assert Insert(Interval(5, 6, 1), [Interval(1, 4, 6)]) == [Interval(1, 4, 6), Interval(5, 6, 1)];
    assert [Interval(1, 4, 6), Interval(5, 6, 1)][..1] == [Interval(1, 4, 6)];
    assert Insert(Interval(3, 4, 1), [Interval(1, 4, 6)]) == [Interval(1, 4, 6), Interval(3, 4, 1)];
  }

  /** ... and, overlapping `(1, 4)` (it begins at 3, before 4), is dropped
      in favour of the heavier one, for a weight of 7. */
  lemma RemovesOverlappingInterval()
    ensures RecursiveBody([Interval(1, 4, 6), Interval(3, 4, 1), Interval(5, 6, 1)])
         == Schedule(7, [Interval(1, 4, 6), Interval(5, 6, 1)])
  {
    var s := [Interval(1, 4, 6), Interval(3, 4, 1), Interval(5, 6, 1)];
    CutoffIndexUnique(s, 5, 2);
    CutoffIndexUnique(s[..2], 3, 0);
  }

  /** `(1, 3)` ends exactly where `(3, 5)` begins: touching counts as
      overlap, so only one of the two is chosen (the later, on the tie). */
  lemma TouchingIntervalsNotBothChosen()
    ensures RecursiveBody([Interval(1, 3, 1), Interval(3, 5, 1)]) == Schedule(1, [Interval(3, 5, 1)])
  {
    CutoffIndexUnique([Interval(1, 3, 1), Interval(3, 5, 1)], 3, 0);
  }

  /** On a weight tie the include branch wins, as Python's `max` keeps its
      first argument: the later-ending interval is chosen. */
  lemma TieGoesToInclude()
    ensures RecursiveBody([Interval(0, 1, 1), Interval(0, 2, 1)]) == Schedule(1, [Interval(0, 2, 1)])
  {
    CutoffIndexUnique([Interval(0, 1, 1), Interval(0, 2, 1)], 0, 0);
  }

  /** The single-interval base case keeps a negative weight, although the
      empty schedule would weigh more; optimality needs nonnegative
      weights. */
  lemma NegativeWeightKept()
    ensures RecursiveBody([Interval(0, 1, -5)]) == Schedule(-5, [Interval(0, 1, -5)])
    ensures TotalWeight([]) > RecursiveBody([Interval(0, 1, -5)]).weight
  {
  }

  lemma SortThree(a: Interval, b: Interval, c: Interval)
    ensures SortedByEnd([a, b, c]) == Insert(c, Insert(b, [a]))
  {
    var u := [a, b, c];
    assert [a][..0] == [];
    assert SortedByEnd([a]) == [a];
    assert [a, b][..1] == [a];
    assert SortedByEnd([a, b]) == Insert(b, [a]);
    assert u[..2] == [a, b];
  }
}
