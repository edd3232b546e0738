/** The interval value and the predicates every other module states its
    contracts with: end-time order, well-formedness, compatibility (no two
    chosen intervals overlap, touching counts as overlap) and total weight. */
module Intervals {

  /** An immutable weighted time span; Dafny's datatype equality is the
      field-by-field comparison of the source's `__eq__`. */
  datatype Interval = Interval(begin: int, end: int, weight: int)

  /** Two intervals are equal exactly when all three fields are. */
  lemma IntervalEquality(a: Interval, b: Interval)
    ensures a == b <==> a.begin == b.begin && a.end == b.end && a.weight == b.weight
  {
  }

  /** Every interval begins no later than it ends. */
  predicate WellFormed(s: seq<Interval>) {
    forall i :: 0 <= i < |s| ==> s[i].begin <= s[i].end
  }

  /** Ascending by end time. */
  predicate EndSorted(s: seq<Interval>) {
    forall i, j :: 0 <= i < j < |s| ==> s[i].end <= s[j].end
  }

  predicate NonNegativeWeights(s: seq<Interval>) {
    forall i :: 0 <= i < |s| ==> 0 <= s[i].weight
  }

  /** `a` ends strictly before `b` begins; an interval that ends exactly
      where the other begins overlaps it. */
  predicate EndsBefore(a: Interval, b: Interval) {
    a.end < b.begin
  }

  /** No two intervals of `s` overlap, each ending before every later one
      begins. */
  predicate Compatible(s: seq<Interval>) {
    forall i, j :: 0 <= i < j < |s| ==> EndsBefore(s[i], s[j])
  }

  /** Each interval ends before the next one begins. */
  predicate ConsecutivelyCompatible(s: seq<Interval>) {
    forall i :: 0 < i < |s| ==> EndsBefore(s[i - 1], s[i])
  }

  /** Sum of the weights, accumulated from the back as the solver appends. */
  function TotalWeight(s: seq<Interval>): int {
    if s == [] then 0 else TotalWeight(s[..|s| - 1]) + s[|s| - 1].weight
  }

  lemma {:induction false} TotalWeightNonNegative(s: seq<Interval>)
    requires NonNegativeWeights(s)
    ensures 0 <= TotalWeight(s)
  {
    if s != [] {
      TotalWeightNonNegative(s[..|s| - 1]);
    }
  }

  /** For well-formed intervals, checking neighbours is enough: the
      pairwise and the consecutive readings of "no overlap" agree. */
  lemma {:induction false} CompatibleIffConsecutive(s: seq<Interval>)
    requires WellFormed(s)
    ensures Compatible(s) <==> ConsecutivelyCompatible(s)
  {
    if ConsecutivelyCompatible(s) {
      forall i, j | 0 <= i < j < |s| ensures EndsBefore(s[i], s[j]) {
        ChainEndsBefore(s, i, j);
      }
    }
  }

  lemma {:induction false} ChainEndsBefore(s: seq<Interval>, i: int, j: int)
    requires WellFormed(s) && ConsecutivelyCompatible(s)
    requires 0 <= i < j < |s|
    ensures EndsBefore(s[i], s[j])
    decreases j - i
  {
    if i + 1 < j {
      ChainEndsBefore(s, i + 1, j);
      assert s[i].end < s[i + 1].begin <= s[i + 1].end;
    }
  }

  /** Compatible well-formed intervals are in ascending end order. */
  lemma CompatibleIsEndSorted(s: seq<Interval>)
    requires WellFormed(s) && Compatible(s)
    ensures EndSorted(s)
  {
    forall i, j | 0 <= i < j < |s| ensures s[i].end <= s[j].end {
      assert s[i].end < s[j].begin <= s[j].end;
    }
  }
}
