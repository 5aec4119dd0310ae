/**
  The bucketing helper `length_to_range` nested in `test_my_sort` of
  test_hypothesis.py: a list length is labelled with the half-open range of
  width 5 that contains it. Python's `//` floors; with the positive divisor 5
  that is the same as Dafny's Euclidean `/`, also for negative arguments.
 */
module LengthBuckets {

  /** The bucket `(lo, hi)` holding `n`: `lo` is `n` rounded down to a multiple
      of 5 and `hi` is 5 more. */
  function LengthToRange(n: int): (r: (int, int))
    ensures r.0 <= n < r.1
    ensures r.1 - r.0 == 5
    ensures r.0 % 5 == 0
    ensures n >= 0 ==> r.0 >= 0
  {
    var base := 5;
    var div := n / base;
    (div * base, (div + 1) * base)
  }

  /** The bucket is the only range of width 5 starting at a multiple of 5 that
      holds `n`: so the ranges of the event labels partition the lengths. */
  lemma LengthToRangeUnique(n: int, lo: int)
    requires lo % 5 == 0 && lo <= n < lo + 5
    ensures LengthToRange(n) == (lo, lo + 5)
  {
    var r := LengthToRange(n);
    assert lo == (lo / 5) * 5;
    assert r.0 == (r.0 / 5) * 5;
  }

  /** Lengths that share a bucket are less than 5 apart, and larger lengths never
      fall into an earlier bucket. */
  lemma LengthToRangeMonotonic(m: int, n: int)
    requires m <= n
    ensures LengthToRange(m).0 <= LengthToRange(n).0
    ensures LengthToRange(m) == LengthToRange(n) ==> n - m < 5
  {
  }
}
