/**
  `bubble_sort` of test_bubble_sort.py: copy the input list, then sweep the
  copy with adjacent swaps, repeating the sweep until one makes no swap.

  The sweep is the method `Pass`; `BubbleSort` is the copy and the `while
  swapped` loop around it. Termination rests on the inversion count, which
  every swap of an adjacent out-of-order pair lowers by exactly one.
 */
module Sorting {

  /** Every element is at most every later element. */
  predicate Sorted(s: seq<int>)
  {
    forall i, j :: 0 <= i < j < |s| ==> s[i] <= s[j]
  }

  /** Every element is at most its right neighbour: what the tests check. */
  predicate AdjacentSorted(s: seq<int>)
  {
    forall i :: 0 <= i < |s| - 1 ==> s[i] <= s[i + 1]
  }

  /** How many elements of `s` are smaller than `x`. */
  function CountBelow(x: int, s: seq<int>): nat
  {
    if s == [] then 0 else (if s[0] < x then 1 else 0) + CountBelow(x, s[1..])
  }

  /** The number of pairs `i < j` with `s[i] > s[j]`. */
  function Inversions(s: seq<int>): nat
  {
    if s == [] then 0 else CountBelow(s[0], s[1..]) + Inversions(s[1..])
  }

  /** `s` with the elements at `k` and `k + 1` exchanged. */
  function SwapAdjacent(s: seq<int>, k: nat): (r: seq<int>)
    requires k + 1 < |s|
    ensures |r| == |s|
    ensures r[k] == s[k + 1] && r[k + 1] == s[k]
    ensures forall i :: 0 <= i < |s| && i != k && i != k + 1 ==> r[i] == s[i]
  {
    s[k := s[k + 1]][k + 1 := s[k]]
  }

  /** Exchanging two neighbours rearranges the sequence. */
  lemma SwapAdjacentPermutes(s: seq<int>, k: nat)
    requires k + 1 < |s|
    ensures multiset(SwapAdjacent(s, k)) == multiset(s)
  {
  }

  // ---------------------------------------------------------------------------
  // Orderedness

  /** Checking neighbours is enough: a sequence is sorted exactly when each
      element is at most the next one. */
  lemma {:induction false} AdjacentSortedIsSorted(s: seq<int>)
    ensures AdjacentSorted(s) <==> Sorted(s)
    decreases |s|
  {
    if |s| > 1 && AdjacentSorted(s) {
      AdjacentSortedIsSorted(s[1..]);
      assert Sorted(s[1..]);
      forall i, j | 0 <= i < j < |s|
        ensures s[i] <= s[j]
      {
        if i > 0 {
          assert s[1..][i - 1] <= s[1..][j - 1];
        } else if j > 1 {
          assert s[1] <= s[1..][j - 1];
        }
      }
    }
  }

  /** A multiset has exactly one sorted arrangement. */
  lemma {:induction false} SortedUnique(a: seq<int>, b: seq<int>)
    requires Sorted(a) && Sorted(b) && multiset(a) == multiset(b)
    ensures a == b
    decreases |a|
  {
    if a == [] {
      assert |multiset(b)| == 0;
    } else {
      assert |b| == |multiset(b)| == |multiset(a)| == |a|;
      HeadIsMinimum(a, b);
      HeadIsMinimum(b, a);
      assert a == [a[0]] + a[1..];
      assert b == [b[0]] + b[1..];
      assert multiset(a) == multiset{a[0]} + multiset(a[1..]);
      assert multiset(b) == multiset{b[0]} + multiset(b[1..]);
      assert a[0] == b[0];
      assert multiset(a[1..]) == multiset(a) - multiset{a[0]};
      assert multiset(b[1..]) == multiset(b) - multiset{b[0]};
      assert Sorted(a[1..]) by {
        forall i, j | 0 <= i < j < |a| - 1 ensures a[1..][i] <= a[1..][j] {
          assert a[i + 1] <= a[j + 1];
        }
      }
      assert Sorted(b[1..]) by {
        forall i, j | 0 <= i < j < |b| - 1 ensures b[1..][i] <= b[1..][j] {
          assert b[i + 1] <= b[j + 1];
        }
      }
      SortedUnique(a[1..], b[1..]);
    }
  }

  /** The first element of a sorted non-empty sequence is at most anything in a
      sequence with the same elements. */
  lemma HeadIsMinimum(a: seq<int>, b: seq<int>)
    requires Sorted(a) && a != [] && b != [] && multiset(a) == multiset(b)
    ensures a[0] <= b[0]
  {
    assert b[0] in multiset(a);
    var j :| 0 <= j < |a| && a[j] == b[0];
  }

  // ---------------------------------------------------------------------------
  // Inversions

  /** Exchanging two neighbours does not change how many elements lie below `x`. */
  lemma {:induction false} CountBelowSwap(x: int, s: seq<int>, k: nat)
    requires k + 1 < |s|
    ensures CountBelow(x, SwapAdjacent(s, k)) == CountBelow(x, s)
    decreases k
  {
    var t := SwapAdjacent(s, k);
    if k == 0 {
      assert t[1..][1..] == s[1..][1..];
    } else {
      assert t[1..] == SwapAdjacent(s[1..], k - 1);
      CountBelowSwap(x, s[1..], k - 1);
    }
  }

  /** Exchanging an adjacent out-of-order pair removes exactly one inversion. */
  lemma {:induction false} SwapReducesInversions(s: seq<int>, k: nat)
    requires k + 1 < |s| && s[k] > s[k + 1]
    ensures Inversions(SwapAdjacent(s, k)) == Inversions(s) - 1
    decreases k
  {
    var t := SwapAdjacent(s, k);
    if k == 0 {
      assert t[1..][1..] == s[1..][1..];
      assert CountBelow(s[0], s[1..]) == 1 + CountBelow(s[0], s[2..]);
      assert CountBelow(t[0], t[1..]) == CountBelow(s[1], s[2..]);
    } else {
      assert t[1..] == SwapAdjacent(s[1..], k - 1);
      CountBelowSwap(s[0], s[1..], k - 1);
      SwapReducesInversions(s[1..], k - 1);
    }
  }

  // ---------------------------------------------------------------------------
  // One sweep

  /** Every element before position `i` is at most its right neighbour. */
  predicate AdjacentSortedBelow(s: seq<int>, i: nat)
  {
    forall j :: 0 <= j < i && j + 1 < |s| ==> s[j] <= s[j + 1]
  }

  /** One step of the sweep's `for` loop: swap the pair at `i` when it is out
      of order. */
  function Step(s: seq<int>, i: nat): seq<int>
    requires i + 1 < |s|
  {
    if s[i] > s[i + 1] then SwapAdjacent(s, i) else s
  }

  /** The list after the first `i` steps of a sweep over `s`. */
  function SweepPrefix(s: seq<int>, i: nat): (r: seq<int>)
    requires i == 0 || i < |s|
    ensures |r| == |s|
  {
    if i == 0 then s else Step(SweepPrefix(s, i - 1), i - 1)
  }

  /** The list after a whole sweep over `s`: one step for each neighbour pair. */
  function Sweep(s: seq<int>): seq<int>
  {
    SweepPrefix(s, if |s| == 0 then 0 else |s| - 1)
  }

  /** One step rearranges the list. */
  lemma StepPermutes(s: seq<int>, i: nat)
    requires i + 1 < |s|
    ensures multiset(Step(s, i)) == multiset(s)
  {
    if s[i] > s[i + 1] {
      SwapAdjacentPermutes(s, i);
    }
  }

  /** The first `i` steps of a sweep rearrange the list. */
  lemma {:induction false} SweepPrefixPermutes(s: seq<int>, i: nat)
    requires i == 0 || i < |s|
    ensures multiset(SweepPrefix(s, i)) == multiset(s)
    decreases i
  {
    if i > 0 {
      var r := SweepPrefix(s, i - 1);
      SweepPrefixPermutes(s, i - 1);
      StepPermutes(r, i - 1);
      assert SweepPrefix(s, i) == Step(r, i - 1);
    }
  }

  /** Sortedness below `i + 1` adds one neighbouring pair to sortedness below `i`. */
  lemma BelowStep(s: seq<int>, i: nat)
    requires i + 1 < |s|
    ensures AdjacentSortedBelow(s, i + 1) <==> AdjacentSortedBelow(s, i) && s[i] <= s[i + 1]
  {
  }

  /** Sortedness below the last position is sortedness of every neighbouring pair. */
  lemma AdjacentSortedBelowAll(s: seq<int>)
    ensures AdjacentSorted(s) <==> AdjacentSortedBelow(s, if |s| == 0 then 0 else |s| - 1)
  {
  }

  /** One step changes the list exactly when the pair at `i` is out of order;
      it never adds inversions, and removes one when it changes the list. */
  lemma StepInversions(s: seq<int>, i: nat)
    requires i + 1 < |s|
    ensures Step(s, i) != s <==> s[i] > s[i + 1]
    ensures Inversions(Step(s, i)) <= Inversions(s)
    ensures Step(s, i) != s ==> Inversions(Step(s, i)) < Inversions(s)
  {
    if s[i] > s[i + 1] {
      SwapReducesInversions(s, i);
      assert Step(s, i)[i] != s[i];
    }
  }

  /** The first `i` steps of a sweep never add inversions, and strictly remove
      some whenever they change the list. */
  lemma {:induction false} SweepPrefixInversions(s: seq<int>, i: nat)
    requires i == 0 || i < |s|
    ensures Inversions(SweepPrefix(s, i)) <= Inversions(s)
    ensures SweepPrefix(s, i) != s ==> Inversions(SweepPrefix(s, i)) < Inversions(s)
    decreases i
  {
    if i > 0 {
      SweepPrefixInversions(s, i - 1);
      StepInversions(SweepPrefix(s, i - 1), i - 1);
    }
  }

  /** The first `i` steps of a sweep leave the list unchanged exactly when no
      neighbouring pair before `i` is out of order. */
  lemma {:induction false} SweepPrefixUnchanged(s: seq<int>, i: nat)
    requires i == 0 || i < |s|
    ensures SweepPrefix(s, i) == s <==> AdjacentSortedBelow(s, i)
    decreases i
  {
    if i > 0 {
      SweepPrefixUnchanged(s, i - 1);
      SweepPrefixInversions(s, i - 1);
      StepInversions(SweepPrefix(s, i - 1), i - 1);
      BelowStep(s, i - 1);
    }
  }

  /** One more step changes the list exactly when the steps so far did, or
      the pair at `i` is out of order. */
  lemma SweepPrefixStep(s: seq<int>, i: nat)
    requires i + 1 < |s|
    ensures SweepPrefix(s, i + 1) == s <==> SweepPrefix(s, i) == s && s[i] <= s[i + 1]
  {
    SweepPrefixUnchanged(s, i);
    SweepPrefixUnchanged(s, i + 1);
    BelowStep(s, i);
  }

  /** A whole sweep rearranges the list; it leaves the list unchanged exactly
      when the list has no neighbouring pair out of order, and otherwise it
      strictly lowers the inversion count. */
  lemma SweepFacts(s: seq<int>)
    ensures |Sweep(s)| == |s| && multiset(Sweep(s)) == multiset(s)
    ensures AdjacentSorted(s) <==> Sweep(s) == s
    ensures !AdjacentSorted(s) ==> Inversions(Sweep(s)) < Inversions(s)
  {
    var n := if |s| == 0 then 0 else |s| - 1;
    SweepPrefixPermutes(s, n);
    SweepPrefixUnchanged(s, n);
    SweepPrefixInversions(s, n);
    AdjacentSortedBelowAll(s);
  }

  // ---------------------------------------------------------------------------
  // The algorithm

  /** One sweep over `a`: swap every neighbour pair found out of order, and
      report whether any swap happened. */
  method Pass(a: array<int>) returns (swapped: bool)
    modifies a
    ensures a[..] == Sweep(old(a[..]))
    ensures swapped <==> !AdjacentSorted(old(a[..]))
    ensures multiset(a[..]) == multiset(old(a[..]))
    ensures swapped ==> Inversions(a[..]) < Inversions(old(a[..]))
    ensures !swapped ==> a[..] == old(a[..])
  {
    ghost var original := a[..];
    swapped := false;
    for i := 0 to if a.Length == 0 then 0 else a.Length - 1
      invariant a[..] == SweepPrefix(original, i)
      invariant swapped <==> a[..] != original
    {
      SweepPrefixStep(original, i);
      if a[i] > a[i + 1] {
        ghost var before := a[..];
        a[i], a[i + 1] := a[i + 1], a[i];
        assert a[..] == SwapAdjacent(before, i);
        swapped := true;
      }
    }
    assert a[..] == Sweep(original);
    SweepFacts(original);
  }

  /** Sort a copy of `nums`, leaving `nums` itself untouched (no `modifies`). */
  method BubbleSort(nums: array<int>) returns (result: array<int>)
    ensures fresh(result)
    ensures result.Length == nums.Length
    ensures multiset(result[..]) == multiset(nums[..])
    ensures forall x :: x in result[..] <==> x in nums[..]
    ensures Sorted(result[..])
    ensures AdjacentSorted(nums[..]) ==> result[..] == nums[..]
  {
    result := new int[nums.Length];
    forall i | 0 <= i < nums.Length {
      result[i] := nums[i];
    }
    assert result[..] == nums[..];
    var swapped := true;
    while swapped
      invariant result.Length == nums.Length
      invariant multiset(result[..]) == multiset(nums[..])
      invariant !swapped ==> AdjacentSorted(result[..])
      invariant AdjacentSorted(nums[..]) ==> result[..] == nums[..]
      decreases Inversions(result[..]) + (if swapped then 1 else 0)
    {
      swapped := Pass(result);
    }
    AdjacentSortedIsSorted(result[..]);
    forall x
      ensures x in result[..] <==> x in nums[..]
    {
      assert x in result[..] <==> x in multiset(result[..]);
    }
  }

  /** Run `BubbleSort` on an array holding `s` and read the result back. */
  method SortSequence(s: seq<int>) returns (r: seq<int>)
    ensures Sorted(r) && multiset(r) == multiset(s)
  {
    var a := new int[|s|](i requires 0 <= i < |s| => s[i]);
    assert a[..] == s;
    var sorted := BubbleSort(a);
    r := sorted[..];
  }

  /** The expected outputs of the example test rearrange its inputs. */
  lemma FirstArrangement()
    ensures multiset([5, 3, 1, 4, 2]) == multiset([1, 2, 3, 4, 5])
  {
    assert multiset([5, 3, 1, 4, 2]) == multiset{1, 2, 3, 4, 5};
  }

  lemma SecondArrangement()
    ensures multiset([1, 3, 1, 3, 5]) == multiset([1, 1, 3, 3, 5])
  {
    assert multiset([1, 3, 1, 3, 5]) == multiset{1, 1, 3, 3, 5};
  }

  /** The only sorted rearrangement of the first example's input. */
  lemma FirstExample(r: seq<int>)
    requires Sorted(r) && multiset(r) == multiset([5, 3, 1, 4, 2])
    ensures r == [1, 2, 3, 4, 5]
  {
    FirstArrangement();
    SortedUnique(r, [1, 2, 3, 4, 5]);
  }

  /** The only sorted rearrangement of the second example's input. */
  lemma SecondExample(r: seq<int>)
    requires Sorted(r) && multiset(r) == multiset([1, 3, 1, 3, 5])
    ensures r == [1, 1, 3, 3, 5]
  {
    SecondArrangement();
    SortedUnique(r, [1, 1, 3, 3, 5]);
  }

  /** The two hand-worked cases of the example test. */
  method Examples() returns (first: seq<int>, second: seq<int>)
    ensures first == [1, 2, 3, 4, 5]
    ensures second == [1, 1, 3, 3, 5]
  {
    first := SortSequence([5, 3, 1, 4, 2]);
    FirstExample(first);
    second := SortSequence([1, 3, 1, 3, 5]);
    SecondExample(second);
  }
}
