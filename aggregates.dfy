/**
 * Aggregate statistics over the number list: mean, median and range. The
 * mean and the median are exact rationals here, where the analyzer computes
 * them as `double`s.
 */
module Aggregates {
  import opened Numbers
  import Sorter

  /** The exact arithmetic mean of a non-empty list. */
  function Mean(s: seq<int>): real
    requires |s| > 0
  {
    Sum(s) as real / |s| as real
  }

  /**
   * The median of a sorted non-empty list: its middle value when the length
   * is odd, the average of its two middle values when it is even.
   */
  function MedianOfSorted(s: seq<int>): real
    requires |s| > 0
  {
    if |s| % 2 == 0 then (s[|s| / 2 - 1] + s[|s| / 2]) as real / 2.0 else s[|s| / 2] as real
  }

  /** Multiplying the mean back by the length gives the sum. */
  lemma MeanTimesLength(s: seq<int>)
    requires |s| > 0
    ensures Mean(s) * |s| as real == Sum(s) as real
  {
  }

  /** A sum of values all below `m` is below `|s|` times `m`. */
  lemma {:induction false} SumBelowBound(s: seq<int>, m: real)
    requires |s| > 0 && forall i :: 0 <= i < |s| ==> s[i] as real < m
    ensures Sum(s) as real < |s| as real * m
  {
    var init := s[..|s| - 1];
    var k := |init| as real;
    if init != [] {
      assert forall i :: 0 <= i < |init| ==> init[i] == s[i];
      SumBelowBound(init, m);
    }
    assert Sum(init) as real <= k * m;
    assert |s| as real * m == k * m + m;
  }

  /** A sum of values all above `m` is above `|s|` times `m`. */
  lemma {:induction false} SumAboveBound(s: seq<int>, m: real)
    requires |s| > 0 && forall i :: 0 <= i < |s| ==> s[i] as real > m
    ensures Sum(s) as real > |s| as real * m
  {
    var init := s[..|s| - 1];
    var k := |init| as real;
    if init != [] {
      assert forall i :: 0 <= i < |init| ==> init[i] == s[i];
      SumAboveBound(init, m);
    }
    assert Sum(init) as real >= k * m;
    assert |s| as real * m == k * m + m;
  }

  /**
   * The mean lies within the values: some element is at most the mean and
   * some element is at least the mean.
   */
  lemma MeanWithinValues(s: seq<int>)
    requires |s| > 0
    ensures exists i :: 0 <= i < |s| && s[i] as real <= Mean(s)
    ensures exists i :: 0 <= i < |s| && s[i] as real >= Mean(s)
  {
    MeanTimesLength(s);
    if forall i :: 0 <= i < |s| ==> s[i] as real > Mean(s) {
      SumAboveBound(s, Mean(s));
    }
    if forall i :: 0 <= i < |s| ==> s[i] as real < Mean(s) {
      SumBelowBound(s, Mean(s));
    }
  }

  /** The sum of an analyzable list fits a `long`. */
  lemma SumFitsLong(s: seq<int>)
    requires Analyzable(s)
    ensures -0x8000_0000_0000_0000 <= Sum(s) <= 0x7FFF_FFFF_FFFF_FFFF
  {
    SumBounds(s);
  }

  /** Reordering an analyzable list leaves it analyzable. */
  lemma PermutationKeepsAnalyzable(s: seq<int>, t: seq<int>)
    requires Analyzable(t) && multiset(s) == multiset(t)
    ensures Analyzable(s)
  {
    assert |s| == |multiset(s)| == |t|;
    assert AllAtMost(t, INT32_MAX) && AllAbove(t, INT32_MIN - 1);
    PermutationKeepsBounds(s, t, INT32_MAX);
    PermutationKeepsBounds(s, t, INT32_MIN - 1);
  }

  /** `getMean`: sums the list in a `long` and divides by its length. */
  method GetMean(numbers: array<int>) returns (mean: real)
    requires Analyzable(numbers[..])
    ensures mean == Mean(numbers[..])
  {
    var total: Long := 0;
    for i := 0 to numbers.Length
      invariant total == Sum(numbers[..i])
    {
      assert numbers[..i + 1][..i] == numbers[..i];
      assert Analyzable(numbers[..i + 1][..]) by {
        assert numbers[..i + 1] <= numbers[..];
      }
      SumBounds(numbers[..i + 1]);
      total := total + numbers[i];
    }
    assert numbers[..numbers.Length] == numbers[..];
    mean := total as real / numbers.Length as real;
  }

  /**
   * `getMedian`: sorts the caller's list ascending in place, then takes the
   * middle value or averages the two middle values.
   */
  method GetMedian(numbers: array<int>) returns (median: real)
    requires Analyzable(numbers[..])
    modifies numbers
    ensures SortedBy(numbers[..], true) && multiset(numbers[..]) == multiset(old(numbers[..]))
    ensures median == MedianOfSorted(numbers[..])
  {
    var n := numbers.Length;
    Sorter.Quicksort(numbers, 0, n - 1, true);
    assert numbers[0..n] == numbers[..] && old(numbers[0..n]) == old(numbers[..]);
    PermutationKeepsAnalyzable(numbers[..], old(numbers[..]));
    if n % 2 == 0 {
      // even length: halve the sum of the two middle values
      var middleSum: Long := numbers[n / 2 - 1] + numbers[n / 2];
      median := middleSum as real / 2.0;
    } else {
      // odd length: the value in the middle
      median := numbers[n / 2] as real;
    }
  }

  /**
   * `getRange`: one scan keeping the largest and the smallest value; the
   * result is the largest difference between two values of the list.
   */
  method GetRange(numbers: array<int>) returns (range: Long)
    requires Analyzable(numbers[..])
    ensures range >= 0
    ensures forall i, j :: 0 <= i < numbers.Length && 0 <= j < numbers.Length ==> numbers[i] - numbers[j] <= range
    ensures exists i, j :: 0 <= i < numbers.Length && 0 <= j < numbers.Length && numbers[i] - numbers[j] == range
    ensures range == 0 <==> forall i :: 0 <= i < numbers.Length ==> numbers[i] == numbers[0]
  {
    assert forall i :: 0 <= i < numbers.Length ==> INT32_MIN <= numbers[i] <= INT32_MAX by {
      assert forall i :: 0 <= i < numbers.Length ==> numbers[..][i] == numbers[i];
    }
    var largest: Long, smallest: Long := numbers[0], numbers[0];
    ghost var hi, lo := 0, 0;
    for i := 0 to numbers.Length
      invariant 0 <= hi < numbers.Length && numbers[hi] == largest
      invariant 0 <= lo < numbers.Length && numbers[lo] == smallest
      invariant forall k :: 0 <= k < i ==> smallest <= numbers[k] <= largest
    {
      if numbers[i] > largest {
        largest, hi := numbers[i], i;
      }
      if numbers[i] < smallest {
        smallest, lo := numbers[i], i;
      }
    }
    range := largest - smallest;
  }
}
