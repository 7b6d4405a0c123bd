/**
 * How many numbers lie strictly below and strictly above a threshold, for
 * the mean and for the median as thresholds.
 */
module Thresholds {
  import opened Numbers
  import opened Aggregates

  /** Where a value lies relative to a threshold. */
  datatype Side = Below | Equal | Above

  /** The side of `x`, tested as the counting loops test it: first `<`, then `>`. */
  function SideOf(x: int, threshold: real): Side {
    if (x as real) < threshold then Below else if (x as real) > threshold then Above else Equal
  }

  /** How many values of `s` lie on `side` of `threshold`, counted from the front. */
  function CountSide(s: seq<int>, threshold: real, side: Side): nat {
    if s == [] then 0
    else CountSide(s[..|s| - 1], threshold, side) + (if SideOf(s[|s| - 1], threshold) == side then 1 else 0)
  }

  /** The positions of `s` whose value lies on `side` of `threshold`. */
  function PositionsOn(s: seq<int>, threshold: real, side: Side): set<int> {
    set i | 0 <= i < |s| && SideOf(s[i], threshold) == side
  }

  /** The count is the number of positions on that side. */
  lemma {:induction false} CountSideIsPositions(s: seq<int>, threshold: real, side: Side)
    ensures CountSide(s, threshold, side) == |PositionsOn(s, threshold, side)|
  {
    if s != [] {
      var init := s[..|s| - 1];
      CountSideIsPositions(init, threshold, side);
      var before := PositionsOn(init, threshold, side);
      assert forall i :: 0 <= i < |init| ==> init[i] == s[i];
      if SideOf(s[|s| - 1], threshold) == side {
        assert PositionsOn(s, threshold, side) == before + {|s| - 1};
        assert |s| - 1 !in before;
      } else {
        assert PositionsOn(s, threshold, side) == before;
      }
    }
  }

  /** Every value is below, equal to or above the threshold, so the three counts add up to the length. */
  lemma {:induction false} CountSidesPartition(s: seq<int>, threshold: real)
    ensures CountSide(s, threshold, Below) + CountSide(s, threshold, Equal) + CountSide(s, threshold, Above) == |s|
  {
    if s != [] {
      CountSidesPartition(s[..|s| - 1], threshold);
    }
  }

  lemma {:induction false} CountSideConcat(s: seq<int>, t: seq<int>, threshold: real, side: Side)
    ensures CountSide(s + t, threshold, side) == CountSide(s, threshold, side) + CountSide(t, threshold, side)
  {
    if t != [] {
      assert (s + t)[..|s + t| - 1] == s + t[..|t| - 1];
      assert (s + t)[|s + t| - 1] == t[|t| - 1];
      CountSideConcat(s, t[..|t| - 1], threshold, side);
    } else {
      assert s + t == s;
    }
  }

  /** No value on `side` exactly when the count is zero; all of them exactly when it is the length. */
  lemma {:induction false} CountSideExtremes(s: seq<int>, threshold: real, side: Side)
    ensures CountSide(s, threshold, side) == 0 <==> forall i :: 0 <= i < |s| ==> SideOf(s[i], threshold) != side
    ensures CountSide(s, threshold, side) == |s| <==> forall i :: 0 <= i < |s| ==> SideOf(s[i], threshold) == side
  {
    if s != [] {
      var init := s[..|s| - 1];
      CountSideExtremes(init, threshold, side);
      CountSidesPartition(init, threshold);
      assert forall i :: 0 <= i < |init| ==> init[i] == s[i];
    }
  }

  /** Taking the value at position `j` out of a list takes its contribution out of the count. */
  lemma CountSideRemove(t: seq<int>, j: int, threshold: real, side: Side)
    requires 0 <= j < |t|
    ensures CountSide(t, threshold, side)
            == CountSide(t[..j] + t[j + 1..], threshold, side) + (if SideOf(t[j], threshold) == side then 1 else 0)
  {
    var l, x, r := t[..j], t[j], t[j + 1..];
    assert t == (l + [x]) + r;
    CountSideConcat(l + [x], r, threshold, side);
    CountSideConcat(l, [x], threshold, side);
    CountSideConcat(l, r, threshold, side);
    assert [x][..0] == [];
  }

  /** Reordering the values changes none of the counts. */
  lemma {:induction false} CountSidePermutation(s: seq<int>, t: seq<int>, threshold: real, side: Side)
    requires multiset(s) == multiset(t)
    ensures CountSide(s, threshold, side) == CountSide(t, threshold, side)
  {
    if s != [] {
      var x := s[|s| - 1];
      assert x in multiset(t) by {
        assert x in s;
      }
      var j :| 0 <= j < |t| && t[j] == x;
      var rest := t[..j] + t[j + 1..];
      RemoveLastMatching(s, t, j);
      CountSidePermutation(s[..|s| - 1], rest, threshold, side);
      CountSideRemove(t, j, threshold, side);
    }
  }

  /**
   * The counts below and above add up to the length exactly when no value
   * equals the threshold.
   */
  lemma NoTiesIff(s: seq<int>, threshold: real)
    ensures CountSide(s, threshold, Below) + CountSide(s, threshold, Above) == |s|
            <==> forall i :: 0 <= i < |s| ==> s[i] as real != threshold
  {
    CountSidesPartition(s, threshold);
    CountSideExtremes(s, threshold, Equal);
  }

  /** Some value is not below the mean and some value is not above it. */
  lemma MeanSplitsValues(s: seq<int>)
    requires |s| > 0
    ensures CountSide(s, Mean(s), Below) < |s| && CountSide(s, Mean(s), Above) < |s|
  {
    MeanWithinValues(s);
    var lo :| 0 <= lo < |s| && s[lo] as real <= Mean(s);
    var hi :| 0 <= hi < |s| && s[hi] as real >= Mean(s);
    assert SideOf(s[lo], Mean(s)) != Above && SideOf(s[hi], Mean(s)) != Below;
    CountSidesPartition(s, Mean(s));
    CountSideExtremes(s, Mean(s), Below);
    CountSideExtremes(s, Mean(s), Above);
  }

  /** A block of positions none of whose values is on `side` bounds the count from above. */
  lemma CountSideOutside(s: seq<int>, threshold: real, side: Side, lo: int, hi: int)
    requires 0 <= lo <= hi <= |s|
    requires forall i :: lo <= i < hi ==> SideOf(s[i], threshold) != side
    ensures CountSide(s, threshold, side) <= |s| - (hi - lo)
  {
    var a, b, c := s[..lo], s[lo..hi], s[hi..];
    assert s == a + b + c;
    CountSideConcat(a + b, c, threshold, side);
    CountSideConcat(a, b, threshold, side);
    CountSideExtremes(b, threshold, side);
    CountSidesPartition(a, threshold);
    CountSidesPartition(c, threshold);
  }

  /** At most half of a sorted list lies strictly below its median, and at most half strictly above. */
  lemma MedianBalanced(s: seq<int>)
    requires |s| > 0 && SortedBy(s, true)
    ensures CountSide(s, MedianOfSorted(s), Below) <= |s| / 2
    ensures CountSide(s, MedianOfSorted(s), Above) <= |s| / 2
  {
    var n, m := |s|, MedianOfSorted(s);
    var k := n / 2;
    if n % 2 == 0 {
      assert s[k - 1] as real <= m <= s[k] as real;
      CountSideOutside(s, m, Below, k, n);
      CountSideOutside(s, m, Above, 0, k);
    } else {
      CountSideOutside(s, m, Below, k, n);
      CountSideOutside(s, m, Above, 0, k + 1);
    }
  }

  /**
   * The counting loop both routines share: values below the threshold count
   * as less, values above it as greater, values equal to it as neither.
   */
  method CountLessGreater(numbers: array<int>, threshold: real) returns (numLess: UShort, numGreater: UShort)
    requires numbers.Length <= MAX_NUMBERS
    ensures numLess == CountSide(numbers[..], threshold, Below)
    ensures numGreater == CountSide(numbers[..], threshold, Above)
  {
    numLess, numGreater := 0, 0;
    for i := 0 to numbers.Length
      invariant numLess == CountSide(numbers[..i], threshold, Below)
      invariant numGreater == CountSide(numbers[..i], threshold, Above)
    {
      assert numbers[..i + 1][..i] == numbers[..i];
      CountSidesPartition(numbers[..i], threshold);
      if (numbers[i] as real) < threshold {
        numLess := numLess + 1;
      } else if (numbers[i] as real) > threshold {
        numGreater := numGreater + 1;
      }
    }
    assert numbers[..numbers.Length] == numbers[..];
  }

  /**
   * `getLessGreaterThanMean`: the numbers strictly below and strictly above
   * the mean. Neither count can take in every number.
   */
  method GetLessGreaterThanMean(numbers: array<int>) returns (numLess: UShort, numGreater: UShort)
    requires Analyzable(numbers[..])
    ensures numLess == CountSide(numbers[..], Mean(numbers[..]), Below)
    ensures numGreater == CountSide(numbers[..], Mean(numbers[..]), Above)
    ensures numLess < numbers.Length && numGreater < numbers.Length
    ensures numLess + numGreater == numbers.Length
            <==> forall i :: 0 <= i < numbers.Length ==> numbers[i] as real != Mean(numbers[..])
  {
    var mean := GetMean(numbers);
    numLess, numGreater := CountLessGreater(numbers, mean);
    MeanSplitsValues(numbers[..]);
    NoTiesIff(numbers[..], mean);
  }

  /**
   * `getLessGreaterThanMedian`: sorts the caller's list (through the median)
   * and counts the numbers strictly below and strictly above the median; at
   * most half of them lie on either side, and the two counts take in every
   * number exactly when none equals the median.
   */
  method GetLessGreaterThanMedian(numbers: array<int>) returns (numLess: UShort, numGreater: UShort)
    requires Analyzable(numbers[..])
    modifies numbers
    ensures SortedBy(numbers[..], true) && multiset(numbers[..]) == multiset(old(numbers[..]))
    ensures numLess == CountSide(old(numbers[..]), MedianOfSorted(numbers[..]), Below)
    ensures numGreater == CountSide(old(numbers[..]), MedianOfSorted(numbers[..]), Above)
    ensures numLess <= numbers.Length / 2 && numGreater <= numbers.Length / 2
    ensures numLess + numGreater == numbers.Length
            <==> forall i :: 0 <= i < numbers.Length ==> numbers[i] as real != MedianOfSorted(numbers[..])
  {
    var median := GetMedian(numbers);
    numLess, numGreater := CountLessGreater(numbers, median);
    MedianBalanced(numbers[..]);
    NoTiesIff(numbers[..], median);
    CountSidePermutation(numbers[..], old(numbers[..]), median, Below);
    CountSidePermutation(numbers[..], old(numbers[..]), median, Above);
  }
}
