/**
 * The distinct values of the number list and how often each occurs.
 */
module Frequency {
  import opened Numbers
  import Sorter

  /** The multiplicity in `m` of each value of `d`, position by position. */
  function Multiplicities(m: multiset<int>, d: seq<int>): seq<int> {
    seq(|d|, i requires 0 <= i < |d| => m[d[i]])
  }

  /**
   * Raising every entry of `a` at which `d` holds `y` by one raises the sum
   * by the number of times `y` occurs in `d`.
   */
  lemma {:induction false} SumAddIndicator(a: seq<int>, b: seq<int>, d: seq<int>, y: int)
    requires |a| == |b| == |d|
    requires forall k :: 0 <= k < |d| ==> b[k] == a[k] + if d[k] == y then 1 else 0
    ensures Sum(b) == Sum(a) + multiset(d)[y]
  {
    if d != [] {
      var n := |d|;
      assert d == d[..n - 1] + [d[n - 1]];
      SumAddIndicator(a[..n - 1], b[..n - 1], d[..n - 1], y);
    }
  }

  /**
   * When `d` lists every value of `s` once, the multiplicities of the values
   * of `d` add up to the length of `s`.
   */
  lemma {:induction false} MultiplicitiesSum(s: seq<int>, d: seq<int>)
    requires Distinct(d) && forall x :: x in s ==> x in d
    ensures Sum(Multiplicities(multiset(s), d)) == |s|
  {
    if s == [] {
      SumOfZeros(Multiplicities(multiset(s), d));
    } else {
      var init, y := s[..|s| - 1], s[|s| - 1];
      assert s == init + [y];
      assert multiset(s) == multiset(init) + multiset{y};
      MultiplicitiesSum(init, d);
      SumAddIndicator(Multiplicities(multiset(init), d), Multiplicities(multiset(s), d), d, y);
      DistinctMultiplicity(d, y);
    }
  }

  lemma {:induction false} SumOfZeros(s: seq<int>)
    requires forall i :: 0 <= i < |s| ==> s[i] == 0
    ensures Sum(s) == 0
  {
    if s != [] {
      SumOfZeros(s[..|s| - 1]);
    }
  }

  /**
   * The copy loop's state: `out` lists the values of `sorted[..i]` once
   * each, in increasing order, ending with the last value scanned.
   */
  ghost predicate Deduplicated(sorted: seq<int>, i: int, out: seq<int>) {
    1 <= |out| <= i <= |sorted| && out[|out| - 1] == sorted[i - 1]
    && StrictlyIncreasing(out) && forall x :: x in out <==> x in sorted[..i]
  }

  /** Scanning one more value of a sorted list copies it exactly when it differs from the last copy. */
  lemma DeduplicatedStep(sorted: seq<int>, i: int, out: seq<int>)
    requires SortedBy(sorted, true) && Deduplicated(sorted, i, out) && i < |sorted|
    ensures sorted[i] != out[|out| - 1] ==> Deduplicated(sorted, i + 1, out + [sorted[i]])
    ensures sorted[i] == out[|out| - 1] ==> Deduplicated(sorted, i + 1, out)
  {
    assert sorted[..i + 1] == sorted[..i] + [sorted[i]];
    assert sorted[i - 1] <= sorted[i];
    if sorted[i] != out[|out| - 1] {
      var out' := out + [sorted[i]];
      assert forall k :: 0 <= k < |out| ==> out'[k] == out[k];
    }
  }

  /**
   * Writing `x` just past a filled prefix `out` of an array whose other
   * entries are those of `r` extends the prefix by `x`.
   */
  lemma FillNext<T>(out: seq<T>, x: T, r: seq<T>)
    requires |out| < |r|
    ensures (out + r[|out|..])[|out| := x] == (out + [x]) + r[|out| + 1..]
  {
  }

  /**
   * `removeDuplicates`: sorts the caller's list ascending in place, then
   * copies every value that differs from the one copied before it. The
   * result lists each value of the list exactly once, in increasing order.
   */
  method RemoveDuplicates(numbers: array<int>, noDuplicates: array<int>) returns (numUnique: UShort)
    requires 1 <= numbers.Length <= MAX_NUMBERS
    requires noDuplicates.Length >= numbers.Length && noDuplicates != numbers
    modifies numbers, noDuplicates
    ensures SortedBy(numbers[..], true) && multiset(numbers[..]) == multiset(old(numbers[..]))
    ensures 1 <= numUnique <= numbers.Length
    ensures StrictlyIncreasing(noDuplicates[..numUnique])
    ensures forall x :: x in noDuplicates[..numUnique] <==> x in numbers[..]
    ensures noDuplicates[numUnique..] == old(noDuplicates[numUnique..])
  {
    var n := numbers.Length;
    ghost var untouched := noDuplicates[..];
    // a non-empty list has a first distinct value
    numUnique := 1;
    Sorter.Quicksort(numbers, 0, n - 1, true);
    assert numbers[0..n] == numbers[..] && old(numbers[0..n]) == old(numbers[..]);
    ghost var sorted := numbers[..];
    var lastNum := numbers[0];
    FillNext([], lastNum, untouched);
    noDuplicates[0] := lastNum;
    ghost var out := [lastNum];
    assert sorted[..1] == out;
    for i := 1 to n
      modifies noDuplicates
      invariant numbers[..] == sorted
      invariant numUnique == |out| && Deduplicated(sorted, i, out) && lastNum == out[|out| - 1]
      invariant noDuplicates[..] == out + untouched[numUnique..]
    {
      DeduplicatedStep(sorted, i, out);
      if numbers[i] != lastNum {
        FillNext(out, numbers[i], untouched);
        noDuplicates[numUnique] := numbers[i];
        out := out + [numbers[i]];
        numUnique := numUnique + 1;
        lastNum := numbers[i];
      }
    }
    assert noDuplicates[..numUnique] == out && sorted[..n] == sorted;
  }

  /** Scanning one more value adds one to the multiplicity of `v` exactly when it is `v`. */
  lemma MultiplicityStep(s: seq<int>, j: int, v: int)
    requires 0 <= j < |s|
    ensures multiset(s[..j + 1])[v] == multiset(s[..j])[v] + if s[j] == v then 1 else 0
  {
    assert s[..j + 1] == s[..j] + [s[j]];
  }

  /**
   * The body of `getCount`'s outer loop: entry `i` of `numOccurances`
   * becomes the number of entries of `numbers` equal to `noDuplicates[i]`.
   */
  method CountOne(numbers: array<int>, noDuplicates: array<int>, i: int, numOccurances: array<Long>)
    requires numbers.Length <= MAX_NUMBERS
    requires 0 <= i < noDuplicates.Length && i < numOccurances.Length
    modifies numOccurances
    ensures numOccurances[..] == old(numOccurances[..])[i := multiset(numbers[..])[noDuplicates[i]]]
  {
    ghost var values, value := numbers[..], noDuplicates[i];
    ghost var outer: seq<int> := numOccurances[..];
    // the count of distinct value i starts at 0
    numOccurances[i] := 0;
    for j := 0 to numbers.Length
      invariant numOccurances[..] == outer[i := multiset(values[..j])[value]]
    {
      MultiplicityStep(values, j, value);
      MultiplicityAtMostLength(values[..j], value);
      if noDuplicates[i] == numbers[j] {
        numOccurances[i] := numOccurances[i] + 1;
      }
    }
    assert values[..numbers.Length] == values;
  }

  /**
   * The counting loops of `getCount`: entry `i` of `numOccurances` becomes
   * the number of entries of `numbers` equal to `noDuplicates[i]`, for each
   * `i` below `numUnique`; the entries from `numUnique` on stay as they were.
   */
  method CountEach(numbers: array<int>, noDuplicates: array<int>, numUnique: UShort, numOccurances: array<Long>)
    requires numbers.Length <= MAX_NUMBERS
    requires numUnique <= noDuplicates.Length && numUnique <= numOccurances.Length
    modifies numOccurances
    ensures numOccurances[..]
            == Multiplicities(multiset(numbers[..]), noDuplicates[..numUnique]) + old(numOccurances[numUnique..])
  {
    ghost var values, distinct := numbers[..], noDuplicates[..numUnique];
    ghost var counts := Multiplicities(multiset(values), distinct);
    ghost var untouched: seq<int> := numOccurances[..];
    for i := 0 to numUnique
      invariant numbers[..] == values && noDuplicates[..numUnique] == distinct
      invariant numOccurances[..] == counts[..i] + untouched[i..]
    {
      assert counts[i] == multiset(values)[noDuplicates[i]];
      FillNext(counts[..i], counts[i], untouched);
      CountOne(numbers, noDuplicates, i, numOccurances);
      assert counts[..i + 1] == counts[..i] + [counts[i]];
    }
    assert counts[..numUnique] == counts;
  }

  /**
   * `getCount`: removes the duplicates (sorting the caller's list), then
   * counts for each distinct value how many numbers equal it. The counts are
   * the multiplicities of the distinct values and add up to the length.
   */
  method GetCount(numbers: array<int>, noDuplicates: array<int>, numOccurances: array<Long>) returns (numUnique: UShort)
    requires 1 <= numbers.Length <= MAX_NUMBERS
    requires noDuplicates.Length >= numbers.Length && numOccurances.Length >= numbers.Length
    requires noDuplicates != numbers
    modifies numbers, noDuplicates, numOccurances
    ensures SortedBy(numbers[..], true) && multiset(numbers[..]) == multiset(old(numbers[..]))
    ensures 1 <= numUnique <= numbers.Length
    ensures StrictlyIncreasing(noDuplicates[..numUnique])
    ensures forall x :: x in noDuplicates[..numUnique] <==> x in numbers[..]
    ensures numOccurances[..numUnique] == Multiplicities(multiset(numbers[..]), noDuplicates[..numUnique])
    ensures forall i :: 0 <= i < numUnique ==> 1 <= numOccurances[i] <= numbers.Length
    ensures Sum(numOccurances[..numUnique]) == numbers.Length
    ensures noDuplicates[numUnique..] == old(noDuplicates[numUnique..])
    ensures numOccurances[numUnique..] == old(numOccurances[numUnique..])
  {
    numUnique := RemoveDuplicates(numbers, noDuplicates);
    CountEach(numbers, noDuplicates, numUnique, numOccurances);
    ghost var counts := Multiplicities(multiset(numbers[..]), noDuplicates[..numUnique]);
    assert numOccurances[..numUnique] == counts;
    CountsFacts(numbers[..], noDuplicates[..numUnique]);
  }

  /**
   * What the counts of `getCount` amount to: between one and the length
   * each, and the length altogether.
   */
  lemma CountsFacts(s: seq<int>, d: seq<int>)
    requires StrictlyIncreasing(d) && forall x :: x in d <==> x in s
    ensures Sum(Multiplicities(multiset(s), d)) == |s|
    ensures forall i :: 0 <= i < |d| ==> 1 <= Multiplicities(multiset(s), d)[i] <= |s|
  {
    StrictlyIncreasingIsDistinct(d);
    MultiplicitiesSum(s, d);
    forall i | 0 <= i < |d|
      ensures 1 <= multiset(s)[d[i]] <= |s|
    {
      assert d[i] in d;
      MultiplicityAtMostLength(s, d[i]);
    }
  }
}
