/**
 * The in-place partition-exchange sort: an XOR swap, two directional
 * partition routines with converging cursors, and a recursive quicksort
 * that takes the leftmost element of each range as its pivot.
 */
module Sorter {
  import opened Numbers

  /**
   * The XOR swap `x ^= y; y ^= x; x ^= y` on 64-bit words exchanges two
   * distinct cells, and zeroes a cell that is swapped with itself (then every
   * step reads the value just written).
   */
  lemma XorSwapOnWords(x: bv64, y: bv64)
    ensures var x1 := x ^ y; var y1 := y ^ x1; var x2 := x1 ^ y1; x2 == y && y1 == x
    ensures var x1 := x ^ x; var x2 := x1 ^ x1; var x3 := x2 ^ x2; x3 == 0
  {
  }

  /** The list after the XOR swap of positions `i` and `j`. */
  function Swapped(s: seq<int>, i: int, j: int): (r: seq<int>)
    requires 0 <= i < |s| && 0 <= j < |s|
    ensures |r| == |s|
  {
    if i == j then s[i := 0] else s[i := s[j]][j := s[i]]
  }

  /** The XOR swap of `numbers[i]` and `numbers[j]`, aliasing included. */
  method Swap(a: array<int>, i: int, j: int)
    requires 0 <= i < a.Length && 0 <= j < a.Length
    modifies a
    ensures a[..] == Swapped(old(a[..]), i, j)
  {
    if i == j {
      a[i] := 0;
    } else {
      a[i], a[j] := a[j], a[i];
    }
  }

  /** Exchanging two distinct cells permutes the list. */
  lemma SwapPermutes(s: seq<int>, i: int, j: int)
    requires 0 <= i < |s| && 0 <= j < |s| && i != j
    ensures multiset(Swapped(s, i, j)) == multiset(s)
  {
    var t := s[i := s[j]];
    assert multiset(t) == multiset(s) - multiset{s[i]} + multiset{s[j]};
    assert multiset(t[j := s[i]]) == multiset(t) - multiset{s[j]} + multiset{s[i]};
  }

  /**
   * Swapping the cell that is due to hold the pivot with another moves that
   * duty to the other cell: the multiset with the pivot written back is kept.
   */
  lemma SwapMovesHole(s: seq<int>, i: int, j: int, pivot: int)
    requires 0 <= i < |s| && 0 <= j < |s|
    ensures multiset(Swapped(s, i, j)[j := pivot]) == multiset(s[i := pivot])
  {
    if i != j {
      var t := s[i := pivot];
      var lhs, rhs := Swapped(s, i, j)[j := pivot], Swapped(t, i, j);
      assert rhs == t[i := s[j]][j := pivot];
      forall k | 0 <= k < |s|
        ensures lhs[k] == rhs[k]
      {
      }
      assert lhs == rhs;
      SwapPermutes(t, i, j);
    }
  }

  /**
   * Whether a value belongs left of the split point: at most the pivot for
   * an ascending sort, above it for a descending one.
   */
  predicate LeftOf(x: int, pivot: int, asc: bool) {
    if asc then x <= pivot else x > pivot
  }

  /**
   * The cursors of a partition of `[start, end]` are in range, everything
   * left of `left` belongs left and everything right of `right` belongs right.
   */
  ghost predicate SplitSides(s: seq<int>, start: int, end: int, left: int, right: int, pivot: int, asc: bool) {
    0 <= start <= left <= right <= end < |s| &&
    (forall k :: start <= k < left ==> LeftOf(s[k], pivot, asc)) &&
    (forall k :: right < k <= end ==> !LeftOf(s[k], pivot, asc))
  }

  /**
   * What a partition keeps of `s0` between two outer iterations: nothing
   * outside `[start, end]` moved, the cell under `left` holds the pivot (or
   * the 0 that an aliased swap left there once the cursors met), and writing
   * the pivot back under `left` gives a permutation of `s0`.
   */
  ghost predicate SplitKeeps(s: seq<int>, s0: seq<int>, start: int, end: int, left: int, right: int, pivot: int) {
    |s| == |s0| && 0 <= start <= left <= right <= end < |s| &&
    s[left] == (if left < right || start == end then pivot else 0) &&
    (forall k :: 0 <= k < |s| && !(start <= k <= end) ==> s[k] == s0[k]) &&
    multiset(s[left := pivot]) == multiset(s0)
  }

  /** Invariant of the outer loop of both partition routines. */
  ghost predicate SplitState(s: seq<int>, s0: seq<int>, start: int, end: int, left: int, right: int, pivot: int, asc: bool) {
    SplitSides(s, start, end, left, right, pivot, asc) && SplitKeeps(s, s0, start, end, left, right, pivot)
  }

  /** A swap touches only its two positions. */
  lemma SwappedElsewhere(s: seq<int>, i: int, j: int)
    requires 0 <= i < |s| && 0 <= j < |s|
    ensures forall k :: 0 <= k < |s| && k != i && k != j ==> Swapped(s, i, j)[k] == s[k]
  {
  }

  lemma SplitStepSides(b: seq<int>, c: seq<int>, d: seq<int>, start: int, end: int,
                       left0: int, right0: int, left: int, right: int, pivot: int, asc: bool)
    requires SplitSides(b, start, end, left0, right0, pivot, asc)
    requires left0 <= right <= right0
    requires forall k :: right < k <= right0 ==> !LeftOf(b[k], pivot, asc)
    requires c == Swapped(b, left0, right)
    requires left0 <= left <= right
    requires forall k :: left0 <= k < left ==> LeftOf(c[k], pivot, asc)
    requires d == Swapped(c, right, left)
    ensures SplitSides(d, start, end, left, right, pivot, asc)
  {
    SwappedElsewhere(b, left0, right);
    SwappedElsewhere(c, right, left);
    forall k | start <= k < left
      ensures LeftOf(d[k], pivot, asc)
    {
      if k < left0 { assert d[k] == c[k] == b[k]; } else { assert d[k] == c[k]; }
    }
    forall k | right < k <= end
      ensures !LeftOf(d[k], pivot, asc)
    {
      assert d[k] == c[k] == b[k];
    }
  }

  lemma SplitStepKeeps(b: seq<int>, c: seq<int>, d: seq<int>, s0: seq<int>, start: int, end: int,
                       left0: int, right0: int, left: int, right: int, pivot: int)
    requires SplitKeeps(b, s0, start, end, left0, right0, pivot) && left0 < right0
    requires left0 <= left <= right <= right0
    requires c == Swapped(b, left0, right)
    requires d == Swapped(c, right, left)
    ensures SplitKeeps(d, s0, start, end, left, right, pivot)
  {
    SwappedElsewhere(b, left0, right);
    SwappedElsewhere(c, right, left);
    SwapMovesHole(b, left0, right, pivot);
    SwapMovesHole(c, right, left, pivot);
  }

  /**
   * One outer iteration of either partition routine: the right cursor skips
   * values that belong right and stops at `right`, the first swap, the left
   * cursor skips values that belong left and stops at `left`, the second
   * swap. The state is kept and the cursors get strictly closer.
   */
  lemma SplitStep(b: seq<int>, c: seq<int>, d: seq<int>, s0: seq<int>,
                  start: int, end: int, left0: int, right0: int,
                  left: int, right: int, pivot: int, asc: bool)
    requires SplitState(b, s0, start, end, left0, right0, pivot, asc) && left0 < right0
    requires left0 <= right <= right0
    requires forall k :: right < k <= right0 ==> !LeftOf(b[k], pivot, asc)
    requires right > left0 ==> LeftOf(b[right], pivot, asc)
    requires c == Swapped(b, left0, right)
    requires left0 <= left <= right
    requires forall k :: left0 <= k < left ==> LeftOf(c[k], pivot, asc)
    requires left < right ==> !LeftOf(c[left], pivot, asc)
    requires d == Swapped(c, right, left)
    ensures SplitState(d, s0, start, end, left, right, pivot, asc)
    ensures right - left < right0 - left0
  {
    SplitStepSides(b, c, d, start, end, left0, right0, left, right, pivot, asc);
    SplitStepKeeps(b, c, d, s0, start, end, left0, right0, left, right, pivot);
    // the first swap brings a value that belongs left to `left0`, so the
    // cursors cannot both have stayed where they were
    assert right > left0 ==> c[left0] == b[right];
  }

  /**
   * The values of `l` belong left of `x` and those of `r` right of it, for
   * the given direction.
   */
  ghost predicate SplitAround(l: seq<int>, x: int, r: seq<int>, asc: bool) {
    if asc then AllAtMost(l, x) && AllAbove(r, x) else AllAbove(l, x) && AllAtMost(r, x)
  }

  /** What the outer loop's state says once the cursors have met. */
  lemma SplitFinished(s: seq<int>, s0: seq<int>, start: int, end: int, p: int, pivot: int, asc: bool)
    requires SplitState(s, s0, start, end, p, p, pivot, asc)
    ensures SplitAround(s[start..p], pivot, s[p + 1..end + 1], asc)
    ensures s[p] == if start < end then 0 else pivot
    ensures s[..start] == s0[..start] && s[end + 1..] == s0[end + 1..]
    ensures multiset(s[p := pivot]) == multiset(s0)
  {
    var l, r := s[start..p], s[p + 1..end + 1];
    assert forall i :: 0 <= i < |l| ==> LeftOf(l[i], pivot, asc) by {
      forall i | 0 <= i < |l| ensures LeftOf(l[i], pivot, asc) {
        assert l[i] == s[start + i];
      }
    }
    assert forall i :: 0 <= i < |r| ==> !LeftOf(r[i], pivot, asc) by {
      forall i | 0 <= i < |r| ensures !LeftOf(r[i], pivot, asc) {
        assert r[i] == s[p + 1 + i];
      }
    }
  }

  /**
   * Partitions `a[start..end]` (inclusive) around `pivot == a[start]` so that
   * values at most the pivot end on the left. The returned split point `p` is
   * where the cursors met; the last swap there was aliased, so `a[p]` is 0
   * once the range has two or more elements, and writing the pivot back into
   * it restores the original multiset.
   */
  method SplitArraySmallToLarge(a: array<int>, pivot: int, start: int, end: int) returns (p: int)
    requires 0 <= start <= end < a.Length
    requires a[start] == pivot
    modifies a
    ensures start <= p <= end
    ensures SplitAround(a[start..p], pivot, a[p + 1..end + 1], true)
    ensures a[p] == if start < end then 0 else pivot
    ensures a[..start] == old(a[..start]) && a[end + 1..] == old(a[end + 1..])
    ensures multiset(a[..][p := pivot]) == multiset(old(a[..]))
  {
    var left, right := start, end;
    assert a[..][left := pivot] == a[..];
    while left < right
      invariant SplitState(a[..], old(a[..]), start, end, left, right, pivot, true)
      decreases right - left
    {
      ghost var left0, right0, b := left, right, a[..];
      // move `right` down past values above the pivot, stopping at `left`
      while pivot < a[right] && right > left
        invariant left <= right <= right0
        invariant forall k :: right < k <= right0 ==> !LeftOf(b[k], pivot, true)
        decreases right - left
      {
        right := right - 1;
      }
      Swap(a, left, right);
      ghost var c := a[..];
      // move `left` up past values at most the pivot, stopping at `right`
      while pivot >= a[left] && left < right
        invariant left0 <= left <= right
        invariant forall k :: left0 <= k < left ==> LeftOf(c[k], pivot, true)
        decreases right - left
      {
        left := left + 1;
      }
      Swap(a, right, left);
      SplitStep(b, c, a[..], old(a[..]), start, end, left0, right0, left, right, pivot, true);
    }
    p := left;
    SplitFinished(a[..], old(a[..]), start, end, p, pivot, true);
  }

  /**
   * Partitions `a[start..end]` (inclusive) around `pivot == a[start]` so that
   * values above the pivot end on the left; otherwise as
   * `SplitArraySmallToLarge`.
   */
  method SplitArrayLargeToSmall(a: array<int>, pivot: int, start: int, end: int) returns (p: int)
    requires 0 <= start <= end < a.Length
    requires a[start] == pivot
    modifies a
    ensures start <= p <= end
    ensures SplitAround(a[start..p], pivot, a[p + 1..end + 1], false)
    ensures a[p] == if start < end then 0 else pivot
    ensures a[..start] == old(a[..start]) && a[end + 1..] == old(a[end + 1..])
    ensures multiset(a[..][p := pivot]) == multiset(old(a[..]))
  {
    var left, right := start, end;
    assert a[..][left := pivot] == a[..];
    while left < right
      invariant SplitState(a[..], old(a[..]), start, end, left, right, pivot, false)
      decreases right - left
    {
      ghost var left0, right0, b := left, right, a[..];
      // move `right` down past values at most the pivot, stopping at `left`
      while pivot >= a[right] && right > left
        invariant left <= right <= right0
        invariant forall k :: right < k <= right0 ==> !LeftOf(b[k], pivot, false)
        decreases right - left
      {
        right := right - 1;
      }
      Swap(a, left, right);
      ghost var c := a[..];
      // move `left` up past values above the pivot, stopping at `right`
      while pivot < a[left] && left < right
        invariant left0 <= left <= right
        invariant forall k :: left0 <= k < left ==> LeftOf(c[k], pivot, false)
        decreases right - left
      {
        left := left + 1;
      }
      Swap(a, right, left);
      SplitStep(b, c, a[..], old(a[..]), start, end, left0, right0, left, right, pivot, false);
    }
    p := left;
    SplitFinished(a[..], old(a[..]), start, end, p, pivot, false);
  }

  /** The choice between the two partition routines that `Quicksort` makes. */
  method Split(a: array<int>, pivot: int, start: int, end: int, smallToLarge: bool) returns (splitPoint: int)
    requires 0 <= start <= end < a.Length
    requires a[start] == pivot
    modifies a
    ensures start <= splitPoint <= end
    ensures SplitAround(a[start..splitPoint], pivot, a[splitPoint + 1..end + 1], smallToLarge)
    ensures a[splitPoint] == if start < end then 0 else pivot
    ensures a[..start] == old(a[..start]) && a[end + 1..] == old(a[end + 1..])
    ensures multiset(a[..][splitPoint := pivot]) == multiset(old(a[..]))
  {
    if smallToLarge {
      splitPoint := SplitArraySmallToLarge(a, pivot, start, end);
    } else {
      splitPoint := SplitArrayLargeToSmall(a, pivot, start, end);
    }
  }

  /**
   * Sorts `a[start..end]` (inclusive) in place, ascending when `smallToLarge`,
   * taking the leftmost element of each range as its pivot. A range with
   * `end <= start` is left alone.
   */
  method Quicksort(a: array<int>, start: int, end: int, smallToLarge: bool)
    requires 0 <= start <= end + 1 <= a.Length
    modifies a
    ensures SortedBy(a[start..end + 1], smallToLarge)
    ensures multiset(a[start..end + 1]) == multiset(old(a[start..end + 1]))
    ensures a[..start] == old(a[..start]) && a[end + 1..] == old(a[end + 1..])
    ensures end <= start ==> a[..] == old(a[..])
    decreases end - start
  {
    if end > start {
      var pivot := a[start];
      var splitPoint := Split(a, pivot, start, end, smallToLarge);
      ghost var split := a[..];
      a[splitPoint] := pivot;
      ghost var placed := a[..];
      Quicksort(a, start, splitPoint - 1, smallToLarge);
      ghost var leftDone := a[..];
      Quicksort(a, splitPoint + 1, end, smallToLarge);
      QuicksortSorted(split, leftDone, a[..], start, splitPoint, end, pivot, smallToLarge);
      assert placed[..start] == split[..start] && placed[end + 1..] == split[end + 1..];
      QuicksortPermutes(old(a[..]), placed, leftDone, a[..], start, splitPoint, end);
    }
  }

  /** Why partitioning and the two recursive calls of `Quicksort` leave its range sorted. */
  lemma QuicksortSorted(split: seq<int>, leftDone: seq<int>, s: seq<int>,
                        start: int, p: int, end: int, pivot: int, asc: bool)
    requires 0 <= start <= p <= end < |split| && |leftDone| == |s| == |split|
    requires SplitAround(split[start..p], pivot, split[p + 1..end + 1], asc)
    requires SortedBy(leftDone[start..p], asc)
    requires multiset(leftDone[start..p]) == multiset(split[start..p])
    requires leftDone[p..] == split[p := pivot][p..]
    requires SortedBy(s[p + 1..end + 1], asc)
    requires multiset(s[p + 1..end + 1]) == multiset(leftDone[p + 1..end + 1])
    requires s[..p + 1] == leftDone[..p + 1]
    ensures SortedBy(s[start..end + 1], asc)
  {
    var l, r := s[start..p], s[p + 1..end + 1];
    assert l == leftDone[start..p] by {
      assert s[..p + 1][start..p] == s[start..p];
      assert leftDone[..p + 1][start..p] == leftDone[start..p];
    }
    assert s[p] == pivot by {
      assert s[..p + 1][p] == s[p];
      assert leftDone[..p + 1][p] == leftDone[p];
      assert leftDone[p..][0] == leftDone[p];
    }
    assert leftDone[p + 1..end + 1] == split[p + 1..end + 1] by {
      assert leftDone[p..][1..end + 1 - p] == leftDone[p + 1..end + 1];
      assert split[p := pivot][p..][1..end + 1 - p] == split[p + 1..end + 1];
    }
    PermutationKeepsBounds(l, split[start..p], pivot);
    PermutationKeepsBounds(r, split[p + 1..end + 1], pivot);
    SortedAround(l, pivot, r, asc);
    assert s[start..end + 1] == l + [pivot] + r;
  }

  /** Why partitioning and the two recursive calls of `Quicksort` only permute its range. */
  lemma QuicksortPermutes(s0: seq<int>, placed: seq<int>, leftDone: seq<int>, s: seq<int>,
                          start: int, p: int, end: int)
    requires 0 <= start <= p <= end < |s0| && |placed| == |leftDone| == |s| == |s0|
    requires placed[..start] == s0[..start] && placed[end + 1..] == s0[end + 1..]
    requires multiset(placed) == multiset(s0)
    requires multiset(leftDone[start..p]) == multiset(placed[start..p])
    requires leftDone[..start] == placed[..start] && leftDone[p..] == placed[p..]
    requires multiset(s[p + 1..end + 1]) == multiset(leftDone[p + 1..end + 1])
    requires s[..p + 1] == leftDone[..p + 1] && s[end + 1..] == leftDone[end + 1..]
    ensures multiset(s[start..end + 1]) == multiset(s0[start..end + 1])
    ensures s[..start] == s0[..start] && s[end + 1..] == s0[end + 1..]
  {
    assert leftDone[end + 1..] == placed[end + 1..] by {
      assert leftDone[p..][end + 1 - p..] == leftDone[end + 1..];
      assert placed[p..][end + 1 - p..] == placed[end + 1..];
    }
    assert s[..start] == leftDone[..start] by {
      assert s[..p + 1][..start] == s[..start];
      assert leftDone[..p + 1][..start] == leftDone[..start];
    }
    SliceMultiset(placed, leftDone, start, p);
    SliceMultiset(leftDone, s, p + 1, end + 1);
    SliceMultiset(s0, s, start, end + 1);
  }
}
