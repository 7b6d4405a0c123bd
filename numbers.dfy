/**
 * Shared vocabulary of the number analyzer: the machine widths it computes
 * with, and the specification predicates and functions over number lists
 * that the sorter and the statistics are proved against.
 */
module Numbers {

  /** The length of the number list travels as an `unsigned short`. */
  const MAX_NUMBERS: int := 0xFFFF

  const INT32_MIN: int := -0x8000_0000
  const INT32_MAX: int := 0x7FFF_FFFF

  /** A C `long` (64-bit two's complement): assigning outside this range is an overflow. */
  type Long = x: int | -0x8000_0000_0000_0000 <= x <= 0x7FFF_FFFF_FFFF_FFFF

  /** A C `unsigned short`, the type of every count the analyzer reports. */
  type UShort = x: int | 0 <= x <= 0xFFFF

  /**
   * A list the statistics accept: non-empty, short enough for an `unsigned short`
   * length, and every value an `int` (the list is read with `atoi`).
   */
  predicate Analyzable(s: seq<int>) {
    1 <= |s| <= MAX_NUMBERS && forall i :: 0 <= i < |s| ==> INT32_MIN <= s[i] <= INT32_MAX
  }

  /** Nondecreasing when `asc`, nonincreasing otherwise. */
  predicate SortedBy(s: seq<int>, asc: bool) {
    forall i, j :: 0 <= i < j < |s| ==> if asc then s[i] <= s[j] else s[i] >= s[j]
  }

  predicate StrictlyIncreasing(s: seq<int>) {
    forall i, j :: 0 <= i < j < |s| ==> s[i] < s[j]
  }

  /** No value occurs twice. */
  predicate Distinct(s: seq<int>) {
    forall i, j :: 0 <= i < |s| && 0 <= j < |s| && i != j ==> s[i] != s[j]
  }

  predicate AllAtMost(s: seq<int>, v: int) {
    forall i :: 0 <= i < |s| ==> s[i] <= v
  }

  predicate AllAbove(s: seq<int>, v: int) {
    forall i :: 0 <= i < |s| ==> s[i] > v
  }

  /** The exact sum of a list, accumulated from the front as the loops do. */
  function Sum(s: seq<int>): int {
    if s == [] then 0 else Sum(s[..|s| - 1]) + s[|s| - 1]
  }

  /** A sum of `int` values stays within `|s|` times the `int` bounds. */
  lemma {:induction false} SumBounds(s: seq<int>)
    requires forall i :: 0 <= i < |s| ==> INT32_MIN <= s[i] <= INT32_MAX
    ensures |s| * INT32_MIN <= Sum(s) <= |s| * INT32_MAX
  {
    if s != [] {
      SumBounds(s[..|s| - 1]);
    }
  }

  /** A strictly increasing list has no repeated value. */
  lemma StrictlyIncreasingIsDistinct(s: seq<int>)
    requires StrictlyIncreasing(s)
    ensures Distinct(s)
  {
    forall i, j | 0 <= i < |s| && 0 <= j < |s| && i != j
      ensures s[i] != s[j]
    {
      if i < j { assert s[i] < s[j]; } else { assert s[j] < s[i]; }
    }
  }

  /** Reordering a list keeps every bound that held for all its elements. */
  lemma PermutationKeepsBounds(s: seq<int>, t: seq<int>, v: int)
    requires multiset(s) == multiset(t)
    ensures AllAtMost(t, v) ==> AllAtMost(s, v)
    ensures AllAbove(t, v) ==> AllAbove(s, v)
  {
    forall i | 0 <= i < |s|
      ensures exists j :: 0 <= j < |t| && t[j] == s[i]
    {
      assert s[i] in multiset(s);
      assert s[i] in t;
    }
  }

  /**
   * The shape a partition leaves behind: two sorted sides around the pivot,
   * with the values on each side on the correct side of it.
   */
  lemma SortedAround(l: seq<int>, x: int, r: seq<int>, asc: bool)
    requires SortedBy(l, asc) && SortedBy(r, asc)
    requires asc ==> AllAtMost(l, x) && AllAbove(r, x)
    requires !asc ==> AllAbove(l, x) && AllAtMost(r, x)
    ensures SortedBy(l + [x] + r, asc)
  {
    var s := l + [x] + r;
    forall i, j | 0 <= i < j < |s|
      ensures if asc then s[i] <= s[j] else s[i] >= s[j]
    {
      if j < |l| {
        assert s[i] == l[i] && s[j] == l[j];
      } else if i > |l| {
        assert s[i] == r[i - |l| - 1] && s[j] == r[j - |l| - 1];
      } else if i == |l| {
        assert s[j] == r[j - |l| - 1];
      } else if j == |l| {
        assert s[i] == l[i];
      } else {
        assert s[i] == l[i] && s[j] == r[j - |l| - 1];
      }
    }
  }

  /**
   * When two equally long lists agree outside `[lo, hi)`, they are
   * permutations of each other exactly when their `[lo, hi)` slices are.
   */
  lemma SliceMultiset(a: seq<int>, b: seq<int>, lo: int, hi: int)
    requires |a| == |b| && 0 <= lo <= hi <= |a|
    requires a[..lo] == b[..lo] && a[hi..] == b[hi..]
    ensures multiset(a) == multiset(b) <==> multiset(a[lo..hi]) == multiset(b[lo..hi])
  {
    assert a == a[..lo] + a[lo..hi] + a[hi..];
    assert b == b[..lo] + b[lo..hi] + b[hi..];
    var p, q := multiset(a[..lo]), multiset(a[hi..]);
    assert multiset(a) == p + multiset(a[lo..hi]) + q;
    assert multiset(b) == p + multiset(b[lo..hi]) + q;
    if multiset(a) == multiset(b) {
      forall z
        ensures multiset(a[lo..hi])[z] == multiset(b[lo..hi])[z]
      {
        assert multiset(a)[z] == p[z] + multiset(a[lo..hi])[z] + q[z];
        assert multiset(b)[z] == p[z] + multiset(b[lo..hi])[z] + q[z];
      }
      assert multiset(a[lo..hi]) == multiset(b[lo..hi]);
    }
  }

  /**
   * Taking the last value off one list and a cell holding the same value out
   * of a permutation of it leaves two permutations of each other.
   */
  lemma RemoveLastMatching(s: seq<int>, t: seq<int>, j: int)
    requires multiset(s) == multiset(t) && s != [] && 0 <= j < |t| && t[j] == s[|s| - 1]
    ensures multiset(s[..|s| - 1]) == multiset(t[..j] + t[j + 1..])
  {
    var init, x, rest := s[..|s| - 1], s[|s| - 1], t[..j] + t[j + 1..];
    assert s == init + [x];
    assert t == t[..j] + [x] + t[j + 1..];
    assert multiset(t) == multiset(rest) + multiset{x};
    assert multiset(s) == multiset(init) + multiset{x};
    assert multiset(init) == multiset(s) - multiset{x} == multiset(rest);
  }

  /** A value occurs in a list at most as often as the list is long. */
  lemma {:induction false} MultiplicityAtMostLength(s: seq<int>, x: int)
    ensures multiset(s)[x] <= |s|
  {
    if s != [] {
      assert s == s[..|s| - 1] + [s[|s| - 1]];
      MultiplicityAtMostLength(s[..|s| - 1], x);
    }
  }

  /** In a list without repetitions, each of its values occurs exactly once. */
  lemma {:induction false} DistinctMultiplicity(s: seq<int>, x: int)
    requires Distinct(s)
    ensures multiset(s)[x] == if x in s then 1 else 0
  {
    if s != [] {
      var init, last := s[..|s| - 1], s[|s| - 1];
      assert s == init + [last];
      assert Distinct(init);
      DistinctMultiplicity(init, x);
      assert last !in init;
    }
  }
}
