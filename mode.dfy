/**
 * The modes of the number list: the values that occur most often, reported
 * only when some value occurs more than once.
 */
module Mode {
  import opened Numbers
  import opened Frequency

  /** The largest entry of `c`, found as the scan does it: starting from 0, keeping any larger entry. */
  function MaxOf(c: seq<int>): int {
    if c == [] then 0
    else
      var m := MaxOf(c[..|c| - 1]);
      if c[|c| - 1] > m then c[|c| - 1] else m
  }

  /** `MaxOf` bounds every entry and is 0 or one of the entries. */
  lemma {:induction false} MaxOfIsMaximum(c: seq<int>)
    ensures MaxOf(c) >= 0
    ensures forall i :: 0 <= i < |c| ==> c[i] <= MaxOf(c)
    ensures MaxOf(c) == 0 || exists i :: 0 <= i < |c| && c[i] == MaxOf(c)
  {
    if c != [] {
      var init := c[..|c| - 1];
      MaxOfIsMaximum(init);
      assert forall i :: 0 <= i < |init| ==> init[i] == c[i];
      if MaxOf(c) != 0 && MaxOf(c) != c[|c| - 1] {
        var i :| 0 <= i < |init| && init[i] == MaxOf(init);
        assert c[i] == MaxOf(c);
      }
    }
  }

  /** Two lists with the same entries, in any order and number, have the same `MaxOf`. */
  lemma MaxOfSameEntries(a: seq<int>, b: seq<int>)
    requires forall i :: 0 <= i < |a| ==> a[i] in b
    requires forall j :: 0 <= j < |b| ==> b[j] in a
    ensures MaxOf(a) == MaxOf(b)
  {
    MaxOfIsMaximum(a);
    MaxOfIsMaximum(b);
    if MaxOf(a) != 0 {
      var i :| 0 <= i < |a| && a[i] == MaxOf(a);
      var j :| 0 <= j < |b| && b[j] == a[i];
    }
    if MaxOf(b) != 0 {
      var j :| 0 <= j < |b| && b[j] == MaxOf(b);
      var i :| 0 <= i < |a| && a[i] == b[j];
    }
  }

  /** How often the most frequent value of `s` occurs. */
  function MaxMultiplicity(s: seq<int>): int {
    MaxOf(Multiplicities(multiset(s), s))
  }

  /**
   * No value occurs more often than `MaxMultiplicity`, and in a non-empty
   * list some value occurs exactly that often.
   */
  lemma MaxMultiplicityIsMaximum(s: seq<int>)
    ensures forall x :: multiset(s)[x] <= MaxMultiplicity(s)
    ensures s != [] ==> exists i :: 0 <= i < |s| && multiset(s)[s[i]] == MaxMultiplicity(s)
  {
    var c := Multiplicities(multiset(s), s);
    MaxOfIsMaximum(c);
    forall x
      ensures multiset(s)[x] <= MaxMultiplicity(s)
    {
      if x in s {
        var i :| 0 <= i < |s| && s[i] == x;
        assert c[i] == multiset(s)[x];
      }
    }
    if s != [] {
      assert c[0] == multiset(s)[s[0]] >= 1;
    }
  }

  /** Reordering the list does not change how often its most frequent value occurs. */
  lemma MaxMultiplicityPermutation(s: seq<int>, t: seq<int>)
    requires multiset(s) == multiset(t)
    ensures MaxMultiplicity(s) == MaxMultiplicity(t)
  {
    assert forall x :: x in t <==> x in s by {
      forall x
        ensures x in t <==> x in s
      {
        assert x in t <==> x in multiset(t);
        assert x in s <==> x in multiset(s);
      }
    }
    MaxOverValues(s, t);
  }

  /**
   * Taking the multiplicities of the values of any list `d` that holds the
   * same values as `s` gives the same maximum.
   */
  lemma MaxOverValues(s: seq<int>, d: seq<int>)
    requires forall x :: x in d <==> x in s
    ensures MaxOf(Multiplicities(multiset(s), d)) == MaxMultiplicity(s)
  {
    var a, b := Multiplicities(multiset(s), d), Multiplicities(multiset(s), s);
    forall i | 0 <= i < |a|
      ensures a[i] in b
    {
      var x := d[i];
      assert x in d;
      var j :| 0 <= j < |s| && s[j] == x;
      assert b[j] == a[i];
    }
    forall j | 0 <= j < |b|
      ensures b[j] in a
    {
      var x := s[j];
      assert x in s;
      var i :| 0 <= i < |d| && d[i] == x;
      assert a[i] == b[j];
    }
    MaxOfSameEntries(a, b);
  }

  /** A value at two different positions occurs at least twice. */
  lemma RepeatedMultiplicity(s: seq<int>, i: int, j: int)
    requires 0 <= i < j < |s| && s[i] == s[j]
    ensures multiset(s)[s[i]] >= 2
  {
    assert s == s[..j] + s[j..];
    assert s[i] in s[..j] && s[j] in s[j..];
    assert multiset(s) == multiset(s[..j]) + multiset(s[j..]);
  }

  /** A non-empty list has no repeated value exactly when its most frequent value occurs once. */
  lemma {:induction false} NoModeIffDistinct(s: seq<int>)
    requires s != []
    ensures MaxMultiplicity(s) == 1 <==> Distinct(s)
  {
    MaxMultiplicityIsMaximum(s);
    var k :| 0 <= k < |s| && multiset(s)[s[k]] == MaxMultiplicity(s);
    if Distinct(s) {
      DistinctMultiplicity(s, s[k]);
    } else {
      var i, j :| 0 <= i < |s| && 0 <= j < |s| && i != j && s[i] == s[j];
      if i < j { RepeatedMultiplicity(s, i, j); } else { RepeatedMultiplicity(s, j, i); }
      assert multiset(s)[s[i]] <= MaxMultiplicity(s);
    }
  }

  /** The values of `d` whose count in `c` is `most`, in the order of `d`. */
  function ModesAmong(d: seq<int>, c: seq<int>, most: int): seq<int>
    requires |d| == |c|
  {
    if d == [] then []
    else ModesAmong(d[..|d| - 1], c[..|c| - 1], most) + if c[|c| - 1] == most then [d[|d| - 1]] else []
  }

  /**
   * Given the multiplicities of an increasing list of values, `ModesAmong`
   * picks, in increasing order, exactly the values with multiplicity `most`.
   */
  lemma {:induction false} ModesAmongPicks(d: seq<int>, m: multiset<int>, most: int)
    requires StrictlyIncreasing(d)
    ensures |ModesAmong(d, Multiplicities(m, d), most)| <= |d|
    ensures StrictlyIncreasing(ModesAmong(d, Multiplicities(m, d), most))
    ensures forall x :: x in ModesAmong(d, Multiplicities(m, d), most) <==> x in d && m[x] == most
  {
    if d != [] {
      var init, last := d[..|d| - 1], d[|d| - 1];
      assert Multiplicities(m, d)[..|d| - 1] == Multiplicities(m, init);
      ModesAmongPicks(init, m, most);
      var before := ModesAmong(init, Multiplicities(m, init), most);
      assert d == init + [last];
      forall k | 0 <= k < |before|
        ensures before[k] < last
      {
        var x := before[k];
        assert x in before;
        var j :| 0 <= j < |init| && init[j] == x;
        assert d[j] == x;
      }
      if m[last] == most {
        var after := before + [last];
        assert forall k :: 0 <= k < |before| ==> after[k] == before[k];
      }
    }
  }

  /**
   * The first loop of `getMode`: the largest of the first `numUnique`
   * counts, starting from 0.
   */
  method MostOccurrences(numOccurances: array<Long>, numUnique: UShort) returns (mostOccurances: UShort)
    requires numUnique <= numOccurances.Length
    requires forall i :: 0 <= i < numUnique ==> 0 <= numOccurances[i] <= 0xFFFF
    ensures mostOccurances == MaxOf(numOccurances[..numUnique])
  {
    mostOccurances := 0;
    for i := 0 to numUnique
      invariant mostOccurances == MaxOf(numOccurances[..i])
    {
      assert numOccurances[..i + 1][..i] == numOccurances[..i];
      if numOccurances[i] > mostOccurances {
        mostOccurances := numOccurances[i];
      }
    }
  }

  /**
   * The second loop of `getMode`: copies to the front of `modes`, in order,
   * every distinct value whose count is `mostOccurances`, and that count to
   * the front of `occurances`; the other entries stay as they were.
   */
  method CollectModes(noDuplicates: array<int>, numOccurances: array<Long>, numUnique: UShort, mostOccurances: UShort,
                      modes: array<int>, occurances: array<UShort>, ghost distinct: seq<int>, ghost counts: seq<int>)
    returns (numModes: UShort)
    requires numUnique <= noDuplicates.Length && numUnique <= numOccurances.Length
    requires distinct == noDuplicates[..numUnique] && counts == numOccurances[..numUnique]
    requires numUnique <= modes.Length && numUnique <= occurances.Length
    requires modes != noDuplicates
    modifies modes, occurances
    ensures numModes <= numUnique
    ensures modes[..numModes] == ModesAmong(distinct, counts, mostOccurances)
    ensures forall k :: 0 <= k < numModes ==> occurances[k] == mostOccurances
    ensures modes[numModes..] == old(modes[numModes..]) && occurances[numModes..] == old(occurances[numModes..])
  {
    ghost var modes0, occurances0 := modes[..], occurances[..];
    ghost var chosen: seq<int> := [];
    numModes := 0;
    for i := 0 to numUnique
      invariant chosen == ModesAmong(distinct[..i], counts[..i], mostOccurances)
      invariant numModes == |chosen| <= i
      invariant forall k :: 0 <= k < modes.Length ==> modes[k] == if k < numModes then chosen[k] else modes0[k]
      invariant forall k :: 0 <= k < occurances.Length ==>
                  occurances[k] == if k < numModes then mostOccurances else occurances0[k]
    {
      ModesAmongStep(distinct, counts, mostOccurances, i);
      assert noDuplicates[i] == distinct[i] && numOccurances[i] == counts[i];
      if numOccurances[i] == mostOccurances {
        modes[numModes] := noDuplicates[i];
        occurances[numModes] := mostOccurances;
        chosen := chosen + [distinct[i]];
        numModes := numModes + 1;
      }
    }
    assert distinct[..numUnique] == distinct && counts[..numUnique] == counts;
    assert modes[..numModes] == chosen;
    assert modes[numModes..] == modes0[numModes..];
    assert occurances[numModes..] == occurances0[numModes..];
  }

  /** Looking at one more distinct value picks it exactly when its count is `most`. */
  lemma ModesAmongStep(d: seq<int>, c: seq<int>, most: int, i: int)
    requires |d| == |c| && 0 <= i < |d|
    ensures ModesAmong(d[..i + 1], c[..i + 1], most)
            == ModesAmong(d[..i], c[..i], most) + if c[i] == most then [d[i]] else []
  {
    assert d[..i + 1][..i] == d[..i] && c[..i + 1][..i] == c[..i];
  }

  /**
   * `getMode`: counts each distinct value (sorting the caller's list), finds
   * the largest count, and reports no mode when it is 1; otherwise lists, in
   * increasing order, every value with that count, together with the count.
   */
  method GetMode(numbers: array<int>, modes: array<int>, occurances: array<UShort>) returns (numModes: UShort)
    requires 1 <= numbers.Length <= MAX_NUMBERS
    requires modes.Length >= numbers.Length && occurances.Length >= numbers.Length && modes != numbers
    modifies numbers, modes, occurances
    ensures SortedBy(numbers[..], true) && multiset(numbers[..]) == multiset(old(numbers[..]))
    ensures numModes <= numbers.Length
    ensures numModes == 0 <==> Distinct(old(numbers[..]))
    ensures StrictlyIncreasing(modes[..numModes])
    ensures numModes > 0 ==>
              forall x :: x in modes[..numModes] <==> multiset(old(numbers[..]))[x] == MaxMultiplicity(old(numbers[..]))
    ensures forall k :: 0 <= k < numModes ==> occurances[k] == MaxMultiplicity(old(numbers[..]))
    ensures modes[numModes..] == old(modes[numModes..]) && occurances[numModes..] == old(occurances[numModes..])
  {
    var n := numbers.Length;
    var noDuplicates := new int[n];
    var numOccurances := new Long[n];
    var numUnique := GetCount(numbers, noDuplicates, numOccurances);
    ghost var sorted, distinct, counts := numbers[..], noDuplicates[..numUnique], numOccurances[..numUnique];
    ModeFacts(old(numbers[..]), sorted, distinct, counts);

    var mostOccurances := MostOccurrences(numOccurances, numUnique);
    numModes := 0;
    if mostOccurances == 1 {
      numModes := 0;
      return;
    }
    numModes := CollectModes(noDuplicates, numOccurances, numUnique, mostOccurances, modes, occurances, distinct, counts);
    ModesFound(sorted, distinct, counts, mostOccurances);
  }

  /**
   * What `getCount`'s results say about the modes: the counts are bounded
   * by an `unsigned short`, their maximum is the input's largest
   * multiplicity, and it is 1 exactly when the input has no repeated value.
   */
  lemma ModeFacts(s0: seq<int>, sorted: seq<int>, distinct: seq<int>, counts: seq<int>)
    requires sorted != [] && |sorted| <= MAX_NUMBERS && multiset(sorted) == multiset(s0)
    requires forall x :: x in distinct <==> x in sorted
    requires counts == Multiplicities(multiset(sorted), distinct)
    requires forall i :: 0 <= i < |counts| ==> 1 <= counts[i] <= |sorted|
    ensures forall i :: 0 <= i < |counts| ==> 0 <= counts[i] <= 0xFFFF
    ensures MaxOf(counts) == MaxMultiplicity(s0)
    ensures MaxOf(counts) == 1 <==> Distinct(s0)
  {
    MaxOverValues(sorted, distinct);
    MaxMultiplicityPermutation(sorted, s0);
    assert |s0| == |multiset(s0)| == |sorted|;
    NoModeIffDistinct(s0);
  }

  /**
   * Once every distinct value has been looked at, the collected values are
   * the most frequent ones, in increasing order, and there is at least one
   * when the largest count is not 1.
   */
  lemma ModesFound(sorted: seq<int>, distinct: seq<int>, counts: seq<int>, most: int)
    requires sorted != [] && StrictlyIncreasing(distinct) && forall x :: x in distinct <==> x in sorted
    requires counts == Multiplicities(multiset(sorted), distinct)
    requires forall i :: 0 <= i < |counts| ==> 1 <= counts[i]
    requires most == MaxOf(counts) && most != 1
    ensures StrictlyIncreasing(ModesAmong(distinct, counts, most))
    ensures |ModesAmong(distinct, counts, most)| > 0
    ensures forall x :: x in ModesAmong(distinct, counts, most) <==> multiset(sorted)[x] == most
  {
    ModesAmongPicks(distinct, multiset(sorted), most);
    var chosen := ModesAmong(distinct, counts, most);
    MaxOfIsMaximum(counts);
    var first := sorted[0];
    assert first in sorted;
    var i :| 0 <= i < |distinct| && distinct[i] == first;
    assert 1 <= counts[i] <= most;
    forall x | multiset(sorted)[x] == most
      ensures x in chosen
    {
      assert x in multiset(sorted);
      assert x in sorted;
    }
    var k :| 0 <= k < |counts| && counts[k] == most;
    var top := distinct[k];
    assert top in distinct;
    assert top in chosen;
  }
}
