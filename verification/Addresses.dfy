/** The address-list kernels of the two controllers: an in-place sort, the comparison
    built on it, and the in-place removal on a slice's backing array. A Go slice is an
    array together with the number of elements in use. */
module Addresses {
  import opened Text

  ghost predicate Sorted(s: seq<string>) {
    forall i, j :: 0 <= i < j < |s| ==> Leq(s[i], s[j])
  }

  function Insert(x: string, s: seq<string>): seq<string> {
    if s == [] || Leq(x, s[0]) then [x] + s else [s[0]] + Insert(x, s[1..])
  }

  /** The sorted permutation of a list. */
  function Sort(s: seq<string>): seq<string> {
    if s == [] then [] else Insert(s[0], Sort(s[1..]))
  }

  lemma {:induction false} InsertMeaning(x: string, s: seq<string>)
    requires Sorted(s)
    ensures Sorted(Insert(x, s)) && multiset(Insert(x, s)) == multiset(s) + multiset{x}
  {
    hide Leq;
    if s != [] && Leq(x, s[0]) {
      forall j | 0 < j < |s| ensures Leq(x, s[j]) { LeqTransitive(x, s[0], s[j]); }
    } else if s != [] {
      LeqTotal(x, s[0]);
      InsertMeaning(x, s[1..]);
      TailMultiset(s);
      ConsSorted(s[0], Insert(x, s[1..]), s[1..], x);
    }
  }

  lemma ConsSorted(least: string, r: seq<string>, tail: seq<string>, x: string)
    requires Sorted(r) && multiset(r) == multiset(tail) + multiset{x}
    requires Leq(least, x) && forall y <- tail :: Leq(least, y)
    ensures Sorted([least] + r)
  {
    hide Leq;
    forall y | y in r ensures Leq(least, y) {
      assert y in multiset(r);
    }
  }

  /** `Sort` is what its name says: a sorted list with the same elements. */
  lemma {:induction false} SortMeaning(s: seq<string>)
    ensures Sorted(Sort(s)) && multiset(Sort(s)) == multiset(s) && |Sort(s)| == |s|
  {
    if s != [] {
      hide Insert, Sorted;
      SortMeaning(s[1..]);
      InsertMeaning(s[0], Sort(s[1..]));
      assert s == [s[0]] + s[1..];
    }
    assert |multiset(Sort(s))| == |Sort(s)| && |multiset(s)| == |s|;
  }

  lemma HeadIsLeast(s: seq<string>, x: string)
    requires Sorted(s) && x in s
    ensures Leq(s[0], x)
  {
    LeqTotal(x, x);
  }

  lemma SameHead(a: seq<string>, b: seq<string>)
    requires Sorted(a) && Sorted(b) && multiset(a) == multiset(b) && a != [] && b != []
    ensures a[0] == b[0]
  {
    hide Leq, Sorted;
    assert a[0] in multiset(b);
    HeadIsLeast(b, a[0]);
    assert b[0] in multiset(a);
    HeadIsLeast(a, b[0]);
    LeqAntisymmetric(a[0], b[0]);
  }

  /** A multiset has only one sorted arrangement, so every correct sort stores the same list. */
  lemma {:induction false} SortedUnique(a: seq<string>, b: seq<string>)
    requires Sorted(a) && Sorted(b) && multiset(a) == multiset(b)
    ensures a == b
  {
    if a == [] {
      assert |multiset(b)| == 0;
    } else {
      assert a[0] in multiset(b) && b != [];
      SameHead(a, b);
      TailMultiset(a);
      TailMultiset(b);
      SortedUnique(a[1..], b[1..]);
      assert a == [a[0]] + a[1..] && b == [b[0]] + b[1..];
    }
  }

  lemma TailMultiset(s: seq<string>)
    requires s != []
    ensures multiset(s[1..]) == multiset(s) - multiset{s[0]}
  {
    assert s == [s[0]] + s[1..];
  }

  /** Two lists sort to the same list exactly when they are permutations of each other. */
  lemma SortOfPermutation(a: seq<string>, b: seq<string>)
    ensures Sort(a) == Sort(b) <==> multiset(a) == multiset(b)
  {
    hide Sort, Leq;
    SortMeaning(a);
    SortMeaning(b);
    if multiset(a) == multiset(b) {
      SortedUnique(Sort(a), Sort(b));
    }
  }

  lemma SortOfSorted(a: seq<string>)
    requires Sorted(a)
    ensures Sort(a) == a
  {
    SortMeaning(a);
    SortedUnique(Sort(a), a);
  }

  /** Sorts the first `n` elements of a backing array, as `slices.Sort` does. */
  method SortInPlace(a: array<string>, n: nat)
    requires n <= a.Length
    modifies a
    ensures a[..n] == Sort(old(a[..n]))
    ensures a[n..] == old(a[n..])
  {
    hide Leq, Sort;
    var i := 0;
    while i < n
      invariant 0 <= i <= n
      invariant Sorted(a[..][..i])
      invariant multiset(a[..][..n]) == multiset(old(a[..][..n])) && a[..][n..] == old(a[..][n..])
    {
      SinkLast(a, i, n);
      i := i + 1;
    }
    assert a[..][..n] == a[..n] && a[..][n..] == a[n..] && old(a[..][..n]) == old(a[..n]) &&
             old(a[..][n..]) == old(a[n..]);
    SortMeaning(old(a[..n]));
    SortedUnique(a[..n], Sort(old(a[..n])));
  }

  method SwapWithLeft(a: array<string>, j: nat)
    requires 0 < j < a.Length
    modifies a
    ensures a[..] == Swapped(old(a[..]), j)
  {
    a[j - 1], a[j] := a[j], a[j - 1];
  }

  function Swapped(s: seq<string>, j: nat): seq<string>
    requires 0 < j < |s|
  {
    s[j - 1 := s[j]][j := s[j - 1]]
  }

  /** A swap inside the first `m` elements is a swap of that prefix, and touches nothing else. */
  lemma SwapInPrefix(s: seq<string>, j: nat, m: nat)
    requires 0 < j < m <= |s|
    ensures Swapped(s, j)[..m] == Swapped(s[..m], j) && Swapped(s, j)[m..] == s[m..]
    ensures multiset(Swapped(s, j)[..m]) == multiset(s[..m])
  {
  }

  /** One round of the insertion sort: moves element `i` left until it fits. */
  method SinkLast(a: array<string>, i: nat, n: nat)
    requires i < n <= a.Length && Sorted(a[..][..i])
    modifies a
    ensures Sorted(a[..][..i + 1])
    ensures multiset(a[..][..n]) == multiset(old(a[..][..n])) && a[..][n..] == old(a[..][n..])
  {
    hide Leq, Sorted, Sinking;
    var j := i;
    SinkStart(a[..], i, n);
    while j > 0 && !Leq(a[j - 1], a[j])
      invariant 0 <= j <= i
      invariant Sinking(old(a[..]), a[..], i, n, j)
    {
      SinkStep(old(a[..]), a[..], i, n, j);
      SwapWithLeft(a, j);
      j := j - 1;
    }
    SinkDone(old(a[..]), a[..], i, n, j);
  }

  /** A round in progress: the first `i + 1` elements are sorted, except that the one at `j` may
      still be too far right; the first `n` are a permutation of what they were, the rest is untouched. */
  ghost predicate Sinking(before: seq<string>, s: seq<string>, i: nat, n: nat, j: nat) {
    && j <= i < n <= |s| == |before|
    && SortedExcept(s[..i + 1], j)
    && multiset(s[..n]) == multiset(before[..n]) && s[n..] == before[n..]
  }

  lemma SinkStart(s: seq<string>, i: nat, n: nat)
    requires i < n <= |s| && Sorted(s[..i])
    ensures Sinking(s, s, i, n, i)
  {
    hide Leq;
    assert s[..i + 1] == s[..i] + [s[i]];
  }

  lemma SinkStep(before: seq<string>, s: seq<string>, i: nat, n: nat, j: nat)
    requires j > 0 && Sinking(before, s, i, n, j) && !Leq(s[j - 1], s[j])
    ensures Sinking(before, Swapped(s, j), i, n, j - 1)
  {
    hide Leq, Swapped, SortedExcept;
    LeqTotal(s[j - 1], s[j]);
    SwapInPrefix(s, j, i + 1);
    SwapInPrefix(s, j, n);
    SwapSinks(s[..i + 1], j);
    assert |Swapped(s, j)| == |s| by { SwapLength(s, j); }
  }

  lemma SwapLength(s: seq<string>, j: nat)
    requires 0 < j < |s|
    ensures |Swapped(s, j)| == |s|
  {
  }

  /** Sorted, except that the element at `j` may still be too far right. */
  ghost predicate SortedExcept(s: seq<string>, j: nat) {
    forall p, q :: 0 <= p < q < |s| && q != j ==> Leq(s[p], s[q])
  }

  lemma SwapSinks(s: seq<string>, j: nat)
    requires 0 < j < |s| && SortedExcept(s, j) && Leq(s[j], s[j - 1])
    ensures SortedExcept(Swapped(s, j), j - 1)
  {
    hide Leq;
  }

  lemma SinkDone(before: seq<string>, s: seq<string>, i: nat, n: nat, j: nat)
    requires Sinking(before, s, i, n, j) && (j == 0 || Leq(s[j - 1], s[j]))
    ensures Sorted(s[..i + 1]) && multiset(s[..n]) == multiset(before[..n]) && s[n..] == before[n..]
  {
    hide Leq;
    var r := s[..i + 1];
    forall p | 0 <= p < j ensures Leq(r[p], r[j]) {
      if p < j - 1 {
        LeqTransitive(r[p], r[j - 1], r[j]);
      }
    }
  }

  /** Whether two address lists hold the same addresses with the same multiplicities;
      leaves both sorted, which is what the caller then stores. */
  method AddressArrayEqual(existing: array<string>, n: nat, discovered: array<string>, m: nat)
    returns (equal: bool)
    requires existing != discovered
    requires n <= existing.Length && m <= discovered.Length
    modifies existing, discovered
    ensures equal <==> multiset(old(existing[..n])) == multiset(old(discovered[..m]))
    ensures existing[..n] == Sort(old(existing[..n])) && existing[n..] == old(existing[n..])
    ensures discovered[..m] == Sort(old(discovered[..m])) && discovered[m..] == old(discovered[m..])
  {
    hide Leq, Sort;
    SortInPlace(existing, n);
    SortInPlace(discovered, m);
    SortOfPermutation(old(existing[..n]), old(discovered[..m]));
    if n != m {
      assert |existing[..n]| != |discovered[..m]|;
      return false;
    }
    var i := 0;
    while i < n
      invariant 0 <= i <= n
      invariant existing[..i] == discovered[..i]
    {
      if existing[i] != discovered[i] {
        assert existing[..n][i] != discovered[..m][i];
        return false;
      }
      i := i + 1;
    }
    return true;
  }

  /** The list without its first occurrence of `x`. */
  function RemoveFirst(s: seq<string>, x: string): seq<string> {
    if s == [] then []
    else if s[0] == x then s[1..]
    else [s[0]] + RemoveFirst(s[1..], x)
  }

  lemma {:induction false} RemoveFirstAt(s: seq<string>, x: string, i: nat)
    requires i < |s| && s[i] == x && x !in s[..i]
    ensures RemoveFirst(s, x) == s[..i] + s[i + 1..]
  {
    if i > 0 {
      assert s[0] == s[..i][0];
      assert s[1..][..i - 1] == s[..i][1..];
      RemoveFirstAt(s[1..], x, i - 1);
    }
  }

  lemma {:induction false} RemoveFirstAbsent(s: seq<string>, x: string)
    requires x !in s
    ensures RemoveFirst(s, x) == s
  {
    if s != [] {
      RemoveFirstAbsent(s[1..], x);
    }
  }

  /** Removal takes one copy of `x` and nothing else, and keeps the list sorted. */
  lemma {:induction false} RemoveFirstMeaning(s: seq<string>, x: string)
    ensures multiset(RemoveFirst(s, x)) == multiset(s) - multiset{x}
    ensures Sorted(s) ==> Sorted(RemoveFirst(s, x))
    ensures forall y :: y != x ==> (y in RemoveFirst(s, x) <==> y in s)
  {
    hide RemoveFirst, Leq;
    if x !in s {
      RemoveFirstAbsent(s, x);
    } else {
      var i := FirstIndex(s, x);
      RemoveFirstAt(s, x, i);
      CutOut(s, i);
      forall y | y != x ensures y in RemoveFirst(s, x) <==> y in s {
        assert y in multiset(RemoveFirst(s, x)) <==> y in multiset(s);
      }
    }
  }

  lemma CutOut(s: seq<string>, i: nat)
    requires i < |s|
    ensures multiset(s[..i] + s[i + 1..]) == multiset(s) - multiset{s[i]}
    ensures Sorted(s) ==> Sorted(s[..i] + s[i + 1..])
  {
    hide Leq;
    assert multiset(s[..i] + s[i + 1..]) == multiset(s) - multiset{s[i]} by {
      hide Sorted;
      assert s == s[..i] + [s[i]] + s[i + 1..];
    }
  }

  lemma FirstIndex(s: seq<string>, x: string) returns (i: nat)
    requires x in s
    ensures i < |s| && s[i] == x && x !in s[..i]
  {
    i := 0;
    while s[i] != x
      invariant i < |s| && x !in s[..i]
      decreases |s| - i
    {
      assert s[..i + 1] == s[..i] + [s[i]];
      assert x in s[i + 1..] by { assert s == s[..i + 1] + s[i + 1..]; }
      i := i + 1;
    }
  }

  /** Elements `i + 1` to `j - 1` moved one place to the left. */
  function Shifted(s: seq<string>, i: nat, j: nat): seq<string>
    requires i < j <= |s|
  {
    s[..i] + s[i + 1..j] + s[j - 1..]
  }

  lemma ShiftStart(s: seq<string>, i: nat)
    requires i < |s|
    ensures Shifted(s, i, i + 1) == s
  {
  }

  lemma ShiftStep(s: seq<string>, i: nat, j: nat)
    requires i < j < |s|
    ensures |Shifted(s, i, j)| == |s| && Shifted(s, i, j)[j] == s[j]
    ensures Shifted(s, i, j + 1) == Shifted(s, i, j)[j - 1 := s[j]]
  {
  }

  lemma ShiftDone(s: seq<string>, i: nat, n: nat, x: string)
    requires i < n <= |s| && s[i] == x && x !in s[..i]
    ensures |Shifted(s, i, n)| == |s| && x in s[..n]
    ensures Shifted(s, i, n)[..n - 1] == RemoveFirst(s[..n], x) && Shifted(s, i, n)[n - 1..] == s[n - 1..]
  {
    hide RemoveFirst;
    assert s[..n][i] == x && s[..n][..i] == s[..i];
    RemoveFirstAt(s[..n], x, i);
  }

  /** Removes the first match by shifting the tail left inside the backing array and
      returns the new length; the slots past it keep their old contents. */
  method RemoveElement(elements: array<string>, n: nat, element: string) returns (m: nat)
    requires n <= elements.Length
    modifies elements
    ensures m <= n && elements[..m] == RemoveFirst(old(elements[..n]), element)
    ensures m == if element in old(elements[..n]) then n - 1 else n
    ensures elements[m..] == old(elements[m..])
  {
    hide RemoveFirst, Shifted;
    ghost var before := elements[..];
    assert before[..n] == elements[..n];
    var i := 0;
    while i < n
      invariant 0 <= i <= n
      invariant element !in before[..i]
      invariant elements[..] == before
    {
      if elements[i] == element {
        var j := i + 1;
        ShiftStart(before, i);
        while j < n
          invariant i + 1 <= j <= n
          invariant elements[..] == Shifted(before, i, j)
        {
          ShiftStep(before, i, j);
          assert elements[j] == elements[..][j];
          elements[j - 1] := elements[j];
          j := j + 1;
        }
        ShiftDone(before, i, n, element);
        assert elements[..n - 1] == elements[..][..n - 1] && elements[n - 1..] == elements[..][n - 1..];
        return n - 1;
      }
      assert before[..i + 1] == before[..i] + [elements[i]];
      i := i + 1;
    }
    assert before[..n] == old(elements[..n]);
    RemoveFirstAbsent(before[..n], element);
    return n;
  }
}
