/** Ascending sorts of face sequences: `sorted(row)` and `sorted(pd.unique(...))`. */
module Sorting {

  import opened Seqs

  predicate Sorted(s: seq<Face>) {
    forall i, j :: 0 <= i < j < |s| ==> s[i] <= s[j]
  }

  predicate StrictlySorted(s: seq<Face>) {
    forall i, j :: 0 <= i < j < |s| ==> s[i] < s[j]
  }

  lemma StrictlySortedIsDistinct(s: seq<Face>)
    requires StrictlySorted(s)
    ensures Distinct(s)
  {
  }

  /** A head no larger than any element of a sorted tail keeps the sequence sorted. */
  lemma SortedCons(h: Face, t: seq<Face>)
    requires Sorted(t)
    requires forall y :: y in t ==> h <= y
    ensures Sorted([h] + t)
  {
    forall i, j | 0 <= i < j < |[h] + t| ensures ([h] + t)[i] <= ([h] + t)[j] {
      assert ([h] + t)[j] == t[j - 1] && t[j - 1] in t;
      if i > 0 { assert ([h] + t)[i] == t[i - 1]; }
    }
  }

  /** Inserts `x` into a sorted sequence, keeping duplicates. */
  function Insert(x: Face, s: seq<Face>): (r: seq<Face>)
    requires Sorted(s)
    ensures Sorted(r)
    ensures multiset(r) == multiset(s) + multiset{x}
  {
    if s == [] then [x]
    else if x <= s[0] then
      SortedCons(x, s);
      [x] + s
    else
      var rest := Insert(x, s[1..]);
      assert s == [s[0]] + s[1..];
      assert forall y :: y in rest ==> s[0] <= y by {
        forall y | y in rest ensures s[0] <= y {
          assert y in multiset(rest);
        }
      }
      SortedCons(s[0], rest);
      [s[0]] + rest
  }

  /** `sorted(s)`: the ascending permutation of `s`. */
  function Sort(s: seq<Face>): (r: seq<Face>)
    ensures Sorted(r)
    ensures multiset(r) == multiset(s)
  {
    if s == [] then []
    else
      assert s == [s[0]] + s[1..];
      Insert(s[0], Sort(s[1..]))
  }

  lemma SortedHeadIsLeast(s: seq<Face>, y: Face)
    requires Sorted(s) && y in s
    ensures s[0] <= y
  {
  }

  lemma MultisetTail(s: seq<Face>)
    requires s != []
    ensures multiset(s[1..]) == multiset(s) - multiset{s[0]}
  {
    assert s == [s[0]] + s[1..];
    assert multiset(s) == multiset{s[0]} + multiset(s[1..]);
  }

  /** Two sorted sequences with the same elements, counted with multiplicity, are equal. */
  lemma {:induction false} SortedUnique(a: seq<Face>, b: seq<Face>)
    requires Sorted(a) && Sorted(b)
    requires multiset(a) == multiset(b)
    ensures a == b
  {
    if a == [] {
      assert |multiset(b)| == 0;
    } else {
      assert |multiset(b)| == |a|;
      assert a[0] in multiset(b) && b[0] in multiset(a);
      SortedHeadIsLeast(b, a[0]);
      SortedHeadIsLeast(a, b[0]);
      assert a[0] == b[0];
      MultisetTail(a);
      MultisetTail(b);
      SortedUnique(a[1..], b[1..]);
    }
  }

  /** Sorting identifies exactly the rearrangements of one another. */
  lemma SortEqualIffPermutation(a: seq<Face>, b: seq<Face>)
    ensures Sort(a) == Sort(b) <==> multiset(a) == multiset(b)
  {
    if multiset(a) == multiset(b) {
      SortedUnique(Sort(a), Sort(b));
    }
  }

  /** A head below every element of a strictly sorted tail keeps the sequence strictly sorted. */
  lemma StrictlySortedCons(h: Face, t: seq<Face>)
    requires StrictlySorted(t)
    requires forall y :: y in t ==> h < y
    ensures StrictlySorted([h] + t)
  {
    forall i, j | 0 <= i < j < |[h] + t| ensures ([h] + t)[i] < ([h] + t)[j] {
      assert ([h] + t)[j] == t[j - 1] && t[j - 1] in t;
      if i > 0 { assert ([h] + t)[i] == t[i - 1]; }
    }
  }

  /** Inserts `x` into a strictly sorted sequence unless it is already there. */
  function InsertNew(x: Face, s: seq<Face>): (r: seq<Face>)
    requires StrictlySorted(s)
    ensures StrictlySorted(r)
    ensures forall y :: y in r <==> y == x || y in s
  {
    if s == [] then [x]
    else if x < s[0] then
      StrictlySortedCons(x, s);
      [x] + s
    else if x == s[0] then s
    else
      var rest := InsertNew(x, s[1..]);
      assert s == [s[0]] + s[1..];
      StrictlySortedCons(s[0], rest);
      [s[0]] + rest
  }

  /** `sorted(pd.unique(s))`: the distinct elements of `s` in ascending order. */
  function SortedDistinct(s: seq<Face>): (r: seq<Face>)
    ensures StrictlySorted(r)
    ensures forall y :: y in r <==> y in s
  {
    if s == [] then [] else InsertNew(s[0], SortedDistinct(s[1..]))
  }
}
