/** Sequence facts shared by the die, the game and the analyzer. */
module Seqs {

  import opened Outcomes

  /** A face label. */
  type Face = int

  /** No element occurs twice. */
  predicate Distinct(s: seq<Face>) {
    forall i, j :: 0 <= i < j < |s| ==> s[i] != s[j]
  }

  /** The set of elements of `s`: `set(s)`, or `np.unique(s)` read as a set. */
  function Elements(s: seq<Face>): (r: set<Face>)
    ensures forall x :: x in r <==> x in s
  {
    if s == [] then {} else {s[0]} + Elements(s[1..])
  }

  /** A non-empty sequence has no repeats iff its head is not in its tail and its tail has none. */
  lemma DistinctCons(s: seq<Face>)
    requires s != []
    ensures Distinct(s) <==> s[0] !in s[1..] && Distinct(s[1..])
  {
  }

  /** The number of distinct labels equals the length exactly when no label repeats. */
  lemma {:induction false} UniqueCountIffDistinct(s: seq<Face>)
    ensures |Elements(s)| <= |s|
    ensures |Elements(s)| == |s| <==> Distinct(s)
  {
    if s != [] {
      var t := s[1..];
      UniqueCountIffDistinct(t);
      DistinctCons(s);
      assert Elements(s) == {s[0]} + Elements(t);
      if s[0] in t {
        assert Elements(s) == Elements(t);
      } else {
        assert |Elements(s)| == |Elements(t)| + 1;
      }
    }
  }

  /** The first position of `x` in `s`, if any: the lookup behind `face in df.index` and `df.at[face, ...]`. */
  function IndexOf(s: seq<Face>, x: Face): (r: Option<nat>)
    ensures r.None? <==> x !in s
    ensures r.Some? ==> r.value < |s| && s[r.value] == x && x !in s[..r.value]
  {
    if s == [] then None
    else if s[0] == x then Some(0)
    else match IndexOf(s[1..], x)
      case None => None
      case Some(k) =>
        assert s[..k + 1] == [s[0]] + s[1..][..k];
        Some(k + 1)
  }

  /** In a sequence without repeats, the lookup of the element at `k` finds `k`. */
  lemma IndexOfDistinct(s: seq<Face>, k: nat)
    requires Distinct(s) && k < |s|
    ensures IndexOf(s, s[k]) == Some(k)
  {
  }

  /** Occurrences of `x` in `s`. */
  function Count<T(==)>(s: seq<T>, x: T): (r: nat)
    ensures r <= |s|
    ensures r == 0 <==> x !in s
  {
    if s == [] then 0 else (if s[0] == x then 1 else 0) + Count(s[1..], x)
  }

  /** Every element is `x` exactly when `x` occurs as often as the sequence is long. */
  lemma {:induction false} CountAll(s: seq<Face>, x: Face)
    ensures Count(s, x) == |s| <==> forall i :: 0 <= i < |s| ==> s[i] == x
  {
    if s != [] {
      CountAll(s[1..], x);
      assert forall i :: 1 <= i < |s| ==> s[i] == s[1..][i - 1];
    }
  }

  /** In a sequence without repeats, each of its elements occurs once. */
  lemma {:induction false} CountDistinct(s: seq<Face>, x: Face)
    requires Distinct(s) && x in s
    ensures Count(s, x) == 1
  {
    DistinctCons(s);
    if s[0] != x {
      CountDistinct(s[1..], x);
    }
  }

  /** Sum of a sequence of reals: `df['weight'].sum()`. */
  function Total(w: seq<real>): real {
    if w == [] then 0.0 else w[0] + Total(w[1..])
  }

  /** A non-zero total has a non-zero summand. */
  lemma {:induction false} NonzeroTotalHasNonzero(w: seq<real>)
    requires Total(w) != 0.0
    ensures exists i :: 0 <= i < |w| && w[i] != 0.0
  {
    if w[0] == 0.0 {
      NonzeroTotalHasNonzero(w[1..]);
      var i :| 0 <= i < |w[1..]| && w[1..][i] != 0.0;
      assert w[i + 1] != 0.0;
    }
  }

  /** Sum of a sequence of naturals. */
  function SumNat(s: seq<nat>): nat {
    if s == [] then 0 else s[0] + SumNat(s[1..])
  }
}
