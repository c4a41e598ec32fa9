/** The weighted die (`Die` in montecarlo.py). */
module Dice {

  import opened Outcomes
  import opened Seqs

  /**
   * A die: an index of distinct face labels, fixed at construction, and one
   * weight per face, in the same order (the private `_df` table).
   */
  class Die {
    const faces: seq<Face>
    var weights: seq<real>

    ghost predicate Valid()
      reads this
    {
      Distinct(faces) && |weights| == |faces|
    }

    /** Builds the die once its faces are known to be distinct; every weight starts at 1. */
    constructor (faces: seq<Face>)
      requires Distinct(faces)
      ensures Valid()
      ensures this.faces == faces
      ensures forall i :: 0 <= i < |faces| ==> weights[i] == 1.0
    {
      this.faces := faces;
      weights := seq(|faces|, _ => 1.0);
    }

    /** `Die(faces)`: rejects a face sequence with a repeated label, else a die whose weights are all 1. */
    static method Create(faces: seq<Face>) returns (r: Result<Die, Error>)
      ensures r.Err? <==> !Distinct(faces)
      ensures r.Err? ==> r.error == DuplicateFaces
      ensures r.Ok? ==> fresh(r.value) && r.value.Valid() && r.value.faces == faces
      ensures r.Ok? ==> var st := r.value.CurrentState();
                        |st| == |faces| && forall i :: 0 <= i < |st| ==> st[i] == (faces[i], 1.0)
    {
      UniqueCountIffDistinct(faces);
      if |Elements(faces)| != |faces| {
        return Err(DuplicateFaces);
      }
      var d := new Die(faces);
      return Ok(d);
    }

    /** `current_state()`: the face/weight table in face order. */
    function CurrentState(): (st: seq<(Face, real)>)
      reads this
      requires Valid()
      ensures |st| == |faces|
      ensures forall i :: 0 <= i < |st| ==> st[i].0 == faces[i] && st[i].1 == WeightOf(faces[i])
    {
      var w := weights;
      seq(|faces|, i requires 0 <= i < |faces| == |w| =>
        IndexOfDistinct(faces, i);
        (faces[i], w[i]))
    }

    /** The weight currently recorded for face `f` (`df.at[f, 'weight']`): the one at the face's position. */
    function WeightOf(f: Face): (w: real)
      reads this
      requires Valid() && f in faces
      ensures forall i :: 0 <= i < |faces| && faces[i] == f ==> w == weights[i]
    {
      assert forall i :: 0 <= i < |faces| && faces[i] == f ==> IndexOf(faces, f) == Some(i) by {
        forall i | 0 <= i < |faces| && faces[i] == f ensures IndexOf(faces, f) == Some(i) {
          IndexOfDistinct(faces, i);
        }
      }
      weights[IndexOf(faces, f).value]
    }

    /**
     * `change_weight_one_side(face, new_weight)`. `newWeight` is the outcome of
     * `float(new_weight)`: `None` when the conversion fails. The face check comes first.
     */
    method ChangeWeight(face: Face, newWeight: Option<real>) returns (e: Option<Error>)
      requires Valid()
      modifies this`weights
      ensures Valid()
      ensures face !in faces ==> e == Some(InvalidFace)
      ensures face in faces && newWeight.None? ==> e == Some(NonNumericWeight)
      ensures face in faces && newWeight.Some? ==> e.None?
      ensures e.Some? ==> weights == old(weights)
      ensures e.None? ==> WeightOf(face) == newWeight.value
      ensures e.None? ==> forall g :: g in faces && g != face ==> WeightOf(g) == old(WeightOf(g))
    {
      var k := IndexOf(faces, face);
      if k.None? {
        return Some(InvalidFace);
      }
      if newWeight.None? {
        return Some(NonNumericWeight);
      }
      weights := weights[k.value := newWeight.value];
      return None;
    }

    /**
     * The normalised weights `weight / sum` form a probability vector: the sum is
     * non-zero and no weight has the opposite sign to it. Otherwise the sampler
     * rejects them (an empty die or a zero sum gives no distribution, a weight of
     * the wrong sign a negative probability). A samplable die has a face to draw.
     */
    predicate Samplable()
      reads this
      requires Valid()
      ensures Samplable() ==> exists i :: 0 <= i < |faces| && weights[i] != 0.0
    {
      var s := Total(weights);
      assert s != 0.0 ==> exists i :: 0 <= i < |weights| && weights[i] != 0.0 by {
        if s != 0.0 { NonzeroTotalHasNonzero(weights); }
      }
      (s > 0.0 && forall i :: 0 <= i < |weights| ==> weights[i] >= 0.0) ||
      (s < 0.0 && forall i :: 0 <= i < |weights| ==> weights[i] <= 0.0)
    }

    /** The sign test is numpy's check on the normalised weights: a non-zero sum and no negative ratio `weight / sum`. */
    lemma SamplableIffProbabilities()
      requires Valid()
      ensures Samplable() <==>
        Total(weights) != 0.0 && forall i :: 0 <= i < |weights| ==> weights[i] / Total(weights) >= 0.0
    {
    }

    /** A face that a roll can produce: one of the die's faces with a non-zero weight. */
    predicate CanShow(f: Face)
      reads this
      requires Valid()
    {
      f in faces && WeightOf(f) != 0.0
    }

    /**
     * `roll_die(n)`: `n` draws with replacement, one by default. Which face each
     * draw gives is left open; each is a face of positive probability.
     */
    method Roll(n: nat := 1) returns (r: Result<seq<Face>, Error>)
      requires Valid()
      ensures r.Err? <==> !Samplable()
      ensures r.Err? ==> r.error == InvalidProbabilities
      ensures r.Ok? ==> |r.value| == n
      ensures r.Ok? ==> forall j :: 0 <= j < |r.value| ==> CanShow(r.value[j])
    {
      if !Samplable() {
        return Err(InvalidProbabilities);
      }
      var outcomes: seq<Face> := [];
      while |outcomes| < n
        invariant |outcomes| <= n
        invariant forall j :: 0 <= j < |outcomes| ==> CanShow(outcomes[j])
      {
        var k :| 0 <= k < |weights| && weights[k] != 0.0;
        IndexOfDistinct(faces, k);
        outcomes := outcomes + [faces[k]];
      }
      return Ok(outcomes);
    }
  }
}
