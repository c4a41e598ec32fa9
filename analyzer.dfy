/** Summaries of one game's results (`Analyzer` in montecarlo.py). */
module Analysis {

  import opened Outcomes
  import opened Seqs
  import opened Sorting
  import opened Games

  /** An analyzer holds its own copy of the wide table, taken when it is built. */
  datatype Analyzer = Analyzer(results: Table)

  /** `Analyzer(game)`: the game's wide results at this moment, or an error if it was never played. */
  function NewAnalyzer(g: Game): (r: Result<Analyzer, Error>)
    reads g
    ensures r.Err? <==> g.playResults.None?
    ensures r.Err? ==> r.error == NoResults
    ensures r.Ok? ==> r.value.results == g.playResults.value
  {
    var shown := g.ShowResults("wide");
    if shown.Ok? && shown.value.Some? && shown.value.value.WideView?
    then Ok(Analyzer(shown.value.value.table))
    else Err(NoResults)
  }

  // ---------------------------------------------------------------- jackpot

  /** A roll is a jackpot when it shows exactly one distinct value (`nunique(axis=1) == 1`). */
  predicate IsJackpot(row: seq<Face>)
    ensures IsJackpot(row) ==> |row| > 0
    ensures |row| == 1 ==> IsJackpot(row)
  {
    assert |row| == 1 ==> Elements(row) == {row[0]};
    |Elements(row)| == 1
  }

  /** One distinct value means: at least one die, and every die shows the first die's face. */
  lemma JackpotIffAllEqual(row: seq<Face>)
    ensures IsJackpot(row) <==> |row| > 0 && forall i :: 0 <= i < |row| ==> row[i] == row[0]
  {
    if |row| > 0 && forall i :: 0 <= i < |row| ==> row[i] == row[0] {
      assert Elements(row) == {row[0]};
    }
    if IsJackpot(row) {
      var x :| x in Elements(row);
      forall y | y in Elements(row) ensures y == x {
        var others := Elements(row) - {x};
        assert |others| == 0;
      }
      forall i | 0 <= i < |row| ensures row[i] == row[0] {
        assert row[i] in Elements(row) && row[0] in Elements(row);
      }
    }
  }

  /** `jackpot()`: the number of jackpot rolls. */
  function Jackpot(t: Table): (n: nat)
    ensures n <= |t|
    ensures n == |t| <==> forall r :: 0 <= r < |t| ==> IsJackpot(t[r])
    ensures n == 0 <==> forall r :: 0 <= r < |t| ==> !IsJackpot(t[r])
  {
    if t == [] then 0
    else
      assert forall r :: 1 <= r < |t| ==> t[r] == t[1..][r - 1];
      (if IsJackpot(t[0]) then 1 else 0) + Jackpot(t[1..])
  }

  /** Whether each roll is a jackpot, in roll order (`nunique(axis=1) == 1`). */
  function Flags(t: Table): (fs: seq<bool>)
    ensures |fs| == |t|
    ensures forall r :: 0 <= r < |t| ==> fs[r] == IsJackpot(t[r])
  {
    if t == [] then []
    else
      assert forall r :: 1 <= r < |t| ==> t[r] == t[1..][r - 1];
      [IsJackpot(t[0])] + Flags(t[1..])
  }

  /** The jackpot count is the number of rolls flagged as jackpots (`.sum()` of the flags). */
  lemma {:induction false} JackpotCountsRows(t: Table)
    ensures Jackpot(t) == Count(Flags(t), true)
  {
    if t != [] {
      JackpotCountsRows(t[1..]);
      assert Flags(t)[1..] == Flags(t[1..]);
    }
  }

  // ---------------------------------------------------------- face counts

  /** All cells of the table, row after row (`values.ravel()`). */
  function Cells(t: Table): (c: seq<Face>)
    ensures forall x :: x in c <==> exists r :: 0 <= r < |t| && x in t[r]
  {
    if t == [] then []
    else
      var rest := Cells(t[1..]);
      assert forall x :: x in rest <==> exists r :: 1 <= r < |t| && x in t[r] by {
        forall x ensures x in rest <==> exists r :: 1 <= r < |t| && x in t[r] {
          if x in rest {
            var r :| 0 <= r < |t[1..]| && x in t[1..][r];
            assert x in t[r + 1];
          }
          if exists r :: 1 <= r < |t| && x in t[r] {
            var r :| 1 <= r < |t| && x in t[r];
            assert x in t[1..][r - 1];
          }
        }
      }
      t[0] + rest
  }

  /** How many dice in `row` show each face of `faces`, in that order (`row.value_counts()` reindexed). */
  function CountRow(row: seq<Face>, faces: seq<Face>): (cs: seq<nat>)
    ensures |cs| == |faces|
    ensures forall c :: 0 <= c < |faces| ==> cs[c] == Count(row, faces[c])
  {
    if faces == [] then [] else [Count(row, faces[0])] + CountRow(row, faces[1..])
  }

  /** The `face_counts_per_roll()` table: its sorted face columns and one row of counts per roll. */
  datatype FaceCounts = FaceCounts(faces: seq<Face>, counts: seq<seq<nat>>)

  /** `face_counts_per_roll()`. */
  function FaceCountsPerRoll(t: Table): (fc: FaceCounts)
    ensures StrictlySorted(fc.faces)
    ensures forall x :: x in fc.faces <==> exists r :: 0 <= r < |t| && x in t[r]
    ensures |fc.counts| == |t|
    ensures forall r :: 0 <= r < |t| ==> |fc.counts[r]| == |fc.faces|
    ensures forall r, c :: 0 <= r < |t| && 0 <= c < |fc.faces| ==>
              fc.counts[r][c] == Count(t[r], fc.faces[c]) &&
              (fc.counts[r][c] == 0 <==> fc.faces[c] !in t[r])
  {
    var faces := SortedDistinct(Cells(t));
    FaceCounts(faces, seq(|t|, r requires 0 <= r < |t| => CountRow(t[r], faces)))
  }

  lemma {:induction false} CountRowOfEmpty(faces: seq<Face>)
    ensures SumNat(CountRow([], faces)) == 0
  {
    if faces != [] {
      CountRowOfEmpty(faces[1..]);
    }
  }

  /** Adding one die showing `x` adds, summed over the faces, the number of times `x` is among them. */
  lemma {:induction false} CountRowCons(x: Face, rest: seq<Face>, faces: seq<Face>)
    ensures SumNat(CountRow([x] + rest, faces)) == Count(faces, x) + SumNat(CountRow(rest, faces))
  {
    if faces != [] {
      CountRowCons(x, rest, faces[1..]);
      assert ([x] + rest)[1..] == rest;
    }
  }

  /** Counting a row against distinct faces that cover it accounts for every die once. */
  lemma {:induction false} CountRowSum(row: seq<Face>, faces: seq<Face>)
    requires Distinct(faces)
    requires forall x :: x in row ==> x in faces
    ensures SumNat(CountRow(row, faces)) == |row|
  {
    if row == [] {
      CountRowOfEmpty(faces);
    } else {
      assert row == [row[0]] + row[1..];
      CountRowCons(row[0], row[1..], faces);
      CountDistinct(faces, row[0]);
      CountRowSum(row[1..], faces);
    }
  }

  /** Every row of `face_counts_per_roll()` sums to the number of dice in that roll. */
  lemma FaceCountsRowSum(t: Table, r: nat)
    requires r < |t|
    ensures SumNat(FaceCountsPerRoll(t).counts[r]) == |t[r]|
  {
    var fc := FaceCountsPerRoll(t);
    StrictlySortedIsDistinct(fc.faces);
    CountRowSum(t[r], fc.faces);
  }

  /** A roll is a jackpot exactly when one face column of its count row holds every die. */
  lemma JackpotInFaceCounts(t: Table, r: nat)
    requires r < |t|
    ensures var fc := FaceCountsPerRoll(t);
            IsJackpot(t[r]) <==>
              |t[r]| > 0 && exists c :: 0 <= c < |fc.faces| && fc.counts[r][c] == |t[r]|
  {
    var fc := FaceCountsPerRoll(t);
    var row := t[r];
    JackpotIffAllEqual(row);
    if IsJackpot(row) {
      assert row[0] in fc.faces;
      var c :| 0 <= c < |fc.faces| && fc.faces[c] == row[0];
      CountAll(row, row[0]);
      assert fc.counts[r][c] == |row|;
    }
    if |row| > 0 && exists c :: 0 <= c < |fc.faces| && fc.counts[r][c] == |row| {
      var c :| 0 <= c < |fc.faces| && fc.counts[r][c] == |row|;
      CountAll(row, fc.faces[c]);
    }
  }

  // -------------------------------------------------- combination counts

  /** One row of a `value_counts()` result: a distinct key and how many rolls produced it. */
  datatype KeyCount = KeyCount(key: seq<Face>, count: nat)

  function Keys(c: seq<KeyCount>): (ks: set<seq<Face>>)
    ensures forall k :: k in ks <==> exists j :: 0 <= j < |c| && c[j].key == k
  {
    if c == [] then {}
    else
      var rest := Keys(c[1..]);
      assert forall j :: 1 <= j < |c| ==> c[j] == c[1..][j - 1];
      {c[0].key} + rest
  }

  predicate DistinctKeys(c: seq<KeyCount>) {
    forall a, b :: 0 <= a < b < |c| ==> c[a].key != c[b].key
  }

  /** The count recorded for key `k`, 0 when absent. */
  function CountOf(c: seq<KeyCount>, k: seq<Face>): nat {
    if c == [] then 0 else (if c[0].key == k then c[0].count else 0) + CountOf(c[1..], k)
  }

  /** The sum of all counts. */
  function TotalCount(c: seq<KeyCount>): nat {
    if c == [] then 0 else c[0].count + TotalCount(c[1..])
  }

  lemma DistinctKeysTail(c: seq<KeyCount>)
    requires c != [] && DistinctKeys(c)
    ensures DistinctKeys(c[1..]) && c[0].key !in Keys(c[1..])
  {
  }

  lemma DistinctKeysCons(e: KeyCount, c: seq<KeyCount>)
    requires DistinctKeys(c) && e.key !in Keys(c)
    ensures DistinctKeys([e] + c)
  {
  }

  /** Records one more occurrence of `k`. */
  function Bump(c: seq<KeyCount>, k: seq<Face>): (r: seq<KeyCount>)
    ensures Keys(r) == Keys(c) + {k}
    ensures forall k' :: CountOf(r, k') == CountOf(c, k') + (if k' == k then 1 else 0)
    ensures TotalCount(r) == TotalCount(c) + 1
  {
    if c == [] then [KeyCount(k, 1)]
    else if c[0].key == k then
      var r := [KeyCount(k, c[0].count + 1)] + c[1..];
      assert r[1..] == c[1..];
      r
    else
      var r := [c[0]] + Bump(c[1..], k);
      assert r[1..] == Bump(c[1..], k);
      r
  }

  /** Bumping a tally keeps its keys distinct. */
  lemma {:induction false} BumpDistinct(c: seq<KeyCount>, k: seq<Face>)
    requires DistinctKeys(c)
    ensures DistinctKeys(Bump(c, k))
  {
    if c == [] {
    } else if c[0].key == k {
      var r := Bump(c, k);
      assert forall j :: 0 <= j < |r| ==> r[j].key == c[j].key;
    } else {
      DistinctKeysTail(c);
      BumpDistinct(c[1..], k);
      assert Bump(c, k) == [c[0]] + Bump(c[1..], k);
      DistinctKeysCons(c[0], Bump(c[1..], k));
    }
  }

  /** In a tally with distinct keys, each entry's count is the count recorded for its key. */
  lemma {:induction false} CountOfEntries(c: seq<KeyCount>)
    requires DistinctKeys(c)
    ensures forall j :: 0 <= j < |c| ==> CountOf(c, c[j].key) == c[j].count
  {
    if c != [] {
      DistinctKeysTail(c);
      CountOfEntries(c[1..]);
      CountOfAbsent(c[1..], c[0].key);
      forall j | 1 <= j < |c| ensures CountOf(c, c[j].key) == c[j].count {
        assert c[j] == c[1..][j - 1];
      }
    }
  }

  lemma {:induction false} CountOfAbsent(c: seq<KeyCount>, k: seq<Face>)
    requires k !in Keys(c)
    ensures CountOf(c, k) == 0
  {
    if c != [] {
      assert Keys(c) == {c[0].key} + Keys(c[1..]);
      CountOfAbsent(c[1..], k);
    }
  }

  /**
   * `value_counts()` over a sequence of keys: distinct keys, exactly the given
   * ones, each recorded with its number of occurrences.
   */
  function Tally(keys: seq<seq<Face>>): (c: seq<KeyCount>)
    ensures DistinctKeys(c)
    ensures forall k :: k in Keys(c) <==> k in keys
    ensures forall k :: CountOf(c, k) == Count(keys, k)
    ensures TotalCount(c) == |keys|
  {
    if keys == [] then []
    else
      var rest := Tally(keys[1..]);
      BumpDistinct(rest, keys[0]);
      assert forall k :: k in keys <==> k == keys[0] || k in keys[1..];
      Bump(rest, keys[0])
  }

  /** Each entry of a tally counts the occurrences of its key, which is one of the keys, and so is positive. */
  lemma TallyEntries(keys: seq<seq<Face>>)
    ensures forall j :: 0 <= j < |Tally(keys)| ==>
      Tally(keys)[j].key in keys &&
      Tally(keys)[j].count == Count(keys, Tally(keys)[j].key) && Tally(keys)[j].count > 0
  {
    var c := Tally(keys);
    CountOfEntries(c);
    forall j | 0 <= j < |c| ensures c[j].key in keys {
      assert c[j].key in Keys(c);
    }
  }

  /** The combination key of every roll: its outcomes sorted (`tuple(sorted(row))`). */
  function ComboKeys(t: Table): (ks: seq<seq<Face>>)
    ensures |ks| == |t|
    ensures forall r :: 0 <= r < |t| ==> ks[r] == Sort(t[r])
    ensures forall r :: 0 <= r < |t| ==> Sorted(ks[r]) && multiset(ks[r]) == multiset(t[r])
  {
    seq(|t|, r requires 0 <= r < |t| => Sort(t[r]))
  }

  /** Every combination key is the sorted outcome of some roll. */
  lemma ComboKeysFromRolls(t: Table)
    ensures forall k :: k in ComboKeys(t) ==> Sorted(k) && exists r :: 0 <= r < |t| && Sort(t[r]) == k
  {
  }

  /** Two rolls share a combination key exactly when one is a rearrangement of the other. */
  lemma ComboKeyShared(t: Table, a: nat, b: nat)
    requires a < |t| && b < |t|
    ensures ComboKeys(t)[a] == ComboKeys(t)[b] <==> multiset(t[a]) == multiset(t[b])
  {
    SortEqualIffPermutation(t[a], t[b]);
  }

  /** `combo_count()`: rolls counted by their sorted outcomes. */
  function ComboCount(t: Table): (c: seq<KeyCount>)
    ensures DistinctKeys(c)
    ensures forall j :: 0 <= j < |c| ==> Sorted(c[j].key) && c[j].count > 0
    ensures forall j :: 0 <= j < |c| ==> c[j].count == Count(ComboKeys(t), c[j].key)
    ensures forall r :: 0 <= r < |t| ==> Sort(t[r]) in Keys(c)
    ensures forall k :: k in Keys(c) ==> exists r :: 0 <= r < |t| && Sort(t[r]) == k
    ensures TotalCount(c) == |t|
  {
    var ks := ComboKeys(t);
    TallyEntries(ks);
    ComboKeysFromRolls(t);
    var c := Tally(ks);
    assert forall r :: 0 <= r < |t| ==> ks[r] in ks;
    c
  }

  /** `permutation_count()`: rolls counted by their outcomes in die order (`tuple(row)`). */
  function PermutationCount(t: Table): (c: seq<KeyCount>)
    ensures DistinctKeys(c)
    ensures forall j :: 0 <= j < |c| ==> c[j].count > 0
    ensures forall j :: 0 <= j < |c| ==> c[j].count == Count(t, c[j].key)
    ensures forall r :: 0 <= r < |t| ==> t[r] in Keys(c)
    ensures forall k :: k in Keys(c) ==> k in t
    ensures TotalCount(c) == |t|
  {
    TallyEntries(t);
    Tally(t)
  }
}
