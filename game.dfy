/** The dice session (`Game` in montecarlo.py) and its two result layouts. */
module Games {

  import opened Outcomes
  import opened Seqs
  import opened Dice

  /** A wide results table: one row per roll, one column per die. */
  type Table = seq<seq<Face>>

  /** The faces of a die as a set: `set(die.current_state().index)`. */
  function FaceSet(d: Die): set<Face> {
    Elements(d.faces)
  }

  /** Every die has the same face set as the first one. */
  predicate SameFaces(dice: seq<Die>) {
    forall i :: 0 <= i < |dice| ==> FaceSet(dice[i]) == FaceSet(dice[0])
  }

  /** The loop of `Game.__init__` over the dice: none at all, or a differing face set, is an error. */
  method CheckDice(dice: seq<Die>) returns (e: Option<Error>)
    ensures e.None? <==> |dice| > 0 && SameFaces(dice)
    ensures |dice| == 0 ==> e == Some(NoDice)
    ensures |dice| > 0 && !SameFaces(dice) ==> e == Some(FaceMismatch)
  {
    if |dice| == 0 {
      return Some(NoDice);
    }
    var first := FaceSet(dice[0]);
    var i := 0;
    while i < |dice|
      invariant 0 <= i <= |dice|
      invariant forall j :: 0 <= j < i ==> FaceSet(dice[j]) == first
    {
      if FaceSet(dice[i]) != first {
        return Some(FaceMismatch);
      }
      i := i + 1;
    }
    return None;
  }

  /** Every row has `width` cells, each drawn from `faces`. */
  predicate Shaped(t: Table, width: nat, faces: set<Face>) {
    forall r :: 0 <= r < |t| ==> |t[r]| == width && forall i :: 0 <= i < width ==> t[r][i] in faces
  }

  /** Column `i` of a table: die `i`'s outcomes, roll by roll. */
  function Column(t: Table, i: nat): (c: seq<Face>)
    requires forall r :: 0 <= r < |t| ==> i < |t[r]|
    ensures |c| == |t|
    ensures forall r :: 0 <= r < |t| ==> c[r] == t[r][i]
  {
    seq(|t|, r requires 0 <= r < |t| && i < |t[r]| => t[r][i])
  }

  /** `pd.DataFrame(results)` for `results[i]` the rolls of die `i`: the columns laid side by side. */
  function Wide(columns: seq<seq<Face>>, n: nat): (t: Table)
    requires forall i :: 0 <= i < |columns| ==> |columns[i]| == n
    ensures |t| == n
    ensures forall r :: 0 <= r < n ==> |t[r]| == |columns|
    ensures forall r, i :: 0 <= r < n && 0 <= i < |columns| ==> t[r][i] == columns[i][r]
    ensures forall i :: 0 <= i < |columns| ==> Column(t, i) == columns[i]
  {
    var t := seq(n, r requires 0 <= r < n =>
               seq(|columns|, i requires 0 <= i < |columns| && r < |columns[i]| => columns[i][r]));
    assert forall i :: 0 <= i < |columns| ==> Column(t, i) == columns[i] by {
      forall i | 0 <= i < |columns| ensures Column(t, i) == columns[i] {
        assert |Column(t, i)| == |columns[i]|;
      }
    }
    t
  }

  /** One line of the narrow layout: the outcome of die `die` at roll `roll`. */
  datatype Entry = Entry(roll: nat, die: nat, outcome: Face)

  /** The entries of one row, rolls numbered from `roll`. */
  function RowEntries(row: seq<Face>, roll: nat): (es: seq<Entry>)
    ensures |es| == |row|
    ensures forall i :: 0 <= i < |row| ==> es[i] == Entry(roll, i, row[i])
  {
    seq(|row|, i requires 0 <= i < |row| => Entry(roll, i, row[i]))
  }

  /** The stacked table with the first row numbered `from`. */
  function StackFrom(t: Table, from: nat): seq<Entry> {
    if t == [] then [] else RowEntries(t[0], from) + StackFrom(t[1..], from + 1)
  }


  /** A table whose rows all have `width` cells stacks to rows times `width` entries. */
  lemma {:induction false} StackLength(t: Table, from: nat, width: nat)
    requires forall r :: 0 <= r < |t| ==> |t[r]| == width
    ensures |StackFrom(t, from)| == |t| * width
  {
    if t != [] {
      StackLength(t[1..], from + 1, width);
      assert |t| * width == width + (|t| - 1) * width;
    }
  }

  /** An entry is in the stacked table exactly when it names an existing cell and carries its value. */
  lemma {:induction false} StackMembership(t: Table, from: nat, e: Entry)
    ensures e in StackFrom(t, from) <==>
      from <= e.roll < from + |t| && e.die < |t[e.roll - from]| && e.outcome == t[e.roll - from][e.die]
  {
    if t != [] {
      StackMembership(t[1..], from + 1, e);
      var head := RowEntries(t[0], from);
      assert e in head <==> e.roll == from && e.die < |t[0]| && e.outcome == t[0][e.die] by {
        if e.roll == from && e.die < |t[0]| && e.outcome == t[0][e.die] {
          assert head[e.die] == e;
        }
      }
      if from < e.roll < from + |t| {
        assert t[1..][e.roll - (from + 1)] == t[e.roll - from];
      }
    }
  }

  /** Keys in the stacked table strictly increase: each (roll, die) pair occurs at most once. */
  predicate KeysIncrease(es: seq<Entry>) {
    forall a, b :: 0 <= a < b < |es| ==>
      es[a].roll < es[b].roll || (es[a].roll == es[b].roll && es[a].die < es[b].die)
  }

  lemma {:induction false} StackKeysIncrease(t: Table, from: nat)
    ensures KeysIncrease(StackFrom(t, from))
    ensures forall e :: e in StackFrom(t, from) ==> from <= e.roll
  {
    if t != [] {
      StackKeysIncrease(t[1..], from + 1);
      var head, tail := RowEntries(t[0], from), StackFrom(t[1..], from + 1);
      var es := head + tail;
      forall a, b | 0 <= a < b < |es|
        ensures es[a].roll < es[b].roll || (es[a].roll == es[b].roll && es[a].die < es[b].die)
      {
        if b >= |head| {
          assert es[b] == tail[b - |head|] && es[b] in tail;
          if a >= |head| { assert es[a] == tail[a - |head|]; }
        }
      }
      forall e | e in es ensures from <= e.roll {
        if e in tail {} else { var i :| 0 <= i < |head| && head[i] == e; }
      }
    }
  }

  /**
   * `.stack()`: the table reshaped to one entry per (roll, die), row after row.
   * An entry is present exactly when it names a cell and carries that cell's value.
   */
  function Stack(t: Table): (es: seq<Entry>)
    ensures KeysIncrease(es)
    ensures forall e :: e in es <==> e.roll < |t| && e.die < |t[e.roll]| && e.outcome == t[e.roll][e.die]
  {
    StackKeysIncrease(t, 0);
    assert forall e :: e in StackFrom(t, 0) <==> e.roll < |t| && e.die < |t[e.roll]| && e.outcome == t[e.roll][e.die] by {
      forall e ensures e in StackFrom(t, 0) <==> e.roll < |t| && e.die < |t[e.roll]| && e.outcome == t[e.roll][e.die] {
        StackMembership(t, 0, e);
      }
    }
    StackFrom(t, 0)
  }

  /** What `show_results` returns for a played game. */
  datatype View = WideView(table: Table) | NarrowView(entries: seq<Entry>)

  /** A game: a fixed list of dice sharing one face set, and the table of its latest play. */
  class Game {
    const dice: seq<Die>
    var playResults: Option<Table>

    ghost predicate Valid()
      reads this, dice
    {
      |dice| > 0 && SameFaces(dice) &&
      (forall i :: 0 <= i < |dice| ==> dice[i].Valid()) &&
      (playResults.Some? ==> Shaped(playResults.value, |dice|, FaceSet(dice[0])))
    }

    /** Stores dice already checked; no results yet. */
    constructor (dice: seq<Die>)
      requires |dice| > 0 && SameFaces(dice)
      requires forall i :: 0 <= i < |dice| ==> dice[i].Valid()
      ensures Valid()
      ensures this.dice == dice && playResults == None
    {
      this.dice := dice;
      playResults := None;
    }

    /** `Game(dice)`: at least one die, all with the same face set; a fresh game shows no results. */
    static method Create(dice: seq<Die>) returns (r: Result<Game, Error>)
      requires forall i :: 0 <= i < |dice| ==> dice[i].Valid()
      ensures r.Ok? <==> |dice| > 0 && SameFaces(dice)
      ensures |dice| == 0 ==> r == Err(NoDice)
      ensures |dice| > 0 && !SameFaces(dice) ==> r == Err(FaceMismatch)
      ensures r.Ok? ==> fresh(r.value) && r.value.Valid() && r.value.dice == dice
      ensures r.Ok? ==> r.value.playResults == None && r.value.ShowResults("wide") == Ok(None)
    {
      var e := CheckDice(dice);
      if e.Some? {
        return Err(e.value);
      }
      var g := new Game(dice);
      return Ok(g);
    }

    /** Every die can be rolled: none of them has an invalid weight vector. */
    predicate AllSamplable()
      reads this, dice
      requires Valid()
    {
      forall i :: 0 <= i < |dice| ==> dice[i].Samplable()
    }

    /** `t` is a possible outcome of `play(n)`: `n` rows, and cell (r, i) a face die `i` can show. */
    predicate IsPlay(t: Table, n: nat)
      reads this, dice
      requires Valid()
    {
      |t| == n &&
      forall r :: 0 <= r < n ==>
        |t[r]| == |dice| && forall i :: 0 <= i < |dice| ==> dice[i].CanShow(t[r][i])
    }

    /**
     * `play(n)`: rolls every die `n` times, in die order, and replaces the stored
     * table with the columns laid side by side. A die that cannot be rolled
     * raises before anything is stored.
     */
    method Play(n: nat) returns (e: Option<Error>)
      requires Valid()
      modifies this`playResults
      ensures Valid()
      ensures e.None? <==> AllSamplable()
      ensures e.Some? ==> e == Some(InvalidProbabilities) && playResults == old(playResults)
      ensures e.None? ==> playResults.Some? && IsPlay(playResults.value, n)
    {
      var columns: seq<seq<Face>> := [];
      var i := 0;
      while i < |dice|
        invariant 0 <= i <= |dice| && |columns| == i
        invariant playResults == old(playResults)
        invariant forall j :: 0 <= j < i ==> dice[j].Samplable()
        invariant forall j :: 0 <= j < i ==> |columns[j]| == n
        invariant forall j, r :: 0 <= j < i && 0 <= r < n ==> dice[j].CanShow(columns[j][r])
      {
        var rolls := dice[i].Roll(n);
        if rolls.Err? {
          return Some(rolls.error);
        }
        columns := columns + [rolls.value];
        i := i + 1;
      }
      var t := Wide(columns, n);
      PlayTable(columns, n);
      playResults := Some(t);
      e := None;
    }

    /** The columns of a successful play, laid side by side, form a well-shaped possible play. */
    lemma PlayTable(columns: seq<seq<Face>>, n: nat)
      requires Valid() && |columns| == |dice|
      requires forall j :: 0 <= j < |dice| ==> |columns[j]| == n
      requires forall j, r :: 0 <= j < |dice| && 0 <= r < n ==> dice[j].CanShow(columns[j][r])
      ensures Shaped(Wide(columns, n), |dice|, FaceSet(dice[0]))
      ensures IsPlay(Wide(columns, n), n)
    {
    }

    /**
     * `show_results(form)`, wide by default: nothing before the first play,
     * whatever the form; afterwards the wide table for "wide", the stacked
     * entries for "narrow", and an error for any other form.
     */
    function ShowResults(form: string := "wide"): (r: Result<Option<View>, Error>)
      reads this
      ensures playResults.None? ==> r == Ok(None)
      ensures playResults.Some? && form == "wide" ==> r == Ok(Some(WideView(playResults.value)))
      ensures playResults.Some? && form == "narrow" ==> r == Ok(Some(NarrowView(Stack(playResults.value))))
      ensures playResults.Some? && form != "wide" && form != "narrow" ==> r == Err(InvalidForm)
    {
      match playResults
      case None => Ok(None)
      case Some(t) =>
        if form == "wide" then Ok(Some(WideView(t)))
        else if form == "narrow" then Ok(Some(NarrowView(Stack(t))))
        else Err(InvalidForm)
    }
  }

  /**
   * After a play, the narrow view of a game holds one entry per (roll, die) pair,
   * row after row, and each entry carries the matching wide cell.
   */
  lemma NarrowMatchesWide(g: Game)
    requires g.Valid() && g.playResults.Some?
    ensures var t := g.playResults.value;
            var es := g.ShowResults("narrow").value.value.entries;
            |es| == |t| * |g.dice| && KeysIncrease(es) &&
            forall e :: e in es <==> e.roll < |t| && e.die < |g.dice| && e.outcome == t[e.roll][e.die]
  {
    StackLength(g.playResults.value, 0, |g.dice|);
  }
}
