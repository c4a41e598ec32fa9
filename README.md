# Monte Carlo dice, modelled in Dafny

A model of `montecarlo.py`, a small library of three layers:

- a **Die** holds distinct face labels, each with a weight (all 1 at first), lets one
  face's weight be replaced, and rolls faces at random in proportion to the weights;
- a **Game** holds a list of dice sharing one face set, plays them `n` times into a
  rolls × dice table (each play replaces the previous table), and shows that table
  either wide or stacked into (roll, die) entries;
- an **Analyzer** copies a played game's wide table and derives the jackpot count, the
  face counts per roll, and the counts of unordered combinations and of ordered
  permutations of each roll.

Modules, one per layer plus shared helpers:

- `Outcomes` (outcomes.dfy): `Option`, `Result` and one `Error` constructor per exception
  the library raises.
- `Seqs` (seqs.dfy): distinctness, element sets, first-index lookup, occurrence counts, sums.
- `Sorting` (sorting.dfy): ascending sort with duplicates (`sorted(row)`) and the sorted
  distinct elements (`sorted(pd.unique(...))`).
- `Dice` (die.dfy): class `Die`. The face index is a `const` field, so it cannot change after
  construction; the weights are a `seq<real>` field updated in place.
- `Games` (game.dfy): class `Game` (a `const` list of `Die` references and the field holding
  the latest table), the wide table, and the narrow (stacked) form.
- `Analysis` (analyzer.dfy): the `Analyzer` snapshot and the four summaries, as functions
  over the table.

Construction that can fail is a static `Create` method returning a `Result`; the
constructor it calls requires what `Create` has just checked. A face is an `int`. A weight
is a `real`. The result of `float(new_weight)` is an `Option<real>`, which is `None` when
the conversion fails. The die's random draw is a nondeterministic choice among its faces
with non-zero weight. The game holds its dice by reference, so changing a die's weight
between plays affects the next play, as in the source.

Edge cases, as the code behaves:

- Roll numbers start at 0, because pandas' default index starts at 0.
- An analyzer can be built from a game played with 0 rolls, because the code only rejects a
  game that was never played.
- `Game([])` fails, when `dice[0]` raises `IndexError`.
- `show_results` returns nothing before the first play, even for an unknown form, because
  the "no results" check comes first.
- Rolling a die whose normalised weights are not a probability vector is an error. That
  covers an empty die, a weight sum of zero (every ratio is then NaN or infinite, and they
  do not sum to 1) and a weight of the opposite sign to the sum (a negative probability).
  numpy's sampler raises `ValueError` in all three cases.
- `roll_die` rolls once when no count is given, and `show_results` shows the wide table when
  no form is given; the model's `Roll` and `ShowResults` carry the same defaults.

## Model

| member | source | states |
|---|---|---|
| `Seqs.UniqueCountIffDistinct` | montecarlo.py:20-21 | the number of unique labels equals the number of faces exactly when no label repeats, and it never exceeds the number of faces |
| `Dice.Die.constructor` | montecarlo.py:23-26 | a die built from distinct faces keeps them in order, with weight 1 for every face |
| `Dice.Die.Create` | montecarlo.py:8-26 | a face sequence with a repeated label is rejected with `DuplicateFaces`; otherwise the new die's state has one entry per face, in order, each with weight 1 |
| `Seqs.Elements` | montecarlo.py:92-94 | the set of a face sequence holds exactly the values that occur in it (`set(...)`, and `np.unique` read as a set) |
| `Seqs.IndexOf` | montecarlo.py:35-45 | the lookup of a face finds nothing exactly when the face is not in the index; otherwise it gives a position holding that face, with no earlier occurrence |
| `Dice.Die.WeightOf` | montecarlo.py:45 | the weight recorded for a face is the weight at that face's position in the index |
| `Dice.Die.CurrentState` | montecarlo.py:62-66 | the state lists every face in order, each with its current weight |
| `Dice.Die.ChangeWeight` | montecarlo.py:28-45 | an unknown face fails with `InvalidFace` (checked first), an unparsable weight with `NonNumericWeight`, and neither changes the weights; on success the face's weight is the new value, every other face keeps its weight, and the face index is a constant that never changes |
| `Dice.Die.Samplable` | montecarlo.py:54-59 | a non-zero weight sum and no weight of the opposite sign to it; a die that passes has a face of non-zero weight to draw |
| `Dice.Die.SamplableIffProbabilities` | montecarlo.py:54-59 | that sign test holds exactly when the sum is non-zero and every normalised weight `weight / sum` is non-negative, the check numpy's sampler makes |
| `Dice.Die.Roll` | montecarlo.py:47-60 | fails exactly when the normalised weights are not a distribution; otherwise returns exactly `n` faces (1 by default), each a face of the die with non-zero weight |
| `Games.CheckDice` | montecarlo.py:91-95 | succeeds exactly when there is at least one die and every die's face set equals the first die's (set equality, order ignored); no dice gives `NoDice`, a differing set `FaceMismatch` |
| `Games.Game.constructor` | montecarlo.py:97-98 | the game stores exactly the given dice and has no results |
| `Games.Game.Create` | montecarlo.py:79-98 | a game is built exactly when `CheckDice` accepts the dice; it keeps them and shows no results in any form until played |
| `Games.Wide` | montecarlo.py:113 | laying `k` columns of `n` rolls side by side gives `n` rows of `k` cells, with cell (r, i) equal to roll r of column i, and column i equal to the i-th input |
| `Games.Game.PlayTable` | montecarlo.py:110-113 | the columns of a successful play form a table whose cells all lie in the shared face set and are faces each die can show |
| `Games.Game.Play` | montecarlo.py:100-114 | fails exactly when some die cannot be rolled, and then keeps the old table; otherwise replaces the table with one of `n` rows, one column per die, where cell (r, i) is a face die i can show |
| `Games.Stack` | montecarlo.py:130 | an entry is in the stacked table exactly when its (roll, die) names a cell of the table and its outcome is that cell's value; entries run in increasing (roll, die) order |
| `Games.Game.ShowResults` | montecarlo.py:116-132 | the form is "wide" by default; nothing before any play, whatever the form; after a play, the wide table for "wide", the stacked entries for "narrow", and `InvalidForm` for any other form |
| `Games.StackLength` | montecarlo.py:130 | stacking a table whose rows have `k` cells gives rows × `k` entries |
| `Games.StackMembership` | montecarlo.py:130 | an entry is in the stacked table exactly when its (roll, die) names a cell of the table and its outcome is that cell's value |
| `Games.StackKeysIncrease` | montecarlo.py:130 | stacked entries are ordered by (roll, die), so no (roll, die) key occurs twice |
| `Games.NarrowMatchesWide` | montecarlo.py:127-130 | after a play, the narrow view has rows × dice entries, with distinct increasing (roll, die) keys, each equal to the matching wide cell |
| `Analysis.NewAnalyzer` | montecarlo.py:148-152 | fails with `NoResults` exactly when the game was never played; otherwise the analyzer holds the game's wide table |
| `Analysis.IsJackpot` | montecarlo.py:159 | a jackpot roll has at least one die, and a roll of a single die is always a jackpot |
| `Analysis.JackpotIffAllEqual` | montecarlo.py:159 | a roll has exactly one distinct value exactly when it has at least one die and every die shows the same face |
| `Analysis.Jackpot` | montecarlo.py:154-159 | the jackpot count is between 0 and the number of rolls; it equals the number of rolls exactly when every roll is a jackpot, and is 0 exactly when none is |
| `Analysis.Flags` | montecarlo.py:159 | one flag per roll, in roll order, true exactly when that roll is a jackpot (`nunique(axis=1) == 1`) |
| `Analysis.JackpotCountsRows` | montecarlo.py:159 | the jackpot count is exactly the number of rolls flagged as jackpots (the sum of the per-roll flags) |
| `Analysis.JackpotInFaceCounts` | montecarlo.py:159-168 | a roll is a jackpot exactly when it has at least one die and one column of its face-count row equals the number of dice |
| `Analysis.Cells` | montecarlo.py:166 | a value is among the flattened cells exactly when some roll shows it |
| `Sorting.SortedDistinct` | montecarlo.py:166-168 | the result is strictly ascending and holds exactly the values of its input |
| `Analysis.FaceCountsPerRoll` | montecarlo.py:161-168 | the columns are the distinct faces seen anywhere, strictly ascending; one count row per roll and one count per column; each count is how many dice in that roll show that face, and it is 0 exactly when the face is absent from the roll |
| `Analysis.CountRow` | montecarlo.py:167-168 | one count per listed face, in the listed order, each the number of dice in the roll showing that face (0 for a face the roll does not show) |
| `Analysis.CountRowSum` | montecarlo.py:167-168 | counting a roll against distinct faces that include all of its values accounts for every die exactly once |
| `Analysis.FaceCountsRowSum` | montecarlo.py:166-168 | every row of the face-count table sums to the number of dice in that roll |
| `Sorting.Sort` | montecarlo.py:175 | `sorted(row)` is ascending and a permutation of the row |
| `Sorting.SortedUnique` | montecarlo.py:175 | two ascending sequences with the same multiset of values are equal |
| `Sorting.SortEqualIffPermutation` | montecarlo.py:175 | two rows sort to the same tuple exactly when one is a rearrangement of the other |
| `Analysis.ComboKeys` | montecarlo.py:175 | one key per roll, in roll order: the roll's outcomes sorted, ascending and a rearrangement of the roll |
| `Analysis.ComboKeyShared` | montecarlo.py:175 | two rolls share a combination key exactly when their outcomes are rearrangements of each other |
| `Analysis.Tally` | montecarlo.py:176-185 | `value_counts()` has distinct keys, exactly the keys that occur, each with its number of occurrences; the counts sum to the number of keys counted |
| `Analysis.TallyEntries` | montecarlo.py:176-185 | every entry of `value_counts()` has one of the counted keys and records that key's number of occurrences, which is positive |
| `Analysis.ComboCount` | montecarlo.py:170-177 | keys are distinct sorted tuples and every roll's sorted outcome is one of them; each count is positive and is the number of rolls with that sorted outcome; the counts sum to the number of rolls |
| `Analysis.PermutationCount` | montecarlo.py:179-186 | keys are distinct outcome tuples in die order and every roll is one of them; each count is positive and is the number of rolls with exactly that tuple; the counts sum to the number of rolls |

## Left out

- Dice.Die.Roll: states only which faces a draw can give (the faces of non-zero weight). It does not state how likely each face is (`weight / sum`), because that is floating-point probability drawn by numpy's random generator. Weights are exact reals, so float rounding and overflow are not modelled: weights such as `[1e308, 1e308]` overflow the sum to infinity, numpy then rejects the probabilities, and the model's `Roll` succeeds. numpy's tolerance on the sum of the probabilities is also not modelled: exact reals always sum to 1.
- Randomness: each draw is an unspecified choice, so nothing about the frequencies of outcomes is modelled.
- Face labels are integers. The library also accepts text labels, and they sort lexicographically in the analyzer's face columns and combination keys; the model does not cover them.
- Parsing: `float(new_weight)` is an `Option<real>` input. String-to-float conversion and non-finite values (`inf`, `nan`) are not modelled.
- The `isinstance` checks on the faces, the dice and the game (`TypeError`/`ValueError` for a wrong argument type). Dafny's static types rule these inputs out.
- A negative roll count. The count is a `nat`; numpy would raise for a negative size.
- `__repr__`, which only builds a debug string.
- pandas representation details: DataFrame copies (the model's tables are immutable values, so a returned table cannot alias the game's), the "Roll Number" index name, the MultiIndex of the narrow form and the "Count"/"Outcome" column names, `astype(int)`, and the order in which `value_counts()` lists its rows (by count, largest first). The model lists keys in order of their last occurrence, latest first, and no contract depends on the order.
- Games.Wide: a table is a sequence of rows, so a table with no rows does not record its width. After `play(0)` the source stores a table of shape (0, number of dice); the model stores an empty table, and the "one column per die" of `Play` and `ShowResults` says nothing for zero rolls.
- Games.Game.constructor: the game keeps the caller's list of dice itself (`self._dice = dice`), so appending to that list later changes the game's dice without the face check. The model's `dice` is a constant sequence of die references: the dice are shared with the caller, but the list is copied, so that later change is not modelled.
- The analyzer's reference to its game (`self._game`), which no summary reads.
- How pandas' row-wise `apply` behaves on a table with no rows. The model's summaries of an empty table are empty.
- `setup.py` (packaging and README file I/O) and `montecarlo_test.py` (the unit tests).
