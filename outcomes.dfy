/** Failure-compatible wrappers and the error kinds the dice library raises. */
module Outcomes {

  datatype Option<+T> = None | Some(value: T)

  datatype Result<+T, +E> = Ok(value: T) | Err(error: E)

  /** One constructor per exception the library raises (or lets surface). */
  datatype Error =
    | DuplicateFaces        // building a die: a face label repeats
    | InvalidFace           // changing a weight: the face is not on the die
    | NonNumericWeight      // changing a weight: the new weight is not a number
    | InvalidProbabilities  // rolling: the normalised weights are not a distribution
    | NoDice                // building a game from no dice at all
    | FaceMismatch          // building a game: the dice have different face sets
    | InvalidForm           // showing results: neither "wide" nor "narrow"
    | NoResults             // building an analyzer: the game was never played
}
