/** The failures the rules engine reports to its caller instead of a value. */
module Errors {

  /** One variant per family of rejected construction arguments. */
  datatype Error =
    | InvalidIntersection       // column letter outside 'A'..'S' or row outside 1..19
    | InvalidBoardSize          // an empty board of a size other than 9, 13 or 19
    | InvalidGobanConstruction  // bad size, overlapping, repeated or off-board initial stones
    | InvalidGameArguments      // a game on a bad size or with an initial stone off the board

  /** Either a value or the error that prevented computing it. */
  datatype Result<+T> = Ok(value: T) | Err(error: Error)
}
