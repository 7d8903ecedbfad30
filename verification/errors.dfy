/**
 The failures the puzzle engine reports. In the JavaScript source every one of
 them is an `Error` thrown with a fixed message; here they are values of
 `Error`, carried by `Result`.
 */
module Errors {

  datatype Error =
    | InvalidSize          // size < 2
    | SizeTooLarge         // size > 16
    | InvalidDifficulty    // difficulty < 0
    | DifficultyTooHigh    // difficulty > 255
    | InvalidDirection     // the scramble's direction search ran past the fourth case
    | InvalidFormat        // the solution, or one of its moves, is not a coordinate pair
    | InvalidCoordinate    // a move outside the grid
    | InvalidMove          // a move whose tile has no empty neighbour
    | IncorrectSolution    // replay finished but the grid is not solved

  /** The message each failure is thrown with. */
  function Message(e: Error): string
  {
    match e
    case InvalidSize => "Invalid size."
    case SizeTooLarge => "Size is too large."
    case InvalidDifficulty => "Invalid difficulty."
    case DifficultyTooHigh => "Difficulty is too high."
    case InvalidDirection => "Invalid direction"
    case InvalidFormat => "Invalid solution format."
    case InvalidCoordinate => "Invalid solution coordinate."
    case InvalidMove => "Incorrect solution - tried to make invalid move."
    case IncorrectSolution => "Incorrect solution."
  }

  /** A value, or the failure that was thrown instead; usable with `:-`. */
  datatype Result<+T> = Ok(value: T) | Err(error: Error) {

    predicate IsFailure() {
      Err?
    }

    function PropagateFailure<U>(): Result<U>
      requires Err?
    {
      Err(error)
    }

    function Extract(): T
      requires Ok?
    {
      value
    }
  }

  datatype Option<+T> = None | Some(value: T)
}
