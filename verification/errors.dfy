/** Failure values of the word-list builder and the wrappers that carry them. */
module Errors {

  /** The conditions under which the builder raises its `Error` exception, plus the
      `IndexError` that reading an unusable slot label provokes. */
  datatype Error =
    | OutOfRange(value: int, numDice: nat)   // dice_str: value needs more than numDice dice
    | NoWordsFound                           // no corpus record passed the filter
    | TooFewWords(expected: nat, found: nat) // fewer admissible words than 6^numDice
    | BadIndex(index: int)                   // a slot label that is no index into the word list

  /** Either a value or the error the operation raised. */
  datatype Result<+T> = Ok(value: T) | Fail(error: Error)

  /** Python's `Optional`. */
  datatype Option<+T> = None | Some(value: T)
}
