/** Errors raised by the modelled Python code, and the result type that carries them. */
module Outcomes {

  /** One constructor per exception the core can raise. */
  datatype Error =
    | RepeatedOthers       // validate_character_args: others holds a repeated character
    | WrongOtherCount      // validate_character_args: not exactly 6 distinct others
    | WrongCenterLength    // validate_character_args: center is not one character
    | CenterInOthers       // validate_character_args: center also among the others
    | NotALowercaseLetter  // string.ascii_lowercase.index(c) raises ValueError
    | MissingPrefix        // prefix_tree[prefix] raises KeyError
    | EmptySuffix          // suffix[0] on an empty suffix raises IndexError
    | NoneNode             // the None stored under '$' used as a dict raises TypeError

  /** The value a call returns, or the exception it raises. */
  datatype Result<+T> = Success(value: T) | Failure(error: Error)

  /** The outcome of a check that returns nothing when it passes. */
  datatype Outcome = Pass | Fail(error: Error)
}
