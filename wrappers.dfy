/**
 * The optional value used for C# null references, and the outcome of an
 * operation that may throw, with the exception it throws.
 */
module Wrappers {
  datatype Option<T> = None | Some(value: T)

  /** The .NET exceptions the modelled code can raise. */
  datatype Error =
    | IndexOutOfRange     // an array index outside the array
    | InvalidCast         // an unboxing cast to the wrong type
    | BadArgument         // System.ArgumentException thrown by the code itself
    | ArgumentOutOfRange  // String.Substring with a negative length
    | KeyNotFound         // a Dictionary read of an absent key
    | NullReference       // a member access through a null reference

  datatype Result<T> = Ok(value: T) | Fail(error: Error)
}
