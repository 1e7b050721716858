/** Optional values (a C# reference that may be null) and the outcome of a
    call that may throw an exception instead of returning. */
module Wrappers {

  /** A value that may be absent; `None` stands for a C# `null`. */
  datatype Option<+T> = None | Some(value: T)

  /** The .NET exceptions that the modelled code can raise. */
  datatype Exception =
    | FormatError        // System.FormatException from DateTime.Parse
    | ArgumentNull       // System.ArgumentNullException (a null argument to DateTime.Parse)
    | NullReference      // System.NullReferenceException (a member call on null)
    | Overflow           // System.OverflowException from checked 64-bit arithmetic

  /** Either the value a call returns or the exception it throws. */
  datatype Try<+T> = Returns(value: T) | Throws(exception: Exception)
}
