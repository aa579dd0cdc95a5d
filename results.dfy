/** Outcome of an operation that the .NET code would end by throwing. */
module Results {

  /** The exceptions the modelled code can raise. */
  datatype Exception =
    | IndexOutOfRangeException   // an array index past the end of `Split`'s result
    | FormatException            // `Convert.ToInt32` given text that is not an integer
    | OverflowException          // `Convert.ToInt32` given an integer outside Int32

  datatype Result<+T> = Ok(value: T) | Err(error: Exception)
}
