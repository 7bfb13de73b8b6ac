/** Small value types shared by the whole model. */
module Types {

  /** A value that may be absent (Python's `None`). */
  datatype Option<+T> = None | Some(value: T)

  /** The outcome of an operation that the source lets raise. */
  datatype Result<+T> = Success(value: T) | Failure(error: Error)

  /** The exceptions the modelled code can raise. */
  datatype Error =
    /** `diff[diff != 0][0]` on an empty selection: the durations hold fewer than two distinct values. */
    | NoSecondDistinctValue
    /** KMeans is asked for zero clusters (or the mode of an empty list): nothing survives the reduction. */
    | EmptyReduction
    /** `KMeans.fit` on `np.log` of a survivor whose weight or rate is not positive: the log is `-inf` or NaN. */
    | NonFiniteLog

  /** One cell of the `np.uint8` memory-mapped label chain. */
  newtype byte = x: int | 0 <= x < 256

  /** What storing an integer label in a `uint8` array keeps of it. */
  function ToByte(x: nat): (b: byte)
    ensures b as int == x % 256
    ensures x < 256 ==> b as int == x
  {
    (x % 256) as byte
  }
}
