/** Failure-carrying values used throughout the model in place of Java's
    `null` returns and thrown exceptions. */
module Wrappers {

  /** A possibly missing value: `None` stands for Java's `null`. */
  datatype Option<+T> = None | Some(value: T)

  /** The kinds of failure the modelled Java code can raise. */
  datatype Error =
    | IoError              // seek to a negative offset, read past end of file
    | NegativeArraySize    // `new byte[n]` with n < 0
    | NumberFormat         // `Long.valueOf` / `Integer.valueOf` on malformed text
    | IndexOutOfBounds     // `String.substring` with bad bounds
    | NoSuchElement        // `firstKey()` of an empty sorted map
    | NullPointer          // `compareTo(null)` during compaction
    | MalformedText        // key bytes that are not well-formed UTF-8, an unparsable block
    | OutOfMemory          // a byte array longer than a Java array can be

  /** Either a value or the error the Java code would have thrown. */
  datatype Result<+T> = Success(value: T) | Failure(error: Error) {
    predicate IsFailure() {
      Failure?
    }

    function PropagateFailure<U>(): Result<U>
      requires Failure?
    {
      Failure(error)
    }

    function Extract(): T
      requires Success?
    {
      value
    }
  }
}
