/**
 The Java failure modes that the modelled code can raise, and the two
 wrappers used to make them explicit: a `Result` that is either a value or
 a thrown exception, and a `Nullable` reference that may be `null`.
 */
module JavaErrors {

  /** The unchecked exceptions thrown by the builder layer and the list views. */
  datatype Exception =
    | NullPointerException
    | UnsupportedOperationException
    | IndexOutOfBoundsException
    | NoSuchElementException

  /** Either the value a Java method returns or the exception it throws. */
  datatype Result<+R> = Ok(value: R) | Throws(exception: Exception)

  /** A Java reference argument, which callers may pass as `null`. */
  datatype Nullable<+T> = Null | NonNull(value: T)
}
