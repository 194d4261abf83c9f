/** Shared wrappers: optional values, thrown exceptions and outcomes.

    The analysed program signals every failure with a Java exception; the model
    carries the exception's class name and its (nullable) message instead, and
    an operation that may throw returns an `Outcome`.
 */
module Base {

  /** Java's `Optional` and nullable references. */
  datatype Option<+T> = None | Some(value: T)

  /** A thrown exception: its class name and `getMessage()`, which may be null. */
  datatype Exc = Exc(cls: string, message: Option<string>)

  /** The result of an operation that either returns a value or throws. */
  datatype Outcome<+T> = Ok(value: T) | Fail(exc: Exc)

  const IllegalState: string := "java.lang.IllegalStateException"
  const IllegalArgument: string := "java.lang.IllegalArgumentException"
  const NullPointer: string := "java.lang.NullPointerException"
  const NoSuchElement: string := "java.util.NoSuchElementException"
  const ClassCast: string := "java.lang.ClassCastException"
  const Runtime: string := "java.lang.RuntimeException"

  /** The message of `Optional.get()` on an empty optional. */
  const NoValuePresent: string := "No value present"
}
