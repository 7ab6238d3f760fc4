/**
 * The few pieces of the Java language the model needs: nullable references
 * (`Option`), the throwables that Gooey raises, records or rethrows, and the
 * outcome of a Java call, which either returns a value or throws.
 */
module Lang {

  /** A nullable reference: `None` is Java's `null`. */
  datatype Option<+T> = None | Some(value: T)

  /**
   * The throwables the library distinguishes. `RuntimeException` stands for
   * every subclass of `java.lang.RuntimeException` (a `NullPointerException`
   * among them), `AssertionError` for JUnit-style failures, and
   * `OtherThrowable` for everything else (checked exceptions, other `Error`s).
   */
  datatype Throwable =
    | RuntimeException(className: string, message: string)
    | AssertionError(message: string)
    | OtherThrowable(className: string, message: string)

  /** What `String.equals` on a null receiver throws. */
  const NullPointer: Throwable := RuntimeException("java.lang.NullPointerException", "")

  /** How a Java call ends: it returns a value or it throws. */
  datatype Outcome<+T> = Returned(value: T) | Threw(error: Throwable)
}
