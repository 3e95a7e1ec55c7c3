/** Java-level vocabulary shared by the fluent operations: nullable references,
    java.util.Optional, the throwables the operations raise or pass on, and the
    outcome of a call that either returns a value or throws. */
module Lang {

  /** A Java reference that may be null (an argument or a field). */
  datatype Nullable<+T> = Null | NonNull(value: T)

  /** java.util.Optional. */
  datatype Option<+T> = None | Some(value: T)

  /** Optional.ofNullable: the empty Optional for null, the value otherwise. */
  function OfNullable<T>(n: Nullable<T>): (r: Option<T>)
    ensures r.None? <==> n.Null?
    ensures r.Some? ==> r.value == n.value
  {
    match n
    case Null => None
    case NonNull(v) => Some(v)
  }

  /** The throwables that reach the callers of the fluent operations. */
  datatype Throwable =
    | IllegalArgument(message: string)      // raised by Spring's Assert before any call is made
    | IncorrectResultSize(expected: nat)    // a DataAccessException: more results than requested
    | DataAccess(message: string)           // a DataAccessException produced by translation
    | SdkRuntime(message: string)           // a RuntimeException raised by the Couchbase SDK
    | Checked(message: string)              // an Exception that is not a RuntimeException
    | JvmError(message: string)             // a java.lang.Error

  /** True of the throwables that are RuntimeExceptions in Java's hierarchy. */
  predicate IsRuntimeException(t: Throwable) {
    !(t.Checked? || t.JvmError?)
  }

  /** The result of a call: the value it returns or the throwable it raises
      (a Mono that emits one value or signals an error, once blocked on). */
  datatype Outcome<+T> = Ok(value: T) | Err(error: Throwable)
}
