/** Java-level vocabulary shared by every module of the model: nullable
    references and the unchecked exceptions the core throws. */
module Lang {

  /** A Java reference: either null or an object. */
  datatype Nullable<T> = Null | NonNull(value: T)

  /** The unchecked exceptions thrown by the modelled classes. */
  datatype RuntimeError =
    | UnsupportedOperation
    | NullPointer
    | IllegalArgument
    | NoSuchElement

  /** The result of a Java call that either returns a value or throws an
      unchecked exception. */
  datatype Outcome<T> = Ok(value: T) | Raise(error: RuntimeError)

  /** What a result container's get() does: return the stored value (which
      may be null) or throw the stored checked exception. */
  datatype Got<T, E> = Returns(value: Nullable<T>) | Throws(error: E)

  /** Java's Integer.MAX_VALUE. */
  const INT_MAX: int := 0x7fff_ffff
}
