/** The tri-state result container of com.docusign.loaders.Result. The
    forklift package's Result, which the library chain loader delivers, has
    the same shape and is modelled by this module too; the error type E is
    a parameter (ChainLoaderException in both of those packages). */
module TriState {
  import opened Lang

  /** Result.Type: FAILURE, PARTIAL (more deliveries follow) or COMPLETE. */
  datatype ResultType = FAILURE | PARTIAL | COMPLETE

  /** The three final fields m_Result, m_Exception and mType. The type is
      never null once constructed: New refuses a null type. */
  datatype Result<T, E> = Result(result: Nullable<T>, exception: Nullable<E>, kind: ResultType)

  /** The protected constructor: a null type is an IllegalArgumentException;
      otherwise the three arguments are stored as given, and get() and
      getType() answer from them from then on. */
  function New<T, E>(result: Nullable<T>, ex: Nullable<E>, kind: Nullable<ResultType>): (r: Outcome<Result<T, E>>)
    ensures r.Raise? <==> kind.Null?
    ensures r.Raise? ==> r.error == IllegalArgument
    ensures r.Ok? ==> GetType(r.value) == kind.value
    ensures r.Ok? && ex.NonNull? ==> Get(r.value) == Throws(ex.value)
    ensures r.Ok? && ex.Null? ==> Get(r.value) == Returns(result)
  {
    if kind.Null? then Raise(IllegalArgument) else Ok(Result(result, ex, kind.value))
  }

  /** get(): throws the stored exception if there is one, else returns the
      stored value. */
  function Get<T, E>(r: Result<T, E>): Got<T, E>
  {
    if r.exception.NonNull? then Throws(r.exception.value) else Returns(r.result)
  }

  /** getType(). */
  function GetType<T, E>(r: Result<T, E>): ResultType
  {
    r.kind
  }

  /** Result.success(v): get() gives v back and the type is COMPLETE. */
  function Success<T, E>(v: Nullable<T>): (r: Result<T, E>)
    ensures Get(r) == Returns(v) && GetType(r) == COMPLETE
  {
    New(v, Null, NonNull(COMPLETE)).value
  }

  /** Result.partial(v): get() gives v back and the type is PARTIAL. */
  function Partial<T, E>(v: Nullable<T>): (r: Result<T, E>)
    ensures Get(r) == Returns(v) && GetType(r) == PARTIAL
  {
    New(v, Null, NonNull(PARTIAL)).value
  }

  /** Result.failure(e): the type is FAILURE and get() throws e. A null e is
      accepted by the factory, and then get() returns null instead. */
  function Failure<T, E>(e: Nullable<E>): (r: Result<T, E>)
    ensures GetType(r) == FAILURE
    ensures e.NonNull? ==> Get(r) == Throws(e.value)
    ensures e.Null? ==> Get(r) == Returns(Null)
  {
    New(Null, e, NonNull(FAILURE)).value
  }

  /** get() throws exactly when an exception is stored, and otherwise returns
      the stored value. */
  lemma GetThrowsIffError<T, E>(r: Result<T, E>)
    ensures Get(r).Throws? <==> r.exception.NonNull?
    ensures Get(r).Throws? ==> Get(r).error == r.exception.value
    ensures Get(r).Returns? ==> Get(r).value == r.result
  {
  }

  /** What get() does does not depend on the type: a PARTIAL or COMPLETE
      result holding an exception throws it, and a FAILURE result holding
      none returns its value. */
  lemma GetIgnoresType<T, E>(r: Result<T, E>, k: ResultType)
    ensures Get(Result(r.result, r.exception, k)) == Get(r)
  {
  }

  /** The fields are final: rebuilding a result from what it stores gives the
      same result, so getType() always answers the construction-time type. */
  lemma Reconstruct<T, E>(r: Result<T, E>)
    ensures New(r.result, r.exception, NonNull(GetType(r))) == Ok(r)
  {
  }
}
