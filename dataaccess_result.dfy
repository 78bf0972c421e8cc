/** com.docusign.dataaccess.Result: the same tri-state container as
    com.docusign.loaders.Result, whose exception type is the data layer's
    DataProviderException. */
module DataAccessResult {
  import opened Lang
  import TriState

  /** The checked exception of the data-access layer. */
  datatype DataProviderException = DataProviderException(message: string)

  type Result<T> = TriState.Result<T, DataProviderException>

  /** The protected constructor: a null type is an IllegalArgumentException. */
  function New<T>(result: Nullable<T>, ex: Nullable<DataProviderException>, kind: Nullable<TriState.ResultType>): (r: Outcome<Result<T>>)
    ensures r.Raise? <==> kind.Null?
    ensures r.Raise? ==> r.error == IllegalArgument
    ensures r.Ok? ==> TriState.GetType(r.value) == kind.value
  {
    TriState.New(result, ex, kind)
  }

  /** success(v).get() returns v, with type COMPLETE. */
  function Success<T>(v: Nullable<T>): (r: Result<T>)
    ensures TriState.Get(r) == Returns(v) && TriState.GetType(r) == TriState.COMPLETE
  {
    TriState.Success(v)
  }

  /** partial(v).get() returns v, with type PARTIAL. */
  function Partial<T>(v: Nullable<T>): (r: Result<T>)
    ensures TriState.Get(r) == Returns(v) && TriState.GetType(r) == TriState.PARTIAL
  {
    TriState.Partial(v)
  }

  /** failure(e) has type FAILURE and get() throws e; a null e is accepted
      and get() then returns null. */
  function Failure<T>(e: Nullable<DataProviderException>): (r: Result<T>)
    ensures TriState.GetType(r) == TriState.FAILURE
    ensures e.NonNull? ==> TriState.Get(r) == Throws(e.value)
    ensures e.Null? ==> TriState.Get(r) == Returns(Null)
  {
    TriState.Failure(e)
  }

  /** get() throws iff an exception is stored, whatever the type. */
  lemma GetThrowsIffError<T>(r: Result<T>, k: TriState.ResultType)
    ensures TriState.Get(r).Throws? <==> r.exception.NonNull?
    ensures TriState.Get(r).Returns? ==> TriState.Get(r).value == r.result
    ensures TriState.Get(TriState.Result(r.result, r.exception, k)) == TriState.Get(r)
  {
    TriState.GetThrowsIffError(r);
    TriState.GetIgnoresType(r, k);
  }
}
