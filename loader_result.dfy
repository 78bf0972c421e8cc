/** com.docusign.dataaccess.LoaderResult: a two-state container holding a
    value and an exception, either of which may be null. */
module LoaderResults {
  import opened Lang

  /** The fields m_Result and m_Exception, set once by the constructor. */
  datatype LoaderResult<R, E> = LoaderResult(result: Nullable<R>, exception: Nullable<E>)

  /** get(): throws the exception if it is not null, else returns the value. */
  function Get<R, E>(r: LoaderResult<R, E>): Got<R, E>
  {
    if r.exception.NonNull? then Throws(r.exception.value) else Returns(r.result)
  }

  /** LoaderResult.success(v): get() gives v back. */
  function Success<R, E>(v: Nullable<R>): (r: LoaderResult<R, E>)
    ensures Get(r) == Returns(v)
  {
    LoaderResult(v, Null)
  }

  /** LoaderResult.failure(e): get() throws e when e is not null; a null e
      stores nothing that can be thrown, and the result is then exactly
      success(null). */
  function Failure<R, E>(e: Nullable<E>): (r: LoaderResult<R, E>)
    ensures e.NonNull? ==> Get(r) == Throws(e.value)
    ensures e.Null? ==> r == Success(Null) && Get(r) == Returns(Null)
  {
    LoaderResult(Null, e)
  }

  /** get() throws iff a non-null exception is stored, and otherwise returns
      the stored value. */
  lemma GetThrowsIffError<R, E>(r: LoaderResult<R, E>)
    ensures Get(r).Throws? <==> r.exception.NonNull?
    ensures Get(r).Throws? ==> Get(r).error == r.exception.value
    ensures Get(r).Returns? ==> Get(r).value == r.result
  {
  }
}
