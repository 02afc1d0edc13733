/** Res (Res/Res.cs): results whose error is an exception. Err.Unwrap throws
    the stored exception itself; Ok.Unwrap has no implementation yet and
    always throws NotImplementedException. */
module Results {
  import opened Outcomes

  /** What an Unwrap throws: the stored exception, or NotImplementedException. */
  datatype Thrown<TError> = Stored(error: TError) | NotImplementedException

  /** The two result classes deriving from Res; each keeps its readonly field. */
  datatype Res<T, TError> = Ok(t: T) | Err(error: TError)

  /** The Res.Ok factory (the only public way to build an Ok). */
  function MakeOk<T, TError>(value: T): (r: Res<T, TError>)
    ensures r.Ok? && r.t == value
  {
    Ok(value)
  }

  /** The Res.Err factory; the Error property returns the stored exception. */
  function MakeErr<T, TError>(error: TError): (r: Res<T, TError>)
    ensures r.Err? && r.error == error
  {
    Err(error)
  }

  function Unwrap<T, TError>(r: Res<T, TError>): Outcome<T, Thrown<TError>> {
    match r
    case Ok(_) => Throws(NotImplementedException)
    case Err(e) => Throws(Stored(e))
  }

  /** Unwrap never returns a value: an Err throws its own error, an Ok throws
      NotImplementedException whatever it stores. */
  lemma UnwrapNeverReturns<T, TError>(r: Res<T, TError>, v: T, e: TError)
    ensures Unwrap(r).Throws?
    ensures Unwrap(MakeErr<T, TError>(e)) == Throws(Stored(e))
    ensures Unwrap(MakeOk<T, TError>(v)) == Throws(NotImplementedException)
  {
  }

  /** The NullValueException message. */
  function NullValueMessage(typeName: string): string {
    "Result with " + typeName + " is null"
  }

  /** The message names the type: distinct type names give distinct messages. */
  lemma NullValueMessageInjective(n1: string, n2: string)
    requires NullValueMessage(n1) == NullValueMessage(n2)
    ensures n1 == n2
  {
    var s := NullValueMessage(n1);
    assert |n1| == |n2|;
    assert s[12..12 + |n1|] == n1 && s[12..12 + |n2|] == n2;
  }
}
