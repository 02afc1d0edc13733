/** BasicRes (Res/BasicRes.cs): a result that holds a value or an error.
    Unwrapping the wrong side throws a BasicResException. The sealed records
    deriving from BasicRes are BasicOk and BasicErr, and also EnumErr, which
    Res/BasicResWithEnums.cs declares as a BasicRes as well; the sum is closed
    over the three. A type's runtime name (typeof(TErr).Name) is a string
    parameter. */
module BasicResults {
  import opened Outcomes

  /** Which side an unwrap asked for (the enum members Err and Ok); it is
      formatted by its member name. */
  datatype UnwrapType = UnwrapErr | UnwrapOk

  function UnwrapTypeName(u: UnwrapType): string {
    match u
    case UnwrapErr => "Err"
    case UnwrapOk => "Ok"
  }

  /** Errors.CannotUnwrapError: its Reason names the side and the result type. */
  datatype Errors = CannotUnwrapError(Reason: string)

  function Reason(resultTypeName: string, unwrapType: UnwrapType): string {
    "Unable to unwrap '" + UnwrapTypeName(unwrapType) + "' on type " + resultTypeName
  }

  /** The Errors.CannotUnwrapError constructor. */
  function NewCannotUnwrapError(resultTypeName: string, unwrapType: UnwrapType): Errors {
    CannotUnwrapError(Reason(resultTypeName, unwrapType))
  }

  /** The reason text determines both the side and the type name: two errors
      with the same Reason were built from the same arguments. */
  lemma ReasonInjective(n1: string, u1: UnwrapType, n2: string, u2: UnwrapType)
    requires Reason(n1, u1) == Reason(n2, u2)
    ensures n1 == n2 && u1 == u2
  {
    var s := Reason(n1, u1);
    assert s[18] == UnwrapTypeName(u1)[0] && s[18] == UnwrapTypeName(u2)[0];
    assert u1 == u2;
    var k := |s| - |n1|;
    assert k == |s| - |n2|;
    assert s[k..] == n1 && s[k..] == n2;
  }

  /** BasicResException<E>: BasicResException<Errors> from the Ok side, or
      BasicResException<TErr> carrying the stored error. */
  datatype BasicResException<TErr> = ErrorsException(errors: Errors) | ErrException(error: TErr)

  datatype BasicRes<T, TErr> = BasicOk(value: T) | BasicErr(error: TErr) | EnumErr(error: TErr)

  /** The BasicRes.Ok factory. */
  function Ok<T, TErr>(value: T): (r: BasicRes<T, TErr>)
    ensures r.BasicOk? && r.value == value
  {
    BasicOk(value)
  }

  /** The BasicRes.Err factory. */
  function Err<T, TErr>(value: TErr): (r: BasicRes<T, TErr>)
    ensures r.BasicErr? && r.error == value
  {
    BasicErr(value)
  }

  function Unwrap<T, TErr>(r: BasicRes<T, TErr>): Outcome<T, BasicResException<TErr>> {
    match r
    case BasicOk(v) => Value(v)
    case BasicErr(e) => Throws(ErrException(e))
    case EnumErr(e) => Throws(ErrException(e))
  }

  function UnwrapOr<T, TErr>(r: BasicRes<T, TErr>, other: T): T {
    match r
    case BasicOk(v) => v
    case BasicErr(_) => other
    case EnumErr(_) => other
  }

  function UnwrapError<T, TErr>(r: BasicRes<T, TErr>, errTypeName: string): Outcome<TErr, BasicResException<TErr>> {
    match r
    case BasicOk(_) => Throws(ErrorsException(NewCannotUnwrapError(errTypeName, UnwrapErr)))
    case BasicErr(e) => Value(e)
    case EnumErr(e) => Value(e)
  }

  /** Ok(v) unwraps to v, UnwrapOr ignores the fallback, and UnwrapError
      throws the Errors exception naming the error type. */
  lemma OkRoundTrip<T, TErr>(v: T, other: T, errTypeName: string)
    ensures Unwrap(Ok<T, TErr>(v)) == Value(v)
    ensures UnwrapOr(Ok<T, TErr>(v), other) == v
    ensures UnwrapError(Ok<T, TErr>(v), errTypeName) ==
      Throws(ErrorsException(CannotUnwrapError("Unable to unwrap 'Err' on type " + errTypeName)))
  {
    assert "Unable to unwrap '" + "Err" + "' on type " == "Unable to unwrap 'Err' on type ";
  }

  /** Err(e) gives e back from UnwrapError, UnwrapOr returns the fallback, and
      Unwrap throws an exception carrying e. */
  lemma ErrRoundTrip<T, TErr>(e: TErr, other: T, errTypeName: string)
    ensures UnwrapError(Err<T, TErr>(e), errTypeName) == Value(e)
    ensures UnwrapOr(Err<T, TErr>(e), other) == other
    ensures Unwrap(Err<T, TErr>(e)) == Throws(ErrException(e))
  {
  }

  /** For every result exactly one of Unwrap and UnwrapError returns;
      UnwrapOr returns what Unwrap returns, or the fallback where Unwrap
      throws; and where Unwrap throws, it throws the very error UnwrapError
      returns. */
  lemma ExactlyOneSide<T, TErr>(r: BasicRes<T, TErr>, other: T, errTypeName: string)
    ensures Unwrap(r).Value? != UnwrapError(r, errTypeName).Value?
    ensures UnwrapOr(r, other) == if Unwrap(r).Value? then Unwrap(r).value else other
    ensures UnwrapError(r, errTypeName).Value? ==>
      Unwrap(r) == Throws(ErrException(UnwrapError(r, errTypeName).value))
  {
  }
}
