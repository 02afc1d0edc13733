/** EnumRes (Res/BasicResWithEnums.cs): the enum-flavoured result types. The
    only record deriving from EnumRes is EnumOk; EnumErr derives from BasicRes
    and is the EnumErr variant of BasicResults.BasicRes; and the EnumRes
    factories build the plain BasicOk and BasicErr. */
module EnumResults {
  import opened Outcomes
  import BasicResults

  datatype EnumResErrors = CannotUnwrap

  /** EnumErrors.CannotUnwrapError: a Reason worded as for Errors, and an
      Error code that is always CannotUnwrap. */
  datatype EnumCannotUnwrapError = EnumCannotUnwrapError(Reason: string, Error: EnumResErrors)

  /** The EnumErrors.CannotUnwrapError constructor. */
  function NewEnumCannotUnwrapError(resultTypeName: string, unwrapType: BasicResults.UnwrapType): (e: EnumCannotUnwrapError)
    ensures e.Error == CannotUnwrap
    ensures e.Reason == BasicResults.NewCannotUnwrapError(resultTypeName, unwrapType).Reason
  {
    EnumCannotUnwrapError("Unable to unwrap '" + BasicResults.UnwrapTypeName(unwrapType) + "' on type " + resultTypeName,
                          CannotUnwrap)
  }

  datatype EnumRes<T, TErr> = EnumOk(value: T)

  function Unwrap<T, TErr>(r: EnumRes<T, TErr>): Outcome<T, BasicResults.BasicResException<TErr>> {
    Value(r.value)
  }

  function UnwrapOr<T, TErr>(r: EnumRes<T, TErr>, other: T): T {
    r.value
  }

  /** EnumOk.UnwrapError throws the Basic exception, not an enum one. */
  function UnwrapError<T, TErr>(r: EnumRes<T, TErr>, errTypeName: string): Outcome<TErr, BasicResults.BasicResException<TErr>> {
    Throws(BasicResults.ErrorsException(BasicResults.NewCannotUnwrapError(errTypeName, BasicResults.UnwrapErr)))
  }

  /** The EnumRes.Ok factory. */
  function Ok<T, TErr>(value: T): (r: BasicResults.BasicRes<T, TErr>)
    ensures r.BasicOk? && r.value == value
  {
    BasicResults.BasicOk(value)
  }

  /** The EnumRes.Err factory. */
  function Err<T, TErr>(value: TErr): (r: BasicResults.BasicRes<T, TErr>)
    ensures r.BasicErr? && r.error == value
  {
    BasicResults.BasicErr(value)
  }

  /** EnumOk behaves on every call exactly as BasicOk with the same value. */
  lemma EnumOkIsBasicOk<T, TErr>(v: T, other: T, errTypeName: string)
    ensures Unwrap(EnumRes<T, TErr>.EnumOk(v)) == BasicResults.Unwrap(BasicResults.BasicRes<T, TErr>.BasicOk(v)) == Value(v)
    ensures UnwrapOr(EnumRes<T, TErr>.EnumOk(v), other) == BasicResults.UnwrapOr(BasicResults.BasicRes<T, TErr>.BasicOk(v), other) == v
    ensures UnwrapError(EnumRes<T, TErr>.EnumOk(v), errTypeName) ==
      BasicResults.UnwrapError(BasicResults.BasicRes<T, TErr>.BasicOk(v), errTypeName)
  {
  }

  /** EnumErr behaves on every call exactly as BasicErr with the same error:
      Unwrap throws the Basic exception carrying it. */
  lemma EnumErrIsBasicErr<T, TErr>(e: TErr, other: T, errTypeName: string)
    ensures BasicResults.Unwrap(BasicResults.BasicRes<T, TErr>.EnumErr(e)) ==
      BasicResults.Unwrap(BasicResults.BasicRes<T, TErr>.BasicErr(e)) == Throws(BasicResults.ErrException(e))
    ensures BasicResults.UnwrapOr(BasicResults.BasicRes<T, TErr>.EnumErr(e), other) ==
      BasicResults.UnwrapOr(BasicResults.BasicRes<T, TErr>.BasicErr(e), other) == other
    ensures BasicResults.UnwrapError(BasicResults.BasicRes<T, TErr>.EnumErr(e), errTypeName) ==
      BasicResults.UnwrapError(BasicResults.BasicRes<T, TErr>.BasicErr(e), errTypeName) == Value(e)
  {
  }

  /** The EnumRes factories and the BasicRes factories build the same values. */
  lemma FactoriesAgree<T, TErr>(v: T, e: TErr)
    ensures Ok<T, TErr>(v) == BasicResults.Ok<T, TErr>(v)
    ensures Err<T, TErr>(e) == BasicResults.Err<T, TErr>(e)
  {
  }
}
