/**
 * `AppError` of the older top-level crate (`src/core/errors.rs`): the same
 * messages as the `blockchain` crate, but only two variants, so an empty
 * delegate registry has no error of its own.
 */
module LegacyErrors {
  import opened Words
  import opened Text
  import AppErrors

  datatype AppError =
    | DelegateNotFound(id: U64)
    | TransactionError(message: string)

  /** `fmt`: one message per variant; every variant has one. */
  function Message(e: AppError): (s: string)
    ensures e.DelegateNotFound? ==>
              |AppErrors.NOT_FOUND_PREFIX| <= |s| && s[..|AppErrors.NOT_FOUND_PREFIX|] == AppErrors.NOT_FOUND_PREFIX
    ensures e.TransactionError? ==>
              |AppErrors.TRANSACTION_PREFIX| <= |s| && s[..|AppErrors.TRANSACTION_PREFIX|] == AppErrors.TRANSACTION_PREFIX
  {
    match e
    case DelegateNotFound(id) => AppErrors.NOT_FOUND_PREFIX + Decimal(id) + AppErrors.NOT_FOUND_SUFFIX
    case TransactionError(msg) => AppErrors.TRANSACTION_PREFIX + msg
  }

  /** The message identifies the error: distinct errors print differently. */
  lemma MessageInjective(a: AppError, b: AppError)
    requires Message(a) == Message(b)
    ensures a == b
  {
    var s := Message(a);
    assert s[0] == Message(b)[0];
    match a
    case DelegateNotFound(x) =>
      assert s[0] == 'Д';
      var y := b.id;
      Cancel(AppErrors.NOT_FOUND_PREFIX, Decimal(x), Decimal(y), AppErrors.NOT_FOUND_SUFFIX);
      DecimalInjective(x, y);
    case TransactionError(m) =>
      assert s[0] == 'О';
      assert m == s[|AppErrors.TRANSACTION_PREFIX|..] == b.message;
  }
}
