/** `AppError` of the `blockchain` crate (`core/errors.rs`) and its `Display` text. */
module AppErrors {
  import opened Words
  import opened Text

  datatype AppError =
    | DelegateNotFound(id: U64)
    | TransactionError(message: string)
    | NoDelegates

  const NOT_FOUND_PREFIX: string := "Делегат с id "
  const NOT_FOUND_SUFFIX: string := " не найден"
  const TRANSACTION_PREFIX: string := "Ошибка транзакции: "
  const NO_DELEGATES: string := "Нет делегатов"

  /** `fmt`: one message per variant; every variant has one. */
  function Message(e: AppError): (s: string)
    ensures e.DelegateNotFound? ==> |NOT_FOUND_PREFIX| <= |s| && s[..|NOT_FOUND_PREFIX|] == NOT_FOUND_PREFIX
    ensures e.TransactionError? ==> |TRANSACTION_PREFIX| <= |s| && s[..|TRANSACTION_PREFIX|] == TRANSACTION_PREFIX
    ensures e.NoDelegates? ==> s == NO_DELEGATES
  {
    match e
    case DelegateNotFound(id) => NOT_FOUND_PREFIX + Decimal(id) + NOT_FOUND_SUFFIX
    case TransactionError(msg) => TRANSACTION_PREFIX + msg
    case NoDelegates => NO_DELEGATES
  }

  /** The message identifies the error: distinct errors print differently. */
  lemma MessageInjective(a: AppError, b: AppError)
    requires Message(a) == Message(b)
    ensures a == b
  {
    var s := Message(a);
    assert s[0] == Message(b)[0];
    match a
    case DelegateNotFound(x) =>
      assert s[0] == 'Д';
      var y := b.id;
      Cancel(NOT_FOUND_PREFIX, Decimal(x), Decimal(y), NOT_FOUND_SUFFIX);
      DecimalInjective(x, y);
    case TransactionError(m) =>
      assert s[0] == 'О';
      assert m == s[|TRANSACTION_PREFIX|..] == b.message;
    case NoDelegates =>
      assert s[0] == 'Н';
  }
}
