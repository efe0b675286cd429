/** Error kinds and the failure-compatible result type shared by the whole model. */
module Results {

  /** The kinds of `SnmpError`; message texts are not modelled, the data they report is. */
  datatype Error =
    | UnexpectedEnd
    | LengthOverflow
    | DataTooShort
    | WrongTag(expected: int, got: int)
    | UnknownVersion(version: int)
    | TruncatedSubIdentifier
    | Timeout
    | Io
    | Snmp(status: nat, index: nat)
    | AuthFailed
    | DecryptFailed
    | DiscoveryFailed
    | InvalidOidString

  datatype Option<+T> = None | Some(value: T)

  datatype Result<+T> = Ok(value: T) | Err(error: Error) {
    predicate IsFailure() {
      Err?
    }

    function PropagateFailure<U>(): Result<U>
      requires Err?
    {
      Err(error)
    }

    function Extract(): T
      requires Ok?
    {
      value
    }
  }

  /** The outcome of a check that carries no value. */
  datatype Check = Pass | Fail(error: Error) {
    predicate IsFailure() {
      Fail?
    }

    function PropagateFailure<U>(): Result<U>
      requires Fail?
    {
      Err(error)
    }
  }

  function Need(condition: bool, error: Error): Check {
    if condition then Pass else Fail(error)
  }
}
