/** Types shared by every component: bytes, machine-word limits, results and the SDK's error categories. */
module Common {

  type byte = x: int | 0 <= x < 256

  type bytes = seq<byte>

  /** The largest value of the platform's `usize`: any value from 32-bit targets upwards. */
  type WordMax = n: nat | 0xFFFF_FFFF <= n witness 0xFFFF_FFFF

  /** `usize::MAX`, left symbolic so that every saturating or checked branch is reachable. */
  const USIZE_MAX: WordMax

  type usize = n: nat | n <= USIZE_MAX

  const U64_MAX: nat := 0xFFFF_FFFF_FFFF_FFFF

  datatype Option<+T> = None | Some(value: T)

  datatype Result<+T, +E> = Ok(value: T) | Err(error: E) {
    predicate IsFailure() { Err? }

    function PropagateFailure<U>(): Result<U, E>
      requires Err?
    {
      Err(error)
    }

    function Extract(): T
      requires Ok?
    {
      value
    }

    /** `map_err` with a constant error. */
    function OrElse<F>(failure: F): Result<T, F> {
      if Ok? then Ok(value) else Err(failure)
    }
  }

  /** The failure of the first check if it has one, and otherwise that of the checks after it. */
  function Earlier<E>(first: Option<E>, later: Option<E>): Option<E> {
    if first.Some? then first else later
  }

  /** A check that holds has no failure. */
  function Unless<E>(holds: bool, failure: E): Option<E> {
    if holds then None else Some(failure)
  }

  /** `ok_or` on an optional value. */
  function OkOr<T, E>(option: Option<T>, failure: E): Result<T, E> {
    if option.Some? then Ok(option.value) else Err(failure)
  }

  /** `Error` of the SDK, without the key-loading and I/O categories. */
  datatype Error =
    | Configuration(field: string)
    | MessageTooLarge(limit: nat)
    | Serialization
    | Encryption
    | AuthenticationContext
    | InvalidHeader
    | HeaderConflict
    | ProtocolAdapter
    | InvalidEnvelope

  /** `AdapterErrorKind`: the categories a protocol adapter reports. */
  datatype AdapterErrorKind = InvalidMapping | MissingField | DuplicateField | InvalidField

  /** `checked_add` followed by `ok_or`, on `usize`. */
  function CheckedAdd(a: nat, b: nat): Option<nat> {
    if a + b <= USIZE_MAX then Some(a + b) else None
  }

  /** `.and_then(|length| length.checked_add(n))`. */
  function AndThenAdd(length: Option<nat>, n: nat): Option<nat> {
    if length.None? then None else CheckedAdd(length.value, n)
  }
}
