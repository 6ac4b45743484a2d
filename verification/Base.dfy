/** Types shared by every layer: bytes, fixed-width integers, errors and results. */
module Base {
  type byte = x: int | 0 <= x < 0x100
  type Bytes = seq<byte>

  const TWO_16: int := 0x1_0000
  const TWO_32: int := 0x1_0000_0000
  const TWO_64: int := 0x1_0000_0000_0000_0000

  type u16 = x: int | 0 <= x < 0x1_0000
  type u32 = x: int | 0 <= x < 0x1_0000_0000
  type u64 = x: int | 0 <= x < 0x1_0000_0000_0000_0000

  /** A literal as bytes. */
  function Ascii(s: string): Bytes { seq(|s|, i requires 0 <= i < |s| => s[i] as int % 0x100) }

  lemma Regroup<T>(a: seq<T>, b: seq<T>, c: seq<T>)
    ensures (a + b) + c == a + (b + c)
  {
  }

  function Min(a: nat, b: nat): nat { if a < b then a else b }

  /** The n-th value of a 32-bit counter that starts at `start`. */
  function Counter(start: u32, n: nat): u32 { (start + n) % TWO_32 }

  /** One step of a 32-bit counter. */
  function Increment(x: u32): u32 { if x + 1 == TWO_32 then 0 else x + 1 }

  lemma CounterSteps(start: u32, n: nat)
    ensures Counter(start, 0) == start && Increment(Counter(start, n)) == Counter(start, n + 1)
  {
  }

  datatype Option<+T> = None | Some(value: T)

  datatype ErrorKind =
    | ConfigurationError | ConnectFailed | AuthenticationFailed | SaslMechanismNotSupported
    | VirtualHostAccessDenied | ProtocolViolation | RequestTimeout | ConnectionNotOpen
    | ConnectionClosed | StreamAlreadyExists | StreamDoesNotExist | ReferenceTooLong
    | IoError | DecodeError | EncodeError | ServerError

  /** An error without its message text; only ServerError carries the server's code. */
  datatype StreamError = StreamError(kind: ErrorKind, serverCode: Option<u16>)

  function Error(kind: ErrorKind): StreamError { StreamError(kind, None) }

  datatype Result<+T> = Ok(value: T) | Err(error: StreamError) {
    predicate IsFailure() { Err? }

    function PropagateFailure<U>(): Result<U>
      requires Err?
    { Err(error) }

    function Extract(): T
      requires Ok?
    { value }
  }

  /** Outcome of a parser: a value and the unread suffix, or the kind of the failure. */
  datatype Parse<+T> = Done(value: T, rest: Bytes) | Fail(kind: ErrorKind) {
    predicate IsFailure() { Fail? }

    function PropagateFailure<U>(): Parse<U>
      requires Fail?
    { Fail(kind) }

    function Extract(): (T, Bytes)
      requires Done?
    { (value, rest) }
  }

  /** A reader method that returned `res` and left `unread` did what the parser `p` says. */
  ghost predicate Agrees<T(!new)>(p: Parse<T>, res: Result<T>, unread: Bytes) {
    match p
    case Done(v, rest) => res == Ok(v) && unread == rest
    case Fail(kind) => res == Err(Error(kind))
  }
}
