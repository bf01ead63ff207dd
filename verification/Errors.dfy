/** The C++ exceptions the code throws and the status codes they become. */
module Errors {
  import opened Bytes

  /** What an exception says: one of the fixed messages, or what the operating system said. */
  datatype Text =
    | Silent
    | OsError(detail: bytes)
    | PayloadTooLarge | BadIdentifier | BadPutSize | BadResponseSize
    | TooManyIdentifiers | PayloadNotEncoded | FrameTooLarge | FrameNotEncoded
    | TooManyStored | BadStoredIdentifier | PlaintextTooLarge | PlaintextNotEncoded
    | VaultLocked | BadIdentifierOrSize | VaultFull | SecretMissing
    | EmptyPassword | BadPutPayload | BadIdPayload | PingNotEmpty
    | LockNotEmpty | ListNotEmpty

  /** The bytes of a message. */
  function Render(t: Text): (b: bytes)
    ensures |b| <= if t.OsError? then |t.detail| else 50
    ensures t == Silent ==> b == []
  {
    match t
    case Silent => []
    case OsError(detail) => detail
    case _ => RenderFixed(t)
  }

  function RenderFixed(t: Text): (b: bytes)
    requires !t.Silent? && !t.OsError?
    ensures |b| <= 50
  {
    match t
    case PayloadTooLarge => Ascii("vault protocol payload exceeds the limit")
    case BadIdentifier => Ascii("invalid secret identifier")
    case BadPutSize => Ascii("invalid put-secret payload size")
    case BadResponseSize => Ascii("invalid response payload size")
    case TooManyIdentifiers => Ascii("secret identifier count exceeds the limit")
    case PayloadNotEncoded => Ascii("vault protocol payload encoding failed")
    case FrameTooLarge => Ascii("vault frame payload exceeds the limit")
    case FrameNotEncoded => Ascii("vault frame encoding failed")
    case TooManyStored => Ascii("vault secret count exceeds the limit")
    case BadStoredIdentifier => Ascii("vault contains an invalid secret identifier")
    case PlaintextTooLarge => Ascii("vault plaintext size exceeds the limit")
    case _ => RenderMore(t)
  }

  function RenderMore(t: Text): (b: bytes)
    ensures |b| <= 50
  {
    match t
    case PlaintextNotEncoded => Ascii("vault plaintext encoding failed")
    case VaultLocked => Ascii("vault is locked")
    case BadIdentifierOrSize => Ascii("invalid secret identifier or value size")
    case VaultFull => Ascii("secret count exceeds the limit")
    case SecretMissing => Ascii("secret not found")
    case EmptyPassword => Ascii("master password must not be empty")
    case BadPutPayload => Ascii("invalid put-secret payload")
    case BadIdPayload => Ascii("invalid secret identifier payload")
    case PingNotEmpty => Ascii("ping request payload must be empty")
    case LockNotEmpty => Ascii("lock request payload must be empty")
    case ListNotEmpty => Ascii("list-secrets request payload must be empty")
    case _ => []
  }

  /** By dynamic type; `LengthError` is, like the first two and `LogicError`, a `std::logic_error`. */
  datatype Exception =
    | InvalidArgument(text: Text)
    | OutOfRange(text: Text)
    | LengthError(text: Text)
    | LogicError(text: Text)
    | RuntimeError(text: Text)

  datatype Status =
    | Success | BadArgument | NotFound | Locked | AccessDenied
    | IoError | ProtocolError | CryptoError | Unsupported | InternalError

  /** The stable numeric value of a status. */
  function Code(s: Status): (c: nat)
    ensures c <= 9
  {
    match s
    case Success => 0
    case BadArgument => 1
    case NotFound => 2
    case Locked => 3
    case AccessDenied => 4
    case IoError => 5
    case ProtocolError => 6
    case CryptoError => 7
    case Unsupported => 8
    case InternalError => 9
  }

  /** The statuses in the order of the public header. */
  const STATUSES: seq<Status> := [
    Success, BadArgument, NotFound, Locked, AccessDenied,
    IoError, ProtocolError, CryptoError, Unsupported, InternalError]

  /** The value of a status is its place in that order, and nothing else is accepted back. */
  lemma CodeIsPlace(s: Status, c: nat)
    ensures FromCode(c) == Some(s) <==> Code(s) == c
    ensures Code(s) < |STATUSES| && STATUSES[Code(s)] == s
  {}

  /** The cast back from a number, refused above the last status. */
  function FromCode(c: nat): (s: Option<Status>)
    ensures s.Some? <==> c <= 9
    ensures s.Some? ==> Code(s.value) == c
  {
    if c == 0 then Some(Success)
    else if c == 1 then Some(BadArgument)
    else if c == 2 then Some(NotFound)
    else if c == 3 then Some(Locked)
    else if c == 4 then Some(AccessDenied)
    else if c == 5 then Some(IoError)
    else if c == 6 then Some(ProtocolError)
    else if c == 7 then Some(CryptoError)
    else if c == 8 then Some(Unsupported)
    else if c == 9 then Some(InternalError)
    else None
  }

  /** `classify_exception`: the handlers are tried in this order. */
  function Classify(e: Exception): Status {
    if e.InvalidArgument? then BadArgument
    else if e.OutOfRange? then NotFound
    else if e.LengthError? || e.LogicError? then Locked
    else InternalError
  }
}
