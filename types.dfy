/** Values shared by every part of the Type 2 Tag reader model. */
module NfcTypes {

  /** An unsigned 8-bit value (C#'s `byte`). */
  type byte = x: int | 0 <= x < 0x100

  /** The causes for which the reader throws; the source throws a plain exception for each. */
  datatype Error =
    | StatusNotNormal(sw1: byte)  // the card answered with SW1 other than 0x90
    | IndexOutOfRange             // the capability container is shorter than the byte a check reads
    | BadMagicNumber
    | VersionMismatch
    | NoUnencryptedRead
    | UnexpectedTag               // 0xFF where a TLV tag is expected
    | NoNdefMessage               // the data area ended before an NDEF Message or Terminator TLV
    | Truncated                   // the data area ended inside a length or value field

  /** Either a value or the error the source would throw. */
  datatype Result<+T> = Ok(value: T) | Err(error: Error) {
    predicate IsFailure() { Err? }

    function PropagateFailure<U>(): Result<U>
      requires Err?
    {
      Err(error)
    }

    function Extract(): T
      requires Ok?
    {
      value
    }
  }

  /** How a lazily produced byte stream ends: it runs out, or producing the next byte fails. */
  datatype Tail = Exhausted | Broken(cause: Error)

  /** The bytes a stream still yields, and how it ends after them. */
  datatype Stream = Stream(bytes: seq<byte>, tail: Tail)

  /** The error a reader reports when it needs a byte past the end of a stream. */
  function EndError(t: Tail, whenExhausted: Error): Error
  {
    match t
    case Exhausted => whenExhausted
    case Broken(cause) => cause
  }

  function Prepend(prefix: seq<byte>, s: Stream): Stream
  {
    Stream(prefix + s.bytes, s.tail)
  }

  function Drop(s: Stream, k: nat): Stream
    requires k <= |s.bytes|
  {
    Stream(s.bytes[k..], s.tail)
  }
}

