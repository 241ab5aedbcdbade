/**
 * The public vocabulary of the library: result codes, the pixel record,
 * the minimum buffer size, and the byte and integer widths the C code uses.
 */
module Types {

  /** One byte of the wire (a C `char`). Its range is not restricted: every
      property below holds for any character, so also for the 256 a byte
      can hold. */
  type Byte = char

  /** `uint8_t` and `uint16_t`. */
  type u8 = x: int | 0 <= x < 0x100
  type u16 = x: int | 0 <= x < 0x1_0000

  /** The smallest caller buffer any buffered operation accepts; also the
      capacity of the scratch buffer used for single-line replies. */
  const MinBufferSize: nat := 32

  /** A pixel: 16-bit canvas coordinates and four 8-bit colour channels. */
  datatype Pixel = Pixel(x: u16, y: u16, r: u8, g: u8, b: u8, a: u8)

  /** An RGB triple as reported by the server for a read request. */
  datatype Rgb = Rgb(r: u8, g: u8, b: u8)

  /** The pixel `p` after a successful read: the server's colour, alpha forced opaque. */
  function WithColour(p: Pixel, c: Rgb): (q: Pixel)
    ensures q.x == p.x && q.y == p.y
    ensures q.r == c.r && q.g == c.g && q.b == c.b && q.a == 0xff
  {
    p.(r := c.r, g := c.g, b := c.b, a := 0xff)
  }

  /** The result of every operation (`enum pf_result`); `PF_BUG_CATCHING` is
      on, so the enumeration includes `Bug`. */
  datatype PfResult =
    | Ok
    | ConnInvalidState
    | NullArg
    | ConnectParseAddr
    | ConnectParsePort
    | SysSocket
    | SysConnect
    | SysWrite
    | SysRead
    | SysWriteReturnedZero
    | SysReadReturnedZero
    | ProtocolError
    | ReadTooMuch
    | GetUnexpectedCoords
    | BufferSize
    | Bug

  const NumResults: nat := 16

  /** The integer value of each enumerator, in declaration order from 0. */
  function Code(r: PfResult): (c: nat)
    ensures c < NumResults
    ensures c == 0 <==> r == Ok
  {
    match r
    case Ok => 0
    case ConnInvalidState => 1
    case NullArg => 2
    case ConnectParseAddr => 3
    case ConnectParsePort => 4
    case SysSocket => 5
    case SysConnect => 6
    case SysWrite => 7
    case SysRead => 8
    case SysWriteReturnedZero => 9
    case SysReadReturnedZero => 10
    case ProtocolError => 11
    case ReadTooMuch => 12
    case GetUnexpectedCoords => 13
    case BufferSize => 14
    case Bug => 15
  }

  /** The enumerator with integer value `c`, if there is one. */
  function FromCode(c: int): (r: Option<PfResult>)
    ensures r.Some? <==> 0 <= c < NumResults
    ensures r.Some? ==> Code(r.value) == c
  {
    if c == 0 then Some(Ok)
    else if c == 1 then Some(ConnInvalidState)
    else if c == 2 then Some(NullArg)
    else if c == 3 then Some(ConnectParseAddr)
    else if c == 4 then Some(ConnectParsePort)
    else if c == 5 then Some(SysSocket)
    else if c == 6 then Some(SysConnect)
    else if c == 7 then Some(SysWrite)
    else if c == 8 then Some(SysRead)
    else if c == 9 then Some(SysWriteReturnedZero)
    else if c == 10 then Some(SysReadReturnedZero)
    else if c == 11 then Some(ProtocolError)
    else if c == 12 then Some(ReadTooMuch)
    else if c == 13 then Some(GetUnexpectedCoords)
    else if c == 14 then Some(BufferSize)
    else if c == 15 then Some(Bug)
    else None
  }

  /** Decoding a code gives back the enumerator. */
  lemma CodeRoundTrip(r: PfResult)
    ensures FromCode(Code(r)) == Some(r)
  {
  }

  /** The description of each result. */
  function Message(r: PfResult): (s: string)
    ensures |s| >= 2
    ensures s == "OK" <==> r == Ok
  {
    match r
    case Ok => "OK"
    case ConnInvalidState => "called function with failed/closed connection"
    case NullArg => "encountered NULL argument"
    case ConnectParseAddr => "could not parse address"
    case ConnectParsePort => "could not parse port"
    case SysSocket => "could not create socket"
    case SysConnect => "could not connect socket"
    case SysWrite => "write() failed"
    case SysRead => "read() failed"
    case ReadTooMuch => "read more lines from the server than expected"
    case SysWriteReturnedZero => "write() returned 0 -- closed connection?"
    case SysReadReturnedZero => "read() returned 0 -- closed connection?"
    case ProtocolError => "server sent an invalid response"
    case GetUnexpectedCoords => "got pixel with unexpected coords from server"
    case BufferSize => "buffer too small"
    case Bug => "bug in internal library function!"
  }

  /** `pf_error_msg`: total over every integer a caller may pass; a value that
      is no enumerator gives "?". */
  function ErrorMsg(code: int): (s: string)
    ensures s == "OK" <==> code == 0
    ensures s == "?" <==> !(0 <= code < NumResults)
  {
    match FromCode(code)
    case Some(r) => Message(r)
    case None => "?"
  }

  /** C pointers that may be NULL, and optional parse results. */
  datatype Option<+T> = None | Some(value: T) {
    predicate IsFailure() { None? }
    function PropagateFailure<U>(): Option<U>
      requires None?
    {
      None
    }
    function Extract(): T
      requires Some?
    {
      value
    }
  }

  /** A value or the error code that stopped its computation. */
  datatype Outcome<+T> = Success(value: T) | Failure(error: PfResult) {
    /** The code an operation returns for this outcome. */
    function Result(): PfResult {
      if Success? then Ok else error
    }
  }
}
