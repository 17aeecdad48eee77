/** The byte stream both decoders pull from, as an immutable input and a
    position.  A read that needs more bytes than remain is a TruncatedInput
    failure; the stream's own fail/eof state machinery is not modelled. */
module Bytes {

  type byte = bv8

  /** Little-endian 16-bit field, as read into a uint16_t on a little-endian host. */
  type u16 = bv16

  datatype Error =
    | TruncatedInput   // a fixed or length-prefixed read ran past the end of input
    | StructuralError  // a box whose declared size cannot hold it (corrected decoder only)

  datatype Option<+T> = None | Some(value: T)

  /** A decoded value together with the position just after it. */
  datatype Parsed<+T> = Parsed(value: T, next: nat)

  datatype Result<+T> = Success(value: T) | Failure(error: Error) {

    predicate IsFailure() {
      Failure?
    }

    function PropagateFailure<U>(): Result<U>
      requires Failure?
    {
      Failure(error)
    }

    function Extract(): T
      requires Success?
    {
      value
    }
  }

  /** The value istream::peek() and istream::get() return at end of input. */
  const EOF: int := -1

  /** istream::peek(): the next byte as an int, or EOF; never moves the position. */
  function Peek(s: seq<byte>, pos: nat): int {
    if pos < |s| then s[pos] as int else EOF
  }

  /** `uint8_t x = input.get()`: the byte at `pos`, with EOF truncated to 0xFF. */
  function GetAsByte(s: seq<byte>, pos: nat): byte {
    if pos < |s| then s[pos] else 0xFF
  }

  function ReadByte(s: seq<byte>, pos: nat): (r: Result<Parsed<byte>>)
    ensures r.Success? <==> pos < |s|
    ensures r.Success? ==> r.value == Parsed(s[pos], pos + 1)
  {
    if pos < |s| then Success(Parsed(s[pos], pos + 1)) else Failure(TruncatedInput)
  }

  function ReadBytes(s: seq<byte>, pos: nat, n: nat): (r: Result<Parsed<seq<byte>>>)
    ensures r.Success? <==> pos + n <= |s|
    ensures r.Success? ==> r.value == Parsed(s[pos..pos + n], pos + n)
  {
    if pos + n <= |s| then Success(Parsed(s[pos..pos + n], pos + n)) else Failure(TruncatedInput)
  }

  /** Two bytes in stream order, low byte first. */
  function U16(lo: byte, hi: byte): u16 {
    ((hi as u16) << 8) | (lo as u16)
  }

  /** The two bytes a u16 is stored as, low byte first. */
  function U16Bytes(w: u16): seq<byte> {
    [(w & 0xFF) as byte, (w >> 8) as byte]
  }

  lemma U16RoundTrip(lo: byte, hi: byte)
    ensures U16Bytes(U16(lo, hi)) == [lo, hi]
  {
  }

  function ReadU16(s: seq<byte>, pos: nat): (r: Result<Parsed<u16>>)
    ensures r.Success? <==> pos + 2 <= |s|
    ensures r.Success? ==> r.value.next == pos + 2 && U16Bytes(r.value.value) == s[pos..pos + 2]
  {
    if pos + 2 <= |s| then
      U16RoundTrip(s[pos], s[pos + 1]);
      Success(Parsed(U16(s[pos], s[pos + 1]), pos + 2))
    else
      Failure(TruncatedInput)
  }

  lemma SliceConcat(s: seq<byte>, a: nat, b: nat, c: nat)
    requires a <= b <= c <= |s|
    ensures s[a..b] + s[b..c] == s[a..c]
  {
  }
}
