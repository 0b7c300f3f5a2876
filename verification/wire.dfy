/** Values shared by the codec, the packet builders and the response reader. */
module Wire {

  /** An octet, Go's `byte`. */
  type byte = x: int | 0 <= x < 0x100

  /** Go's `uint64`, the range of values a varint carries. */
  const TwoTo64: int := 0x1_0000_0000_0000_0000
  type uint64 = x: int | 0 <= x < TwoTo64

  /** Go's `int` on a 64-bit platform. */
  const MaxInt: int := 0x7FFF_FFFF_FFFF_FFFF
  type int64 = x: int | -MaxInt - 1 <= x <= MaxInt

  datatype Option<T> = None | Some(value: T)

  /** The errors the response reader can meet, named after Go's error values. */
  datatype ReadError =
    | EOF            // io.EOF: the stream ended before the first byte of a read
    | UnexpectedEOF  // io.ErrUnexpectedEOF: the stream ended part-way through a read
    | Overflow       // the varint does not fit 64 bits ("binary: varint overflows a 64-bit integer")

  datatype Result<T> = Ok(value: T) | Err(error: ReadError)

  /** The bytes of an ASCII text, as Go's string-to-bytes conversion gives them. */
  function Ascii(s: string): (r: seq<byte>)
    requires forall i :: 0 <= i < |s| ==> s[i] as int < 0x80
    ensures |r| == |s|
    ensures forall i :: 0 <= i < |s| ==> r[i] == s[i] as int
  {
    seq(|s|, i requires 0 <= i < |s| => s[i] as int)
  }
}
