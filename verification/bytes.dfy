/** Go's `byte` and its byte-string view of `string`.
    Go's `len` on a string counts bytes, so text is modelled as a byte sequence
    and `|t|` is exactly the length the source compares against its bounds. */
module Bytes {

  newtype byte = b: int | 0 <= b < 256

  /** The bytes of a Go string. */
  type Text = seq<byte>

  /** One byte per character: for ASCII text this is exactly its UTF-8 encoding
      (other characters keep only their low byte, so use it for ASCII literals). */
  function Ascii(s: string): (t: Text)
    ensures |t| == |s|
    ensures forall i :: 0 <= i < |s| && s[i] as int < 128 ==> t[i] as int == s[i] as int
  {
    seq(|s|, i requires 0 <= i < |s| => (s[i] as int % 256) as byte)
  }
}
