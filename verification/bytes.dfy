/** Byte strings, as the source's std::string and uint8_t buffers hold them. */
module Bytes {
  type Byte = b: int | 0 <= b < 256
  type Str = seq<Byte>

  /** The bytes of a literal. */
  function Ascii(s: string): (b: Str)
    ensures |b| == |s|
  {
    seq(|s|, i requires 0 <= i < |s| => s[i] as int % 256)
  }
}
