/** Octets, octet strings (der::Input) and their view as text. */
module Bytes {
  type byte = x: int | 0 <= x < 256

  /** A fixed view of octets; the source's der::Input and Span<const uint8_t>. */
  type Input = seq<byte>

  /** BytesAsStringView: the same octets, read as characters. */
  function AsText(v: Input): (s: string)
    ensures |s| == |v|
    ensures forall i :: 0 <= i < |v| ==> s[i] as int == v[i]
  {
    seq(|v|, i requires 0 <= i < |v| => v[i] as char)
  }
}
