/** Go strings are immutable byte sequences; `[]byte(s)` and `string(b)` are
    identities on the bytes. Every string of the model, field names included,
    is therefore a sequence of octets. */
module Bytes {

  type uint8 = x: int | 0 <= x < 256

  type Bytes = seq<uint8>

  /** The octets of an ASCII literal, as a Go string literal holds them. */
  function Ascii(s: string): (b: Bytes)
    requires forall i :: 0 <= i < |s| ==> s[i] as int < 128
    ensures |b| == |s|
    ensures forall i :: 0 <= i < |s| ==> b[i] == s[i] as int
  {
    if |s| == 0 then [] else [s[0] as int] + Ascii(s[1..])
  }
}
