/** Byte strings: subscription keys, wire data and raw memory. */
module Bytes {

  type Byte = x: int | 0 <= x < 256

  type Key = seq<Byte>

  /** The bytes of a name as RFC 23/ZMTP spells it. */
  function Text(s: string): Key
    requires forall i :: 0 <= i < |s| ==> s[i] < 128 as char
  {
    seq(|s|, i requires 0 <= i < |s| => s[i] as int)
  }

  datatype Option<+T> = None | Some(value: T)
}
