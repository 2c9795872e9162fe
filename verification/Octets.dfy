// Bytes, optional values and ASCII text shared by the bootloader modules.
module Octets {

  newtype Byte = x: int | 0 <= x < 256

  datatype Option<+T> = None | Some(value: T)

  const CR: Byte := 13
  const LF: Byte := 10
  const SPACE: Byte := 32

  // The bytes of a text literal; every literal in the bootloader is ASCII.
  function Ascii(s: string): (r: seq<Byte>)
    ensures |r| == |s|
  {
    seq<Byte>(|s|, i requires 0 <= i < |s| => (s[i] as int % 256) as Byte)
  }
}
