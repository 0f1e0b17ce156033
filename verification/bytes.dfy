/** Byte strings, the handful of byte constants the vault's file format uses,
    and an Option type shared by the other modules. A C++ `std::string` is a
    sequence of 8-bit chars, so every string of the program is a `Bytes`. */
module Bytes {

  /** An 8-bit `char` of a C++ string, by its unsigned value. */
  newtype Byte = b: int | 0 <= b < 256
  type Bytes = seq<Byte>

  datatype Option<+T> = None | Some(value: T)

  /** '\n', the line separator of the record files. */
  const NEWLINE: Byte := 0x0A
  /** '\t', which the codec turns into '\n'. */
  const TAB: Byte := 0x09
  /** '=', the key/value separator of a record line. */
  const EQUALS: Byte := 0x3D
  /** '_', the replacement byte of the file-name sanitiser. */
  const UNDERSCORE: Byte := 0x5F

  /** The bytes of a string literal; every literal of the program is ASCII,
      for which this is the identity on code points. */
  function Ascii(s: string): (r: Bytes)
    ensures |r| == |s|
  {
    seq(|s|, i requires 0 <= i < |s| => (s[i] as int % 256) as Byte)
  }
}
