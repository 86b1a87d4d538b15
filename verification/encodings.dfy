/** Bytes and text encodings, abstracted to their conversion functions. */
module Encodings {
  import opened Wrappers

  /** One byte of file data. */
  newtype byte = x: int | 0 <= x < 256

  /**
   A `String.Encoding`: decoding bytes into text (`NSString(data:encoding:)`)
   and encoding text into bytes (`data(using:)`); either may fail with `nil`.
   */
  datatype Encoding = Encoding(decode: seq<byte> -> Option<string>, encode: string -> Option<seq<byte>>)
}
