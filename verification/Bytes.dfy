/** Bytes, and values that may be missing. */
module Bytes {

  datatype Option<T> = None | Some(value: T)

  type byte = x: int | 0 <= x < 256

  function Zeros(n: nat): seq<byte> { seq(n, _ => 0) }

  function Copies(n: nat, c: byte): seq<byte> { seq(n, _ => c) }
}
