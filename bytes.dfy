/** Bytes as they travel over the serial link and sit in the flash image. */
module Bytes {

  /** One octet; Python 2 `ord(c)` of a character of a byte string. */
  type byte = x: int | 0 <= x < 256

  /** The value of unwritten flash. */
  const ERASED: byte := 0xFF

  function Min(a: int, b: int): int
  {
    if a <= b then a else b
  }

  /** `n` erased bytes. */
  function Erased(n: nat): (r: seq<byte>)
    ensures |r| == n
    ensures forall i :: 0 <= i < n ==> r[i] == ERASED
  {
    seq(n, _ => ERASED)
  }
}
