/** Bytes. */
module Octets {
  newtype Byte = x: int | 0 <= x < 256

  type Bytes = seq<Byte>

  function Zeros(n: nat): (z: Bytes)
    ensures |z| == n
  {
    if n == 0 then [] else [0] + Zeros(n - 1)
  }
}
