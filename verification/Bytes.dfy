module Bytes {
  type byte = b: int | 0 <= b < 256

  function Zeros(n: nat): (z: seq<byte>)
    ensures |z| == n && forall i :: 0 <= i < n ==> z[i] == 0
  {
    seq(n, i => 0)
  }

  /** The byte with its highest bit changed. */
  function FlipTop(b: byte): (r: byte)
    ensures r != b && (r + 128) % 256 == b
  {
    (b + 128) % 256
  }
}
