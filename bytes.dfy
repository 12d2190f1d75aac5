/** Byte strings, as the `Uint8Array` values the source passes around. */
module Bytes {

  type byte = b: int | 0 <= b < 256

  type Bytes = seq<byte>

  /** JavaScript `slice(0, n)` / `substring(0, n)` for `n >= 0`: the first `n`
      elements, or everything when the input is shorter. */
  function Take<T>(s: seq<T>, n: nat): (r: seq<T>)
    ensures |r| == if |s| < n then |s| else n
    ensures r == s[..|r|]
  {
    if |s| <= n then s else s[..n]
  }
}
