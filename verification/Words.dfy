/** Numbers as bytes, runs of zero bytes, and the four-byte masking key of section 5.3 of RFC 6455. */
module Words {
  import opened Bytes

  /** 256 to the k. */
  function Pow(k: nat): (p: nat)
    ensures p > 0
  {
    if k == 0 then 1 else 256 * Pow(k - 1)
  }

  /** The k low bytes of n, the least significant first. */
  function Little(n: nat, k: nat): (s: bytes)
    ensures |s| == k
  {
    if k == 0 then [] else [n % 256] + Little(n / 256, k - 1)
  }

  function Zeros(n: nat): (s: bytes)
    ensures |s| == n
  {
    seq(n, _ => 0)
  }

  type Key = k: bytes | |k| == 4 witness [0, 0, 0, 0]
}
