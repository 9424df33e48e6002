/** Octets, and the little-endian words the codecs read from them. */
module Bytes {

  type byte = x: int | 0 <= x < 256

  /** Byte `k` of an input that is followed in memory by the bytes `past`. */
  function At(input: seq<byte>, past: nat -> byte, k: nat): (b: byte)
    ensures k < |input| ==> b == input[k]
  {
    if k < |input| then input[k] else past(k)
  }

  /** The `n` bytes starting at `k`, reading on into `past`. */
  function Take(input: seq<byte>, past: nat -> byte, k: nat, n: nat): (s: seq<byte>)
    ensures |s| == n && forall i :: 0 <= i < n ==> s[i] == At(input, past, k + i)
    ensures k + n <= |input| ==> s == input[k..k + n]
    decreases n
  {
    if n == 0 then [] else Take(input, past, k, n - 1) + [At(input, past, k + n - 1)]
  }

  /** The little-endian value of two, and of four, bytes. */
  function Le16(b0: int, b1: int): int {
    b0 + 0x100 * b1
  }

  function Load32(s: seq<byte>, i: nat): (v: nat)
    requires i + 4 <= |s|
    ensures v < 0x1_0000_0000
  {
    Le16(s[i], s[i + 1]) + 0x1_0000 * Le16(s[i + 2], s[i + 3])
  }

  lemma Le16Injective(a0: byte, a1: byte, b0: byte, b1: byte)
    ensures 0 <= Le16(a0, a1) < 0x1_0000
    ensures Le16(a0, a1) == Le16(b0, b1) ==> a0 == b0 && a1 == b1
  {
  }

  /** The four bytes at `i` and at `j` agree. */
  predicate Same4(s: seq<byte>, i: nat, j: nat)
    requires i + 4 <= |s| && j + 4 <= |s|
  {
    s[i] == s[j] && s[i + 1] == s[j + 1] && s[i + 2] == s[j + 2] && s[i + 3] == s[j + 3]
  }

  /** Comparing two 32-bit loads compares the four bytes. */
  lemma Load32Equal(s: seq<byte>, i: nat, j: nat)
    requires i + 4 <= |s| && j + 4 <= |s|
    ensures Load32(s, i) == Load32(s, j) <==> Same4(s, i, j)
  {
    Le16Injective(s[i], s[i + 1], s[j], s[j + 1]);
    Le16Injective(s[i + 2], s[i + 3], s[j + 2], s[j + 3]);
  }

  /** `n` zero bytes. */
  function Zeros(n: nat): (z: seq<byte>)
    ensures |z| == n && forall i :: 0 <= i < n ==> z[i] == 0
  {
    seq(n, _ => 0)
  }

  /** Quotient and remainder are determined by what they make up. */
  lemma DivModUnique(n: nat, d: nat, q: nat, r: nat)
    requires r < d && n == q * d + r
    ensures n / d == q && n % d == r
  {
    var p, m := n / d, n % d;
    assert n == p * d + m && m < d;
    if p < q {
      MultipleFar(p, q, d);
    } else if q < p {
      MultipleFar(q, p, d);
    }
  }

  lemma {:induction false} MultipleFar(p: nat, q: nat, d: nat)
    requires p < q
    ensures q * d >= p * d + d
    decreases q
  {
    assert q * d == (q - 1) * d + d;
    if p < q - 1 {
      MultipleFar(p, q - 1, d);
    }
  }

  /** Nothing at `op` or behind it has changed. */
  twostate predicate Untouched(dst: array<byte>, op: nat)
    reads dst
  {
    forall k :: op <= k < dst.Length ==> dst[k] == old(dst[k])
  }
}
