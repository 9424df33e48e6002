/** The meaning shared by both codecs: copying from bytes already produced. */
module Lz77 {
  import opened Bytes

  /** Append `len` bytes one at a time, each read `off` bytes back; the source may overlap the copy. */
  function CopyBack(out: seq<byte>, off: nat, len: nat): (r: seq<byte>)
    requires 1 <= off <= |out|
    ensures |r| == |out| + len && r[..|out|] == out
    decreases len
  {
    if len == 0 then out
    else CopyBack(out + [out[|out| - off]], off, len - 1)
  }

  /** `x[p..p+len]` repeats the bytes `off` earlier. */
  ghost predicate Repeats(x: seq<byte>, p: nat, off: nat, len: nat) {
    1 <= off <= p && p + len <= |x| && forall k :: p <= k < p + len ==> x[k] == x[k - off]
  }

  /** A copy is characterised by periodicity: it is the only extension that repeats. */
  lemma {:induction false} CopyBackRepeats(x: seq<byte>, p: nat, off: nat, len: nat)
    requires Repeats(x, p, off, len)
    ensures CopyBack(x[..p], off, len) == x[..p + len]
    decreases len
  {
    if len != 0 {
      assert x[p] == x[p - off];
      assert x[..p] + [x[..p][p - off]] == x[..p + 1];
      CopyBackRepeats(x, p + 1, off, len - 1);
    }
  }

  lemma CopyBackNothing(out: seq<byte>, off: nat)
    requires 1 <= off <= |out|
    ensures CopyBack(out, off, 0) == out
  {
  }

  /** One more byte of a copy. */
  lemma {:induction false} CopyBackSnoc(out: seq<byte>, off: nat, len: nat)
    requires 1 <= off <= |out|
    ensures CopyBack(out, off, len + 1)
         == CopyBack(out, off, len) + [CopyBack(out, off, len)[|out| + len - off]]
    decreases len
  {
    if len != 0 {
      CopyBackSnoc(out + [out[|out| - off]], off, len - 1);
    }
  }

  /** At most `off` bytes may be copied at once: none of them is read after it was written. */
  lemma {:induction false} CopyBackWide(out: seq<byte>, off: nat, w: nat)
    requires 1 <= off <= |out| && w <= off
    ensures CopyBack(out, off, w) == out + out[|out| - off..|out| - off + w]
    decreases w
  {
    if w > 0 {
      CopyBackWide(out, off, w - 1);
      CopyBackSnoc(out, off, w - 1);
    }
  }

  /** Two copies from the same distance are one longer copy. */
  lemma {:induction false} CopyBackSplit(out: seq<byte>, off: nat, a: nat, b: nat)
    requires 1 <= off <= |out|
    ensures CopyBack(CopyBack(out, off, a), off, b) == CopyBack(out, off, a + b)
    decreases a
  {
    if a != 0 {
      CopyBackSplit(out + [out[|out| - off]], off, a - 1, b);
    }
  }

  /** What lies before a copy's reach does not matter. */
  lemma {:induction false} CopyBackBehind(pre: seq<byte>, out: seq<byte>, off: nat, len: nat)
    requires 1 <= off <= |out|
    ensures CopyBack(pre + out, off, len) == pre + CopyBack(out, off, len)
    decreases len
  {
    if len != 0 {
      assert pre + out + [(pre + out)[|pre + out| - off]] == pre + (out + [out[|out| - off]]);
      CopyBackBehind(pre, out + [out[|out| - off]], off, len - 1);
    }
  }

  /** How many of the `n` bytes at `a` and `b` agree before the first difference. */
  function Common(x: seq<byte>, a: nat, b: nat, n: nat): (m: nat)
    requires a + n <= |x| && b + n <= |x|
    ensures m <= n
    decreases n
  {
    if n == 0 || x[a] != x[b] then 0 else 1 + Common(x, a + 1, b + 1, n - 1)
  }

  /** It is the longest common prefix: everything before its end agrees, and its end does not. */
  lemma {:induction false} CommonIsLongest(x: seq<byte>, a: nat, b: nat, n: nat)
    requires a + n <= |x| && b + n <= |x|
    ensures (var m := Common(x, a, b, n);
             && (forall k :: a <= k < a + m ==> x[k] == x[k - a + b])
             && (m < n ==> x[a + m] != x[b + m]))
    decreases n
  {
    if n != 0 && x[a] == x[b] {
      CommonIsLongest(x, a + 1, b + 1, n - 1);
    }
  }

  /** What is common to two positions repeats at their distance. */
  lemma CommonRepeats(x: seq<byte>, i: nat, j: nat, n: nat)
    requires j < i && i + n <= |x|
    ensures Repeats(x, i, i - j, Common(x, i, j, n))
  {
    CommonIsLongest(x, i, j, n);
    hide Common;
    var c := Common(x, i, j, n);
    forall k | i <= k < i + c ensures x[k] == x[k - (i - j)] {
      assert x[i + (k - i)] == x[j + (k - i)];
    }
  }

  lemma RepeatsJoin(x: seq<byte>, i: nat, off: nat, m: nat, n: nat)
    requires 1 <= off <= i && i + m + n <= |x| && Repeats(x, i, off, m) && Repeats(x, i + m, off, n)
    ensures Repeats(x, i, off, m + n)
  {
  }
}
