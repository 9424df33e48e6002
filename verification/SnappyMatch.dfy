/** FindMatchLength, in its 64-bit and 32-bit forms, and the bit scan that it rests on. */
module SnappyMatch {
  import opened Bytes
  import opened Lz77
  import opened Words

  // ------------------------------------------------------------------ bit scanning

  /** `v >> s`: halved `s` times. */
  function Shr(v: nat, s: nat): nat
    decreases s
  {
    if s == 0 then v else Shr(v / 2, s - 1)
  }

  lemma {:induction false} Log2OfPow2(k: nat)
    ensures Log2(Pow2(k)) == k
    decreases k
  {
    if k > 0 {
      Log2OfPow2(k - 1);
      assert Pow2(k) / 2 == Pow2(k - 1) && Pow2(k) != 1;
    }
  }

  /** Moving a number down by `s` bits lowers its logarithm by `s`, or leaves nothing. */
  lemma {:induction false} Log2Shift(n: nat, s: nat)
    requires n > 0
    ensures if n < Pow2(s) then Shr(n, s) == 0 else Shr(n, s) > 0 && Log2(n) == Log2(Shr(n, s)) + s
    decreases s
  {
    if s > 0 {
      if n > 1 {
        Log2Shift(n / 2, s - 1);
      } else {
        ShrNothing(s - 1);
      }
    }
  }

  lemma {:induction false} ShrNothing(s: nat)
    ensures Shr(0, s) == 0
    decreases s
  {
    if s > 0 {
      ShrNothing(s - 1);
    }
  }

  /** Of `s + k` bits the upper `k` are left, and if all were set, they are. */
  lemma {:induction false} UpperBits(v: nat, s: nat, k: nat)
    requires v < Pow2(s + k)
    ensures Shr(v, s) < Pow2(k) && (v == Pow2(s + k) - 1 ==> Shr(v, s) == Pow2(k) - 1)
    decreases s
  {
    if s > 0 {
      UpperBits(v / 2, s - 1, k);
    }
  }

  /** Bits::Log2Floor, the portable version. */
  method Log2Floor(n: nat) returns (log: int)
    requires n < Pow2(32)
    ensures n == 0 ==> log == -1
    ensures n > 0 ==> log == Log2(n) && Pow2(Log2(n)) <= n < Pow2(Log2(n) + 1)
  {
    if n == 0 {
      return -1;
    }
    Log2Means(n);
    assert Pow2(1) == 2;
    hide Pow2, Log2, Shr;
    var value, i, shift := n, 4, 16;
    log := 0;
    while i >= 0
      invariant -1 <= i <= 4
      invariant shift == if i == 4 then 16 else if i == 3 then 8 else if i == 2 then 4 else if i == 1 then 2
                         else if i == 0 then 1 else 0
      invariant value > 0 && Log2(n) == Log2(value) + log
      invariant value < Pow2(if i == -1 then 1 else 2 * shift)
    {
      Log2Shift(value, shift);
      UpperBits(value, shift, shift);
      var x := Shr(value, shift);
      if x != 0 {
        value, log := x, log + shift;
      }
      i, shift := i - 1, shift / 2;
    }
    assert value == 1;
    Log2One();
  }

  lemma Log2One()
    ensures Log2(1) == 0
  {
  }

  /** What a 32-bit shift to the left keeps: the low `32 - s` bits, moved up. */
  lemma ShiftKeeps(n: nat, c: nat, d: nat)
    requires c >= 1 && d >= 1 && c * d == WORD
    ensures n * c % WORD == n % d * c
  {
    var low, high := n % d, n / d;
    assert n == low + high * d;
    assert n * c == low * c + high * d * c;
    assert high * d * c == high * WORD;
    assert low * c < d * c by {
      assert low < d;
    }
    ModPlus(low * c, high);
  }

  lemma {:induction false} ModPlus(a: nat, q: nat)
    requires a < WORD
    ensures (a + q * WORD) % WORD == a
    decreases q
  {
    if q != 0 {
      ModPlus(a, q - 1);
      assert a + q * WORD == a + (q - 1) * WORD + WORD;
    }
  }

  /** Shifting moves the low bit up, or out. */
  lemma ShiftLowBit(n: nat, s: nat)
    requires 0 < n && s <= 32 && Pow2(s) * Pow2(32 - s) == WORD
    ensures (var x := n * Pow2(s) % WORD;
             if LowBit(n) + s >= 32 then x == 0 else x > 0 && LowBit(x) == LowBit(n) + s)
  {
    hide LowBit, Pow2;
    var c, d := Pow2(s), Pow2(32 - s);
    var low, high := n % d, n / d;
    assert n == low + high * d;
    ShiftKeeps(n, c, d);
    LowBitJoin(low, high, 32 - s);
    if low != 0 {
      assert low * c > 0;
      LowBitJoin(0, low, s);
    }
  }

  /** Bits::FindLSBSetNonZero, the portable version. */
  method FindLSBSetNonZero(n0: nat) returns (rc: nat)
    requires 0 < n0 < Pow2(32)
    ensures rc == LowBit(n0)
  {
    var n := n0;
    var r := 31;
    var i, shift := 4, 16;
    WordIsPow2();
    LowBitBelow(n, 32);
    hide Pow2, LowBit;
    while i >= 0
      invariant -1 <= i <= 4
      invariant shift == if i == 4 then 16 else if i == 3 then 8 else if i == 2 then 4 else if i == 1 then 2
                         else if i == 0 then 1 else 0
      invariant 0 < n < WORD && r <= 31 && LowBit(n) == LowBit(n0) + (31 - r)
      invariant LowBit(n) <= 31 && LowBit(n) + (if i == -1 then 1 else 2 * shift) >= 32
    {
      ShiftLowBit(n, shift);
      var x := n * Pow2(shift) % WORD;
      if x != 0 {
        n, r := x, r - shift;
      }
      shift := shift / 2;
      i := i - 1;
    }
    rc := r;
  }

  /** Bits::FindLSBSetNonZero64: the low half unless it is zero. */
  method FindLSBSetNonZero64(n: nat) returns (rc: nat)
    requires 0 < n < Pow2(64)
    ensures rc == LowBit(n)
  {
    var bottom, top := n % WORD, n / WORD;
    TwoWords();
    LowBitJoin(bottom, top, 32);
    if bottom == 0 {
      rc := FindLSBSetNonZero(top);
      rc := 32 + rc;
    } else {
      rc := FindLSBSetNonZero(bottom);
    }
  }

  // ------------------------------------------------------------- comparing words

  /** A common prefix of `k` bytes, then the rest. */
  lemma {:induction false} CommonSkip(x: seq<byte>, a: nat, b: nat, n: nat, k: nat)
    requires a + n <= |x| && b + n <= |x| && k <= n && Common(x, a, b, k) == k
    ensures Common(x, a, b, n) == k + Common(x, a + k, b + k, n - k)
    decreases k
  {
    if k != 0 {
      CommonSkip(x, a + 1, b + 1, n - 1, k - 1);
    }
  }

  lemma {:induction false} CommonWithin(x: seq<byte>, a: nat, b: nat, n: nat, k: nat)
    requires a + n <= |x| && b + n <= |x| && k <= n && Common(x, a, b, k) < k
    ensures Common(x, a, b, n) == Common(x, a, b, k)
    decreases k
  {
    if x[a] == x[b] {
      CommonWithin(x, a + 1, b + 1, n - 1, k - 1);
    }
  }

  /** What comparing two words at `p` and `q` says about the rest up to `n` bytes. */
  lemma WordCompared(x: seq<byte>, p: nat, q: nat, n: nat, w: nat)
    requires p + n <= |x| && q + n <= |x| && w <= n && (w == 4 || w == 8)
    ensures (var v := Xor(Word(x, p, w), Word(x, q, w));
             if Word(x, p, w) == Word(x, q, w) then Common(x, p, q, n) == w + Common(x, p + w, q + w, n - w)
             else
               && 0 < v < Pow2(8 * w)
               && Common(x, p, q, n) == LowBit(v) / 8)
  {
    hide Common, Word, LowBit, Xor;
    WordsDiffer(x, p, q, w);
    if Word(x, p, w) == Word(x, q, w) {
      CommonSkip(x, p, q, n, w);
    } else {
      CommonWithin(x, p, q, n, w);
      WordBelow(x, p, w);
      WordBelow(x, q, w);
      XorJoin(Word(x, p, w), Word(x, q, w), 0, 0, 8 * w);
    }
  }

  /** Two words that differ: the bit scan finds the first differing byte. */
  method ScanWord(x: seq<byte>, p: nat, q: nat, n: nat, w: nat) returns (m: nat)
    requires p + n <= |x| && q + n <= |x| && w <= n && (w == 4 || w == 8)
    requires Word(x, p, w) != Word(x, q, w)
    ensures m == Common(x, p, q, n)
  {
    hide Common, Word, LowBit, Xor, Pow2;
    WordCompared(x, p, q, n, w);
    var v := Xor(Word(x, p, w), Word(x, q, w));
    var bits;
    if w == 8 {
      bits := FindLSBSetNonZero64(v);
    } else {
      bits := FindLSBSetNonZero(v);
    }
    m := bits / 8;
  }

  /** FindMatchLength where 64-bit words are loaded. */
  method FindMatchLength64(x: seq<byte>, s1: nat, s2: nat, limit: nat) returns (matched: nat)
    requires s1 <= s2 <= limit <= |x|
    ensures matched == Common(x, s2, s1, limit - s2)
  {
    hide Common, Word, LowBit, Xor, Pow2;
    matched := 0;
    while s2 + matched + 8 <= limit
      invariant s2 + matched <= limit
      invariant Common(x, s2, s1, limit - s2) == matched + Common(x, s2 + matched, s1 + matched, limit - s2 - matched)
    {
      var p, q := s2 + matched, s1 + matched;
      if Word(x, p, 8) == Word(x, q, 8) {
        WordCompared(x, p, q, limit - s2 - matched, 8);
        matched := matched + 8;
      } else {
        var m := ScanWord(x, p, q, limit - s2 - matched, 8);
        return matched + m;
      }
    }
    matched := ByteTail(x, s1, s2, limit, matched);
  }

  lemma TwoWords()
    ensures Pow2(32) == WORD && Pow2(64) == WORD * WORD
  {
    WordIsPow2();
    hide Pow2;
    Pow2Add(32, 32);
  }

  /** Byte by byte to the first difference. */
  method ByteTail(x: seq<byte>, s1: nat, s2: nat, limit: nat, m0: nat) returns (matched: nat)
    requires s1 <= s2 && s2 + m0 <= limit <= |x|
    ensures matched == m0 + Common(x, s2 + m0, s1 + m0, limit - s2 - m0)
  {
    matched := m0;
    while s2 + matched < limit && x[s1 + matched] == x[s2 + matched]
      invariant m0 <= matched && s2 + matched <= limit
      invariant m0 + Common(x, s2 + m0, s1 + m0, limit - s2 - m0)
             == matched + Common(x, s2 + matched, s1 + matched, limit - s2 - matched)
    {
      matched := matched + 1;
    }
  }

  /** FindMatchLength where 32-bit words are loaded; the bit scan only on little-endian machines. */
  method FindMatchLength32(x: seq<byte>, s1: nat, s2: nat, limit: nat, littleEndian: bool) returns (matched: nat)
    requires s1 <= s2 <= limit <= |x|
    ensures matched == Common(x, s2, s1, limit - s2)
  {
    hide Common, Word, LowBit, Xor, Pow2;
    matched := 0;
    while s2 + matched + 4 <= limit && Word(x, s2 + matched, 4) == Word(x, s1 + matched, 4)
      invariant s2 + matched <= limit
      invariant Common(x, s2, s1, limit - s2) == matched + Common(x, s2 + matched, s1 + matched, limit - s2 - matched)
    {
      WordCompared(x, s2 + matched, s1 + matched, limit - s2 - matched, 4);
      matched := matched + 4;
    }
    if littleEndian && s2 + matched + 4 <= limit {
      var p, q := s2 + matched, s1 + matched;
      var m := ScanWord(x, p, q, limit - s2 - matched, 4);
      matched := matched + m;
    } else {
      matched := ByteTail(x, s1, s2, limit, matched);
    }
  }
}
