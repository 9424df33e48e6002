/** Words of bytes: powers of two, the positions of bits, exclusive or, and both byte orders. */
module Words {
  import opened Bytes
  import opened Lz77

  /** 2 to the power `k`. */
  function Pow2(k: nat): (p: nat)
    ensures p >= 1
  {
    if k == 0 then 1 else 2 * Pow2(k - 1)
  }

  lemma {:induction false} Pow2Add(j: nat, k: nat)
    ensures Pow2(j + k) == Pow2(j) * Pow2(k)
    decreases j
  {
    if j != 0 {
      Pow2Add(j - 1, k);
      assert 2 * Pow2(j - 1) * Pow2(k) == 2 * (Pow2(j - 1) * Pow2(k));
    }
  }

  /** The index of the highest set bit. */
  function Log2(n: nat): (r: nat)
    requires n > 0
  {
    if n == 1 then 0 else 1 + Log2(n / 2)
  }

  lemma {:induction false} Log2Means(n: nat)
    requires n > 0
    ensures Pow2(Log2(n)) <= n < Pow2(Log2(n) + 1)
    decreases n
  {
    if n > 1 {
      Log2Means(n / 2);
    }
  }

  /** The index of the lowest set bit. */
  function LowBit(n: nat): (r: nat)
    requires n > 0
  {
    if n % 2 == 1 then 0 else 1 + LowBit(n / 2)
  }

  lemma {:induction false} LowBitBelow(n: nat, k: nat)
    requires 0 < n < Pow2(k)
    ensures LowBit(n) < k
    decreases k
  {
    if n % 2 == 0 {
      LowBitBelow(n / 2, k - 1);
    }
  }

  /** The low bit of a number in two parts. */
  lemma {:induction false} LowBitJoin(low: nat, high: nat, k: nat)
    requires low < Pow2(k) && low + high * Pow2(k) > 0
    ensures LowBit(low + high * Pow2(k)) == if low != 0 then LowBit(low) else k + LowBit(high)
    ensures low != 0 ==> LowBit(low) < k
    decreases k
  {
    if k == 0 {
      assert high * Pow2(0) == high;
    } else {
      var n := low + high * Pow2(k);
      assert high * Pow2(k) == 2 * (high * Pow2(k - 1));
      assert n / 2 == low / 2 + high * Pow2(k - 1) && n % 2 == low % 2;
      if low % 2 == 0 {
        LowBitJoin(low / 2, high, k - 1);
      }
    }
  }

  const WORD := 0x1_0000_0000

  lemma WordIsPow2()
    ensures Pow2(32) == WORD
    ensures Pow2(1) == 2 && Pow2(2) == 4 && Pow2(4) == 16 && Pow2(8) == 0x100 && Pow2(16) == 0x1_0000
    ensures Pow2(31) == 0x8000_0000 && Pow2(30) == 0x4000_0000 && Pow2(28) == 0x1000_0000 && Pow2(24) == 0x100_0000
  {
    assert Pow2(1) == 2 && Pow2(2) == 4 && Pow2(4) == 16;
    hide Pow2;
    Pow2Add(4, 4);
    Pow2Add(8, 8);
    Pow2Add(16, 8);
    Pow2Add(24, 4);
    Pow2Add(28, 2);
    Pow2Add(30, 1);
    Pow2Add(31, 1);
  }

  // ------------------------------------------------------------- comparing words

  /** The exclusive or of two numbers. */
  function Xor(a: nat, b: nat): nat
    decreases a + b
  {
    if a == 0 && b == 0 then 0 else (a % 2 + b % 2) % 2 + 2 * Xor(a / 2, b / 2)
  }

  lemma {:induction false} XorZero(a: nat, b: nat)
    ensures Xor(a, b) == 0 <==> a == b
    decreases a + b
  {
    if a != 0 || b != 0 {
      XorZero(a / 2, b / 2);
    }
  }

  /** The exclusive or of two numbers in two parts each. */
  lemma {:induction false} XorJoin(a: nat, b: nat, high: nat, high': nat, k: nat)
    requires a < Pow2(k) && b < Pow2(k)
    ensures Xor(a, b) < Pow2(k)
    ensures Xor(a + high * Pow2(k), b + high' * Pow2(k)) == Xor(a, b) + Xor(high, high') * Pow2(k)
    decreases k
  {
    if k == 0 {
      assert high * Pow2(0) == high && high' * Pow2(0) == high' && Xor(high, high') * Pow2(0) == Xor(high, high');
    } else {
      XorJoin(a / 2, b / 2, high, high', k - 1);
      XorStep(a, b);
      XorJoinStep(a, b, high, high', Pow2(k - 1));
    }
  }

  lemma XorJoinStep(a: nat, b: nat, high: nat, high': nat, p: nat)
    requires Xor(a / 2 + high * p, b / 2 + high' * p) == Xor(a / 2, b / 2) + Xor(high, high') * p
    ensures Xor(a + high * (2 * p), b + high' * (2 * p)) == Xor(a, b) + Xor(high, high') * (2 * p)
  {
    hide Xor;
    XorStep(a + high * (2 * p), b + high' * (2 * p));
    XorStep(a, b);
    Halved(a, high, p);
    Halved(b, high', p);
    var v := Xor(high, high');
    assert v * (2 * p) == 2 * (v * p);
  }

  lemma XorStep(a: nat, b: nat)
    ensures Xor(a, b) == (a % 2 + b % 2) % 2 + 2 * Xor(a / 2, b / 2)
  {
  }

  lemma Halved(a: nat, high: nat, p: nat)
    ensures (a + high * (2 * p)) / 2 == a / 2 + high * p && (a + high * (2 * p)) % 2 == a % 2
  {
    assert high * (2 * p) == 2 * (high * p);
  }

  /** A little-endian word of `w` bytes. */
  function Word(x: seq<byte>, i: nat, w: nat): (v: nat)
    requires i + w <= |x|
    decreases w
  {
    if w == 0 then 0 else x[i] + Word(x, i + 1, w - 1) * 0x100
  }

  lemma {:induction false} WordBelow(x: seq<byte>, i: nat, w: nat)
    requires i + w <= |x|
    ensures Word(x, i, w) < Pow2(8 * w)
    decreases w
  {
    if w != 0 {
      WordBelow(x, i + 1, w - 1);
      Pow2Add(8, 8 * (w - 1));
      WordIsPow2();
      assert 8 + 8 * (w - 1) == 8 * w;
    }
  }

  /** Words are equal when their bytes are; otherwise the lowest differing bit lies in the first differing byte. */
  lemma {:induction false} WordsDiffer(x: seq<byte>, a: nat, b: nat, w: nat)
    requires a + w <= |x| && b + w <= |x|
    ensures Word(x, a, w) == Word(x, b, w) <==> Common(x, a, b, w) == w
    ensures (var v := Xor(Word(x, a, w), Word(x, b, w));
             Common(x, a, b, w) < w ==> v > 0 && LowBit(v) / 8 == Common(x, a, b, w))
    decreases w
  {
    hide LowBit, Xor;
    if w != 0 {
      WordsDiffer(x, a + 1, b + 1, w - 1);
      FirstByte(x[a], x[b], Word(x, a + 1, w - 1), Word(x, b + 1, w - 1));
    }
  }

  /** The lowest byte of two words, and what is above it. */
  lemma FirstByte(a: byte, b: byte, h: nat, h': nat)
    ensures a + h * 0x100 == b + h' * 0x100 <==> a == b && h == h'
    ensures (var v := Xor(a + h * 0x100, b + h' * 0x100);
             && (a != b ==> v > 0 && LowBit(v) / 8 == 0)
             && (a == b && Xor(h, h') > 0 ==> v > 0 && LowBit(v) / 8 == 1 + LowBit(Xor(h, h')) / 8))
  {
    hide LowBit, Xor, Pow2;
    XorZero(a, b);
    WordIsPow2();
    XorJoin(a, b, h, h', 8);
    LowByte(Xor(a, b), Xor(h, h'));
  }

  lemma LowByte(low: nat, high: nat)
    requires low < 0x100
    ensures low > 0 ==> LowBit(low + high * 0x100) / 8 == 0
    ensures low == 0 && high > 0 ==> LowBit(low + high * 0x100) / 8 == 1 + LowBit(high) / 8
  {
    assert Pow2(8) == 0x100;
    hide LowBit, Pow2;
    if low > 0 || high > 0 {
      LowBitJoin(low, high, 8);
    }
  }

  // ------------------------------------------------------------- the other byte order

  /** A word of `w` bytes: `top` is the highest, `low` what is below it. */
  function Above(low: nat, top: nat, w: nat): nat
    requires w >= 1
  {
    low + top * Pow2(8 * (w - 1))
  }

  /** A big-endian word of `w` bytes. */
  function BigWord(x: seq<byte>, i: nat, w: nat): (v: nat)
    requires i + w <= |x|
    decreases w
  {
    if w == 0 then 0 else Above(BigWord(x, i + 1, w - 1), x[i], w)
  }

  lemma AboveRange(low: nat, top: nat, w: nat)
    requires w >= 1 && low < Pow2(8 * (w - 1)) && top < 0x100
    ensures Above(low, top, w) < Pow2(8 * w)
    ensures if top == 0 then Above(low, top, w) == low else Above(low, top, w) >= Pow2(8 * (w - 1))
  {
    TopByte(w);
    hide Pow2;
    MultipleFar(top, 0x100, Pow2(8 * (w - 1)));
    if top > 0 {
      MultipleFar(0, top, Pow2(8 * (w - 1)));
    }
  }

  lemma AboveXor(l: nat, l': nat, a: nat, b: nat, w: nat)
    requires w >= 1 && l < Pow2(8 * (w - 1)) && l' < Pow2(8 * (w - 1))
    ensures Xor(l, l') < Pow2(8 * (w - 1))
    ensures Xor(Above(l, a, w), Above(l', b, w)) == Above(Xor(l, l'), Xor(a, b), w)
  {
    hide Xor, Pow2;
    XorJoin(l, l', a, b, 8 * (w - 1));
  }

  lemma {:induction false} BigWordBelow(x: seq<byte>, i: nat, w: nat)
    requires i + w <= |x|
    ensures BigWord(x, i, w) < Pow2(8 * w)
    decreases w
  {
    if w == 0 {
      assert Pow2(0) == 1;
    } else {
      hide Above, Pow2;
      BigWordBelow(x, i + 1, w - 1);
      AboveRange(BigWord(x, i + 1, w - 1), x[i], w);
    }
  }

  lemma TopByte(w: nat)
    requires w >= 1
    ensures Pow2(8 * w) == 0x100 * Pow2(8 * (w - 1))
  {
    Pow2Add(8, 8 * (w - 1));
    WordIsPow2();
    assert 8 + 8 * (w - 1) == 8 * w;
  }

  /** The highest set bit lies at or above `k` exactly when the number does not fit `k` bits. */
  lemma {:induction false} Log2Below(v: nat, k: nat)
    requires v > 0
    ensures v < Pow2(k) <==> Log2(v) < k
    decreases k
  {
    if k > 0 {
      if v > 1 {
        Log2Below(v / 2, k - 1);
      }
    }
  }

  /** How many whole bytes of `w` lie above the highest set bit. */
  function LeadingBytes(v: nat, w: nat): (n: int)
    requires v > 0
  {
    (8 * w - 1 - Log2(v)) / 8
  }

  /** Words are equal when their bytes are; otherwise the highest differing bit lies in the first differing byte. */
  lemma {:induction false} BigWordsDiffer(x: seq<byte>, a: nat, b: nat, w: nat)
    requires a + w <= |x| && b + w <= |x|
    ensures BigWord(x, a, w) == BigWord(x, b, w) <==> Common(x, a, b, w) == w
    ensures (var v := Xor(BigWord(x, a, w), BigWord(x, b, w));
             v < Pow2(8 * w) && (Common(x, a, b, w) < w ==> v > 0 && LeadingBytes(v, w) == Common(x, a, b, w)))
    decreases w
  {
    if w == 0 {
      assert Pow2(0) == 1;
    } else {
      CommonFirst(x, a, b, w);
      hide Xor, Pow2, LeadingBytes, Above, Common;
      var l, l' := BigWord(x, a + 1, w - 1), BigWord(x, b + 1, w - 1);
      BigWordBelow(x, a + 1, w - 1);
      BigWordBelow(x, b + 1, w - 1);
      BigWordsDiffer(x, a + 1, b + 1, w - 1);
      FirstDiffers(l, l', x[a], x[b], w);
    }
  }

  lemma CommonFirst(x: seq<byte>, a: nat, b: nat, n: nat)
    requires a + n <= |x| && b + n <= |x| && n > 0
    ensures Common(x, a, b, n) == if x[a] != x[b] then 0 else 1 + Common(x, a + 1, b + 1, n - 1)
  {
  }

  /** The highest byte of two words, and what is below it. */
  lemma FirstDiffers(l: nat, l': nat, a: byte, b: byte, w: nat)
    requires w >= 1 && l < Pow2(8 * (w - 1)) && l' < Pow2(8 * (w - 1))
    ensures (var v := Xor(Above(l, a, w), Above(l', b, w));
             && v < Pow2(8 * w)
             && (Above(l, a, w) == Above(l', b, w) <==> a == b && l == l')
             && (a != b ==> v > 0 && LeadingBytes(v, w) == 0)
             && (a == b && Xor(l, l') > 0 ==>
                   v > 0 && LeadingBytes(v, w) == 1 + LeadingBytes(Xor(l, l'), w - 1)))
  {
    hide Xor, Pow2, LeadingBytes, Above;
    AboveXor(l, l', a, b, w);
    XorBytes(a, b);
    XorZero(l, l');
    XorZero(Above(l, a, w), Above(l', b, w));
    AboveRange(Xor(l, l'), Xor(a, b), w);
    TopDiffers(Above(Xor(l, l'), Xor(a, b), w), Xor(l, l'), Xor(a, b), w);
  }

  lemma XorBytes(a: byte, b: byte)
    ensures Xor(a, b) < 0x100 && (Xor(a, b) == 0 <==> a == b)
  {
    assert Pow2(8) == 0x100 by {
      WordIsPow2();
    }
    hide Xor, Pow2;
    XorJoin(a, b, 0, 0, 8);
    XorZero(a, b);
  }

  /** The highest bit of a word lies in its top byte, or in the rest. */
  lemma TopDiffers(v: nat, l: nat, t: nat, w: nat)
    requires w >= 1 && v < Pow2(8 * w) && if t == 0 then v == l else v >= Pow2(8 * (w - 1))
    ensures t > 0 ==> v > 0 && LeadingBytes(v, w) == 0
    ensures t == 0 && l > 0 ==> LeadingBytes(v, w) == 1 + LeadingBytes(l, w - 1)
  {
    hide Pow2, Log2;
    if v > 0 {
      Log2Below(v, 8 * w);
      Log2Below(v, 8 * (w - 1));
    }
  }

  // ------------------------------------------------------------------- shifting bytes

  /** Moving a byte out at the low end. */
  lemma LowByteOut(v: nat)
    requires v > 0
    ensures v % 0x100 == 0 ==> v / 0x100 > 0 && LowBit(v) / 8 == 1 + LowBit(v / 0x100) / 8
    ensures v % 0x100 != 0 ==> LowBit(v) / 8 == 0
  {
    hide LowBit;
    assert v == v % 0x100 + v / 0x100 * 0x100;
    LowByte(v % 0x100, v / 0x100);
  }

  /** Moving a byte out at the high end. */
  lemma HighByteOut(v: nat, w: nat)
    requires w >= 1 && 0 < v < Pow2(8 * w)
    ensures v < Pow2(8 * (w - 1)) ==> 0 < v * 0x100 < Pow2(8 * w)
                                      && LeadingBytes(v, w) == 1 + LeadingBytes(v * 0x100, w)
    ensures v >= Pow2(8 * (w - 1)) ==> LeadingBytes(v, w) == 0
  {
    TopByte(w);
    Log2Below(v, 8 * w);
    Log2Below(v, 8 * (w - 1));
    Log2Byte(v);
  }

  lemma Log2Byte(v: nat)
    requires v > 0
    ensures Log2(v * 0x100) == Log2(v) + 8
  {
    Log2Double(v);
    Log2Double(2 * v);
    Log2Double(4 * v);
    Log2Double(8 * v);
    Log2Double(16 * v);
    Log2Double(32 * v);
    Log2Double(64 * v);
    Log2Double(128 * v);
  }

  lemma Log2Double(v: nat)
    requires v > 0
    ensures Log2(2 * v) == Log2(v) + 1
  {
  }

  // -------------------------------------------------------------------------- loading

  /** A word in either byte order. */
  function Loaded(x: seq<byte>, i: nat, w: nat, big: bool): nat
    requires i + w <= |x|
  {
    if big then BigWord(x, i, w) else Word(x, i, w)
  }

  lemma {:induction false} SameBytes(s: seq<byte>, i: nat, t: seq<byte>, j: nat, w: nat)
    requires i + w <= |s| && j + w <= |t| && s[i..i + w] == t[j..j + w]
    ensures Word(s, i, w) == Word(t, j, w) && BigWord(s, i, w) == BigWord(t, j, w)
    decreases w
  {
    if w != 0 {
      assert s[i] == s[i..i + w][0] && t[j] == t[j..j + w][0];
      assert s[i + 1..i + w] == s[i..i + w][1..] && t[j + 1..j + w] == t[j..j + w][1..];
      SameBytes(s, i + 1, t, j + 1, w - 1);
    }
  }

  /** How many bytes two words agree in, from where their exclusive or has its first set bit. */
  lemma AgreeingBytes(x: seq<byte>, p: nat, q: nat, w: nat, big: bool)
    requires p + w <= |x| && q + w <= |x|
    ensures (var v := Xor(Loaded(x, p, w, big), Loaded(x, q, w, big));
             && v < Pow2(8 * w) && (v == 0 <==> Common(x, p, q, w) == w)
             && (v > 0 ==> Common(x, p, q, w) == if big then LeadingBytes(v, w) else LowBit(v) / 8))
  {
    hide Common, Word, BigWord, LowBit, Xor, Pow2, LeadingBytes;
    XorZero(Loaded(x, p, w, big), Loaded(x, q, w, big));
    if big {
      BigWordsDiffer(x, p, q, w);
    } else {
      WordsDiffer(x, p, q, w);
      WordBelow(x, p, w);
      WordBelow(x, q, w);
      XorJoin(Word(x, p, w), Word(x, q, w), 0, 0, 8 * w);
    }
  }
}
