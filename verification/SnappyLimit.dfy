/** An input of fewer than 2^32 bytes that is compressed to more: decompressing the flat result never ends. */
module SnappyLimit {
  import opened Bytes
  import opened SnappyFormat
  import opened SnappyParse
  import opened SnappyReader
  import opened SnappySource

  /** No four bytes occur twice. */
  ghost predicate NoRepeat(x: seq<byte>) {
    forall i, j :: 0 <= j < i && i + 4 <= |x| ==> !Same4(x, i, j)
  }

  /** Without repetitions no candidate matches, whatever the hash. */
  lemma {:induction false} SearchMisses(h: Hash, x: seq<byte>, limit: nat, ip: nat, skip: nat, table: Table)
    requires limit + MARGIN == |x| <= BLOCK_SIZE && 32 <= skip && 1 <= ip && Before(table, ip) && NoRepeat(x)
    ensures Search(h, x, limit, ip, skip, table) == Miss
    decreases |x| - ip
  {
    hide Same4, Slot;
    var next := ip + skip / 32;
    if next <= limit {
      var k := Slot(h, x, ip, |table|);
      assert !Same4(x, ip, table[k]);
      SearchMisses(h, x, limit, next, skip + 1, table[k := ip]);
    }
  }

  /** Such a block becomes one literal, behind three bytes. */
  lemma BlockGrows(h: Hash, x: seq<byte>)
    requires 0x101 <= |x| <= BLOCK_SIZE && NoRepeat(x)
    ensures |BlockCode(h, x)| == |x| + 3
  {
    hide Search, TableSize, NoRepeat;
    SearchMisses(h, x, |x| - MARGIN, 1, 32, ClearTable(TableSize(|x|)));
    var els := ParseBlock(h, x);
    assert x[0..] == x && els == [Literal(x)];
    assert els[1..] == [] && Encode(els) == LiteralHead(|x|) + x + Encode([]);
    HeadOfThree(|x|);
  }

  lemma HeadOfThree(len: nat)
    requires 0x101 <= len <= BLOCK_SIZE
    ensures |LiteralHead(len)| == 3
  {
    var n := len - 1;
    assert LittleEndian(n) == [n % 0x100] + LittleEndian(n / 0x100);
    assert LittleEndian(n / 0x100) == [n / 0x100 % 0x100] + LittleEndian(0);
  }

  // ------------------------------------------------------------------- the input

  /** The numbers from 0 on, two bytes each, the higher one first. */
  function Digit(k: nat): byte
    requires k < 0x1_0000
  {
    var i := k / 2;
    if k % 2 == 0 then i / 0x100 else i % 0x100
  }

  /** `n` bytes that count again in every block. */
  function Counting(n: nat): (x: seq<byte>)
    ensures |x| == n && forall k :: 0 <= k < n ==> x[k] == Digit(k % BLOCK_SIZE)
  {
    seq(n, k requires 0 <= k < n => Digit(k % BLOCK_SIZE))
  }

  lemma DigitPair(a: nat)
    requires a < 0x8000
    ensures Digit(2 * a) == a / 0x100 && Digit(2 * a + 1) == a % 0x100
  {
    assert 2 * a / 2 == a && (2 * a + 1) / 2 == a;
  }

  /** Three bytes in a row differ from the three at any other place of the block. */
  lemma DigitsDiffer(i: nat, j: nat)
    requires j < i && i + 3 <= 0x1_0000
    ensures Digit(i) != Digit(j) || Digit(i + 1) != Digit(j + 1) || Digit(i + 2) != Digit(j + 2)
  {
    hide Digit;
    var a, b := i / 2, j / 2;
    DigitPair(a);
    DigitPair(b);
    if i % 2 == 0 && j % 2 == 0 {
      PairsDiffer(a, b);
    } else {
      DigitPair(a + 1);
      DigitPair(b + 1);
      if i % 2 == j % 2 {
        PairsDiffer(a + 1, b + 1);
      } else if i % 2 == 0 {
        OddEven(a, b);
      } else {
        OddEven(b, a);
      }
    }
  }

  lemma PairsDiffer(a: nat, b: nat)
    requires a != b
    ensures a / 0x100 != b / 0x100 || a % 0x100 != b % 0x100
  {
  }

  /** A pair and the byte behind it are not the middle of two other pairs. */
  lemma OddEven(a: nat, i: nat)
    requires a < 0x8000 && i + 1 < 0x8000
    ensures a / 0x100 != i % 0x100 || a % 0x100 != (i + 1) / 0x100 || (a + 1) / 0x100 != (i + 1) % 0x100
  {
    var u, v := a / 0x100, a % 0x100;
    if u == i % 0x100 && v == (i + 1) / 0x100 {
      assert i == 0x100 * (i / 0x100) + u;
      assert v < 0x80;
    }
  }

  /** A block of the input has no repetitions, as long as it starts where the counting does. */
  lemma BlockCounts(x: seq<byte>, n: nat, p: nat, q: nat)
    requires x == Counting(n) && p % BLOCK_SIZE == 0 && p <= q <= n && q - p <= BLOCK_SIZE
    ensures NoRepeat(x[p..q])
  {
    hide Digit;
    var b := x[p..q];
    forall k | 0 <= k < |b| ensures b[k] == Digit(k) {
      assert (p + k) % BLOCK_SIZE == k;
    }
    forall i, j | 0 <= j < i && i + 4 <= |b| ensures !Same4(b, i, j) {
      DigitsDiffer(i, j);
    }
  }

  /** Every block costs three bytes more than it holds. */
  lemma {:induction false} BodyGrows(h: Hash, n: nat, p: nat)
    requires p <= n && p % BLOCK_SIZE == 0 && (n % BLOCK_SIZE == 0 || n % BLOCK_SIZE >= 0x101)
    ensures |Body(h, Counting(n), p)| == n - p + 3 * ((n - p + BLOCK_SIZE - 1) / BLOCK_SIZE)
    decreases n - p
  {
    hide BlockCode, Counting, NoRepeat;
    var x := Counting(n);
    if p < n {
      var q := if n - p < BLOCK_SIZE then n else p + BLOCK_SIZE;
      assert q - p >= 0x101;
      BlockCounts(x, n, p, q);
      BlockGrows(h, x[p..q]);
      if q < n {
        BodyGrows(h, n, q);
      } else {
        assert Body(h, x, q) == [];
      }
    }
  }

  /**
   * Just below 2^32 bytes there is, for every hash, an input whose compressed form, given back as one
   * buffer, is never uncompressed: the blocks take 2^32 + 196607 bytes.
   */
  lemma NeverComesBack(h: Hash)
    ensures (var x := Counting(0xffff_ffff);
             && |x| < 0x1_0000_0000 && |Body(h, x, 0)| == 0x1_0000_0000 + 196607
             && Run(OneRegion(Compressed(h, x))) == Endless)
  {
    hide Run, Compressed, Body, OneRegion;
    BodyGrows(h, 0xffff_ffff, 0);
    RoundTripExactly(h, Counting(0xffff_ffff));
  }
}
