/** lzo_adler32: sums reduced once per 5552 bytes, against the bytewise definition of section 8.2 of RFC 1950. */
module Adler32 {
  import opened Bytes

  const BASE := 65521
  const NMAX := 5552

  newtype uint32 = v: int | 0 <= v < 0x1_0000_0000

  datatype Sums = Sums(s1: nat, s2: nat)

  /** One byte, both sums reduced at once. */
  function Step(s: Sums, b: byte): (r: Sums)
    ensures r.s1 < BASE && r.s2 < BASE
  {
    Sums((s.s1 + b) % BASE, (s.s2 + s.s1 + b) % BASE)
  }

  /** The definition: one byte after the other. */
  function Digest(s: Sums, buf: seq<byte>): Sums
    decreases |buf|
  {
    if buf == [] then s else Digest(Step(s, buf[0]), buf[1..])
  }

  function Unpack(adler: uint32): (s: Sums)
    ensures s.s1 < 0x1_0000 && s.s2 < 0x1_0000
  {
    Sums(adler as int % 0x1_0000, adler as int / 0x1_0000 % 0x1_0000)
  }

  function Pack(s: Sums): (adler: uint32)
    requires s.s1 < 0x1_0000 && s.s2 < 0x1_0000
    ensures Unpack(adler) == s
  {
    (s.s2 * 0x1_0000 + s.s1) as uint32
  }

  lemma {:induction false} DigestBounded(s: Sums, buf: seq<byte>)
    requires s.s1 < 0x1_0000 && s.s2 < 0x1_0000
    ensures Digest(s, buf).s1 < 0x1_0000 && Digest(s, buf).s2 < 0x1_0000
    decreases |buf|
  {
    if buf != [] {
      DigestBounded(Step(s, buf[0]), buf[1..]);
    }
  }

  /** The checksum of `buf` continued from `adler`. */
  function Adler(adler: uint32, buf: seq<byte>): uint32 {
    DigestBounded(Unpack(adler), buf);
    Pack(Digest(Unpack(adler), buf))
  }

  lemma {:induction false} DigestAppend(s: Sums, x: seq<byte>, y: seq<byte>)
    ensures Digest(s, x + y) == Digest(Digest(s, x), y)
    decreases |x|
  {
    if x == [] {
      assert x + y == y;
    } else {
      assert (x + y)[1..] == x[1..] + y;
      DigestAppend(Step(s, x[0]), x[1..], y);
    }
  }

  /** Checksums compose. */
  lemma AdlerAppend(adler: uint32, x: seq<byte>, y: seq<byte>)
    ensures Adler(Adler(adler, x), y) == Adler(adler, x + y)
  {
    DigestBounded(Unpack(adler), x);
    DigestAppend(Unpack(adler), x, y);
  }

  // ------------------------------------------------------------ deferred reduction

  /** The same sums without any reduction. */
  function Raw(s: Sums, buf: seq<byte>): Sums
    decreases |buf|
  {
    if buf == [] then s
    else
      var r := Raw(s, buf[..|buf| - 1]);
      Sums(r.s1 + buf[|buf| - 1], r.s2 + r.s1 + buf[|buf| - 1])
  }

  /** How large the second sum can grow in `k` bytes from 65535. */
  function Bound(k: nat): nat {
    if k == 0 then 65535 else Bound(k - 1) + 65535 + 255 * k
  }

  lemma {:induction false} RawBounded(s: Sums, buf: seq<byte>)
    requires s.s1 < 0x1_0000 && s.s2 < 0x1_0000
    ensures Raw(s, buf).s1 <= 65535 + 255 * |buf| && Raw(s, buf).s2 <= Bound(|buf|)
    decreases |buf|
  {
    if buf != [] {
      RawBounded(s, buf[..|buf| - 1]);
    }
  }

  lemma {:induction false} BoundClosed(k: nat)
    ensures 2 * Bound(k) == 2 * 65535 + 2 * 65535 * k + 255 * (k * (k + 1))
    decreases k
  {
    if k != 0 {
      BoundClosed(k - 1);
      assert (k - 1) * k + 2 * k == k * (k + 1);
    }
  }

  lemma {:induction false} BoundMonotone(j: nat, k: nat)
    requires j <= k
    ensures Bound(j) <= Bound(k)
    decreases k
  {
    if j < k {
      BoundMonotone(j, k - 1);
    }
  }

  /** NMAX bytes still fit 32 bits, from any two 16-bit sums. */
  lemma NoOverflow(s: Sums, buf: seq<byte>)
    requires s.s1 < 0x1_0000 && s.s2 < 0x1_0000 && |buf| <= NMAX
    ensures Raw(s, buf).s1 < 0x1_0000_0000 && Raw(s, buf).s2 < 0x1_0000_0000
  {
    RawBounded(s, buf);
    BoundClosed(NMAX);
    BoundMonotone(|buf|, NMAX);
  }

  lemma ModAdd(a: nat, b: nat)
    ensures (a % BASE + b) % BASE == (a + b) % BASE
  {
    assert a == BASE * (a / BASE) + a % BASE;
    ModMultiple(a % BASE + b, a / BASE);
  }

  lemma {:induction false} ModMultiple(a: nat, q: nat)
    ensures (a + BASE * q) % BASE == a % BASE
    decreases q
  {
    if q != 0 {
      ModMultiple(a, q - 1);
      assert a + BASE * q == (a + BASE * (q - 1)) + BASE;
    }
  }

  lemma StepReduced(s: Sums, b: byte)
    ensures Step(Sums(s.s1 % BASE, s.s2 % BASE), b) == Step(s, b)
  {
    ModAdd(s.s1, b);
    ModAdd(s.s2, s.s1 % BASE + b);
    ModAdd(s.s1, s.s2 + b);
  }

  /** Reducing at the end gives what reducing at every byte gives. */
  lemma {:induction false} RawReduces(s: Sums, buf: seq<byte>)
    requires buf != []
    ensures Digest(s, buf) == Sums(Raw(s, buf).s1 % BASE, Raw(s, buf).s2 % BASE)
    decreases |buf|
  {
    var init := buf[..|buf| - 1];
    var b := buf[|buf| - 1];
    DigestSnoc(s, init, b);
    assert buf == init + [b];
    RawLast(s, buf);
    hide Digest, Raw, Step;
    if init == [] {
      DigestNothing(s);
    } else {
      RawReduces(s, init);
      StepReduced(Raw(s, init), b);
    }
  }

  lemma RawLast(s: Sums, buf: seq<byte>)
    requires buf != []
    ensures (var r := Raw(s, buf[..|buf| - 1]);
             var b := buf[|buf| - 1];
             Step(r, b) == Sums(Raw(s, buf).s1 % BASE, Raw(s, buf).s2 % BASE))
  {
    RawTurn(s, buf);
    hide Raw;
  }

  // ----------------------------------------------------------------- the closed form

  /** The sum of the bytes. */
  function ByteSum(buf: seq<byte>): nat
    decreases |buf|
  {
    if buf == [] then 0 else buf[0] + ByteSum(buf[1..])
  }

  /** The sum of the bytes, the first counted |buf| times and the last once. */
  function WeightedSum(buf: seq<byte>): nat
    decreases |buf|
  {
    if buf == [] then 0 else |buf| * buf[0] + WeightedSum(buf[1..])
  }

  lemma {:induction false} SumsSnoc(x: seq<byte>, b: byte)
    ensures ByteSum(x + [b]) == ByteSum(x) + b
    ensures WeightedSum(x + [b]) == WeightedSum(x) + ByteSum(x) + b
    decreases |x|
  {
    if x == [] {
      assert [b][1..] == [];
      assert x + [b] == [b];
    } else {
      assert (x + [b])[1..] == x[1..] + [b];
      SumsSnoc(x[1..], b);
    }
  }

  lemma RawTurn(s: Sums, buf: seq<byte>)
    requires buf != []
    ensures (var r, b := Raw(s, buf[..|buf| - 1]), buf[|buf| - 1];
             Raw(s, buf) == Sums(r.s1 + b, r.s2 + r.s1 + b))
  {
  }

  lemma {:induction false} RawClosed(s: Sums, buf: seq<byte>)
    ensures Raw(s, buf).s1 == s.s1 + ByteSum(buf)
    ensures Raw(s, buf).s2 == s.s2 + |buf| * s.s1 + WeightedSum(buf)
    decreases |buf|
  {
    if buf == [] {
      assert |buf| * s.s1 == 0;
    } else {
      hide Raw, ByteSum, WeightedSum;
      var init, b := buf[..|buf| - 1], buf[|buf| - 1];
      RawTurn(s, buf);
      RawClosed(s, init);
      SumsSnoc(init, b);
      assert init + [b] == buf;
      assert |buf| * s.s1 == |init| * s.s1 + s.s1;
    }
  }

  /** The two halves of a checksum. */
  lemma HalvesOf(s: Sums)
    requires s.s1 < 0x1_0000 && s.s2 < 0x1_0000
    ensures Pack(s) as int % 65536 == s.s1 && Pack(s) as int / 65536 == s.s2
  {
  }

  /** What the checksum of `buf` from `adler` on is: two sums modulo the largest prime below 2^16. */
  ghost predicate SumsUp(adler: uint32, buf: seq<byte>, r: uint32) {
    var a, b := adler as int % 65536, adler as int / 65536;
    if buf == [] then r == adler
    else
      && r as int % 65536 == (a + ByteSum(buf)) % 65521
      && r as int / 65536 == (b + |buf| * a + WeightedSum(buf)) % 65521
  }

  /** The checksum without any running sums. */
  lemma AdlerClosed(adler: uint32, buf: seq<byte>)
    ensures SumsUp(adler, buf, Adler(adler, buf))
  {
    hide Digest, Raw, ByteSum, WeightedSum;
    var s := Unpack(adler);
    assert s == Sums(adler as int % 65536, adler as int / 65536);
    DigestBounded(s, buf);
    if buf == [] {
      DigestNothing(s);
    } else {
      RawReduces(s, buf);
      RawClosed(s, buf);
      var r := Raw(s, buf);
      HalvesOf(Sums(r.s1 % 65521, r.s2 % 65521));
      hide Pack, Unpack;
    }
  }

  lemma DigestSnoc(s: Sums, x: seq<byte>, b: byte)
    ensures Digest(s, x + [b]) == Step(Digest(s, x), b)
  {
    DigestAppend(s, x, [b]);
  }

  /** LZO_DO1, `n` times. */
  method Sum(s1: uint32, s2: uint32, buf: array<byte>, ghost start: nat, p: nat, n: nat, ghost s: Sums)
    returns (r1: uint32, r2: uint32)
    requires start <= p && p + n <= buf.Length && p + n - start <= NMAX
    requires s.s1 < 0x1_0000 && s.s2 < 0x1_0000 && Sums(s1 as int, s2 as int) == Raw(s, buf[start..p])
    ensures Sums(r1 as int, r2 as int) == Raw(s, buf[start..p + n])
  {
    r1, r2 := s1, s2;
    for i := 0 to n
      invariant Sums(r1 as int, r2 as int) == Raw(s, buf[start..p + i])
    {
      NoOverflow(s, buf[start..p + i + 1]);
      assert buf[start..p + i + 1][..p + i - start] == buf[start..p + i];
      r1 := r1 + buf[p + i] as uint32;
      r2 := r2 + r1;
    }
  }

  /** Up to NMAX bytes without reduction: sixteen at a time, then the rest. */
  method Chunk(s1: uint32, s2: uint32, buf: array<byte>, from: nat, k: nat) returns (r1: uint32, r2: uint32)
    requires from + k <= buf.Length && k <= NMAX && s1 < 0x1_0000 && s2 < 0x1_0000
    ensures Sums(r1 as int, r2 as int) == Raw(Sums(s1 as int, s2 as int), buf[from..from + k])
  {
    hide Raw;
    ghost var s := Sums(s1 as int, s2 as int);
    DigestNothing(s);
    assert buf[from..from] == [];
    var p := from;
    r1, r2 := s1, s2;
    while from + k - p >= 16
      invariant from <= p <= from + k
      invariant Sums(r1 as int, r2 as int) == Raw(s, buf[from..p])
    {
      r1, r2 := Sum(r1, r2, buf, from, p, 16, s);
      p := p + 16;
    }
    r1, r2 := Sum(r1, r2, buf, from, p, from + k - p, s);
  }

  /** lzo_adler32 on a buffer. */
  method LzoAdler32(adler: uint32, buf: array<byte>, from: nat, n: nat) returns (r: uint32)
    requires from + n <= buf.Length
    ensures r == Adler(adler, buf[from..from + n])
    ensures SumsUp(adler, buf[from..from + n], r)
  {
    hide Digest, Raw, SumsUp;
    var s1 := adler % 0x1_0000;
    var s2 := adler / 0x1_0000 % 0x1_0000;
    var p := from;
    DigestNothing(Unpack(adler));
    assert buf[from..from] == [];
    while p < from + n
      invariant from <= p <= from + n && s1 < 0x1_0000 && s2 < 0x1_0000
      invariant Sums(s1 as int, s2 as int) == Digest(Unpack(adler), buf[from..p])
    {
      var left := from + n - p;
      var k := if left < NMAX then left else NMAX;
      ghost var s := Sums(s1 as int, s2 as int);
      RawReduces(s, buf[p..p + k]);
      DigestAppend(Unpack(adler), buf[from..p], buf[p..p + k]);
      assert buf[from..p + k] == buf[from..p] + buf[p..p + k];
      s1, s2 := Chunk(s1, s2, buf, p, k);
      p := p + k;
      s1, s2 := s1 % 65521, s2 % 65521;
    }
    r := s2 * 0x1_0000 + s1;
    AdlerClosed(adler, buf[from..from + n]);
  }

  lemma DigestNothing(s: Sums)
    ensures Digest(s, []) == s && Raw(s, []) == s
  {
  }
}
