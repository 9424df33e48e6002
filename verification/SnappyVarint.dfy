/** The length prefix of a Snappy stream: 7 bits to a byte, least significant first. */
module SnappyVarint {
  import opened Bytes

  datatype Parsed = Rejected | Accepted(v: nat, used: nat)

  const MODULUS := 0x1_0000_0000

  /** 128 to the power `i`. */
  function Weight(i: nat): (w: nat)
    ensures w >= 1
  {
    if i == 0 then 1 else 128 * Weight(i - 1)
  }

  /** What seven bits of a byte contribute at place `i`. */
  function Digit(b: byte, i: nat): nat {
    (b as int) % 128 * Weight(i)
  }

  /** What the streaming reader makes of `s` with `i` bytes behind it: 32 bits, at most five bytes. */
  function Stream(s: seq<byte>, i: nat, acc: nat): (r: Parsed)
    ensures r.Accepted? ==> r.v < MODULUS && 1 <= r.used <= |s|
    decreases |s|
  {
    if i >= 5 || s == [] then Rejected
    else
      var next := (acc + Digit(s[0], i)) % MODULUS;
      if s[0] < 128 then Accepted(next, 1)
      else Shifted(Stream(s[1..], i + 1, next), 1)
  }

  /** The length prefix of a stream. */
  function Prefix(s: seq<byte>): (r: Parsed)
    ensures r.Accepted? ==> r.v < MODULUS && 1 <= r.used <= |s|
  {
    Stream(s, 0, 0)
  }

  /** A result of a reader that has already passed `i` bytes. */
  function Shifted(p: Parsed, i: nat): Parsed {
    match p
    case Rejected => Rejected
    case Accepted(v, used) => Accepted(v, used + i)
  }

  lemma StreamStep(s: seq<byte>, i: nat, acc: nat)
    requires i < 5 && s != []
    ensures (var next := (acc + Digit(s[0], i)) % MODULUS;
             Shifted(Stream(s, i, acc), i)
             == if s[0] < 128 then Accepted(next, i + 1) else Shifted(Stream(s[1..], i + 1, next), i + 1))
  {
  }

  /** The number that the first `n` bytes spell. */
  function Value(s: seq<byte>, n: nat): nat
    requires n <= |s|
  {
    if n == 0 then 0 else Value(s, n - 1) + Digit(s[n - 1], n - 1)
  }

  /** The first `n` bytes of `s` form one number: all but the last go on. */
  predicate Spelled(s: seq<byte>, n: nat) {
    1 <= n <= 5 && n <= |s| && s[n - 1] < 128 && forall k :: 0 <= k < n - 1 ==> s[k] >= 128
  }

  lemma ModAdd(a: nat, b: nat)
    ensures (a % MODULUS + b) % MODULUS == (a + b) % MODULUS
  {
  }

  lemma {:induction false} StreamReads(s: seq<byte>, i: nat, n: nat)
    requires Spelled(s, n) && i < n
    ensures Stream(s[i..], i, Value(s, i) % MODULUS) == Accepted(Value(s, n) % MODULUS, n - i)
    decreases n - i
  {
    hide Digit;
    ModAdd(Value(s, i), Digit(s[i], i));
    if i < n - 1 {
      StreamReads(s, i + 1, n);
      assert s[i..][1..] == s[i + 1..];
    }
  }

  lemma {:induction false} StreamRejects(s: seq<byte>, i: nat, acc: nat)
    requires i <= 5 && forall k :: 0 <= k < |s| && k + i < 5 ==> s[k] >= 128
    ensures Stream(s, i, acc) == Rejected
    decreases 5 - i
  {
    if i < 5 && s != [] {
      StreamRejects(s[1..], i + 1, (acc + Digit(s[0], i)) % MODULUS);
    }
  }

  /** The streaming reader accepts exactly the spelled numbers, reduced to 32 bits. */
  lemma PrefixMeans(s: seq<byte>, n: nat)
    ensures Spelled(s, n) ==> Prefix(s) == Accepted(Value(s, n) % MODULUS, n)
    ensures Prefix(s).Accepted? ==> Spelled(s, Prefix(s).used)
  {
    if Spelled(s, n) {
      StreamReads(s, 0, n);
      assert s[0..] == s;
    }
    if Prefix(s).Accepted? {
      if k: nat :| k < 5 && k < |s| && s[k] < 128 {
        var m := FirstEnd(s, k);
        StreamReads(s, 0, m);
        assert s[0..] == s;
      } else {
        StreamRejects(s, 0, 0);
      }
    }
  }

  lemma {:induction false} FirstEnd(s: seq<byte>, k: nat) returns (n: nat)
    requires k < 5 && k < |s| && s[k] < 128
    ensures Spelled(s, n)
    decreases k
  {
    if j: nat :| j < k && s[j] < 128 {
      n := FirstEnd(s, j);
    } else {
      n := k + 1;
    }
  }

  /** Seven bits to a byte, all but the last with the high bit set. */
  function Encoded(v: nat): (s: seq<byte>)
    ensures |s| >= 1
    ensures v < 0x80 ==> |s| == 1
    ensures v < 0x4000 ==> |s| <= 2
    ensures v < 0x20_0000 ==> |s| <= 3
    ensures v < 0x1000_0000 ==> |s| <= 4
    ensures v < MODULUS ==> |s| <= 5
  {
    if v < 0x80 then [v] else [v % 0x80 + 0x80] + Encoded(v / 0x80)
  }

  lemma ValueUnrolled(s: seq<byte>)
    ensures |s| >= 1 ==> Value(s, 1) == Digit(s[0], 0) == (s[0] as int) % 128
    ensures |s| >= 2 ==> Value(s, 2) == Value(s, 1) + Digit(s[1], 1) && Digit(s[1], 1) == (s[1] as int) % 128 * 0x80
    ensures |s| >= 3 ==> Value(s, 3) == Value(s, 2) + Digit(s[2], 2) && Digit(s[2], 2) == (s[2] as int) % 128 * 0x4000
    ensures |s| >= 4 ==> Value(s, 4) == Value(s, 3) + Digit(s[3], 3)
                         && Digit(s[3], 3) == (s[3] as int) % 128 * 0x20_0000
    ensures |s| >= 5 ==> Value(s, 5) == Value(s, 4) + Digit(s[4], 4)
                         && Digit(s[4], 4) == (s[4] as int) % 128 * 0x1000_0000
  {
    assert Weight(0) == 1 && Weight(1) == 0x80 && Weight(2) == 0x4000 && Weight(3) == 0x20_0000
        && Weight(4) == 0x1000_0000;
  }

  lemma {:induction false} StreamEncoded(v: nat, rest: seq<byte>, i: nat, acc: nat)
    requires i + |Encoded(v)| <= 5
    ensures Stream(Encoded(v) + rest, i, acc) == Accepted((acc + v * Weight(i)) % MODULUS, |Encoded(v)|)
    decreases v
  {
    hide Weight;
    var s := Encoded(v) + rest;
    if v < 0x80 {
      assert s[0] == v;
    } else {
      assert s[0] == v % 0x80 + 0x80;
      assert s[1..] == Encoded(v / 0x80) + rest;
      assert Digit(s[0], i) == v % 0x80 * Weight(i);
      StreamEncoded(v / 0x80, rest, i + 1, (acc + v % 0x80 * Weight(i)) % MODULUS);
      Carry(acc, v, i);
    }
  }

  lemma Carry(acc: nat, v: nat, i: nat)
    ensures ((acc + v % 0x80 * Weight(i)) % MODULUS + v / 0x80 * Weight(i + 1)) % MODULUS
         == (acc + v * Weight(i)) % MODULUS
  {
    var w := Weight(i);
    assert Weight(i + 1) == 128 * w;
    Regroup(v, w);
    ModAdd(acc + v % 0x80 * w, v / 0x80 * (128 * w));
  }

  lemma Regroup(v: nat, w: nat)
    ensures v % 0x80 * w + v / 0x80 * (128 * w) == v * w
  {
    assert v == v % 0x80 + 128 * (v / 0x80);
    assert v / 0x80 * (128 * w) == 128 * (v / 0x80) * w;
    assert (v % 0x80 + 128 * (v / 0x80)) * w == v % 0x80 * w + 128 * (v / 0x80) * w;
  }

  /** An encoded number reads back from its bytes, whatever follows. */
  lemma EncodedReads(v: nat, rest: seq<byte>)
    requires v < MODULUS
    ensures Prefix(Encoded(v) + rest) == Accepted(v, |Encoded(v)|)
    ensures |Encoded(v)| == 5 ==> Encoded(v)[4] < 16
  {
    hide Encoded;
    StreamEncoded(v, rest, 0, 0);
    EncodedUnrolled(v, v / 0x80, v / 0x80 / 0x80, v / 0x80 / 0x80 / 0x80, v / 0x80 / 0x80 / 0x80 / 0x80);
  }

  /** Varint::Encode32: writes the bytes of `v` at `p` and returns the index behind them. */
  method Encode32(buf: array<byte>, p: nat, v: nat) returns (q: nat)
    requires v < MODULUS && p + 5 <= buf.Length
    modifies buf
    ensures p < q <= p + 5 && buf[p..q] == Encoded(v)
    ensures forall k :: 0 <= k < buf.Length && !(p <= k < q) ==> buf[k] == old(buf[k])
  {
    var v1, v2, v3, v4 := v / 0x80, v / 0x4000, v / 0x20_0000, v / 0x1000_0000;
    assert v1 / 0x80 == v2 && v2 / 0x80 == v3 && v3 / 0x80 == v4;
    if v < 0x80 {
      buf[p] := v;
      q := p + 1;
    } else if v < 0x4000 {
      buf[p] := v % 128 + 128;
      buf[p + 1] := v1;
      q := p + 2;
    } else if v < 0x20_0000 {
      buf[p] := v % 128 + 128;
      buf[p + 1] := v1 % 128 + 128;
      buf[p + 2] := v2;
      q := p + 3;
    } else if v < 0x1000_0000 {
      buf[p] := v % 128 + 128;
      buf[p + 1] := v1 % 128 + 128;
      buf[p + 2] := v2 % 128 + 128;
      buf[p + 3] := v3;
      q := p + 4;
    } else {
      buf[p] := v % 128 + 128;
      buf[p + 1] := v1 % 128 + 128;
      buf[p + 2] := v2 % 128 + 128;
      buf[p + 3] := v3 % 128 + 128;
      buf[p + 4] := v4;
      q := p + 5;
    }
    EncodedUnrolled(v, v1, v2, v3, v4);
  }

  lemma EncodedUnrolled(v: nat, v1: nat, v2: nat, v3: nat, v4: nat)
    requires v < MODULUS && v1 == v / 0x80 && v2 == v1 / 0x80 && v3 == v2 / 0x80 && v4 == v3 / 0x80
    ensures Encoded(v) ==
            if v < 0x80 then [v]
            else if v1 < 0x80 then [v % 128 + 128, v1]
            else if v2 < 0x80 then [v % 128 + 128, v1 % 128 + 128, v2]
            else if v3 < 0x80 then [v % 128 + 128, v1 % 128 + 128, v2 % 128 + 128, v3]
            else [v % 128 + 128, v1 % 128 + 128, v2 % 128 + 128, v3 % 128 + 128, v4]
  {
    assert v4 < 0x80;
    assert Encoded(v4) == [v4];
    assert v3 >= 0x80 ==> Encoded(v3) == [v3 % 128 + 128] + Encoded(v4);
    assert v2 >= 0x80 ==> Encoded(v2) == [v2 % 128 + 128] + Encoded(v3);
    assert v1 >= 0x80 ==> Encoded(v1) == [v1 % 128 + 128] + Encoded(v2);
  }

  /** The number of five bytes fits 32 bits when the last is below 16. */
  lemma ValueFits(s: seq<byte>, n: nat)
    requires n <= 5 && n <= |s| && (n == 5 ==> s[4] < 16)
    ensures Value(s, n) % MODULUS == Value(s, n)
  {
    hide Value, Digit;
    ValueUnrolled(s);
    ValueNone(s);
  }

  lemma ValueNone(s: seq<byte>)
    ensures Value(s, 0) == 0
  {
  }

  /** Varint::Parse32WithLimit on the bytes up to the limit: a fifth byte must be below 16. */
  method Parse32WithLimit(s: seq<byte>) returns (r: Parsed)
    ensures r == if Prefix(s).Accepted? && (Prefix(s).used == 5 ==> s[4] < 16) then Prefix(s) else Rejected
  {
    var v, n := ParseUnrolled(s);
    hide Digit, Value, Prefix;
    PrefixMeans(s, n);
    if n == 0 {
      return Rejected;
    }
    ValueFits(s, n);
    return Accepted(v, n);
  }

  /** The five steps; `n == 0` stands for the null pointer. */
  method ParseUnrolled(s: seq<byte>) returns (v: nat, n: nat)
    ensures n != 0 ==> Spelled(s, n) && (n == 5 ==> s[4] < 16) && v == Value(s, n)
    ensures n == 0 ==> forall k :: Spelled(s, k) ==> k == 5 && s[4] >= 16
  {
    hide Value;
    ValueUnrolled(s);
    hide Digit;
    if 0 >= |s| { return 0, 0; }
    var b: int := s[0];
    v := b % 128;
    if b < 128 { return v, 1; }
    if 1 >= |s| { return 0, 0; }
    b := s[1];
    v := v + b % 128 * 0x80;
    if b < 128 { return v, 2; }
    if 2 >= |s| { return 0, 0; }
    b := s[2];
    v := v + b % 128 * 0x4000;
    if b < 128 { return v, 3; }
    if 3 >= |s| { return 0, 0; }
    b := s[3];
    v := v + b % 128 * 0x20_0000;
    if b < 128 { return v, 4; }
    if 4 >= |s| { return 0, 0; }
    b := s[4];
    v := v + b % 128 * 0x1000_0000;
    if b < 16 { return v, 5; }
    return 0, 0;
  }
}
