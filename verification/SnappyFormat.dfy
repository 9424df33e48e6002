/** The Snappy tag format: encoding one element, reading one element, replaying a stream. */
module SnappyFormat {
  import opened Bytes
  import opened Lz77

  datatype Element = Literal(bytes: seq<byte>) | Copy(off: nat, len: nat)

  // -------------------------------------------------------------------- meaning

  /** The elements can be replayed behind `out`. */
  ghost predicate Valid(out: seq<byte>, els: seq<Element>)
    decreases |els|
  {
    els != [] ==>
      match els[0]
      case Literal(b) => Valid(out + b, els[1..])
      case Copy(off, len) => 1 <= off <= |out| && Valid(CopyBack(out, off, len), els[1..])
  }

  function Expand(out: seq<byte>, els: seq<Element>): (r: seq<byte>)
    requires Valid(out, els)
    ensures |r| >= |out|
    decreases |els|
  {
    if els == [] then out
    else
      match els[0]
      case Literal(b) => Expand(out + b, els[1..])
      case Copy(off, len) => Expand(CopyBack(out, off, len), els[1..])
  }

  lemma {:induction false} ExpandAppend(out: seq<byte>, a: seq<Element>, b: seq<Element>)
    requires Valid(out, a) && Valid(Expand(out, a), b)
    ensures Valid(out, a + b) && Expand(out, a + b) == Expand(Expand(out, a), b)
    decreases |a|
  {
    if a == [] {
      assert a + b == b;
    } else {
      assert (a + b)[1..] == a[1..] + b;
      match a[0]
      case Literal(l) => ExpandAppend(out + l, a[1..], b);
      case Copy(off, len) => ExpandAppend(CopyBack(out, off, len), a[1..], b);
    }
  }

  /** A block of elements means the same behind anything. */
  lemma {:induction false} ExpandBehind(pre: seq<byte>, out: seq<byte>, els: seq<Element>)
    requires Valid(out, els)
    ensures Valid(pre + out, els) && Expand(pre + out, els) == pre + Expand(out, els)
    decreases |els|
  {
    if els != [] {
      match els[0]
      case Literal(l) =>
        assert pre + out + l == pre + (out + l);
        ExpandBehind(pre, out + l, els[1..]);
      case Copy(off, len) =>
        CopyBackBehind(pre, out, off, len);
        ExpandBehind(pre, CopyBack(out, off, len), els[1..]);
    }
  }

  // ------------------------------------------------------------------- encoding

  /** The bytes of `n`, least significant first, without leading zeros. */
  function LittleEndian(n: nat): (s: seq<byte>)
    ensures n < 0x100 ==> |s| <= 1
    ensures n < 0x1_0000 ==> |s| <= 2
    ensures n < 0x100_0000 ==> |s| <= 3
    ensures n < 0x1_0000_0000 ==> |s| <= 4
    ensures n > 0 ==> |s| >= 1
  {
    if n == 0 then [] else [n % 0x100] + LittleEndian(n / 0x100)
  }

  /** The number whose bytes these are. */
  function FromLittleEndian(s: seq<byte>): (n: nat)
    ensures |s| == 1 ==> n == s[0]
    ensures |s| == 2 ==> n == s[0] + 0x100 * (s[1] as int)
  {
    if s == [] then 0 else s[0] + 0x100 * FromLittleEndian(s[1..])
  }

  lemma {:induction false} LittleEndianRoundTrip(n: nat)
    ensures FromLittleEndian(LittleEndian(n)) == n
    decreases n
  {
    if n != 0 {
      LittleEndianRoundTrip(n / 0x100);
      assert LittleEndian(n)[1..] == LittleEndian(n / 0x100);
    }
  }

  function LiteralHead(len: nat): (s: seq<byte>)
    requires 1 <= len <= 0x1_0000_0000
    ensures 1 <= |s| <= 5 && (len <= 60 ==> |s| == 1)
  {
    var n := len - 1;
    if n < 60 then [4 * n]
    else [4 * (59 + |LittleEndian(n)|)] + LittleEndian(n)
  }

  /** A copy of 4 to 64 bytes. */
  function ShortCopy(off: nat, len: nat): (s: seq<byte>)
    requires 4 <= len <= 64 && off < 0x1_0000
    ensures 2 <= |s| <= 3
  {
    if len < 12 && off < 2048 then [1 + 4 * (len - 4) + 32 * (off / 0x100), off % 0x100]
    else [2 + 4 * (len - 1), off % 0x100, off / 0x100]
  }

  /** A copy of any length, in pieces of 64, at most one of 60, and at least 4 at the end. */
  function CopyCode(off: nat, len: nat): (s: seq<byte>)
    requires 4 <= len && off < 0x1_0000
    ensures 2 <= |s| < len
    decreases len
  {
    if len >= 68 then ShortCopy(off, 64) + CopyCode(off, len - 64)
    else if len > 64 then ShortCopy(off, 60) + ShortCopy(off, len - 60)
    else ShortCopy(off, len)
  }

  predicate Codable(el: Element) {
    match el
    case Literal(b) => 1 <= |b| <= 0x1_0000_0000
    case Copy(off, len) => 1 <= off < 0x1_0000 && 4 <= len
  }

  function Code(el: Element): seq<byte>
    requires Codable(el)
  {
    match el
    case Literal(b) => LiteralHead(|b|) + b
    case Copy(off, len) => CopyCode(off, len)
  }

  predicate AllCodable(els: seq<Element>) {
    forall i :: 0 <= i < |els| ==> Codable(els[i])
  }

  function Encode(els: seq<Element>): seq<byte>
    requires AllCodable(els)
    decreases |els|
  {
    if els == [] then [] else Code(els[0]) + Encode(els[1..])
  }

  lemma {:induction false} EncodeSnoc(els: seq<Element>, el: Element)
    requires AllCodable(els) && Codable(el)
    ensures AllCodable(els + [el]) && Encode(els + [el]) == Encode(els) + Code(el)
    decreases |els|
  {
    hide Code, Codable;
    if els == [] {
      assert els + [el] == [el];
      assert Encode([el]) == Code(el) + Encode([]) == Code(el);
    } else {
      assert (els + [el])[1..] == els[1..] + [el];
      EncodeSnoc(els[1..], el);
    }
  }

  // -------------------------------------------------------------------- reading

  /** Per tag byte: how many bytes follow it before the literal, and the length it carries. */
  datatype Entry = Entry(extra: nat, len: nat, high: nat)

  /** The decompression table, as ComputeTable fills it. */
  function TagEntry(c: byte): (e: Entry)
    ensures e.extra <= 4 && 1 <= e.len <= 64 && e.high < 0x800
    ensures c % 4 == 0 ==> e.high == 0 && (e.extra > 0 ==> e.len == 1)
    ensures c % 4 == 0 && c / 4 < 60 ==> e.extra == 0 && e.len == c / 4 + 1
  {
    var k := c / 4;
    if c % 4 == 0 then if k < 60 then Entry(0, k + 1, 0) else Entry(k - 59, 1, 0)
    else if c % 4 == 1 then Entry(1, k % 8 + 4, 0x100 * (k / 8))
    else if c % 4 == 2 then Entry(2, k + 1, 0)
    else Entry(4, k + 1, 0)
  }

  /** The next element of `s`: a copy, or a literal whose bytes start at `at`. */
  datatype Tag = NoMore | Truncated | CopyTag(off: nat, len: nat, at: nat) | LiteralTag(len: nat, at: nat)

  function ReadTag(s: seq<byte>): (t: Tag)
    ensures t.CopyTag? ==> 1 <= t.at <= |s| && 1 <= t.len <= 64 && t.off < 0x1_0000_0000
    ensures t.LiteralTag? ==> 1 <= t.at <= |s| && t.len < 0x1_0000_0000
  {
    if s == [] then NoMore
    else
      var e := TagEntry(s[0]);
      if |s| < 1 + e.extra then Truncated
      else
        var v := FromLittleEndian(s[1..1 + e.extra]);
        Bounded(s[1..1 + e.extra]);
        if s[0] % 4 != 0 then CopyTag((e.high + v) % 0x1_0000_0000, e.len, 1 + e.extra)
        else LiteralTag(if e.extra == 0 then e.len else (v + 1) % 0x1_0000_0000, 1 + e.extra)
  }

  lemma Bounded(s: seq<byte>)
    requires |s| <= 4
    ensures FromLittleEndian(s) < 0x1_0000_0000
    ensures |s| <= 3 ==> FromLittleEndian(s) < 0x100_0000
  {
    if s != [] {
      Bounded(s[1..]);
      assert |s| <= 3 ==> FromLittleEndian(s[1..]) < 0x1_0000 by {
        if |s| == 3 {
          assert s[1..][1..] == [s[2]];
        }
      }
    }
  }

  // ------------------------------------------------------------------- replaying

  datatype Result = Fails | Succeeds(out: seq<byte>)

  /** Decode `s` behind `out`, never beyond `limit` bytes of output. */
  function Replay(s: seq<byte>, out: seq<byte>, limit: nat): Result
    decreases |s|, 0
  {
    match ReadTag(s)
    case NoMore => Succeeds(out)
    case Truncated => Fails
    case CopyTag(off, len, at) =>
      if off == 0 || off > |out| || |out| + len > limit then Fails
      else Replay(s[at..], CopyBack(out, off, len), limit)
    case LiteralTag(len, at) => ReplayLiteral(s[at..], len, out, limit)
  }

  /** The same, inside a literal of which `len` bytes are still to come. */
  function ReplayLiteral(s: seq<byte>, len: nat, out: seq<byte>, limit: nat): Result
    decreases |s|, 1
  {
    if |s| < len || |out| + len > limit then Fails
    else Replay(s[len..], out + s[..len], limit)
  }

  /** A literal may be taken in two parts. */
  lemma ReplayLiteralSplit(s: seq<byte>, len: nat, k: nat, out: seq<byte>, limit: nat)
    requires k <= len && k <= |s| && |out| + k <= limit
    ensures ReplayLiteral(s, len, out, limit) == ReplayLiteral(s[k..], len - k, out + s[..k], limit)
  {
    hide Replay;
    if len <= |s| {
      assert s[k..][len - k..] == s[len..];
      assert out + s[..k] + s[k..][..len - k] == out + s[..len];
    }
  }

  lemma LiteralHeadReads(len: nat, rest: seq<byte>)
    requires 1 <= len < 0x1_0000_0000
    ensures (var s := LiteralHead(len) + rest;
             var h := |LiteralHead(len)|;
             ReadTag(s) == LiteralTag(len, h) && s[h..] == rest)
  {
    var s := LiteralHead(len) + rest;
    var h := |LiteralHead(len)|;
    var n := len - 1;
    assert s[h..] == rest;
    if n < 60 {
      assert s[0] == 4 * n;
    } else {
      var l := LittleEndian(n);
      assert s[0] == 4 * (59 + |l|) && TagEntry(s[0]) == Entry(|l|, 1, 0);
      hide TagEntry, LiteralHead, LittleEndian, FromLittleEndian;
      assert s[1..1 + |l|] == l;
      LittleEndianRoundTrip(n);
    }
  }

  /** The tag byte of a short copy with an eleven-bit offset. */
  lemma CopyTagByte(off: nat, len: nat)
    requires 4 <= len < 12 && off < 2048
    ensures (var c := 1 + 4 * (len - 4) + 32 * (off / 0x100);
             c < 256 && TagEntry(c) == Entry(1, len, 0x100 * (off / 0x100)))
  {
    var c := 1 + 4 * (len - 4) + 32 * (off / 0x100);
    assert c == 1 + 4 * (len - 4 + 8 * (off / 0x100));
    assert c / 4 == len - 4 + 8 * (off / 0x100) && c % 4 == 1;
    assert c / 4 % 8 == len - 4 && c / 4 / 8 == off / 0x100;
  }

  lemma ShortCopyReads(off: nat, len: nat, rest: seq<byte>)
    requires 4 <= len <= 64 && off < 0x1_0000
    ensures (var s := ShortCopy(off, len) + rest;
             var h := |ShortCopy(off, len)|;
             ReadTag(s) == CopyTag(off, len, h) && s[h..] == rest)
  {
    var s := ShortCopy(off, len) + rest;
    var h := |ShortCopy(off, len)|;
    assert s[h..] == rest;
    if len < 12 && off < 2048 {
      CopyTagByte(off, len);
      assert s[0] % 4 == 1;
      hide TagEntry;
      assert s[1..2] == [off % 0x100];
    } else {
      assert s[0] / 4 == len - 1 && s[0] % 4 == 2;
      assert s[1..3] == [off % 0x100, off / 0x100];
    }
  }

  lemma ShortCopyReplays(off: nat, len: nat, rest: seq<byte>, out: seq<byte>, limit: nat)
    requires 4 <= len <= 64 && 1 <= off < 0x1_0000 && off <= |out| && |out| + len <= limit
    ensures Replay(ShortCopy(off, len) + rest, out, limit) == Replay(rest, CopyBack(out, off, len), limit)
  {
    hide ShortCopy, ReadTag, CopyBack;
    ShortCopyReads(off, len, rest);
  }

  lemma {:induction false} CopyReplays(off: nat, len: nat, rest: seq<byte>, out: seq<byte>, limit: nat)
    requires 4 <= len && 1 <= off < 0x1_0000 && off <= |out| && |out| + len <= limit
    ensures Replay(CopyCode(off, len) + rest, out, limit) == Replay(rest, CopyBack(out, off, len), limit)
    decreases len
  {
    hide ShortCopy, Replay, CopyBack;
    if len > 64 {
      var piece := if len >= 68 then 64 else 60;
      var tail := if len >= 68 then CopyCode(off, len - 64) else ShortCopy(off, len - 60);
      assert CopyCode(off, len) + rest == ShortCopy(off, piece) + (tail + rest);
      ShortCopyReplays(off, piece, tail + rest, out, limit);
      CopyBackSplit(out, off, piece, len - piece);
      if len >= 68 {
        CopyReplays(off, len - 64, rest, CopyBack(out, off, piece), limit);
      } else {
        ShortCopyReplays(off, len - 60, rest, CopyBack(out, off, piece), limit);
      }
    } else {
      ShortCopyReplays(off, len, rest, out, limit);
    }
  }

  lemma LiteralReplays(b: seq<byte>, rest: seq<byte>, out: seq<byte>, limit: nat)
    requires 1 <= |b| < 0x1_0000_0000 && |out| + |b| <= limit
    ensures Replay(LiteralHead(|b|) + b + rest, out, limit) == Replay(rest, out + b, limit)
  {
    hide LiteralHead, ReadTag;
    assert LiteralHead(|b|) + b + rest == LiteralHead(|b|) + (b + rest);
    LiteralHeadReads(|b|, b + rest);
    assert (b + rest)[..|b|] == b && (b + rest)[|b|..] == rest;
  }

  /** Decoding an encoding replays the elements, whatever follows. */
  lemma {:induction false} EncodeReplays(els: seq<Element>, rest: seq<byte>, out: seq<byte>, limit: nat)
    requires AllCodable(els) && Valid(out, els) && |Expand(out, els)| <= limit < 0x1_0000_0000
    ensures Replay(Encode(els) + rest, out, limit) == Replay(rest, Expand(out, els), limit)
    decreases |els|
  {
    hide Replay, CopyBack, LiteralHead, CopyCode;
    if els == [] {
      assert Encode(els) + rest == rest;
    } else {
      var tail := Encode(els[1..]) + rest;
      assert Encode(els) + rest == Code(els[0]) + tail;
      match els[0]
      case Literal(b) =>
        assert |Expand(out + b, els[1..])| <= limit;
        LiteralReplays(b, tail, out, limit);
        EncodeReplays(els[1..], rest, out + b, limit);
      case Copy(off, len) =>
        assert |Expand(CopyBack(out, off, len), els[1..])| <= limit;
        CopyReplays(off, len, tail, out, limit);
        EncodeReplays(els[1..], rest, CopyBack(out, off, len), limit);
    }
  }
}
