/** The whole Snappy format, element by element: what decompression accepts is exactly a legal element list's bytes. */
module SnappyElements {
  import opened Bytes
  import opened Lz77
  import opened SnappyFormat
  import opened SnappyReader
  import opened SnappyVarint

  /** A literal with so many bytes of length behind its tag, or a copy with one, two or four bytes of distance. */
  datatype Item =
    | Lit(bytes: seq<byte>, width: nat)
    | Copy1(off: nat, len: nat)
    | Copy2(off: nat, len: nat)
    | Copy4(off: nat, len: nat)
  {
    /**
     * A literal's length may be written in more bytes than it needs. In four bytes it is written modulo 2^32, so
     * that there is a literal of no bytes.
     */
    predicate Fits() {
      match this
      case Lit(b, w) =>
        || (w == 0 && 1 <= |b| <= 60) || (w == 1 && 1 <= |b| <= 256) || (w == 2 && 1 <= |b| <= 65536)
        || (w == 3 && 1 <= |b| <= 16777216) || (w == 4 && |b| < 4294967296)
      case Copy1(off, len) => off < 2048 && 4 <= len <= 11
      case Copy2(off, len) => off < 65536 && 1 <= len <= 64
      case Copy4(off, len) => off < 4294967296 && 1 <= len <= 64
    }

    /** The bytes in front of a literal's bytes, or all of a copy. */
    function Head(): (h: seq<byte>)
      requires Fits()
      ensures 1 <= |h| <= 5
    {
      match this
      case Lit(b, w) =>
        var n := if b == [] then 4294967295 else |b| - 1;
        if w == 0 then [4 * n] else [4 * (59 + w)] + Four(n)[..w]
      case Copy1(off, len) => [1 + 4 * (len - 4) + 32 * (off / 256), off % 256]
      case Copy2(off, len) => [2 + 4 * (len - 1), off % 256, off / 256]
      case Copy4(off, len) => [3 + 4 * (len - 1)] + Four(off)
    }

    function Tail(): seq<byte> {
      if Lit? then bytes else []
    }

    function Bytes(): (s: seq<byte>)
      requires Fits()
      ensures |s| >= 1
    {
      Head() + Tail()
    }

    predicate Possible(out: seq<byte>) {
      !Lit? ==> 1 <= off <= |out|
    }

    function Apply(out: seq<byte>): (r: seq<byte>)
      requires Possible(out)
      ensures |r| >= |out|
    {
      if Lit? then out + bytes else CopyBack(out, off, len)
    }
  }

  /** A number below 2^32 in four bytes, the lowest first. */
  function Four(n: nat): (s: seq<byte>)
    requires n < 4294967296
    ensures |s| == 4
  {
    [n % 256, n / 256 % 256, n / 65536 % 256, n / 16777216]
  }

  /** Every item is in the format, and every copy looks back at bytes that are there. */
  predicate LegalFrom(out: seq<byte>, items: seq<Item>)
    decreases |items|
  {
    items != [] ==> items[0].Fits() && items[0].Possible(out) && LegalFrom(items[0].Apply(out), items[1..])
  }

  function CodeFrom(out: seq<byte>, items: seq<Item>): seq<byte>
    requires LegalFrom(out, items)
    decreases |items|
  {
    if items == [] then [] else items[0].Bytes() + CodeFrom(items[0].Apply(out), items[1..])
  }

  function MeaningFrom(out: seq<byte>, items: seq<Item>): (r: seq<byte>)
    requires LegalFrom(out, items)
    ensures |r| >= |out|
    decreases |items|
  {
    if items == [] then out else MeaningFrom(items[0].Apply(out), items[1..])
  }

  // ------------------------------------------------------------- what a head reads as

  /** Four bytes, and their first ones, give the number back. */
  lemma FourBack(n: nat, w: nat)
    requires n < 4294967296 && 1 <= w <= 4
    requires (w == 1 ==> n < 256) && (w == 2 ==> n < 65536) && (w == 3 ==> n < 16777216)
    ensures FromLittleEndian(Four(n)[..w]) == n
  {
    var a, b, c, d := n % 256, n / 256 % 256, n / 65536 % 256, n / 16777216;
    FourSum(n);
    BytesUp(a, b, c, d);
    assert w == 1 ==> Four(n)[..w] == [a];
    assert w == 2 ==> Four(n)[..w] == [a, b];
    assert w == 3 ==> Four(n)[..w] == [a, b, c];
    assert w == 4 ==> Four(n)[..w] == [a, b, c, d];
  }

  lemma FourSum(n: nat)
    requires n < 4294967296
    ensures n == n % 256 + 256 * (n / 256 % 256) + 65536 * (n / 65536 % 256) + 16777216 * (n / 16777216)
  {
    assert n / 65536 == n / 256 / 256 && n / 16777216 == n / 65536 / 256;
  }

  /** Up to four bytes as a number. */
  lemma BytesUp(a: byte, b: byte, c: byte, d: byte)
    ensures FromLittleEndian([a]) == a
    ensures FromLittleEndian([a, b]) == 256 * b + a
    ensures FromLittleEndian([a, b, c]) == 65536 * c + 256 * b + a
    ensures FromLittleEndian([a, b, c, d]) == 16777216 * d + 65536 * c + 256 * b + a
  {
    assert [a][1..] == [] && [a, b][1..] == [b] && [a, b, c][1..] == [b, c] && [a, b, c, d][1..] == [b, c, d];
    assert [b, c][1..] == [c] && [b, c, d][1..] == [c, d] && [c, d][1..] == [d] && [d][1..] == [];
  }

  /** What the head of an item says. */
  function Said(it: Item): Tag
    requires it.Fits()
  {
    if it.Lit? then LiteralTag(|it.bytes|, |it.Head()|) else CopyTag(it.off, it.len, |it.Head()|)
  }

  lemma Copy1Reads(it: Item, rest: seq<byte>)
    requires it.Copy1? && it.Fits()
    ensures ReadTag(it.Head() + rest) == Said(it)
  {
    hide TagEntry, FromLittleEndian;
    var s := it.Head() + rest;
    CopyTagByte(it.off, it.len);
    assert s[0] == 1 + 4 * (it.len - 4) + 32 * (it.off / 256) && s[0] % 4 == 1;
    assert s[1..2] == [it.off % 256];
  }

  lemma Copy2Reads(it: Item, rest: seq<byte>)
    requires it.Copy2? && it.Fits()
    ensures ReadTag(it.Head() + rest) == Said(it)
  {
    var s := it.Head() + rest;
    assert s[0] / 4 == it.len - 1 && s[0] % 4 == 2;
    assert s[1..3] == [it.off % 256, it.off / 256];
  }

  lemma Copy4Reads(it: Item, rest: seq<byte>)
    requires it.Copy4? && it.Fits()
    ensures ReadTag(it.Head() + rest) == Said(it)
  {
    var s := it.Head() + rest;
    assert s[0] / 4 == it.len - 1 && s[0] % 4 == 3;
    FourBack(it.off, 4);
    hide FromLittleEndian, Four;
    assert s[1..5] == Four(it.off) == Four(it.off)[..4];
  }

  lemma ShortLitReads(it: Item, rest: seq<byte>)
    requires it.Lit? && it.Fits() && it.width == 0
    ensures ReadTag(it.Head() + rest) == Said(it)
  {
    var s := it.Head() + rest;
    assert s[0] == 4 * (|it.bytes| - 1);
    hide FromLittleEndian, Four;
  }

  lemma LitReads(it: Item, rest: seq<byte>)
    requires it.Lit? && it.Fits() && it.width > 0
    ensures ReadTag(it.Head() + rest) == Said(it)
  {
    hide FromLittleEndian, Four;
    var s := it.Head() + rest;
    var n := if it.bytes == [] then 4294967295 else |it.bytes| - 1;
    assert s[0] / 4 == 59 + it.width && s[0] % 4 == 0;
    FourBack(n, it.width);
    assert s[1..1 + it.width] == Four(n)[..it.width];
  }

  /** Every head, whatever follows it, reads as what it says. */
  lemma HeadReads(it: Item, rest: seq<byte>)
    requires it.Fits()
    ensures ReadTag(it.Head() + rest) == Said(it)
  {
    match it {
      case Lit(_, w) =>
        if w == 0 {
          ShortLitReads(it, rest);
        } else {
          LitReads(it, rest);
        }
      case Copy1(_, _) => Copy1Reads(it, rest);
      case Copy2(_, _) => Copy2Reads(it, rest);
      case Copy4(_, _) => Copy4Reads(it, rest);
    }
  }

  /** An item that is decoded: if there is room, it is appended. */
  lemma ItemReplays(it: Item, rest: seq<byte>, out: seq<byte>, limit: nat)
    requires it.Fits() && it.Possible(out)
    ensures Replay(it.Bytes() + rest, out, limit)
         == if |it.Apply(out)| <= limit then Replay(rest, it.Apply(out), limit) else Fails
  {
    hide ReadTag, Item.Head, Item.Fits, CopyBack, Replay;
    var h := it.Head();
    var behind := it.Tail() + rest;
    HeadReads(it, behind);
    assert it.Bytes() + rest == h + behind && (h + behind)[|h|..] == behind;
    if it.Lit? {
      LiteralTaken(h + behind, |h|, it.bytes, rest, out, limit);
    } else {
      assert behind == rest;
      CopyTaken(h + behind, it.off, it.len, |h|, out, limit);
    }
  }

  lemma LiteralTaken(s: seq<byte>, at: nat, b: seq<byte>, rest: seq<byte>, out: seq<byte>, limit: nat)
    requires ReadTag(s) == LiteralTag(|b|, at) && s[at..] == b + rest
    ensures Replay(s, out, limit) == if |out + b| <= limit then Replay(rest, out + b, limit) else Fails
  {
    hide ReadTag;
    assert (b + rest)[..|b|] == b && (b + rest)[|b|..] == rest;
  }

  lemma CopyTaken(s: seq<byte>, off: nat, len: nat, at: nat, out: seq<byte>, limit: nat)
    requires ReadTag(s) == CopyTag(off, len, at) && 1 <= off <= |out|
    ensures Replay(s, out, limit)
         == if |out| + len <= limit then Replay(s[at..], CopyBack(out, off, len), limit) else Fails
  {
    hide ReadTag, CopyBack;
  }

  /** A copy that is not possible fails. */
  lemma ImpossibleFails(it: Item, rest: seq<byte>, out: seq<byte>, limit: nat)
    requires it.Fits() && !it.Possible(out)
    ensures Replay(it.Bytes() + rest, out, limit) == Fails
  {
    HeadReads(it, rest);
    hide ReadTag, Item.Head, Item.Fits, CopyBack;
    assert it.Head() + [] == it.Head();
  }

  /** The items of a legal list are decoded one after the other. */
  lemma {:induction false} ItemsReplay(items: seq<Item>, out: seq<byte>, limit: nat)
    requires LegalFrom(out, items) && |out| <= limit
    ensures Replay(CodeFrom(out, items), out, limit)
         == if |MeaningFrom(out, items)| <= limit then Succeeds(MeaningFrom(out, items)) else Fails
    decreases |items|
  {
    hide Item.Bytes, Item.Apply, Item.Fits, Item.Possible;
    if items == [] {
      ReplayEnds(out, limit);
    } else {
      ItemReplays(items[0], CodeFrom(items[0].Apply(out), items[1..]), out, limit);
      hide Replay;
      if |items[0].Apply(out)| <= limit {
        ItemsReplay(items[1..], items[0].Apply(out), limit);
      }
    }
  }

  lemma ReplayEnds(out: seq<byte>, limit: nat)
    ensures Replay([], out, limit) == Succeeds(out)
  {
  }

  // ------------------------------------------------------- what is decoded is a list

  lemma FourOf1(a: byte)
    ensures FromLittleEndian([a]) == a && Four(a)[..1] == [a]
  {
    BytesUp(a, 0, 0, 0);
  }

  lemma FourOf2(a: byte, b: byte)
    ensures FromLittleEndian([a, b]) < 65536 && Four(FromLittleEndian([a, b]))[..2] == [a, b]
  {
    hide FromLittleEndian, Four;
    BytesUp(a, b, 0, 0);
    FourIs(a, b, 0, 0);
  }

  lemma FourOf3(a: byte, b: byte, c: byte)
    ensures FromLittleEndian([a, b, c]) < 16777216 && Four(FromLittleEndian([a, b, c]))[..3] == [a, b, c]
  {
    hide FromLittleEndian, Four;
    BytesUp(a, b, c, 0);
    FourIs(a, b, c, 0);
  }

  lemma FourOf4(a: byte, b: byte, c: byte, d: byte)
    ensures FromLittleEndian([a, b, c, d]) < 4294967296 && Four(FromLittleEndian([a, b, c, d])) == [a, b, c, d]
  {
    hide FromLittleEndian, Four;
    BytesUp(a, b, c, d);
    FourIs(a, b, c, d);
  }

  /** The bytes of a number are the bytes that it was read from. */
  lemma FourOf(t: seq<byte>)
    requires 1 <= |t| <= 4
    ensures FromLittleEndian(t) < 4294967296 && Four(FromLittleEndian(t))[..|t|] == t
    ensures (|t| == 1 ==> FromLittleEndian(t) < 256) && (|t| == 2 ==> FromLittleEndian(t) < 65536)
    ensures |t| == 3 ==> FromLittleEndian(t) < 16777216
  {
    hide FromLittleEndian, Four;
    if |t| == 1 {
      FourOf1(t[0]);
      assert t == [t[0]];
    } else if |t| == 2 {
      FourOf2(t[0], t[1]);
      assert t == [t[0], t[1]];
    } else if |t| == 3 {
      FourOf3(t[0], t[1], t[2]);
      assert t == [t[0], t[1], t[2]];
    } else {
      FourOf4(t[0], t[1], t[2], t[3]);
      assert t == [t[0], t[1], t[2], t[3]];
    }
  }

  lemma FourIs(a: byte, b: byte, c: byte, d: byte)
    ensures Four(16777216 * d + 65536 * c + 256 * b + a) == [a, b, c, d]
  {
    var n := 16777216 * d + 65536 * c + 256 * b + a;
    assert n / 256 == 65536 * d + 256 * c + b && n / 65536 == 256 * d + c;
  }

  lemma CopyFound(s: seq<byte>) returns (it: Item)
    requires ReadTag(s).CopyTag?
    ensures !it.Lit? && it.Fits() && it.Head() == s[..ReadTag(s).at]
    ensures it.off == ReadTag(s).off && it.len == ReadTag(s).len
  {
    hide FromLittleEndian, Four;
    var c := s[0] as int;
    if c % 4 == 1 {
      it := Copy1Found(s);
    } else if c % 4 == 2 {
      it := Copy2Found(s);
    } else {
      FourOf(s[1..5]);
      it := Copy4(FromLittleEndian(s[1..5]), c / 4 + 1);
    }
  }

  lemma Copy2Found(s: seq<byte>) returns (it: Item)
    requires ReadTag(s).CopyTag? && s[0] % 4 == 2
    ensures it.Copy2? && it.Fits() && it.Head() == s[..ReadTag(s).at]
    ensures it.off == ReadTag(s).off && it.len == ReadTag(s).len
  {
    hide FromLittleEndian;
    it := Copy2(s[1] + 256 * s[2] as int, s[0] as int / 4 + 1);
    assert s[1..3] == [s[1], s[2]];
    assert it.off % 256 == s[1] && it.off / 256 == s[2];
  }

  lemma Copy1Found(s: seq<byte>) returns (it: Item)
    requires ReadTag(s).CopyTag? && s[0] % 4 == 1
    ensures it.Copy1? && it.Fits() && it.Head() == s[..ReadTag(s).at]
    ensures it.off == ReadTag(s).off && it.len == ReadTag(s).len
  {
    var c := s[0] as int;
    var h := c / 4 / 8;
    it := Copy1(256 * h + s[1], c / 4 % 8 + 4);
    assert s[1..2] == [s[1]];
    assert it.off / 256 == h && it.off % 256 == s[1];
    assert 1 + 4 * (it.len - 4) + 32 * h == c;
  }

  lemma LitFound(s: seq<byte>) returns (it: Item)
    requires ReadTag(s).LiteralTag? && ReadTag(s).len <= |s[ReadTag(s).at..]|
    ensures it.Lit? && it.Fits() && it.Head() == s[..ReadTag(s).at]
    ensures it.bytes == s[ReadTag(s).at..][..ReadTag(s).len]
  {
    if s[0] as int / 4 < 60 {
      var t := ReadTag(s);
      it := Lit(s[t.at..][..t.len], 0);
      assert s[..1] == [s[0]];
    } else {
      it := LongFound(s);
    }
  }

  lemma LongFound(s: seq<byte>) returns (it: Item)
    requires ReadTag(s).LiteralTag? && ReadTag(s).len <= |s[ReadTag(s).at..]| && s[0] as int / 4 >= 60
    ensures it.Lit? && it.Fits() && it.Head() == s[..ReadTag(s).at]
    ensures it.bytes == s[ReadTag(s).at..][..ReadTag(s).len]
  {
    hide FromLittleEndian, Four;
    var t := ReadTag(s);
    var w := s[0] as int / 4 - 59;
    var l := s[1..1 + w];
    FourOf(l);
    var v := FromLittleEndian(l);
    assert t == LiteralTag((v + 1) % 4294967296, 1 + w);
    it := Lit(s[t.at..][..t.len], w);
    assert (if it.bytes == [] then 4294967295 else |it.bytes| - 1) == v;
    assert s[..t.at] == [s[0]] + l;
  }

  /** What is decoded with success is the bytes of a legal list. */
  lemma {:induction false} ItemsFound(s: seq<byte>, out: seq<byte>, limit: nat, x: seq<byte>)
    returns (items: seq<Item>)
    requires Replay(s, out, limit) == Succeeds(x) && |out| <= limit
    ensures LegalFrom(out, items) && CodeFrom(out, items) == s && MeaningFrom(out, items) == x && |x| <= limit
    decreases |s|
  {
    hide ReadTag, Item.Head, Item.Fits, FromLittleEndian;
    items := [];
    var t := ReadTag(s);
    if t.NoMore? {
      NoMoreIsEnd(s);
    } else {
      var it := ItemFound(s, out, limit);
      var rest := s[|it.Bytes()|..];
      var more := ItemsFound(rest, it.Apply(out), limit, x);
      items := [it] + more;
      hide Item.Bytes, Item.Apply, Item.Possible, Replay;
      assert items[1..] == more;
      assert s == it.Bytes() + rest;
    }
  }

  lemma NoMoreIsEnd(s: seq<byte>)
    requires ReadTag(s).NoMore?
    ensures s == []
  {
  }

  /** The first item of what is decoded. */
  lemma ItemFound(s: seq<byte>, out: seq<byte>, limit: nat) returns (it: Item)
    requires Replay(s, out, limit).Succeeds? && s != []
    ensures it.Fits() && it.Possible(out) && |it.Apply(out)| <= limit
    ensures |it.Bytes()| <= |s| && s[..|it.Bytes()|] == it.Bytes()
    ensures Replay(s, out, limit) == Replay(s[|it.Bytes()|..], it.Apply(out), limit)
  {
    hide ReadTag, Item.Head, Item.Fits, CopyBack;
    var t := ReadTag(s);
    TagThere(s);
    if t.CopyTag? {
      it := CopyFound(s);
      assert it.Bytes() == it.Head();
    } else {
      it := LitFound(s);
      assert s[..t.at] + s[t.at..][..t.len] == s[..t.at + t.len];
      assert s[t.at..][t.len..] == s[t.at + t.len..];
    }
  }

  lemma TagThere(s: seq<byte>)
    requires s != []
    ensures !ReadTag(s).NoMore?
  {
  }

  /** The items mean `x`, and `s` are their bytes. */
  ghost predicate Means(s: seq<byte>, x: seq<byte>) {
    exists items: seq<Item> :: LegalFrom([], items) && CodeFrom([], items) == s && MeaningFrom([], items) == x
  }

  /** Decoding succeeds exactly on the bytes of a legal list that has room, and gives what it means. */
  lemma ReplaysExactly(s: seq<byte>, limit: nat, x: seq<byte>)
    ensures Replay(s, [], limit) == Succeeds(x) <==> Means(s, x) && |x| <= limit
  {
    hide Replay, LegalFrom, CodeFrom, MeaningFrom;
    if Replay(s, [], limit) == Succeeds(x) {
      var items := ItemsFound(s, [], limit, x);
    }
    if Means(s, x) && |x| <= limit {
      var items: seq<Item> :| LegalFrom([], items) && CodeFrom([], items) == s && MeaningFrom([], items) == x;
      ItemsReplay(items, [], limit);
    }
  }

  // ------------------------------------------------------------- the whole buffer

  /** Seven bits of the byte `i` of a length prefix, if it has so many bytes. */
  function Septet(p: seq<byte>, i: nat): int {
    if i < |p| then p[i] as int % 128 else 0
  }

  /** The bytes of a length prefix: up to five, of which the last alone is below 128. What exceeds 32 bits is lost. */
  ghost predicate Announces(p: seq<byte>, n: nat) {
    && 1 <= |p| <= 5 && p[|p| - 1] < 128 && (forall k :: 0 <= k < |p| - 1 ==> p[k] >= 128)
    && n == (Septet(p, 0) + 128 * Septet(p, 1) + 16384 * Septet(p, 2) + 2097152 * Septet(p, 3)
             + 268435456 * Septet(p, 4)) % 4294967296
  }

  lemma SeptetsAre(s: seq<byte>, n: nat)
    requires 1 <= n <= 5 && n <= |s|
    ensures (var p := s[..n];
             Value(s, n) == Septet(p, 0) + 128 * Septet(p, 1) + 16384 * Septet(p, 2) + 2097152 * Septet(p, 3)
                            + 268435456 * Septet(p, 4))
  {
    ValueUnrolled(s);
    hide Digit, Value;
  }

  /** The reader of the length prefix accepts exactly these. */
  lemma PrefixExactly(s: seq<byte>, n: nat, used: nat)
    ensures Prefix(s) == Accepted(n, used) <==> used <= |s| && Announces(s[..used], n)
  {
    hide Prefix, Septet;
    PrefixMeans(s, used);
    if used <= |s| && (Announces(s[..used], n) || Spelled(s, used)) {
      SeptetsAre(s, used);
      assert Spelled(s, used) <==> 1 <= used <= 5 && s[..used][used - 1] < 128
                                   && forall k :: 0 <= k < used - 1 ==> s[..used][k] >= 128;
    }
  }

  /** `c` is a length prefix, and the bytes of items that mean `x`, which is as long as the prefix says. */
  ghost predicate StandsFor(c: seq<byte>, x: seq<byte>) {
    exists used: nat :: used <= |c| && Announces(c[..used], |x|) && Means(c[used..], x)
  }

  /** A buffer is decompressed exactly if it is a length prefix and items that mean so many bytes. */
  lemma UncompressedExactly(c: seq<byte>, x: seq<byte>)
    ensures Uncompressed(c) == Succeeds(x) <==> StandsFor(c, x)
  {
    hide Prefix, Replay, Announces, Means;
    if Prefix(c).Accepted? {
      var p := Prefix(c);
      PrefixExactly(c, p.v, p.used);
      ReplaysExactly(c[p.used..], p.v, x);
    }
    if StandsFor(c, x) {
      var used: nat :| used <= |c| && Announces(c[..used], |x|) && Means(c[used..], x);
      PrefixExactly(c, |x|, used);
      ReplaysExactly(c[used..], |x|, x);
    }
  }
}
