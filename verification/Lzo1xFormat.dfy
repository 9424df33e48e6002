/** The LZO1X-1 byte format, specified with one segment of lookahead instead of back-patching. */
module Lzo1xFormat {
  import opened Bytes
  import opened Lz77
  import opened Lzo1xDecoder

  const M2_MAX_LEN := 8
  const M3_MAX_LEN := 33
  const M4_MAX_LEN := 9

  /** A literal run followed by a match. */
  datatype Segment = Segment(lit: seq<byte>, off: nat, len: nat)

  const EOF_MARK: seq<byte> := [17, 0, 0]

  /** The segments can be replayed behind `out`, and every match fits the format. */
  ghost predicate Valid(out: seq<byte>, segs: seq<Segment>)
    decreases |segs|
  {
    segs != [] ==>
      var g := segs[0];
      && 4 <= g.len && 1 <= g.off <= M4_MAX_OFFSET && g.off <= |out| + |g.lit|
      && Valid(CopyBack(out + g.lit, g.off, g.len), segs[1..])
  }

  /** What the segments mean. */
  function Expand(out: seq<byte>, segs: seq<Segment>): (r: seq<byte>)
    requires Valid(out, segs)
    ensures |r| >= |out|
    decreases |segs|
  {
    if segs == [] then out
    else Expand(CopyBack(out + segs[0].lit, segs[0].off, segs[0].len), segs[1..])
  }

  lemma ExpandCons(out: seq<byte>, g: Segment, segs: seq<Segment>)
    requires 4 <= g.len && 1 <= g.off <= M4_MAX_OFFSET && g.off <= |out| + |g.lit|
    requires Valid(CopyBack(out + g.lit, g.off, g.len), segs)
    ensures Valid(out, [g] + segs)
    ensures Expand(out, [g] + segs) == Expand(CopyBack(out + g.lit, g.off, g.len), segs)
  {
    assert ([g] + segs)[1..] == segs;
  }

  /** A length beyond its field: 255 per zero byte, then the rest. */
  function Extension(n: nat): (s: seq<byte>)
    requires n >= 1
    ensures |s| == 1 + (n - 1) / 255
  {
    if n > 255 then [0] + Extension(n - 255) else [n]
  }

  function RunHeader(n: nat): (s: seq<byte>)
    requires n >= 4
  {
    if n <= 18 then [n - 3] else [0] + Extension(n - 18)
  }

  /** A literal run behind a match; up to three literals need no header. */
  function Literals(run: seq<byte>): seq<byte> {
    if |run| <= 3 then run else RunHeader(|run|) + run
  }

  /** A match marker with its optional extension, then the two offset bytes. */
  function MarkedMatch(marker: byte, extra: nat, d: nat, s: nat): (c: seq<byte>)
    requires s < 4
    ensures |c| == 3 + (if extra == 0 then 0 else |Extension(extra)|)
    ensures c[0] == marker && c[|c| - 2] == 4 * (d % 64) + s && c[|c| - 1] == d / 64 % 256
    ensures c[|c| - 2] % 4 == s
  {
    [marker] + (if extra == 0 then [] else Extension(extra)) + [4 * (d % 64) + s, d / 64 % 256]
  }

  /** A match whose last-but-one byte carries `s`, the length of the next short run, in its low bits. */
  function MatchCode(off: nat, len: nat, s: nat): (c: seq<byte>)
    requires 1 <= off <= M4_MAX_OFFSET && 4 <= len && s < 4
    ensures |c| >= 2 && c[|c| - 2] % 4 == s
  {
    if len <= M2_MAX_LEN && off <= M2_MAX_OFFSET then
      var d := off - 1;
      [32 * (len - 1) + 4 * (d % 8) + s, d / 8]
    else if off <= M3_MAX_OFFSET then
      if len <= M3_MAX_LEN then MarkedMatch(32 + (len - 2), 0, off - 1, s)
      else MarkedMatch(32, len - M3_MAX_LEN, off - 1, s)
    else
      var d := off - 0x4000;
      var high := 8 * (d / 0x4000);
      if len <= M4_MAX_LEN then MarkedMatch(16 + high + (len - 2), 0, d, s)
      else MarkedMatch(16 + high, len - M4_MAX_LEN, d, s)
  }

  /** The literals that come next. */
  function NextRun(segs: seq<Segment>, tail: seq<byte>): seq<byte> {
    if segs == [] then tail else segs[0].lit
  }

  /** How many literals the preceding match announces. */
  function NextShort(segs: seq<Segment>, tail: seq<byte>): (s: nat)
    ensures s < 4
  {
    var n := |NextRun(segs, tail)|;
    if n <= 3 then n else 0
  }

  predicate Codable(segs: seq<Segment>) {
    forall i :: 0 <= i < |segs| ==> 1 <= segs[i].off <= M4_MAX_OFFSET && 4 <= segs[i].len
  }

  /** The stream behind a match: literals, then the rest. */
  function EncodeRest(segs: seq<Segment>, tail: seq<byte>): seq<byte>
    requires Codable(segs)
    decreases |segs|, 1
  {
    Literals(NextRun(segs, tail)) + EncodeBehind(segs, tail)
  }

  /** The stream behind a literal run: a match or the end. */
  function EncodeBehind(segs: seq<Segment>, tail: seq<byte>): (c: seq<byte>)
    requires Codable(segs)
    ensures |c| >= 2
    decreases |segs|, 0
  {
    if segs == [] then EOF_MARK
    else MatchCode(segs[0].off, segs[0].len, NextShort(segs[1..], tail)) + EncodeRest(segs[1..], tail)
  }

  /** The whole stream; a lone literal run of at most 238 bytes has a one-byte header. */
  function Encode(segs: seq<Segment>, tail: seq<byte>): seq<byte>
    requires Codable(segs)
  {
    if segs == [] && 1 <= |tail| <= 238 then [17 + |tail|] + tail + EOF_MARK
    else EncodeRest(segs, tail)
  }

  lemma {:induction false} ValidCodable(out: seq<byte>, segs: seq<Segment>)
    requires Valid(out, segs)
    ensures Codable(segs)
    decreases |segs|
  {
    if segs != [] {
      ValidCodable(CopyBack(out + segs[0].lit, segs[0].off, segs[0].len), segs[1..]);
      assert forall i :: 0 < i < |segs| ==> segs[i] == segs[1..][i - 1];
    }
  }

  // ------------------------------------------------- the stream as it is written

  /**
   * What the compressor has written behind the last match of `segs`, when the short run that follows
   * it has length `s`. It is first written with `s == 0`, and patched when the run is known.
   */
  function Draft(segs: seq<Segment>, s: nat): seq<byte>
    requires Codable(segs) && s < 4
    decreases |segs|
  {
    if segs == [] then []
    else
      var g := segs[|segs| - 1];
      Draft(segs[..|segs| - 1], NextShort([], g.lit)) + Literals(g.lit) + MatchCode(g.off, g.len, s)
  }

  lemma DraftSnoc(segs: seq<Segment>, g: Segment, s: nat)
    requires Codable(segs) && 1 <= g.off <= M4_MAX_OFFSET && 4 <= g.len && s < 4
    ensures Codable(segs + [g])
    ensures Draft(segs + [g], s) == Draft(segs, NextShort([], g.lit)) + Literals(g.lit) + MatchCode(g.off, g.len, s)
  {
    assert (segs + [g])[..|segs + [g]| - 1] == segs;
  }

  /** Patching adds the length of the short run to the last byte but one. */
  lemma DraftPatch(segs: seq<Segment>, s: nat)
    requires Codable(segs) && s < 4
    ensures segs == [] ==> Draft(segs, s) == []
    ensures segs != [] ==>
              var d := Draft(segs, 0);
              |d| >= 2 && d[|d| - 2] % 4 == 0 && d[|d| - 2] + s < 256 && Draft(segs, s) == d[|d| - 2 := d[|d| - 2] + s]
  {
    hide MatchCode, Literals;
    if segs != [] {
      var g := segs[|segs| - 1];
      var pre := Draft(segs[..|segs| - 1], NextShort([], g.lit)) + Literals(g.lit);
      var c := MatchCode(g.off, g.len, 0);
      MatchCodePatch(g.off, g.len, s);
      assert (pre + c)[|pre + c| - 2] == c[|c| - 2];
      assert pre + c[|c| - 2 := c[|c| - 2] + s] == (pre + c)[|pre + c| - 2 := c[|c| - 2] + s];
    }
  }

  lemma MatchCodePatch(off: nat, len: nat, s: nat)
    requires 1 <= off <= M4_MAX_OFFSET && 4 <= len && s < 4
    ensures (var c := MatchCode(off, len, 0);
             c[|c| - 2] + s < 256 && MatchCode(off, len, s) == c[|c| - 2 := c[|c| - 2] + s])
  {
  }

  /** The patched draft is the lookahead encoding. */
  lemma {:induction false} DraftRest(a: seq<Segment>, b: seq<Segment>, tail: seq<byte>)
    requires Codable(a) && Codable(b)
    ensures Codable(a + b)
    ensures EncodeRest(a + b, tail) == Draft(a, NextShort(b, tail)) + EncodeRest(b, tail)
    decreases |a|
  {
    hide MatchCode, Literals, EncodeBehind;
    if a == [] {
      assert a + b == b;
    } else {
      hide EncodeRest, Draft, NextShort, Codable;
      var g := a[|a| - 1];
      var a' := a[..|a| - 1];
      assert a == a' + [g] && a + b == a' + ([g] + b);
      CodableParts(a', g, b);
      DraftRest(a', [g] + b, tail);
      DraftSnoc(a', g, NextShort(b, tail));
      EncodeRestCons(g, b, tail);
      Reassociate(Draft(a', NextShort([], g.lit)), Literals(g.lit), MatchCode(g.off, g.len, NextShort(b, tail)),
                  EncodeRest(b, tail));
    }
  }

  lemma CodableParts(a: seq<Segment>, g: Segment, b: seq<Segment>)
    requires Codable(a + [g]) && Codable(b)
    ensures Codable(a) && 1 <= g.off <= M4_MAX_OFFSET && 4 <= g.len && Codable([g] + b)
  {
    assert (a + [g])[|a|] == g;
    forall i | 0 <= i < |a| ensures 1 <= a[i].off <= M4_MAX_OFFSET && 4 <= a[i].len {
      assert a[i] == (a + [g])[i];
    }
  }

  lemma Reassociate(d: seq<byte>, l: seq<byte>, c: seq<byte>, r: seq<byte>)
    ensures d + (l + c + r) == d + l + c + r
  {
  }

  lemma EncodeRestCons(g: Segment, b: seq<Segment>, tail: seq<byte>)
    requires 1 <= g.off <= M4_MAX_OFFSET && 4 <= g.len && Codable(b)
    ensures Codable([g] + b)
    ensures EncodeRest([g] + b, tail)
         == Literals(g.lit) + MatchCode(g.off, g.len, NextShort(b, tail)) + EncodeRest(b, tail)
  {
    hide MatchCode, Literals;
    assert ([g] + b)[1..] == b;
  }

  // ------------------------------------------------------------------ size

  lemma LiteralsLength(run: seq<byte>)
    ensures |Literals(run)| <= |run| + 1 + |run| / 16
  {
  }

  lemma MatchCodeLength(off: nat, len: nat, s: nat)
    requires 1 <= off <= M4_MAX_OFFSET && 4 <= len && s < 4
    ensures |MatchCode(off, len, s)| < len
  {
  }

  /** Every suffix of a stream is at most a sixteenth, and 4 bytes, longer than what it produces. */
  lemma {:induction false} EncodeRestLength(out: seq<byte>, segs: seq<Segment>, tail: seq<byte>)
    requires Valid(out, segs)
    ensures (ValidCodable(out, segs);
             var n := |Expand(out, segs)| + |tail| - |out|;
             |EncodeRest(segs, tail)| <= n + n / 16 + 4)
    decreases |segs|
  {
    ValidCodable(out, segs);
    if segs == [] {
      LiteralsLength(tail);
    } else {
      var g := segs[0];
      var out' := CopyBack(out + g.lit, g.off, g.len);
      EncodeRestLength(out', segs[1..], tail);
      LiteralsLength(g.lit);
      MatchCodeLength(g.off, g.len, NextShort(segs[1..], tail));
    }
  }

  // ------------------------------------------------------------ decoding back

  /** `code` stands in the input at `ip`. */
  ghost predicate Here(e: Env, ip: nat, code: seq<byte>) {
    ip + |code| <= |e.input| && e.input[ip..ip + |code|] == code
  }

  lemma HereAt(e: Env, ip: nat, code: seq<byte>, k: nat)
    requires Here(e, ip, code) && k < |code|
    ensures e.input[ip + k] == code[k]
  {
    assert e.input[ip..ip + |code|][k] == e.input[ip + k];
  }

  lemma HereSplit(e: Env, ip: nat, a: seq<byte>, b: seq<byte>)
    requires Here(e, ip, a + b)
    ensures Here(e, ip, a) && Here(e, ip + |a|, b)
  {
    var s := e.input[ip..ip + |a + b|];
    assert e.input[ip..ip + |a|] == s[..|a|] == a;
    assert e.input[ip + |a|..ip + |a| + |b|] == s[|a|..] == b;
  }

  lemma {:induction false} ScanExtension(e: Env, ip: nat, n: nat, t: nat)
    requires n >= 1 && Here(e, ip, Extension(n)) && t + n < e.word
    ensures ScanLength(e, ip, t) == Scan(t + n, ip + |Extension(n)|)
    decreases n
  {
    HereAt(e, ip, Extension(n), 0);
    ScanPlain(e, ip, t);
    hide ScanLength;
    if n > 255 {
      HereSplit(e, ip, [0], Extension(n - 255));
      ScanExtension(e, ip + 1, n - 255, t + 255);
    }
  }

  lemma OffsetBytes(d: nat, s: nat)
    requires s < 4
    ensures (4 * (d % 64) + s) / 4 == d % 64 && (4 * (d % 64) + s) % 4 == s
    ensures d % 64 + 64 * (d / 64) == d
  {
  }

  lemma M2Bytes(d: nat, n: nat, s: nat)
    requires s < 4 && n < 8
    ensures (var t := 32 * n + 4 * (d % 8) + s; t / 32 == n && t / 4 % 8 == d % 8 && t % 4 == s)
    ensures d % 8 + 8 * (d / 8) == d
  {
    var t := 32 * n + 4 * (d % 8) + s;
    assert t / 4 == 8 * n + d % 8;
  }

  lemma M4Bytes(d: nat)
    requires d < 0x8000
    ensures d % 64 + 64 * (d / 64 % 256) + 0x4000 * (d / 0x4000) == d
  {
    assert d / 64 / 256 == d / 0x4000;
  }

  lemma MarkedMatchReads(e: Env, ip: nat, marker: byte, extra: nat, d: nat, s: nat, t: nat)
    requires s < 4 && Here(e, ip, MarkedMatch(marker, extra, d, s)) && t + extra < e.word
    ensures (var p := ip + |MarkedMatch(marker, extra, d, s)|;
             && ip + 3 <= p <= |e.input| && e.input[ip] == marker && e.input[p - 2] == 4 * (d % 64) + s
                 && e.input[p - 1] == d / 64 % 256
             && (extra != 0 ==> ScanLength(e, ip + 1, t) == Scan(t + extra, p - 2)))
  {
    var c := MarkedMatch(marker, extra, d, s);
    HereAt(e, ip, c, 0);
    HereAt(e, ip, c, |c| - 2);
    HereAt(e, ip, c, |c| - 1);
    if extra != 0 {
      HereSplit(e, ip, [marker] + Extension(extra), [4 * (d % 64) + s, d / 64 % 256]);
      HereSplit(e, ip, [marker], Extension(extra));
      ScanExtension(e, ip + 1, extra, t);
    }
  }

  lemma M2Reads(e: Env, ip: nat, off: nat, len: nat, s: nat)
    requires 1 <= off <= M2_MAX_OFFSET && 4 <= len <= M2_MAX_LEN && s < 4
    requires Here(e, ip, MatchCode(off, len, s))
    ensures e.input[ip] >= 16 && e.input[ip] % 4 == s
    ensures ReadHeader(e, e.input[ip], ip + 1) == Match(off, len, ip + 2)
  {
    HereAt(e, ip, MatchCode(off, len, s), 0);
    HereAt(e, ip, MatchCode(off, len, s), 1);
    M2Bytes(off - 1, len - 1, s);
  }

  lemma NearReads(e: Env, l: nat, p: nat, off: nat, s: nat)
    requires 1 <= off <= M3_MAX_OFFSET && s < 4 && 1 <= l && l + 2 < e.word && p + 2 <= |e.input|
    requires e.input[p] == 4 * ((off - 1) % 64) + s && e.input[p + 1] == (off - 1) / 64 % 256
    ensures NearHeader(e, Scan(l, p)) == Match(off, l + 2, p + 2)
  {
    OffsetBytes(off - 1, s);
    CountsPlain(l, off, e.word, e.wide);
    hide MatchCount;
  }

  lemma FarReads(e: Env, t: byte, l: nat, p: nat, off: nat, s: nat)
    requires M3_MAX_OFFSET < off <= M4_MAX_OFFSET && s < 4 && 1 <= l && l + 2 < e.word && p + 2 <= |e.input|
    requires (var d := off - 0x4000;
              && t / 8 % 2 == d / 0x4000
              && e.input[p] == 4 * (d % 64) + s && e.input[p + 1] == d / 64 % 256)
    ensures FarHeader(e, t, Scan(l, p)) == Match(off, l + 2, p + 2)
  {
    var d := off - 0x4000;
    OffsetBytes(d, s);
    M4Bytes(d);
    CountsPlain(l, off, e.word, e.wide);
    hide MatchCount;
  }

  lemma M3Reads(e: Env, ip: nat, off: nat, len: nat, s: nat)
    requires 1 <= off <= M3_MAX_OFFSET && 4 <= len && (len > M2_MAX_LEN || off > M2_MAX_OFFSET) && s < 4
    requires Here(e, ip, MatchCode(off, len, s)) && len < e.word
    ensures e.input[ip] >= 16 && e.input[ip + |MatchCode(off, len, s)| - 2] % 4 == s
    ensures ReadHeader(e, e.input[ip], ip + 1) == Match(off, len, ip + |MatchCode(off, len, s)|)
  {
    hide MarkedMatch, Here, ScanLength, Extension, NearHeader;
    var marker := if len <= M3_MAX_LEN then 32 + (len - 2) else 32;
    var extra := if len <= M3_MAX_LEN then 0 else len - M3_MAX_LEN;
    MarkedMatchReads(e, ip, marker, extra, off - 1, s, 31);
    NearReads(e, len - 2, ip + |MatchCode(off, len, s)| - 2, off, s);
  }

  lemma M4Reads(e: Env, ip: nat, off: nat, len: nat, s: nat)
    requires M3_MAX_OFFSET < off <= M4_MAX_OFFSET && 4 <= len && s < 4
    requires Here(e, ip, MatchCode(off, len, s)) && len < e.word
    ensures e.input[ip] >= 16 && e.input[ip + |MatchCode(off, len, s)| - 2] % 4 == s
    ensures ReadHeader(e, e.input[ip], ip + 1) == Match(off, len, ip + |MatchCode(off, len, s)|)
  {
    hide MarkedMatch, Here, ScanLength, Extension, FarHeader;
    var d := off - 0x4000;
    var h := d / 0x4000;
    assert h <= 1;
    var marker := 16 + 8 * h + if len <= M4_MAX_LEN then len - 2 else 0;
    var extra := if len <= M4_MAX_LEN then 0 else len - M4_MAX_LEN;
    assert marker / 8 % 2 == h && marker % 8 == if len <= M4_MAX_LEN then len - 2 else 0;
    MarkedMatchReads(e, ip, marker, extra, d, s, 7);
    FarReads(e, marker, len - 2, ip + |MatchCode(off, len, s)| - 2, off, s);
  }

  /** A coded match reads back as itself, with the announced short run two bytes before its end. */
  lemma MatchReads(e: Env, ip: nat, off: nat, len: nat, s: nat)
    requires 1 <= off <= M4_MAX_OFFSET && 4 <= len && s < 4
    requires Here(e, ip, MatchCode(off, len, s)) && len < e.word
    ensures (var p := ip + |MatchCode(off, len, s)|;
             && e.input[ip] >= 16
             && ReadHeader(e, e.input[ip], ip + 1) == Match(off, len, p)
             && e.input[p - 2] % 4 == s)
  {
    if len <= M2_MAX_LEN && off <= M2_MAX_OFFSET {
      M2Reads(e, ip, off, len, s);
    } else if off <= M3_MAX_OFFSET {
      M3Reads(e, ip, off, len, s);
    } else {
      M4Reads(e, ip, off, len, s);
    }
  }
}
