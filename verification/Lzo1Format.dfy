/**
 * The byte format of LZO1 and LZO1A with five run bits. LZO1A re-marks a three-byte match that
 * follows a literal run, and is itself followed by a single literal, as one R1 code.
 */
module Lzo1Format {
  import opened Bytes
  import opened Lz77

  const R0MIN := 32
  const R0FAST := 280
  const MIN_MATCH := 3
  const MIN_MATCH_LONG := 9
  const MAX_MATCH_LONG := 264
  const MAX_OFFSET := 8192

  /** A literal run, possibly empty, followed by a match. */
  datatype Segment = Segment(lit: seq<byte>, off: nat, len: nat)

  predicate Codable(g: Segment) {
    1 <= g.off <= MAX_OFFSET && MIN_MATCH <= g.len <= MAX_MATCH_LONG
  }

  predicate AllCodable(segs: seq<Segment>) {
    forall i :: 0 <= i < |segs| ==> Codable(segs[i])
  }

  function Last(segs: seq<Segment>): Segment
    requires segs != []
  {
    segs[|segs| - 1]
  }

  function Front(segs: seq<Segment>): seq<Segment>
    requires segs != []
  {
    segs[..|segs| - 1]
  }

  /** The segments replay the first `p` bytes of `x`. */
  ghost predicate Tiles(x: seq<byte>, p: nat, segs: seq<Segment>)
    decreases |segs|
  {
    if segs == [] then p == 0 && p <= |x|
    else
      var g := Last(segs);
      var at := p - g.len;
      var start := at - |g.lit|;
      && Codable(g) && 0 <= start && p <= |x|
      && g.lit == x[start..at] && Repeats(x, at, g.off, g.len) && Tiles(x, start, Front(segs))
  }

  lemma TilesNext(x: seq<byte>, start: nat, segs: seq<Segment>, at: nat, off: nat, len: nat)
    requires Tiles(x, start, segs) && start <= at && Repeats(x, at, off, len) && Codable(Segment([], off, len))
    ensures Tiles(x, at + len, segs + [Segment(x[start..at], off, len)])
  {
    assert Front(segs + [Segment(x[start..at], off, len)]) == segs;
  }

  lemma {:induction false} TilesCodable(x: seq<byte>, p: nat, segs: seq<Segment>)
    requires Tiles(x, p, segs)
    ensures AllCodable(segs) && p <= |x|
    decreases |segs|
  {
    if segs != [] {
      TilesCodable(x, p - Last(segs).len - |Last(segs).lit|, Front(segs));
      assert segs == Front(segs) + [Last(segs)];
    }
  }

  lemma TilesLast(x: seq<byte>, p: nat, segs: seq<Segment>)
    requires Tiles(x, p, segs) && segs != []
    ensures (var g := Last(segs);
             && Codable(g) && |g.lit| + g.len <= p <= |x| && g.lit == x[p - g.len - |g.lit|..p - g.len]
             && Repeats(x, p - g.len, g.off, g.len) && Tiles(x, p - g.len - |g.lit|, Front(segs)))
  {
  }

  // -------------------------------------------------------------------- literal runs

  /** 2^k for the seven run sizes 512 to 32768. */
  function RunSize(k: nat): (n: nat)
    ensures k >= 1 ==> n >= 512
    ensures k <= 7 ==> n <= 32768
  {
    if k == 0 then 256
    else if k == 1 then 512
    else if k == 2 then 1024
    else if k == 3 then 2048
    else if k == 4 then 4096
    else if k == 5 then 8192
    else if k == 6 then 16384
    else 32768
  }

  /** The code of the longest run that has one and is not above `n`: 0 is R0FAST, `k` is 256 * 2^k. */
  function Tier(n: nat): (k: nat)
    requires n >= R0FAST
    ensures k <= 7 && R0FAST <= TierSize(k) <= n
    ensures forall j: nat :: j <= 7 && TierSize(j) <= n ==> TierSize(j) <= TierSize(k)
  {
    if n < 512 then 0
    else if n < 1024 then 1
    else if n < 2048 then 2
    else if n < 4096 then 3
    else if n < 8192 then 4
    else if n < 16384 then 5
    else if n < 32768 then 6
    else 7
  }

  function TierSize(k: nat): (n: nat)
    ensures n >= R0FAST
  {
    if k == 0 then R0FAST else RunSize(k)
  }

  /** A long run is cut greedily; what is left has a header of two bytes, or of one below R0MIN. */
  function RunCode(lit: seq<byte>): (c: seq<byte>)
    ensures (var n := |lit|; |c| <= n + if n == 0 then 0 else 1 + n / 32)
    ensures |c| >= |lit|
    decreases |lit|
  {
    var n := |lit|;
    if n >= R0FAST then
      var k := Tier(n);
      var m := TierSize(k);
      [0, R0FAST - R0MIN + k] + lit[..m] + RunCode(lit[m..])
    else if n >= R0MIN then [0, n - R0MIN] + lit
    else if n > 0 then [n] + lit
    else []
  }

  // ------------------------------------------------------------------------ matches

  function MatchCode(off: nat, len: nat): (c: seq<byte>)
    requires Codable(Segment([], off, len))
    ensures 2 <= |c| < len && c[0] >= R0MIN
  {
    var d := off - 1;
    if len < MIN_MATCH_LONG then [32 * (len - 2) + d % 32, d / 32]
    else [224 + d % 32, d / 32, len - MIN_MATCH_LONG]
  }

  /** A match of three bytes whose marker has lost its length: together with a literal, an R1 code. */
  function R1Code(off: nat): (c: seq<byte>)
    requires 1 <= off <= MAX_OFFSET
    ensures |c| == 2
  {
    [(off - 1) % 32, (off - 1) / 32]
  }

  // --------------------------------------------- the stream up to the end of a match

  /** Is the match of the last segment known to follow a literal run, so that it may become an R1 code? */
  ghost predicate Marked(r1: bool, segs: seq<Segment>)
    decreases |segs|, 0
  {
    segs != [] && (Remarks(r1, Front(segs), |Last(segs).lit|) || 1 <= |Last(segs).lit| < R0FAST)
  }

  /** A single literal behind such a match of three bytes is coded by re-marking the match. */
  ghost predicate Remarks(r1: bool, segs: seq<Segment>, run: nat)
    decreases |segs|, 1
  {
    r1 && run == 1 && segs != [] && Last(segs).len == MIN_MATCH && Marked(r1, segs)
  }

  /** What has been written when the last segment is complete. */
  ghost function Draft(r1: bool, segs: seq<Segment>): (d: seq<byte>)
    requires AllCodable(segs)
    ensures segs != [] ==> |d| >= 2
    decreases |segs|, 0
  {
    if segs == [] then []
    else
      var g := Last(segs);
      WithRun(r1, Front(segs), g.lit) + MatchCode(g.off, g.len)
  }

  /** What has been written when the literals behind the segments are, too. */
  ghost function WithRun(r1: bool, segs: seq<Segment>, lit: seq<byte>): (d: seq<byte>)
    requires AllCodable(segs)
    decreases |segs|, 2
  {
    var d := Draft(r1, segs);
    if Remarks(r1, segs, |lit|) then d[|d| - 2 := d[|d| - 2] % 32] + lit else d + RunCode(lit)
  }

  /** The whole stream: the last literals are never re-marked into a match. */
  ghost function Encode(r1: bool, segs: seq<Segment>, tail: seq<byte>): seq<byte>
    requires AllCodable(segs)
  {
    Draft(r1, segs) + RunCode(tail)
  }

  lemma RemarksMeans(r1: bool, segs: seq<Segment>, run: nat)
    requires Remarks(r1, segs, run)
    ensures r1 && run == 1 && segs != [] && Last(segs).len == MIN_MATCH && Marked(r1, segs)
  {
    hide Marked;
  }

  /** Re-marking clears the length of the last match and adds the literal. */
  lemma WithRunRemarked(r1: bool, segs: seq<Segment>, lit: seq<byte>)
    requires AllCodable(segs) && Remarks(r1, segs, |lit|)
    ensures (var d := Draft(r1, segs); WithRun(r1, segs, lit) == d[|d| - 2 := d[|d| - 2] % 32] + lit)
  {
    hide Draft, Marked;
  }

  lemma WithRunLength(r1: bool, segs: seq<Segment>, lit: seq<byte>)
    requires AllCodable(segs)
    ensures (var n := |lit|; |WithRun(r1, segs, lit)| <= |Draft(r1, segs)| + n + if n == 0 then 0 else 1 + n / 32)
  {
    hide RunCode, Draft, Marked;
  }

  /** What has been written is at most a thirty-second longer than what it stands for. */
  lemma {:induction false} DraftLength(r1: bool, x: seq<byte>, p: nat, segs: seq<Segment>)
    requires Tiles(x, p, segs) && AllCodable(segs)
    ensures |Draft(r1, segs)| <= p + p / 32
    decreases |segs|
  {
    hide WithRun, MatchCode;
    if segs != [] {
      var g := Last(segs);
      var n := |g.lit|;
      var s := p - g.len - n;
      DraftLength(r1, x, s, Front(segs));
      WithRunLength(r1, Front(segs), g.lit);
      assert s / 32 + n / 32 <= (s + n) / 32;
    }
  }
}
