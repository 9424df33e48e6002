/** lzo1_compress and lzo1a_compress: the loops over the dictionary and the output buffer. */
module Lzo1Compress {
  import opened Bytes
  import opened Lz77
  import opened Lzo1Format
  import opened Lzo1Parse

  /** The output begins with `code`, and that is all that has been written. */
  ghost predicate Holds(dst: array<byte>, op: nat, code: seq<byte>)
    reads dst
  {
    op == |code| <= dst.Length && dst[..op] == code
  }

  /** `*op++ = b` */
  method Put(dst: array<byte>, op: nat, b: byte, ghost code: seq<byte>)
    requires Holds(dst, op, code) && op < dst.Length
    modifies dst
    ensures Holds(dst, op + 1, code + [b])
    ensures Untouched(dst, op + 1)
  {
    dst[op] := b;
  }

  /** MEMCPY8_DS and MEMCPY_DS from the input. */
  method PutAll(dst: array<byte>, op0: nat, x: seq<byte>, ii: nat, t: nat, ghost code: seq<byte>) returns (op: nat)
    requires Holds(dst, op0, code) && ii + t <= |x| && op0 + t <= dst.Length
    modifies dst
    ensures Holds(dst, op, code + x[ii..ii + t])
    ensures op0 <= op && Untouched(dst, op)
  {
    forall i | 0 <= i < t {
      dst[op0 + i] := x[ii + i];
    }
    op := op0 + t;
    assert dst[..op0] == code && dst[op0..op] == x[ii..ii + t];
    assert dst[..op] == dst[..op0] + dst[op0..op];
  }

  /** A piece of a long run: its header, then its bytes. */
  method PutPiece(dst: array<byte>, op0: nat, x: seq<byte>, ii: nat, k: nat, ghost left: nat, ghost code: seq<byte>)
    returns (op: nat)
    requires R0FAST <= left && ii + left <= |x| && k == Tier(left)
    requires Holds(dst, op0, code) && op0 + |RunCode(x[ii..ii + left])| <= dst.Length
    modifies dst
    ensures (var m := TierSize(k);
             && m <= left
             && Holds(dst, op, code + ([0, R0FAST - R0MIN + k] + x[ii..ii + m]))
             && code + RunCode(x[ii..ii + left])
                == code + ([0, R0FAST - R0MIN + k] + x[ii..ii + m]) + RunCode(x[ii + m..ii + left]))
    ensures op0 <= op && Untouched(dst, op)
  {
    hide TierSize, Tier, Holds;
    PieceSplits(x, ii, left, code);
    var m := TierSize(k);
    HoldsLength(dst, op0, code);
    Put(dst, op0, 0, code);
    Put(dst, op0 + 1, R0FAST - R0MIN + k, code + [0]);
    op := PutAll(dst, op0 + 2, x, ii, m, code + [0] + [R0FAST - R0MIN + k]);
    assert code + [0] + [R0FAST - R0MIN + k] + x[ii..ii + m] == code + ([0, R0FAST - R0MIN + k] + x[ii..ii + m]);
  }

  lemma HoldsLength(dst: array<byte>, op: nat, code: seq<byte>)
    requires Holds(dst, op, code)
    ensures op == |code| <= dst.Length
  {
  }

  lemma RunCodeLong(lit: seq<byte>)
    requires R0FAST <= |lit|
    ensures (var k := Tier(|lit|);
             var m := TierSize(k);
             k <= 7 && m <= |lit| && RunCode(lit) == [0, R0FAST - R0MIN + k] + lit[..m] + RunCode(lit[m..]))
  {
    hide TierSize, Tier;
  }

  lemma Regroup(code: seq<byte>, a: seq<byte>, b: seq<byte>, c: seq<byte>)
    ensures code + (a + b + c) == code + (a + b) + c && |a + b + c| == |a| + |b| + |c|
  {
  }

  /** How the code of a long run begins. */
  lemma PieceSplits(x: seq<byte>, ii: nat, left: nat, code: seq<byte>)
    requires R0FAST <= left && ii + left <= |x|
    ensures Tier(left) <= 7 && TierSize(Tier(left)) <= left
    ensures (var k := Tier(left);
             var m := TierSize(k);
             var piece := [0, R0FAST - R0MIN + k] + x[ii..ii + m];
             && |RunCode(x[ii..ii + left])| >= 2 + m
             && code + RunCode(x[ii..ii + left]) == code + piece + RunCode(x[ii + m..ii + left]))
  {
    hide TierSize, Tier, RunCode;
    var lit := x[ii..ii + left];
    var k := Tier(left);
    var m := TierSize(k);
    RunCodeLong(lit);
    assert lit[..m] == x[ii..ii + m] && lit[m..] == x[ii + m..ii + left];
    Regroup(code, [0, R0FAST - R0MIN + k], x[ii..ii + m], RunCode(x[ii + m..ii + left]));
  }

  /** What has been written and what the rest of the run adds to it. */
  ghost predicate Storing(dst: array<byte>, op: nat, x: seq<byte>, ii: nat, left: nat, done: seq<byte>, goal: seq<byte>)
    reads dst
  {
    ii + left <= |x| && |goal| <= dst.Length && Holds(dst, op, done) && done + RunCode(x[ii..ii + left]) == goal
  }

  /** The pieces of one size. */
  method StorePieces(dst: array<byte>, op0: nat, x: seq<byte>, ii0: nat, left0: nat, k: nat, ghost done0: seq<byte>,
          ghost goal: seq<byte>)
    returns (op: nat, ii: nat, left: nat, ghost done: seq<byte>)
    requires k <= 7 && (k < 7 ==> left0 < 2 * RunSize(k)) && Storing(dst, op0, x, ii0, left0, done0, goal)
    modifies dst
    ensures Storing(dst, op, x, ii, left, done, goal) && left < if k == 0 then R0FAST else RunSize(k)
    ensures op0 <= op && Untouched(dst, op)
  {
    hide RunCode, TierSize;
    var size := if k == 0 then R0FAST else RunSize(k);
    op, ii, left, done := op0, ii0, left0, done0;
    while left >= size
      invariant (k < 7 ==> left < 2 * RunSize(k)) && Storing(dst, op, x, ii, left, done, goal)
      invariant op0 <= op && Untouched(dst, op)
    {
      PieceIs(k, left);
      op := PutPiece(dst, op, x, ii, k, left, done);
      done := done + ([0, R0FAST - R0MIN + k] + x[ii..ii + size]);
      ii, left := ii + size, left - size;
    }
  }

  /** store_run: pieces of 32768 down to 512, then of 280, then what is left. */
  method StoreRun(dst: array<byte>, op0: nat, x: seq<byte>, start: nat, t: nat, ghost code: seq<byte>) returns (op: nat)
    requires 1 <= t && start + t <= |x|
    requires Holds(dst, op0, code) && op0 + |RunCode(x[start..start + t])| <= dst.Length
    modifies dst
    ensures Holds(dst, op, code + RunCode(x[start..start + t]))
    ensures op0 <= op && Untouched(dst, op)
  {
    hide RunCode, Holds;
    HoldsLength(dst, op0, code);
    ghost var goal := code + RunCode(x[start..start + t]);
    ghost var done: seq<byte>;
    var ii: nat, left: nat;
    op, ii, left, done := op0, start, t, code;
    if left >= 512 {
      var bits := 7;
      while bits > 0
        invariant 0 <= bits <= 7 && (bits < 7 ==> left < 2 * RunSize(bits)) && Storing(dst, op, x, ii, left, done, goal)
        invariant op0 <= op && Untouched(dst, op)
        decreases bits
      {
        op, ii, left, done := StorePieces(dst, op, x, ii, left, bits, done, goal);
        bits := bits - 1;
      }
    }
    op, ii, left, done := StorePieces(dst, op, x, ii, left, 0, done, goal);
    HoldsLength(dst, op, done);
    op := StoreRest(dst, op, x, ii, left, done);
  }

  /** Which piece is cut off. */
  lemma PieceIs(k: nat, left: nat)
    requires k <= 7 && left >= if k == 0 then R0FAST else RunSize(k)
    requires k < 7 ==> left < 2 * RunSize(k)
    ensures left >= R0FAST && Tier(left) == k && TierSize(k) == if k == 0 then R0FAST else RunSize(k)
  {
  }

  /** The last piece of a run, below R0FAST. */
  method StoreRest(dst: array<byte>, op0: nat, x: seq<byte>, ii: nat, left: nat, ghost code: seq<byte>)
    returns (op: nat)
    requires left < R0FAST && ii + left <= |x|
    requires Holds(dst, op0, code) && op0 + |RunCode(x[ii..ii + left])| <= dst.Length
    modifies dst
    ensures Holds(dst, op, code + RunCode(x[ii..ii + left]))
    ensures op0 <= op && Untouched(dst, op)
  {
    ghost var lit := x[ii..ii + left];
    if left >= R0MIN {
      Put(dst, op0, 0, code);
      Put(dst, op0 + 1, left - R0MIN, code + [0]);
      op := PutAll(dst, op0 + 2, x, ii, left, code + [0] + [left - R0MIN]);
      assert code + [0] + [left - R0MIN] + lit == code + ([0, left - R0MIN] + lit);
    } else if left > 0 {
      Put(dst, op0, left, code);
      op := PutAll(dst, op0 + 1, x, ii, left, code + [left]);
      assert code + [left] + lit == code + ([left] + lit);
    } else {
      op := op0;
      assert code + [] == code;
    }
  }

  // ---------------------------------------------------------------- literals, matches

  /** Where the R1 pointer of LZO1A stands: at the last match if an R1 code may follow, else far from it. */
  ghost predicate Points(r1: int, limit: int, segs: seq<Segment>, p: nat) {
    if segs == [] then r1 == limit
    else
      var at := p - Last(segs).len;
      if Marked(true, segs) then r1 == at else r1 == limit || r1 + MIN_MATCH <= at
  }

  /** What has been emitted for the first `p` bytes of `x`. */
  ghost predicate Emitted(dst: array<byte>, tu: Tuning, x: seq<byte>, segs: seq<Segment>, op: nat, p: nat, r1: int)
    reads dst
  {
    && Tiles(x, p, segs) && AllCodable(segs) && Holds(dst, op, Draft(tu.r1, segs))
    && p <= |x| && |x| + |x| / 32 + 1 <= dst.Length
    && (tu.r1 ==> Points(r1, Limit(x), segs, p))
  }

  /** The distance of the R1 pointer tells whether the pending literal goes into the last match. */
  lemma R1Distance(x: seq<byte>, segs: seq<Segment>, p: nat, r1: int, at: nat)
    requires Tiles(x, p, segs) && Points(r1, Limit(x), segs, p) && p < at < Limit(x)
    ensures at - r1 == MIN_MATCH + 1 <==> Remarks(true, segs, at - p)
  {
    hide Marked, Tiles;
    if segs != [] {
      LastCodable(x, p, segs);
    }
  }

  lemma LastCodable(x: seq<byte>, p: nat, segs: seq<Segment>)
    requires Tiles(x, p, segs) && segs != []
    ensures MIN_MATCH <= Last(segs).len <= p && |Last(segs).lit| <= p - Last(segs).len
  {
  }

  lemma MarkedSnoc(r1: bool, segs: seq<Segment>, g: Segment)
    ensures Last(segs + [g]) == g && Front(segs + [g]) == segs
    ensures Marked(r1, segs + [g]) == (Remarks(r1, segs, |g.lit|) || 1 <= |g.lit| < R0FAST)
  {
    assert Front(segs + [g]) == segs;
    hide Remarks;
  }

  /** The room that literals need. */
  lemma RunFits(tu: Tuning, x: seq<byte>, p: nat, segs: seq<Segment>, at: nat)
    requires Tiles(x, p, segs) && AllCodable(segs) && p <= at <= |x|
    ensures |Draft(tu.r1, segs)| <= p + p / 32
    ensures (var n := |WithRun(tu.r1, segs, x[p..at])|; n <= at + at / 32 + 1)
    ensures |Draft(tu.r1, segs)| + |RunCode(x[p..at])| <= at + at / 32 + 1
  {
    hide Draft, WithRun, RunCode, Tiles, AllCodable;
    DraftLength(tu.r1, x, p, segs);
    WithRunLength(tu.r1, segs, x[p..at]);
    RunCodeLength(x[p..at]);
    assert p / 32 + (at - p) / 32 <= at / 32;
  }

  lemma NotRemarked(r1: bool, segs: seq<Segment>, lit: seq<byte>)
    requires AllCodable(segs) && !Remarks(r1, segs, |lit|)
    ensures WithRun(r1, segs, lit) == Draft(r1, segs) + RunCode(lit)
  {
    hide RunCode, Draft, Remarks;
  }

  /** The multiplexed literal: `op[-2] &= OMASK; *op++ = *ii;` */
  method Remark(dst: array<byte>, op0: nat, b: byte, ghost segs: seq<Segment>) returns (op: nat)
    requires AllCodable(segs) && Remarks(true, segs, 1) && Holds(dst, op0, Draft(true, segs)) && op0 < dst.Length
    modifies dst
    ensures Holds(dst, op, WithRun(true, segs, [b]))
    ensures op0 <= op && Untouched(dst, op)
  {
    hide Draft, WithRun, Marked, MatchCode;
    WithRunRemarked(true, segs, [b]);
    DraftEnds(segs);
    ghost var d := Draft(true, segs);
    assert dst[op0 - 2] == d[op0 - 2];
    dst[op0 - 2] := dst[op0 - 2] % 32;
    assert dst[..op0] == d[|d| - 2 := d[|d| - 2] % 32];
    dst[op0] := b;
    op := op0 + 1;
  }

  lemma DraftEnds(segs: seq<Segment>)
    requires AllCodable(segs) && segs != []
    ensures |Draft(true, segs)| >= 2
  {
  }

  /** The literals before a match at `at`; the R1 pointer moves there when an R1 code may follow it. */
  method EmitLiterals(dst: array<byte>, tu: Tuning, x: seq<byte>, op0: nat, ii: nat, at: nat, r10: int,
          ghost segs: seq<Segment>)
    returns (op: nat, r1: int)
    requires Emitted(dst, tu, x, segs, op0, ii, r10) && ii <= at < Limit(x)
    modifies dst
    ensures Holds(dst, op, WithRun(tu.r1, segs, x[ii..at]))
    ensures r1 == if Remarks(tu.r1, segs, at - ii) || 1 <= at - ii < R0FAST then at else r10
    ensures op0 <= op && Untouched(dst, op)
  {
    hide Draft, WithRun, RunCode, Marked, Holds, Points, Tiles, AllCodable;
    var t := at - ii;
    op, r1 := op0, r10;
    RunFits(tu, x, ii, segs, at);
    HoldsLength(dst, op0, Draft(tu.r1, segs));
    if t > 0 {
      if tu.r1 {
        R1Distance(x, segs, ii, r10, at);
        if at - r10 == MIN_MATCH + 1 {
          assert x[ii..at] == [x[ii]];
          op := Remark(dst, op0, x[ii], segs);
          return op, at;
        }
      }
      NotRemarked(tu.r1, segs, x[ii..at]);
      op := StoreRun(dst, op0, x, ii, t, Draft(tu.r1, segs));
      if t < R0FAST {
        r1 := at;
      }
    } else {
      NotRemarked(tu.r1, segs, x[ii..at]);
      NoRun(x[ii..at], Draft(tu.r1, segs));
    }
  }

  lemma NoRun(lit: seq<byte>, d: seq<byte>)
    requires lit == []
    ensures d + RunCode(lit) == d
  {
  }

  /** A match: length and low bits of the offset, its high bits, and a length byte for a long one. */
  method EmitMatch(dst: array<byte>, op0: nat, off: nat, len: nat, ghost code: seq<byte>) returns (op: nat)
    requires Codable(Segment([], off, len)) && Holds(dst, op0, code) && op0 + |MatchCode(off, len)| <= dst.Length
    modifies dst
    ensures Holds(dst, op, code + MatchCode(off, len))
    ensures op0 <= op && Untouched(dst, op)
  {
    hide Holds;
    HoldsLength(dst, op0, code);
    var d := off - 1;
    if len < MIN_MATCH_LONG {
      Put(dst, op0, 32 * (len - 2) + d % 32, code);
      Put(dst, op0 + 1, d / 32, code + [32 * (len - 2) + d % 32]);
      op := op0 + 2;
      assert code + [32 * (len - 2) + d % 32] + [d / 32] == code + MatchCode(off, len);
    } else {
      Put(dst, op0, 224 + d % 32, code);
      Put(dst, op0 + 1, d / 32, code + [224 + d % 32]);
      Put(dst, op0 + 2, len - MIN_MATCH_LONG, code + [224 + d % 32] + [d / 32]);
      op := op0 + 3;
      assert code + [224 + d % 32] + [d / 32] + [len - MIN_MATCH_LONG] == code + MatchCode(off, len);
    }
  }

  // ------------------------------------------------------------------- the match finder

  /** DINDEX1, DINDEX2 and LZO_CHECK_MPOS. */
  method Probing(dict: array<int>, tu: Tuning, x: seq<byte>, ip: nat) returns (p: Probe)
    requires ip + 3 <= |x| && Behind(tu, dict[..], ip)
    ensures p == Lookup(tu, x, ip, dict[..])
  {
    var k := tu.Slot(x, ip);
    var pos := dict[k];
    if tu.Rejects(ip, pos) {
      return Probe(k, false, 0);
    }
    if Same3(x, ip, pos) {
      return Probe(k, true, pos);
    }
    k := tu.Slot2(k);
    pos := dict[k];
    if tu.Rejects(ip, pos) {
      return Probe(k, false, 0);
    }
    return Probe(k, Same3(x, ip, pos), pos);
  }

  /** The literal and match labels: every position looked at is entered. */
  method Scanning(dict: array<int>, tu: Tuning, x: seq<byte>, ip0: nat) returns (found: bool, ip: nat, pos: nat)
    requires Behind(tu, dict[..], ip0)
    modifies dict
    ensures (var r := Search(tu, x, ip0, old(dict[..]));
             found == r.Hit? && (found ==> r == Hit(ip, pos, dict[..])))
  {
    hide Lookup;
    ghost var target := Search(tu, x, ip0, dict[..]);
    ip := ip0;
    while ip < Limit(x)
      invariant Behind(tu, dict[..], ip) && Search(tu, x, ip, dict[..]) == target
      decreases Limit(x) - ip
    {
      var p := Probing(dict, tu, x, ip);
      ghost var before := dict[..];
      dict[p.slot] := ip;
      assert dict[..] == before[p.slot := ip];
      if p.found {
        return true, ip, p.pos;
      }
      ip := ip + 1;
    }
    return false, ip, 0;
  }

  /** The six comparisons that tell a short match from a long one, and the loop of a long one. */
  method Extending(x: seq<byte>, ip: nat, pos: nat) returns (len: nat)
    requires pos < ip < Limit(x)
    ensures len == MatchLength(x, ip, pos)
  {
    var m := Agreeing(x, ip + 3, pos + 3, 6);
    if m < 6 {
      return 3 + m;
    }
    m := Agreeing(x, ip + 9, pos + 9, Further(x, ip + 9));
    return 9 + m;
  }

  method Agreeing(x: seq<byte>, p: nat, q: nat, n: nat) returns (m: nat)
    requires q < p && p + n <= |x|
    ensures m == Common(x, p, q, n)
  {
    m := 0;
    while m < n && x[q + m] == x[p + m]
      invariant 0 <= m <= n && Common(x, p, q, n) == m + Common(x, p + m, q + m, n - m)
    {
      m := m + 1;
    }
  }

  // ------------------------------------------------------------------------ the loop

  /** Literals and a match: one segment. */
  method EmitSegment(dst: array<byte>, tu: Tuning, x: seq<byte>, op0: nat, ii: nat, at: nat, pos: nat, r10: int,
          ghost segs: seq<Segment>)
    returns (op: nat, end: nat, r1: int)
    requires Emitted(dst, tu, x, segs, op0, ii, r10) && ii <= at < Limit(x) && pos < at && at - pos <= MAX_OFFSET
      && Same3(x, at, pos)
    requires segs == [] ==> ii < at
    modifies dst
    ensures end == at + MatchLength(x, at, pos)
    ensures Emitted(dst, tu, x, segs + [Segment(x[ii..at], at - pos, end - at)], op, end, r1)
    ensures op0 <= op && Untouched(dst, op)
  {
    hide Draft, WithRun, RunCode, Marked, Holds, Points, Tiles, MatchLength, MatchCode, Repeats, Codable, AllCodable;
    RunFits(tu, x, ii, segs, at);
    op, r1 := EmitLiterals(dst, tu, x, op0, ii, at, r10, segs);
    var len := Extending(x, at, pos);
    end := at + len;
    ghost var g := Segment(x[ii..at], at - pos, len);
    MatchRepeats(x, at, pos);
    SegmentFits(x, ii, segs, at, pos);
    HoldsLength(dst, op, WithRun(tu.r1, segs, g.lit));
    MatchCodeFits(at - pos, len);
    op := EmitMatch(dst, op, at - pos, len, WithRun(tu.r1, segs, g.lit));
    DraftSnoc(tu.r1, segs, g);
    if tu.r1 {
      PointsNext(x, segs, ii, at, g, r10, r1);
    }
  }

  lemma MatchCodeFits(off: nat, len: nat)
    requires Codable(Segment([], off, len))
    ensures |MatchCode(off, len)| < len
  {
  }

  lemma SegmentFits(x: seq<byte>, ii: nat, segs: seq<Segment>, at: nat, pos: nat)
    requires Tiles(x, ii, segs) && ii <= at < Limit(x) && pos < at && at - pos <= MAX_OFFSET && Same3(x, at, pos)
    ensures (var len := MatchLength(x, at, pos);
             var g := Segment(x[ii..at], at - pos, len);
             && Codable(Segment([], g.off, len)) && Codable(g) && Tiles(x, at + len, segs + [g])
                 && AllCodable(segs + [g]))
  {
    hide Tiles, MatchLength, Repeats;
    var len := MatchLength(x, at, pos);
    MatchRepeats(x, at, pos);
    TilesNext(x, ii, segs, at, at - pos, len);
    TilesCodable(x, at + len, segs + [Segment(x[ii..at], at - pos, len)]);
  }

  lemma DraftSnoc(r1: bool, segs: seq<Segment>, g: Segment)
    requires AllCodable(segs) && Codable(g) && Codable(Segment([], g.off, g.len)) && AllCodable(segs + [g])
    ensures Draft(r1, segs + [g]) == WithRun(r1, segs, g.lit) + MatchCode(g.off, g.len)
  {
    assert Front(segs + [g]) == segs;
    hide WithRun, MatchCode;
  }

  lemma PointsNext(x: seq<byte>, segs: seq<Segment>, ii: nat, at: nat, g: Segment, r10: int, r1: int)
    requires Tiles(x, ii, segs) && Points(r10, Limit(x), segs, ii) && ii <= at < Limit(x) && g.lit == x[ii..at]
    requires segs == [] ==> ii < at
    requires r1 == if Remarks(true, segs, at - ii) || 1 <= at - ii < R0FAST then at else r10
    ensures Points(r1, Limit(x), segs + [g], at + g.len)
  {
    MarkedSnoc(true, segs, g);
    hide Marked, Remarks, Tiles;
    if segs != [] {
      LastCodable(x, ii, segs);
    }
  }

  method Prepare(dict: array<int>, tu: Tuning)
    requires tu.Legal() && dict.Length == D_SIZE && (!tu.deterministic ==> dict[..] == tu.initial)
    modifies dict
    ensures dict[..] == tu.FirstDict()
  {
    if tu.deterministic {
      forall k | 0 <= k < dict.Length {
        dict[k] := tu.Blank();
      }
    }
  }

  /** do_compress: its main loop. */
  method DoCompress(dst: array<byte>, dict: array<int>, tu: Tuning, x: seq<byte>)
    returns (op: nat, ii: nat, ghost segs: seq<Segment>)
    requires tu.Legal() && |x| > MIN_MATCH_LONG + DVAL_LEN + 1 && |x| + |x| / 32 + 1 <= dst.Length
    requires dict.Length == D_SIZE && (!tu.deterministic ==> dict[..] == tu.initial)
    modifies dst, dict
    ensures Parse(tu, x) == Parsed(segs, ii) && ii <= |x| && AllCodable(segs) && Tiles(x, ii, segs)
      && Holds(dst, op, Draft(tu.r1, segs))
    ensures Untouched(dst, op)
  {
    hide Draft, Search, MatchLength, Same3, Tiles, AllCodable, Holds, Points;
    Prepare(dict, tu);
    ghost var cleared := dict[..];
    var slot := tu.FirstSlot(x);
    dict[slot] := 0;
    assert dict[..] == cleared[slot := 0];
    var ip, r1 := 1, Limit(x);
    op, ii, segs := 0, 0, [];
    Starts(dst, tu, x, r1);
    while true
      invariant ii <= ip && (segs == [] ==> ii < ip) && Behind(tu, dict[..], ip)
        && ParseFrom(tu, x, ii, ip, dict[..], segs) == Parse(tu, x)
      invariant Emitted(dst, tu, x, segs, op, ii, r1) && Untouched(dst, op)
      decreases |x| - ip
    {
      ghost var before := dict[..];
      var found, at, pos := Scanning(dict, tu, x, ip);
      if !found {
        return;
      }
      var end;
      ghost var start := ii;
      op, end, r1 := EmitSegment(dst, tu, x, op, ii, at, pos, r1, segs);
      segs := segs + [Segment(x[start..at], at - pos, end - at)];
      ii, ip := end, end;
    }
  }

  lemma Starts(dst: array<byte>, tu: Tuning, x: seq<byte>, r1: int)
    requires |x| + |x| / 32 + 1 <= dst.Length && r1 == Limit(x)
    ensures Emitted(dst, tu, x, [], 0, 0, r1)
  {
  }

  /**
   * lzo1_compress, and lzo1a_compress when the build has R1 codes: the bytes written are a function
   * of the input, and `n + n/32 + 1` bytes always hold them.
   */
  method Compress(dst: array<byte>, dict: array<int>, tu: Tuning, x: seq<byte>) returns (op: nat)
    requires tu.Legal() && |x| + |x| / 32 + 1 <= dst.Length
    requires dict.Length == D_SIZE && (!tu.deterministic ==> dict[..] == tu.initial)
    modifies dst, dict
    ensures op <= dst.Length && dst[..op] == Compressed(tu, x) && op <= |x| + |x| / 32 + 1
    ensures Untouched(dst, op)
  {
    hide Draft, RunCode, Tiles, AllCodable, Holds, Compressed;
    var ii := 0;
    ghost var segs: seq<Segment> := [];
    op := 0;
    CompressedLength(tu, x);
    NothingYet(dst, tu, x);
    if |x| > MIN_MATCH_LONG + DVAL_LEN + 1 {
      op, ii, segs := DoCompress(dst, dict, tu, x);
    }
    CompressedIs(tu, x, ii, segs);
    hide Parse;
    op := Finish(dst, tu, x, op, ii, segs);
    Written(dst, op, Compressed(tu, x));
  }

  lemma CompressedIs(tu: Tuning, x: seq<byte>, ii: nat, segs: seq<Segment>)
    requires tu.Legal() && Parse(tu, x) == Parsed(segs, ii) && AllCodable(segs) && ii <= |x|
    ensures Compressed(tu, x) == Encode(tu.r1, segs, x[ii..])
  {
    hide Parse, Encode, AllCodable;
  }

  /** The final literal run. */
  method Finish(dst: array<byte>, tu: Tuning, x: seq<byte>, op0: nat, ii: nat, ghost segs: seq<Segment>)
    returns (op: nat)
    requires Tiles(x, ii, segs) && AllCodable(segs) && ii <= |x| && |x| + |x| / 32 + 1 <= dst.Length
    requires Holds(dst, op0, Draft(tu.r1, segs))
    modifies dst
    ensures Holds(dst, op, Encode(tu.r1, segs, x[ii..]))
    ensures op0 <= op && Untouched(dst, op)
  {
    hide Draft, RunCode, Tiles, AllCodable, Holds;
    op := op0;
    RunFits(tu, x, ii, segs, |x|);
    assert x[ii..ii + (|x| - ii)] == x[ii..] == x[ii..|x|];
    HoldsLength(dst, op, Draft(tu.r1, segs));
    if ii < |x| {
      op := StoreRun(dst, op, x, ii, |x| - ii, Draft(tu.r1, segs));
    } else {
      NoRun(x[ii..], Draft(tu.r1, segs));
    }
  }

  lemma NothingYet(dst: array<byte>, tu: Tuning, x: seq<byte>)
    ensures AllCodable([]) && Tiles(x, 0, []) && Holds(dst, 0, Draft(tu.r1, []))
  {
  }

  lemma Written(dst: array<byte>, op: nat, code: seq<byte>)
    requires Holds(dst, op, code)
    ensures op <= dst.Length && dst[..op] == code && op == |code|
  {
  }
}
