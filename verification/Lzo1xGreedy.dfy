/** What the LZO1X-1 match finder finds: the first agreeing candidate, matches without a longer one, and repetitions. */
module Lzo1xGreedy {
  import opened Bytes
  import opened Lz77
  import opened Lzo1xDecoder
  import opened Lzo1xFormat
  import opened Lzo1xRoundTrip
  import opened Lzo1xParse
  import opened Lzo1xProgram

  // ------------------------------------------------------- the scan misses nothing

  /** An entry, relative to the block, that names a position at most 49151 bytes back. */
  ghost predicate Near(base: nat, ip: nat, entry: int) {
    0 <= entry && base + entry < ip && ip - (base + entry) <= 49151
  }

  /** Such an entry that is close, or agrees in its fourth byte. */
  ghost predicate Likely(x: seq<byte>, base: nat, ip: nat, entry: int)
    requires ip + 4 <= |x|
  {
    Near(base, ip, entry) && (ip - (base + entry) <= 2048 || x[base + entry + 3] == x[ip + 3])
  }

  /**
   * The deterministic build compares with what one slot names. The other looks at a second slot when the first
   * names a position that is neither close nor agrees in its fourth byte, and enters the position there.
   */
  lemma LookupExactly(tu: Tuning, x: seq<byte>, base: nat, ip: nat, dict: Dict)
    requires base <= ip && ip + 4 <= |x| && Behind(tu, dict, base, ip) && (tu.deterministic ==> ip < base + 49152)
    ensures (var k := tu.Slot(x, ip);
             var k2 := tu.Slot2(k);
             var p := Lookup(tu, x, base, ip, dict);
             if tu.deterministic then p == Probe(k, true, base + dict[k])
             else if !Near(base, ip, dict[k]) then p.slot == k && !p.candidate
             else if Likely(x, base, ip, dict[k]) then p == Probe(k, true, base + dict[k])
             else p.slot == k2 && (p.candidate <==> Likely(x, base, ip, dict[k2]))
                  && (p.candidate ==> p.pos == base + dict[k2]))
  {
    hide Load32;
  }

  /** A position that the scan visits, and the dictionary that it finds there. */
  datatype Look = Look(ip: nat, dict: Dict)

  /** The look is one that a scan of the block from `ii` on may take. */
  ghost predicate Looks(tu: Tuning, x: seq<byte>, base: nat, limit: nat, ii: nat, v: Look) {
    InBlock(tu, x, base, limit) && base <= ii <= v.ip && Behind(tu, v.dict, base, v.ip)
  }

  /** The next look: a step more for every 32 bytes passed, with this position entered in its slot. */
  ghost function Further(tu: Tuning, x: seq<byte>, base: nat, limit: nat, ii: nat, v: Look): (n: Look)
    requires Looks(tu, x, base, limit, ii, v) && v.ip < limit
    ensures Looks(tu, x, base, limit, ii, n) && v.ip < n.ip
  {
    Look(v.ip + 1 + (v.ip - ii) / 32, v.dict[Lookup(tu, x, base, v.ip, v.dict).slot := v.ip - base])
  }

  /** At this position a candidate is looked up that agrees in four bytes. */
  ghost predicate Agreeing(tu: Tuning, x: seq<byte>, base: nat, limit: nat, ii: nat, v: Look)
    requires Looks(tu, x, base, limit, ii, v)
  {
    v.ip < limit
    && var p := Lookup(tu, x, base, v.ip, v.dict);
       p.candidate && x[v.ip..v.ip + 4] == x[p.pos..p.pos + 4]
  }

  /** One look after the other, none of them but perhaps the last with a candidate that agrees. */
  ghost predicate Walk(tu: Tuning, x: seq<byte>, base: nat, limit: nat, ii: nat, w: seq<Look>)
    decreases |w|
  {
    && w != [] && Looks(tu, x, base, limit, ii, w[0])
    && (|w| > 1 ==>
          && w[0].ip < limit && !Agreeing(tu, x, base, limit, ii, w[0])
          && w[1] == Further(tu, x, base, limit, ii, w[0]) && Walk(tu, x, base, limit, ii, w[1..]))
  }

  lemma SameSlices(x: seq<byte>, i: nat, j: nat)
    requires i + 4 <= |x| && j + 4 <= |x|
    ensures Same4(x, i, j) <==> x[i..i + 4] == x[j..j + 4]
  {
    var a, b := x[i..i + 4], x[j..j + 4];
    assert a == [x[i], x[i + 1], x[i + 2], x[i + 3]] && b == [x[j], x[j + 1], x[j + 2], x[j + 3]];
    assert a[0] == x[i] && a[1] == x[i + 1] && a[2] == x[i + 2] && a[3] == x[i + 3];
  }

  /** What the scan returns, told from its last look `v`. */
  ghost predicate Found(tu: Tuning, x: seq<byte>, base: nat, limit: nat, ii: nat, v: Look, r: Hit)
    requires Looks(tu, x, base, limit, ii, v)
  {
    if v.ip >= limit then r.Miss?
    else
      && Agreeing(tu, x, base, limit, ii, v)
      && (var p := Lookup(tu, x, base, v.ip, v.dict); r == Hit(v.ip, p.pos, v.dict[p.slot := v.ip - base]))
  }

  /**
   * The scan stops at the first look whose candidate agrees in four bytes, and misses only if there is none up
   * to the limit.
   */
  lemma {:induction false} SearchFirst(tu: Tuning, x: seq<byte>, base: nat, limit: nat, ii: nat, v: Look)
    returns (w: seq<Look>)
    requires Looks(tu, x, base, limit, ii, v)
    ensures w != [] && w[0] == v && Walk(tu, x, base, limit, ii, w)
    ensures Looks(tu, x, base, limit, ii, w[|w| - 1])
    ensures Found(tu, x, base, limit, ii, w[|w| - 1], Search(tu, x, base, limit, ii, v.ip, v.dict))
    decreases limit - v.ip
  {
    w := [v];
    if v.ip >= limit {
      SearchEnds(tu, x, base, limit, ii, v);
    } else {
      SearchTurn(tu, x, base, limit, ii, v);
      hide Search, Looks, Agreeing, Further, Found;
      if !Agreeing(tu, x, base, limit, ii, v) {
        var n := Further(tu, x, base, limit, ii, v);
        var rest := SearchFirst(tu, x, base, limit, ii, n);
        w := [v] + rest;
        assert w[1..] == rest;
      }
    }
  }

  lemma SearchEnds(tu: Tuning, x: seq<byte>, base: nat, limit: nat, ii: nat, v: Look)
    requires Looks(tu, x, base, limit, ii, v) && v.ip >= limit
    ensures Search(tu, x, base, limit, ii, v.ip, v.dict).Miss?
  {
  }

  lemma SearchTurn(tu: Tuning, x: seq<byte>, base: nat, limit: nat, ii: nat, v: Look)
    requires Looks(tu, x, base, limit, ii, v) && v.ip < limit
    ensures (var r := Search(tu, x, base, limit, ii, v.ip, v.dict);
             if Agreeing(tu, x, base, limit, ii, v) then Found(tu, x, base, limit, ii, v, r)
             else
               var n := Further(tu, x, base, limit, ii, v);
               r == Search(tu, x, base, limit, ii, n.ip, n.dict))
  {
    hide Lookup, Same4, Behind;
    LookupMeans(tu, x, base, limit, ii, v);
    var p := Lookup(tu, x, base, v.ip, v.dict);
    if p.candidate {
      SameSlices(x, v.ip, p.pos);
    }
  }

  lemma LookupMeans(tu: Tuning, x: seq<byte>, base: nat, limit: nat, ii: nat, v: Look)
    requires Looks(tu, x, base, limit, ii, v) && v.ip < limit
    ensures tu.deterministic ==> v.ip < base + BLOCK_SIZE
    ensures v.ip + 4 <= |x|
  {
  }

  /** The bytes at a look are entered in slot `s`. */
  ghost predicate InSlot(tu: Tuning, x: seq<byte>, v: Look, s: nat) {
    v.ip + 4 <= |x| && tu.Slot(x, v.ip) == s
  }

  lemma FurtherEnters(tu: Tuning, x: seq<byte>, base: nat, limit: nat, ii: nat, v: Look, s: nat)
    requires Looks(tu, x, base, limit, ii, v) && v.ip < limit && tu.deterministic && s < DICT_SIZE
    ensures (var n := Further(tu, x, base, limit, ii, v);
             |n.dict| == |v.dict| == DICT_SIZE
             && n.dict[s] == if InSlot(tu, x, v, s) then v.ip - base else v.dict[s])
  {
    hide Load32;
  }

  lemma {:induction false} EntryKept(tu: Tuning, x: seq<byte>, base: nat, limit: nat, ii: nat, w: seq<Look>, s: nat)
    requires Walk(tu, x, base, limit, ii, w) && tu.deterministic && s < DICT_SIZE
    requires forall i :: 0 <= i < |w| - 1 ==> !InSlot(tu, x, w[i], s)
    ensures |w[|w| - 1].dict| == |w[0].dict| == DICT_SIZE && w[|w| - 1].dict[s] == w[0].dict[s]
    decreases |w|
  {
    if |w| > 1 {
      FurtherEnters(tu, x, base, limit, ii, w[0], s);
      hide Looks, Agreeing, Further, InSlot;
      assert !InSlot(tu, x, w[0], s);
      forall i | 0 <= i < |w| - 2 ensures !InSlot(tu, x, w[1..][i], s) {
        assert w[1..][i] == w[i + 1];
      }
      EntryKept(tu, x, base, limit, ii, w[1..], s);
    }
  }

  /** A slot holds the latest position entered in it. */
  lemma {:induction false} EntryLatest(tu: Tuning, x: seq<byte>, base: nat, limit: nat, ii: nat, w: seq<Look>, j: nat,
          s: nat)
    requires Walk(tu, x, base, limit, ii, w) && tu.deterministic && s < DICT_SIZE
    requires j < |w| - 1 && InSlot(tu, x, w[j], s)
    requires forall i :: j < i < |w| - 1 ==> !InSlot(tu, x, w[i], s)
    ensures |w[|w| - 1].dict| == DICT_SIZE && w[|w| - 1].dict[s] == w[j].ip - base
    decreases |w|
  {
    hide Looks, Agreeing, Further, InSlot;
    if j == 0 {
      FurtherEnters(tu, x, base, limit, ii, w[0], s);
      forall i | 0 <= i < |w| - 2 ensures !InSlot(tu, x, w[1..][i], s) {
        assert w[1..][i] == w[i + 1];
      }
      EntryKept(tu, x, base, limit, ii, w[1..], s);
    } else {
      forall i | j - 1 < i < |w| - 2 ensures !InSlot(tu, x, w[1..][i], s) {
        assert w[1..][i] == w[i + 1];
      }
      EntryLatest(tu, x, base, limit, ii, w[1..], j - 1, s);
    }
  }

  lemma {:induction false} LastLooks(tu: Tuning, x: seq<byte>, base: nat, limit: nat, ii: nat, w: seq<Look>)
    requires Walk(tu, x, base, limit, ii, w)
    ensures Looks(tu, x, base, limit, ii, w[|w| - 1])
    decreases |w|
  {
    hide Looks, Agreeing, Further;
    if |w| > 1 {
      LastLooks(tu, x, base, limit, ii, w[1..]);
    }
  }

  /**
   * In the deterministic build four bytes that a scan has passed before are found again, unless other bytes
   * have taken their slot: a look agrees when an earlier one has the same bytes and none between them the slot.
   */
  lemma RepetitionFound(tu: Tuning, x: seq<byte>, base: nat, limit: nat, ii: nat, w: seq<Look>, j: nat)
    requires Walk(tu, x, base, limit, ii, w) && tu.deterministic && j < |w| - 1
    requires (var v := w[|w| - 1];
              && v.ip < limit && w[j].ip + 4 <= |x| && x[v.ip..v.ip + 4] == x[w[j].ip..w[j].ip + 4]
              && (forall i :: j < i < |w| - 1 ==> !InSlot(tu, x, w[i], tu.Slot(x, v.ip))))
    ensures (LastLooks(tu, x, base, limit, ii, w);
             Agreeing(tu, x, base, limit, ii, w[|w| - 1]))
  {
    LastLooks(tu, x, base, limit, ii, w);
    var v := w[|w| - 1];
    SameSlices(x, v.ip, w[j].ip);
    Load32Equal(x, v.ip, w[j].ip);
    hide Load32, Walk;
    EntryLatest(tu, x, base, limit, ii, w, j, tu.Slot(x, v.ip));
    assert Lookup(tu, x, base, v.ip, v.dict) == Probe(tu.Slot(x, v.ip), true, w[j].ip);
  }

  // ------------------------------------------------------------ matches are maximal

  lemma MatchTurn(tu: Tuning, x: seq<byte>, limit: nat, ip: nat, pos: nat, m: nat)
    requires tu.Legal() && pos < ip < limit && limit + 20 <= |x| && (m == 4 || ip + m < limit)
    ensures (var len := MatchLength(tu, x, limit, ip, pos, m);
             var w := tu.word;
             if len < m + w then x[ip + len] != x[pos + len]
             else if ip + m + w >= limit then len == m + w
             else len == MatchLength(tu, x, limit, ip, pos, m + w))
  {
    hide Common;
    Difference(x, ip + m, pos + m, tu.word);
  }

  lemma Difference(x: seq<byte>, a: nat, b: nat, n: nat)
    requires a + n <= |x| && b + n <= |x|
    ensures (var m := Common(x, a, b, n); m < n ==> x[a + m] != x[b + m])
  {
    CommonIsLongest(x, a, b, n);
    hide Common;
  }

  /** Where a match ends: before a byte that differs, or within a word behind the limit. */
  ghost predicate Maximal(x: seq<byte>, limit: nat, ip: nat, pos: nat, len: nat) {
    || (ip + len < |x| && pos + len < |x| && x[ip + len] != x[pos + len])
    || limit <= ip + len < limit + 8
    || (limit <= ip + len && len <= 12)
  }

  lemma {:induction false} MatchMaximal(tu: Tuning, x: seq<byte>, limit: nat, ip: nat, pos: nat, m: nat)
    requires tu.Legal() && pos < ip < limit && limit + 20 <= |x| && (m == 4 || ip + m < limit)
    ensures Maximal(x, limit, ip, pos, MatchLength(tu, x, limit, ip, pos, m))
    decreases limit + 8 - (ip + m)
  {
    MatchTurn(tu, x, limit, ip, pos, m);
    var w := tu.word;
    var len := MatchLength(tu, x, limit, ip, pos, m);
    hide MatchLength;
    if len >= m + w && ip + m + w < limit {
      MatchMaximal(tu, x, limit, ip, pos, m + w);
    }
  }

  // ------------------------------------------------------ what repeats is compressed

  /** One byte over and over. */
  ghost predicate Uniform(x: seq<byte>) {
    forall i, j :: 0 <= i < |x| && 0 <= j < |x| ==> x[i] == x[j]
  }

  lemma SameSlot(tu: Tuning, x: seq<byte>, i: nat, j: nat)
    requires Uniform(x) && i + 4 <= |x| && j + 4 <= |x|
    ensures Same4(x, i, j) && tu.Slot(x, i) == tu.Slot(x, j)
  {
    Load32Equal(x, i, j);
    hide Load32;
  }

  /** Even a dictionary that is not cleared cannot hide the byte before from the second look. */
  lemma UniformLookup(tu: Tuning, x: seq<byte>, base: nat, limit: nat, ii: nat, v: Look)
    requires Uniform(x) && Looks(tu, x, base, limit, ii, v) && v.ip + 1 < limit && v.ip - ii < 32
    ensures Agreeing(tu, x, base, limit, ii, v)
            || Agreeing(tu, x, base, limit, ii, Further(tu, x, base, limit, ii, v))
  {
    hide Load32;
    var p := Lookup(tu, x, base, v.ip, v.dict);
    if p.candidate {
      SameSlices(x, v.ip, p.pos);
      SameSlot(tu, x, v.ip, p.pos);
    } else {
      assert p.slot == tu.Slot(x, v.ip);
      UniformLookedUp(tu, x, base, limit, ii, v);
    }
  }

  lemma UniformLookedUp(tu: Tuning, x: seq<byte>, base: nat, limit: nat, ii: nat, v: Look)
    requires Uniform(x) && Looks(tu, x, base, limit, ii, v) && v.ip + 1 < limit && v.ip - ii < 32
    requires !tu.deterministic && Lookup(tu, x, base, v.ip, v.dict).slot == tu.Slot(x, v.ip)
    ensures Agreeing(tu, x, base, limit, ii, Further(tu, x, base, limit, ii, v))
  {
    var n := Further(tu, x, base, limit, ii, v);
    SameSlot(tu, x, v.ip, v.ip + 1);
    SameSlices(x, v.ip + 1, v.ip);
    hide Load32, Same4;
    assert n.ip == v.ip + 1 && n.dict[tu.Slot(x, n.ip)] == v.ip - base;
    assert Lookup(tu, x, base, n.ip, n.dict) == Probe(tu.Slot(x, n.ip), true, v.ip);
  }

  lemma UniformSearch(tu: Tuning, x: seq<byte>, base: nat, limit: nat, ii: nat, v: Look)
    requires Uniform(x) && Looks(tu, x, base, limit, ii, v) && v.ip + 1 < limit && v.ip - ii < 32
    ensures (var r := Search(tu, x, base, limit, ii, v.ip, v.dict); r.Hit? && r.ip <= v.ip + 1)
  {
    UniformLookup(tu, x, base, limit, ii, v);
    SearchTurn(tu, x, base, limit, ii, v);
    hide Search, Agreeing, Lookup;
    var n := Further(tu, x, base, limit, ii, v);
    hide Looks;
    if !Agreeing(tu, x, base, limit, ii, v) {
      SearchTurn(tu, x, base, limit, ii, n);
    }
  }

  /** The next match starts within a step and covers everything up to the limit. */
  lemma UniformNext(tu: Tuning, x: seq<byte>, base: nat, limit: nat, ii: nat, v: Look)
    requires tu.Legal() && Uniform(x) && Looks(tu, x, base, limit, ii, v) && v.ip + 1 < limit && v.ip - ii < 32
    ensures (var f := NextMatch(tu, x, base, limit, ii, v.ip, v.dict);
             f.Find? && f.ip <= v.ip + 1 && limit <= f.ip + f.len <= limit + 20 && f.len >= 4
             && 1 <= f.off <= M4_MAX_OFFSET && Behind(tu, f.dict, base, f.ip + f.len))
  {
    UniformSearch(tu, x, base, limit, ii, v);
    hide Search, MatchLength, Behind;
    var r := Search(tu, x, base, limit, ii, v.ip, v.dict);
    MatchMaximal(tu, x, limit, r.ip, r.pos, 4);
  }

  lemma NothingBehindLimit(tu: Tuning, x: seq<byte>, base: nat, limit: nat, ip: nat, dict: Dict)
    requires tu.Legal() && InBlock(tu, x, base, limit) && base <= ip && limit <= ip && Behind(tu, dict, base, ip)
    ensures ParseFrom(tu, x, base, limit, ip, ip, ip, dict) == Parsed([], ip)
  {
    hide Behind;
  }

  lemma FirstLooks(tu: Tuning, x: seq<byte>, base: nat, limit: nat, ti: nat)
    requires tu.Legal() && InBlock(tu, x, base, limit)
    ensures (var v := Look(tu.FirstLookup(base, ti), tu.FirstDict());
             Looks(tu, x, base, limit, base, v) && v.ip <= base + 5)
  {
  }

  lemma ParseTurn(tu: Tuning, x: seq<byte>, base: nat, limit: nat, start: nat, ii: nat, ip: nat, dict: Dict)
    requires tu.Legal() && InBlock(tu, x, base, limit)
    requires base <= ii <= ip && start <= ii && Behind(tu, dict, base, ip)
    requires NextMatch(tu, x, base, limit, ii, ip, dict).Find?
    ensures (var f := NextMatch(tu, x, base, limit, ii, ip, dict);
             var end := f.ip + f.len;
             var p := ParseFrom(tu, x, base, limit, end, end, end, f.dict);
             ParseFrom(tu, x, base, limit, start, ii, ip, dict)
             == Parsed([Segment(x[start..f.ip], f.off, f.len)] + p.segs, p.rest))
  {
    hide NextMatch, Behind;
  }

  /** A block becomes one match behind the literals that pend and at most six more. */
  lemma UniformBlock(tu: Tuning, x: seq<byte>, base: nat, end: nat, start: nat) returns (g: Segment)
    requires tu.Legal() && Uniform(x) && start <= base && base + 26 < end <= |x| && InBlock(tu, x, base, end - 20)
    ensures (var p := ParseBlock(tu, x, base, end, start); p.segs == [g] && end - 20 <= p.rest <= end)
    ensures 1 <= g.off <= M4_MAX_OFFSET && 4 <= g.len <= end - base && |g.lit| <= base - start + 6
  {
    hide NextMatch, ClearDict, MatchLength, Uniform, ParseFrom, Behind, Tuning.FirstLookup;
    var v := Look(tu.FirstLookup(base, base - start), tu.FirstDict());
    FirstLooks(tu, x, base, end - 20, base - start);
    UniformNext(tu, x, base, end - 20, base, v);
    ParseTurn(tu, x, base, end - 20, start, base, v.ip, v.dict);
    var f := NextMatch(tu, x, base, end - 20, base, v.ip, v.dict);
    g := Segment(x[start..f.ip], f.off, f.len);
    NothingBehindLimit(tu, x, base, end - 20, f.ip + f.len, f.dict);
  }

  /** What a parse from `base` on, with literals pending since `start`, is coded in. */
  ghost function Cost(tu: Tuning, x: seq<byte>, base: nat, start: nat): (n: nat)
    requires tu.Legal() && start <= base <= |x|
  {
    var p := ParseBlocks(tu, x, base, start);
    ParseBlocksMeans(tu, x, base, start);
    ValidCodable(x[..start], p.segs);
    |EncodeRest(p.segs, x[p.rest..])|
  }

  lemma CostBounded(tu: Tuning, x: seq<byte>, base: nat, start: nat)
    requires tu.Legal() && start <= base <= |x|
    ensures Cost(tu, x, base, start) <= |x| - start + (|x| - start) / 16 + 4
  {
    hide ParseBlocks, Valid, Expand, EncodeRest;
    ParseBlocksMeans(tu, x, base, start);
    var p := ParseBlocks(tu, x, base, start);
    EncodeRestLength(x[..start], p.segs, x[p.rest..]);
  }

  /** A match of distance up to 49151 is coded in four bytes and one for every 255 that it copies. */
  lemma MatchCodeShort(off: nat, len: nat, s: nat)
    requires 1 <= off <= M4_MAX_OFFSET && 4 <= len && s < 4
    ensures |MatchCode(off, len, s)| <= 4 + len / 255
  {
  }

  lemma CostTurn(tu: Tuning, x: seq<byte>, base: nat, start: nat, g: Segment)
    requires tu.Legal() && start <= base && base + 20 < |x|
    requires (var end := tu.BlockEnd(|x|, base); ParseBlock(tu, x, base, end, start).segs == [g])
    requires 1 <= g.off <= M4_MAX_OFFSET && 4 <= g.len
    ensures (var end := tu.BlockEnd(|x|, base);
             var p := ParseBlock(tu, x, base, end, start);
             Cost(tu, x, base, start) <= |g.lit| + 5 + |g.lit| / 16 + g.len / 255 + Cost(tu, x, end, p.rest))
  {
    var end := tu.BlockEnd(|x|, base);
    var p := ParseBlock(tu, x, base, end, start);
    var q := ParseBlocks(tu, x, end, p.rest);
    var all := ParseBlocks(tu, x, base, start);
    assert all == Parsed([g] + q.segs, q.rest);
    hide ParseBlock, ParseBlocks, EncodeRest, Valid, Expand, MatchCode;
    ParseBlocksMeans(tu, x, end, p.rest);
    ValidCodable(x[..p.rest], q.segs);
    var tail := x[q.rest..];
    EncodeRestCons(g, q.segs, tail);
    LiteralsLength(g.lit);
    MatchCodeShort(g.off, g.len, NextShort(q.segs, tail));
  }

  /** Every block of 49152 equal bytes costs at most 224. */
  lemma {:induction false} UniformCost(tu: Tuning, x: seq<byte>, base: nat, start: nat)
    requires tu.Legal() && Uniform(x) && start <= base <= |x| && base - start <= 20
    ensures Cost(tu, x, base, start) <= if base == |x| then 25 else (|x| - base) / 200 + 58
    decreases |x| - base
  {
    hide Uniform, Cost;
    if |x| - base <= 26 {
      CostBounded(tu, x, base, start);
    } else {
      var end := tu.BlockEnd(|x|, base);
      assert base + 26 < end;
      hide ParseBlock;
      var g := UniformBlock(tu, x, base, end, start);
      CostTurn(tu, x, base, start, g);
      UniformCost(tu, x, end, ParseBlock(tu, x, base, end, start).rest);
    }
  }

  lemma CompressedCost(tu: Tuning, x: seq<byte>)
    requires tu.Legal()
    ensures |Compressed(tu, x)| == Cost(tu, x, 0, 0)
            || (|x| <= 238 && |Compressed(tu, x)| == |x| + 4 && ParseBlocks(tu, x, 0, 0).segs == [])
  {
    hide ParseBlocks, EncodeRest;
    ParseIsParse(tu, x);
    ParseBlocksMeans(tu, x, 0, 0);
    assert x[..0] == [];
  }

  lemma UniformNotLone(tu: Tuning, x: seq<byte>)
    requires tu.Legal() && Uniform(x) && |x| > 26
    ensures ParseBlocks(tu, x, 0, 0).segs != []
  {
    hide ParseBlock;
    var g := UniformBlock(tu, x, 0, tu.BlockEnd(|x|, 0), 0);
  }

  /**
   * One byte over and over is compressed to less than a two hundredth and 59 bytes, whatever the build, its hash and
   * its dictionary; in a single block, to a match and 36 bytes.
   */
  lemma UniformCompressed(tu: Tuning, x: seq<byte>)
    requires tu.Legal() && Uniform(x)
    ensures |Compressed(tu, x)| <= |x| / 200 + 58
    ensures |x| <= 49152 || !tu.deterministic ==> |Compressed(tu, x)| <= |x| / 255 + 36
  {
    hide Compressed, Cost, Uniform, ParseBlocks;
    CompressedCost(tu, x);
    UniformCost(tu, x, 0, 0);
    if |x| <= 26 {
      CostBounded(tu, x, 0, 0);
    } else {
      UniformNotLone(tu, x);
      if tu.BlockEnd(|x|, 0) == |x| {
        UniformOneBlock(tu, x);
      }
    }
  }

  lemma UniformOneBlock(tu: Tuning, x: seq<byte>)
    requires tu.Legal() && Uniform(x) && |x| > 26 && tu.BlockEnd(|x|, 0) == |x|
    ensures Cost(tu, x, 0, 0) <= |x| / 255 + 36
  {
    hide Cost, Uniform, ParseBlock;
    var g := UniformBlock(tu, x, 0, |x|, 0);
    CostTurn(tu, x, 0, 0, g);
    UniformCost(tu, x, |x|, ParseBlock(tu, x, 0, |x|, 0).rest);
  }

  // --------------------------------------------------------- what is written is legal

  /** What is compressed is a program of the format that means the input. */
  lemma CompressedSpells(tu: Tuning, x: seq<byte>)
    requires tu.Legal()
    ensures Spells(Compressed(tu, x), x)
  {
    hide Compressed, Begin, Spells;
    var c := Compressed(tu, x);
    var word := 0x1_0000_0000 + 256 * (|x| + |c|);
    var e := Env(true, c, _ => 0, |x|, word, false);
    RoundTrip(tu, x, true, e.past, |x|, word, false, |x| + |x| / 16 + 6);
    hide Clear;
    assert Exact(e) by {
      assert |c| < (word - 19) / 255 + 3;
    }
    AcceptsExactly(e, x);
  }

  // ---------------------------------------------------------- where matches are sought

  /** Up to 20 bytes are not searched. */
  lemma ShortIsLiteral(tu: Tuning, x: seq<byte>)
    requires tu.Legal() && |x| <= 20
    ensures Compressed(tu, x) == if |x| == 0 then [17, 0, 0] else [17 + |x|] + x + [17, 0, 0]
  {
    ParseIsParse(tu, x);
    assert ParseBlocks(tu, x, 0, 0) == Parsed([], 0);
    assert x[0..] == x;
    hide ParseBlocks;
  }

  lemma ClearSearch(tu: Tuning, x: seq<byte>, limit: nat)
    requires tu.Legal() && tu.deterministic && Uniform(x) && limit + 20 == |x| <= 49152
    ensures (var r := Search(tu, x, 0, limit, 0, 5, ClearDict());
             if limit <= 5 then r.Miss? else r.Hit? && r.ip == 5 && r.pos == 0)
  {
    hide Load32;
    if limit > 5 {
      SameSlot(tu, x, 5, 0);
    }
  }

  /**
   * In the deterministic build the first match that can be found in a block is at its sixth byte, if 21 or more
   * are left there: for one byte over and over it is found, and reaches into the last 20 bytes.
   */
  lemma UniformExactly(tu: Tuning, x: seq<byte>)
    requires tu.Legal() && tu.deterministic && Uniform(x) && 20 < |x| <= 49152
    ensures (var p := ParseBlocks(tu, x, 0, 0);
             if |x| <= 25 then p == Parsed([], 0)
             else
               var len := MatchLength(tu, x, |x| - 20, 5, 0, 4);
               && p == Parsed([Segment(x[..5], 5, len)], 5 + len) && |x| - 20 <= 5 + len <= |x|)
  {
    hide Search, MatchLength, ClearDict, Uniform;
    var limit := |x| - 20;
    ClearSearch(tu, x, limit);
    var p := ParseBlock(tu, x, 0, |x|, 0);
    assert tu.FirstLookup(0, 0) == 5 && tu.FirstDict() == ClearDict();
    assert ParseBlocks(tu, x, |x|, p.rest) == Parsed([], p.rest);
    assert ParseBlocks(tu, x, 0, 0) == p;
    if |x| > 25 {
      MatchMaximal(tu, x, limit, 5, 0, 4);
      UniformReaches(tu, x, limit);
      var r := Search(tu, x, 0, limit, 0, 5, ClearDict());
      var len := MatchLength(tu, x, limit, 5, 0, 4);
      NothingBehindLimit(tu, x, 0, limit, 5 + len, r.dict);
      assert x[0..5] == x[..5];
    }
  }

  lemma UniformReaches(tu: Tuning, x: seq<byte>, limit: nat)
    requires tu.Legal() && Uniform(x) && 5 < limit && limit + 20 == |x|
    ensures (var len := MatchLength(tu, x, limit, 5, 0, 4); limit <= 5 + len <= limit + 20)
  {
    hide MatchLength;
    MatchMaximal(tu, x, limit, 5, 0, 4);
  }
}
