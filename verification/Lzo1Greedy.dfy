/** What the match finder of LZO1 and LZO1A finds: the first agreeing candidate, matches without a longer one. */
module Lzo1Greedy {
  import opened Bytes
  import opened Lz77
  import opened Lzo1Format
  import opened Lzo1Parse

  // ------------------------------------------------------- the scan misses nothing

  /** An entry that may be compared with the bytes at `ip`: a position at most 8192 before it. */
  ghost predicate Near(tu: Tuning, ip: nat, entry: int) {
    0 <= entry < ip && ip - entry <= 8192 && (tu.deterministic && !tu.r1 ==> entry != tu.Blank())
  }

  /** The three bytes at an entry are those at `ip`. */
  ghost predicate Agrees(tu: Tuning, x: seq<byte>, ip: nat, entry: int) {
    Near(tu, ip, entry) && ip + 3 <= |x| && x[entry..entry + 3] == x[ip..ip + 3]
  }

  lemma SameSlices(x: seq<byte>, i: nat, j: nat)
    requires i + 3 <= |x| && j + 3 <= |x|
    ensures Same3(x, i, j) <==> x[i..i + 3] == x[j..j + 3]
  {
    var a, b := x[i..i + 3], x[j..j + 3];
    assert a == [x[i], x[i + 1], x[i + 2]] && b == [x[j], x[j + 1], x[j + 2]];
    assert a[0] == x[i] && a[1] == x[i + 1] && a[2] == x[i + 2];
  }

  lemma RejectsMeans(tu: Tuning, dict: Dict, ip: nat, k: nat)
    requires Behind(tu, dict, ip) && k < |dict|
    ensures tu.Rejects(ip, dict[k]) <==> !Near(tu, ip, dict[k])
  {
  }

  /** A lookup finds what agrees in the first slot or, if that is near but differs, in the second. */
  lemma LookupExactly(tu: Tuning, x: seq<byte>, ip: nat, dict: Dict)
    requires ip + 3 <= |x| && Behind(tu, dict, ip)
    ensures (var k := tu.Slot(x, ip);
             var k2 := tu.Slot2(k);
             var p := Lookup(tu, x, ip, dict);
             && (Agrees(tu, x, ip, dict[k]) ==> p == Probe(k, true, dict[k]))
             && (!Near(tu, ip, dict[k]) ==> p.slot == k && !p.found)
             && (Near(tu, ip, dict[k]) && !Agrees(tu, x, ip, dict[k]) ==>
                   && p.slot == k2 && (p.found <==> Agrees(tu, x, ip, dict[k2]))
                   && (p.found ==> p.pos == dict[k2])))
  {
    hide Same3, Behind, Near, Load24;
    var k := tu.Slot(x, ip);
    var k2 := tu.Slot2(k);
    BehindSize(tu, dict, ip);
    RejectsMeans(tu, dict, ip, k);
    RejectsMeans(tu, dict, ip, k2);
    NearBefore(tu, ip, dict[k]);
    NearBefore(tu, ip, dict[k2]);
    if Near(tu, ip, dict[k]) {
      SameSlices(x, ip, dict[k]);
    }
    if Near(tu, ip, dict[k2]) {
      SameSlices(x, ip, dict[k2]);
    }
  }

  lemma BehindSize(tu: Tuning, dict: Dict, ip: nat)
    requires Behind(tu, dict, ip)
    ensures |dict| == D_SIZE
  {
  }

  lemma NearBefore(tu: Tuning, ip: nat, entry: int)
    ensures Near(tu, ip, entry) ==> 0 <= entry < ip
  {
  }

  /** A position that the scan visits, and the dictionary that it finds there. */
  datatype Look = Look(ip: nat, dict: Dict)

  /** The next position, with this one entered in its slot. */
  ghost function Onward(tu: Tuning, x: seq<byte>, v: Look): (n: Look)
    requires v.ip + 3 <= |x| && Behind(tu, v.dict, v.ip)
    ensures Behind(tu, n.dict, n.ip)
  {
    Look(v.ip + 1, v.dict[Lookup(tu, x, v.ip, v.dict).slot := v.ip])
  }

  /** One position after the other, none of them but perhaps the last with a match. */
  ghost predicate Walk(tu: Tuning, x: seq<byte>, w: seq<Look>)
    decreases |w|
  {
    && w != [] && Behind(tu, w[0].dict, w[0].ip)
    && (|w| > 1 ==>
          && w[0].ip + 12 < |x| && !Lookup(tu, x, w[0].ip, w[0].dict).found
          && w[1] == Onward(tu, x, w[0]) && Walk(tu, x, w[1..]))
  }

  /** What the scan returns, told from its last position. */
  ghost predicate Found(tu: Tuning, x: seq<byte>, v: Look, r: Hit)
    requires Behind(tu, v.dict, v.ip)
  {
    if v.ip + 12 >= |x| then r.Miss?
    else
      var p := Lookup(tu, x, v.ip, v.dict);
      p.found && r == Hit(v.ip, p.pos, v.dict[p.slot := v.ip])
  }

  lemma SearchTurn(tu: Tuning, x: seq<byte>, v: Look)
    requires Behind(tu, v.dict, v.ip)
    ensures (var r := Search(tu, x, v.ip, v.dict);
             if v.ip + 12 >= |x| || Lookup(tu, x, v.ip, v.dict).found then Found(tu, x, v, r)
             else
               var n := Onward(tu, x, v);
               r == Search(tu, x, n.ip, n.dict))
  {
    hide Lookup, Behind;
  }

  /**
   * No position is passed over: the scan stops at the first one whose lookup finds three equal bytes, and misses
   * only if there is none up to the last twelve bytes.
   */
  lemma {:induction false} SearchFirst(tu: Tuning, x: seq<byte>, v: Look) returns (w: seq<Look>)
    requires Behind(tu, v.dict, v.ip)
    ensures w != [] && w[0] == v && Walk(tu, x, w) && Behind(tu, w[|w| - 1].dict, w[|w| - 1].ip)
    ensures Found(tu, x, w[|w| - 1], Search(tu, x, v.ip, v.dict))
    decreases |x| - v.ip
  {
    w := [v];
    SearchTurn(tu, x, v);
    hide Search, Lookup, Behind, Found;
    if v.ip + 12 < |x| && !Lookup(tu, x, v.ip, v.dict).found {
      var rest := SearchFirst(tu, x, Onward(tu, x, v));
      w := [v] + rest;
      assert w[1..] == rest;
    }
  }

  // ------------------------------------------------------------ matches are maximal

  lemma ShortMaximal(x: seq<byte>, ip: nat, pos: nat)
    requires pos < ip && ip + 12 < |x| && Common(x, ip + 3, pos + 3, 6) < 6
    ensures (var len := MatchLength(x, ip, pos); 3 <= len <= 8 && x[ip + len] != x[pos + len])
  {
    CommonIsLongest(x, ip + 3, pos + 3, 6);
    hide Common;
  }

  lemma LongMaximal(x: seq<byte>, ip: nat, pos: nat)
    requires pos < ip && ip + 12 < |x| && Common(x, ip + 3, pos + 3, 6) == 6
    ensures (var len := MatchLength(x, ip, pos);
             && 9 <= len <= 264 && ip + len + 3 <= |x|
             && (len == 264 || ip + len + 3 == |x| || x[ip + len] != x[pos + len]))
  {
    var n := Further(x, ip + 9);
    assert n == 255 || ip + 9 + n + 3 == |x|;
    CommonIsLongest(x, ip + 9, pos + 9, n);
    hide Common, Further;
  }

  /** A match ends only before a byte that differs, three bytes before the end of the input, or at 264 bytes. */
  lemma MatchMaximal(x: seq<byte>, ip: nat, pos: nat)
    requires pos < ip && ip + 12 < |x|
    ensures (var len := MatchLength(x, ip, pos);
             && 3 <= len <= 264 && ip + len + 3 <= |x|
             && (len == 264 || ip + len + 3 == |x| || x[ip + len] != x[pos + len]))
  {
    hide Common, MatchLength;
    if Common(x, ip + 3, pos + 3, 6) < 6 {
      ShortMaximal(x, ip, pos);
    } else {
      LongMaximal(x, ip, pos);
    }
  }

  // --------------------------------------------------------- what R1 codes are worth

  /**
   * In LZO1A a single literal costs one byte, and its header nothing, behind a match of three bytes that itself
   * follows a run of 1 to 279 literals; in LZO1, and behind any other match, it costs two.
   */
  lemma SingleLiteralCost(r1: bool, segs: seq<Segment>, b: byte)
    requires AllCodable(segs)
    ensures r1 && segs != [] && Last(segs).len == 3 && 1 <= |Last(segs).lit| <= 279 ==>
              |WithRun(r1, segs, [b])| == |Draft(r1, segs)| + 1
    ensures !r1 || segs == [] || Last(segs).len != 3 ==> |WithRun(r1, segs, [b])| == |Draft(r1, segs)| + 2
  {
    hide Draft;
    if r1 && segs != [] && Last(segs).len == 3 && 1 <= |Last(segs).lit| <= 279 {
      assert Remarks(r1, segs, 1);
      WithRunRemarked(r1, segs, [b]);
    }
    assert |RunCode([b])| == 2;
  }

  // ------------------------------------------------------ what repeats is compressed

  /** One byte over and over. */
  ghost predicate Uniform(x: seq<byte>) {
    forall i, j :: 0 <= i < |x| && 0 <= j < |x| ==> x[i] == x[j]
  }

  /** All three bytes are in the same slot, which holds a near position. */
  ghost predicate Primed(tu: Tuning, x: seq<byte>, ip: nat, dict: Dict) {
    && Behind(tu, dict, ip)
    && (ip + 3 <= |x| ==> 1 <= dict[tu.Slot(x, ip)] && Near(tu, ip, dict[tu.Slot(x, ip)]))
  }

  lemma SameSlot(tu: Tuning, x: seq<byte>, i: nat, j: nat)
    requires Uniform(x) && i + 3 <= |x| && j + 3 <= |x|
    ensures x[i..i + 3] == x[j..j + 3] && tu.Slot(x, i) == tu.Slot(x, j)
  {
    SameSlices(x, i, j);
    assert Load24(x, i) == Load24(x, j);
  }

  lemma PrimedLookup(tu: Tuning, x: seq<byte>, ip: nat, dict: Dict)
    requires Uniform(x) && Primed(tu, x, ip, dict) && ip + 3 <= |x|
    ensures Lookup(tu, x, ip, dict) == Probe(tu.Slot(x, ip), true, dict[tu.Slot(x, ip)])
  {
    LookupExactly(tu, x, ip, dict);
    hide Lookup, Load24;
    var q := dict[tu.Slot(x, ip)];
    SameSlot(tu, x, q, ip);
  }

  lemma {:induction false} UniformCommon(x: seq<byte>, a: nat, b: nat, n: nat)
    requires Uniform(x) && a + n <= |x| && b + n <= |x|
    ensures Common(x, a, b, n) == n
    decreases n
  {
    if n > 0 {
      UniformCommon(x, a + 1, b + 1, n - 1);
    }
  }

  lemma UniformLength(x: seq<byte>, ip: nat, pos: nat)
    requires Uniform(x) && pos < ip && ip + 12 < |x|
    ensures MatchLength(x, ip, pos) == if |x| - 3 - ip <= 264 then |x| - 3 - ip else 264
  {
    UniformCommon(x, ip + 3, pos + 3, 6);
    UniformCommon(x, ip + 9, pos + 9, Further(x, ip + 9));
    hide Common;
  }

  lemma DraftMore(r1: bool, segs: seq<Segment>, g: Segment)
    requires AllCodable(segs) && Codable(g)
    ensures AllCodable(segs + [g])
    ensures (var n := |g.lit|;
             |Draft(r1, segs + [g])| <= |Draft(r1, segs)| + n + (if n == 0 then 0 else 1 + n / 32) + 3)
  {
    assert Last(segs + [g]) == g && Front(segs + [g]) == segs;
    WithRunLength(r1, segs, g.lit);
    hide WithRun;
  }

  /** What is left, in matches of 264 bytes. */
  function Pieces(n: int): int {
    3 * ((n + 263) / 264)
  }

  lemma PrimedHit(tu: Tuning, x: seq<byte>, ip: nat, dict: Dict)
    requires Uniform(x) && Primed(tu, x, ip, dict) && ip + 12 < |x|
    ensures (var r := Search(tu, x, ip, dict);
             && r.Hit? && r.ip == ip && r.dict == dict[tu.Slot(x, ip) := ip] && ip - r.pos <= 8192
             && 1 <= r.pos < ip && Codable(Segment([], ip - r.pos, MatchLength(x, ip, r.pos))))
  {
    hide Lookup, Behind, Uniform, MatchLength;
    PrimedLookup(tu, x, ip, dict);
    SearchTurn(tu, x, Look(ip, dict));
  }

  lemma ParseTurn(tu: Tuning, x: seq<byte>, start: nat, ip: nat, dict: Dict, done: seq<Segment>)
    requires start <= ip && Behind(tu, dict, ip)
    ensures (var r := Search(tu, x, ip, dict);
             var p := ParseFrom(tu, x, start, ip, dict, done);
             if r.Miss? then p == Parsed(done, start)
             else
               var end := r.ip + MatchLength(x, r.ip, r.pos);
               var g := Segment(x[start..r.ip], r.ip - r.pos, end - r.ip);
               p == ParseFrom(tu, x, end, end, r.dict, done + [g]))
  {
    hide Behind, MatchLength, Search;
  }

  lemma PiecesTurn(n: nat, len: nat)
    requires 3 <= len <= n && (len == 264 || n - len <= 12)
    ensures Pieces(n) >= 3 && (len == 264 ==> Pieces(n - len) + 3 <= Pieces(n))
    ensures n - len <= 12 && len != 264 ==> 3 <= Pieces(n)
  {
  }

  /** From a primed dictionary on, matches of 264 bytes follow each other. */
  lemma {:induction false} UniformFrom(tu: Tuning, x: seq<byte>, ip: nat, dict: Dict, done: seq<Segment>)
    requires Uniform(x) && Primed(tu, x, ip, dict) && ip <= |x| && AllCodable(done)
    ensures (var p := ParseFrom(tu, x, ip, ip, dict, done);
             && AllCodable(p.segs) && p.rest + 12 >= |x| && p.rest <= |x|
             && |Draft(tu.r1, p.segs)| <= |Draft(tu.r1, done)|
                                          + if ip + 12 < |x| then Pieces(|x| - ip) else 0)
    decreases |x| - ip
  {
    hide Uniform, Draft, Behind, MatchLength, Search, Primed, AllCodable, Pieces, ParseFrom, Codable;
    PrimedBehind(tu, x, ip, dict);
    ParseTurn(tu, x, ip, ip, dict, done);
    if ip + 12 < |x| {
      PrimedHit(tu, x, ip, dict);
      var r := Search(tu, x, ip, dict);
      UniformLength(x, ip, r.pos);
      var len := MatchLength(x, ip, r.pos);
      var g := Segment(x[ip..ip], ip - r.pos, len);
      assert Codable(g) by {
        CodableAlike(g);
      }
      DraftMore(tu.r1, done, g);
      PrimedOnward(tu, x, ip, dict, ip + len);
      UniformFrom(tu, x, ip + len, r.dict, done + [g]);
      PiecesTurn(|x| - ip, len);
    } else {
      MissAtEnd(tu, x, ip, dict);
    }
  }

  lemma CodableAlike(g: Segment)
    ensures Codable(g) == Codable(Segment([], g.off, g.len))
  {
  }

  lemma MissAtEnd(tu: Tuning, x: seq<byte>, ip: nat, dict: Dict)
    requires Behind(tu, dict, ip) && ip + 12 >= |x|
    ensures Search(tu, x, ip, dict).Miss?
  {
  }

  lemma PrimedBehind(tu: Tuning, x: seq<byte>, ip: nat, dict: Dict)
    requires Primed(tu, x, ip, dict)
    ensures Behind(tu, dict, ip)
  {
  }

  /** A position just entered keeps the dictionary primed for 264 bytes. */
  lemma PrimedOnward(tu: Tuning, x: seq<byte>, ip: nat, dict: Dict, end: nat)
    requires Uniform(x) && Behind(tu, dict, ip) && 1 <= ip < end <= ip + 264 && ip + 3 <= |x|
    ensures Primed(tu, x, end, dict[tu.Slot(x, ip) := ip])
  {
    hide Load24;
    if end + 3 <= |x| {
      SameSlot(tu, x, ip, end);
    }
  }

  /** Whatever the dictionary held, the second look finds the first: from there on it is primed. */
  lemma UniformPrimed(tu: Tuning, x: seq<byte>, ip: nat, dict: Dict)
    requires Uniform(x) && Behind(tu, dict, ip) && ip == 1 && 13 < |x|
    ensures (var p := Lookup(tu, x, ip, dict);
             if p.found then p.pos == 0 && p.slot == tu.Slot(x, ip)
             else Primed(tu, x, ip + 1, dict[p.slot := ip]))
  {
    LookupExactly(tu, x, ip, dict);
    hide Lookup, Load24;
    var k := tu.Slot(x, ip);
    if Near(tu, ip, dict[k]) {
      SameSlot(tu, x, dict[k], ip);
    } else {
      SameSlot(tu, x, ip, ip + 1);
      PrimedOnward(tu, x, ip, dict, ip + 1);
    }
  }

  /** The first match starts at position 1 or 2, and primes the dictionary. */
  lemma UniformFirst(tu: Tuning, x: seq<byte>, dict: Dict)
    requires Uniform(x) && Behind(tu, dict, 1) && 14 < |x|
    ensures (var r := Search(tu, x, 1, dict);
             && r.Hit? && 1 <= r.ip <= 2 && 0 <= r.pos < r.ip && r.ip - r.pos <= 8192
             && (var end := r.ip + MatchLength(x, r.ip, r.pos); Primed(tu, x, end, r.dict)))
  {
    hide Lookup, Behind, Uniform, MatchLength, Primed;
    UniformPrimed(tu, x, 1, dict);
    BehindSize(tu, dict, 1);
    SearchTurn(tu, x, Look(1, dict));
    var p := Lookup(tu, x, 1, dict);
    if p.found {
      PrimedOnward(tu, x, 1, dict, 1 + MatchLength(x, 1, 0));
    } else {
      var n := Onward(tu, x, Look(1, dict));
      assert n == Look(2, dict[p.slot := 1]);
      PrimedHit(tu, x, 2, n.dict);
      PrimedOnward(tu, x, 2, n.dict, 2 + MatchLength(x, 2, Search(tu, x, 2, n.dict).pos));
    }
  }

  lemma UniformDraft(tu: Tuning, x: seq<byte>, dict: Dict)
    requires Uniform(x) && Behind(tu, dict, 1) && 14 < |x|
    ensures (var p := ParseFrom(tu, x, 0, 1, dict, []);
             && AllCodable(p.segs) && p.rest + 12 >= |x| && p.rest <= |x|
             && |Draft(tu.r1, p.segs)| <= 6 + |x| / 88)
  {
    hide Uniform, Behind, MatchLength, Search, Primed, ParseFrom, Codable, Pieces, Draft, AllCodable;
    UniformFirst(tu, x, dict);
    ParseTurn(tu, x, 0, 1, dict, []);
    var r := Search(tu, x, 1, dict);
    UniformLength(x, r.ip, r.pos);
    var len := MatchLength(x, r.ip, r.pos);
    var g := Segment(x[0..r.ip], r.ip - r.pos, len);
    IsCodable(g);
    FirstDraft(tu.r1, g);
    assert [] + [g] == [g];
    UniformFrom(tu, x, r.ip + len, r.dict, [g]);
    if len == 264 {
      PiecesBelow(|x| - r.ip);
    }
  }

  lemma FirstDraft(r1: bool, g: Segment)
    requires Codable(g) && 1 <= |g.lit| <= 2
    ensures AllCodable([g]) && |Draft(r1, [g])| <= 6
  {
    DraftMore(r1, [], g);
    assert [] + [g] == [g];
    assert Draft(r1, []) == [];
    hide Draft;
  }

  lemma IsCodable(g: Segment)
    requires 1 <= g.off <= 8192 && 3 <= g.len <= 264
    ensures Codable(g)
  {
  }

  lemma PiecesBelow(n: nat)
    requires n >= 264
    ensures Pieces(n - 264) <= n / 88
  {
  }

  /** One byte over and over is compressed to at most an eighty-eighth and 19 bytes, whatever the hashes. */
  lemma UniformCompressed(tu: Tuning, x: seq<byte>)
    requires tu.Legal() && Uniform(x)
    ensures |Compressed(tu, x)| <= |x| / 88 + 19
  {
    if |x| <= 14 {
      CompressedLength(tu, x);
    } else {
      var dict := tu.FirstDict()[tu.FirstSlot(x) := 0];
      assert Behind(tu, dict, 1);
      UniformDraft(tu, x, dict);
      hide ParseFrom, Draft, Uniform, RunCode, AllCodable;
      var p := Parse(tu, x);
      RunCodeLength(x[p.rest..]);
    }
  }

  /** The dictionary when the scan starts. */
  ghost function Started(tu: Tuning, x: seq<byte>): (d: Dict)
    requires tu.Legal() && 13 < |x|
    ensures Behind(tu, d, 1)
  {
    tu.FirstDict()[tu.FirstSlot(x) := 0]
  }

  /** The parse of more than 13 bytes is the main loop from the second position on. */
  lemma FirstParse(tu: Tuning, x: seq<byte>)
    requires tu.Legal() && 13 < |x|
    ensures Parse(tu, x) == ParseFrom(tu, x, 0, 1, Started(tu, x), [])
  {
    hide ParseFrom;
  }

  /**
   * The first position is entered before the scan starts at the second. Where entries can name it, and the hash for
   * it is that of the scan, a repetition is found at once.
   */
  lemma FirstIsEntered(tu: Tuning, x: seq<byte>)
    requires tu.Legal() && Uniform(x) && 13 < |x| && tu.FirstSlot(x) == tu.Slot(x, 1)
    requires !tu.deterministic || tu.r1 || tu.pointers
    ensures (var r := Search(tu, x, 1, Started(tu, x)); r.Hit? && r.ip == 1 && r.pos == 0)
    ensures Parse(tu, x) == ParseFrom(tu, x, 0, 1, Started(tu, x), [])
  {
    hide Load24, Lookup, Uniform, Behind, Parse, ParseFrom;
    var dict := Started(tu, x);
    BehindSize(tu, dict, 1);
    SameSlot(tu, x, 0, 1);
    LookupExactly(tu, x, 1, dict);
    SearchTurn(tu, x, Look(1, dict));
    FirstParse(tu, x);
  }

  /** Up to 13 bytes are not searched. */
  lemma ShortIsRun(tu: Tuning, x: seq<byte>)
    requires tu.Legal() && |x| <= 13
    ensures Compressed(tu, x) == if x == [] then [] else [|x|] + x
  {
    assert x[0..] == x;
  }
}
