/** LZO1 and LZO1A decoding, and what it makes of the streams of Lzo1Format. */
module Lzo1Decoder {
  import opened Bytes
  import opened Lz77
  import opened Lzo1Format

  datatype Status = Ok | InputOverrun

  /** Only LZO1A tells them apart: behind a literal run that was not long, a byte below 32 is an R1 code. */
  datatype Mode = Plain | AfterLiteral

  datatype State = State(mode: Mode, ip: nat, out: seq<byte>)

  /** `Wild`: a match would reach before the output. */
  datatype Outcome = Next(st: State) | Done(status: Status, out: seq<byte>) | Wild

  /** The input, the bytes found behind it, and whether the format has R1 codes. */
  datatype Env = Env(r1: bool, input: seq<byte>, past: nat -> byte)
  {
    function Get(k: nat): byte {
      At(input, past, k)
    }

    function Behind(literals: nat): Mode {
      if r1 && 1 <= literals < R0FAST then AfterLiteral else Plain
    }
  }

  ghost predicate Grows(out: seq<byte>, r: Outcome) {
    match r
    case Next(st) => out <= st.out
    case Done(_, o) => out <= o
    case Wild => true
  }

  function Literals(e: Env, ip: nat, n: nat, out: seq<byte>): (r: Outcome)
    ensures Grows(out, r) && (r.Next? ==> r.st.ip >= ip)
  {
    Next(State(e.Behind(n), ip + n, out + Take(e.input, e.past, ip, n)))
  }

  /** A copy of `len` bytes, then `more` literals. */
  function Match(e: Env, off: nat, len: nat, more: nat, ip: nat, out: seq<byte>): (r: Outcome)
    requires off >= 1
    ensures Grows(out, r) && (r.Next? ==> r.st.ip >= ip)
  {
    if off > |out| then Wild else Literals(e, ip, more, CopyBack(out, off, len))
  }

  /** One turn of the decoder. */
  function Step(e: Env, st: State): (r: Outcome)
    ensures Grows(st.out, r)
    ensures r.Next? ==> r.st.ip > st.ip && st.ip < |e.input|
  {
    var State(mode, ip, out) := st;
    if ip >= |e.input| then Done(if ip == |e.input| then Ok else InputOverrun, out)
    else
      var t := e.Get(ip);
      var b := e.Get(ip + 1);
      var off: nat := 1 + t % 32 + 32 * (b as int);
      if t < R0MIN && mode == AfterLiteral then Match(e, off, MIN_MATCH, 1, ip + 2, out)
      else if t == 0 then
        if b >= R0FAST - R0MIN then Literals(e, ip + 2, TierSize(b - (R0FAST - R0MIN)), out)
        else Literals(e, ip + 2, b + R0MIN, out)
      else if t < R0MIN then Literals(e, ip + 1, t, out)
      else if t < 224 then Match(e, off, t / 32 + 2, 0, ip + 2, out)
      else Match(e, off, MIN_MATCH_LONG + e.Get(ip + 2) as int, 0, ip + 3, out)
  }

  function Finish(e: Env, r: Outcome): (f: Outcome)
    ensures !f.Next?
    ensures r.Next? ==> Grows(r.st.out, f)
    decreases if r.Next? then 1 else 0, if r.Next? && r.st.ip < |e.input| then |e.input| - r.st.ip else 0
  {
    if r.Next? then Finish(e, Step(e, r.st)) else r
  }

  function Decode(e: Env): (f: Outcome) {
    Finish(e, Next(State(Plain, 0, [])))
  }

  // ------------------------------------------------------------ decoding an encoding

  /** The input has `c` at `ip`. */
  ghost predicate Here(e: Env, ip: nat, c: seq<byte>) {
    ip + |c| <= |e.input| && e.input[ip..ip + |c|] == c
  }

  lemma HereSplit(e: Env, ip: nat, a: seq<byte>, b: seq<byte>)
    requires Here(e, ip, a + b)
    ensures Here(e, ip, a) && Here(e, ip + |a|, b)
  {
    var s := e.input[ip..ip + |a + b|];
    assert s[..|a|] == a && s[|a|..] == b;
  }

  lemma HereAt(e: Env, ip: nat, c: seq<byte>, k: nat)
    requires Here(e, ip, c) && k < |c|
    ensures ip + k < |e.input| && e.Get(ip + k) == c[k]
  {
    assert e.input[ip..ip + |c|][k] == e.input[ip + k];
  }

  /** The decoder, started at the beginning, reaches `st`. */
  ghost predicate Reaches(e: Env, st: State) {
    Decode(e) == Finish(e, Next(st))
  }

  lemma Onward(e: Env, st: State, next: State)
    requires Reaches(e, st) && Step(e, st) == Next(next)
    ensures Reaches(e, next)
  {
    hide Step;
  }

  /** A literal run is appended in full, however it was cut. */
  lemma {:induction false} RunReads(e: Env, ip: nat, lit: seq<byte>, out: seq<byte>)
    requires Here(e, ip, RunCode(lit)) && Reaches(e, State(Plain, ip, out))
    ensures (var mode := if |lit| < R0FAST then e.Behind(|lit|) else EndMode(e, |lit|);
             Reaches(e, State(mode, ip + |RunCode(lit)|, out + lit)))
    decreases |lit|
  {
    hide Reaches;
    var n := |lit|;
    if n >= R0FAST {
      var k := Tier(n);
      var m := TierSize(k);
      var head, rest := [0, R0FAST - R0MIN + k], RunCode(lit[m..]);
      HereSplit(e, ip, head + lit[..m], rest);
      HeadedReads(e, ip, head, lit[..m], out);
      RunReads(e, ip + 2 + m, lit[m..], out + lit[..m]);
      assert out + lit[..m] + lit[m..] == out + lit;
    } else if n >= R0MIN {
      HeadedReads(e, ip, [0, n - R0MIN], lit, out);
    } else if n > 0 {
      HeadedReads(e, ip, [n], lit, out);
    } else {
      assert out + lit == out;
    }
  }

  /** The mode behind the last piece of a run. */
  ghost function EndMode(e: Env, n: nat): Mode
    decreases n
  {
    if n < R0FAST then e.Behind(n) else EndMode(e, n - TierSize(Tier(n)))
  }

  /** The header of a run of `n` literals. */
  ghost predicate Announces(head: seq<byte>, n: nat) {
    if |head| == 1 then head == [n] && 1 <= n < R0MIN
    else |head| == 2 && head[0] == 0 &&
         n == if head[1] >= R0FAST - R0MIN then TierSize(head[1] - (R0FAST - R0MIN)) else head[1] + R0MIN
  }

  lemma StepAtRun(e: Env, ip: nat, out: seq<byte>, head: seq<byte>, n: nat)
    requires Announces(head, n) && ip < |e.input| && e.Get(ip) == head[0] && (|head| == 2 ==> e.Get(ip + 1) == head[1])
    ensures Step(e, State(Plain, ip, out)) == Literals(e, ip + |head|, n, out)
  {
    hide Literals, TierSize, Match;
  }

  lemma HeadLength(head: seq<byte>, n: nat)
    requires Announces(head, n)
    ensures 1 <= |head| <= 2
  {
  }

  lemma HereTaken(e: Env, ip: nat, lit: seq<byte>)
    requires Here(e, ip, lit)
    ensures Take(e.input, e.past, ip, |lit|) == lit
  {
  }

  lemma HeadedReads(e: Env, ip: nat, head: seq<byte>, lit: seq<byte>, out: seq<byte>)
    requires Here(e, ip, head + lit) && Reaches(e, State(Plain, ip, out)) && Announces(head, |lit|)
    ensures Reaches(e, State(e.Behind(|lit|), ip + |head| + |lit|, out + lit))
  {
    hide Reaches, Step, Env.Behind, Here, Announces, TierSize;
    HereSplit(e, ip, head, lit);
    HeadLength(head, |lit|);
    HereAt(e, ip, head, 0);
    if |head| == 2 {
      HereAt(e, ip, head, 1);
    }
    var p := ip + |head|;
    StepAtRun(e, ip, out, head, |lit|);
    HereTaken(e, p, lit);
    Onward(e, State(Plain, ip, out), State(e.Behind(|lit|), p + |lit|, out + lit));
  }

  /** A coded match is copied in either mode. */
  lemma MatchReads(e: Env, x: seq<byte>, mode: Mode, ip: nat, at: nat, off: nat, len: nat)
    requires Codable(Segment([], off, len)) && Repeats(x, at, off, len)
    requires Here(e, ip, MatchCode(off, len)) && Reaches(e, State(mode, ip, x[..at]))
    ensures Reaches(e, State(Plain, ip + |MatchCode(off, len)|, x[..at + len]))
  {
    hide Reaches, CopyBack;
    var c := MatchCode(off, len);
    var d := off - 1;
    HereAt(e, ip, c, 0);
    HereAt(e, ip, c, 1);
    assert 1 + d % 32 + 32 * (d / 32) == off;
    if len >= MIN_MATCH_LONG {
      HereAt(e, ip, c, 2);
      assert c[0] % 32 == d % 32;
    } else {
      assert c[0] % 32 == d % 32 && c[0] / 32 == len - 2;
    }
    CopyBackRepeats(x, at, off, len);
    Copied(e, State(mode, ip, x[..at]), off, len, ip + |c|, x[..at + len]);
  }

  lemma Copied(e: Env, st: State, off: nat, len: nat, p: nat, out: seq<byte>)
    requires Reaches(e, st) && off >= 1 && Step(e, st) == Match(e, off, len, 0, p, st.out)
    requires off <= |st.out| && out == CopyBack(st.out, off, len)
    ensures Reaches(e, State(Plain, p, out))
  {
    hide Reaches, Step, CopyBack;
    assert out + [] == out;
    Onward(e, st, State(Plain, p, out));
  }

  /** An R1 code: three bytes copied and one literal. */
  lemma R1Reads(e: Env, x: seq<byte>, ip: nat, at: nat, off: nat)
    requires e.r1 && 1 <= off <= MAX_OFFSET && Repeats(x, at, off, MIN_MATCH) && at + 4 <= |x|
    requires Here(e, ip, R1Code(off) + x[at + 3..at + 4])
    requires Reaches(e, State(AfterLiteral, ip, x[..at]))
    ensures Reaches(e, State(AfterLiteral, ip + 3, x[..at + 4]))
  {
    hide Reaches, CopyBack;
    var lo, hi: byte, lit := (off - 1) % 32, (off - 1) / 32, x[at + 3..at + 4];
    assert R1Code(off) == [lo, hi];
    HereSplit(e, ip, [lo, hi], lit);
    HereAt(e, ip, [lo, hi], 0);
    HereAt(e, ip, [lo, hi], 1);
    assert lo < 32 && lo % 32 == lo && 1 + lo + 32 * (hi as int) == off;
    CopyBackRepeats(x, at, off, MIN_MATCH);
    assert Take(e.input, e.past, ip + 2, 1) == lit;
    assert x[..at + 3] + lit == x[..at + 4];
    Onward(e, State(AfterLiteral, ip, x[..at]), State(AfterLiteral, ip + 3, x[..at + 4]));
  }

  /** How the decoder stands behind the literals of WithRun. */
  ghost function RunMode(e: Env, segs: seq<Segment>, n: nat): Mode {
    if Remarks(e.r1, segs, n) then AfterLiteral
    else if n < R0FAST then e.Behind(n)
    else EndMode(e, n)
  }

  lemma FrontCodable(segs: seq<Segment>)
    requires AllCodable(segs) && segs != []
    ensures AllCodable(Front(segs)) && Codable(Last(segs)) && segs == Front(segs) + [Last(segs)]
  {
  }

  /** Re-marking splits: what stood before the match, the code without its length, the literal. */
  lemma Remarked(r1: bool, segs: seq<Segment>, lit: seq<byte>)
    requires AllCodable(segs) && segs != [] && Remarks(r1, segs, |lit|)
    requires AllCodable(Front(segs)) && Codable(Last(segs)) && Last(segs).len == MIN_MATCH
    ensures (var g := Last(segs); WithRun(r1, segs, lit) == WithRun(r1, Front(segs), g.lit) + (R1Code(g.off) + lit))
  {
    hide WithRun, Draft, MatchCode, Remarks, AllCodable, R1Code;
    var g := Last(segs);
    var a, c := WithRun(r1, Front(segs), g.lit), MatchCode(g.off, MIN_MATCH);
    WithRunRemarked(r1, segs, lit);
    DraftLast(r1, segs);
    ShortCode(g.off);
    Patch(a, c, lit);
  }

  lemma DraftLast(r1: bool, segs: seq<Segment>)
    requires AllCodable(segs) && segs != [] && AllCodable(Front(segs)) && Codable(Last(segs))
    ensures (var g := Last(segs); Draft(r1, segs) == WithRun(r1, Front(segs), g.lit) + MatchCode(g.off, g.len))
  {
    hide WithRun, MatchCode, Remarks, AllCodable;
  }

  /** The code of a match of three bytes, re-marked. */
  lemma ShortCode(off: nat)
    requires 1 <= off <= MAX_OFFSET
    ensures (var c := MatchCode(off, MIN_MATCH); |c| == 2 && c[0 := c[0] % 32] == R1Code(off))
  {
  }

  lemma Patch(a: seq<byte>, c: seq<byte>, lit: seq<byte>)
    requires |c| == 2
    ensures (var d := a + c; d[|d| - 2 := d[|d| - 2] % 32] + lit == a + (c[0 := c[0] % 32] + lit))
  {
    var d := a + c;
    assert d[|d| - 2] == c[0];
    assert d[|d| - 2 := c[0] % 32] == a + c[0 := c[0] % 32];
  }

  /** Whatever match finder tiled the input, the draft decodes to what has been tiled. */
  lemma {:induction false} DraftReads(e: Env, x: seq<byte>, p: nat, segs: seq<Segment>)
    requires Tiles(x, p, segs) && AllCodable(segs) && Here(e, 0, Draft(e.r1, segs))
    ensures Reaches(e, State(Plain, |Draft(e.r1, segs)|, x[..p]))
    decreases |segs|, 1
  {
    if segs == [] {
      assert x[..p] == [];
    } else {
      hide Here, Reaches, Draft, Repeats;
      FrontCodable(segs);
      TilesLast(x, p, segs);
      LastReads(e, x, p, segs);
    }
  }

  /** The last segment of a draft. */
  lemma {:induction false} LastReads(e: Env, x: seq<byte>, p: nat, segs: seq<Segment>)
    requires segs != [] && AllCodable(segs) && AllCodable(Front(segs)) && Codable(Last(segs))
      && Here(e, 0, Draft(e.r1, segs))
    requires (var g := Last(segs);
              && |g.lit| + g.len <= p <= |x| && g.lit == x[p - g.len - |g.lit|..p - g.len]
              && Repeats(x, p - g.len, g.off, g.len) && Tiles(x, p - g.len - |g.lit|, Front(segs)))
    ensures Reaches(e, State(Plain, |Draft(e.r1, segs)|, x[..p]))
    decreases |segs|, 0
  {
    hide WithRun, MatchCode, Repeats, Draft, Here, Reaches, AllCodable, Tiles, RunMode;
    DraftLast(e.r1, segs);
    var g := Last(segs);
    var at := p - g.len;
    var a := WithRun(e.r1, Front(segs), g.lit);
    HereSplit(e, 0, a, MatchCode(g.off, g.len));
    WithRunReads(e, x, at - |g.lit|, Front(segs), g.lit);
    MatchReads(e, x, RunMode(e, Front(segs), |g.lit|), |a|, at, g.off, g.len);
  }

  lemma {:induction false} WithRunReads(e: Env, x: seq<byte>, p: nat, segs: seq<Segment>, lit: seq<byte>)
    requires Tiles(x, p, segs) && AllCodable(segs) && p + |lit| <= |x| && lit == x[p..p + |lit|]
    requires Here(e, 0, WithRun(e.r1, segs, lit))
    ensures Reaches(e, State(RunMode(e, segs, |lit|), |WithRun(e.r1, segs, lit)|, x[..p + |lit|]))
    decreases |segs|, 2
  {
    hide RunCode, Reaches, Draft;
    if Remarks(e.r1, segs, |lit|) {
      FrontCodable(segs);
      TilesLast(x, p, segs);
      RemarkedReads(e, x, p, segs, lit);
    } else {
      HereSplit(e, 0, Draft(e.r1, segs), RunCode(lit));
      DraftReads(e, x, p, segs);
      RunReads(e, |Draft(e.r1, segs)|, lit, x[..p]);
      assert x[..p] + lit == x[..p + |lit|];
    }
  }

  /** A marked match is read behind a literal. */
  lemma MarkedMode(e: Env, segs: seq<Segment>)
    requires e.r1 && segs != [] && Marked(e.r1, segs)
    ensures RunMode(e, Front(segs), |Last(segs).lit|) == AfterLiteral
  {
    hide Remarks;
  }

  /** A match is re-marked only where the decoder stands behind a literal, so that it reads the R1 code. */
  lemma {:induction false} RemarkedReads(e: Env, x: seq<byte>, p: nat, segs: seq<Segment>, lit: seq<byte>)
    requires Tiles(x, p, segs) && AllCodable(segs) && p + |lit| <= |x| && lit == x[p..p + |lit|]
    requires Here(e, 0, WithRun(e.r1, segs, lit)) && segs != [] && Remarks(e.r1, segs, |lit|)
    requires AllCodable(Front(segs)) && Codable(Last(segs))
    requires (var g := Last(segs);
              && |g.lit| + g.len <= p && g.lit == x[p - g.len - |g.lit|..p - g.len]
              && Repeats(x, p - g.len, g.off, g.len) && Tiles(x, p - g.len - |g.lit|, Front(segs)))
    ensures (var g := Last(segs); RunMode(e, Front(segs), |g.lit|) == AfterLiteral)
    ensures Reaches(e, State(AfterLiteral, |WithRun(e.r1, segs, lit)|, x[..p + 1]))
    decreases |segs|, 0
  {
    hide Reaches, WithRun, R1Code, AllCodable, Here, Repeats, Remarks, RunMode, Tiles, Draft, Marked;
    RemarksMeans(e.r1, segs, |lit|);
    var g := Last(segs);
    var at := p - g.len;
    var a := WithRun(e.r1, Front(segs), g.lit);
    assert RunMode(e, Front(segs), |g.lit|) == AfterLiteral by {
      MarkedMode(e, segs);
    }
    assert WithRun(e.r1, segs, lit) == a + (R1Code(g.off) + lit) by {
      Remarked(e.r1, segs, lit);
    }
    HereSplit(e, 0, a, R1Code(g.off) + lit);
    WithRunReads(e, x, at - |g.lit|, Front(segs), g.lit);
    R1Reads(e, x, |a|, at, g.off);
  }

  /** Round trip, for LZO1 and for LZO1A: any tiling of the input, coded, decodes to the input. */
  lemma DecodeEncode(r1: bool, x: seq<byte>, p: nat, segs: seq<Segment>, past: nat -> byte)
    requires Tiles(x, p, segs)
    ensures AllCodable(segs) && Decode(Env(r1, Encode(r1, segs, x[p..]), past)) == Done(Ok, x)
  {
    hide Draft, RunCode, Tiles, Repeats, Here, Reaches, Decode, AllCodable, EndMode, Env.Behind;
    TilesCodable(x, p, segs);
    var tail := x[p..];
    var e := Env(r1, Encode(r1, segs, tail), past);
    HereWhole(e);
    HereSplit(e, 0, Draft(r1, segs), RunCode(tail));
    DraftReads(e, x, p, segs);
    RunReads(e, |Draft(r1, segs)|, tail, x[..p]);
    assert x[..p] + tail == x;
    AtEnd(e, State(if |tail| < R0FAST then e.Behind(|tail|) else EndMode(e, |tail|), |e.input|, x));
  }

  lemma HereWhole(e: Env)
    ensures Here(e, 0, e.input)
  {
  }

  lemma AtEnd(e: Env, st: State)
    requires Reaches(e, st) && st.ip == |e.input|
    ensures Decode(e) == Done(Ok, st.out)
  {
    assert Step(e, st) == Done(Ok, st.out);
    hide Step;
    assert Finish(e, Done(Ok, st.out)) == Done(Ok, st.out);
  }
}
