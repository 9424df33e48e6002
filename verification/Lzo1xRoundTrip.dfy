/** Decoding an encoded segment list, in one buffer or two. */
module Lzo1xRoundTrip {
  import opened Bytes
  import opened Lz77
  import opened Lzo1xDecoder
  import opened Lzo1xFormat

  /**
   * With the output starting `d` bytes below the input, the write index stays at least two
   * bytes behind the read index in every reached state: no byte still to be read is overwritten,
   * not even the one two back that announces the next short literal run. What the last instruction
   * still writes, if it fails, stays below it.
   */
  ghost predicate Clear(e: Env, d: int, r: Outcome)
    decreases r.Next?, if r.Next? && r.st.ip < |e.input| then |e.input| - r.st.ip else 0,
              r.Next? && r.st.mode == AfterRun
  {
    r.Next? ==>
      && |r.st.out| + 2 <= d + r.st.ip
      && (var p := Step(e, r.st); (p.Done? ==> |p.out| <= d + r.st.ip) && Clear(e, d, p))
  }

  /** The run from `r` succeeds with `x`, and stays clear. */
  ghost predicate Yields(e: Env, d: int, r: Outcome, x: seq<byte>) {
    Finish(e, r) == Done(Ok, x) && Clear(e, d, r)
  }

  /** Input and output have lengths that fit a word, and `x` fits the output area. */
  ghost predicate Fits(e: Env, x: seq<byte>) {
    |e.input| < e.word && |x| < e.word && (e.checks ==> |x| <= e.cap < e.word)
  }

  /** Enough room for `x` in the output and in the distance between the buffers. */
  ghost predicate Roomy(e: Env, d: int, x: seq<byte>) {
    Fits(e, x) && |x| + |x| / 16 + 6 <= d + |e.input|
  }

  lemma EofStep(e: Env, mode: Mode, ip: nat, out: seq<byte>)
    requires Here(e, ip, EOF_MARK) && ip + 3 == |e.input|
    ensures Step(e, State(mode, ip, out)) == Done(Ok, out)
  {
    HereAt(e, ip, EOF_MARK, 0);
    HereAt(e, ip, EOF_MARK, 1);
    HereAt(e, ip, EOF_MARK, 2);
    hide ScanLength, CopyMatch, LiteralRun;
  }

  lemma EofYields(e: Env, d: int, mode: Mode, ip: nat, out: seq<byte>)
    requires Here(e, ip, EOF_MARK) && ip + 3 == |e.input|
    requires |out| + 2 <= d + ip
    ensures Yields(e, d, Next(State(mode, ip, out)), out)
  {
    hide Step;
    EofStep(e, mode, ip, out);
    assert Finish(e, Done(Ok, out)) == Done(Ok, out) && Clear(e, d, Done(Ok, out));
  }

  lemma StepAtMatch(e: Env, mode: Mode, ip: nat, out: seq<byte>)
    requires ip + 1 < |e.input| && e.input[ip] >= 16
    ensures Step(e, State(mode, ip, out)) == MatchInstruction(e, e.input[ip], ip + 1, out)
  {
  }

  lemma StepAtRun(e: Env, ip: nat, out: seq<byte>, n: nat, p: nat)
    requires ip < |e.input| && e.input[ip] < 16 && 4 <= n < e.word
    requires (if e.input[ip] == 0 then ScanLength(e, ip + 1, 15) else Scan(e.input[ip], ip + 1)) == Scan(n - 3, p)
    ensures Step(e, State(Outer, ip, out)) == LiteralRun(e, n, p, out)
  {
    CountsPlain(n - 3, 1, e.word, e.wide);
    hide RunCount, LiteralRun, ScanLength;
  }

  lemma LiteralsTaken(e: Env, ip: nat, out: seq<byte>, run: seq<byte>)
    requires |run| >= 1 && Here(e, ip, run) && ip + |run| < |e.input|
    requires Fits(e, out + run)
    ensures LiteralRun(e, |run|, ip, out) == Next(State(AfterRun, ip + |run|, out + run))
    ensures |run| < 4 ==> ShortLiterals(e, |run|, ip, out) == Next(State(AfterShort, ip + |run|, out + run))
  {
    assert Take(e.input, e.past, ip, |run|) == run;
    TestsPlain(e, ip, out, |run|);
    TestsPlain(e, ip, out, |run| + 1);
    hide Env.InputShort, Env.OutputShort;
  }

  /** The count of a headed run reads back. */
  lemma RunHeaderReads(e: Env, ip: nat, n: nat)
    requires n >= 4 && Here(e, ip, RunHeader(n)) && n < e.word
    ensures e.input[ip] < 16
    ensures (if e.input[ip] == 0 then ScanLength(e, ip + 1, 15) else Scan(e.input[ip], ip + 1))
         == Scan(n - 3, ip + |RunHeader(n)|)
  {
    HereAt(e, ip, RunHeader(n), 0);
    if n > 18 {
      HereSplit(e, ip, [0], Extension(n - 18));
      ScanExtension(e, ip + 1, n - 18, 15);
    }
  }

  /** A headed run of literals is appended. */
  lemma RunStep(e: Env, ip: nat, out: seq<byte>, run: seq<byte>)
    requires |run| >= 4 && Here(e, ip, RunHeader(|run|) + run)
    requires ip + |RunHeader(|run|)| + |run| < |e.input|
    requires Fits(e, out + run)
    ensures Step(e, State(Outer, ip, out)) == Next(State(AfterRun, ip + |RunHeader(|run|)| + |run|, out + run))
  {
    hide Step, ScanLength, LiteralRun, RunHeader;
    var h := RunHeader(|run|);
    HereSplit(e, ip, h, run);
    RunHeaderReads(e, ip, |run|);
    StepAtRun(e, ip, out, |run|, ip + |h|);
    LiteralsTaken(e, ip + |h|, out, run);
  }

  lemma HereFits(e: Env, ip: nat, c: seq<byte>)
    requires Here(e, ip, c)
    ensures ip + |c| <= |e.input|
  {
  }

  /** A coded match is copied in every mode. */
  lemma MatchStep(e: Env, mode: Mode, ip: nat, out: seq<byte>, off: nat, len: nat, s: nat)
    requires 1 <= off <= M4_MAX_OFFSET && 4 <= len && s < 4 && off <= |out|
    requires Here(e, ip, MatchCode(off, len, s))
    requires Fits(e, CopyBack(out, off, len))
    ensures Step(e, State(mode, ip, out))
         == ShortLiterals(e, s, ip + |MatchCode(off, len, s)|, CopyBack(out, off, len))
  {
    hide Step, MatchInstruction, ReadHeader, MatchCode, Here, CopyBack, ShortLiterals;
    MatchReads(e, ip, off, len, s);
    HereFits(e, ip, MatchCode(off, len, s));
    StepAtMatch(e, mode, ip, out);
    MatchCopies(e, e.input[ip], ip + 1, out, off, len, ip + |MatchCode(off, len, s)|);
  }

  lemma MatchCopies(e: Env, t: byte, ip: nat, out: seq<byte>, off: nat, len: nat, p: nat)
    requires t >= 16 && ip >= 1 && 1 <= off <= |out| && 2 <= len
    requires 2 <= p <= |e.input| && ReadHeader(e, t, ip) == Match(off, len, p)
    requires len < e.word && (e.checks ==> |out| + len <= e.cap < e.word)
    ensures MatchInstruction(e, t, ip, out) == ShortLiterals(e, e.input[p - 2] % 4, p, CopyBack(out, off, len))
  {
    TestsPlain(e, ip, out, len);
    hide Env.OutputShort, ReadHeader, ShortLiterals;
  }

  /** From behind a match, the rest of the stream replays the rest of the segments. */
  lemma {:induction false} RestYields(e: Env, d: int, segs: seq<Segment>, tail: seq<byte>, ip: nat, out: seq<byte>)
    requires Valid(out, segs)
    requires (ValidCodable(out, segs); Here(e, ip, EncodeRest(segs, tail))
      && ip + |EncodeRest(segs, tail)| == |e.input|)
    requires Roomy(e, d, Expand(out, segs) + tail)
    ensures Yields(e, d, ShortLiterals(e, NextShort(segs, tail), ip, out), Expand(out, segs) + tail)
    decreases |segs|, 1
  {
    hide Step, Here, RunHeader, MatchCode, EncodeBehind, CopyBack, Env.InputShort, Env.OutputShort, Take;
    ValidCodable(out, segs);
    var run := NextRun(segs, tail);
    EncodeRestLength(out, segs, tail);
    HereSplit(e, ip, Literals(run), EncodeBehind(segs, tail));
    if |run| <= 3 {
      if run == [] {
        assert out + [] == out;
      } else {
        LiteralsTaken(e, ip, out, run);
      }
      BehindYields(e, d, segs, tail, if run == [] then Outer else AfterShort, ip + |run|, out);
    } else {
      RunStep(e, ip, out, run);
      BehindYields(e, d, segs, tail, AfterRun, ip + |Literals(run)|, out);
    }
  }

  lemma {:induction false} BehindYields(e: Env, d: int, segs: seq<Segment>, tail: seq<byte>, mode: Mode, ip: nat,
          out: seq<byte>)
    requires Valid(out, segs)
    requires (ValidCodable(out, segs); Here(e, ip, EncodeBehind(segs, tail))
      && ip + |EncodeBehind(segs, tail)| == |e.input|)
    requires |out| + |NextRun(segs, tail)| + 2 <= d + ip
    requires Roomy(e, d, Expand(out, segs) + tail)
    ensures Yields(e, d, Next(State(mode, ip, out + NextRun(segs, tail))), Expand(out, segs) + tail)
    decreases |segs|, 0
  {
    hide Step, Here, Literals, MatchCode, EncodeRest, CopyBack, NextShort, ShortLiterals;
    ValidCodable(out, segs);
    if segs == [] {
      EofYields(e, d, mode, ip, out + tail);
    } else {
      var g := segs[0];
      var s := NextShort(segs[1..], tail);
      HereSplit(e, ip, MatchCode(g.off, g.len, s), EncodeRest(segs[1..], tail));
      MatchStep(e, mode, ip, out + g.lit, g.off, g.len, s);
      RestYields(e, d, segs[1..], tail, ip + |MatchCode(g.off, g.len, s)|, CopyBack(out + g.lit, g.off, g.len));
    }
  }

  /** A compressor's parse: what can be coded so that the first run is not mistaken for a match's. */
  ghost predicate Parse(segs: seq<Segment>, tail: seq<byte>, x: seq<byte>) {
    && Valid([], segs)
    && (segs != [] ==> |segs[0].lit| >= 4)
    && x == Expand([], segs) + tail
  }

  /** A lone literal run of at most 238 bytes. */
  lemma DecodeLone(e: Env, tail: seq<byte>, d: int)
    requires 1 <= |tail| <= 238 && e.input == [17 + |tail|] + tail + EOF_MARK && Roomy(e, d, tail)
    ensures Yields(e, d, Begin(e), tail)
  {
    hide Step;
    assert Here(e, 0, [17 + |tail|] + tail + EOF_MARK);
    HereSplit(e, 0, [17 + |tail|] + tail, EOF_MARK);
    HereSplit(e, 0, [17 + |tail|], tail);
    HereAt(e, 0, [17 + |tail|], 0);
    LiteralsTaken(e, 1, [], tail);
    assert [] + tail == tail;
    EofYields(e, d, if |tail| < 4 then AfterShort else AfterRun, 1 + |tail|, tail);
  }

  /** Any other stream: its first byte is not above 17, and it starts like one behind a match. */
  lemma DecodeRest(e: Env, segs: seq<Segment>, tail: seq<byte>, x: seq<byte>, d: int)
    requires Parse(segs, tail, x) && !(segs == [] && 1 <= |tail| <= 238)
    requires (ValidCodable([], segs); e.input == EncodeRest(segs, tail))
    requires Roomy(e, d, x)
    ensures Yields(e, d, Begin(e), x)
  {
    ValidCodable([], segs);
    var run := NextRun(segs, tail);
    assert NextShort(segs, tail) == 0;
    hide Yields, EncodeBehind, Roomy, Expand, Valid, Codable, ShortLiterals, Begin;
    assert Here(e, 0, EncodeRest(segs, tail));
    RestYields(e, d, segs, tail, 0, []);
    FirstByte(e, run, EncodeBehind(segs, tail));
    BeginsPlain(e);
  }

  lemma FirstByte(e: Env, run: seq<byte>, rest: seq<byte>)
    requires (run == [] && rest == EOF_MARK) || |run| >= 4
    requires e.input == Literals(run) + rest
    ensures |e.input| > 0 && e.input[0] <= 17
  {
    hide RunHeader;
    if run == [] {
      NothingBehind(e);
    } else {
      HereSplit(e, 0, Literals(run), rest);
      HereSplit(e, 0, RunHeader(|run|), run);
      HeaderByte(e, 0, |run|);
    }
  }

  lemma BeginsPlain(e: Env)
    requires |e.input| > 0 && e.input[0] <= 17
    ensures Begin(e) == ShortLiterals(e, 0, 0, [])
  {
  }

  lemma HeaderByte(e: Env, ip: nat, n: nat)
    requires n >= 4 && Here(e, ip, RunHeader(n))
    ensures ip < |e.input| && e.input[ip] < 16
  {
    HereAt(e, ip, RunHeader(n), 0);
  }

  lemma NothingBehind(e: Env)
    requires e.input == Literals([]) + EOF_MARK
    ensures e.input[0] == 17
  {
  }

  /** Decoding an encoding gives the input back, and stays clear in one buffer. */
  lemma DecodeEncode(segs: seq<Segment>, tail: seq<byte>, x: seq<byte>, checks: bool, past: nat -> byte, cap: nat,
          word: Word, wide: bool, d: int)
    requires Parse(segs, tail, x)
    requires (ValidCodable([], segs);
              var e := Env(checks, Encode(segs, tail), past, cap, word, wide);
              Roomy(e, d, x))
    ensures (ValidCodable([], segs);
             var e := Env(checks, Encode(segs, tail), past, cap, word, wide);
             Yields(e, d, Begin(e), x))
  {
    hide EncodeRest, Begin, Yields;
    ValidCodable([], segs);
    var e := Env(checks, Encode(segs, tail), past, cap, word, wide);
    if segs == [] && 1 <= |tail| <= 238 {
      assert x == [] + tail == tail;
      DecodeLone(e, tail, d);
    } else {
      DecodeRest(e, segs, tail, x, d);
    }
  }

  /** The stream is at most a sixteenth, and 4 bytes, longer than the input. */
  lemma EncodeLength(segs: seq<Segment>, tail: seq<byte>, x: seq<byte>)
    requires Parse(segs, tail, x)
    ensures (ValidCodable([], segs); |Encode(segs, tail)| <= |x| + |x| / 16 + 4)
  {
    EncodeRestLength([], segs, tail);
  }
}
