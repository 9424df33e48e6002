/** The whole LZO1X format, instruction by instruction: what the decoder accepts is exactly a legal program's bytes. */
module Lzo1xProgram {
  import opened Bytes
  import opened Lz77
  import opened Lzo1xDecoder
  import opened Lzo1xFormat
  import opened Lzo1xRoundTrip
  import opened Lzo1xSafe

  /** The five ways to code a match. */
  datatype Form = Two | Three | M2 | M3 | M4
  {
    /** The distances and lengths it can have, and where it can stand. */
    predicate Carries(mode: Mode, off: nat, len: nat) {
      match this
      case Two => mode == AfterShort && 1 <= off <= 1024 && len == 2
      case Three => mode == AfterRun && 2049 <= off <= 3072 && len == 3
      case M2 => 1 <= off <= 2048 && 3 <= len <= 8
      case M3 => 1 <= off <= 16384 && 3 <= len
      case M4 => 16385 <= off <= 49151 && 3 <= len
    }
  }

  /** A number from 1 on: 255 for each zero byte, then a byte that is not zero. */
  function LengthBytes(n: nat): (s: seq<byte>)
    requires n >= 1
    ensures |s| >= 1 && s[0] < 256
  {
    Zeros((n - 1) / 255) + [(n - 1) % 255 + 1]
  }

  /** A marker with a length of up to `max` in its low bits or behind it, and two bytes of distance. */
  function Marked(marker: byte, max: nat, d: nat, len: nat, s: nat): (c: seq<byte>)
    requires s < 4 && 3 <= len && marker + max - 2 < 256
    ensures |c| >= 3
  {
    (if len <= max then [marker + (len - 2)] else [marker] + LengthBytes(len - max)) + [4 * (d % 64) + s, d / 64 % 256]
  }

  /** The bytes of a match behind which `s` literals follow. */
  function CopyCode(form: Form, mode: Mode, off: nat, len: nat, s: nat): (c: seq<byte>)
    requires form.Carries(mode, off, len) && s < 4
    ensures |c| >= 2
  {
    match form
    case Two => [4 * ((off - 1) % 4) + s, (off - 1) / 4]
    case Three => [4 * ((off - 2049) % 4) + s, (off - 2049) / 4]
    case M2 => [32 * (len - 1) + 4 * ((off - 1) % 8) + s, (off - 1) / 8]
    case M3 => Marked(32, 33, off - 1, len, s)
    case M4 => Marked(16 + 8 * ((off - 16384) / 16384), 9, off - 16384, len, s)
  }

  /** The bytes in front of a run of `n` literals. */
  function RunCode(n: nat): (c: seq<byte>)
    requires n >= 4
    ensures |c| >= 1
  {
    if n <= 18 then [n - 3] else [0] + LengthBytes(n - 18)
  }

  /** The end mark is a far match of distance zero; its length does not matter, nor do the two low bits. */
  function EndCode(len: nat, s: nat): (c: seq<byte>)
    requires s < 4 && 3 <= len
    ensures |c| >= 3
  {
    Marked(16, 9, 0, len, s)
  }

  /** A literal run, or a match with up to three literals behind it. */
  datatype Op = Run(lits: seq<byte>) | Copy(form: Form, off: nat, len: nat, lits: seq<byte>)
  {
    predicate Fits(mode: Mode) {
      match this
      case Run(lits) => mode == Outer && |lits| >= 4
      case Copy(form, off, len, lits) => form.Carries(mode, off, len) && |lits| <= 3
    }

    function Code(mode: Mode): (c: seq<byte>)
      requires Fits(mode)
      ensures |c| >= 1
    {
      match this
      case Run(lits) => RunCode(|lits|)
      case Copy(form, off, len, lits) => CopyCode(form, mode, off, len, |lits|)
    }

    function Bytes(mode: Mode): seq<byte>
      requires Fits(mode)
    {
      Code(mode) + lits
    }

    function After(): Mode {
      match this
      case Run(_) => AfterRun
      case Copy(_, _, _, lits) => if lits == [] then Outer else AfterShort
    }

    predicate Possible(out: seq<byte>) {
      Copy? ==> 1 <= off <= |out|
    }

    function Apply(out: seq<byte>): (r: seq<byte>)
      requires Possible(out)
      ensures |r| >= |out|
    {
      match this
      case Run(lits) => out + lits
      case Copy(_, off, len, lits) => CopyBack(out, off, len) + lits
    }
  }

  /** Every instruction fits where it stands, and every match looks back at bytes that are there. */
  predicate LegalFrom(mode: Mode, out: seq<byte>, ops: seq<Op>)
    decreases |ops|
  {
    ops != [] ==>
      && ops[0].Fits(mode) && ops[0].Possible(out)
      && LegalFrom(ops[0].After(), ops[0].Apply(out), ops[1..])
  }

  function CodeFrom(mode: Mode, out: seq<byte>, ops: seq<Op>): seq<byte>
    requires LegalFrom(mode, out, ops)
    decreases |ops|
  {
    if ops == [] then [] else ops[0].Bytes(mode) + CodeFrom(ops[0].After(), ops[0].Apply(out), ops[1..])
  }

  function MeaningFrom(mode: Mode, out: seq<byte>, ops: seq<Op>): (r: seq<byte>)
    requires LegalFrom(mode, out, ops)
    ensures |r| >= |out|
    decreases |ops|
  {
    if ops == [] then out else MeaningFrom(ops[0].After(), ops[0].Apply(out), ops[1..])
  }

  /** Up to 238 literals behind a single byte, instructions, and an end mark. */
  datatype Program = Program(first: seq<byte>, ops: seq<Op>, len: nat, s: nat)
  {
    function Start(): Mode {
      if first == [] then Outer else if |first| <= 3 then AfterShort else AfterRun
    }

    /** An end mark in front of everything must not look like the first literals. */
    predicate Legal() {
      && |first| <= 238 && LegalFrom(Start(), first, ops)
      && 3 <= len && s < 4 && (first == [] && ops == [] ==> len == 3 || len > 9)
    }

    function Lead(): seq<byte>
      requires |first| <= 238
    {
      if first == [] then [] else [17 + |first|] + first
    }

    function Bytes(): seq<byte>
      requires Legal()
    {
      Lead() + CodeFrom(Start(), first, ops) + EndCode(len, s)
    }

    function Meaning(): seq<byte>
      requires Legal()
    {
      MeaningFrom(Start(), first, ops)
    }
  }

  // ------------------------------------------------------------- the closed forms

  lemma {:induction false} LengthIsExtension(n: nat)
    requires n >= 1
    ensures LengthBytes(n) == Extension(n)
    decreases n
  {
    if n > 255 {
      LengthIsExtension(n - 255);
      assert Zeros((n - 1) / 255) == [0] + Zeros((n - 256) / 255);
    }
  }

  lemma MarkedIs(marker: byte, max: nat, d: nat, len: nat, s: nat)
    requires s < 4 && 3 <= len && max >= 3 && marker + max - 2 < 256
    ensures Marked(marker, max, d, len, s)
         == MarkedMatch(if len <= max then marker + (len - 2) else marker, if len <= max then 0 else len - max, d, s)
  {
    if len > max {
      LengthIsExtension(len - max);
    }
    hide Extension, LengthBytes;
  }

  // ---------------------------------------------------------- what a code reads as

  lemma ShortCodeIs(e: Env, mode: Mode, ip: nat, form: Form, off: nat, len: nat, s: nat)
    requires form.Carries(mode, off, len) && s < 4 && (form.Two? || form.Three?)
    requires Here(e, ip, CopyCode(form, mode, off, len, s))
    ensures |CopyCode(form, mode, off, len, s)| == 2 && ip + 2 <= |e.input|
    ensures (var d := off - if form.Two? then 1 else 2049;
             e.input[ip] == 4 * (d % 4) + s && e.input[ip + 1] == d / 4)
  {
    var c := CopyCode(form, mode, off, len, s);
    HereAt(e, ip, c, 0);
    HereAt(e, ip, c, 1);
  }

  lemma ShortBytes(d: nat, s: nat)
    requires s < 4 && d < 1024
    ensures (var t := 4 * (d % 4) + s; t < 16 && t % 4 == s && t / 4 + 4 * (d / 4) == d)
  {
  }

  lemma TwoReads(e: Env, ip: nat, out: seq<byte>, off: nat, s: nat)
    requires 1 <= off <= 1024 && s < 4 && ip + 2 <= |e.input|
    requires e.input[ip] == 4 * ((off - 1) % 4) + s && e.input[ip + 1] == (off - 1) / 4
    ensures Step(e, State(AfterShort, ip, out)) == CopyMatch(e, off, 2, ip + 2, out)
  {
    hide CopyMatch, MatchInstruction;
    ShortBytes(off - 1, s);
  }

  lemma ThreeReads(e: Env, ip: nat, out: seq<byte>, off: nat, s: nat)
    requires 2049 <= off <= 3072 && s < 4 && ip + 2 <= |e.input|
    requires e.input[ip] == 4 * ((off - 2049) % 4) + s && e.input[ip + 1] == (off - 2049) / 4
    ensures Step(e, State(AfterRun, ip, out)) == CopyMatch(e, off, 3, ip + 2, out)
  {
    hide CopyMatch, MatchInstruction;
    ShortBytes(off - 2049, s);
  }

  /** The two forms below 16, which only the decoder's mode tells apart. */
  lemma ShortReads(e: Env, mode: Mode, ip: nat, out: seq<byte>, form: Form, off: nat, len: nat, s: nat)
    requires form.Carries(mode, off, len) && s < 4 && (form.Two? || form.Three?)
    requires Here(e, ip, CopyCode(form, mode, off, len, s))
    ensures e.input[ip] % 4 == s && |CopyCode(form, mode, off, len, s)| == 2
    ensures Step(e, State(mode, ip, out)) == CopyMatch(e, off, len, ip + 2, out)
  {
    hide Step, CopyCode, Here, CopyMatch;
    ShortCodeIs(e, mode, ip, form, off, len, s);
    if form.Two? {
      ShortBytes(off - 1, s);
      TwoReads(e, ip, out, off, s);
    } else {
      ShortBytes(off - 2049, s);
      ThreeReads(e, ip, out, off, s);
    }
  }

  lemma M2CodeReads(e: Env, mode: Mode, ip: nat, off: nat, len: nat, s: nat)
    requires M2.Carries(mode, off, len) && s < 4 && Here(e, ip, CopyCode(M2, mode, off, len, s))
    ensures e.input[ip] >= 16 && e.input[ip] % 4 == s && ReadHeader(e, e.input[ip], ip + 1) == Match(off, len, ip + 2)
  {
    var c := CopyCode(M2, mode, off, len, s);
    HereAt(e, ip, c, 0);
    HereAt(e, ip, c, 1);
    M2Bytes(off - 1, len - 1, s);
  }

  lemma M3CodeReads(e: Env, mode: Mode, ip: nat, off: nat, len: nat, s: nat)
    requires M3.Carries(mode, off, len) && s < 4 && Here(e, ip, CopyCode(M3, mode, off, len, s)) && len < e.word
    ensures (var p := ip + |CopyCode(M3, mode, off, len, s)|;
             && e.input[ip] >= 16 && e.input[p - 2] % 4 == s
             && ReadHeader(e, e.input[ip], ip + 1) == Match(off, len, p))
  {
    hide MarkedMatch, Marked, Here, ScanLength, NearHeader;
    MarkedIs(32, 33, off - 1, len, s);
    var marker := if len <= 33 then 32 + (len - 2) else 32;
    var extra := if len <= 33 then 0 else len - 33;
    MarkedMatchReads(e, ip, marker, extra, off - 1, s, 31);
    NearReads(e, len - 2, ip + |CopyCode(M3, mode, off, len, s)| - 2, off, s);
  }

  lemma M4CodeReads(e: Env, mode: Mode, ip: nat, off: nat, len: nat, s: nat)
    requires M4.Carries(mode, off, len) && s < 4 && Here(e, ip, CopyCode(M4, mode, off, len, s)) && len < e.word
    ensures (var p := ip + |CopyCode(M4, mode, off, len, s)|;
             && e.input[ip] >= 16 && e.input[p - 2] % 4 == s
             && ReadHeader(e, e.input[ip], ip + 1) == Match(off, len, p))
  {
    hide MarkedMatch, Marked, Here, ScanLength, FarHeader;
    var d := off - 16384;
    var h := d / 16384;
    assert h <= 1;
    MarkedIs(16 + 8 * h, 9, d, len, s);
    var marker := 16 + 8 * h + if len <= 9 then len - 2 else 0;
    var extra := if len <= 9 then 0 else len - 9;
    assert marker / 8 % 2 == h && marker % 8 == if len <= 9 then len - 2 else 0;
    MarkedMatchReads(e, ip, marker, extra, d, s, 7);
    FarReads(e, marker, len - 2, ip + |CopyCode(M4, mode, off, len, s)| - 2, off, s);
  }

  lemma InstructionCopies(e: Env, t: byte, ip: nat, out: seq<byte>, off: nat, len: nat, p: nat)
    requires t >= 16 && ip >= 1 && off >= 1 && p >= 2 && ReadHeader(e, t, ip) == Match(off, len, p)
    ensures MatchInstruction(e, t, ip, out) == CopyMatch(e, off, len, p, out)
  {
    hide ReadHeader, CopyMatch;
  }

  /** Every code of a match, wherever it may stand, reads as its distance, its length and its literals. */
  lemma CopyReads(e: Env, mode: Mode, ip: nat, out: seq<byte>, form: Form, off: nat, len: nat, s: nat)
    requires form.Carries(mode, off, len) && s < 4 && len < e.word
    requires Here(e, ip, CopyCode(form, mode, off, len, s))
    ensures (var p := ip + |CopyCode(form, mode, off, len, s)|;
             && e.input[p - 2] % 4 == s
             && Step(e, State(mode, ip, out)) == CopyMatch(e, off, len, p, out))
  {
    hide Step, CopyMatch, MatchInstruction, ReadHeader, Here;
    var p := ip + |CopyCode(form, mode, off, len, s)|;
    HereFits(e, ip, CopyCode(form, mode, off, len, s));
    match form {
      case Two => ShortReads(e, mode, ip, out, form, off, len, s);
      case Three => ShortReads(e, mode, ip, out, form, off, len, s);
      case M2 => M2CodeReads(e, mode, ip, off, len, s);
      case M3 => M3CodeReads(e, mode, ip, off, len, s);
      case M4 => M4CodeReads(e, mode, ip, off, len, s);
    }
    if !form.Two? && !form.Three? {
      StepAtMatch(e, mode, ip, out);
      InstructionCopies(e, e.input[ip], ip + 1, out, off, len, p);
    }
  }

  /** Where a length ends, whether or not its sum is a word. */
  lemma {:induction false} ScanEnds(e: Env, ip: nat, n: nat, t: nat)
    requires n >= 1 && Here(e, ip, Extension(n))
    ensures ScanLength(e, ip, t).Scan? && ScanLength(e, ip, t).ip == ip + |Extension(n)|
    decreases n
  {
    HereAt(e, ip, Extension(n), 0);
    ScanTurn(e, ip, t);
    hide ScanLength;
    if n > 255 {
      HereSplit(e, ip, [0], Extension(n - 255));
      ScanEnds(e, ip + 1, n - 255, (t + 255) % e.word);
    }
  }

  lemma EofReads(e: Env, t: byte, ip: nat, p: nat)
    requires 16 <= t < 24 && p + 2 <= |e.input| && e.input[p] < 4 && e.input[p + 1] == 0
    requires if t == 16 then ScanLength(e, ip, 7).Scan? && ScanLength(e, ip, 7).ip == p else p == ip
    ensures ReadHeader(e, t, ip) == Eof(p + 2)
  {
    hide ScanLength, MatchCount;
  }

  lemma EndShape(len: nat, s: nat)
    requires 3 <= len && s < 4
    ensures (var c := EndCode(len, s);
             && c[0] == (if len <= 9 then 14 + len else 16) && c[|c| - 2] == s && c[|c| - 1] == 0
             && (len <= 9 ==> |c| == 3) && (len > 9 ==> c == [16] + LengthBytes(len - 9) + [s, 0]))
  {
  }

  lemma EndLength(e: Env, ip: nat, n: nat, s: nat)
    requires n >= 1 && s < 4 && Here(e, ip, [16] + LengthBytes(n) + [s, 0])
    ensures ScanLength(e, ip + 1, 7).Scan? && ScanLength(e, ip + 1, 7).ip == ip + 1 + |LengthBytes(n)|
  {
    hide ScanLength, LengthBytes, Extension, Here;
    LengthIsExtension(n);
    HereSplit(e, ip, [16] + LengthBytes(n), [s, 0]);
    HereSplit(e, ip, [16], LengthBytes(n));
    ScanEnds(e, ip + 1, n, 7);
  }

  lemma EndBytes(e: Env, ip: nat, len: nat, s: nat)
    requires 3 <= len && s < 4 && Here(e, ip, EndCode(len, s))
    ensures (var p := ip + |EndCode(len, s)| - 2;
             && ip < p <= |e.input| - 2 && e.input[p] == s && e.input[p + 1] == 0
             && e.input[ip] == (if len <= 9 then 14 + len else 16)
             && (len <= 9 ==> p == ip + 1)
             && (len > 9 ==> ScanLength(e, ip + 1, 7).Scan? && ScanLength(e, ip + 1, 7).ip == p))
  {
    hide ScanLength, EndCode, Here, LengthBytes;
    var c := EndCode(len, s);
    EndShape(len, s);
    HereFits(e, ip, c);
    HereAt(e, ip, c, 0);
    HereAt(e, ip, c, |c| - 2);
    HereAt(e, ip, c, |c| - 1);
    if len > 9 {
      EndLength(e, ip, len - 9, s);
    }
  }

  /** The end mark ends the run, successfully if nothing follows. */
  lemma EndReads(e: Env, mode: Mode, ip: nat, out: seq<byte>, len: nat, s: nat)
    requires 3 <= len && s < 4 && Here(e, ip, EndCode(len, s))
    ensures Step(e, State(mode, ip, out))
         == Done(if ip + |EndCode(len, s)| == |e.input| then Ok else InputNotConsumed, out)
  {
    hide Step, ScanLength, ReadHeader, EndCode, Here;
    EndBytes(e, ip, len, s);
    StepAtMatch(e, mode, ip, out);
    EofReads(e, e.input[ip], ip + 1, ip + |EndCode(len, s)| - 2);
  }

  /** A headed run of literals reads as its count. */
  lemma RunReads(e: Env, ip: nat, out: seq<byte>, n: nat)
    requires 4 <= n < e.word && Here(e, ip, RunCode(n))
    ensures ip < |e.input| && e.input[ip] < 16
    ensures Step(e, State(Outer, ip, out)) == LiteralRun(e, n, ip + |RunCode(n)|, out)
  {
    hide Step, ScanLength, LiteralRun, RunHeader, RunCode;
    assert RunCode(n) == RunHeader(n) by {
      RunCodeIs(n);
    }
    HereFits(e, ip, RunCode(n));
    HeaderByte(e, ip, n);
    RunHeaderReads(e, ip, n);
    StepAtRun(e, ip, out, n, ip + |RunCode(n)|);
  }

  lemma RunCodeIs(n: nat)
    requires n >= 4
    ensures RunCode(n) == RunHeader(n)
  {
    if n > 18 {
      LengthIsExtension(n - 18);
    }
  }

  // --------------------------------------------------------- what a code does

  /** The checked build, with lengths that are words. */
  ghost predicate Ready(e: Env, out: seq<byte>) {
    e.checks && e.Addressable() && |out| <= e.cap
  }

  /** Up to three literals at `p`: room for them comes first, then one byte more than they are. */
  ghost predicate LiteralsDone(e: Env, s: nat, p: nat, out: seq<byte>, r: Outcome) {
    if s == 0 then r == Next(State(Outer, p, out))
    else if e.cap < |out| + s then r == Done(OutputOverrun, out)
    else if |e.input| < p + s + 1 then r == Done(InputOverrun, out)
    else r == Next(State(AfterShort, p + s, out + e.input[p..p + s]))
  }

  /** A match: bytes to look back at come first, then room, then its literals. */
  ghost predicate CopyDone(e: Env, off: nat, len: nat, s: nat, p: nat, out: seq<byte>, r: Outcome)
    requires off >= 1
  {
    if |out| < off then r == Done(LookbehindOverrun, out)
    else if e.cap < |out| + len then r == Done(OutputOverrun, out)
    else LiteralsDone(e, s, p, CopyBack(out, off, len), r)
  }

  /** A run of literals. */
  ghost predicate RunDone(e: Env, n: nat, p: nat, out: seq<byte>, r: Outcome) {
    if e.cap < |out| + n then r == Done(OutputOverrun, out)
    else if |e.input| < p + n + 1 then r == Done(InputOverrun, out)
    else r == Next(State(AfterRun, p + n, out + e.input[p..p + n]))
  }

  lemma LiteralsEffect(e: Env, s: nat, p: nat, out: seq<byte>)
    requires Ready(e, out) && s < 4 && p <= |e.input|
    ensures LiteralsDone(e, s, p, out, ShortLiterals(e, s, p, out))
  {
    TestsPlain(e, p, out, s);
    TestsPlain(e, p, out, s + 1);
    hide Env.InputShort, Env.OutputShort;
  }

  lemma RunEffect(e: Env, n: nat, p: nat, out: seq<byte>)
    requires Ready(e, out) && 1 <= n && n + 1 < e.word && p <= |e.input|
    ensures RunDone(e, n, p, out, LiteralRun(e, n, p, out))
  {
    TestsPlain(e, p, out, n);
    TestsPlain(e, p, out, n + 1);
    hide Env.InputShort, Env.OutputShort;
  }

  lemma CopyEffect(e: Env, off: nat, len: nat, p: nat, out: seq<byte>)
    requires Ready(e, out) && off >= 1 && len < e.word && 2 <= p <= |e.input|
    ensures CopyDone(e, off, len, e.input[p - 2] % 4, p, out, CopyMatch(e, off, len, p, out))
  {
    TestsPlain(e, p, out, len);
    hide Env.InputShort, Env.OutputShort, ShortLiterals, LiteralsDone;
    if off <= |out| && |out| + len <= e.cap {
      LiteralsEffect(e, e.input[p - 2] % 4, p, CopyBack(out, off, len));
    }
  }

  /** The code of a match in any form does what the distance, the length and the literal count say. */
  lemma CopyDoes(e: Env, mode: Mode, ip: nat, out: seq<byte>, form: Form, off: nat, len: nat, s: nat)
    requires Ready(e, out) && form.Carries(mode, off, len) && s < 4 && len < e.word
    requires Here(e, ip, CopyCode(form, mode, off, len, s))
    ensures CopyDone(e, off, len, s, ip + |CopyCode(form, mode, off, len, s)|, out, Step(e, State(mode, ip, out)))
  {
    hide Step, CopyMatch, CopyCode, CopyDone;
    CopyReads(e, mode, ip, out, form, off, len, s);
    HereFits(e, ip, CopyCode(form, mode, off, len, s));
    CopyEffect(e, off, len, ip + |CopyCode(form, mode, off, len, s)|, out);
  }

  /** The code of a literal run does what its count says. */
  lemma RunDoes(e: Env, ip: nat, out: seq<byte>, n: nat)
    requires Ready(e, out) && 4 <= n && n + 1 < e.word && Here(e, ip, RunCode(n))
    ensures RunDone(e, n, ip + |RunCode(n)|, out, Step(e, State(Outer, ip, out)))
  {
    hide Step, LiteralRun, RunCode, RunDone;
    RunReads(e, ip, out, n);
    HereFits(e, ip, RunCode(n));
    RunEffect(e, n, ip + |RunCode(n)|, out);
  }

  /** The first byte: from 18 on it is followed by so many literals less 17; up to 17 nothing is read yet. */
  lemma FirstDoes(e: Env)
    requires Ready(e, []) && |e.input| > 0
    ensures e.input[0] <= 17 ==> Begin(e) == Next(State(Outer, 0, []))
    ensures 18 <= e.input[0] <= 20 ==> LiteralsDone(e, e.input[0] - 17, 1, [], Begin(e))
    ensures 21 <= e.input[0] ==> RunDone(e, e.input[0] - 17, 1, [], Begin(e))
  {
    hide ShortLiterals, LiteralRun, LiteralsDone, RunDone;
    var c := e.input[0];
    if 18 <= c <= 20 {
      LiteralsEffect(e, c - 17, 1, []);
    } else if 21 <= c {
      RunEffect(e, c - 17, 1, []);
    }
  }

  /** The input ends where an instruction should stand. */
  lemma EndMissing(e: Env, mode: Mode, ip: nat, out: seq<byte>)
    requires e.checks
    ensures mode == Outer && ip >= |e.input| ==> Step(e, State(mode, ip, out)) == Done(EofNotFound, out)
    ensures mode == AfterShort && ip + 1 >= |e.input| ==> Step(e, State(mode, ip, out)) == Done(EofNotFound, out)
  {
  }

  /** The input ends inside a length: behind the marker of a run or a match there are only zeros. */
  lemma LengthCut(e: Env, mode: Mode, ip: nat, out: seq<byte>)
    requires e.checks && ip + 1 < |e.input|
    requires e.input[ip] == 32 || e.input[ip] == 16 || e.input[ip] == 24 || (mode == Outer && e.input[ip] == 0)
    requires forall k :: ip < k < |e.input| ==> e.input[k] == 0
    ensures Step(e, State(mode, ip, out)) == Done(InputOverrun, out)
  {
    var t := e.input[ip];
    ScanCut(e, ip + 1, if t == 0 then 15 else if t == 32 then 31 else 7);
    hide ScanLength, CopyMatch, LiteralRun, MatchCount;
  }

  lemma {:induction false} ScanCut(e: Env, ip: nat, t: nat)
    requires e.checks && ip <= |e.input| && forall k :: ip <= k < |e.input| ==> e.input[k] == 0
    ensures ScanLength(e, ip, t) == ScanShort
    decreases |e.input| - ip
  {
    if ip < |e.input| {
      ScanCut(e, ip + 1, (t + 255) % e.word);
    }
  }

  // -------------------------------------------------------- a program is replayed

  /** An instruction with its literals is done, or there is no room for what it appends. */
  ghost predicate OpDone(e: Env, op: Op, p: nat, out: seq<byte>, r: Outcome)
    requires op.Possible(out)
  {
    if |op.Apply(out)| <= e.cap then r == Next(State(op.After(), p, op.Apply(out)))
    else r.Done? && r.status == OutputOverrun
  }

  lemma HereIs(e: Env, p: nat, lits: seq<byte>)
    requires Here(e, p, lits)
    ensures e.input[p..p + |lits|] == lits
  {
  }

  lemma CopyOpStep(e: Env, mode: Mode, ip: nat, out: seq<byte>, op: Op)
    requires Ready(e, out) && op.Copy? && op.Fits(mode) && op.Possible(out) && op.len < e.word
    requires Here(e, ip, op.Code(mode)) && Here(e, ip + |op.Code(mode)|, op.lits)
    requires ip + |op.Bytes(mode)| < |e.input|
    ensures OpDone(e, op, ip + |op.Bytes(mode)|, out, Step(e, State(mode, ip, out)))
  {
    hide Step, CopyCode;
    HereIs(e, ip + |op.Code(mode)|, op.lits);
    CopyDoes(e, mode, ip, out, op.form, op.off, op.len, |op.lits|);
    hide Here, Form.Carries;
    var o := CopyBack(out, op.off, op.len);
    assert op.lits == [] ==> o + op.lits == o;
  }

  lemma OpStep(e: Env, mode: Mode, ip: nat, out: seq<byte>, op: Op)
    requires Ready(e, out) && op.Fits(mode) && op.Possible(out) && |op.Apply(out)| < e.word
    requires Here(e, ip, op.Bytes(mode)) && ip + |op.Bytes(mode)| < |e.input|
    ensures OpDone(e, op, ip + |op.Bytes(mode)|, out, Step(e, State(mode, ip, out)))
  {
    hide Step, CopyCode, RunCode, CopyBack, Form.Carries, Here;
    HereSplit(e, ip, op.Code(mode), op.lits);
    if op.Copy? {
      assert |op.Apply(out)| == |out| + op.len + |op.lits|;
      CopyOpStep(e, mode, ip, out, op);
    } else {
      RunOpStep(e, mode, ip, out, op);
    }
  }

  lemma RunOpStep(e: Env, mode: Mode, ip: nat, out: seq<byte>, op: Op)
    requires Ready(e, out) && op.Run? && op.Fits(mode) && |out + op.lits| < e.word
    requires Here(e, ip, op.Code(mode)) && Here(e, ip + |op.Code(mode)|, op.lits)
    requires ip + |op.Bytes(mode)| < |e.input|
    ensures OpDone(e, op, ip + |op.Bytes(mode)|, out, Step(e, State(mode, ip, out)))
  {
    hide Step, RunCode, Here;
    HereIs(e, ip + |op.Code(mode)|, op.lits);
    RunDoes(e, ip, out, |op.lits|);
  }

  /** How a run ends: with the output if it has room, otherwise for lack of room. */
  ghost predicate EndsWith(e: Env, f: Outcome, x: seq<byte>) {
    if |x| <= e.cap then f == Done(Ok, x) else f.Done? && f.status == OutputOverrun
  }

  lemma {:induction false} OpsReplay(e: Env, mode: Mode, ip: nat, out: seq<byte>, ops: seq<Op>, len: nat, s: nat)
    requires Ready(e, out) && LegalFrom(mode, out, ops) && 3 <= len && s < 4
    requires |MeaningFrom(mode, out, ops)| < e.word
    requires Here(e, ip, CodeFrom(mode, out, ops) + EndCode(len, s))
    requires ip + |CodeFrom(mode, out, ops) + EndCode(len, s)| == |e.input|
    ensures EndsWith(e, Finish(e, Next(State(mode, ip, out))), MeaningFrom(mode, out, ops))
    decreases |ops|
  {
    hide Step, EndCode, Op.Bytes, Here, Op.Apply, Op.After, Op.Fits, Op.Possible;
    if ops == [] {
      assert CodeFrom(mode, out, ops) + EndCode(len, s) == EndCode(len, s);
      EndReads(e, mode, ip, out, len, s);
      assert Finish(e, Done(Ok, out)) == Done(Ok, out);
    } else {
      var op := ops[0];
      var code, rest := op.Bytes(mode), CodeFrom(op.After(), op.Apply(out), ops[1..]) + EndCode(len, s);
      assert CodeFrom(mode, out, ops) + EndCode(len, s) == code + rest;
      HereSplit(e, ip, code, rest);
      OpStep(e, mode, ip, out, op);
      var r := Step(e, State(mode, ip, out));
      if r.Next? {
        OpsReplay(e, op.After(), ip + |code|, op.Apply(out), ops[1..], len, s);
      } else {
        assert Finish(e, r) == r;
      }
    }
  }

  /** Decoding a program's bytes gives its meaning, or ends for lack of room. */
  lemma ProgramDecodes(e: Env, p: Program)
    requires e.checks && e.Addressable() && p.Legal() && e.input == p.Bytes() && |p.Meaning()| < e.word
    ensures EndsWith(e, Decode(e), p.Meaning())
  {
    hide Step, EndCode, Begin, CodeFrom, LegalFrom, MeaningFrom;
    var rest := CodeFrom(p.Start(), p.first, p.ops) + EndCode(p.len, p.s);
    assert e.input == p.Lead() + rest;
    FirstDoes(e);
    assert Here(e, 0, p.Lead() + rest);
    HereSplit(e, 0, p.Lead(), rest);
    hide Here;
    ProgramBegins(e, p);
    if Begin(e).Next? {
      OpsReplay(e, p.Start(), |p.Lead()|, p.first, p.ops, p.len, p.s);
    }
  }

  lemma ProgramBegins(e: Env, p: Program)
    requires e.checks && e.Addressable() && p.Legal() && e.input == p.Bytes() && |p.Meaning()| < e.word
    ensures if |p.first| <= e.cap then Begin(e) == Next(State(p.Start(), |p.Lead()|, p.first))
            else Begin(e).Done? && Begin(e).status == OutputOverrun
  {
    hide Begin, Program.Bytes, Program.Meaning;
    if p.first == [] {
      LowFirst(e, p);
      FirstDoes(e);
    } else {
      HighFirst(e, p);
      FirstDoes(e);
      assert [] + p.first == p.first;
    }
  }

  lemma HighFirst(e: Env, p: Program)
    requires p.Legal() && p.first != [] && e.input == p.Bytes()
    ensures |e.input| > 1 + |p.first| && e.input[0] == 17 + |p.first| && e.input[1..1 + |p.first|] == p.first
  {
    hide EndCode, CodeFrom, LegalFrom;
    var code, end := CodeFrom(p.Start(), p.first, p.ops), EndCode(p.len, p.s);
    FourParts([17 + |p.first|], p.first, code, end);
  }

  lemma FourParts(a: seq<byte>, b: seq<byte>, c: seq<byte>, d: seq<byte>)
    requires |a| == 1 && |d| >= 3
    ensures (var s := a + b + c + d; |s| > 1 + |b| && s[0] == a[0] && s[1..1 + |b|] == b)
  {
  }

  lemma LowFirst(e: Env, p: Program)
    requires p.Legal() && p.first == [] && e.input == p.Bytes()
    ensures |e.input| > 0 && e.input[0] <= 17
  {
    if p.ops == [] {
      assert p.Bytes() == EndCode(p.len, p.s);
    } else {
      assert p.ops[0].Run?;
    }
  }

  // ------------------------------------------------------- what is decoded is a program

  lemma LengthBytesOf(zeros: nat, last: nat)
    requires 1 <= last <= 255
    ensures LengthBytes(255 * zeros + last) == Zeros(zeros) + [last]
  {
    DivModUnique(255 * zeros + last - 1, 255, zeros, last - 1);
  }

  /** Zeros that were passed, and the byte behind them. */
  lemma LengthHere(e: Env, ip: nat, t: nat)
    requires ScanLength(e, ip, t).Scan? && ScanLength(e, ip, t).ip <= |e.input|
    ensures (var p := ScanLength(e, ip, t).ip;
             var n := 255 * (p - ip - 1) + e.input[p - 1];
             n >= 1 && |LengthBytes(n)| == p - ip && Here(e, ip, LengthBytes(n)))
  {
    ScanMeans(e, ip, t);
    var p := ScanLength(e, ip, t).ip;
    hide ScanLength, Extended;
    LengthBytesOf(p - ip - 1, e.input[p - 1]);
    hide LengthBytes;
    var s := e.input[ip..p];
    forall k | 0 <= k < p - ip - 1 ensures s[k] == 0 {
      assert e.Get(ip + k) == 0;
    }
    assert s == Zeros(p - ip - 1) + [e.input[p - 1]];
  }

  lemma HereJoin(e: Env, ip: nat, a: seq<byte>, b: seq<byte>)
    requires Here(e, ip, a) && Here(e, ip + |a|, b)
    ensures Here(e, ip, a + b)
  {
    assert e.input[ip..ip + |a| + |b|] == e.input[ip..ip + |a|] + e.input[ip + |a|..ip + |a| + |b|];
  }

  /** A marker's length: in its low bits, or behind it. */
  function MarkerScan(e: Env, ip: nat, base: nat, max: nat): Scan
    requires ip < |e.input| && base <= e.input[ip] && max >= 2
  {
    if e.input[ip] == base then ScanLength(e, ip + 1, max - 2) else Scan(e.input[ip] - base, ip + 1)
  }

  lemma LongFound(e: Env, ip: nat, base: nat, max: nat, tail: seq<byte>) returns (n: nat)
    requires ip < |e.input| && base == e.input[ip] && 3 <= max
    requires ScanLength(e, ip + 1, max - 2).Scan? && ScanLength(e, ip + 1, max - 2).ip <= |e.input|
    requires Here(e, ScanLength(e, ip + 1, max - 2).ip, tail)
    ensures n >= 1 && Here(e, ip, [base] + LengthBytes(n) + tail)
    ensures ip + 1 + |LengthBytes(n)| == ScanLength(e, ip + 1, max - 2).ip
    ensures max + n < e.word ==> ScanLength(e, ip + 1, max - 2).t + 2 == max + n
    ensures n <= 255 * (ScanLength(e, ip + 1, max - 2).ip - ip - 1)
  {
    hide ScanLength, LengthBytes, Here;
    var r := ScanLength(e, ip + 1, max - 2);
    LengthHere(e, ip + 1, max - 2);
    ScanFits(e, ip + 1, max - 2);
    n := 255 * (r.ip - ip - 2) + e.input[r.ip - 1];
    ByteHere(e, ip);
    HereJoin(e, ip, [base], LengthBytes(n));
    HereJoin(e, ip, [base] + LengthBytes(n), tail);
  }

  lemma ByteHere(e: Env, ip: nat)
    requires ip < |e.input|
    ensures Here(e, ip, [e.input[ip]])
    ensures ip + 1 < |e.input| ==> Here(e, ip, [e.input[ip], e.input[ip + 1]])
  {
  }

  /** A marker, a length and two bytes that have been read are the code of that length and distance. */
  lemma MarkedFound(e: Env, ip: nat, base: nat, max: nat, d: nat, s: nat) returns (len: nat)
    requires ip < |e.input| && base <= e.input[ip] <= base + max - 2 && base + max - 2 < 256 && 3 <= max && s < 4
    requires MarkerScan(e, ip, base, max).Scan? && MarkerScan(e, ip, base, max).ip + 2 <= |e.input|
    requires (var p := MarkerScan(e, ip, base, max).ip;
              e.input[p] == 4 * (d % 64) + s && e.input[p + 1] == d / 64 % 256)
    ensures 3 <= len && Here(e, ip, Marked(base, max, d, len, s))
    ensures |Marked(base, max, d, len, s)| == MarkerScan(e, ip, base, max).ip + 2 - ip
    ensures len < e.word ==> MarkerScan(e, ip, base, max).t + 2 == len
    ensures len <= max + 255 * (MarkerScan(e, ip, base, max).ip - ip - 1)
  {
    hide ScanLength, LengthBytes, Here;
    var r := MarkerScan(e, ip, base, max);
    var tail := [4 * (d % 64) + s, d / 64 % 256];
    ByteHere(e, r.ip);
    if e.input[ip] == base {
      var n := LongFound(e, ip, base, max, tail);
      len := max + n;
    } else {
      len := e.input[ip] - base + 2;
      ByteHere(e, ip);
      HereJoin(e, ip, [e.input[ip]], tail);
    }
  }

  /** Behind at least two bytes, and with two bytes behind it, a length is a word. */
  lemma LengthIsWord(n: nat, ip: nat, p: nat, len: nat, word: Word)
    requires 2 <= ip < p && p + 2 <= n < MatchLimit(word) && len <= 33 + 255 * (p - ip - 1)
    ensures len < word
  {
    var l := MatchLimit(word);
    assert 255 * (l - 4) <= word - 34;
    assert 255 * (p - ip - 1) <= 255 * (l - 6);
    hide MatchLimit;
  }

  lemma NearScan(e: Env, ip: nat)
    requires ip < |e.input| && 32 <= e.input[ip] < 64
    ensures ReadHeader(e, e.input[ip], ip + 1) == NearHeader(e, MarkerScan(e, ip, 32, 33))
  {
    hide NearHeader, ScanLength;
  }

  lemma NearFound(e: Env, mode: Mode, ip: nat) returns (off: nat, len: nat, s: nat)
    requires e.checks && 2 <= ip < |e.input| < MatchLimit(e.word) && 32 <= e.input[ip] < 64
    requires (var h := ReadHeader(e, e.input[ip], ip + 1); h.Match? && h.ip <= |e.input|)
    ensures M3.Carries(mode, off, len) && s < 4 && len < e.word && Here(e, ip, CopyCode(M3, mode, off, len, s))
  {
    hide ScanLength, MarkerScan, ReadHeader, Marked, MatchCount, MatchLimit, Here;
    var r := MarkerScan(e, ip, 32, 33);
    NearScan(e, ip);
    var b: int, c: int := e.input[r.ip], e.input[r.ip + 1];
    var d := b / 4 + 64 * c;
    off, s := 1 + d, b % 4;
    FieldsBack(b, c, 0);
    len := MarkedFound(e, ip, 32, 33, d, s);
    LengthIsWord(|e.input|, ip, r.ip, len, e.word);
  }

  /** The bytes of a distance are the bytes that it was read from. */
  lemma FieldsBack(b: byte, c: byte, h: nat)
    requires h <= 1
    ensures (var d := 16384 * h + b / 4 + 64 * c;
             d < 32768 && d / 16384 == h && 4 * (d % 64) + b % 4 == b && d / 64 % 256 == c)
  {
    var d := 16384 * h + b / 4 + 64 * c;
    assert d / 64 == 256 * h + c && d % 64 == b / 4;
  }

  lemma FarScan(e: Env, ip: nat) returns (h: nat)
    requires ip < |e.input| && 16 <= e.input[ip] < 32
    ensures h <= 1 && h == e.input[ip] / 8 % 2 && 16 + 8 * h <= e.input[ip] <= 23 + 8 * h
    ensures ReadHeader(e, e.input[ip], ip + 1) == FarHeader(e, e.input[ip], MarkerScan(e, ip, 16 + 8 * h, 9))
  {
    hide FarHeader, ScanLength;
    h := e.input[ip] / 8 % 2;
  }

  /** What a far marker, its length and two bytes are. */
  lemma FarBytes(e: Env, ip: nat) returns (h: nat, d: nat, len: nat, s: nat, p: nat)
    requires e.checks && ip < |e.input| && 16 <= e.input[ip] < 32
    requires (var hd := ReadHeader(e, e.input[ip], ip + 1); (hd.Match? || hd.Eof?) && hd.ip <= |e.input|)
    ensures h <= 1 && d < 32768 && d / 16384 == h && s < 4 && 3 <= len && ip < p && p + 2 <= |e.input|
    ensures ReadHeader(e, e.input[ip], ip + 1).Eof? <==> d == 0
    ensures ReadHeader(e, e.input[ip], ip + 1).ip == p + 2 == ip + |Marked(16 + 8 * h, 9, d, len, s)|
    ensures Here(e, ip, Marked(16 + 8 * h, 9, d, len, s)) && len <= 33 + 255 * (p - ip - 1)
  {
    hide ScanLength, MarkerScan, ReadHeader, Marked, MatchCount, Here;
    h := FarScan(e, ip);
    var r := MarkerScan(e, ip, 16 + 8 * h, 9);
    p := r.ip;
    var b: int, c: int := e.input[p], e.input[p + 1];
    d, s := 16384 * h + b / 4 + 64 * c, b % 4;
    FieldsBack(b, c, h);
    len := MarkedFound(e, ip, 16 + 8 * h, 9, d, s);
  }

  lemma FarFound(e: Env, mode: Mode, ip: nat) returns (off: nat, len: nat, s: nat)
    requires e.checks && 2 <= ip < |e.input| < MatchLimit(e.word) && 16 <= e.input[ip] < 32
    requires (var h := ReadHeader(e, e.input[ip], ip + 1); h.Match? && h.ip <= |e.input|)
    ensures M4.Carries(mode, off, len) && s < 4 && len < e.word && Here(e, ip, CopyCode(M4, mode, off, len, s))
  {
    hide ReadHeader, Marked, MatchLimit;
    var h, d, p;
    h, d, len, s, p := FarBytes(e, ip);
    off := 16384 + d;
    LengthIsWord(|e.input|, ip, p, len, e.word);
  }

  lemma M2Found(e: Env, mode: Mode, ip: nat) returns (off: nat, len: nat, s: nat)
    requires ip + 1 < |e.input| && 64 <= e.input[ip]
    ensures M2.Carries(mode, off, len) && s < 4 && Here(e, ip, CopyCode(M2, mode, off, len, s))
  {
    var t: int, c: int := e.input[ip], e.input[ip + 1];
    off, len, s := 1 + t / 4 % 8 + 8 * c, t / 32 + 1, t % 4;
    assert (off - 1) % 8 == t / 4 % 8 && (off - 1) / 8 == c;
    assert e.input[ip..ip + 2] == [t, c];
  }

  lemma ShortFound(e: Env, mode: Mode, ip: nat) returns (form: Form, off: nat, len: nat, s: nat)
    requires ip + 1 < |e.input| && e.input[ip] < 16 && mode != Outer
    ensures form.Carries(mode, off, len) && len < e.word && s < 4 && Here(e, ip, CopyCode(form, mode, off, len, s))
  {
    var t: int, c: int := e.input[ip], e.input[ip + 1];
    var d := t / 4 + 4 * c;
    form := if mode == AfterRun then Three else Two;
    off, len, s := if mode == AfterRun then 2049 + d else 1 + d, if mode == AfterRun then 3 else 2, t % 4;
    assert d % 4 == t / 4 && d / 4 == c;
    assert e.input[ip..ip + 2] == [t, c];
  }

  lemma CopyContinues(e: Env, off: nat, len: nat, p: nat, out: seq<byte>)
    requires off >= 1 && p >= 2 && e.checks && CopyMatch(e, off, len, p, out).Next?
    ensures off <= |out| && p <= CopyMatch(e, off, len, p, out).st.ip
  {
  }

  /** A step that is not a literal run, and goes on inside the input, has read the code of a match. */
  lemma CopyFound(e: Env, mode: Mode, ip: nat, out: seq<byte>) returns (form: Form, off: nat, len: nat, s: nat)
    requires Guarded(e) && Inside(e, Next(State(mode, ip, out))) && ip < |e.input|
    requires Step(e, State(mode, ip, out)).Next? && Step(e, State(mode, ip, out)).st.ip <= |e.input|
    requires mode != Outer || e.input[ip] >= 16
    ensures form.Carries(mode, off, len) && s < 4 && len < e.word && Here(e, ip, CopyCode(form, mode, off, len, s))
  {
    hide ReadHeader, CopyMatch, CopyCode, CopyBack, MatchLimit, RunLimit, LiteralRun, ScanLength;
    var t := e.input[ip];
    if t >= 16 {
      assert Step(e, State(mode, ip, out)) == MatchInstruction(e, t, ip + 1, out);
      var h := ReadHeader(e, t, ip + 1);
      CopyContinues(e, h.off, h.len, h.ip, out);
      if t >= 64 {
        form := M2;
        off, len, s := M2Found(e, mode, ip);
      } else if t >= 32 {
        form := M3;
        off, len, s := NearFound(e, mode, ip);
      } else {
        form := M4;
        off, len, s := FarFound(e, mode, ip);
      }
    } else {
      form, off, len, s := ShortFound(e, mode, ip);
    }
  }

  /** A step that succeeds has read an end mark with nothing behind it. */
  lemma EndFound(e: Env, mode: Mode, ip: nat, out: seq<byte>, x: seq<byte>) returns (len: nat, s: nat)
    requires e.checks && ip < |e.input| && Step(e, State(mode, ip, out)) == Done(Ok, x)
    ensures x == out && 3 <= len && s < 4 && Here(e, ip, EndCode(len, s)) && ip + |EndCode(len, s)| == |e.input|
  {
    EndMeans(e, mode, ip, out, x);
    hide Step, ReadHeader, Marked;
    var h, d, p;
    h, d, len, s, p := FarBytes(e, ip);
  }

  lemma EndMeans(e: Env, mode: Mode, ip: nat, out: seq<byte>, x: seq<byte>)
    requires e.checks && ip < |e.input| && Step(e, State(mode, ip, out)) == Done(Ok, x)
    ensures 16 <= e.input[ip] < 32 && ReadHeader(e, e.input[ip], ip + 1) == Eof(|e.input|) && x == out
  {
    hide ScanLength, NearHeader, FarHeader, ShortLiterals;
  }

  /** The checked build on an input that is too short for any length to wrap. */
  ghost predicate Exact(e: Env) {
    e.checks && e.Addressable() && |e.input| < Limit(e.word, e.wide)
  }

  lemma ExactGuarded(e: Env)
    requires Exact(e)
    ensures |e.input| < MatchLimit(e.word) && (e.input != [] ==> Guarded(e))
  {
    hide MatchLimit, RunLimit;
    assert RunLimit(e.word) <= MatchLimit(e.word);
  }

  lemma RunLengthIsWord(n: nat, ip: nat, p: nat, k: nat, word: Word)
    requires ip < p && p + 3 <= n < MatchLimit(word) && k <= 18 + 255 * (p - ip - 1)
    ensures k + 1 < word
  {
    var l := MatchLimit(word);
    assert 255 * (l - 4) <= word - 34;
    assert 255 * (p - ip - 1) <= 255 * (l - 5);
    hide MatchLimit;
  }

  lemma RunContinues(e: Env, ip: nat, out: seq<byte>)
    requires e.checks && ip < |e.input| && e.input[ip] == 0 && Step(e, State(Outer, ip, out)).Next?
    ensures ScanLength(e, ip + 1, 15).Scan? && ScanLength(e, ip + 1, 15).ip <= Step(e, State(Outer, ip, out)).st.ip
  {
    hide ScanLength, LiteralRun, RunCount;
  }

  lemma LongRunFound(e: Env, ip: nat) returns (k: nat)
    requires e.checks && ip < |e.input| < MatchLimit(e.word) && e.input[ip] == 0
    requires ScanLength(e, ip + 1, 15).Scan? && ScanLength(e, ip + 1, 15).ip + 3 <= |e.input|
    ensures 1 <= k && k + 19 < e.word && Here(e, ip, [0] + LengthBytes(k))
  {
    hide ScanLength, LengthBytes, MatchLimit, Here;
    LengthHere(e, ip + 1, 15);
    var p := ScanLength(e, ip + 1, 15).ip;
    k := 255 * (p - ip - 2) + e.input[p - 1];
    ByteHere(e, ip);
    HereJoin(e, ip, [0], LengthBytes(k));
    RunLengthIsWord(|e.input|, ip, p, 18 + k, e.word);
  }

  /** A literal run behind which there is still something to read has read the code of its count. */
  lemma RunFound(e: Env, ip: nat, out: seq<byte>) returns (n: nat)
    requires e.checks && ip < |e.input| < MatchLimit(e.word) && e.input[ip] < 16
    requires Step(e, State(Outer, ip, out)).Next? && Step(e, State(Outer, ip, out)).st.ip + 3 <= |e.input|
    ensures 4 <= n && n + 1 < e.word && Here(e, ip, RunCode(n))
  {
    hide Step, LengthBytes, MatchLimit, ScanLength;
    var t := e.input[ip];
    if t > 0 {
      n := t + 3;
      assert e.input[ip..ip + 1] == [t];
    } else {
      RunContinues(e, ip, out);
      var k := LongRunFound(e, ip);
      n := 18 + k;
    }
  }

  /** No run succeeds with fewer than three bytes left. */
  lemma {:induction false} ThreeBytesLeft(e: Env, r: Outcome, x: seq<byte>)
    requires e.checks && r.Next? && Finish(e, r) == Done(Ok, x)
    ensures r.st.ip + 3 <= |e.input|
    decreases if r.st.ip < |e.input| then |e.input| - r.st.ip else 0, r.st.mode == AfterRun
  {
    hide Step, EndCode;
    var p := Step(e, r.st);
    if r.st.ip >= |e.input| {
      PastEndDoomed(e, r.st);
      DoomedFails(e, p);
      assert false;
    } else if p.Next? {
      ThreeBytesLeft(e, p, x);
    } else {
      var len, s := EndFound(e, r.st.mode, r.st.ip, r.st.out, x);
    }
  }

  /** A step that goes on has done an instruction of the format. */
  lemma OpFound(e: Env, st: State) returns (op: Op)
    requires Exact(e) && e.input != [] && Inside(e, Next(st)) && st.ip + 3 <= |e.input|
    requires Step(e, st).Next? && Step(e, st).st.ip + 3 <= |e.input|
    ensures op.Fits(st.mode) && op.Possible(st.out) && Here(e, st.ip, op.Bytes(st.mode))
    ensures Step(e, st) == Next(State(op.After(), st.ip + |op.Bytes(st.mode)|, op.Apply(st.out)))
  {
    hide Step, CopyCode, RunCode, Limit, MatchLimit, RunLimit, Inside, Here;
    ExactGuarded(e);
    InsideReady(e, st);
    var mode, ip, out := st.mode, st.ip, st.out;
    if mode == Outer && e.input[ip] < 16 {
      var n := RunFound(e, ip, out);
      RunDoes(e, ip, out, n);
      op := Run(e.input[ip + |RunCode(n)|..ip + |RunCode(n)| + n]);
      SliceHere(e, ip, RunCode(n), n);
    } else {
      var form, off, len, s := CopyFound(e, mode, ip, out);
      CopyDoes(e, mode, ip, out, form, off, len, s);
      op := CopyOp(e, mode, ip, out, form, off, len, s);
    }
  }

  lemma InsideReady(e: Env, st: State)
    requires e.checks && e.Addressable() && Inside(e, Next(st))
    ensures Ready(e, st.out)
  {
  }

  lemma SliceHere(e: Env, ip: nat, c: seq<byte>, n: nat)
    requires Here(e, ip, c) && ip + |c| + n <= |e.input|
    ensures Here(e, ip, c + e.input[ip + |c|..ip + |c| + n])
  {
    HereJoin(e, ip, c, e.input[ip + |c|..ip + |c| + n]);
  }

  lemma CopyOp(e: Env, mode: Mode, ip: nat, out: seq<byte>, form: Form, off: nat, len: nat, s: nat) returns (op: Op)
    requires form.Carries(mode, off, len) && s < 4 && Here(e, ip, CopyCode(form, mode, off, len, s))
    requires (var r := Step(e, State(mode, ip, out));
              && r.Next? && r.st.ip <= |e.input|
              && CopyDone(e, off, len, s, ip + |CopyCode(form, mode, off, len, s)|, out, r))
    ensures op.Fits(mode) && op.Possible(out) && Here(e, ip, op.Bytes(mode))
    ensures Step(e, State(mode, ip, out)) == Next(State(op.After(), ip + |op.Bytes(mode)|, op.Apply(out)))
  {
    hide Step, CopyCode, CopyBack, Here;
    var c := CopyCode(form, mode, off, len, s);
    HereFits(e, ip, c);
    var lits := e.input[ip + |c|..ip + |c| + s];
    op := Copy(form, off, len, lits);
    SliceHere(e, ip, c, s);
    hide Form.Carries;
    assert CopyBack(out, off, len) + [] == CopyBack(out, off, len);
  }

  /** What is decoded with success from a state on are instructions and an end mark. */
  lemma {:induction false} OpsFound(e: Env, st: State, x: seq<byte>) returns (ops: seq<Op>, len: nat, s: nat)
    requires Exact(e) && e.input != [] && Inside(e, Next(st)) && Finish(e, Next(st)) == Done(Ok, x)
    ensures LegalFrom(st.mode, st.out, ops) && 3 <= len && s < 4 && x == MeaningFrom(st.mode, st.out, ops)
    ensures (var c := CodeFrom(st.mode, st.out, ops) + EndCode(len, s);
             Here(e, st.ip, c) && st.ip + |c| == |e.input|)
    decreases |e.input| - st.ip, st.mode == AfterRun
  {
    hide Step, EndCode, Inside, Here, Op.Bytes, Op.Apply, Op.After, Limit;
    ThreeBytesLeft(e, Next(st), x);
    ExactGuarded(e);
    var r := Step(e, st);
    if r.Next? {
      ThreeBytesLeft(e, r, x);
      StepInside(e, st);
      var op := OpFound(e, st);
      ops, len, s := OpsFound(e, r.st, x);
      var rest := CodeFrom(r.st.mode, r.st.out, ops) + EndCode(len, s);
      HereJoin(e, st.ip, op.Bytes(st.mode), rest);
      ops := OpsCons(st.mode, st.out, op, ops);
      assert op.Bytes(st.mode) + rest == CodeFrom(st.mode, st.out, ops) + EndCode(len, s);
    } else {
      len, s := EndFound(e, st.mode, st.ip, st.out, x);
      ops := [];
      assert [] + EndCode(len, s) == EndCode(len, s);
    }
  }

  lemma OpsCons(mode: Mode, out: seq<byte>, op: Op, rest: seq<Op>) returns (ops: seq<Op>)
    requires op.Fits(mode) && op.Possible(out) && LegalFrom(op.After(), op.Apply(out), rest)
    ensures LegalFrom(mode, out, ops)
    ensures CodeFrom(mode, out, ops) == op.Bytes(mode) + CodeFrom(op.After(), op.Apply(out), rest)
    ensures MeaningFrom(mode, out, ops) == MeaningFrom(op.After(), op.Apply(out), rest)
  {
    hide Op.Fits, Op.Apply, Op.After, Op.Bytes, Op.Possible;
    ops := [op] + rest;
    assert ops[1..] == rest;
  }

  /** Where a program begins. */
  ghost predicate Started(e: Env, st: State) {
    && |st.out| <= 238 && st.ip <= |e.input|
    && e.input[..st.ip] == (if st.out == [] then [] else [17 + |st.out|] + st.out)
    && st.mode == (if st.out == [] then Outer else if |st.out| <= 3 then AfterShort else AfterRun)
    && (st.out == [] ==> |e.input| > 0 && e.input[0] <= 17)
  }

  lemma BeginStarted(e: Env)
    requires Ready(e, []) && e.input != [] && Begin(e).Next? && Begin(e).st.ip <= |e.input|
    ensures Started(e, Begin(e).st)
  {
    hide Begin;
    FirstDoes(e);
    var c := e.input[0];
    if c > 17 {
      LeadIs(e.input, c - 17);
      assert [] + e.input[1..1 + (c - 17)] == e.input[1..1 + (c - 17)];
    }
  }

  lemma LeadIs(s: seq<byte>, n: nat)
    requires n + 1 <= |s|
    ensures s[..1 + n] == [s[0]] + s[1..1 + n]
  {
  }

  lemma ProgramOf(e: Env, st: State, ops: seq<Op>, len: nat, s: nat) returns (p: Program)
    requires Started(e, st) && LegalFrom(st.mode, st.out, ops) && 3 <= len && s < 4
    requires (var c := CodeFrom(st.mode, st.out, ops) + EndCode(len, s); Here(e, st.ip, c) && st.ip + |c| == |e.input|)
    ensures p.Legal() && p.Bytes() == e.input && p.Meaning() == MeaningFrom(st.mode, st.out, ops)
  {
    hide EndCode, MeaningFrom, CodeFrom, LegalFrom;
    p := Program(st.out, ops, len, s);
    var c := CodeFrom(st.mode, st.out, ops) + EndCode(len, s);
    assert e.input == e.input[..st.ip] + e.input[st.ip..];
    assert e.input == p.Lead() + c;
    if p.first == [] && p.ops == [] {
      OnlyEnd(st.mode, st.out);
      assert e.input == EndCode(len, s);
      EndFirst(len, s, e);
    }
    assert p.Lead() + c == p.Lead() + CodeFrom(st.mode, st.out, ops) + EndCode(len, s);
  }

  lemma OnlyEnd(mode: Mode, out: seq<byte>)
    ensures CodeFrom(mode, out, []) == []
  {
  }

  /** What is decoded with success is a program's bytes. */
  lemma ProgramFound(e: Env, x: seq<byte>) returns (p: Program)
    requires Exact(e) && Decode(e) == Done(Ok, x)
    ensures p.Legal() && p.Bytes() == e.input && p.Meaning() == x && |x| <= e.cap
  {
    hide Step, EndCode, CodeFrom, MeaningFrom, LegalFrom, Limit, Started, Begin, Inside, Program.Bytes, Here;
    InputThere(e, x);
    ExactGuarded(e);
    BeginInside(e);
    SafeWithinArea(e);
    var r := Begin(e);
    BeginEnds(e);
    ThreeBytesLeft(e, r, x);
    BeginStarted(e);
    var ops, len, s := OpsFound(e, r.st, x);
    p := ProgramOf(e, r.st, ops, len, s);
  }

  lemma BeginEnds(e: Env)
    ensures Begin(e).Done? ==> Begin(e).status != Ok
  {
    hide ShortLiterals;
  }

  lemma EndFirst(len: nat, s: nat, e: Env)
    requires 3 <= len && s < 4 && e.input == EndCode(len, s) && e.input[0] <= 17
    ensures len == 3 || len > 9
  {
  }

  lemma InputThere(e: Env, x: seq<byte>)
    requires e.checks && Decode(e) == Done(Ok, x)
    ensures e.input != []
  {
    hide Step;
    var r := Begin(e);
    if e.input == [] {
      if r.Next? {
        PastEndDoomed(e, r.st);
        DoomedFails(e, Step(e, r.st));
      }
      assert false;
    }
  }

  /** `input` is a program whose meaning is `x`. */
  ghost predicate Spells(input: seq<byte>, x: seq<byte>) {
    exists p: Program :: p.Legal() && p.Bytes() == input && p.Meaning() == x
  }

  /** The checked build accepts exactly the programs whose meaning has room, and returns their meaning. */
  lemma AcceptsExactly(e: Env, x: seq<byte>)
    requires Exact(e)
    ensures Decode(e) == Done(Ok, x) <==> Spells(e.input, x) && |x| <= e.cap
  {
    hide Decode, Program.Legal, Program.Bytes, Program.Meaning, Limit;
    if Decode(e) == Done(Ok, x) {
      var p := ProgramFound(e, x);
    }
    if Spells(e.input, x) && |x| <= e.cap {
      var p: Program :| p.Legal() && p.Bytes() == e.input && p.Meaning() == x;
      ProgramDecodes(e, p);
    }
  }

  // -------------------------------------------------------------- what is written

  /** The form that the compressor chooses. */
  function Chosen(off: nat, len: nat): Form {
    if len <= 8 && off <= 2048 then M2 else if off <= 16384 then M3 else M4
  }

  lemma FarCodeIs(mode: Mode, off: nat, len: nat, s: nat)
    requires 16385 <= off <= 49151 && 4 <= len && s < 4
    ensures MatchCode(off, len, s) == CopyCode(M4, mode, off, len, s)
  {
    hide MarkedMatch, Marked;
    MarkedIs(16 + 8 * ((off - 16384) / 16384), 9, off - 16384, len, s);
  }

  /** A match is written in the chosen form. */
  lemma MatchCodeIs(mode: Mode, off: nat, len: nat, s: nat)
    requires 1 <= off <= 49151 && 4 <= len && s < 4
    ensures Chosen(off, len).Carries(mode, off, len)
    ensures MatchCode(off, len, s) == CopyCode(Chosen(off, len), mode, off, len, s)
  {
    hide MarkedMatch, Marked;
    if off <= 16384 {
      MarkedIs(32, 33, off - 1, len, s);
    } else {
      FarCodeIs(mode, off, len, s);
    }
  }

  lemma MarkedSize(marker: byte, max: nat, d: nat, len: nat, s: nat)
    requires s < 4 && 3 <= len && max >= 3 && marker + max - 2 < 256
    ensures |Marked(marker, max, d, len, s)| == 3 + if len <= max then 0 else 1 + (len - max - 1) / 255
  {
  }

  /** No form that can carry a match is shorter than the chosen one. */
  lemma ChosenIsShortest(mode: Mode, off: nat, len: nat, s: nat, form: Form)
    requires 1 <= off <= 49151 && 4 <= len && s < 4 && form.Carries(mode, off, len)
    ensures Chosen(off, len).Carries(mode, off, len)
    ensures |CopyCode(Chosen(off, len), mode, off, len, s)| <= |CopyCode(form, mode, off, len, s)|
  {
    if off <= 16384 {
      MarkedSize(32, 33, off - 1, len, s);
    } else {
      MarkedSize(16 + 8 * ((off - 16384) / 16384), 9, off - 16384, len, s);
    }
    hide Marked;
  }

  /** A run of literals is written as it is, behind its count if there are more than three. */
  lemma LiteralsAre(run: seq<byte>)
    ensures Literals(run) == if |run| <= 3 then run else RunCode(|run|) + run
  {
    if |run| >= 4 {
      RunCodeIs(|run|);
    }
  }
}
