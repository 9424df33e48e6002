/** The whole format of LZO1 and LZO1A: what the decoder accepts is exactly a legal instruction list's bytes. */
module Lzo1Program {
  import opened Bytes
  import opened Lz77
  import opened Lzo1Decoder
  import opened Lzo1Format

  /** How many literals the eight long runs have. */
  const LONG_RUNS: seq<nat> := [280, 512, 1024, 2048, 4096, 8192, 16384, 32768]

  /** A literal run, a match, or an R1 code: three bytes from behind and a literal. */
  datatype Op = Run(lits: seq<byte>) | Copy(off: nat, len: nat) | R1(off: nat, lit: byte)
  {
    predicate Sized() {
      match this
      case Run(lits) => 1 <= |lits| <= 279 || |lits| in LONG_RUNS
      case Copy(off, len) => 1 <= off <= 8192 && 3 <= len <= 264
      case R1(off, _) => 1 <= off <= 8192
    }

    /** Behind a literal run of LZO1A that was not long, a run cannot follow, and an R1 code can. */
    predicate Fits(mode: Mode) {
      Sized() && (Run? ==> mode == Plain) && (R1? ==> mode == AfterLiteral)
    }

    /** What stands in front of a run, and all of a match. */
    function Code(): (s: seq<byte>)
      requires Sized()
      ensures 1 <= |s| <= 3
    {
      match this
      case Run(lits) =>
        var n := |lits|;
        if n <= 31 then [n] else if n <= 279 then [0, n - 32] else [0, LongByte(n)]
      case Copy(off, len) =>
        var d := off - 1;
        if len <= 8 then [32 * (len - 2) + d % 32, d / 32] else [224 + d % 32, d / 32, len - 9]
      case R1(off, _) => [(off - 1) % 32, (off - 1) / 32]
    }

    function Tail(): seq<byte> {
      match this
      case Run(lits) => lits
      case Copy(_, _) => []
      case R1(_, lit) => [lit]
    }

    function Bytes(): (s: seq<byte>)
      requires Sized()
      ensures |s| >= 1
    {
      Code() + Tail()
    }

    /** Up to 279 literals, or the one of an R1 code, put LZO1A into the other mode. */
    function After(r1: bool): Mode {
      match this
      case Run(lits) => if r1 && |lits| <= 279 then AfterLiteral else Plain
      case Copy(_, _) => Plain
      case R1(_, _) => AfterLiteral
    }

    predicate Possible(out: seq<byte>) {
      !Run? ==> 1 <= off <= |out|
    }

    function Apply(out: seq<byte>): (r: seq<byte>)
      requires Possible(out)
    {
      match this
      case Run(lits) => out + lits
      case Copy(off, len) => CopyBack(out, off, len)
      case R1(off, lit) => CopyBack(out, off, 3) + [lit]
    }
  }

  /** The byte behind the zero of a long run. */
  function LongByte(n: nat): (b: byte)
    requires n in LONG_RUNS
    ensures b >= 248 && LONG_RUNS[b - 248] == n
  {
    if n == 280 then 248 else if n == 512 then 249 else if n == 1024 then 250 else if n == 2048 then 251
    else if n == 4096 then 252 else if n == 8192 then 253 else if n == 16384 then 254 else 255
  }

  /** Every instruction fits where it stands, and every match looks back at bytes that are there. */
  ghost predicate LegalFrom(r1: bool, mode: Mode, out: seq<byte>, ops: seq<Op>)
    decreases |ops|
  {
    ops != [] ==>
      && ops[0].Fits(mode) && ops[0].Possible(out) && (ops[0].R1? ==> r1)
      && LegalFrom(r1, ops[0].After(r1), ops[0].Apply(out), ops[1..])
  }

  ghost function CodeFrom(r1: bool, mode: Mode, out: seq<byte>, ops: seq<Op>): seq<byte>
    requires LegalFrom(r1, mode, out, ops)
    decreases |ops|
  {
    if ops == [] then [] else ops[0].Bytes() + CodeFrom(r1, ops[0].After(r1), ops[0].Apply(out), ops[1..])
  }

  ghost function MeaningFrom(r1: bool, mode: Mode, out: seq<byte>, ops: seq<Op>): seq<byte>
    requires LegalFrom(r1, mode, out, ops)
    decreases |ops|
  {
    if ops == [] then out else MeaningFrom(r1, ops[0].After(r1), ops[0].Apply(out), ops[1..])
  }

  // --------------------------------------------------------------- what a code does

  lemma LiteralsDo(e: Env, p: nat, lits: seq<byte>, out: seq<byte>)
    requires Here(e, p, lits)
    ensures Literals(e, p, |lits|, out) == Next(State(e.Behind(|lits|), p + |lits|, out + lits))
  {
    HereTaken(e, p, lits);
  }

  /** The sizes of the long runs. */
  lemma LongSizes(k: nat)
    requires k <= 7
    ensures TierSize(k) == LONG_RUNS[k] && LongByte(LONG_RUNS[k]) == 248 + k
  {
  }

  lemma RunStep(e: Env, ip: nat, out: seq<byte>, op: Op)
    requires op.Run? && op.Fits(Plain) && Here(e, ip, op.Code())
    ensures Step(e, State(Plain, ip, out)) == Literals(e, ip + |op.Code()|, |op.lits|, out)
  {
    hide Literals, Here, TierSize, Step;
    var c := op.Code();
    HereAt(e, ip, c, 0);
    if |c| == 2 {
      HereAt(e, ip, c, 1);
      if c[1] >= 248 {
        LongSizes(c[1] - 248);
      }
    }
    StepAtRun(e, ip, out, c, |op.lits|);
  }

  lemma CopyStep(e: Env, mode: Mode, ip: nat, out: seq<byte>, op: Op)
    requires op.Copy? && op.Fits(mode) && op.Possible(out) && Here(e, ip, op.Code())
    ensures Step(e, State(mode, ip, out)) == Literals(e, ip + |op.Code()|, 0, CopyBack(out, op.off, op.len))
  {
    hide Literals, Here, CopyBack, TierSize, At, Op.Code;
    CopyCodeIs(op);
    var c := op.Code();
    HereAt(e, ip, c, 0);
    HereAt(e, ip, c, 1);
    if op.len > 8 {
      HereAt(e, ip, c, 2);
    }
  }

  lemma CopyCodeIs(op: Op)
    requires op.Copy? && op.Sized()
    ensures (var c, d := op.Code(), op.off - 1;
             && |c| == (if op.len <= 8 then 2 else 3) && c[0] % 32 == d % 32 && c[1] == d / 32
             && if op.len <= 8 then 32 <= c[0] < 224 && c[0] / 32 == op.len - 2 else c[0] >= 224 && c[2] == op.len - 9)
  {
  }

  lemma R1Step(e: Env, ip: nat, out: seq<byte>, op: Op)
    requires op.R1? && op.Fits(AfterLiteral) && op.Possible(out) && Here(e, ip, op.Code())
    ensures Step(e, State(AfterLiteral, ip, out)) == Literals(e, ip + 2, 1, CopyBack(out, op.off, 3))
  {
    hide Literals, Here, CopyBack, TierSize, At;
    HereAt(e, ip, op.Code(), 0);
    HereAt(e, ip, op.Code(), 1);
  }

  /** Every instruction, wherever it may stand, is decoded as what it says. */
  lemma OpDoes(e: Env, mode: Mode, ip: nat, out: seq<byte>, op: Op)
    requires op.Fits(mode) && op.Possible(out) && (op.R1? ==> e.r1) && Here(e, ip, op.Bytes())
    ensures Step(e, State(mode, ip, out)) == Next(State(op.After(e.r1), ip + |op.Bytes()|, op.Apply(out)))
  {
    hide Step, Here, Op.Code, CopyBack, Literals;
    HereSplit(e, ip, op.Code(), op.Tail());
    var p := ip + |op.Code()|;
    match op {
      case Run(lits) =>
        RunStep(e, ip, out, op);
        LiteralsDo(e, p, lits, out);
      case Copy(off, len) =>
        CopyStep(e, mode, ip, out, op);
        LiteralsDo(e, p, [], CopyBack(out, off, len));
        assert CopyBack(out, off, len) + [] == CopyBack(out, off, len);
      case R1(off, lit) =>
        R1Step(e, ip, out, op);
        R1Length(op);
        LiteralsDo(e, p, [lit], CopyBack(out, off, 3));
    }
  }

  lemma R1Length(op: Op)
    requires op.R1? && op.Sized()
    ensures |op.Code()| == 2
  {
  }

  lemma {:induction false} OpsReplay(e: Env, mode: Mode, ip: nat, out: seq<byte>, ops: seq<Op>)
    requires LegalFrom(e.r1, mode, out, ops) && Here(e, ip, CodeFrom(e.r1, mode, out, ops))
    requires ip + |CodeFrom(e.r1, mode, out, ops)| == |e.input|
    ensures Finish(e, Next(State(mode, ip, out))) == Done(Ok, MeaningFrom(e.r1, mode, out, ops))
    decreases |ops|
  {
    hide Here, Op.Bytes, Op.Sized, Op.After, Op.Apply, Op.Possible;
    if ops == [] {
      EndsHere(e, mode, out);
    } else {
      var op := ops[0];
      var rest := CodeFrom(e.r1, op.After(e.r1), op.Apply(out), ops[1..]);
      HereSplit(e, ip, op.Bytes(), rest);
      OpDoes(e, mode, ip, out, op);
      hide Step;
      OpsReplay(e, op.After(e.r1), ip + |op.Bytes()|, op.Apply(out), ops[1..]);
    }
  }

  lemma EndsHere(e: Env, mode: Mode, out: seq<byte>)
    ensures Finish(e, Next(State(mode, |e.input|, out))) == Done(Ok, out)
  {
    assert Finish(e, Done(Ok, out)) == Done(Ok, out);
  }

  // ------------------------------------------------------- what is decoded is a list

  /** A step that stays inside the input has done an instruction. */
  lemma OpFound(e: Env, st: State) returns (op: Op)
    requires Step(e, st).Next? && Step(e, st).st.ip <= |e.input| && (st.mode == AfterLiteral ==> e.r1)
    ensures op.Fits(st.mode) && op.Possible(st.out) && (op.R1? ==> e.r1) && Here(e, st.ip, op.Bytes())
    ensures Step(e, st) == Next(State(op.After(e.r1), st.ip + |op.Bytes()|, op.Apply(st.out)))
  {
    hide Op.Apply, Op.After;
    var ip, out := st.ip, st.out;
    var t: int := e.input[ip];
    if t >= 32 {
      op := CopyFound(e, st);
    } else if st.mode == AfterLiteral {
      op := R1Found(e, st);
    } else {
      op := RunFound(e, st);
    }
    hide Step, Op.Bytes, Here, Op.Fits;
    OpDoes(e, st.mode, ip, out, op);
  }

  lemma CopyTaken(e: Env, st: State)
    requires Step(e, st).Next? && e.input[st.ip] >= 32
    ensures (var t: int, b: int := e.input[st.ip], e.Get(st.ip + 1);
             && 1 + t % 32 + 32 * b <= |st.out|
             && Step(e, st).st.ip == st.ip + if t < 224 then 2 else 3)
  {
    hide CopyBack, Take, At;
  }

  lemma CopyFound(e: Env, st: State) returns (op: Op)
    requires Step(e, st).Next? && Step(e, st).st.ip <= |e.input| && e.input[st.ip] >= 32
    ensures op.Copy? && op.Fits(st.mode) && op.Possible(st.out) && Here(e, st.ip, op.Bytes())
  {
    CopyTaken(e, st);
    hide Step, Op.Code;
    var ip := st.ip;
    op := CopyCodeFound(e.input[ip], e.Get(ip + 1), e.Get(ip + 2));
    assert e.input[ip..ip + |op.Code()|] == op.Code();
    assert op.Bytes() == op.Code();
  }

  lemma CopyCodeFound(t: byte, b: byte, c: byte) returns (op: Op)
    requires t >= 32
    ensures op.Copy? && op.Sized() && op.off == 1 + t as int % 32 + 32 * b as int
    ensures op.Code() == if t < 224 then [t, b] else [t, b, c]
  {
    var d := t as int % 32 + 32 * b as int;
    op := Copy(1 + d, if t < 224 then t / 32 + 2 else 9 + c as int);
    assert d % 32 == t % 32 && d / 32 == b;
  }

  lemma R1Found(e: Env, st: State) returns (op: Op)
    requires Step(e, st).Next? && Step(e, st).st.ip <= |e.input| && e.input[st.ip] < 32 && st.mode == AfterLiteral
    ensures op.R1? && op.Fits(st.mode) && op.Possible(st.out) && Here(e, st.ip, op.Bytes())
  {
    R1Taken(e, st);
    hide Step, Op.Code;
    var ip := st.ip;
    op := R1CodeFound(e.input[ip], e.Get(ip + 1), e.Get(ip + 2));
    assert e.input[ip..ip + 3] == [e.input[ip], e.Get(ip + 1), e.Get(ip + 2)];
  }

  lemma R1Taken(e: Env, st: State)
    requires Step(e, st).Next? && e.input[st.ip] < 32 && st.mode == AfterLiteral
    ensures 1 + e.input[st.ip] as int + 32 * e.Get(st.ip + 1) as int <= |st.out| && Step(e, st).st.ip == st.ip + 3
  {
    hide CopyBack, Take, At;
  }

  lemma R1CodeFound(t: byte, b: byte, c: byte) returns (op: Op)
    requires t < 32
    ensures op.R1? && op.Sized() && op.off == 1 + t as int + 32 * b as int && op.Bytes() == [t, b, c]
  {
    var d := t as int + 32 * b as int;
    op := R1(1 + d, c);
    assert d % 32 == t && d / 32 == b;
  }

  /** The run that two bytes announce. */
  function Announced(t: byte, b: byte): (n: nat) {
    if t > 0 then t else if b < 248 then b as int + 32 else LONG_RUNS[b - 248]
  }

  lemma RunTaken(e: Env, st: State)
    requires st.ip < |e.input| && e.input[st.ip] < 32 && st.mode == Plain
    ensures (var t, b := e.input[st.ip], e.Get(st.ip + 1);
             Step(e, st).Next? && Step(e, st).st.ip == st.ip + (if t > 0 then 1 else 2) + Announced(t, b))
  {
    hide TierSize, At, Take;
    if e.Get(st.ip + 1) >= 248 {
      LongSizes(e.Get(st.ip + 1) - 248);
    }
  }

  lemma RunFound(e: Env, st: State) returns (op: Op)
    requires Step(e, st).Next? && Step(e, st).st.ip <= |e.input| && e.input[st.ip] < 32 && st.mode == Plain
    ensures op.Run? && op.Fits(st.mode) && Here(e, st.ip, op.Bytes())
  {
    RunTaken(e, st);
    var t, b := e.input[st.ip], e.Get(st.ip + 1);
    op := RunAssembled(e, st.ip, t, b);
  }

  lemma RunAssembled(e: Env, ip: nat, t: byte, b: byte) returns (op: Op)
    requires t < 32 && ip + (if t > 0 then 1 else 2) + Announced(t, b) <= |e.input|
    requires e.input[ip] == t && (t == 0 ==> e.input[ip + 1] == b)
    ensures op.Run? && op.Sized() && Here(e, ip, op.Bytes())
  {
    hide Op.Code, Op.Sized, Announced, Here;
    var k := if t > 0 then 1 else 2;
    op := Run(e.input[ip + k..ip + k + Announced(t, b)]);
    RunCodeFound(op, t, b);
    SliceHere(e, ip, k);
    SliceHere(e, ip + k, Announced(t, b));
    assert e.input[ip..ip + k] == if t > 0 then [t] else [0, b];
    HereJoin(e, ip, op.Code(), op.lits);
  }

  lemma SliceHere(e: Env, ip: nat, n: nat)
    requires ip + n <= |e.input|
    ensures Here(e, ip, e.input[ip..ip + n])
  {
  }

  lemma RunCodeFound(op: Op, t: byte, b: byte)
    requires op.Run? && t < 32 && |op.lits| == Announced(t, b)
    ensures op.Sized() && op.Code() == if t > 0 then [t] else [0, b]
  {
    if t == 0 && b >= 248 {
      LongSizes(b - 248);
    }
  }

  /** What is decoded with success from a state on is an instruction list. */
  lemma {:induction false} OpsFound(e: Env, st: State, x: seq<byte>) returns (ops: seq<Op>)
    requires Finish(e, Next(st)) == Done(Ok, x) && (st.mode == AfterLiteral ==> e.r1)
    ensures LegalFrom(e.r1, st.mode, st.out, ops) && MeaningFrom(e.r1, st.mode, st.out, ops) == x
    ensures (var c := CodeFrom(e.r1, st.mode, st.out, ops); Here(e, st.ip, c) && st.ip + |c| == |e.input|)
    decreases if st.ip < |e.input| then |e.input| - st.ip else 0
  {
    hide Here, Op.Bytes, Op.Sized, Op.Apply, Op.Possible, Env.Behind, CopyBack;
    ops := [];
    if st.ip >= |e.input| {
      AtTheEnd(e, st, x);
    } else {
      var r := Step(e, st);
      GoesInside(e, st, x);
      var op := OpFound(e, st);
      hide Step;
      var more := OpsFound(e, r.st, x);
      hide Op.After;
      ops := [op] + more;
      assert ops[1..] == more;
      HereJoin(e, st.ip, op.Bytes(), CodeFrom(e.r1, op.After(e.r1), op.Apply(st.out), more));
    }
  }

  lemma AtTheEnd(e: Env, st: State, x: seq<byte>)
    requires Finish(e, Next(st)) == Done(Ok, x) && st.ip >= |e.input|
    ensures st.ip == |e.input| && x == st.out && Here(e, st.ip, [])
  {
    var r := Step(e, st);
    assert Finish(e, r) == r;
  }

  lemma GoesInside(e: Env, st: State, x: seq<byte>)
    requires Finish(e, Next(st)) == Done(Ok, x) && st.ip < |e.input|
    ensures Step(e, st).Next? && Step(e, st).st.ip <= |e.input|
  {
    var r := Step(e, st);
    assert !r.Done?;
    hide Step;
    if r.Next? && r.st.ip > |e.input| {
      AtTheEnd(e, r.st, x);
    }
  }

  lemma HereJoin(e: Env, ip: nat, a: seq<byte>, b: seq<byte>)
    requires Here(e, ip, a) && Here(e, ip + |a|, b)
    ensures Here(e, ip, a + b)
  {
    assert e.input[ip..ip + |a| + |b|] == e.input[ip..ip + |a|] + e.input[ip + |a|..ip + |a| + |b|];
  }

  /** `input` are the bytes of a legal list whose meaning is `x`. */
  ghost predicate Spells(r1: bool, input: seq<byte>, x: seq<byte>) {
    exists ops: seq<Op> ::
      LegalFrom(r1, Plain, [], ops) && CodeFrom(r1, Plain, [], ops) == input && MeaningFrom(r1, Plain, [], ops) == x
  }

  /** The decoder accepts exactly the bytes of legal lists, and returns what they mean. */
  lemma AcceptsExactly(e: Env, x: seq<byte>)
    ensures Decode(e) == Done(Ok, x) <==> Spells(e.r1, e.input, x)
  {
    hide Finish, LegalFrom, CodeFrom, MeaningFrom;
    if Decode(e) == Done(Ok, x) {
      var ops := OpsFound(e, State(Plain, 0, []), x);
    }
    if Spells(e.r1, e.input, x) {
      var ops: seq<Op> :| LegalFrom(e.r1, Plain, [], ops) && CodeFrom(e.r1, Plain, [], ops) == e.input
                          && MeaningFrom(e.r1, Plain, [], ops) == x;
      HereWhole(e);
      OpsReplay(e, Plain, 0, [], ops);
    }
  }
}
