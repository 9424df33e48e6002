/** lzo1_decompress and lzo1a_decompress: the loops that fill an output array. */
module Lzo1Decompress {
  import opened Bytes
  import opened Lz77
  import opened Lzo1Format
  import opened Lzo1Decoder
  import Lzo1Parse
  import Lzo1Compress
  import Lzo1Program

  /** MEMCPY_DS from the input. */
  method CopyLiterals(e: Env, dst: array<byte>, ip: nat, op: nat, n: nat)
    requires op + n <= dst.Length
    modifies dst
    ensures dst[..op + n] == old(dst[..op]) + Take(e.input, e.past, ip, n) && Untouched(dst, op + n)
  {
    hide Take;
    ghost var out, lits := dst[..op], Take(e.input, e.past, ip, n);
    var i := 0;
    while i < n
      invariant 0 <= i <= n && dst[..op] == out && dst[op..op + i] == lits[..i] && Untouched(dst, op + n)
    {
      dst[op + i] := e.Get(ip + i);
      assert dst[op..op + i + 1] == dst[op..op + i] + [dst[op + i]];
      i := i + 1;
    }
    assert dst[..op + n] == dst[..op] + dst[op..op + n];
  }

  /** `*op++ = *m_pos++`, `len` times; the bytes copied may be among those just written. */
  method CopyMatch(dst: array<byte>, op: nat, off: nat, len: nat)
    requires 1 <= off <= op && op + len <= dst.Length
    modifies dst
    ensures dst[..op + len] == CopyBack(old(dst[..op]), off, len) && Untouched(dst, op + len)
  {
    hide CopyBack;
    ghost var out := dst[..op];
    CopyBackNothing(out, off);
    var i := 0;
    while i < len
      invariant 0 <= i <= len && dst[..op + i] == CopyBack(out, off, i) && Untouched(dst, op + len)
    {
      CopyBackSnoc(out, off, i);
      assert dst[op + i - off] == dst[..op + i][op + i - off];
      dst[op + i] := dst[op + i - off];
      assert dst[..op + i + 1] == dst[..op + i] + [dst[op + i]];
      i := i + 1;
    }
  }

  /** A match, and the one literal of an R1 code. */
  method MatchAt(e: Env, dst: array<byte>, off: nat, len: nat, more: nat, ip: nat, op0: nat) returns (op: nat)
    requires 1 <= off <= op0 && op0 + len + more <= dst.Length
    modifies dst
    ensures op == op0 + len + more
      && Match(e, off, len, more, ip, old(dst[..op0])) == Next(State(e.Behind(more), ip + more, dst[..op]))
    ensures Untouched(dst, op)
  {
    hide CopyBack, Take;
    CopyMatch(dst, op0, off, len);
    CopyLiterals(e, dst, ip, op0 + len, more);
    op := op0 + len + more;
  }

  /** The length of the literal run at a marker below 32, and where its bytes start. */
  method RunAt(e: Env, t: byte, ip0: nat, ghost out: seq<byte>) returns (n: nat, ip: nat)
    requires t == e.Get(ip0) && t < R0MIN && ip0 < |e.input|
    ensures Step(e, State(Plain, ip0, out)) == Literals(e, ip, n, out)
  {
    hide Literals, Match, TierSize;
    if t != 0 {
      return t, ip0 + 1;
    }
    var b := e.Get(ip0 + 1);
    if b >= R0FAST - R0MIN {
      return TierSize(b - (R0FAST - R0MIN)), ip0 + 2;
    }
    return b + R0MIN, ip0 + 2;
  }

  /** Where the match at a marker is, how long it is and how many literals belong to it. */
  method FieldsAt(e: Env, t: byte, mode: Mode, ip0: nat, ghost out: seq<byte>)
    returns (off: nat, len: nat, more: nat, ip: nat)
    requires t == e.Get(ip0) && (t >= R0MIN || mode == AfterLiteral) && ip0 < |e.input|
    ensures off >= 1 && Step(e, State(mode, ip0, out)) == Match(e, off, len, more, ip, out)
  {
    hide Literals, Match, TierSize;
    off := 1 + t % 32 + 32 * (e.Get(ip0 + 1) as int);
    if t < R0MIN {
      return off, MIN_MATCH, 1, ip0 + 2;
    }
    if t < 224 {
      return off, t / 32 + 2, 0, ip0 + 2;
    }
    return off, MIN_MATCH_LONG + e.Get(ip0 + 2), 0, ip0 + 3;
  }

  /** One turn: a marker and what it stands for. `AfterLiteral` is the inner loop of LZO1A. */
  method Turn(e: Env, dst: array<byte>, mode: Mode, ip0: nat, op0: nat) returns (next: Mode, ip: nat, op: nat)
    requires ip0 < |e.input| && op0 <= dst.Length
    requires (var r := Step(e, State(mode, ip0, dst[..op0])); r.Next? && |r.st.out| <= dst.Length)
    modifies dst
    ensures op <= dst.Length && Step(e, State(mode, ip0, old(dst[..op0]))) == Next(State(next, ip, dst[..op]))
      && Untouched(dst, op)
  {
    hide CopyBack, Take, Step;
    var t := e.Get(ip0);
    if t < R0MIN && mode == Plain {
      var n;
      n, ip := RunAt(e, t, ip0, dst[..op0]);
      CopyLiterals(e, dst, ip, op0, n);
      return e.Behind(n), ip + n, op0 + n;
    }
    var off, len, more;
    off, len, more, ip := FieldsAt(e, t, mode, ip0, dst[..op0]);
    op := MatchAt(e, dst, off, len, more, ip, op0);
    return e.Behind(more), ip + more, op;
  }

  lemma TurnFits(e: Env, st: State)
    requires st.ip < |e.input| && Finish(e, Next(st)).Done?
    ensures (var r := Step(e, st);
             && r.Next? && r.st.ip > st.ip && Finish(e, r) == Finish(e, Next(st))
             && r.st.out <= Finish(e, Next(st)).out)
  {
    hide CopyBack, Take;
    var r := Step(e, st);
    assert !r.Done?;
    hide Step;
    assert r == Wild ==> Finish(e, r) == Wild;
  }

  /**
   * On an input that never reaches before the output, and with room for what it stands for, exactly
   * what the reference decoder does.
   */
  method Decompress(e: Env, dst: array<byte>) returns (status: Status, n: nat)
    requires Decode(e).Done? && |Decode(e).out| <= dst.Length
    modifies dst
    ensures n <= dst.Length && Decode(e) == Done(status, dst[..n]) && Untouched(dst, n)
    ensures status == Ok <==> Lzo1Program.Spells(e.r1, e.input, dst[..n])
  {
    hide Step, Lzo1Program.Spells;
    var mode, ip: nat, op: nat := Plain, 0, 0;
    assert dst[..0] == [];
    ghost var target := Decode(e);
    while ip < |e.input|
      invariant op <= dst.Length && Finish(e, Next(State(mode, ip, dst[..op]))) == target && Untouched(dst, op)
      decreases |e.input| - ip
    {
      TurnFits(e, State(mode, ip, dst[..op]));
      mode, ip, op := Turn(e, dst, mode, ip, op);
    }
    status, n := if ip == |e.input| then Ok else InputOverrun, op;
    Ends(e, State(mode, ip, dst[..op]));
    Lzo1Program.AcceptsExactly(e, dst[..n]);
  }

  lemma Ends(e: Env, st: State)
    requires st.ip >= |e.input|
    ensures Finish(e, Next(st)) == Done(if st.ip == |e.input| then Ok else InputOverrun, st.out)
  {
    assert Step(e, st) == Done(if st.ip == |e.input| then Ok else InputOverrun, st.out);
    hide Step;
  }

  /** What lzo1_compress or lzo1a_compress writes, the matching decompressor turns back into the input. */
  method CompressThenDecompress(tu: Lzo1Parse.Tuning, x: seq<byte>, dict: array<int>, past: nat -> byte)
    returns (status: Status, back: seq<byte>)
    requires tu.Legal() && dict.Length == Lzo1Parse.D_SIZE && (!tu.deterministic ==> dict[..] == tu.initial)
    modifies dict
    ensures status == Ok && back == x
  {
    hide Decode, Lzo1Parse.Compressed;
    var packed := new byte[|x| + |x| / 32 + 1];
    var len := Lzo1Compress.Compress(packed, dict, tu, x);
    Lzo1Parse.RoundTrip(tu, x, past);
    var dst := new byte[|x|];
    var n;
    status, n := Decompress(Env(tu.r1, packed[..len], past), dst);
    back := dst[..n];
  }
}
