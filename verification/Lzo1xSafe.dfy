/** What the checks are worth: agreement with the unchecked build, and inputs short enough to stay in the area. */
module Lzo1xSafe {
  import opened Bytes
  import opened Lz77
  import opened Lzo1xDecoder

  /** The same call without the overrun checks. */
  function Unchecked(e: Env, cap: nat): Env {
    Env(false, e.input, e.past, cap, e.word, e.wide)
  }

  /** The checked outcome `r` can no longer lead to success: an error, or an index past the input. */
  ghost predicate Doomed(e: Env, r: Outcome) {
    r == Wild || (r.Done? && r.status != Ok) || (r.Next? && r.st.ip > |e.input|)
  }

  lemma HeaderAgrees(e: Env, u: Env, t: byte, ip: nat)
    requires e.checks && u == Unchecked(e, u.cap) && t >= 16 && ip <= |e.input|
    ensures (var h := ReadHeader(e, t, ip);
             ReadHeader(u, t, ip) == h || h == ShortInput || h == WildRead
             || ((h.Match? || h.Eof?) && h.ip > |e.input|))
  {
    hide ReadHeader, ScanLength;
    ScanAgrees(e, u, ip, if t >= 32 then 31 else 7);
    FieldsAgree(e, u, t, ip);
  }

  lemma FieldsAgree(e: Env, u: Env, t: byte, ip: nat)
    requires e.checks && u == Unchecked(e, u.cap) && t >= 16 && ip <= |e.input|
    requires (var t0 := if t >= 32 then 31 else 7; var r := ScanLength(e, ip, t0);
              ScanLength(u, ip, t0) == r || !r.Scan?)
    ensures (var h := ReadHeader(e, t, ip);
             ReadHeader(u, t, ip) == h || h == ShortInput || h == WildRead
             || ((h.Match? || h.Eof?) && h.ip > |e.input|))
  {
    hide ScanLength, NearHeader, FarHeader;
    if t >= 64 {
      hide At;
    } else {
      var plain := if t >= 32 then Scan(t % 32, ip) else Scan(t % 8, ip);
      var r := if plain.t == 0 then ScanLength(e, ip, if t >= 32 then 31 else 7) else plain;
      BehindLength(e, u, t, r);
    }
  }

  lemma BehindLength(e: Env, u: Env, t: byte, r: Scan)
    requires e.checks && u == Unchecked(e, u.cap)
    ensures (var h := NearHeader(e, r); NearHeader(u, r) == h || (h.Match? && h.ip > |e.input|))
    ensures (var h := FarHeader(e, t, r); FarHeader(u, t, r) == h || ((h.Match? || h.Eof?) && h.ip > |e.input|))
  {
    hide MatchCount, At;
  }

  lemma {:induction false} ScanAgrees(e: Env, u: Env, ip: nat, t: nat)
    requires e.checks && u == Unchecked(e, u.cap) && ip <= |e.input|
    ensures ScanLength(u, ip, t) == ScanLength(e, ip, t) || !ScanLength(e, ip, t).Scan?
    decreases |e.input| - ip
  {
    if ip < |e.input| && e.input[ip] == 0 {
      ScanAgrees(e, u, ip + 1, (t + 255) % e.word);
    }
  }

  lemma CopyAgrees(e: Env, u: Env, off: nat, len: nat, ip: nat, out: seq<byte>)
    requires e.checks && u == Unchecked(e, u.cap) && off >= 1 && ip >= 2
    ensures CopyMatch(u, off, len, ip, out) == CopyMatch(e, off, len, ip, out)
      || Doomed(e, CopyMatch(e, off, len, ip, out))
    ensures ip > |e.input| ==> Doomed(e, CopyMatch(e, off, len, ip, out))
  {
  }

  lemma MatchAgrees(e: Env, u: Env, t: byte, ip: nat, out: seq<byte>)
    requires e.checks && u == Unchecked(e, u.cap) && t >= 16 && 1 <= ip <= |e.input|
    ensures MatchInstruction(u, t, ip, out) == MatchInstruction(e, t, ip, out)
      || Doomed(e, MatchInstruction(e, t, ip, out))
  {
    hide CopyMatch, ReadHeader;
    HeaderAgrees(e, u, t, ip);
    var h := ReadHeader(e, t, ip);
    if h.Match? {
      CopyAgrees(e, u, h.off, h.len, h.ip, out);
    }
  }

  lemma CopyPastEnd(e: Env, off: nat, len: nat, ip: nat, out: seq<byte>)
    requires e.checks && off >= 1 && ip >= 2 && ip > |e.input|
    ensures Doomed(e, CopyMatch(e, off, len, ip, out))
  {
  }

  lemma MatchPastEnd(e: Env, t: byte, ip: nat, out: seq<byte>)
    requires e.checks && t >= 16 && ip >= 1 && ip > |e.input|
    ensures Doomed(e, MatchInstruction(e, t, ip, out))
  {
    hide CopyMatch, ReadHeader;
    var h := ReadHeader(e, t, ip);
    if h.Match? {
      CopyPastEnd(e, h.off, h.len, h.ip, out);
    }
  }

  /** An instruction that starts at or behind the end of the input never succeeds. */
  lemma PastEndDoomed(e: Env, st: State)
    requires e.checks && st.ip >= |e.input|
    ensures Doomed(e, Step(e, st))
  {
    hide CopyMatch, MatchInstruction;
    var t := e.Get(st.ip);
    if t >= 16 {
      MatchPastEnd(e, t, st.ip + 1, st.out);
    } else {
      CopyPastEnd(e, 1 + M2_MAX_OFFSET + t / 4 + 4 * e.Get(st.ip + 1), 3, st.ip + 2, st.out);
    }
  }

  lemma RunAgrees(e: Env, u: Env, n: nat, ip: nat, out: seq<byte>)
    requires e.checks && u == Unchecked(e, u.cap) && ip >= 1
    ensures LiteralRun(u, n, ip, out) == LiteralRun(e, n, ip, out) || Doomed(e, LiteralRun(e, n, ip, out))
  {
  }

  lemma StepAgrees(e: Env, u: Env, st: State)
    requires e.checks && u == Unchecked(e, u.cap) && st.ip < |e.input|
    ensures Step(u, st) == Step(e, st) || Doomed(e, Step(e, st))
  {
    hide MatchInstruction, CopyMatch, LiteralRun, ScanLength;
    var ip, out := st.ip, st.out;
    var t := e.Get(ip);
    if t >= 16 {
      MatchAgrees(e, u, t, ip + 1, out);
    } else {
      match st.mode
      case Outer =>
        ScanAgrees(e, u, ip + 1, 15);
        var l := if t == 0 then ScanLength(e, ip + 1, 15) else Scan(t, ip + 1);
        if l.Scan? {
          RunAgrees(e, u, RunCount(l.t, e.word, e.wide), l.ip, out);
        }
      case AfterRun =>
        ShortMatchAgrees(e, u, 1 + M2_MAX_OFFSET + t / 4 + 4 * e.Get(ip + 1), 3, ip, out);
      case AfterShort =>
        ShortMatchAgrees(e, u, 1 + t / 4 + 4 * e.Get(ip + 1), 2, ip, out);
    }
  }

  lemma ShortMatchAgrees(e: Env, u: Env, off: nat, len: nat, ip: nat, out: seq<byte>)
    requires e.checks && u == Unchecked(e, u.cap) && off >= 1
    ensures Doomed(e, CopyMatch(e, off, len, ip + 2, out))
         || (u.Readable(ip + 1) && CopyMatch(u, off, len, ip + 2, out) == CopyMatch(e, off, len, ip + 2, out))
  {
    hide CopyMatch;
    CopyAgrees(e, u, off, len, ip + 2, out);
  }

  lemma {:induction false} DoomedFails(e: Env, r: Outcome)
    requires e.checks && Doomed(e, r)
    ensures Finish(e, r).Done? ==> Finish(e, r).status != Ok
    decreases r.Next?, r.Next? && r.st.mode == AfterRun
  {
    if r.Next? {
      hide Step;
      PastEndDoomed(e, r.st);
      DoomedFails(e, Step(e, r.st));
    }
  }

  lemma {:induction false} FinishAgrees(e: Env, u: Env, r: Outcome)
    requires e.checks && u == Unchecked(e, u.cap)
    requires Finish(e, r).Done? && Finish(e, r).status == Ok
    ensures Finish(u, r) == Finish(e, r)
    decreases r.Next?, if r.Next? && r.st.ip < |e.input| then |e.input| - r.st.ip else 0,
              r.Next? && r.st.mode == AfterRun
  {
    hide Step;
    if Doomed(e, r) {
      DoomedFails(e, r);
      assert false;
    }
    if r.Next? {
      if r.st.ip < |e.input| {
        StepAgrees(e, u, r.st);
      } else {
        PastEndDoomed(e, r.st);
      }
      if Doomed(e, Step(e, r.st)) {
        DoomedFails(e, Step(e, r.st));
        assert false;
      }
      FinishAgrees(e, u, Step(e, r.st));
    }
  }

  /** When the checked build returns LZO_E_OK, the unchecked build returns the same bytes. */
  lemma SafeImpliesUnchecked(e: Env, cap: nat)
    requires e.checks && Decode(e).Done? && Decode(e).status == Ok
    ensures Decode(Unchecked(e, cap)) == Decode(e)
  {
    hide Step;
    var u := Unchecked(e, cap);
    var r := Begin(e);
    if Doomed(e, r) {
      DoomedFails(e, r);
      assert false;
    }
    if e.input == [] {
      PastEndDoomed(e, r.st);
      DoomedFails(e, Step(e, r.st));
      assert false;
    }
    FinishAgrees(e, u, r);
  }

  // ------------------------------------------------------------ inside the output area

  /** The shortest input in which the length of a literal run can wrap to nothing. */
  function RunLimit(word: Word): (n: nat)
    ensures 255 * (n - 3) <= word - 19 < 255 * (n - 2) && 3 < n < word
  {
    (word - 19) / 255 + 3
  }

  /** The shortest input in which the length of a match can wrap to nothing behind a literal to look back at. */
  function MatchLimit(word: Word): (n: nat)
    ensures 255 * (n - 4) <= word - 34 < 255 * (n - 3) && 4 < n < word && RunLimit(word) <= n
  {
    (word - 34) / 255 + 4
  }

  /** Builds that copy literals by eight bytes copy nothing when the sum wraps to zero. */
  function Limit(word: Word, wide: bool): (n: nat)
    ensures 3 < n < word
  {
    if wide then MatchLimit(word) else RunLimit(word)
  }

  /** With words of 32 bits. */
  lemma LimitOf32Bits()
    ensures Limit(0x1_0000_0000, false) == 16843011 && Limit(0x1_0000_0000, true) == 16843012
  {
  }

  /** The outcome is inside the area, and positions the decoder where a match can look back. */
  ghost predicate Inside(e: Env, r: Outcome) {
    match r
    case Next(st) =>
      && |st.out| <= e.cap && (st.ip >= 2 || st == State(Outer, 0, []))
      && (st.mode == AfterRun ==> st.ip < |e.input|)
    case Done(_, out) => |out| <= e.cap
    case Wild => false
  }

  /** Too short for a wrap to matter; without any room there is never a match to copy. */
  predicate Limited(n: nat, cap: nat, word: Word, wide: bool) {
    n < Limit(word, wide) || (wide && cap == 0)
  }

  /** The checked build, on an input that is not too long. */
  ghost predicate Guarded(e: Env) {
    e.checks && e.Addressable() && 1 <= |e.input| && Limited(|e.input|, e.cap, e.word, e.wide)
  }

  lemma ShortInside(e: Env, s: nat, ip: nat, out: seq<byte>)
    requires e.checks && e.Addressable() && s < 4 && |out| <= e.cap && (ip >= 2 || (ip == 1 && s >= 1))
    ensures Inside(e, ShortLiterals(e, s, ip, out))
  {
    TestsPlain(e, 0, out, s);
    hide Env.InputShort, Env.OutputShort;
  }

  lemma CopyInside(e: Env, off: nat, len: nat, ip: nat, out: seq<byte>)
    requires e.checks && e.Addressable() && off >= 1 && ip >= 2 && |out| <= e.cap && (off <= |out| ==> len < e.word)
    ensures Inside(e, CopyMatch(e, off, len, ip, out))
  {
    if off <= |out| {
      TestsPlain(e, 0, out, len);
      hide Env.InputShort, Env.OutputShort, ShortLiterals;
      if |out| + len <= e.cap {
        ShortInside(e, e.Get(ip - 2) % 4, ip, CopyBack(out, off, len));
      }
    }
  }

  /** A length without a wrap, and with one. */
  lemma ScanFits(e: Env, ip: nat, t: nat)
    requires ScanLength(e, ip, t).Scan?
    ensures (var r := ScanLength(e, ip, t);
             var sum := t + 255 * (r.ip - ip - 1) + e.Get(r.ip - 1);
             t < sum && (sum < e.word ==> r.t == sum) && (e.word <= sum < 2 * e.word ==> r.t == sum - e.word))
  {
    hide ScanLength;
    ScanMeans(e, ip, t);
    var r := ScanLength(e, ip, t);
    var sum := t + 255 * (r.ip - ip - 1) + e.Get(r.ip - 1);
    if sum < e.word {
      DivModUnique(sum, e.word, 0, sum);
    } else if sum < 2 * e.word {
      DivModUnique(sum, e.word, 1, sum - e.word);
    }
  }

  /** Behind the first two bytes, the input is too short for a match to wrap. */
  lemma HeaderInside(e: Env, t: byte, ip: nat)
    requires e.checks && |e.input| < MatchLimit(e.word) && t >= 16 && 3 <= ip <= |e.input|
    ensures ReadHeader(e, t, ip) != WildRead && (ReadHeader(e, t, ip).Match? ==> ReadHeader(e, t, ip).len < e.word)
  {
    var h := ReadHeader(e, t, ip);
    if t < 64 {
      var t0, plain := if t >= 32 then 31 else 7, if t >= 32 then t % 32 else t % 8;
      var r := if plain == 0 then ScanLength(e, ip, t0) else Scan(plain, ip);
      if r.Scan? {
        if plain == 0 {
          ScanFits(e, ip, t0);
        }
        hide ScanLength;
        if h.Match? {
          CountsPlain(r.t, h.off, e.word, e.wide);
        }
        hide MatchCount;
      }
    }
  }

  lemma MatchInside(e: Env, t: byte, ip: nat, out: seq<byte>)
    requires Guarded(e) && t >= 16 && 1 <= ip <= |e.input| && |out| <= e.cap && (ip >= 3 || out == [])
    ensures Inside(e, MatchInstruction(e, t, ip, out))
  {
    hide ReadHeader, CopyMatch;
    if out != [] {
      HeaderInside(e, t, ip);
    }
    var h := ReadHeader(e, t, ip);
    if h.Match? {
      CopyInside(e, h.off, h.len, h.ip, out);
    }
  }

  lemma RunInside(e: Env, n: nat, ip: nat, out: seq<byte>)
    requires e.checks && e.Addressable() && 1 <= ip <= |e.input| && |out| <= e.cap && ip + n >= 2
    requires n < e.word || (ip == |e.input| && (n + 1) % e.word > 0)
    ensures Inside(e, LiteralRun(e, n, ip, out))
  {
    if n < e.word {
      TestsPlain(e, ip, out, n);
      if n + 1 < e.word {
        TestsPlain(e, ip, out, n + 1);
      }
    }
    hide Env.OutputShort, Take;
  }

  /** A literal run whose length wraps starts where nothing is left to copy. */
  lemma LengthFits(e: Env, ip: nat)
    requires Guarded(e) && 1 <= ip <= |e.input| && ScanLength(e, ip, 15).Scan?
    ensures (var r := ScanLength(e, ip, 15); var n := RunCount(r.t, e.word, e.wide);
             n < e.word || (r.ip == |e.input| && (n + 1) % e.word > 0))
  {
    hide ScanLength;
    ScanFits(e, ip, 15);
    var r := ScanLength(e, ip, 15);
    var n := RunCount(r.t, e.word, e.wide);
    if e.wide {
      WideCount(r.t, e.word);
    } else if n >= e.word {
      DivModUnique(n + 1, e.word, 1, n + 1 - e.word);
    }
  }

  lemma WideCount(t: nat, word: Word)
    ensures RunCount(t, word, true) < word
  {
  }

  lemma OuterInside(e: Env, ip: nat, out: seq<byte>)
    requires Guarded(e) && |out| <= e.cap && (ip >= 2 || (ip == 0 && out == []))
    ensures Inside(e, OuterStep(e, ip, out))
  {
    hide ScanLength, LiteralRun, MatchInstruction, Limit, RunCount;
    if ip < |e.input| {
      var t := e.input[ip];
      if t >= 16 {
        MatchInside(e, t, ip + 1, out);
      } else if t > 0 {
        CountsPlain(t, 1, e.word, e.wide);
        RunInside(e, RunCount(t, e.word, e.wide), ip + 1, out);
      } else if ScanLength(e, ip + 1, 15).Scan? {
        LengthFits(e, ip + 1);
        var r := ScanLength(e, ip + 1, 15);
        RunInside(e, RunCount(r.t, e.word, e.wide), r.ip, out);
      }
    }
  }

  lemma StepInside(e: Env, st: State)
    requires Guarded(e) && Inside(e, Next(st))
    ensures Inside(e, Step(e, st))
  {
    hide CopyMatch, MatchInstruction, OuterStep, Limit, CopyBack;
    var ip, out := st.ip, st.out;
    var t := e.Get(ip);
    match st.mode
    case Outer => OuterInside(e, ip, out);
    case AfterRun =>
      if t >= 16 {
        MatchInside(e, t, ip + 1, out);
      } else {
        CopyInside(e, 1 + M2_MAX_OFFSET + t / 4 + 4 * e.Get(ip + 1), 3, ip + 2, out);
      }
    case AfterShort =>
      if ip + 1 < |e.input| {
        if t >= 16 {
          MatchInside(e, t, ip + 1, out);
        } else {
          CopyInside(e, 1 + t / 4 + 4 * e.Get(ip + 1), 2, ip + 2, out);
        }
      }
  }

  lemma BeginInside(e: Env)
    requires Guarded(e)
    ensures Inside(e, Begin(e))
  {
    hide ShortLiterals, LiteralRun, Limit;
    var c := e.Get(0);
    if c > 17 {
      if c - 17 < 4 {
        ShortInside(e, c - 17, 1, []);
      } else {
        RunInside(e, c - 17, 1, []);
      }
    }
  }

  /** The decoder stops, with no more output than its area holds. */
  ghost predicate StaysInside(e: Env) {
    Decode(e).Done? && |Decode(e).out| <= e.cap
  }

  lemma {:induction false} FinishInside(e: Env, r: Outcome)
    requires Guarded(e) && Inside(e, r)
    ensures Inside(e, Finish(e, r))
    decreases r.Next?, if r.Next? && r.st.ip < |e.input| then |e.input| - r.st.ip else 0,
              r.Next? && r.st.mode == AfterRun
  {
    if r.Next? {
      hide Step, Inside, Guarded;
      StepInside(e, r.st);
      FinishInside(e, Step(e, r.st));
    }
  }

  /** On any input that is not empty and below the limit, the checked build stays inside its output area. */
  lemma SafeWithinArea(e: Env)
    requires Guarded(e)
    ensures StaysInside(e)
  {
    hide Step, Begin;
    BeginInside(e);
    FinishInside(e, Begin(e));
  }

  // ------------------------------------------------------------- and not beyond the limit

  /** A zero byte, zeros up to the limit, and a byte that makes the length three less than the word. */
  function WrappingRun(n: nat, word: Word): (input: seq<byte>)
    requires n >= RunLimit(word)
    ensures |input| == n
  {
    var zeros := RunLimit(word) - 3;
    [0] + Zeros(zeros) + [word - 18 - 255 * zeros] + Zeros(n - zeros - 2)
  }

  lemma {:induction false} ScanZeros(e: Env, ip: nat, t: nat, zeros: nat)
    requires Scannable(e, ip + zeros) && (ip > |e.input| || ip + zeros < |e.input|) && e.Get(ip + zeros) != 0
    requires forall k: nat :: ip <= k < ip + zeros ==> e.Get(k) == 0
    requires t + 255 * zeros + e.Get(ip + zeros) < e.word
    ensures ScanLength(e, ip, t) == Scan(t + 255 * zeros + e.Get(ip + zeros), ip + zeros + 1)
    decreases zeros
  {
    ScanPlain(e, ip, t);
    if zeros > 0 {
      hide ScanLength, At;
      ScanZeros(e, ip + 1, t + 255, zeros - 1);
    }
  }

  /** From its limit on there is an input of every length on which a literal run is stored out of the area. */
  lemma RunWrapsOut(n: nat, past: nat -> byte, cap: nat, word: Word)
    requires RunLimit(word) <= n < word && cap < word - 1
    ensures Decode(Env(true, WrappingRun(n, word), past, cap, word, false)) == Wild
  {
    var e := Env(true, WrappingRun(n, word), past, cap, word, false);
    var zeros := RunLimit(word) - 3;
    assert e.input[0] == 0 && e.input[1 + zeros] == word - 18 - 255 * zeros;
    forall k: nat | 1 <= k < 1 + zeros ensures e.Get(k) == 0 {
      assert e.input[k] == Zeros(zeros)[k - 1];
    }
    ScanZeros(e, 1, 15, zeros);
    WrappedRun(e, zeros + 2);
    hide LiteralRun, ScanLength, RunLimit, WrappingRun;
    assert Begin(e) == Next(State(Outer, 0, []));
    assert Step(e, State(Outer, 0, [])) == LiteralRun(e, word, zeros + 2, []);
    assert Finish(e, Wild) == Wild;
  }

  lemma WrappedRun(e: Env, ip: nat)
    requires e.checks && e.Addressable() && 1 <= ip < |e.input|
    ensures LiteralRun(e, e.word, ip, []) == Wild
  {
    DivModUnique(e.word, e.word, 1, 0);
    DivModUnique(e.word + 1, e.word, 1, 1);
    DivModUnique(|e.input| - ip, e.word, 0, |e.input| - ip);
  }

  /** At `ip` stand the zeros, the byte and the offset that make a match of one byte back two less than the word. */
  ghost predicate MatchWraps(e: Env, ip: nat) {
    var zeros := MatchLimit(e.word) - 4;
    && (forall k: nat :: ip <= k < ip + zeros ==> e.Get(k) == 0)
    && e.Get(ip + zeros) == e.word - 33 - 255 * zeros
    && e.Get(ip + zeros + 1) == 0 && e.Get(ip + zeros + 2) == 0
  }

  /** Such a match is stored out of the area, whatever the build. */
  lemma WrappedMatch(e: Env, ip: nat, out: seq<byte>)
    requires e.checks && e.Addressable() && 1 <= |out| <= e.cap && ip >= 1 && MatchWraps(e, ip)
    requires (var zeros := MatchLimit(e.word) - 4;
              Scannable(e, ip + zeros) && (ip > |e.input| || ip + zeros < |e.input|))
    ensures MatchInstruction(e, 32, ip, out) == Wild
  {
    var zeros := MatchLimit(e.word) - 4;
    ScanZeros(e, ip, 31, zeros);
    assert ScanLength(e, ip, 31) == Scan(e.word - 2, ip + zeros + 1);
    DivModUnique(e.word, e.word, 1, 0);
    assert e.OutputShort(out, e.word) <==> (e.cap - |out|) % e.word < 0;
    hide ScanLength, At, CopyBack, MatchLimit, Less;
    assert ReadHeader(e, 32, ip) == Match(1, e.word, ip + zeros + 3);
  }

  /** A literal, and a match of wrapped length. */
  function WrappingMatch(n: nat, word: Word): (input: seq<byte>)
    requires n >= MatchLimit(word)
    ensures |input| == n
  {
    var zeros := MatchLimit(word) - 4;
    [18, 0, 32] + Zeros(zeros) + [word - 33 - 255 * zeros] + Zeros(n - zeros - 4)
  }

  /** From its limit on there is an input of every length on which a match is stored out of the area. */
  lemma MatchWrapsOut(n: nat, past: nat -> byte, cap: nat, word: Word, wide: bool)
    requires MatchLimit(word) <= n < word && 1 <= cap < word - 1 && past(n) == past(n + 1) == 0
    ensures Decode(Env(true, WrappingMatch(n, word), past, cap, word, wide)) == Wild
  {
    var e := Env(true, WrappingMatch(n, word), past, cap, word, wide);
    WrappingMatchIs(e, n);
    assert ShortLiterals(e, 1, 1, []) == Next(State(AfterShort, 2, [0])) by {
      TestsPlain(e, 1, [], 1);
      TestsPlain(e, 1, [], 2);
      hide Env.OutputShort, Env.InputShort;
      assert Take(e.input, past, 1, 1) == e.input[1..2] == [0];
    }
    WrappedMatch(e, 3, [0]);
    hide ShortLiterals, MatchInstruction, MatchLimit, WrappingMatch, MatchWraps;
    assert Begin(e) == Next(State(AfterShort, 2, [0]));
    assert Step(e, State(AfterShort, 2, [0])) == Wild;
    assert Finish(e, Wild) == Wild;
  }

  lemma WrappingMatchIs(e: Env, n: nat)
    requires MatchLimit(e.word) <= n && e.input == WrappingMatch(n, e.word) && e.past(n) == e.past(n + 1) == 0
    ensures e.input[0] == 18 && e.input[1] == 0 && e.input[2] == 32 && MatchWraps(e, 3)
  {
    var zeros := MatchLimit(e.word) - 4;
    forall k: nat | 3 <= k < 3 + zeros ensures e.Get(k) == 0 {
      assert e.input[k] == Zeros(zeros)[k - 3];
    }
    forall k: nat | 4 + zeros <= k < 6 + zeros ensures e.Get(k) == 0 {
      if k < n {
        assert e.input[k] == Zeros(n - zeros - 4)[k - zeros - 4];
      }
    }
  }

  /** Bytes that are found behind an empty input: a run of four literals, and a match of wrapped length. */
  function Beyond(word: Word): nat -> byte {
    var zeros := MatchLimit(word) - 4;
    k => if k == 0 then 21 else if k == 5 then 32 else if k == 6 + zeros then word - 33 - 255 * zeros else 0
  }

  /** What lies behind an empty input is decoded, given room for four bytes, and may be stored out of the area. */
  lemma EmptyRunsOn(cap: nat, word: Word, wide: bool)
    requires 4 <= cap < word - 1
    ensures Decode(Env(true, [], Beyond(word), cap, word, wide)) == Wild
  {
    var e := Env(true, [], Beyond(word), cap, word, wide);
    var lits := Take([], e.past, 1, 4);
    assert LiteralRun(e, 4, 1, []) == Next(State(AfterRun, 5, lits)) by {
      TestsPlain(e, 0, [], 4);
      EmptyNeedsNothing(e, 1, 5);
      assert [] + lits == lits;
      hide Env.OutputShort, Env.InputShort;
    }
    assert MatchWraps(e, 6) && e.Get(0) == 21 && e.Get(5) == 32;
    WrappedMatch(e, 6, lits);
    hide LiteralRun, MatchInstruction, MatchLimit, Beyond, MatchWraps;
    assert Begin(e) == Next(State(AfterRun, 5, lits));
    assert Step(e, State(AfterRun, 5, lits)) == Wild;
    assert Finish(e, Wild) == Wild;
  }

  /** NEED_IP passes once `ip` is past the end. */
  lemma EmptyNeedsNothing(e: Env, ip: nat, x: nat)
    requires e.input == [] && 1 <= ip && ip + x <= e.word
    ensures !e.InputShort(ip, x)
  {
    var left: int := 0 - ip;
    assert (left + e.word) % e.word == e.word - ip by {
      DivModUnique(e.word - ip, e.word, 0, e.word - ip);
    }
    assert left % e.word == (left + e.word) % e.word;
    DivModUnique(x, e.word, if x == e.word then 1 else 0, if x == e.word then 0 else x);
  }

  /** With less room nothing of it is decoded. */
  lemma EmptyStays(past: nat -> byte, cap: nat, word: Word, wide: bool)
    requires cap < 4
    ensures StaysInside(Env(true, [], past, cap, word, wide))
  {
    var e := Env(true, [], past, cap, word, wide);
    var c := e.Get(0);
    var r := Begin(e);
    if c > 17 {
      TestsPlain(e, 0, [], c - 17);
    }
    hide Env.OutputShort, Env.InputShort;
    if r.Next? {
      assert Step(e, r.st) == Done(EofNotFound, r.st.out);
      assert Finish(e, Step(e, r.st)) == Step(e, r.st);
    }
  }

  /** Every input of `n` bytes, whatever lies behind it, is decoded inside the area. */
  ghost predicate AllStayInside(n: nat, cap: nat, word: Word, wide: bool) {
    forall input: seq<byte>, past: nat -> byte :: |input| == n ==> StaysInside(Env(true, input, past, cap, word, wide))
  }

  /** The exact lengths, for every build: below the limit, and not zero unless there is hardly any room. */
  lemma AreaExactly(n: nat, cap: nat, word: Word, wide: bool)
    requires n < word && cap < word - 1
    ensures AllStayInside(n, cap, word, wide) <==> Limited(n, cap, word, wide) && (n > 0 || cap < 4)
  {
    hide RunLimit, MatchLimit, StaysInside, WrappingRun, WrappingMatch;
    var past: nat -> byte := _ => 0;
    if !Limited(n, cap, word, wide) {
      if wide {
        MatchWrapsOut(n, past, cap, word, wide);
        WildOutside(Env(true, WrappingMatch(n, word), past, cap, word, wide));
      } else {
        RunWrapsOut(n, past, cap, word);
        WildOutside(Env(true, WrappingRun(n, word), past, cap, word, wide));
      }
    } else if n == 0 && cap >= 4 {
      EmptyRunsOn(cap, word, wide);
      WildOutside(Env(true, [], Beyond(word), cap, word, wide));
    } else {
      forall input: seq<byte>, past: nat -> byte | |input| == n
        ensures StaysInside(Env(true, input, past, cap, word, wide))
      {
        if n == 0 {
          EmptyStays(past, cap, word, wide);
          assert input == [];
        } else {
          SafeWithinArea(Env(true, input, past, cap, word, wide));
        }
      }
    }
  }

  lemma WildOutside(e: Env)
    requires Decode(e) == Wild
    ensures !StaysInside(e)
  {
  }
}
