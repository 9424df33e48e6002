/**
 * lzo1x_decompress and lzo1x_decompress_safe over one flat memory. Input and output are two
 * regions of the same array, so that decoding in place is only a choice of regions.
 */
module Lzo1xDecompress {
  import opened Bytes
  import opened Lz77
  import opened Lzo1xDecoder
  import Lzo1xProgram
  import opened Lzo1xRoundTrip
  import opened Lzo1xSafe

  /**
   * A call's arguments and its build: with or without checks, the word, and how many bytes a copy may move
   * at once. `past` are the bytes found behind the input.
   */
  datatype Job = Job(checks: bool, word: Word, unit: nat, past: nat -> byte, inp: nat, len: nat, outp: nat, cap: nat)
  {
    ghost predicate Within(mem: array<byte>) {
      inp + len <= mem.Length && outp + cap <= mem.Length
    }

    /** The regions are in memory, and their lengths are words. */
    ghost predicate Legal(mem: array<byte>) {
      Within(mem) && len < word && cap < word - 1 && (unit == 1 || unit == 4 || unit == 8)
    }

    ghost predicate Disjoint() {
      inp + len <= outp || outp + cap <= inp
    }

    ghost function Env(mem: array<byte>): Env
      requires Within(mem)
      reads mem
    {
      Lzo1xDecoder.Env(checks, mem[inp..inp + len], past, cap, word, unit == 8)
    }

    /** How far the output starts below the input. */
    ghost function Distance(): int {
      inp - outp
    }

    /** The checked build on an input below the limit: enough to stay inside the output area. */
    ghost predicate Guarded() {
      checks && 1 <= len && Limited(len, cap, word, unit == 8)
    }

    /** The output so far `out` is in place, and the input is intact from `ip` on. */
    ghost predicate Holds(mem: array<byte>, e: Env, ip: nat, out: seq<byte>)
      reads mem
    {
      && Within(mem) && e == Lzo1xDecoder.Env(checks, e.input, past, cap, word, unit == 8)
      && |e.input| == len
      && Output(mem, out)
      && Intact(mem, e, Low(ip))
    }

    ghost predicate Output(mem: array<byte>, out: seq<byte>)
      reads mem
    {
      Within(mem) && |out| <= cap && forall k :: 0 <= k < |out| ==> mem[outp + k] == out[k]
    }

    ghost predicate Intact(mem: array<byte>, e: Env, low: nat)
      requires Within(mem) && |e.input| == len
      reads mem
    {
      forall k :: low <= k < len ==> mem[inp + k] == e.input[k]
    }

    /** The first input byte that the output can no longer reach. */
    ghost function Low(ip: nat): nat {
      if Disjoint() then 0 else ip
    }

    /** `n` more bytes may be written while the input from `ip` on is still needed. */
    ghost predicate Apart(out: seq<byte>, n: nat, ip: int) {
      |out| + n <= cap && (Disjoint() || |out| + n <= Distance() + ip)
    }

    /**
     * The state at an instruction. `ok` says that the regions do not interfere; without it nothing is
     * known about the bytes, and only the output index is kept inside its area.
     */
    ghost predicate Live(mem: array<byte>, ok: bool, ip: nat, op: nat, e: Env, out: seq<byte>)
      reads mem
    {
      && Legal(mem) && op <= cap
      && if ok then op == |out| && Holds(mem, e, ip, out) else Guarded() && (ip >= 2 || op == 0)
    }

    function Fetch(mem: array<byte>, k: nat): byte
      requires inp + len <= mem.Length
      reads mem
    {
      if k < len then mem[inp + k] else past(k)
    }
  }

  /** Only the output region changes. */
  twostate predicate Framed(mem: array<byte>, j: Job)
    reads mem
  {
    forall k :: 0 <= k < mem.Length && !(j.outp <= k < j.outp + j.cap) ==> mem[k] == old(mem[k])
  }

  // ------------------------------------------------------------------------- copies

  /** Literals `i` to `i + w` of a run: all are loaded before one is stored. */
  method CopyUnit(mem: array<byte>, j: Job, ghost ok: bool, w: nat, i: nat, ip: nat, op: nat, n: nat, ghost e: Env,
          ghost out: seq<byte>, ghost lits: seq<byte>)
    requires j.Legal(mem) && op + n <= j.cap && i + w <= n
    requires ok ==> |out| == op && j.Apart(out, n, ip + n) && |lits| == n && j.Holds(mem, e, ip + i, out + lits[..i])
    requires ok ==> forall k :: 0 <= k < n ==> lits[k] == e.Get(ip + k)
    modifies mem
    ensures Framed(mem, j)
    ensures ok ==> j.Holds(mem, e, ip + i + w, out + lits[..i + w])
  {
    var base := j.outp + op + i;
    forall k | 0 <= k < w {
      mem[base + k] := j.Fetch(mem, ip + i + k);
    }
    if ok {
      ghost var now := out + lits[..i + w];
      forall k | 0 <= k < |now| ensures mem[j.outp + k] == now[k] {
        if k >= op + i {
          assert mem[base + (k - op - i)] == old(j.Fetch(mem, ip + i + (k - op - i))) == lits[k - op];
        } else {
          assert now[k] == (out + lits[..i])[k];
        }
      }
    }
  }

  /** Literals, `w` bytes at a time. */
  method CopyUnits(mem: array<byte>, j: Job, ghost ok: bool, w: nat, i0: nat, ip: nat, op: nat, n: nat, ghost e: Env,
          ghost out: seq<byte>) returns (i: nat)
    requires j.Legal(mem) && op + n <= j.cap && i0 <= n && 1 <= w <= 8
    requires ok ==> |out| == op && j.Apart(out, n, ip + n)
    requires ok ==> j.Holds(mem, e, ip + i0, out + Take(e.input, e.past, ip, n)[..i0])
    modifies mem
    ensures i0 <= i <= n < i + w && Framed(mem, j)
    ensures ok ==> j.Holds(mem, e, ip + i, out + Take(e.input, e.past, ip, n)[..i])
  {
    hide Take;
    ghost var lits := Take(e.input, e.past, ip, n);
    i := i0;
    while n - i >= w
      invariant i0 <= i <= n
      invariant ok ==> j.Holds(mem, e, ip + i, out + lits[..i])
      invariant Framed(mem, j)
    {
      CopyUnit(mem, j, ok, w, i, ip, op, n, e, out, lits);
      i := i + w;
    }
  }

  /** The literals of a run, in units of eight, four and one bytes, whichever the build has. */
  method CopyLiterals(mem: array<byte>, j: Job, ghost ok: bool, unit: nat, ip: nat, op: nat, n: nat, ghost e: Env,
          ghost out: seq<byte>)
    requires j.Legal(mem) && op + n <= j.cap
    requires ok ==> |out| == op && j.Holds(mem, e, ip, out) && j.Apart(out, n, ip + n)
    modifies mem
    ensures Framed(mem, j)
    ensures ok ==> j.Holds(mem, e, ip + n, out + Take(e.input, e.past, ip, n))
  {
    hide Take;
    ghost var lits := Take(e.input, e.past, ip, n);
    assert out + lits[..0] == out;
    var i := 0;
    if unit == 8 {
      i := CopyUnits(mem, j, ok, 8, i, ip, op, n, e, out);
    }
    if unit >= 4 {
      i := CopyUnits(mem, j, ok, 4, i, ip, op, n, e, out);
    }
    i := CopyUnits(mem, j, ok, 1, i, ip, op, n, e, out);
    assert lits[..n] == lits;
  }

  /** Load `w` bytes, then store them. */
  method MoveUnit(mem: array<byte>, src: nat, dst: nat, w: nat)
    requires src + w <= mem.Length && dst + w <= mem.Length
    modifies mem
    ensures forall k :: dst <= k < dst + w ==> mem[k] == old(mem[k - dst + src])
    ensures forall k :: 0 <= k < mem.Length && !(dst <= k < dst + w) ==> mem[k] == old(mem[k])
  {
    forall i | 0 <= i < w {
      mem[dst + i] := mem[src + i];
    }
  }

  /** Bytes `i` to `i + w` of a copy from `off` back: all are loaded before one is stored. */
  method CopyBackUnit(mem: array<byte>, j: Job, ghost ok: bool, w: nat, i: nat, op: nat, off: nat, n: nat,
          ghost keep: nat, ghost e: Env, ghost out: seq<byte>)
    requires j.Legal(mem) && 1 <= w <= off <= op && op + n <= j.cap && i + w <= n
    requires ok ==> |out| == op && j.Apart(out, n, keep) && j.Holds(mem, e, keep, CopyBack(out, off, i))
    modifies mem
    ensures Framed(mem, j)
    ensures ok ==> j.Holds(mem, e, keep, CopyBack(out, off, i + w))
  {
    hide CopyBack;
    var base := j.outp + op + i;
    MoveUnit(mem, base - off, base, w);
    if ok {
      CopyBackSplit(out, off, i, w);
      CopyBackWide(CopyBack(out, off, i), off, w);
      assert j.Intact(mem, e, j.Low(keep));
      ghost var was := CopyBack(out, off, i);
      forall k | base <= k < base + w ensures mem[k] == mem[k - off] {
        assert mem[k] == old(mem[k - off]);
      }
      forall k | 0 <= k < |was| ensures mem[j.outp + k] == was[k] {
        assert mem[j.outp + k] == old(mem[j.outp + k]);
      }
      UnitCopied(mem, j.outp, was, off, w);
    }
  }

  /** Bytes moved from `off` back continue what was there. */
  lemma UnitCopied(mem: array<byte>, at: nat, was: seq<byte>, off: nat, w: nat)
    requires w <= off <= |was| && at + |was| + w <= mem.Length
    requires forall k :: 0 <= k < |was| ==> mem[at + k] == was[k]
    requires forall k :: at + |was| <= k < at + |was| + w ==> mem[k] == mem[k - off]
    ensures (var now := was + was[|was| - off..|was| - off + w]; forall k :: 0 <= k < |now| ==> mem[at + k] == now[k])
  {
    var now := was + was[|was| - off..|was| - off + w];
    forall k | 0 <= k < |now| ensures mem[at + k] == now[k] {
      if k >= |was| {
        assert mem[at + k] == mem[at + k - off] == mem[at + (k - off)] == was[k - off];
      }
    }
  }

  /** Bytes from `off` back, `w` at a time, where `w` bytes fit between the source and the copy. */
  method CopyBackUnits(mem: array<byte>, j: Job, ghost ok: bool, w: nat, i0: nat, op: nat, off: nat, n: nat,
          ghost keep: nat, ghost e: Env, ghost out: seq<byte>) returns (i: nat)
    requires j.Legal(mem) && 1 <= w <= off <= op && op + n <= j.cap && i0 <= n
    requires ok ==> |out| == op && j.Holds(mem, e, keep, CopyBack(out, off, i0)) && (n > 0 ==> j.Apart(out, n, keep))
    modifies mem
    ensures i0 <= i <= n < i + w && Framed(mem, j)
    ensures ok ==> j.Holds(mem, e, keep, CopyBack(out, off, i))
  {
    hide CopyBack;
    i := i0;
    while n - i >= w
      invariant i0 <= i <= n
      invariant ok ==> j.Holds(mem, e, keep, CopyBack(out, off, i))
      invariant Framed(mem, j)
    {
      CopyBackUnit(mem, j, ok, w, i, op, off, n, keep, e, out);
      i := i + w;
    }
  }

  /** How many bytes at once a match from M3 or M4 is copied; the shorter forms go byte by byte. */
  function MatchUnit(unit: nat, long: bool, off: nat, len: nat): (w: nat)
    requires off >= 1
    ensures w == 1 || w == 4 || w == 8
    ensures w <= off
  {
    if long && unit == 8 && off >= 8 then 8
    else if long && unit == 4 && off >= 4 && len >= 8 then 4
    else 1
  }

  /** The bytes of a match. */
  method CopyBytes(mem: array<byte>, j: Job, ghost ok: bool, unit: nat, op: nat, off: nat, n: nat, ghost ip: nat,
          ghost keep: nat, ghost e: Env, ghost out: seq<byte>)
    requires j.Legal(mem) && 1 <= off <= op && op + n <= j.cap && unit <= off
    requires ok ==> |out| == op && j.Holds(mem, e, ip, out) && ip <= keep && (n > 0 ==> j.Apart(out, n, keep))
    modifies mem
    ensures Framed(mem, j)
    ensures ok ==> j.Holds(mem, e, keep, CopyBack(out, off, n))
  {
    hide CopyBack;
    if ok {
      CopyBackNothing(out, off);
    }
    var i := 0;
    if unit == 8 {
      i := CopyBackUnits(mem, j, ok, 8, i, op, off, n, keep, e, out);
    }
    if unit >= 4 {
      i := CopyBackUnits(mem, j, ok, 4, i, op, off, n, keep, e, out);
    }
    i := CopyBackUnits(mem, j, ok, 1, i, op, off, n, keep, e, out);
  }

  // ------------------------------------------------------------------------- fields

  /** `while (*ip == 0) { t += 255; ip++; NEED_IP(1) } t += *ip++`, on what is in memory now. */
  method Lengthen(mem: array<byte>, j: Job, start: nat, t0: nat) returns (r: Scan)
    requires j.Within(mem) && ScanLength(j.Env(mem), start, t0) != ScanWild
    ensures r == ScanLength(j.Env(mem), start, t0)
  {
    hide ScanLength;
    ghost var now := j.Env(mem);
    var ip: nat, t: nat := start, t0;
    while !(j.checks && ip == j.len) && j.Fetch(mem, ip) == 0
      invariant start <= ip && ScanLength(now, start, t0) == ScanLength(now, ip, t)
      decreases (if j.len < j.word then j.word else j.len) - ip
    {
      assert now.Get(ip) == j.Fetch(mem, ip);
      ScanTurn(now, ip, t);
      t := (t + 255) % j.word;
      ip := ip + 1;
    }
    ScanTurn(now, ip, t);
    if j.checks && ip == j.len {
      return ScanShort;
    }
    assert now.Get(ip) == j.Fetch(mem, ip);
    return Scan((t + j.Fetch(mem, ip)) % j.word, ip + 1);
  }

  /** A marker of 32 to 63: an extended length, a 14-bit offset. */
  method NearFields(mem: array<byte>, j: Job, t: byte, ip: nat) returns (h: Header)
    requires 32 <= t < 64 && j.Within(mem) && ReadHeader(j.Env(mem), t, ip) != WildRead
    ensures h == ReadHeader(j.Env(mem), t, ip)
  {
    hide ScanLength;
    var r := Scan(t % 32, ip);
    if t % 32 == 0 {
      r := Lengthen(mem, j, ip, 31);
    }
    if r.ScanShort? {
      return ShortInput;
    }
    var p := r.ip;
    var off := 1 + j.Fetch(mem, p) / 4 + 64 * j.Fetch(mem, p + 1);
    return Match(off, MatchCount(r.t, off, j.word, j.unit == 8), p + 2);
  }

  lemma FarScan(e: Env, t: byte, ip: nat)
    requires 16 <= t < 32
    ensures ReadHeader(e, t, ip) == FarHeader(e, t, if t % 8 == 0 then ScanLength(e, ip, 7) else Scan(t % 8, ip))
  {
    hide ScanLength, FarHeader;
  }

  /** A marker of 16 to 31: an extended length, an offset beyond 16384, or the end. */
  method FarFields(mem: array<byte>, j: Job, t: byte, ip: nat) returns (h: Header)
    requires 16 <= t < 32 && j.Within(mem) && ReadHeader(j.Env(mem), t, ip) != WildRead
    ensures h == ReadHeader(j.Env(mem), t, ip)
  {
    hide ScanLength, MatchCount, ReadHeader;
    FarScan(j.Env(mem), t, ip);
    var r := Scan(t % 8, ip);
    if t % 8 == 0 {
      r := Lengthen(mem, j, ip, 7);
    }
    if r.ScanShort? {
      return ShortInput;
    }
    var p := r.ip;
    var d := 0x4000 * (t / 8 % 2) + j.Fetch(mem, p) / 4 + 64 * j.Fetch(mem, p + 1);
    if d == 0 {
      return Eof(p + 2);
    }
    return Match(d + 0x4000, MatchCount(r.t, d + 0x4000, j.word, j.unit == 8), p + 2);
  }

  /** The match labels: the length and offset fields behind a marker, as they are in memory. */
  method Fields(mem: array<byte>, j: Job, t: byte, ip: nat) returns (h: Header)
    requires t >= 16 && j.Within(mem) && ReadHeader(j.Env(mem), t, ip) != WildRead
    ensures h == ReadHeader(j.Env(mem), t, ip)
  {
    if t >= 64 {
      h := Match(1 + t / 4 % 8 + 8 * j.Fetch(mem, ip), t / 32 + 1, ip + 1);
    } else if t >= 32 {
      h := NearFields(mem, j, t, ip);
    } else {
      h := FarFields(mem, j, t, ip);
    }
  }

  /** Two inputs that agree from `ip` on. */
  ghost predicate Alike(e: Env, f: Env, ip: nat) {
    && |e.input| == |f.input| && e.checks == f.checks && e.past == f.past && e.word == f.word && e.wide == f.wide
    && forall k :: ip <= k < |e.input| ==> e.input[k] == f.input[k]
  }

  lemma {:induction false} ScanAlike(e: Env, f: Env, ip: nat, t: nat)
    requires Alike(e, f, ip)
    ensures ScanLength(e, ip, t) == ScanLength(f, ip, t)
    decreases (if |e.input| < e.word then e.word else |e.input|) - ip
  {
    if Scannable(e, ip) {
      GetAlike(e, f, ip, ip);
      if e.Get(ip) == 0 {
        ScanAlike(e, f, ip + 1, (t + 255) % e.word);
      }
    }
  }

  lemma HeaderAlike(e: Env, f: Env, t: byte, ip: nat)
    requires t >= 16 && Alike(e, f, ip)
    ensures ReadHeader(e, t, ip) == ReadHeader(f, t, ip)
  {
    hide ScanLength, MatchCount, At;
    ScanAlike(e, f, ip, if t >= 32 then 31 else 7);
    forall k | k >= ip ensures e.Get(k) == f.Get(k) {
      GetAlike(e, f, ip, k);
    }
  }

  lemma GetAlike(e: Env, f: Env, ip: nat, k: nat)
    requires Alike(e, f, ip) && k >= ip
    ensures e.Get(k) == f.Get(k)
  {
  }

  lemma HoldsAlike(mem: array<byte>, j: Job, e: Env, ip: nat, out: seq<byte>, k: nat)
    requires j.Holds(mem, e, ip, out) && ip <= k
    ensures Alike(e, j.Env(mem), k)
  {
  }

  // ------------------------------------------------------------------- instructions

  /** What the code holds in registers after an instruction. */
  datatype Regs = Going(mode: Mode, ip: nat, op: nat) | Stopped(status: Status, op: nat)

  /** Registers and memory agree with an outcome of the reference decoder. */
  ghost predicate Agrees(mem: array<byte>, j: Job, e: Env, r: Regs, o: Outcome)
    reads mem
  {
    match r
    case Going(mode, ip, op) => o.Next? && o.st.mode == mode && o.st.ip == ip && |o.st.out| == op
        && j.Holds(mem, e, ip, o.st.out)
    case Stopped(status, op) => o.Done? && o.status == status && op == |o.out| && j.Output(mem, o.out)
  }

  /** Where a guarded decoder can stand: a match has something to look back at, or nothing to copy. */
  ghost predicate Placed(j: Job, r: Regs) {
    r.Going? ==> (r.ip >= 2 || r == Going(Outer, 0, 0)) && (r.mode == AfterRun ==> r.ip < j.len)
  }

  /** The registers make progress and stay inside the output area; with `ok` they agree with `o`. */
  ghost predicate Reached(mem: array<byte>, j: Job, ok: bool, from: nat, e: Env, r: Regs, o: Outcome)
    reads mem
  {
    r.op <= j.cap && (r.Going? ==> r.ip >= from) && if ok then Agrees(mem, j, e, r, o) else Placed(j, r)
  }

  /** When one memory region serves both, an instruction at `from` must leave the unread input alone. */
  ghost predicate Harmless(j: Job, from: nat, out: seq<byte>, o: Outcome) {
    match o
    case Wild => false
    case Next(st) => |st.out| <= j.cap && (j.Disjoint() || |st.out| + 2 <= j.Distance() + st.ip)
    case Done(status, done) => |done| <= j.cap && (j.Disjoint() || done == out || |done| <= j.Distance() + from)
  }

  /** match_next: the one to three literals announced by a match. */
  method ShortRun(mem: array<byte>, j: Job, ghost ok: bool, s: nat, ip: nat, op: nat, ghost from: nat, ghost e: Env,
          ghost out: seq<byte>) returns (r: Regs)
    requires s < 4 && from <= ip && j.Live(mem, ok, from, op, e, out)
    requires if ok then Harmless(j, from, out, ShortLiterals(e, s, ip, out)) else ip >= 2 || (ip == 1 && s >= 1)
    modifies mem
    ensures Reached(mem, j, ok, ip, e, r, ShortLiterals(e, s, ip, out)) && Framed(mem, j)
    ensures r.Going? ==> r.mode != AfterRun
  {
    if s == 0 {
      return Going(Outer, ip, op);
    }
    if j.checks && Less(j.cap - op, s, j.word) {
      return Stopped(OutputOverrun, op);
    }
    if j.checks && Less(j.len - ip, s + 1, j.word) {
      return Stopped(InputOverrun, op);
    }
    LessPlain(j.cap - op, s, j.word);
    hide Less, Take;
    CopyLiterals(mem, j, ok, 1, ip, op, s, e, out);
    return Going(AfterShort, ip + s, op + s);
  }

  /** A match that passes the tests may be copied, and so may its literals. */
  lemma MatchHarmless(j: Job, e: Env, off: nat, len: nat, ip: nat, from: nat, out: seq<byte>)
    requires off >= 1 && ip >= 2 && from <= ip - 2
    requires Harmless(j, from, out, CopyMatch(e, off, len, ip, out))
    requires (e.checks ==> off <= |out|) && !e.OutputShort(out, len)
    ensures off <= |out| && |out| + len <= j.cap && (len > 0 ==> j.Apart(out, len, ip - 2))
    ensures (var s, copied := e.Get(ip - 2) % 4, CopyBack(out, off, len);
             && CopyMatch(e, off, len, ip, out) == ShortLiterals(e, s, ip, copied)
             && Harmless(j, ip - 2, copied, ShortLiterals(e, s, ip, copied)))
  {
    hide CopyBack, Take, Less;
    if off <= |out| && len == 0 {
      CopyBackNothing(out, off);
    }
  }

  /** copy_match and match_done: TEST_LB, NEED_OP, the copy, then the late read of `ip[-2]`. */
  method MatchCopy(mem: array<byte>, j: Job, ghost ok: bool, long: bool, off: nat, len: nat, ip: nat, op: nat,
          ghost from: nat, ghost e: Env, ghost out: seq<byte>)
    returns (r: Regs)
    requires off >= 1 && ip >= 2 && from <= ip - 2 && j.Live(mem, ok, from, op, e, out)
    requires if ok then Harmless(j, from, out, CopyMatch(e, off, len, ip, out)) else off <= op ==> len < j.word
    modifies mem
    ensures Reached(mem, j, ok, ip, e, r, CopyMatch(e, off, len, ip, out)) && Framed(mem, j)
    ensures r.Going? ==> r.mode != AfterRun
  {
    hide CopyBack, Take;
    if j.checks && off > op {
      return Stopped(LookbehindOverrun, op);
    }
    if j.checks && Less(j.cap - op, len, j.word) {
      return Stopped(OutputOverrun, op);
    }
    if ok {
      MatchHarmless(j, e, off, len, ip, from, out);
    } else {
      LessPlain(j.cap - op, len, j.word);
    }
    hide Less, CopyMatch, ShortLiterals;
    CopyBytes(mem, j, ok, MatchUnit(j.unit, long, off, len), op, off, len, from, ip - 2, e, out);
    var s := j.Fetch(mem, ip - 2) % 4;
    r := ShortRun(mem, j, ok, s, ip, op + len, ip - 2, e, if ok then CopyBack(out, off, len) else []);
  }

  /** The match label, with the marker `t` already read. */
  method MatchAt(mem: array<byte>, j: Job, ghost ok: bool, t: byte, ip: nat, op: nat, ghost e: Env,
          ghost out: seq<byte>) returns (r: Regs)
    requires t >= 16 && ip >= 1 && j.Live(mem, ok, ip - 1, op, e, out)
    requires if ok then Harmless(j, ip - 1, out, MatchInstruction(e, t, ip, out)) else ip <= j.len
    modifies mem
    ensures Reached(mem, j, ok, ip, e, r, MatchInstruction(e, t, ip, out)) && Framed(mem, j)
    ensures r.Going? ==> r.mode != AfterRun
  {
    hide ReadHeader, CopyMatch, RunLimit, MatchLimit;
    if ok {
      HoldsAlike(mem, j, e, ip - 1, out, ip);
      HeaderAlike(e, j.Env(mem), t, ip);
    } else if op > 0 {
      HeaderInside(j.Env(mem), t, ip);
    }
    var h := Fields(mem, j, t, ip);
    match h
    case ShortInput =>
      r := Stopped(InputOverrun, op);
    case Eof(p) =>
      r := Stopped(if p == j.len then Ok else if p < j.len then InputNotConsumed else InputOverrun, op);
    case Match(off, len, p) =>
      r := MatchCopy(mem, j, ok, t < 64, off, len, p, op, ip - 1, e, out);
  }

  /** The tests before a literal run leave room for it, and a byte behind it. */
  lemma RunFits(j: Job, n: nat, ip: nat, op: nat)
    requires j.cap < j.word - 1 && op <= j.cap && ip <= j.len < j.word
    requires n < j.word || (ip == j.len && (n + 1) % j.word > 0)
    requires !Less(j.cap - op, n, j.word) && !Less(j.len - ip, n + 1, j.word)
    ensures op + n <= j.cap && ip + n < j.len
  {
    if n < j.word {
      LessPlain(j.cap - op, n, j.word);
      hide Less;
      if n + 1 < j.word {
        LessPlain(j.len - ip, n + 1, j.word);
      }
    } else {
      DivModUnique(0, j.word, 0, 0);
    }
  }

  /** A literal run: NEED_OP, NEED_IP, the copy. */
  method RunAt(mem: array<byte>, j: Job, ghost ok: bool, unit: nat, n: nat, ip: nat, op: nat, ghost from: nat,
          ghost e: Env, ghost out: seq<byte>) returns (r: Regs)
    requires 1 <= ip && from <= ip && ip + n >= 2 && j.Live(mem, ok, from, op, e, out)
    requires if ok then Harmless(j, from, out, LiteralRun(e, n, ip, out))
             else ip <= j.len && (n < j.word || (ip == j.len && (n + 1) % j.word > 0))
    modifies mem
    ensures Reached(mem, j, ok, ip, e, r, LiteralRun(e, n, ip, out)) && Framed(mem, j)
  {
    if j.checks && Less(j.cap - op, n, j.word) {
      return Stopped(OutputOverrun, op);
    }
    if j.checks && Less(j.len - ip, n + 1, j.word) {
      return Stopped(InputOverrun, op);
    }
    if !ok {
      RunFits(j, n, ip, op);
    }
    hide Less, Take;
    CopyLiterals(mem, j, ok, unit, ip, op, n, e, out);
    return Going(AfterRun, ip + n, op + n);
  }

  /** The top of the outer loop. */
  method OuterTurn(mem: array<byte>, j: Job, ghost ok: bool, ip: nat, op: nat, ghost e: Env, ghost out: seq<byte>)
    returns (r: Regs)
    requires j.Live(mem, ok, ip, op, e, out)
    requires ok ==> Harmless(j, ip, out, OuterStep(e, ip, out))
    modifies mem
    ensures Reached(mem, j, ok, ip + 1, e, r, OuterStep(e, ip, out)) && Framed(mem, j)
    ensures r.Going? ==> ip < j.len
  {
    hide MatchInstruction, LiteralRun, ScanLength, Limit, RunCount;
    if j.checks && ip >= j.len {
      return Stopped(EofNotFound, op);
    }
    var t := j.Fetch(mem, ip);
    if t >= 16 {
      r := MatchAt(mem, j, ok, t, ip + 1, op, e, out);
      return;
    }
    var l := Scan(t, ip + 1);
    if t == 0 {
      l := RunLength(mem, j, ok, ip, op, e, out);
    }
    if l.ScanShort? {
      return Stopped(InputOverrun, op);
    }
    if t > 0 {
      CountsPlain(t, 1, j.word, j.unit == 8);
    }
    r := RunAt(mem, j, ok, j.unit, RunCount(l.t, j.word, j.unit == 8), l.ip, op, ip, e, out);
  }

  /** The extended length of a literal run. */
  method RunLength(mem: array<byte>, j: Job, ghost ok: bool, ip: nat, op: nat, ghost e: Env, ghost out: seq<byte>)
    returns (l: Scan)
    requires j.Live(mem, ok, ip, op, e, out)
    requires if ok then ScanLength(e, ip + 1, 15) != ScanWild else ip < j.len
    ensures l != ScanWild && (ok ==> l == ScanLength(e, ip + 1, 15))
    ensures l.Scan? ==> ip + 1 < l.ip
    ensures !ok && l.Scan? ==> (var n := RunCount(l.t, j.word, j.unit == 8);
                                ip + 1 < l.ip <= j.len && (n < j.word || (l.ip == j.len && (n + 1) % j.word > 0)))
  {
    hide ScanLength, Limit;
    if ok {
      HoldsAlike(mem, j, e, ip, out, ip + 1);
      ScanAlike(e, j.Env(mem), ip + 1, 15);
    } else if ScanLength(j.Env(mem), ip + 1, 15).Scan? {
      LengthFits(j.Env(mem), ip + 1);
    }
    l := Lengthen(mem, j, ip + 1, 15);
  }

  /** first_literal_run. */
  method AfterRunTurn(mem: array<byte>, j: Job, ghost ok: bool, ip: nat, op: nat, ghost e: Env, ghost out: seq<byte>)
    returns (r: Regs)
    requires j.Live(mem, ok, ip, op, e, out)
    requires if ok then Harmless(j, ip, out, AfterRunStep(e, ip, out)) else ip < j.len
    modifies mem
    ensures Reached(mem, j, ok, ip + 1, e, r, AfterRunStep(e, ip, out)) && Framed(mem, j)
    ensures r.Going? ==> r.mode != AfterRun
  {
    hide MatchInstruction, CopyMatch;
    var t := j.Fetch(mem, ip);
    if t >= 16 {
      r := MatchAt(mem, j, ok, t, ip + 1, op, e, out);
    } else {
      var off := 1 + M2_MAX_OFFSET + t / 4 + 4 * j.Fetch(mem, ip + 1);
      r := MatchCopy(mem, j, ok, false, off, 3, ip + 2, op, ip, e, out);
    }
  }

  /** The inner loop behind short literals. */
  method AfterShortTurn(mem: array<byte>, j: Job, ghost ok: bool, ip: nat, op: nat, ghost e: Env, ghost out: seq<byte>)
    returns (r: Regs)
    requires j.Live(mem, ok, ip, op, e, out)
    requires ok ==> Harmless(j, ip, out, AfterShortStep(e, ip, out))
    modifies mem
    ensures Reached(mem, j, ok, ip + 1, e, r, AfterShortStep(e, ip, out)) && Framed(mem, j)
    ensures r.Going? ==> ip < j.len
  {
    hide MatchInstruction, CopyMatch;
    var t := j.Fetch(mem, ip);
    if j.checks && ip + 1 >= j.len {
      return Stopped(EofNotFound, op);
    }
    if t >= 16 {
      r := MatchAt(mem, j, ok, t, ip + 1, op, e, out);
    } else {
      r := MatchCopy(mem, j, ok, false, 1 + t / 4 + 4 * j.Fetch(mem, ip + 1), 2, ip + 2, op, ip, e, out);
    }
  }

  /** The first byte. */
  method First(mem: array<byte>, j: Job, ghost ok: bool, ghost e: Env) returns (r: Regs)
    requires j.Live(mem, ok, 0, 0, e, [])
    requires ok ==> Harmless(j, 0, [], Begin(e))
    modifies mem
    ensures Reached(mem, j, ok, 0, e, r, Begin(e)) && Framed(mem, j)
  {
    hide Limit;
    var c := j.Fetch(mem, 0);
    if c <= 17 {
      return Going(Outer, 0, 0);
    }
    if c - 17 < 4 {
      r := ShortRun(mem, j, ok, c - 17, 1, 0, 0, e, []);
    } else {
      r := RunAt(mem, j, ok, 1, c - 17, 1, 0, 0, e, []);
    }
  }

  // ----------------------------------------------------------------------- the call

  /**
   * The reference run ends in an output that fits, and the regions do not interfere: they are separate, or
   * the run stays clear.
   */
  ghost predicate Sound(j: Job, e: Env) {
    && Decode(e).Done? && |Decode(e).out| <= j.cap
    && (j.Disjoint() || Clear(e, j.Distance(), Begin(e)))
  }

  lemma {:induction false} FinishGrows(e: Env, o: Outcome)
    requires o.Next?
    ensures Grows(e, o.st.out, Finish(e, o))
    decreases if o.st.ip < |e.input| then |e.input| - o.st.ip else 0, o.st.mode == AfterRun
  {
    hide Step;
    var p := Step(e, o.st);
    if p.Next? {
      FinishGrows(e, p);
    }
  }

  /** Sound arguments stay sound along the run. */
  lemma StepKept(j: Job, e: Env, st: State)
    requires Sound(j, e) && Finish(e, Step(e, st)) == Decode(e)
    requires j.Disjoint() || Clear(e, j.Distance(), Next(st))
    ensures Harmless(j, st.ip, st.out, Step(e, st))
  {
    hide Step;
    var o := Step(e, st);
    if o.Next? {
      FinishGrows(e, o);
    }
  }

  /** The first byte alone writes nothing that is not clear. */
  lemma BeginKept(j: Job, e: Env)
    requires Sound(j, e)
    ensures Harmless(j, 0, [], Begin(e))
  {
    var o := Begin(e);
    if o.Next? {
      hide Begin;
      FinishGrows(e, o);
    }
  }

  /** On separate regions a guarded call is sound, whatever its input. */
  lemma GuardedSound(mem: array<byte>, j: Job)
    requires j.Legal(mem) && j.Guarded() && j.Disjoint()
    ensures Sound(j, j.Env(mem))
  {
    hide Decode;
    SafeWithinArea(j.Env(mem));
  }

  /**
   * Decompress the input region of `mem` into its output region. Whatever the input below the limit and
   * however the regions lie, the checked build writes nothing outside the output area; when they do not
   * interfere, both builds compute exactly what the reference decoder does, errors included.
   */
  method Decompress(mem: array<byte>, j: Job) returns (status: Status, outLen: nat)
    requires j.Legal(mem) && (j.Guarded() || Sound(j, j.Env(mem)))
    modifies mem
    ensures outLen <= j.cap && Framed(mem, j)
    ensures old(Sound(j, j.Env(mem))) ==> Decode(old(j.Env(mem))) == Done(status, mem[j.outp..j.outp + outLen])
    ensures old(Sound(j, j.Env(mem)) && Lzo1xProgram.Exact(j.Env(mem))) ==>
              (status == Ok <==>
               Lzo1xProgram.Spells(old(mem[j.inp..j.inp + j.len]), mem[j.outp..j.outp + outLen]))
  {
    hide OuterStep, AfterRunStep, AfterShortStep, Begin, Limit, Lzo1xProgram.Spells;
    ghost var e := j.Env(mem);
    ghost var ok := Sound(j, e);
    ghost var o := Begin(e);
    ghost var target := Decode(e);
    if ok {
      BeginKept(j, e);
    }
    var r := First(mem, j, ok, e);
    while r.Going?
      invariant r.op <= j.cap && Framed(mem, j)
      invariant if ok then Agrees(mem, j, e, r, o) && Finish(e, o) == target else Placed(j, r)
      invariant ok ==> j.Disjoint() || Clear(e, j.Distance(), o)
      decreases if r.Going? && r.ip < j.len then j.len - r.ip else 0, r.Going? && r.mode == AfterRun, r.Going?
    {
      ghost var out := if ok then o.st.out else [];
      ghost var p := Step(e, State(r.mode, r.ip, out));
      if ok {
        StepKept(j, e, o.st);
      }
      match r.mode {
        case Outer => r := OuterTurn(mem, j, ok, r.ip, r.op, e, out);
        case AfterRun => r := AfterRunTurn(mem, j, ok, r.ip, r.op, e, out);
        case AfterShort => r := AfterShortTurn(mem, j, ok, r.ip, r.op, e, out);
      }
      o := p;
    }
    status, outLen := r.status, r.op;
    assert ok ==> mem[j.outp..j.outp + outLen] == o.out;
    if ok && Lzo1xProgram.Exact(e) {
      Lzo1xProgram.AcceptsExactly(e, o.out);
    }
  }
}
