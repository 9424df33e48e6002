/** LZO1X decoding: the goto state machine of lzo1x_decompress and lzo1x_decompress_safe. */
module Lzo1xDecoder {
  import opened Bytes
  import opened Lz77

  const M2_MAX_OFFSET := 0x0800
  const M3_MAX_OFFSET := 0x4000
  const M4_MAX_OFFSET := 0xbfff

  datatype Status = Ok | InputNotConsumed | InputOverrun | OutputOverrun | LookbehindOverrun | EofNotFound

  /** Where the program counter stands between two instructions: what a byte below 16 would mean. */
  datatype Mode =
    | Outer       // top of the outer loop: a literal run
    | AfterRun    // first_literal_run: a 3-byte match
    | AfterShort  // inner loop, after 1..3 literals: a 2-byte match

  datatype State = State(mode: Mode, ip: nat, out: seq<byte>)

  /**
   * `Wild`: the decoder goes where it must not. The unchecked build reads outside its input or before its
   * output; either build may store outside its output area when a length has wrapped, or look for the end
   * of a length up to the end of the address space.
   */
  datatype Outcome = Next(st: State) | Done(status: Status, out: seq<byte>) | Wild

  /** How many values lzo_uint has: at least 2^32. */
  type Word = w: nat | w >= 0x1_0000_0000 witness 0x1_0000_0000

  /** The comparison in NEED_IP and NEED_OP: both sides are unsigned words. */
  predicate Less(have: int, want: nat, word: Word) {
    have % word < want % word
  }

  lemma LessPlain(have: int, want: nat, word: Word)
    requires want < word
    ensures 0 <= have < word ==> (Less(have, want, word) <==> have < want)
  {
    DivModUnique(want, word, 0, want);
    if 0 <= have < word {
      DivModUnique(have, word, 0, have);
    }
  }

  /** How often `do ... while (--t > 0)` turns. */
  function Turns(t: nat, word: Word): (n: nat)
    ensures n >= 1
  {
    if t == 0 then word else t
  }

  /** How many literals a run copies: with `wide` copies of eight bytes the sum is a word. */
  function RunCount(t: nat, word: Word, wide: bool): nat {
    if wide then (t + 3) % word else Turns(t, word) + 3
  }

  /** How many bytes a match copies, in wide copies only where eight bytes fit between source and copy. */
  function MatchCount(t: nat, off: nat, word: Word, wide: bool): nat {
    if wide && off >= 8 then (t + 2) % word else Turns(t, word) + 2
  }

  /** Without a wrap the builds agree. */
  lemma CountsPlain(t: nat, off: nat, word: Word, wide: bool)
    requires t >= 1
    ensures t + 3 < word ==> RunCount(t, word, wide) == t + 3
    ensures t + 2 < word ==> MatchCount(t, off, word, wide) == t + 2
    ensures wide ==> RunCount(t, word, wide) < word
  {
    if t + 3 < word {
      DivModUnique(t + 3, word, 0, t + 3);
    }
    if t + 2 < word {
      DivModUnique(t + 2, word, 0, t + 2);
    }
  }

  /**
   * A decoder build, with or without the overrun checks, its word, whether it copies eight bytes at once,
   * and the size of the output area.
   */
  datatype Env = Env(checks: bool, input: seq<byte>, past: nat -> byte, cap: nat, word: Word, wide: bool)
  {
    /** May the code read byte `k` of the input? The safe build does read past the end in places. */
    predicate Readable(k: nat) {
      checks || k < |input|
    }

    function Get(k: nat): byte {
      At(input, past, k)
    }

    /** NEED_IP(x) takes the overrun exit. */
    predicate InputShort(ip: nat, x: nat) {
      checks && Less(|input| - ip, x, word)
    }

    /** NEED_OP(x) takes the overrun exit. */
    predicate OutputShort(out: seq<byte>, x: nat) {
      checks && Less(cap - |out|, x, word)
    }

    /** The copy would leave the output area: only behind a test that a wrapped length has passed. */
    predicate Outgrows(out: seq<byte>, n: nat) {
      checks && |out| + n > cap
    }

    /** The call's lengths are words, and the output area does not end at the top of the address space. */
    predicate Addressable() {
      |input| < word && cap < word - 1
    }
  }

  /** The tests mean what they say as long as the numbers are words. */
  lemma TestsPlain(e: Env, ip: nat, out: seq<byte>, x: nat)
    requires x < e.word
    ensures ip <= |e.input| < e.word ==> (e.InputShort(ip, x) <==> e.checks && |e.input| - ip < x)
    ensures |out| <= e.cap < e.word ==> (e.OutputShort(out, x) <==> e.checks && e.cap - |out| < x)
  {
    LessPlain(|e.input| - ip, x, e.word);
    LessPlain(e.cap - |out|, x, e.word);
  }

  /** The outcome only adds to `out`; the checked build never outgrows its area unless it runs wild. */
  ghost predicate Grows(e: Env, out: seq<byte>, r: Outcome) {
    match r
    case Next(st) => |out| <= |st.out| && out == st.out[..|out|] && (e.checks && |out| <= e.cap ==> |st.out| <= e.cap)
    case Done(_, o) => |out| <= |o| && out == o[..|out|] && (e.checks && |out| <= e.cap ==> |o| <= e.cap)
    case Wild => true
  }

  /** A match instruction's fields, before anything is copied. */
  datatype Header =
    | Match(off: nat, len: nat, ip: nat)
    | Eof(ip: nat)
    | ShortInput
    | WildRead

  /** A length extended by zero bytes: each adds 255, the first other byte ends it. */
  datatype Scan = Scan(t: nat, ip: nat) | ScanShort | ScanWild

  /** Where the scan may go: NEED_IP(1) fails at the end of the input, but not behind it. */
  predicate Scannable(e: Env, ip: nat) {
    ip < |e.input| || (e.checks && |e.input| < ip < e.word)
  }

  /** The sum is a word. */
  function ScanLength(e: Env, ip: nat, t: nat): (r: Scan)
    ensures r.Scan? ==> ip < r.ip && r.t < e.word
    ensures r.Scan? && ip <= |e.input| ==> r.ip <= |e.input|
    ensures e.checks && ip <= |e.input| ==> r != ScanWild
    decreases (if |e.input| < e.word then e.word else |e.input|) - ip
  {
    if !Scannable(e, ip) then if e.checks && ip == |e.input| then ScanShort else ScanWild
    else if e.Get(ip) == 0 then ScanLength(e, ip + 1, (t + 255) % e.word)
    else Scan((t + e.Get(ip)) % e.word, ip + 1)
  }

  /** One turn of the scan. */
  lemma ScanTurn(e: Env, ip: nat, t: nat)
    ensures !Scannable(e, ip) ==>
              ScanLength(e, ip, t) == if e.checks && ip == |e.input| then ScanShort else ScanWild
    ensures Scannable(e, ip) && e.Get(ip) == 0 ==> ScanLength(e, ip, t) == ScanLength(e, ip + 1, (t + 255) % e.word)
    ensures Scannable(e, ip) && e.Get(ip) != 0 ==> ScanLength(e, ip, t) == Scan((t + e.Get(ip)) % e.word, ip + 1)
  {
  }

  /** A turn of the scan that does not wrap. */
  lemma ScanPlain(e: Env, ip: nat, t: nat)
    requires Scannable(e, ip)
    ensures e.Get(ip) == 0 && t + 255 < e.word ==> ScanLength(e, ip, t) == ScanLength(e, ip + 1, t + 255)
    ensures e.Get(ip) != 0 && t + e.Get(ip) < e.word ==> ScanLength(e, ip, t) == Scan(t + e.Get(ip), ip + 1)
  {
    if t + 255 < e.word {
      DivModUnique(t + 255, e.word, 0, t + 255);
    }
    if t + e.Get(ip) < e.word {
      DivModUnique(t + e.Get(ip), e.word, 0, t + e.Get(ip));
    }
  }

  /** What `zeros` zero bytes and one other byte make of a length. */
  function Extended(t: nat, zeros: nat, last: byte, word: Word): nat {
    (t + 255 * zeros + last) % word
  }

  /** The scan sums up the bytes that it passes. */
  lemma {:induction false} ScanMeans(e: Env, ip: nat, t: nat)
    ensures (var r := ScanLength(e, ip, t);
             r.Scan? ==>
               && e.Get(r.ip - 1) != 0 && r.t == Extended(t, r.ip - ip - 1, e.Get(r.ip - 1), e.word)
               && forall k: nat :: ip <= k < r.ip - 1 ==> e.Get(k) == 0)
    decreases (if |e.input| < e.word then e.word else |e.input|) - ip
  {
    if Scannable(e, ip) {
      var r := ScanLength(e, ip, t);
      if e.Get(ip) != 0 {
        assert r == Scan(Extended(t, 0, e.Get(ip), e.word), ip + 1);
      } else {
        hide Extended;
        ScanMeans(e, ip + 1, (t + 255) % e.word);
        if r.Scan? {
          ExtendedMore(t, r.ip - ip - 2, e.Get(r.ip - 1), e.word);
        }
      }
    }
  }

  lemma ExtendedMore(t: nat, zeros: nat, last: byte, word: Word)
    ensures Extended((t + 255) % word, zeros, last, word) == Extended(t, zeros + 1, last, word)
  {
    AddModulo(t + 255, 255 * zeros + last, word);
    assert t + 255 * (zeros + 1) + last == t + 255 + (255 * zeros + last);
  }

  lemma AddModulo(a: nat, b: nat, word: Word)
    ensures (a % word + b) % word == (a + b) % word
  {
    var q, r := a / word, a % word;
    assert a == q * word + r;
    var p, s := (r + b) / word, (r + b) % word;
    assert r + b == p * word + s;
    assert a + b == (q + p) * word + s;
    DivModUnique(a + b, word, q + p, s);
  }

  /** Behind a marker of 32 to 63 and its length: an offset of 14 bits. */
  function NearHeader(e: Env, r: Scan): (h: Header)
    ensures h.Match? ==> r.Scan? && h.ip == r.ip + 2 && h.off >= 1
    ensures !h.Eof? && (e.checks && !r.ScanWild? ==> h != WildRead)
  {
    match r
    case ScanShort => ShortInput
    case ScanWild => WildRead
    case Scan(l, p) =>
      if !e.Readable(p + 1) then WildRead
      else
        var off := 1 + e.Get(p) / 4 + 64 * e.Get(p + 1);
        Match(off, MatchCount(l, off, e.word, e.wide), p + 2)
  }

  /** Behind a marker `t` of 16 to 31 and its length: an offset beyond 16384, or the end mark. */
  function FarHeader(e: Env, t: byte, r: Scan): (h: Header)
    ensures h.Match? ==> r.Scan? && h.ip == r.ip + 2 && h.off >= 1
    ensures h.Eof? ==> r.Scan? && h.ip == r.ip + 2
    ensures e.checks && !r.ScanWild? ==> h != WildRead
  {
    match r
    case ScanShort => ShortInput
    case ScanWild => WildRead
    case Scan(l, p) =>
      if !e.Readable(p + 1) then WildRead
      else
        var d := 0x4000 * (t / 8 % 2) + e.Get(p) / 4 + 64 * e.Get(p + 1);
        if d == 0 then Eof(p + 2) else Match(d + 0x4000, MatchCount(l, d + 0x4000, e.word, e.wide), p + 2)
  }

  /** The fields of a match whose first byte `t >= 16` has been read; `ip` is just behind it. */
  function ReadHeader(e: Env, t: byte, ip: nat): (h: Header)
    requires t >= 16
    ensures h.Match? ==> h.ip > ip && h.off >= 1
    ensures h.Eof? ==> h.ip > ip
    ensures e.checks && ip <= |e.input| ==> h != WildRead
  {
    if t >= 64 then
      if !e.Readable(ip) then WildRead
      else Match(1 + t / 4 % 8 + 8 * e.Get(ip), t / 32 + 1, ip + 1)
    else if t >= 32 then NearHeader(e, if t % 32 == 0 then ScanLength(e, ip, 31) else Scan(t % 32, ip))
    else FarHeader(e, t, if t % 8 == 0 then ScanLength(e, ip, 7) else Scan(t % 8, ip))
  }

  /** Literals after a match: the count sits in the two low bits of the byte two back. */
  function ShortLiterals(e: Env, s: nat, ip: nat, out: seq<byte>): (r: Outcome)
    requires s < 4
    ensures Grows(e, out, r)
    ensures r.Next? ==> r.st.ip >= ip && r.st.mode != AfterRun
    ensures r.Done? ==> r.status != Ok
  {
    if s == 0 then Next(State(Outer, ip, out))
    else if e.OutputShort(out, s) then Done(OutputOverrun, out)
    else if e.InputShort(ip, s + 1) then Done(InputOverrun, out)
    else if e.Outgrows(out, s) || !e.Readable(ip + s - 1) then Wild
    else Next(State(AfterShort, ip + s, out + Take(e.input, e.past, ip, s)))
  }

  /** Copy a match, then its trailing literals. */
  function CopyMatch(e: Env, off: nat, len: nat, ip: nat, out: seq<byte>): (r: Outcome)
    requires off >= 1 && ip >= 2
    ensures Grows(e, out, r)
    ensures r.Next? ==> r.st.ip >= ip && r.st.mode != AfterRun
  {
    if off > |out| then if e.checks then Done(LookbehindOverrun, out) else Wild
    else if e.OutputShort(out, len) then Done(OutputOverrun, out)
    else if e.Outgrows(out, len) then Wild
    else ShortLiterals(e, e.Get(ip - 2) % 4, ip, CopyBack(out, off, len))
  }

  function MatchInstruction(e: Env, t: byte, ip: nat, out: seq<byte>): (r: Outcome)
    requires t >= 16 && ip >= 1
    ensures Grows(e, out, r)
    ensures r.Next? ==> r.st.ip > ip && r.st.mode != AfterRun
  {
    match ReadHeader(e, t, ip)
    case ShortInput => Done(InputOverrun, out)
    case WildRead => Wild
    case Eof(p) => Done(if p == |e.input| then Ok else if p < |e.input| then InputNotConsumed else InputOverrun, out)
    case Match(off, len, p) => CopyMatch(e, off, len, p, out)
  }

  /** A literal run of `n` bytes at `ip`. */
  function LiteralRun(e: Env, n: nat, ip: nat, out: seq<byte>): (r: Outcome)
    requires n >= 1 || ip >= 1
    ensures Grows(e, out, r)
    ensures r.Next? ==> r.st.ip >= ip
  {
    if e.OutputShort(out, n) then Done(OutputOverrun, out)
    else if e.InputShort(ip, n + 1) then Done(InputOverrun, out)
    else if e.Outgrows(out, n) || !e.Readable(ip + n - 1) then Wild
    else Next(State(AfterRun, ip + n, out + Take(e.input, e.past, ip, n)))
  }

  /** Behind a match with no literals, or at the start: a literal run or a match. */
  function OuterStep(e: Env, ip: nat, out: seq<byte>): (r: Outcome)
    ensures Grows(e, out, r)
    ensures r.Next? ==> r.st.ip > ip && ip < |e.input|
  {
    if e.checks && ip >= |e.input| then Done(EofNotFound, out)
    else if !e.Readable(ip) then Wild
    else
      var t := e.Get(ip);
      if t >= 16 then MatchInstruction(e, t, ip + 1, out)
      else
        match (if t == 0 then ScanLength(e, ip + 1, 15) else Scan(t, ip + 1))
        case ScanShort => Done(InputOverrun, out)
        case ScanWild => Wild
        case Scan(l, p) => LiteralRun(e, RunCount(l, e.word, e.wide), p, out)
  }

  /** first_literal_run: a byte below 16 is a 3-byte match. */
  function AfterRunStep(e: Env, ip: nat, out: seq<byte>): (r: Outcome)
    ensures Grows(e, out, r)
    ensures r.Next? ==> r.st.ip > ip && r.st.mode != AfterRun
  {
    if !e.Readable(ip) then Wild
    else
      var t := e.Get(ip);
      if t >= 16 then MatchInstruction(e, t, ip + 1, out)
      else if !e.Readable(ip + 1) then Wild
      else CopyMatch(e, 1 + M2_MAX_OFFSET + t / 4 + 4 * e.Get(ip + 1), 3, ip + 2, out)
  }

  /** The inner loop: a byte below 16 is a 2-byte match. */
  function AfterShortStep(e: Env, ip: nat, out: seq<byte>): (r: Outcome)
    ensures Grows(e, out, r)
    ensures r.Next? ==> r.st.ip > ip && ip < |e.input|
  {
    if !e.Readable(ip) then Wild
    else
      var t := e.Get(ip);
      if e.checks && ip + 1 >= |e.input| then Done(EofNotFound, out)
      else if t >= 16 then MatchInstruction(e, t, ip + 1, out)
      else if !e.Readable(ip + 1) then Wild
      else CopyMatch(e, 1 + t / 4 + 4 * e.Get(ip + 1), 2, ip + 2, out)
  }

  /** One instruction. */
  function Step(e: Env, st: State): (r: Outcome)
    ensures Grows(e, st.out, r)
    ensures r.Next? ==> r.st.ip > st.ip
    ensures r.Next? && st.ip >= |e.input| ==> st.mode == AfterRun && r.st.mode != AfterRun
  {
    match st.mode
    case Outer => OuterStep(e, st.ip, st.out)
    case AfterRun => AfterRunStep(e, st.ip, st.out)
    case AfterShort => AfterShortStep(e, st.ip, st.out)
  }

  /** The first byte: above 17 it is a literal count, with no match possible before it. */
  function Begin(e: Env): (r: Outcome)
    ensures Grows(e, [], r)
  {
    if !e.Readable(0) then Wild
    else
      var c := e.Get(0);
      if c <= 17 then Next(State(Outer, 0, []))
      else if c - 17 < 4 then ShortLiterals(e, c - 17, 1, [])
      else LiteralRun(e, c - 17, 1, [])
  }

  /** Run to completion from an outcome. */
  function Finish(e: Env, r: Outcome): (f: Outcome)
    ensures !f.Next?
    decreases r.Next?, if r.Next? && r.st.ip < |e.input| then |e.input| - r.st.ip else 0,
              r.Next? && r.st.mode == AfterRun
  {
    if r.Next? then Finish(e, Step(e, r.st)) else r
  }

  /** The whole decompression. */
  function Decode(e: Env): (f: Outcome)
    ensures !f.Next?
  {
    Finish(e, Begin(e))
  }
}
