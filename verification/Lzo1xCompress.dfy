/**
 * lzo1x_1_compress over one flat memory: input and output are regions of the same array, separate
 * or overlapping, and the stores of four and sixteen bytes reach past the bytes they are for.
 */
module Lzo1xCompress {
  import opened Bytes
  import opened Lz77
  import opened Lzo1xDecoder
  import opened Lzo1xFormat
  import opened Lzo1xRoundTrip
  import opened Lzo1xParse
  import opened Words

  /** A call's regions: `n` input bytes at `src`, the output from `out` on. */
  datatype Area = Area(src: nat, n: nat, out: nat)
  {
    /** The output size that callers must provide. */
    function Room(): nat {
      n + n / 16 + 64 + 3
    }

    predicate Apart() {
      src + n <= out || out + Room() <= src
    }

    /** The input starts high enough above the output that compressed data never catches up with it. */
    predicate Overlap() {
      src >= out + (if n > M4_MAX_OFFSET then M4_MAX_OFFSET else n) + n / 16 + 64 + 3
    }

    predicate Fits(size: nat) {
      src + n <= size && out + Room() <= size && (Apart() || Overlap())
    }

    /** The first input byte that may still be read once everything before `c` has been coded. */
    ghost function Floor(c: nat): nat {
      if Apart() || c <= M4_MAX_OFFSET then 0 else c - M4_MAX_OFFSET
    }

    ghost predicate Written(mem: array<byte>, s: seq<byte>)
      requires Fits(mem.Length)
      reads mem
    {
      out + |s| <= mem.Length && forall k :: 0 <= k < |s| ==> mem[out + k] == s[k]
    }

    ghost predicate Intact(mem: array<byte>, x: seq<byte>, from: nat)
      requires Fits(mem.Length) && |x| == n
      reads mem
    {
      forall k :: from <= k < n ==> mem[src + k] == x[k]
    }

    /** `pre` has been written, and the input is intact as far as it is needed after `c`. */
    ghost predicate Live(mem: array<byte>, x: seq<byte>, pre: seq<byte>, op: nat, c: nat)
      reads mem
    {
      Fits(mem.Length) && |x| == n && c <= n && op == |pre| && Written(mem, pre) && Intact(mem, x, Floor(c))
    }
  }

  /** Only the output region changes. */
  twostate predicate Framed(mem: array<byte>, a: Area)
    reads mem
  {
    forall k :: 0 <= k < mem.Length && !(a.out <= k < a.out + a.Room()) ==> mem[k] == old(mem[k])
  }

  /** `*op++ = b` */
  method Put(mem: array<byte>, a: Area, op: nat, b: byte, ghost x: seq<byte>, ghost pre: seq<byte>, ghost c: nat)
    requires a.Live(mem, x, pre, op, c) && op < c + a.n / 16 + 64
    modifies mem
    ensures a.Live(mem, x, pre + [b], op + 1, c) && Framed(mem, a)
  {
    mem[a.out + op] := b;
  }

  /** A store of `w` bytes, all loaded before any is stored: UA_COPY32 and UA_COPY64. */
  method WideCopy(mem: array<byte>, a: Area, op: nat, from: nat, w: nat, ghost x: seq<byte>, ghost pre: seq<byte>,
          ghost c: nat)
    requires a.Live(mem, x, pre, op, c) && op + w <= c + a.n / 16 + 64
    requires a.Floor(c) <= from && from + w <= a.n
    modifies mem
    ensures a.Live(mem, x, pre + x[from..from + w], op + w, c) && Framed(mem, a)
  {
    forall i | 0 <= i < w {
      mem[a.out + op + i] := mem[a.src + from + i];
    }
  }

  lemma Later(a: Area, mem: array<byte>, x: seq<byte>, pre: seq<byte>, op: nat, c: nat, d: nat)
    requires a.Live(mem, x, pre, op, c) && c <= d <= a.n
    ensures a.Live(mem, x, pre, op, d)
  {
  }

  lemma LiveSize(a: Area, mem: array<byte>, x: seq<byte>, pre: seq<byte>, op: nat, c: nat)
    requires a.Live(mem, x, pre, op, c)
    ensures |x| == a.n && op == |pre|
  {
  }

  /** Only a prefix of what was written is wanted. */
  lemma Shorter(a: Area, mem: array<byte>, x: seq<byte>, pre: seq<byte>, more: seq<byte>, op: nat, c: nat)
    requires a.Live(mem, x, pre + more, op, c)
    ensures a.Live(mem, x, pre, |pre|, c)
  {
    forall k | 0 <= k < |pre| ensures mem[a.out + k] == pre[k] {
      assert (pre + more)[k] == pre[k];
    }
  }

  /** The bytes of an extended length: `while (tt > 255) { tt -= 255; *op++ = 0; } *op++ = tt;` */
  method PutExtension(mem: array<byte>, a: Area, op0: nat, n: nat, ghost x: seq<byte>, ghost pre: seq<byte>,
          ghost c: nat) returns (op: nat)
    requires n >= 1 && a.Live(mem, x, pre, op0, c) && op0 + |Extension(n)| <= c + a.n / 16 + 64
    modifies mem
    ensures a.Live(mem, x, pre + Extension(n), op, c) && Framed(mem, a)
  {
    op := op0;
    var tt := n;
    ghost var done := pre;
    while tt > 255
      invariant tt >= 1 && done + Extension(tt) == pre + Extension(n)
      invariant a.Live(mem, x, done, op, c) && Framed(mem, a)
    {
      assert done + [0] + Extension(tt - 255) == done + Extension(tt);
      Put(mem, a, op, 0, x, done, c);
      done := done + [0];
      tt, op := tt - 255, op + 1;
    }
    Put(mem, a, op, tt, x, done, c);
    op := op + 1;
  }

  /** The header of a run of `t >= 4` literals. */
  method PutRunHeader(mem: array<byte>, a: Area, op0: nat, t: nat, ghost x: seq<byte>, ghost pre: seq<byte>,
          ghost c: nat) returns (op: nat)
    requires t >= 4 && a.Live(mem, x, pre, op0, c) && op0 + |RunHeader(t)| <= c + a.n / 16 + 64
    modifies mem
    ensures a.Live(mem, x, pre + RunHeader(t), op, c) && Framed(mem, a)
  {
    if t <= 18 {
      Put(mem, a, op0, t - 3, x, pre, c);
      op := op0 + 1;
    } else {
      Put(mem, a, op0, 0, x, pre, c);
      op := PutExtension(mem, a, op0 + 1, t - 18, x, pre + [0], c);
      assert pre + [0] + Extension(t - 18) == pre + RunHeader(t);
    }
  }

  /** `do *op++ = *ii++; while (--t > 0);` */
  method CopyTail(mem: array<byte>, a: Area, op0: nat, start: nat, t: nat, ghost x: seq<byte>, ghost pre: seq<byte>)
    returns (op: nat)
    requires a.Live(mem, x, pre, op0, start) && start + t <= a.n && op0 < start + a.n / 16 + 64
    modifies mem
    ensures a.Live(mem, x, pre + x[start..start + t], op, start + t) && Framed(mem, a)
  {
    op := op0;
    var i := 0;
    assert pre + x[start..start] == pre;
    while i < t
      invariant 0 <= i <= t && op == op0 + i
      invariant a.Live(mem, x, pre + x[start..start + i], op, start + i) && Framed(mem, a)
    {
      assert mem[a.src + start + i] == x[start + i];
      Put(mem, a, op, mem[a.src + start + i], x, pre + x[start..start + i], start + i);
      assert pre + x[start..start + i] + [x[start + i]] == pre + x[start..start + i + 1];
      Later(a, mem, x, pre + x[start..start + i + 1], op + 1, start + i, start + i + 1);
      i, op := i + 1, op + 1;
    }
  }

  /** The length of the run in the low bits of the match before it. */
  function Announced(t: nat): (s: nat)
    ensures s < 4
  {
    if t <= 3 then t else 0
  }

  /** Literals behind a match: one to three are announced in the match, by patching `op[-2]`. */
  method PatchRun(mem: array<byte>, a: Area, op0: nat, start: nat, t: nat, ghost x: seq<byte>, ghost done: seq<Segment>)
    returns (op: nat)
    requires Codable(done) && done != [] && 1 <= t <= 3
    requires a.Live(mem, x, Draft(done, 0), op0, start) && op0 <= start + start / 16 && start + t + 20 <= a.n
    modifies mem
    ensures a.Live(mem, x, Draft(done, t) + x[start..start + t], op, start) && Framed(mem, a)
    ensures op == op0 + t
  {
    hide Draft;
    DraftPatch(done, t);
    mem[a.out + op0 - 2] := mem[a.out + op0 - 2] + t;
    WideCopy(mem, a, op0, start, 4, x, Draft(done, t), start);
    assert Draft(done, t) + x[start..start + 4] == Draft(done, t) + x[start..start + t] + x[start + t..start + 4];
    Shorter(a, mem, x, Draft(done, t) + x[start..start + t], x[start + t..start + 4], op0 + 4, start);
    op := op0 + t;
  }

  /** Sixteen bytes in two stores. */
  method Copy16(mem: array<byte>, a: Area, op: nat, from: nat, ghost x: seq<byte>, ghost pre: seq<byte>, ghost c: nat)
    requires a.Live(mem, x, pre, op, c) && op + 16 <= c + a.n / 16 + 64
    requires a.Floor(c) <= from && from + 16 <= a.n
    modifies mem
    ensures a.Live(mem, x, pre + x[from..from + 16], op + 16, c) && Framed(mem, a)
  {
    WideCopy(mem, a, op, from, 8, x, pre, c);
    WideCopy(mem, a, op + 8, from + 8, 8, x, pre + x[from..from + 8], c);
    assert pre + x[from..from + 8] + x[from + 8..from + 16] == pre + x[from..from + 16];
  }

  /** Up to sixteen literals, always in one store of sixteen bytes. */
  method StoreShort(mem: array<byte>, a: Area, op: nat, start: nat, t: nat, ghost x: seq<byte>, ghost h: seq<byte>)
    requires t <= 16 && a.Live(mem, x, h, op, start) && op + 16 <= start + a.n / 16 + 64 && start + 16 <= a.n
    modifies mem
    ensures a.Live(mem, x, h + x[start..start + t], op + t, start + t) && Framed(mem, a)
  {
    Copy16(mem, a, op, start, x, h, start);
    ghost var wanted := h + x[start..start + t];
    assert h + x[start..start + 16] == wanted + x[start + t..start + 16];
    Shorter(a, mem, x, wanted, x[start + t..start + 16], op + 16, start);
    Later(a, mem, x, wanted, op + t, start, start + t);
  }

  /** Sixteen bytes at a time, then what is left one at a time. */
  method StoreLong(mem: array<byte>, a: Area, op0: nat, start: nat, t: nat, ghost x: seq<byte>, ghost h: seq<byte>)
    returns (op: nat)
    requires a.Live(mem, x, h, op0, start) && op0 + 16 <= start + a.n / 16 + 64 && start + t <= a.n
    modifies mem
    ensures a.Live(mem, x, h + x[start..start + t], op, start + t) && Framed(mem, a)
  {
    hide Area.Live;
    assert |x| == a.n by {
      LiveSize(a, mem, x, h, op0, start);
    }
    op := op0;
    var i := 0;
    assert h + x[start..start] == h;
    while t - i >= 16
      invariant 0 <= i <= t && op == op0 + i
      invariant a.Live(mem, x, h + x[start..start + i], op, start + i) && Framed(mem, a)
    {
      Copy16(mem, a, op, start + i, x, h + x[start..start + i], start + i);
      assert h + x[start..start + i] + x[start + i..start + i + 16] == h + x[start..start + i + 16];
      Later(a, mem, x, h + x[start..start + i + 16], op + 16, start + i, start + i + 16);
      op, i := op + 16, i + 16;
    }
    op := CopyTail(mem, a, op, start + i, t - i, x, h + x[start..start + i]);
    assert h + x[start..start + i] + x[start + i..start + i + (t - i)] == h + x[start..start + t];
  }

  /** A run of at least four literals behind its header, in stores of sixteen bytes. */
  method HeadedRun(mem: array<byte>, a: Area, op0: nat, start: nat, t: nat, ghost x: seq<byte>, ghost pre: seq<byte>)
    returns (op: nat)
    requires t >= 4 && a.Live(mem, x, pre, op0, start) && op0 <= start + start / 16 && start + t + 20 <= a.n
    modifies mem
    ensures a.Live(mem, x, pre + RunHeader(t) + x[start..start + t], op, start + t) && Framed(mem, a)
    ensures op <= op0 + t + 1 + t / 16
  {
    hide RunHeader;
    RunHeaderLength(t);
    op := PutRunHeader(mem, a, op0, t, x, pre, start);
    if t <= 16 {
      StoreShort(mem, a, op, start, t, x, pre + RunHeader(t));
      op := op + t;
    } else {
      op := StoreLong(mem, a, op, start, t, x, pre + RunHeader(t));
    }
  }

  lemma RunHeaderLength(t: nat)
    requires t >= 4
    ensures 1 <= |RunHeader(t)| <= 1 + t / 16 && |RunHeader(t)| <= 2 + t / 255
  {
  }

  /** The literals that pend before a match. */
  method EmitRun(mem: array<byte>, a: Area, op0: nat, start: nat, t: nat, ghost x: seq<byte>, ghost done: seq<Segment>)
    returns (op: nat)
    requires Codable(done) && (done == [] ==> t >= 4)
    requires a.Live(mem, x, Draft(done, 0), op0, start) && op0 <= start + start / 16 && start + t + 20 <= a.n
    modifies mem
    ensures a.Live(mem, x, Draft(done, Announced(t)) + Literals(x[start..start + t]), op, start + t) && Framed(mem, a)
    ensures op <= op0 + t + 1 + t / 16
  {
    hide Draft, RunHeader;
    op := op0;
    if t != 0 {
      if t <= 3 {
        op := PatchRun(mem, a, op0, start, t, x, done);
        Later(a, mem, x, Draft(done, t) + x[start..start + t], op, start, start + t);
      } else {
        op := HeadedRun(mem, a, op0, start, t, x, Draft(done, 0));
        assert Draft(done, 0) + RunHeader(t) + x[start..start + t]
            == Draft(done, 0) + (RunHeader(t) + x[start..start + t]);
      }
    } else {
      assert Draft(done, 0) + x[start..start] == Draft(done, 0);
    }
  }

  /** The code of a match, with no literals announced yet. */
  method EmitMatch(mem: array<byte>, a: Area, op0: nat, off: nat, len: nat, ghost x: seq<byte>, ghost pre: seq<byte>,
          ghost c: nat) returns (op: nat)
    requires 1 <= off <= M4_MAX_OFFSET && 4 <= len
    requires a.Live(mem, x, pre, op0, c) && op0 + |MatchCode(off, len, 0)| <= c + a.n / 16 + 64
    modifies mem
    ensures a.Live(mem, x, pre + MatchCode(off, len, 0), op, c) && Framed(mem, a)
  {
    hide Area.Live, MarkedMatch;
    if len <= M2_MAX_LEN && off <= M2_MAX_OFFSET {
      var d := off - 1;
      Put(mem, a, op0, 32 * (len - 1) + 4 * (d % 8), x, pre, c);
      Put(mem, a, op0 + 1, d / 8, x, pre + [32 * (len - 1) + 4 * (d % 8)], c);
      op := op0 + 2;
      assert pre + [32 * (len - 1) + 4 * (d % 8)] + [d / 8] == pre + MatchCode(off, len, 0);
    } else if off <= M3_MAX_OFFSET {
      if len <= M3_MAX_LEN {
        op := PutMarked(mem, a, op0, 32 + (len - 2), 0, off - 1, x, pre, c);
      } else {
        op := PutMarked(mem, a, op0, 32, len - M3_MAX_LEN, off - 1, x, pre, c);
      }
    } else {
      var d := off - 0x4000;
      var high := 8 * (d / 0x4000);
      if len <= M4_MAX_LEN {
        op := PutMarked(mem, a, op0, 16 + high + (len - 2), 0, d, x, pre, c);
      } else {
        op := PutMarked(mem, a, op0, 16 + high, len - M4_MAX_LEN, d, x, pre, c);
      }
    }
  }

  /** A marker, the extension if there is one, and the two offset bytes. */
  method PutMarked(mem: array<byte>, a: Area, op0: nat, marker: byte, extra: nat, d: nat, ghost x: seq<byte>,
          ghost pre: seq<byte>, ghost c: nat) returns (op: nat)
    requires a.Live(mem, x, pre, op0, c) && op0 + |MarkedMatch(marker, extra, d, 0)| <= c + a.n / 16 + 64
    modifies mem
    ensures a.Live(mem, x, pre + MarkedMatch(marker, extra, d, 0), op, c) && Framed(mem, a)
  {
    Put(mem, a, op0, marker, x, pre, c);
    op := op0 + 1;
    ghost var head := pre + [marker];
    if extra != 0 {
      op := PutExtension(mem, a, op, extra, x, head, c);
      head := head + Extension(extra);
    }
    Put(mem, a, op, 4 * (d % 64), x, head, c);
    Put(mem, a, op + 1, d / 64 % 256, x, head + [4 * (d % 64)], c);
    op := op + 2;
    assert head + [4 * (d % 64)] + [d / 64 % 256] == pre + MarkedMatch(marker, extra, d, 0);
  }

  /** A 32-bit little-endian load from the input. */
  method Load(mem: array<byte>, a: Area, i: nat, ghost x: seq<byte>) returns (v: nat)
    requires a.Fits(mem.Length) && |x| == a.n && i + 4 <= a.n && a.Intact(mem, x, i)
    ensures v == Load32(x, i)
  {
    var p := a.src + i;
    assert mem[a.src + i] == x[i] && mem[a.src + (i + 1)] == x[i + 1] && mem[a.src + (i + 2)] == x[i + 2]
        && mem[a.src + (i + 3)] == x[i + 3];
    return Le16(mem[p], mem[p + 1]) + 0x1_0000 * Le16(mem[p + 2], mem[p + 3]);
  }

  /** The candidate for the four bytes `v` at `ip`, and the slot that will remember `ip`. */
  method Probing(mem: array<byte>, dict: array<int>, a: Area, tu: Tuning, base: nat, ip: nat, v: nat,
          ghost x: seq<byte>) returns (p: Probe)
    requires a.Fits(mem.Length) && |x| == a.n && base <= ip && ip + 4 <= a.n && v == Load32(x, ip)
    requires a.Intact(mem, x, a.Floor(ip))
    requires Behind(tu, dict[..], base, ip) && (tu.deterministic ==> ip < base + BLOCK_SIZE)
    ensures p == Lookup(tu, x, base, ip, dict[..])
  {
    var k := tu.hash(v) % DICT_SIZE;
    var entry := dict[k];
    if tu.deterministic {
      return Probe(k, true, base + entry);
    }
    if !Plausible(base, ip, entry) {
      return Probe(k, false, 0);
    }
    var pos := base + entry;
    if ip - pos <= M2_MAX_OFFSET || mem[a.src + (pos + 3)] == mem[a.src + (ip + 3)] {
      return Probe(k, true, pos);
    }
    k := tu.Slot2(k);
    entry := dict[k];
    if !Plausible(base, ip, entry) {
      return Probe(k, false, 0);
    }
    pos := base + entry;
    if ip - pos <= M2_MAX_OFFSET || mem[a.src + (pos + 3)] == mem[a.src + (ip + 3)] {
      return Probe(k, true, pos);
    }
    return Probe(k, false, 0);
  }

  /** Scan for the next four-byte match, remembering every position looked at. */
  method Scanning(mem: array<byte>, dict: array<int>, a: Area, tu: Tuning, base: nat, limit: nat, ii: nat, ip0: nat,
          ghost start: nat, ghost x: seq<byte>)
    returns (found: bool, ip: nat, pos: nat)
    requires a.Fits(mem.Length) && |x| == a.n && start <= ip0 && a.Intact(mem, x, a.Floor(start))
    requires tu.Legal() && InBlock(tu, x, base, limit) && base <= ii <= ip0 && Behind(tu, dict[..], base, ip0)
    modifies dict
    ensures if found then
              base <= pos < ip < limit && ip0 <= ip && ip - pos <= M4_MAX_OFFSET
              && NextMatch(tu, x, base, limit, ii, ip0, old(dict[..]))
                 == Find(ip, ip - pos, MatchLength(tu, x, limit, ip, pos, 4), dict[..])
            else NextMatch(tu, x, base, limit, ii, ip0, old(dict[..])) == Nothing
  {
    hide Lookup, MatchLength;
    ip := ip0;
    ghost var target := Search(tu, x, base, limit, ii, ip0, dict[..]);
    while ip < limit
      invariant ip0 <= ip && Behind(tu, dict[..], base, ip)
      invariant Search(tu, x, base, limit, ii, ip, dict[..]) == target
      decreases limit - ip
    {
      var v := Load(mem, a, ip, x);
      var p := Probing(mem, dict, a, tu, base, ip, v, x);
      ghost var before := dict[..];
      dict[p.slot] := ip - base;
      assert dict[..] == before[p.slot := ip - base];
      if p.candidate {
        var w := Load(mem, a, p.pos, x);
        Load32Equal(x, ip, p.pos);
        if v == w {
          return true, ip, p.pos;
        }
      }
      ip := ip + 1 + (ip - ii) / 32;
    }
    return false, ip, 0;
  }

  /** UA_GET32 and UA_GET64 in the machine's byte order. */
  method LoadWord(mem: array<byte>, a: Area, tu: Tuning, i: nat, ghost x: seq<byte>) returns (v: nat)
    requires a.Fits(mem.Length) && |x| == a.n && i + tu.word <= a.n && a.Intact(mem, x, i)
    ensures v == Loaded(x, i, tu.word, tu.bigEndian)
  {
    var bytes := mem[a.src + i..a.src + i + tu.word];
    assert bytes == x[i..i + tu.word] && bytes[0..tu.word] == bytes;
    SameBytes(bytes, 0, x, i, tu.word);
    v := Loaded(bytes, 0, tu.word, tu.bigEndian);
  }

  /** `if ((v & UCHAR_MAX) == 0) do { v >>= CHAR_BIT; m_len += 1; } while ((v & UCHAR_MAX) == 0);` */
  method TrailingBytes(v0: nat) returns (m: nat)
    requires v0 > 0
    ensures m == LowBit(v0) / 8
  {
    hide LowBit;
    var v := v0;
    m := 0;
    while v % 0x100 == 0
      invariant v > 0 && LowBit(v0) / 8 == m + LowBit(v) / 8
      decreases v
    {
      LowByteOut(v);
      v := v / 0x100;
      m := m + 1;
    }
    LowByteOut(v);
  }

  /** The same from the other end: `v >> (bits - CHAR_BIT)` is the top byte, and `v <<= CHAR_BIT` moves it out. */
  method TopBytes(v0: nat, w: nat) returns (m: nat)
    requires w >= 1 && 0 < v0 < Pow2(8 * w)
    ensures m == LeadingBytes(v0, w)
  {
    hide LeadingBytes, Pow2;
    var v := v0;
    m := 0;
    while v < Pow2(8 * (w - 1))
      invariant 0 < v < Pow2(8 * w) && LeadingBytes(v0, w) == m + LeadingBytes(v, w)
      decreases Pow2(8 * w) - v
    {
      HighByteOut(v, w);
      v := v * 0x100;
      m := m + 1;
    }
    HighByteOut(v, w);
  }

  /** How many bytes of two words agree, from the exclusive or of the words; single bytes are just compared. */
  method Agreeing(mem: array<byte>, a: Area, tu: Tuning, p: nat, q: nat, ghost x: seq<byte>) returns (m: nat)
    requires tu.Legal() && a.Fits(mem.Length) && |x| == a.n && p + tu.word <= a.n && q < p && a.Intact(mem, x, q)
    ensures m == Common(x, p, q, tu.word)
  {
    hide Loaded, LowBit, LeadingBytes, Xor, Pow2;
    if tu.word == 1 {
      assert mem[a.src + p] == x[p] && mem[a.src + q] == x[q];
      return if mem[a.src + p] == mem[a.src + q] then 1 else 0;
    }
    hide Common;
    AgreeingBytes(x, p, q, tu.word, tu.bigEndian);
    var left := LoadWord(mem, a, tu, p, x);
    var right := LoadWord(mem, a, tu, q, x);
    var v := Xor(left, right);
    if v == 0 {
      m := tu.word;
    } else if tu.bigEndian {
      if tu.bitScans {
        m := LeadingBytes(v, tu.word);
      } else {
        m := TopBytes(v, tu.word);
      }
    } else if tu.bitScans {
      m := LowBit(v) / 8;
    } else {
      m := TrailingBytes(v);
    }
  }

  /** Extend a match word by word. */
  method Extending(mem: array<byte>, a: Area, tu: Tuning, limit: nat, ip: nat, pos: nat, ghost x: seq<byte>)
    returns (len: nat)
    requires a.Fits(mem.Length) && |x| == a.n && a.Intact(mem, x, pos)
    requires tu.Legal() && pos < ip < limit && limit + 20 <= |x|
    ensures len == MatchLength(tu, x, limit, ip, pos, 4)
  {
    hide Common;
    len := 4;
    while true
      invariant len >= 4 && (len == 4 || ip + len < limit)
      invariant MatchLength(tu, x, limit, ip, pos, 4) == MatchLength(tu, x, limit, ip, pos, len)
      decreases limit + 8 - (ip + len)
    {
      var m := Agreeing(mem, a, tu, ip + len, pos + len, x);
      len := len + m;
      if m < tu.word || ip + len >= limit {
        return;
      }
    }
  }

  /** What has been emitted stays short: room for the next match's code is always left. */
  lemma EmissionFits(n: nat, op0: nat, op: nat, start: nat, ip: nat, len: nat, off: nat)
    requires start <= ip && ip + len <= n && 4 <= len && 1 <= off <= M4_MAX_OFFSET
    requires op0 <= start + start / 16 && op <= op0 + (ip - start) + 1 + (ip - start) / 16
    ensures op + |MatchCode(off, len, 0)| <= (ip + len) + (ip + len) / 16
    ensures op + |MatchCode(off, len, 0)| <= ip + n / 16 + 64
  {
    MatchCodeLength(off, len, 0);
    MatchCodeShort(off, len);
  }

  lemma MatchCodeShort(off: nat, len: nat)
    requires 4 <= len && 1 <= off <= M4_MAX_OFFSET
    ensures |MatchCode(off, len, 0)| <= 4 + len / 255
  {
  }

  /** Literals from `start` to `hit`, then the match found there, extended as far as it goes. */
  method EmitSegment(mem: array<byte>, a: Area, tu: Tuning, limit: nat, op0: nat, start: nat, hit: nat, pos: nat,
          ghost x: seq<byte>, ghost done: seq<Segment>)
    returns (op: nat, len: nat)
    requires tu.Legal() && start <= hit && pos < hit < limit && limit + 20 <= a.n == |x| && hit - pos <= M4_MAX_OFFSET
    requires Codable(done) && (done == [] ==> hit - start >= 4)
    requires a.Live(mem, x, Draft(done, 0), op0, start) && op0 <= start + start / 16
    modifies mem
    ensures len == MatchLength(tu, x, limit, hit, pos, 4)
    ensures (var next := done + [Segment(x[start..hit], hit - pos, len)];
             Codable(next) && a.Live(mem, x, Draft(next, 0), op, hit + len))
    ensures op <= (hit + len) + (hit + len) / 16 && Framed(mem, a)
  {
    hide MatchLength, Draft, MatchCode, Literals;
    var t := hit - start;
    var off := hit - pos;
    var op1 := EmitRun(mem, a, op0, start, t, x, done);
    len := Extending(mem, a, tu, limit, hit, pos, x);
    ghost var g := Segment(x[start..hit], off, len);
    EmissionFits(a.n, op0, op1, start, hit, len, off);
    DraftSnoc(done, g, 0);
    op := EmitMatch(mem, a, op1, off, len, x, Draft(done, Announced(t)) + Literals(g.lit), hit);
    Later(a, mem, x, Draft(done + [g], 0), op, hit, hit + len);
  }

  /** `done` has been emitted, and nothing else; the output is at most a sixteenth longer than that input. */
  ghost predicate Emitted(mem: array<byte>, a: Area, x: seq<byte>, done: seq<Segment>, op: nat, rest: nat)
    reads mem
  {
    Codable(done) && a.Live(mem, x, Draft(done, 0), op, rest) && op <= rest + rest / 16
  }

  /** Find the next match and emit it with the literals before it. */
  method NextSegment(mem: array<byte>, dict: array<int>, a: Area, tu: Tuning, op0: nat, base: nat, limit: nat,
          start: nat, ii: nat, ip: nat, ghost x: seq<byte>, ghost done: seq<Segment>)
    returns (found: bool, op: nat, next: nat)
    requires tu.Legal() && InBlock(tu, x, base, limit) && |x| == a.n && base <= ii <= ip && start <= ii
      && Behind(tu, dict[..], base, ip)
    requires Emitted(mem, a, x, done, op0, start) && (done == [] ==> ip - start >= 4)
    modifies mem, dict
    ensures (match NextMatch(tu, x, base, limit, ii, ip, old(dict[..]))
             case Nothing => !found && op == op0 && Emitted(mem, a, x, done, op, start)
             case Find(at, off, len, d) =>
               && found && next == at + len && dict[..] == d
               && Emitted(mem, a, x, done + [Segment(x[start..at], off, len)], op, next))
    ensures Framed(mem, a)
  {
    hide NextMatch, Behind, Draft;
    var at, pos, len;
    found, at, pos := Scanning(mem, dict, a, tu, base, limit, ii, ip, start, x);
    op, next := op0, start;
    if found {
      op, len := EmitSegment(mem, a, tu, limit, op0, start, at, pos, x, done);
      next := at + len;
    }
  }

  /** do_compress: one block. `done` are the segments already emitted. */
  method DoCompress(mem: array<byte>, dict: array<int>, a: Area, tu: Tuning, op0: nat, base: nat, end: nat,
          start: nat, ghost x: seq<byte>, ghost done: seq<Segment>)
    returns (op: nat, rest: nat, ghost emitted: seq<Segment>)
    requires tu.Legal() && start <= base && base + 20 < end <= a.n == |x| && InBlock(tu, x, base, end - 20)
    requires Emitted(mem, a, x, done, op0, start) && dict[..] == tu.FirstDict()
    modifies mem, dict
    ensures (var p := ParseBlock(tu, x, base, end, start); rest == p.rest && emitted == done + p.segs)
    ensures Emitted(mem, a, x, emitted, op, rest) && Framed(mem, a)
  {
    hide NextMatch, Behind, Emitted;
    var limit := end - 20;
    var ip := tu.FirstLookup(base, base - start);
    var ii := base;
    op, rest, emitted := op0, start, done;
    FirstBehind(tu, base, ip);
    ghost var target := ParseBlock(tu, x, base, end, start);
    hide ParseFrom;
    while true
      invariant base <= ii <= ip && rest <= ii && rest <= |x| && Behind(tu, dict[..], base, ip)
      invariant emitted == [] ==> ip - rest >= 4
      invariant (var q := ParseFrom(tu, x, base, limit, rest, ii, ip, dict[..]);
                 done + target.segs == emitted + q.segs && target.rest == q.rest)
      invariant Emitted(mem, a, x, emitted, op, rest) && Framed(mem, a)
      decreases |x| - ip
    {
      ParseUnfolds(tu, x, base, limit, rest, ii, ip, dict[..], emitted);
      ghost var f := NextMatch(tu, x, base, limit, ii, ip, dict[..]);
      var found, next;
      found, op, next := NextSegment(mem, dict, a, tu, op, base, limit, rest, ii, ip, x, emitted);
      if !found {
        return;
      }
      emitted := emitted + [Segment(x[rest..f.ip], f.off, f.len)];
      ip := next;
      rest, ii := ip, ip;
    }
  }

  lemma FirstBehind(tu: Tuning, base: nat, ip: nat)
    requires tu.Legal() && (tu.deterministic ==> base < ip)
    ensures Behind(tu, tu.FirstDict(), base, ip)
  {
  }

  /** How a stream ends, by the number of literals left. */
  lemma LastLiterals(done: seq<Segment>, tail: seq<byte>)
    requires Codable(done) && tail != []
    ensures done == [] && |tail| <= 238 ==> Encode(done, tail) == [17 + |tail|] + tail + EOF_MARK
    ensures done != [] && |tail| <= 3 ==> Encode(done, tail) == Draft(done, |tail|) + tail + EOF_MARK
    ensures |tail| > 3 && (done != [] || |tail| > 238)
      ==> Encode(done, tail) == Draft(done, 0) + RunHeader(|tail|) + tail + EOF_MARK
    ensures Draft(done, 0) == [] <==> done == []
  {
    DraftPatch(done, 0);
    EndRest(done, tail);
    hide RunHeader, Draft, EncodeRest;
    if |tail| > 3 {
      Regroup(Draft(done, 0), RunHeader(|tail|), tail, EOF_MARK);
    } else {
      Regroup(Draft(done, |tail|), tail, [], EOF_MARK);
      assert tail + [] == tail && Draft(done, |tail|) + tail + [] == Draft(done, |tail|) + tail;
    }
  }

  lemma Regroup(d: seq<byte>, h: seq<byte>, t: seq<byte>, e: seq<byte>)
    ensures d + (h + t + e) == d + h + t + e
  {
  }

  /** The stream of the segments `done` and the literals `tail`. */
  lemma EndRest(done: seq<Segment>, tail: seq<byte>)
    requires Codable(done)
    ensures EncodeRest(done, tail) == Draft(done, NextShort([], tail)) + (Literals(tail) + EOF_MARK)
  {
    hide Literals, Draft;
    DraftRest(done, [], tail);
    assert done + [] == done;
  }

  /** The header of the last literals; alone in the stream, up to 238 of them have a header of one byte. */
  method FinishHeader(mem: array<byte>, a: Area, op0: nat, start: nat, ghost x: seq<byte>, ghost done: seq<Segment>)
    returns (op: nat, ghost head: seq<byte>)
    requires start < a.n == |x| && Codable(done)
    requires a.Live(mem, x, Draft(done, 0), op0, start) && op0 <= start + start / 16 && (done == [] ==> start == 0)
    modifies mem
    ensures a.Live(mem, x, head, op, start) && op <= start + a.n / 16 + 2 && Framed(mem, a)
    ensures head + x[start..] + EOF_MARK == Encode(done, x[start..])
  {
    hide Draft, Encode, RunHeader;
    var t := a.n - start;
    LastLiterals(done, x[start..]);
    if op0 == 0 && t <= 238 {
      Put(mem, a, 0, 17 + t, x, Draft(done, 0), start);
      op, head := 1, [17 + t];
      assert Draft(done, 0) + [17 + t] == head;
    } else if t <= 3 {
      DraftPatch(done, t);
      mem[a.out + op0 - 2] := mem[a.out + op0 - 2] + t;
      op, head := op0, Draft(done, t);
    } else {
      RunHeaderLength(t);
      op := PutRunHeader(mem, a, op0, t, x, Draft(done, 0), start);
      head := Draft(done, 0) + RunHeader(t);
    }
  }

  /** Clear the dictionary where the build does so; otherwise it holds whatever it held. */
  method Prepare(dict: array<int>, tu: Tuning)
    requires tu.Legal() && dict.Length == DICT_SIZE && (!tu.deterministic ==> dict[..] == tu.initial)
    modifies dict
    ensures dict[..] == tu.FirstDict()
  {
    if tu.deterministic {
      for i := 0 to dict.Length
        invariant forall k :: 0 <= k < i ==> dict[k] == 0
      {
        dict[i] := 0;
      }
    }
  }

  method PutEnd(mem: array<byte>, a: Area, op: nat, ghost x: seq<byte>, ghost head: seq<byte>)
    requires a.Live(mem, x, head, op, a.n) && op + 3 <= a.n + a.n / 16 + 64
    modifies mem
    ensures a.Live(mem, x, head + EOF_MARK, op + 3, a.n) && Framed(mem, a)
  {
    Put(mem, a, op, 17, x, head, a.n);
    Put(mem, a, op + 1, 0, x, head + [17], a.n);
    Put(mem, a, op + 2, 0, x, head + [17] + [0], a.n);
    assert head + [17] + [0] + [0] == head + EOF_MARK;
  }

  /** The last literals and the end mark. */
  method FinishStream(mem: array<byte>, a: Area, op0: nat, start: nat, ghost x: seq<byte>, ghost done: seq<Segment>)
    returns (op: nat)
    requires start <= a.n == |x| && Emitted(mem, a, x, done, op0, start) && (done == [] ==> start == 0)
    modifies mem
    ensures Codable(done) && op == |Encode(done, x[start..])| && Framed(mem, a)
    ensures a.out + op <= mem.Length && mem[a.out..a.out + op] == Encode(done, x[start..])
  {
    hide Draft, Encode;
    op := op0;
    ghost var head := Draft(done, 0);
    if start < a.n {
      op, head := FinishHeader(mem, a, op, start, x, done);
      op := CopyTail(mem, a, op, start, a.n - start, x, head);
      assert x[start..start + (a.n - start)] == x[start..];
      head := head + x[start..];
    } else {
      NoLiterals(done, x[start..]);
    }
    PutEnd(mem, a, op, x, head);
    op := op + 3;
    assert mem[a.out..a.out + op] == head + EOF_MARK;
  }

  lemma NoLiterals(done: seq<Segment>, tail: seq<byte>)
    requires Codable(done) && tail == []
    ensures Encode(done, tail) == Draft(done, 0) + EOF_MARK
  {
    EndRest(done, tail);
    hide Draft, EncodeRest;
    assert Literals(tail) + EOF_MARK == EOF_MARK;
  }

  /** Segments of a block, then those of the blocks behind it. */
  lemma BlocksUnfold(tu: Tuning, x: seq<byte>, base: nat, start: nat, done: seq<Segment>)
    requires tu.Legal() && start <= base <= |x|
    ensures (var q := ParseBlocks(tu, x, base, start);
             if |x| - base <= 20 then done + q.segs == done && q.rest == start
             else
               var end := tu.BlockEnd(|x|, base);
               var p := ParseBlock(tu, x, base, end, start);
               var r := ParseBlocks(tu, x, end, p.rest);
               done + q.segs == done + p.segs + r.segs && q.rest == r.rest)
  {
    hide ParseBlock;
    if |x| - base > 20 {
      var end := tu.BlockEnd(|x|, base);
      var p := ParseBlock(tu, x, base, end, start);
      var r := ParseBlocks(tu, x, end, p.rest);
      assert done + (p.segs + r.segs) == done + p.segs + r.segs;
    }
  }

  /**
   * lzo1x_1_compress. For separate regions, and for an input that starts high enough above the
   * output, the bytes produced are the same function of the input; and nothing is stored outside
   * `n + n/16 + 64 + 3` bytes of output, the wide stores included.
   */
  method Compress(mem: array<byte>, dict: array<int>, a: Area, tu: Tuning) returns (op: nat)
    requires tu.Legal() && a.Fits(mem.Length) && dict.Length == DICT_SIZE
    requires !tu.deterministic ==> dict[..] == tu.initial
    modifies mem, dict
    ensures Framed(mem, a) && op <= a.n + a.n / 16 + 4
    ensures mem[a.out..a.out + op] == Compressed(tu, old(mem[a.src..a.src + a.n]))
  {
    hide Encode, ParseBlock, ParseBlocks, Emitted, Draft, Compressed;
    ghost var x := mem[a.src..a.src + a.n];
    ghost var done: seq<Segment> := [];
    ghost var target := ParseBlocks(tu, x, 0, 0);
    CompressedLength(tu, x);
    var base, start := 0, 0;
    op := 0;
    NothingEmitted(mem, a, x);
    assert done + target.segs == target.segs;
    while a.n - base > 20
      invariant 0 <= start <= base <= a.n && (done == [] ==> start == 0)
      invariant (var q := ParseBlocks(tu, x, base, start); target.segs == done + q.segs && target.rest == q.rest)
      invariant Emitted(mem, a, x, done, op, start) && Framed(mem, a)
      invariant !tu.deterministic ==> if base == 0 then dict[..] == tu.initial else base == a.n
    {
      Prepare(dict, tu);
      var end := tu.BlockEnd(a.n, base);
      BlocksUnfold(tu, x, base, start, done);
      op, start, done := DoCompress(mem, dict, a, tu, op, base, end, start, x, done);
      base := end;
    }
    BlocksUnfold(tu, x, base, start, done);
    CompressedIs(tu, x);
    op := FinishStream(mem, a, op, start, x, done);
  }

  lemma NothingEmitted(mem: array<byte>, a: Area, x: seq<byte>)
    requires a.Fits(mem.Length) && x == mem[a.src..a.src + a.n]
    ensures Emitted(mem, a, x, [], 0, 0)
  {
    DraftPatch([], 0);
    hide Draft;
  }

  lemma CompressedIs(tu: Tuning, x: seq<byte>)
    requires tu.Legal()
    ensures (var p := ParseBlocks(tu, x, 0, 0);
             Codable(p.segs) && Compressed(tu, x) == Encode(p.segs, x[p.rest..]))
  {
    hide ParseBlocks, Encode, Parse;
    ParseIsParse(tu, x);
    var p := ParseBlocks(tu, x, 0, 0);
    assert Valid([], p.segs) by {
      ParseValid(p.segs, x[p.rest..], x);
    }
    ValidCodable([], p.segs);
  }

  lemma ParseValid(segs: seq<Segment>, tail: seq<byte>, x: seq<byte>)
    requires Lzo1xRoundTrip.Parse(segs, tail, x)
    ensures Valid([], segs)
  {
  }
}
