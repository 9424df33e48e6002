/** The parse that LZO1X-1 compression makes of its input, as a function of the input alone. */
module Lzo1xParse {
  import opened Bytes
  import opened Lz77
  import opened Lzo1xDecoder
  import opened Lzo1xFormat
  import opened Lzo1xRoundTrip

  const BLOCK_SIZE := 49152
  const DICT_SIZE := 0x4000

  /**
   * The dictionary: positions relative to the block. The deterministic build clears it for every
   * block and keeps unsigned shorts; the other, which is the one without unaligned loads, keeps pointers
   * and starts from whatever the memory holds, so that its entries may be any numbers at all.
   */
  type Dict = seq<int>

  /**
   * A compressor build: any hash of the four bytes, any second slot, the width of comparisons, the byte order,
   * and whether the compiler has bit scans.
   */
  datatype Tuning = Tuning(deterministic: bool, hash: nat -> nat, rehash: nat -> nat, word: nat, bigEndian: bool,
                           bitScans: bool, initial: Dict)
  {
    predicate Legal() {
      (word == 1 || word == 4 || word == 8) && |initial| == DICT_SIZE
    }

    /** DINDEX and DINDEX1: the masked hash of the four bytes at `i`. */
    function Slot(x: seq<byte>, i: nat): (k: nat)
      requires i + 4 <= |x|
      ensures k < DICT_SIZE
    {
      hash(Load32(x, i)) % DICT_SIZE
    }

    /** DINDEX2: the second slot tried. */
    function Slot2(k: nat): (r: nat)
      ensures r < DICT_SIZE
    {
      rehash(k) % DICT_SIZE
    }

    /** The first position looked up in a block that starts with `ti` pending literals. */
    function FirstLookup(base: nat, ti: nat): (ip: nat)
      ensures ip - base + ti >= 4 && (deterministic ==> ip > base)
    {
      var ip := base + (if ti < 4 then 4 - ti else 0);
      if deterministic then ip + 1 + (ip - base) / 32 else ip
    }

    /** How much input one block takes. */
    function BlockEnd(n: nat, base: nat): (end: nat)
      requires base <= n
      ensures base <= end <= n && (base + 20 < n ==> base + 20 < end)
    {
      if deterministic && n - base > BLOCK_SIZE then base + BLOCK_SIZE else n
    }

    function FirstDict(): (d: Dict)
      requires Legal()
      ensures |d| == DICT_SIZE && (deterministic ==> forall k :: 0 <= k < |d| ==> d[k] == 0)
    {
      if deterministic then ClearDict() else initial
    }
  }

  /** The hash that the library uses. */
  function DefaultHash(v: nat): nat {
    0x1824429d * v % 0x1_0000_0000 / 0x4_0000
  }

  /** It is an index into the dictionary: masking it changes nothing. */
  lemma HashFits(tu: Tuning, x: seq<byte>, i: nat)
    requires i + 4 <= |x|
    ensures DefaultHash(Load32(x, i)) < DICT_SIZE
    ensures tu.hash(Load32(x, i)) == DefaultHash(Load32(x, i)) ==> tu.Slot(x, i) == DefaultHash(Load32(x, i))
  {
    hide Load32;
    DivModUnique(DefaultHash(Load32(x, i)), DICT_SIZE, 0, DefaultHash(Load32(x, i)));
  }

  function ClearDict(): (d: Dict)
    ensures |d| == DICT_SIZE && forall k :: 0 <= k < |d| ==> d[k] == 0
  {
    seq<int>(DICT_SIZE, _ => 0)
  }

  /** In the deterministic build every entry names a position of the block that lies before `ip`. */
  ghost predicate Behind(tu: Tuning, dict: Dict, base: nat, ip: nat) {
    |dict| == DICT_SIZE && (tu.deterministic ==> forall k :: 0 <= k < |dict| ==> 0 <= dict[k] && base + dict[k] < ip)
  }

  /** How far a block reaches; a deterministic block is at most BLOCK_SIZE long. */
  ghost predicate InBlock(tu: Tuning, x: seq<byte>, base: nat, limit: nat) {
    limit + 20 <= |x| && (tu.deterministic ==> limit + 20 <= base + BLOCK_SIZE)
  }

  /** A candidate that may be compared with the bytes at `ip`, and the slot to update. */
  datatype Probe = Probe(slot: nat, candidate: bool, pos: int)

  /** LZO_CHECK_MPOS_NON_DET lets the entry through. */
  predicate Plausible(base: nat, ip: nat, entry: int) {
    base <= base + entry < ip && ip - (base + entry) <= M4_MAX_OFFSET
  }

  /** Worth comparing: close enough for a short code, or a fourth equal byte. */
  predicate Promising(x: seq<byte>, base: nat, ip: nat, entry: int)
    requires ip + 4 <= |x| && Plausible(base, ip, entry)
  {
    ip - (base + entry) <= M2_MAX_OFFSET || x[base + entry + 3] == x[ip + 3]
  }

  /** The lookup at `ip`: one slot in the deterministic build, up to two in the other. */
  function Lookup(tu: Tuning, x: seq<byte>, base: nat, ip: nat, dict: Dict): (p: Probe)
    requires base <= ip && ip + 4 <= |x| && Behind(tu, dict, base, ip)
    requires tu.deterministic ==> ip < base + BLOCK_SIZE
    ensures p.slot < DICT_SIZE
    ensures p.candidate ==> base <= p.pos < ip && ip - p.pos <= M4_MAX_OFFSET
  {
    var k := tu.Slot(x, ip);
    if tu.deterministic then Probe(k, true, base + dict[k])
    else if !Plausible(base, ip, dict[k]) then Probe(k, false, 0)
    else if Promising(x, base, ip, dict[k]) then Probe(k, true, base + dict[k])
    else
      var k2 := tu.Slot2(k);
      if Plausible(base, ip, dict[k2]) && Promising(x, base, ip, dict[k2]) then Probe(k2, true, base + dict[k2])
      else Probe(k2, false, 0)
  }

  datatype Hit = Hit(ip: nat, pos: nat, dict: Dict) | Miss

  /** The scan for a four-byte match, stepping faster the longer it fails. */
  function Search(tu: Tuning, x: seq<byte>, base: nat, limit: nat, ii: nat, ip: nat, dict: Dict): (r: Hit)
    requires InBlock(tu, x, base, limit) && base <= ii <= ip && Behind(tu, dict, base, ip)
    ensures r.Hit? ==> ip <= r.ip < limit && base <= r.pos < r.ip && r.ip - r.pos <= M4_MAX_OFFSET
    ensures r.Hit? ==> Same4(x, r.ip, r.pos) && Behind(tu, r.dict, base, r.ip + 1)
    decreases limit - ip
  {
    if ip >= limit then Miss
    else
      var p := Lookup(tu, x, base, ip, dict);
      var dict' := dict[p.slot := ip - base];
      if p.candidate && Same4(x, ip, p.pos) then Hit(ip, p.pos, dict')
      else Search(tu, x, base, limit, ii, ip + 1 + (ip - ii) / 32, dict')
  }

  /** Extend a match of `m` bytes a word at a time; near the end it may stop early. */
  function MatchLength(tu: Tuning, x: seq<byte>, limit: nat, ip: nat, pos: nat, m: nat): (len: nat)
    requires tu.Legal() && pos < ip < limit && limit + 20 <= |x| && (m == 4 || ip + m < limit)
    ensures m <= len && ip + len <= limit + 20
    decreases limit + 8 - (ip + m)
  {
    var c := Common(x, ip + m, pos + m, tu.word);
    if c < tu.word then m + c
    else if ip + m + tu.word >= limit then m + tu.word
    else MatchLength(tu, x, limit, ip, pos, m + tu.word)
  }

  /** The next match: where, how far back, how long, and the dictionary behind it. */
  datatype Find = Find(ip: nat, off: nat, len: nat, dict: Dict) | Nothing

  function NextMatch(tu: Tuning, x: seq<byte>, base: nat, limit: nat, ii: nat, ip: nat, dict: Dict): (f: Find)
    requires tu.Legal() && InBlock(tu, x, base, limit) && base <= ii <= ip && Behind(tu, dict, base, ip)
    ensures f.Find? ==> ip <= f.ip < limit && f.len >= 4 && f.ip + f.len <= limit + 20 && f.off <= M4_MAX_OFFSET
    ensures f.Find? ==> Repeats(x, f.ip, f.off, f.len) && Behind(tu, f.dict, base, f.ip + f.len)
  {
    match Search(tu, x, base, limit, ii, ip, dict)
    case Miss => Nothing
    case Hit(p, pos, d) =>
      MatchRepeats(tu, x, limit, p, pos);
      Find(p, p - pos, MatchLength(tu, x, limit, p, pos, 4), d)
  }

  lemma {:induction false} MatchLengthAgrees(tu: Tuning, x: seq<byte>, limit: nat, ip: nat, pos: nat, m: nat)
    requires tu.Legal() && pos < ip < limit && limit + 20 <= |x| && (m == 4 || ip + m < limit)
    ensures Repeats(x, ip + m, ip - pos, MatchLength(tu, x, limit, ip, pos, m) - m)
    decreases limit + 8 - (ip + m)
  {
    hide Repeats, Common;
    var c := Common(x, ip + m, pos + m, tu.word);
    CommonRepeats(x, ip + m, pos + m, tu.word);
    if c == tu.word && ip + m + tu.word < limit {
      MatchLengthAgrees(tu, x, limit, ip, pos, m + tu.word);
      RepeatsJoin(x, ip + m, ip - pos, c, MatchLength(tu, x, limit, ip, pos, m + tu.word) - (m + tu.word));
    }
  }

  lemma MatchRepeats(tu: Tuning, x: seq<byte>, limit: nat, ip: nat, pos: nat)
    requires tu.Legal() && pos < ip < limit && limit + 20 <= |x| && Same4(x, ip, pos)
    ensures Repeats(x, ip, ip - pos, MatchLength(tu, x, limit, ip, pos, 4))
  {
    hide MatchLength;
    MatchLengthAgrees(tu, x, limit, ip, pos, 4);
  }

  /** Segments found, and where the literals not yet in a segment start. */
  datatype Parsed = Parsed(segs: seq<Segment>, rest: nat)

  /** From label `next`: literals pend since `start`, the current run of failures since `ii`. */
  function ParseFrom(tu: Tuning, x: seq<byte>, base: nat, limit: nat, start: nat, ii: nat, ip: nat,
          dict: Dict): (p: Parsed)
    requires tu.Legal() && InBlock(tu, x, base, limit)
    requires base <= ii <= ip && start <= ii && Behind(tu, dict, base, ip)
    ensures if p.segs == [] then p.rest == start else start < p.rest <= limit + 20 && |p.segs[0].lit| >= ip - start
    decreases limit - ip
  {
    match NextMatch(tu, x, base, limit, ii, ip, dict)
    case Nothing => Parsed([], start)
    case Find(at, off, len, d) =>
      var end := at + len;
      var p := ParseFrom(tu, x, base, limit, end, end, end, d);
      Parsed([Segment(x[start..at], off, len)] + p.segs, p.rest)
  }

  /** One segment of the parse, unfolded behind segments already known. */
  lemma ParseUnfolds(tu: Tuning, x: seq<byte>, base: nat, limit: nat, start: nat, ii: nat, ip: nat, dict: Dict,
          done: seq<Segment>)
    requires tu.Legal() && InBlock(tu, x, base, limit)
    requires base <= ii <= ip && start <= ii && Behind(tu, dict, base, ip)
    ensures (var p := ParseFrom(tu, x, base, limit, start, ii, ip, dict);
             match NextMatch(tu, x, base, limit, ii, ip, dict)
             case Nothing => done + p.segs == done && p.rest == start
             case Find(at, off, len, d) =>
               var end := at + len;
               var q := ParseFrom(tu, x, base, limit, end, end, end, d);
               done + p.segs == done + [Segment(x[start..at], off, len)] + q.segs && p.rest == q.rest)
  {
    hide NextMatch, Behind;
    var f := NextMatch(tu, x, base, limit, ii, ip, dict);
    if f.Find? {
      var end := f.ip + f.len;
      var q := ParseFrom(tu, x, base, limit, end, end, end, f.dict);
      var g := Segment(x[start..f.ip], f.off, f.len);
      assert done + ([g] + q.segs) == done + [g] + q.segs;
    }
  }

  /** do_compress: one block, with literals pending since `start`. */
  function ParseBlock(tu: Tuning, x: seq<byte>, base: nat, end: nat, start: nat): (p: Parsed)
    requires tu.Legal() && start <= base && base + 20 < end <= |x| && InBlock(tu, x, base, end - 20)
    ensures if p.segs == [] then p.rest == start else start < p.rest <= end && |p.segs[0].lit| >= 4
  {
    ParseFrom(tu, x, base, end - 20, start, base, tu.FirstLookup(base, base - start), tu.FirstDict())
  }

  /** lzo1x_1_compress: block after block until at most 20 bytes are left. */
  function ParseBlocks(tu: Tuning, x: seq<byte>, base: nat, start: nat): (p: Parsed)
    requires tu.Legal() && start <= base <= |x|
    ensures start <= p.rest <= |x|
    decreases |x| - base
  {
    if |x| - base <= 20 then Parsed([], start)
    else
      var end := tu.BlockEnd(|x|, base);
      var p := ParseBlock(tu, x, base, end, start);
      var q := ParseBlocks(tu, x, end, p.rest);
      Parsed(p.segs + q.segs, q.rest)
  }

  // ---------------------------------------------------------- what the parse means

  /** Whatever the hash does, the segments replay the input from `start` to `rest`. */
  lemma {:induction false} ParseFromMeans(tu: Tuning, x: seq<byte>, base: nat, limit: nat, start: nat, ii: nat,
          ip: nat, dict: Dict)
    requires tu.Legal() && InBlock(tu, x, base, limit)
    requires base <= ii <= ip && start <= ii && start <= |x| && Behind(tu, dict, base, ip)
    ensures (var p := ParseFrom(tu, x, base, limit, start, ii, ip, dict);
             Valid(x[..start], p.segs) && Expand(x[..start], p.segs) == x[..p.rest])
    decreases limit - ip
  {
    hide NextMatch, CopyBack, Behind, Valid, Expand;
    var f := NextMatch(tu, x, base, limit, ii, ip, dict);
    if f.Find? {
      var end := f.ip + f.len;
      var p := ParseFrom(tu, x, base, limit, end, end, end, f.dict);
      ParseFromMeans(tu, x, base, limit, end, end, end, f.dict);
      assert x[..start] + x[start..f.ip] == x[..f.ip];
      CopyBackRepeats(x, f.ip, f.off, f.len);
      ExpandCons(x[..start], Segment(x[start..f.ip], f.off, f.len), p.segs);
    } else {
      ExpandNothing(x[..start]);
    }
  }

  lemma ExpandNothing(out: seq<byte>)
    ensures Valid(out, []) && Expand(out, []) == out
  {
  }

  /** Parses compose. */
  lemma {:induction false} ExpandAppend(out: seq<byte>, a: seq<Segment>, b: seq<Segment>)
    requires Valid(out, a) && Valid(Expand(out, a), b)
    ensures Valid(out, a + b) && Expand(out, a + b) == Expand(Expand(out, a), b)
    decreases |a|
  {
    if a == [] {
      assert a + b == b;
    } else {
      ExpandAppend(CopyBack(out + a[0].lit, a[0].off, a[0].len), a[1..], b);
      assert (a + b)[1..] == a[1..] + b;
    }
  }

  lemma {:induction false} ParseBlocksMeans(tu: Tuning, x: seq<byte>, base: nat, start: nat)
    requires tu.Legal() && start <= base <= |x|
    ensures (var p := ParseBlocks(tu, x, base, start);
             && Valid(x[..start], p.segs) && Expand(x[..start], p.segs) == x[..p.rest]
             && (p.segs != [] ==> |p.segs[0].lit| >= 4))
    decreases |x| - base
  {
    hide ParseFrom, CopyBack, ClearDict;
    if |x| - base > 20 {
      var end := tu.BlockEnd(|x|, base);
      var p := ParseBlock(tu, x, base, end, start);
      var q := ParseBlocks(tu, x, end, p.rest);
      ParseFromMeans(tu, x, base, end - 20, start, base, tu.FirstLookup(base, base - start), tu.FirstDict());
      ParseBlocksMeans(tu, x, end, p.rest);
      ExpandAppend(x[..start], p.segs, q.segs);
      if p.segs == [] {
        assert p.segs + q.segs == q.segs;
      }
    }
  }

  /** The parse of the whole input is one that the format can carry. */
  lemma ParseIsParse(tu: Tuning, x: seq<byte>)
    requires tu.Legal()
    ensures (var p := ParseBlocks(tu, x, 0, 0); Parse(p.segs, x[p.rest..], x))
  {
    hide ParseBlocks, Valid, Expand;
    ParseBlocksMeans(tu, x, 0, 0);
    var p := ParseBlocks(tu, x, 0, 0);
    assert x[..0] == [];
    assert x == x[..p.rest] + x[p.rest..];
  }

  /** The compressed form of `x`. */
  function Compressed(tu: Tuning, x: seq<byte>): (c: seq<byte>)
    requires tu.Legal()
  {
    var p := ParseBlocks(tu, x, 0, 0);
    ParseIsParse(tu, x);
    ValidCodable([], p.segs);
    Encode(p.segs, x[p.rest..])
  }

  /** At most a sixteenth, and 4 bytes, longer than the input. */
  lemma CompressedLength(tu: Tuning, x: seq<byte>)
    requires tu.Legal()
    ensures |Compressed(tu, x)| <= |x| + |x| / 16 + 4
  {
    ParseIsParse(tu, x);
    var p := ParseBlocks(tu, x, 0, 0);
    EncodeLength(p.segs, x[p.rest..], x);
  }

  /**
   * Round trip: both decoder builds accept the compressed form and return the input, given room for
   * it; and if the output starts so far below the input that `d + |compressed|` bytes hold the
   * input, a sixteenth and 6 bytes more, then no byte is overwritten before it was read.
   */
  lemma RoundTrip(tu: Tuning, x: seq<byte>, checks: bool, past: nat -> byte, cap: nat, word: Word, wide: bool,
          d: int)
    requires tu.Legal() && |x| <= cap < word && |Compressed(tu, x)| < word
    requires |x| + |x| / 16 + 6 <= d + |Compressed(tu, x)|
    ensures (var e := Env(checks, Compressed(tu, x), past, cap, word, wide); Yields(e, d, Begin(e), x))
  {
    hide Begin, Encode, Parse, ParseBlocks;
    ParseIsParse(tu, x);
    var p := ParseBlocks(tu, x, 0, 0);
    DecodeEncode(p.segs, x[p.rest..], x, checks, past, cap, word, wide, d);
  }
}
