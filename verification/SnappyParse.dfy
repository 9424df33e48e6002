/** The elements that Snappy compression makes of a block, as a function of the block alone. */
module SnappyParse {
  import opened Bytes
  import opened Lz77
  import opened SnappyFormat
  import opened SnappyMatch
  import opened SnappyReader
  import opened SnappySource
  import opened SnappyVarint
  import opened Words

  const BLOCK_SIZE := 0x1_0000
  const MARGIN := 15
  const MAX_TABLE := 0x4000

  /** Hash table entries are 16 bits. */
  type uint16 = v: int | 0 <= v < 0x1_0000

  type Table = seq<uint16>

  /** Any hash of four bytes for a given table size. */
  type Hash = (nat, nat) -> nat

  /** HashBytes, with the shift that a table of `size` entries calls for. */
  function DefaultHash(v: nat, size: nat): nat
    requires 1 <= size && Log2(size) <= 32
  {
    Shr(v * 0x1e35a7bd % WORD, 32 - Log2(size))
  }

  /** GetHashTable: 256 doubled until it covers the input or reaches the maximum. */
  function TableSize(n: nat, size: nat := 256): (r: nat)
    requires 256 <= size
    ensures r >= 256 && (size <= MAX_TABLE ==> r < 2 * MAX_TABLE)
    decreases if size < MAX_TABLE then MAX_TABLE - size else 0
  {
    if size < MAX_TABLE && size < n then TableSize(n, 2 * size) else size
  }

  function Slot(h: Hash, x: seq<byte>, i: nat, size: nat): (k: nat)
    requires i + 4 <= |x| && size >= 1
    ensures k < size
  {
    h(Load32(x, i), size) % size
  }

  /** A table's size is a power of two. */
  lemma {:induction false} TableSizeIsPow2(n: nat, size: nat, i: nat) returns (k: nat)
    requires size == Pow2(i) && 8 <= i <= 14 && size >= 256
    ensures 8 <= k <= 14 && TableSize(n, size) == Pow2(k)
    decreases 14 - i
  {
    assert Pow2(i + 1) == 2 * size;
    if i == 14 {
      assert Pow2(14) == MAX_TABLE by {
        SmallPowers();
      }
    }
    if size < MAX_TABLE && size < n {
      k := TableSizeIsPow2(n, 2 * size, i + 1);
    } else {
      k := i;
    }
  }

  lemma SmallPowers()
    ensures Pow2(8) == 256 && Pow2(14) == MAX_TABLE && Pow2(32) == WORD
  {
    WordIsPow2();
    Pow2Add(4, 2);
    Pow2Add(8, 6);
  }

  /**
   * The library's hash is an index into the table it is meant for, so that reducing it modulo the size
   * changes nothing, and the shift keeps exactly as many bits as the table's size has.
   */
  lemma HashFits(h: Hash, x: seq<byte>, i: nat, n: nat)
    requires i + 4 <= |x|
    ensures (var size := TableSize(n);
             && Log2(size) <= 14 && Pow2(Log2(size)) == size && Shr(WORD - 1, 32 - Log2(size)) == size - 1
             && DefaultHash(Load32(x, i), size) < size
             && (h(Load32(x, i), size) == DefaultHash(Load32(x, i), size)
                 ==> Slot(h, x, i, size) == DefaultHash(Load32(x, i), size)))
  {
    hide Load32, Log2, Pow2, TableSize, Shr, DefaultHash;
    SmallPowers();
    var k := TableSizeIsPow2(n, 256, 8);
    Log2OfPow2(k);
    UpperBits(WORD - 1, 32 - k, k);
    HashBelow(Load32(x, i), k);
    ModOfSmall(DefaultHash(Load32(x, i), Pow2(k)), Pow2(k));
  }

  lemma HashBelow(v: nat, k: nat)
    requires k <= 32 && Log2(Pow2(k)) == k && Pow2(32) == WORD
    ensures DefaultHash(v, Pow2(k)) < Pow2(k)
  {
    hide Log2, Pow2, Shr;
    UpperBits(v * 0x1e35a7bd % WORD, 32 - k, k);
  }

  lemma ModOfSmall(v: nat, size: nat)
    requires v < size
    ensures v % size == v
  {
  }

  /** Every entry names a position before `ip`. */
  ghost predicate Before(table: Table, ip: nat) {
    |table| >= 1 && forall k :: 0 <= k < |table| ==> table[k] < ip
  }

  datatype Hit = Hit(ip: nat, candidate: nat, table: Table) | Miss

  /** Step 1: scan for a match, every `skip / 32` bytes, and give up at the limit. */
  function Search(h: Hash, x: seq<byte>, limit: nat, ip: nat, skip: nat, table: Table): (r: Hit)
    requires limit + MARGIN == |x| <= BLOCK_SIZE && 32 <= skip && 1 <= ip && Before(table, ip)
    ensures r.Hit? ==> ip <= r.ip < limit && r.candidate < r.ip && Same4(x, r.ip, r.candidate)
                       && Before(r.table, r.ip + 1)
    decreases |x| - ip
  {
    var next := ip + skip / 32;
    if next > limit then Miss
    else
      var k := Slot(h, x, ip, |table|);
      var candidate := table[k];
      var table' := table[k := ip];
      if Same4(x, ip, candidate) then Hit(ip, candidate, table')
      else Search(h, x, limit, next, skip + 1, table')
  }

  /** The last literal, if any bytes are left. */
  function Remainder(x: seq<byte>, emit: nat): (els: seq<Element>)
    requires emit <= |x|
  {
    if emit < |x| then [Literal(x[emit..])] else []
  }

  /** The main loop: literals pend since `emit`, the scan resumes at `ip`. */
  function ParseFrom(h: Hash, x: seq<byte>, limit: nat, emit: nat, ip: nat, table: Table): (els: seq<Element>)
    requires limit + MARGIN == |x| <= BLOCK_SIZE && emit < ip <= |x| && Before(table, ip)
    decreases |x| - ip, 1
  {
    match Search(h, x, limit, ip, 32, table)
    case Miss => Remainder(x, emit)
    case Hit(at, candidate, table') => [Literal(x[emit..at])] + ParseCopies(h, x, limit, at, candidate, table')
  }

  /** The length of a match whose first four bytes agree. */
  function MatchedAt(x: seq<byte>, ip: nat, candidate: nat): (len: nat)
    requires candidate < ip && ip + 4 <= |x|
    ensures 4 <= len && ip + len <= |x|
  {
    4 + Common(x, ip + 4, candidate + 4, |x| - (ip + 4))
  }

  /** What the table looks like behind a match that ends at `end`, and the next candidate. */
  function Behind(h: Hash, x: seq<byte>, end: nat, table: Table): (r: (Table, nat))
    requires 1 <= end && end + 4 <= |x| <= BLOCK_SIZE && Before(table, end)
    ensures r.1 < end && Before(r.0, end + 1)
  {
    var t1 := table[Slot(h, x, end - 1, |table|) := end - 1];
    var k := Slot(h, x, end, |t1|);
    (t1[k := end], t1[k])
  }

  /** Step 3: copies, for as long as the bytes behind one match begin the next. */
  function ParseCopies(h: Hash, x: seq<byte>, limit: nat, ip: nat, candidate: nat, table: Table): (els: seq<Element>)
    requires limit + MARGIN == |x| <= BLOCK_SIZE && candidate < ip < limit && Before(table, ip + 1)
    decreases |x| - ip, 0
  {
    var end := ip + MatchedAt(x, ip, candidate);
    var copy := Copy(ip - candidate, end - ip);
    if end >= limit then [copy] + Remainder(x, end)
    else
      var (table', next) := Behind(h, x, end, table);
      if Same4(x, end, next) then [copy] + ParseCopies(h, x, limit, end, next, table')
      else [copy] + ParseFrom(h, x, limit, end, end + 1, table')
  }

  function ClearTable(size: nat): (t: Table)
    ensures |t| == size && forall k :: 0 <= k < size ==> t[k] == 0
  {
    seq<uint16>(size, _ => 0)
  }

  /** CompressFragment. */
  function ParseBlock(h: Hash, x: seq<byte>): seq<Element>
    requires |x| <= BLOCK_SIZE
  {
    if |x| < MARGIN then Remainder(x, 0)
    else ParseFrom(h, x, |x| - MARGIN, 0, 1, ClearTable(TableSize(|x|)))
  }

  // --------------------------------------------------------------------- meaning

  /** From `emit` on, the elements replay the input, can be coded, and cost little more than it. */
  ghost predicate Covers(x: seq<byte>, emit: nat, els: seq<Element>, slack: nat) {
    && emit <= |x| && Valid(x[..emit], els) && Expand(x[..emit], els) == x
    && AllCodable(els)
    && (var n := |x| - emit; |Encode(els)| <= n + n / 61 + slack)
  }

  lemma LiteralHeadLength(len: nat)
    requires 1 <= len <= BLOCK_SIZE
    ensures |LiteralHead(len)| <= 1 + len / 61
  {
    var n := len - 1;
    if n >= 60 && n < 0x100 {
      assert LittleEndian(n / 0x100) == [];
    }
  }

  lemma CoversNothing(x: seq<byte>)
    ensures Covers(x, |x|, [], 0)
  {
    assert x[..|x|] == x;
  }

  lemma CoversLiteral(x: seq<byte>, emit: nat, at: nat, els: seq<Element>)
    requires emit < at <= |x| <= BLOCK_SIZE && Covers(x, at, els, 0)
    ensures Covers(x, emit, [Literal(x[emit..at])] + els, 1)
  {
    hide LiteralHead;
    var b := x[emit..at];
    var all := [Literal(b)] + els;
    assert all[1..] == els;
    assert x[..emit] + b == x[..at];
    LiteralHeadLength(|b|);
    assert Encode(all) == LiteralHead(|b|) + b + Encode(els);
  }

  lemma CoversCopy(x: seq<byte>, ip: nat, off: nat, len: nat, els: seq<Element>)
    requires 1 <= off <= ip && 4 <= len && ip + len <= |x| <= BLOCK_SIZE && Repeats(x, ip, off, len)
    requires Covers(x, ip + len, els, 1)
    ensures Covers(x, ip, [Copy(off, len)] + els, 0)
  {
    hide CopyCode, CopyBack;
    var all := [Copy(off, len)] + els;
    assert all[1..] == els;
    CopyBackRepeats(x, ip, off, len);
    assert Encode(all) == CopyCode(off, len) + Encode(els);
  }

  lemma CoversMore(x: seq<byte>, emit: nat, els: seq<Element>)
    requires Covers(x, emit, els, 0)
    ensures Covers(x, emit, els, 1)
  {
  }

  lemma CoversRemainder(x: seq<byte>, emit: nat)
    requires emit <= |x| <= BLOCK_SIZE
    ensures Covers(x, emit, Remainder(x, emit), 1)
  {
    CoversNothing(x);
    if emit < |x| {
      CoversLiteral(x, emit, |x|, []);
      assert [Literal(x[emit..])] + [] == Remainder(x, emit);
    } else {
      CoversMore(x, emit, []);
    }
  }

  lemma MatchedRepeats(x: seq<byte>, ip: nat, candidate: nat)
    requires candidate < ip && ip + 4 <= |x| && Same4(x, ip, candidate)
    ensures Repeats(x, ip, ip - candidate, MatchedAt(x, ip, candidate))
  {
    CommonIsLongest(x, ip + 4, candidate + 4, |x| - (ip + 4));
  }

  lemma {:induction false} FromCovers(h: Hash, x: seq<byte>, limit: nat, emit: nat, ip: nat, table: Table)
    requires limit + MARGIN == |x| <= BLOCK_SIZE && emit < ip <= |x| && Before(table, ip)
    ensures Covers(x, emit, ParseFrom(h, x, limit, emit, ip, table), 1)
    decreases |x| - ip, 1
  {
    hide Search, Before, Covers;
    var r := Search(h, x, limit, ip, 32, table);
    if r.Hit? {
      CopiesCover(h, x, limit, r.ip, r.candidate, r.table);
      CoversLiteral(x, emit, r.ip, ParseCopies(h, x, limit, r.ip, r.candidate, r.table));
    } else {
      CoversRemainder(x, emit);
    }
  }

  lemma {:induction false} CopiesCover(h: Hash, x: seq<byte>, limit: nat, ip: nat, candidate: nat, table: Table)
    requires limit + MARGIN == |x| <= BLOCK_SIZE && candidate < ip < limit && Before(table, ip + 1)
      && Same4(x, ip, candidate)
    ensures Covers(x, ip, ParseCopies(h, x, limit, ip, candidate, table), 0)
    decreases |x| - ip, 0
  {
    hide Behind, Before, Covers, MatchedAt, ParseFrom;
    var len := MatchedAt(x, ip, candidate);
    var end := ip + len;
    MatchedRepeats(x, ip, candidate);
    BeforeLater(table, ip + 1, end);
    var tail: seq<Element>;
    if end >= limit {
      tail := Remainder(x, end);
      CoversRemainder(x, end);
    } else {
      var (table', next) := Behind(h, x, end, table);
      if Same4(x, end, next) {
        tail := ParseCopies(h, x, limit, end, next, table');
        CopiesCover(h, x, limit, end, next, table');
        CoversMore(x, end, tail);
      } else {
        tail := ParseFrom(h, x, limit, end, end + 1, table');
        FromCovers(h, x, limit, end, end + 1, table');
      }
    }
    CoversCopy(x, ip, ip - candidate, len, tail);
  }

  lemma BeforeLater(table: Table, ip: nat, later: nat)
    requires Before(table, ip) && ip <= later
    ensures Before(table, later)
  {
  }

  /** A block's elements replay the block, whatever the hash. */
  lemma BlockCovers(h: Hash, x: seq<byte>)
    requires |x| <= BLOCK_SIZE
    ensures Covers(x, 0, ParseBlock(h, x), 1)
  {
    hide Covers, TableSize;
    if |x| < MARGIN {
      CoversRemainder(x, 0);
    } else {
      FromCovers(h, x, |x| - MARGIN, 0, 1, ClearTable(TableSize(|x|)));
    }
  }

  // -------------------------------------------------------------- the whole stream

  /** The code of one block. */
  function BlockCode(h: Hash, x: seq<byte>): (c: seq<byte>)
    requires |x| <= BLOCK_SIZE
  {
    BlockCovers(h, x);
    Encode(ParseBlock(h, x))
  }

  /** The blocks of `x` from `p` on. */
  function Body(h: Hash, x: seq<byte>, p: nat): seq<byte>
    requires p <= |x|
    decreases |x| - p
  {
    if p == |x| then []
    else
      var q := if |x| - p < BLOCK_SIZE then |x| else p + BLOCK_SIZE;
      BlockCode(h, x[p..q]) + Body(h, x, q)
  }

  /** The compressed form of `x`: its length modulo 2^32, then its blocks. */
  function Compressed(h: Hash, x: seq<byte>): seq<byte> {
    Encoded(|x| % 0x1_0000_0000) + Body(h, x, 0)
  }

  /** What every store of the compressor stays inside: MaxCompressedLength. */
  function MaxCompressedLength(n: nat): nat {
    32 + n + n / 6
  }

  lemma {:induction false} BodyLength(h: Hash, x: seq<byte>, p: nat)
    requires p <= |x|
    ensures (var n := |x| - p; |Body(h, x, p)| <= n + n / 6 + 1)
    decreases |x| - p
  {
    hide ParseBlock, Encode;
    if p < |x| {
      var q := if |x| - p < BLOCK_SIZE then |x| else p + BLOCK_SIZE;
      BlockCovers(h, x[p..q]);
      BodyLength(h, x, q);
    }
  }

  /** Six bytes more than seven sixths of the input, at most. */
  lemma CompressedLength(h: Hash, x: seq<byte>)
    ensures |Compressed(h, x)| <= |x| + |x| / 6 + 6 <= MaxCompressedLength(|x|)
  {
    BodyLength(h, x, 0);
  }

  /** A block's code replays the block behind whatever came before. */
  lemma BlockReplays(h: Hash, x: seq<byte>, rest: seq<byte>, out: seq<byte>, limit: nat)
    requires |x| <= BLOCK_SIZE && |out| + |x| <= limit < 0x1_0000_0000
    ensures Replay(BlockCode(h, x) + rest, out, limit) == Replay(rest, out + x, limit)
  {
    hide ParseBlock, Replay, Encode;
    BlockCovers(h, x);
    var els := ParseBlock(h, x);
    assert x[..0] == [];
    ExpandBehind(out, [], els);
    assert out + [] == out;
    EncodeReplays(els, rest, out, limit);
  }

  lemma {:induction false} BodyReplays(h: Hash, x: seq<byte>, p: nat)
    requires p <= |x| < 0x1_0000_0000
    ensures Replay(Body(h, x, p), x[..p], |x|) == Succeeds(x)
    decreases |x| - p
  {
    hide BlockCode, Replay;
    if p == |x| {
      assert x[..p] == x;
      ReplayNothing(x, |x|);
    } else {
      var q := if |x| - p < BLOCK_SIZE then |x| else p + BLOCK_SIZE;
      BlockReplays(h, x[p..q], Body(h, x, q), x[..p], |x|);
      assert x[..p] + x[p..q] == x[..q];
      BodyReplays(h, x, q);
    }
  }

  lemma ReplayNothing(out: seq<byte>, limit: nat)
    ensures Replay([], out, limit) == Succeeds(out)
  {
  }

  /** Round trip: whatever the hash, the compressed form of fewer than 2^32 bytes decompresses to them. */
  lemma RoundTrip(h: Hash, x: seq<byte>)
    requires |x| < 0x1_0000_0000
    ensures Uncompressed(Compressed(h, x)) == Succeeds(x)
  {
    hide Body, Replay, Prefix, Encoded;
    var head := Encoded(|x|);
    EncodedReads(|x|, Body(h, x, 0));
    assert Compressed(h, x)[|head|..] == Body(h, x, 0);
    assert x[..0] == [];
    BodyReplays(h, x, 0);
  }

  /**
   * From any regions the compressed form comes back exactly when the length prefix can hold the length
   * and the decoder's 32-bit counts every region behind it.
   */
  lemma RoundTripFrom(h: Hash, x: seq<byte>, frags: seq<seq<byte>>)
    requires Filled(frags) && Flatten(frags) == Compressed(h, x)
    ensures Prefix(Flatten(frags)).Accepted?
    ensures Run(frags) == Returns(Succeeds(x)) <==> |x| < 0x1_0000_0000 && AllShort(BehindPrefix(frags))
  {
    hide Replay, Body, Run, Encoded, Prefix;
    EncodedReads(|x| % 0x1_0000_0000, Body(h, x, 0));
    RunSucceeds(frags, x);
    if |x| < 0x1_0000_0000 {
      RoundTrip(h, x);
    }
  }

  /**
   * As one flat buffer it comes back exactly when both the input and the blocks of its compressed form
   * have fewer than 2^32 bytes; if only the input has, decompression never ends.
   */
  lemma RoundTripExactly(h: Hash, x: seq<byte>)
    ensures (var c, fits := Compressed(h, x), |Body(h, x, 0)| < 0x1_0000_0000;
             && (Run(OneRegion(c)) == Returns(Succeeds(x)) <==> |x| < 0x1_0000_0000 && fits)
             && (|x| < 0x1_0000_0000 && !fits ==> Run(OneRegion(c)) == Endless))
  {
    hide Replay, Body, Run, Encoded, Prefix, Uncompressed;
    var c := Compressed(h, x);
    EncodedReads(|x| % 0x1_0000_0000, Body(h, x, 0));
    assert |c| - Prefix(c).used == |Body(h, x, 0)|;
    if |x| < 0x1_0000_0000 {
      RoundTrip(h, x);
      RunFlat(c);
    } else {
      RoundTripFrom(h, x, OneRegion(c));
    }
  }

  /** The bound on the compressed length leaves nothing to fear below six sevenths of 2^32 bytes. */
  lemma RoundTripBelow(h: Hash, x: seq<byte>)
    requires |x| + |x| / 6 + 1 < 0x1_0000_0000
    ensures Run(OneRegion(Compressed(h, x))) == Returns(Succeeds(x))
  {
    hide Body, Run, Compressed;
    BodyLength(h, x, 0);
    RoundTripExactly(h, x);
  }
}
