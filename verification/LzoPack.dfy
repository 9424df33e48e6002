/** lzopack.c: a container of blocks, compressed or stored, with a checksum over the contents. */
module LzoPack {
  import opened Bytes
  import opened Adler32
  import opened Lzo1xDecoder
  import opened Lzo1xParse
  import opened Lzo1xCompress
  import opened Lzo1xDecompress
  import opened Lzo1xSafe
  import Overlap

  const MAGIC: seq<byte> := [0x00, 0xe9, 0x4c, 0x5a, 0x4f, 0xff, 0x1a]

  /** A file's bytes, and how far it has been read. Writing appends. */
  class File {
    var data: seq<byte>
    var pos: nat

    constructor (data: seq<byte>)
      ensures this.data == data && pos == 0
    {
      this.data, pos := data, 0;
    }

    ghost predicate Valid()
      reads this
    {
      pos <= |data|
    }

    ghost function Left(): seq<byte>
      requires Valid()
      reads this
    {
      data[pos..]
    }

    /** lzo_fread into a buffer: as much as there is. */
    method Read(buf: array<byte>, at: nat, len: nat) returns (l: nat)
      requires Valid() && at + len <= buf.Length
      modifies this, buf
      ensures Valid() && data == old(data) && pos >= old(pos) && l <= len && l <= |old(Left())|
      ensures pos == old(pos) + l && (l == len || Left() == [])
      ensures Left() == old(Left())[l..] && buf[at..at + l] == old(Left())[..l]
    {
      l := if |data| - pos < len then |data| - pos else len;
      forall i | 0 <= i < l {
        buf[at + i] := data[pos + i];
      }
      pos := pos + l;
    }

    method Write(s: seq<byte>)
      modifies this`data
      ensures data == old(data) + s
    {
      data := data + s;
    }
  }

  /** The big-endian bytes of a 32-bit number. */
  function Be32(v: nat): (s: seq<byte>)
    requires v < 0x1_0000_0000
    ensures |s| == 4
  {
    [v / 0x100_0000, v / 0x1_0000 % 0x100, v / 0x100 % 0x100, v % 0x100]
  }

  function FromBe32(s: seq<byte>): (v: nat)
    requires |s| == 4
    ensures v < 0x1_0000_0000
  {
    Le16(s[3], s[2]) + 0x1_0000 * Le16(s[1], s[0])
  }

  lemma Be32RoundTrip(v: nat)
    requires v < 0x1_0000_0000
    ensures FromBe32(Be32(v)) == v
  {
    var h, l := v / 0x1_0000, v % 0x1_0000;
    assert v / 0x100_0000 == h / 0x100 && v / 0x100 % 0x100 == l / 0x100 && v % 0x100 == l % 0x100;
  }

  /** The byte of the highest value comes first. */
  lemma Be32Is(a: byte, b: byte, c: byte, d: byte)
    ensures Be32(0x100_0000 * a + 0x1_0000 * b + 0x100 * c + d) == [a, b, c, d]
    ensures FromBe32([a, b, c, d]) == 0x100_0000 * a + 0x1_0000 * b + 0x100 * c + d
  {
    var v := 0x100_0000 * a + 0x1_0000 * b + 0x100 * c + d;
    assert v / 0x1_0000 == 0x100 * a + b && v / 0x100 == 0x1_0000 * a + 0x100 * b + c;
  }

  /** A block of the contents, and the build that compresses it. */
  datatype Block = Block(raw: seq<byte>, tu: Tuning)
  {
    ghost predicate Good(blockSize: nat) {
      1 <= |raw| <= blockSize && tu.Legal()
    }

    /** The compressed form, where it is shorter. */
    ghost function Payload(): seq<byte>
      requires tu.Legal()
    {
      var c := Compressed(tu, raw);
      if |c| < |raw| then c else raw
    }
  }

  ghost predicate AllGood(blocks: seq<Block>, blockSize: nat) {
    blockSize <= MAX_BLOCK && forall i :: 0 <= i < |blocks| ==> blocks[i].Good(blockSize)
  }

  /** What the blocks hold. */
  ghost function Joined(blocks: seq<Block>): seq<byte> {
    if blocks == [] then [] else blocks[0].raw + Joined(blocks[1..])
  }

  const MAX_BLOCK: nat := 8 * 1024 * 1024

  ghost function BlockBytes(b: Block, blockSize: nat): seq<byte>
    requires b.Good(blockSize) && blockSize <= MAX_BLOCK
  {
    PayloadSize(b, blockSize);
    Be32(|b.raw|) + Be32(|b.Payload()|) + b.Payload()
  }

  lemma PayloadSize(b: Block, size: nat)
    requires b.Good(size)
    ensures 1 <= |b.Payload()| <= |b.raw| <= size
    ensures |b.Payload()| == |b.raw| ==> b.Payload() == b.raw
    ensures |b.Payload()| < |b.raw| ==> b.Payload() == Compressed(b.tu, b.raw)
  {
    NotEmpty(b.tu, b.raw);
    hide Compressed;
  }

  /** A stream holds at least its end mark. */
  lemma NotEmpty(tu: Tuning, x: seq<byte>)
    requires tu.Legal()
    ensures Compressed(tu, x) != []
  {
    hide ParseBlocks;
  }

  /** The blocks one after the other. */
  ghost function Body(blocks: seq<Block>, blockSize: nat): seq<byte>
    requires AllGood(blocks, blockSize)
    decreases |blocks|
  {
    if blocks == [] then [] else BlockBytes(blocks[0], blockSize) + Body(blocks[1..], blockSize)
  }

  function Header(level: byte, blockSize: nat): seq<byte>
    requires blockSize <= MAX_BLOCK
  {
    MAGIC + Be32(1) + [1] + [level] + Be32(blockSize)
  }

  const START: uint32 := 1

  /** The whole container. */
  ghost function Container(blocks: seq<Block>, level: byte, blockSize: nat): seq<byte>
    requires AllGood(blocks, blockSize)
  {
    Header(level, blockSize) + Body(blocks, blockSize) + Trailer(Adler(START, Joined(blocks)))
  }

  // ------------------------------------------------------------------ compression

  /** Compress the block in the buffer and write it, or store it when that is not shorter. */
  method PackBlock(mem: array<byte>, dict: array<int>, fo: File, inLen: nat, blockSize: nat, tu: Tuning)
    returns (r: int, ghost b: Block)
    requires tu.Legal() && dict.Length == DICT_SIZE && 1 <= inLen <= blockSize <= MAX_BLOCK
    requires mem.Length == blockSize + (blockSize + blockSize / 16 + 64 + 3)
    modifies mem, dict, fo`data
    ensures r == 0 && b.Good(blockSize) && b == Block(old(mem[..inLen]), Overlap.WithDict(tu, old(dict[..])))
    ensures fo.data == old(fo.data) + BlockBytes(b, blockSize)
  {
    hide Compressed, Be32, BlockBytes, Overlap.WithDict, Block.Payload;
    r := 0;
    ghost var raw := mem[..inLen];
    assert mem[0..0 + inLen] == raw;
    var build := Overlap.WithDict(tu, dict[..]);
    b := Block(raw, build);
    BlockIsCode(b, blockSize);
    var outLen := Compress(mem, dict, Area(0, inLen, blockSize), build);
    assert mem[..inLen] == raw;
    if outLen > inLen + inLen / 16 + 64 + 3 {
      r := 2;
      return;
    }
    fo.Write(Be32(inLen));
    if outLen < inLen {
      fo.Write(Be32(outLen));
      fo.Write(mem[blockSize..blockSize + outLen]);
    } else {
      fo.Write(Be32(inLen));
      fo.Write(mem[..inLen]);
    }
    assert fo.data == old(fo.data) + BlockBytes(b, blockSize);
  }

  lemma {:induction false} BlocksSnoc(blocks: seq<Block>, b: Block, blockSize: nat)
    requires AllGood(blocks, blockSize) && b.Good(blockSize)
    ensures AllGood(blocks + [b], blockSize) && Joined(blocks + [b]) == Joined(blocks) + b.raw
    ensures Body(blocks + [b], blockSize) == Body(blocks, blockSize) + BlockBytes(b, blockSize)
    decreases |blocks|
  {
    hide BlockBytes, Block.Good;
    if blocks == [] {
      assert blocks + [b] == [b];
      assert [b][1..] == [];
      assert [] + b.raw == b.raw + [];
    } else {
      BlocksSnoc(blocks[1..], b, blockSize);
      assert (blocks + [b])[1..] == blocks[1..] + [b];
      var x, y, z := blocks[0].raw, Joined(blocks[1..]), b.raw;
      assert x + (y + z) == x + y + z;
    }
  }

  /** The contents in blocks of the same size, but for the last. */
  ghost function Chop(s: seq<byte>, blockSize: nat): (c: seq<seq<byte>>)
    requires blockSize >= 1
    decreases |s|
  {
    if s == [] then [] else if |s| <= blockSize then [s] else [s[..blockSize]] + Chop(s[blockSize..], blockSize)
  }

  ghost function Raws(blocks: seq<Block>): (r: seq<seq<byte>>)
    ensures |r| == |blocks| && forall i :: 0 <= i < |blocks| ==> r[i] == blocks[i].raw
  {
    seq(|blocks|, i requires 0 <= i < |blocks| => blocks[i].raw)
  }

  /** Every block was compressed by the build `tu`, from whatever dictionary it found. */
  ghost predicate BuiltBy(blocks: seq<Block>, tu: Tuning) {
    forall i :: 0 <= i < |blocks| ==> blocks[i].tu == Overlap.WithDict(tu, blocks[i].tu.initial)
  }

  lemma ChopFirst(s: seq<byte>, blockSize: nat)
    requires s != [] && blockSize >= 1
    ensures (var n := if |s| < blockSize then |s| else blockSize;
             Chop(s, blockSize) == [s[..n]] + Chop(s[n..], blockSize))
  {
    assert |s| <= blockSize ==> s[..|s|] == s && s[|s|..] == [];
  }

  lemma Shifted(a: seq<seq<byte>>, r: seq<byte>, rest: seq<seq<byte>>)
    ensures a + [r] + rest == a + ([r] + rest)
  {
  }

  lemma RawsSnoc(blocks: seq<Block>, b: Block)
    ensures Raws(blocks + [b]) == Raws(blocks) + [b.raw]
  {
  }

  /** One block more of the contents. */
  lemma ChopMore(blocks: seq<Block>, b: Block, left: seq<byte>, all: seq<byte>, blockSize: nat)
    requires left != [] && blockSize >= 1 && Raws(blocks) + Chop(left, blockSize) == Chop(all, blockSize)
    requires b.raw == left[..if |left| < blockSize then |left| else blockSize]
    ensures Raws(blocks + [b]) + Chop(left[|b.raw|..], blockSize) == Chop(all, blockSize)
  {
    hide Chop, Raws;
    ChopFirst(left, blockSize);
    RawsSnoc(blocks, b);
    Shifted(Raws(blocks), b.raw, Chop(left[|b.raw|..], blockSize));
  }

  /** The block `i` of the contents. */
  function Slice(s: seq<byte>, blockSize: nat, i: nat): seq<byte> {
    Window(s, i * blockSize, blockSize)
  }

  function Window(s: seq<byte>, at: nat, size: nat): seq<byte> {
    if at >= |s| then [] else if at + size >= |s| then s[at..] else s[at..at + size]
  }

  /** There are as many blocks as begin inside the contents, and each takes up where the one before it ends. */
  lemma {:induction false} ChopAt(s: seq<byte>, blockSize: nat, i: nat)
    requires blockSize >= 1
    ensures i < |Chop(s, blockSize)| <==> i * blockSize < |s|
    ensures i < |Chop(s, blockSize)| ==> Chop(s, blockSize)[i] == Slice(s, blockSize, i)
    decreases i
  {
    if s != [] {
      ChopFirst(s, blockSize);
      hide Chop;
      if i > 0 {
        var n := if |s| < blockSize then |s| else blockSize;
        ChopAt(s[n..], blockSize, i - 1);
        assert i * blockSize == (i - 1) * blockSize + blockSize;
        WindowShift(s, n, (i - 1) * blockSize, blockSize);
      }
    }
  }

  lemma WindowShift(s: seq<byte>, n: nat, at: nat, size: nat)
    requires n <= |s| && (n == size || n == |s| < size)
    ensures Window(s[n..], at, size) == Window(s, at + size, size)
  {
  }

  /** What a block is written as: two lengths, and the shorter of its compressed form and itself. */
  ghost function BlockCode(tu: Tuning, raw: seq<byte>): seq<byte>
    requires tu.Legal() && |raw| <= MAX_BLOCK
  {
    var c := Compressed(tu, raw);
    if |c| < |raw| then Be32(|raw|) + Be32(|c|) + c else Be32(|raw|) + Be32(|raw|) + raw
  }

  ghost function BodyCode(tu: Tuning, raws: seq<seq<byte>>): seq<byte>
    requires tu.Legal() && forall i :: 0 <= i < |raws| ==> |raws[i]| <= MAX_BLOCK
  {
    if raws == [] then [] else BlockCode(tu, raws[0]) + BodyCode(tu, raws[1..])
  }

  lemma {:induction false} ChopSmall(s: seq<byte>, blockSize: nat)
    requires 1 <= blockSize <= MAX_BLOCK
    ensures forall i :: 0 <= i < |Chop(s, blockSize)| ==> |Chop(s, blockSize)[i]| <= MAX_BLOCK
    decreases |s|
  {
    if |s| > blockSize {
      ChopSmall(s[blockSize..], blockSize);
    }
  }

  function SizeBytes(n: nat): seq<byte>
    requires n <= MAX_BLOCK
  {
    [0, n / 65536, n / 256 % 256, n % 256]
  }

  /** The container as a function of the contents, for the build that always starts from a clear dictionary. */
  ghost function ContainerOf(tu: Tuning, contents: seq<byte>, level: byte, blockSize: nat): seq<byte>
    requires tu.Legal() && 1 <= blockSize <= MAX_BLOCK
  {
    ChopSmall(contents, blockSize);
    [0x00, 0xe9, 0x4c, 0x5a, 0x4f, 0xff, 0x1a] + [0, 0, 0, 1] + [1, level] + SizeBytes(blockSize)
    + BodyCode(tu, Chop(contents, blockSize)) + [0, 0, 0, 0] + Be32(Adler(1, contents) as int)
  }

  lemma BlockIsCode(b: Block, blockSize: nat)
    requires b.Good(blockSize) && blockSize <= MAX_BLOCK
    ensures BlockBytes(b, blockSize) == BlockCode(b.tu, b.raw)
  {
    hide Compressed, Be32;
  }

  lemma {:induction false} BodyIsCode(blocks: seq<Block>, tu: Tuning, raws: seq<seq<byte>>, blockSize: nat)
    requires AllGood(blocks, blockSize) && BuiltBy(blocks, tu) && tu.deterministic && tu.Legal()
    requires Raws(blocks) == raws && forall i :: 0 <= i < |raws| ==> |raws[i]| <= MAX_BLOCK
    ensures Body(blocks, blockSize) == BodyCode(tu, raws)
    decreases |blocks|
  {
    hide BlockBytes, BlockCode, Block.Good;
    if blocks != [] {
      BlockIsCode(blocks[0], blockSize);
      assert Raws(blocks[1..]) == raws[1..];
      BodyIsCode(blocks[1..], tu, raws[1..], blockSize);
    }
  }

  lemma HeaderCode(level: byte, blockSize: nat)
    requires blockSize <= MAX_BLOCK
    ensures Header(level, blockSize)
         == [0x00, 0xe9, 0x4c, 0x5a, 0x4f, 0xff, 0x1a] + [0, 0, 0, 1] + [1, level]
          + SizeBytes(blockSize)
  {
    Be32Is(0, 0, 0, 1);
    var a, b, c := blockSize / 65536, blockSize / 256 % 256, blockSize % 256;
    assert 0x1_0000 * a + 0x100 * b + c == blockSize;
    Be32Is(0, a, b, c);
    hide Be32;
  }

  /** A deterministic build leaves no choice. */
  lemma OneContainer(blocks: seq<Block>, tu: Tuning, contents: seq<byte>, level: byte, blockSize: nat)
    requires AllGood(blocks, blockSize) && BuiltBy(blocks, tu) && tu.deterministic && tu.Legal()
    requires 1 <= blockSize <= MAX_BLOCK && Raws(blocks) == Chop(contents, blockSize) && Joined(blocks) == contents
    ensures Container(blocks, level, blockSize) == ContainerOf(tu, contents, level, blockSize)
  {
    hide Body, BodyCode, Adler, Be32, AllGood, Raws, Chop, BuiltBy, Joined, Header;
    ChopSmall(contents, blockSize);
    BodyIsCode(blocks, tu, Chop(contents, blockSize), blockSize);
    HeaderCode(level, blockSize);
    Be32Is(0, 0, 0, 0);
  }

  /** `blocks` hold what has been read of `all`, cut as it is to be. */
  ghost predicate Cut(blocks: seq<Block>, tu: Tuning, all: seq<byte>, left: seq<byte>, blockSize: nat)
    requires blockSize >= 1
  {
    && AllGood(blocks, blockSize) && BuiltBy(blocks, tu) && Joined(blocks) + left == all
    && Raws(blocks) + Chop(left, blockSize) == Chop(all, blockSize)
  }

  lemma NothingCut(tu: Tuning, all: seq<byte>, blockSize: nat)
    requires 1 <= blockSize <= MAX_BLOCK
    ensures Cut([], tu, all, all, blockSize)
    ensures AllGood([], blockSize) && Body([], blockSize) == [] && Adler(START, Joined([])) == START
  {
    NoBlocks(blockSize);
    NothingBuilt(tu, all, blockSize);
    hide AllGood, BuiltBy, Raws, Chop, Adler, SumsUp;
    assert [] + all == all;
  }

  /** One block more. */
  lemma CutMore(blocks: seq<Block>, b: Block, tu: Tuning, all: seq<byte>, left: seq<byte>, blockSize: nat)
    requires 1 <= blockSize && Cut(blocks, tu, all, left, blockSize) && left != [] && b.Good(blockSize)
    requires b.raw == left[..if |left| < blockSize then |left| else blockSize]
    requires exists d :: b.tu == Overlap.WithDict(tu, d)
    ensures AllGood(blocks, blockSize) && Cut(blocks + [b], tu, all, left[|b.raw|..], blockSize)
    ensures AllGood(blocks + [b], blockSize) && Joined(blocks + [b]) == Joined(blocks) + b.raw
    ensures Body(blocks + [b], blockSize) == Body(blocks, blockSize) + BlockBytes(b, blockSize)
  {
    hide AllGood, BuiltBy, Raws, Chop, Body, Joined, BlockBytes, Block.Good, Overlap.WithDict;
    BlocksSnoc(blocks, b, blockSize);
    BuiltSnoc(blocks, b, tu);
    ChopMore(blocks, b, left, all, blockSize);
    assert left == b.raw + left[|b.raw|..];
  }

  lemma AllCut(blocks: seq<Block>, tu: Tuning, all: seq<byte>, blockSize: nat)
    requires 1 <= blockSize && Cut(blocks, tu, all, [], blockSize)
    ensures AllGood(blocks, blockSize) && BuiltBy(blocks, tu) && Joined(blocks) == all
    ensures Raws(blocks) == Chop(all, blockSize)
  {
    NothingToChop(blockSize);
    hide AllGood, BuiltBy, Raws, Chop, Joined;
  }

  /** do_compress at every level but 9. The blocks written are what was left to read, cut into blocks. */
  method DoCompress(fi: File, fo: File, level: byte, blockSize: nat, tu: Tuning)
    returns (r: int, ghost blocks: seq<Block>)
    requires fi != fo && fi.Valid() && tu.Legal()
    requires 1024 <= blockSize <= MAX_BLOCK && level != 9
    modifies fi, fo
    ensures r == 0 && AllGood(blocks, blockSize) && Joined(blocks) == old(fi.Left())
    ensures Raws(blocks) == Chop(old(fi.Left()), blockSize) && BuiltBy(blocks, tu)
    ensures fo.data == old(fo.data) + Container(blocks, level, blockSize)
    ensures tu.deterministic ==> fo.data == old(fo.data) + ContainerOf(tu, old(fi.Left()), level, blockSize)
  {
    hide Body, Joined, BlockBytes, Header, Adler, SumsUp, Be32, AllGood, Block.Good, Raws, Chop, BuiltBy, ContainerOf;
    hide Cut, Overlap.WithDict;
    fo.Write(Header(level, blockSize));
    var checksum := START;
    var mem := new byte[blockSize + (blockSize + blockSize / 16 + 64 + 3)];
    var dict := new int[DICT_SIZE];
    blocks := [];
    ghost var start := old(fo.data) + Header(level, blockSize);
    ghost var all := fi.Left();
    NothingCut(tu, all, blockSize);
    while true
      invariant fi.Valid() && AllGood(blocks, blockSize) && Cut(blocks, tu, all, fi.Left(), blockSize)
      invariant fo.data == start + Body(blocks, blockSize)
      invariant checksum == Adler(START, Joined(blocks))
      decreases |fi.Left()|
    {
      ghost var left := fi.Left();
      var inLen := fi.Read(mem, 0, blockSize);
      if inLen == 0 {
        break;
      }
      checksum := LzoAdler32(checksum, mem, 0, inLen);
      AdlerAppend(START, Joined(blocks), mem[..inLen]);
      ghost var b;
      r, b := PackBlock(mem, dict, fo, inLen, blockSize, tu);
      if r != 0 {
        return;
      }
      CutMore(blocks, b, tu, all, left, blockSize);
      blocks := blocks + [b];
    }
    AllCut(blocks, tu, all, blockSize);
    fo.Write(Be32(0));
    fo.Write(Be32(checksum as int));
    if tu.deterministic {
      OneContainer(blocks, tu, all, level, blockSize);
    }
    r := 0;
  }

  lemma NothingToChop(blockSize: nat)
    requires blockSize >= 1
    ensures Chop([], blockSize) == []
  {
  }

  lemma NothingBuilt(tu: Tuning, all: seq<byte>, blockSize: nat)
    requires blockSize >= 1
    ensures BuiltBy([], tu) && Raws([]) + Chop(all, blockSize) == Chop(all, blockSize)
  {
  }

  lemma BuiltSnoc(blocks: seq<Block>, b: Block, tu: Tuning)
    requires BuiltBy(blocks, tu) && exists d :: b.tu == Overlap.WithDict(tu, d)
    ensures BuiltBy(blocks + [b], tu)
  {
  }

  lemma NoBlocks(blockSize: nat)
    requires blockSize <= MAX_BLOCK
    ensures AllGood([], blockSize) && Body([], blockSize) == [] && Joined([]) == [] && Adler(START, []) == START
  {
    hide Adler, Compressed;
    NothingSummed();
  }

  lemma NothingSummed()
    ensures Adler(START, []) == START
  {
    DigestNothing(Unpack(START));
  }

  // ---------------------------------------------------------------- decompression

  /** xread without allow_eof: a premature end of file ends the program. */
  method XRead(fi: File, buf: array<byte>, at: nat, len: nat) returns (ok: bool)
    requires fi.Valid() && at + len <= buf.Length
    modifies fi, buf
    ensures fi.Valid() && fi.data == old(fi.data) && fi.pos >= old(fi.pos)
    ensures ok <==> len <= |old(fi.Left())|
    ensures ok ==> fi.pos == old(fi.pos) + len && fi.Left() == old(fi.Left())[len..]
                   && buf[at..at + len] == old(fi.Left())[..len]
  {
    var l := fi.Read(buf, at, len);
    ok := l == len;
  }

  method XRead32(fi: File) returns (ok: bool, v: nat)
    requires fi.Valid()
    modifies fi
    ensures fi.Valid() && fi.data == old(fi.data) && fi.pos >= old(fi.pos) && v < 0x1_0000_0000
    ensures ok <==> 4 <= |old(fi.Left())|
    ensures ok ==> fi.pos == old(fi.pos) + 4 && v == FromBe32(old(fi.Left())[..4]) && fi.Left() == old(fi.Left())[4..]
  {
    var b := new byte[4];
    ok := XRead(fi, b, 0, 4);
    v := FromBe32(b[0..4]);
  }

  method XGetc(fi: File) returns (ok: bool, c: byte)
    requires fi.Valid()
    modifies fi
    ensures fi.Valid() && fi.data == old(fi.data) && fi.pos >= old(fi.pos)
    ensures ok <==> 1 <= |old(fi.Left())|
    ensures ok ==> c == old(fi.Left())[0] && fi.Left() == old(fi.Left())[1..]
  {
    var b := new byte[1];
    ok := XRead(fi, b, 0, 1);
    c := b[0];
    if ok {
      assert b[0..1][0] == b[0];
    }
  }

  /** The program ends with an error, or do_decompress returns its code. */
  datatype Exit = Died | Returned(code: int)

  /** What the first bytes of a container decide. */
  function HeaderExit(s: seq<byte>): Exit {
    if |s| < 7 || s[..7] != MAGIC then Returned(1)
    else if |s| < 13 then Died
    else if s[11] != 1 then Returned(2)
    else if |s| < 17 then Died
    else if 1024 <= FromBe32(s[13..17]) <= MAX_BLOCK then Returned(0)
    else Returned(3)
  }

  /** The magic bytes are there, and how many bytes the rest needs. */
  predicate Signed(s: seq<byte>, n: nat) {
    |s| >= n && |s| >= 7 && s[..7] == [0, 233, 76, 90, 79, 255, 26]
  }

  /** A block size from 1 KiB to 8 MiB. */
  predicate InRange(a: int, b: int, c: int, d: int) {
    1024 <= 0x100_0000 * a + 0x1_0000 * b + 0x100 * c + d <= 8388608
  }

  /** The exit codes of a header, byte by byte. */
  lemma HeaderMeans(s: seq<byte>)
    ensures HeaderExit(s) == Returned(1) <==> !Signed(s, 7)
    ensures HeaderExit(s) == Returned(2) <==> Signed(s, 13) && s[11] != 1
    ensures HeaderExit(s) == Returned(3) <==>
            Signed(s, 17) && s[11] == 1 && !InRange(s[13], s[14], s[15], s[16])
    ensures HeaderExit(s) == Returned(0) <==>
            Signed(s, 17) && s[11] == 1 && InRange(s[13], s[14], s[15], s[16])
    ensures HeaderExit(s) == Died <==> Signed(s, 7) && (|s| < 13 || (s[11] == 1 && |s| < 17))
  {
    if |s| >= 17 {
      assert s[13..17] == [s[13], s[14], s[15], s[16]];
      Be32Is(s[13], s[14], s[15], s[16]);
    }
    hide FromBe32;
  }

  /** Read and check the header. */
  method ReadHeader(fi: File) returns (e: Exit, flags: nat, blockSize: nat)
    requires fi.Valid()
    modifies fi
    ensures fi.Valid() && fi.data == old(fi.data)
    ensures e == HeaderExit(old(fi.Left()))
    ensures e == Returned(0) ==>
              && |old(fi.Left())| >= 17 && fi.pos == old(fi.pos) + 17 && 1024 <= blockSize <= MAX_BLOCK
              && flags == FromBe32(old(fi.Left())[7..11]) && blockSize == FromBe32(old(fi.Left())[13..17])
              && fi.Left() == old(fi.Left())[17..]
  {
    ghost var all := fi.Left();
    flags, blockSize := 0, 0;
    var m := new byte[7];
    var l := fi.Read(m, 0, 7);
    if l != 7 || m[..] != MAGIC {
      return Returned(1), 0, 0;
    }
    assert m[..] == m[0..0 + 7] == all[..7];
    if |all| >= 13 {
      assert all[7..][..4] == all[7..11] && all[7..][4..] == all[11..] && all[11..][1..] == all[12..]
          && all[12..][1..] == all[13..];
    }
    if |all| >= 17 {
      assert all[13..][..4] == all[13..17] && all[13..][4..] == all[17..];
    }
    var ok, method_, level;
    ok, flags := XRead32(fi);
    if !ok {
      return Died, 0, 0;
    }
    ok, method_ := XGetc(fi);
    if !ok {
      return Died, 0, 0;
    }
    ok, level := XGetc(fi);
    if !ok {
      return Died, 0, 0;
    }
    if method_ != 1 {
      return Returned(2), 0, 0;
    }
    ok, blockSize := XRead32(fi);
    if !ok {
      return Died, 0, 0;
    }
    if blockSize < 1024 || blockSize > MAX_BLOCK {
      return Returned(3), 0, 0;
    }
    e := Returned(0);
  }

  /** `s` begins with `p`. */
  lemma Behead(p: seq<byte>, rest: seq<byte>)
    ensures (p + rest)[..|p|] == p && (p + rest)[|p|..] == rest
  {
  }

  /** The machine: the word of its lengths, how wide it copies, and what lies behind a buffer. */
  datatype Machine = Machine(word: Word, unit: nat, past: nat -> byte)
  {
    predicate Legal() {
      unit == 1 || unit == 4 || unit == 8
    }

    /** The call that decodes `inLen` bytes at the top of the buffer of a block size to its bottom. */
    function Call(blockSize: nat, inLen: nat, outLen: nat): Job
      requires inLen <= blockSize
    {
      Job(true, word, unit, past, blockSize + blockSize / 16 + 64 + 3 - inLen, inLen, 0, outLen)
    }
  }

  /** A block as a file has it: the length it announces, its payload, and what it holds. */
  datatype Piece = Piece(size: nat, payload: seq<byte>, out: seq<byte>)
  {
    /** The lengths are in order. */
    ghost predicate Sized(blockSize: nat) {
      1 <= |payload| <= size == |out| <= blockSize
    }

    /**
     * What may have been delivered: the payload itself or, whenever decoding it does not run into its own
     * input, what the checked decoder accepts and makes of it.
     */
    ghost predicate Accepted(blockSize: nat, m: Machine) {
      && Sized(blockSize)
      && if |payload| == size then out == payload
         else var j := m.Call(blockSize, |payload|, size); Sound(j, Overlap.Reading(j, payload)) ==> Decodes(j)
    }

    /** What will be delivered: the payload itself, or what the checked decoder makes of it in place. */
    ghost predicate Sure(blockSize: nat, m: Machine) {
      && Sized(blockSize)
      && if |payload| == size then out == payload
         else var j := m.Call(blockSize, |payload|, size); Sound(j, Overlap.Reading(j, payload)) && Decodes(j)
    }

    ghost predicate Decodes(j: Job) {
      Decode(Overlap.Reading(j, payload)) == Done(Ok, out)
    }

    ghost function Bytes(): seq<byte>
      requires 1 <= |payload| <= size < 0x1_0000_0000
    {
      Be32(size) + Be32(|payload|) + payload
    }
  }

  ghost predicate AllSized(ps: seq<Piece>, blockSize: nat) {
    blockSize <= MAX_BLOCK && forall i :: 0 <= i < |ps| ==> ps[i].Sized(blockSize)
  }

  ghost predicate AllAccepted(ps: seq<Piece>, blockSize: nat, m: Machine) {
    AllSized(ps, blockSize) && forall i :: 0 <= i < |ps| ==> ps[i].Accepted(blockSize, m)
  }

  ghost predicate AllSure(ps: seq<Piece>, blockSize: nat, m: Machine) {
    AllSized(ps, blockSize) && forall i :: 0 <= i < |ps| ==> ps[i].Sure(blockSize, m)
  }

  /** The pieces one after the other, as the file has them. */
  ghost function Pieces(ps: seq<Piece>, blockSize: nat): seq<byte>
    requires AllSized(ps, blockSize)
    decreases |ps|
  {
    if ps == [] then [] else ps[0].Bytes() + Pieces(ps[1..], blockSize)
  }

  /** And what they hold. */
  ghost function Delivered(ps: seq<Piece>): seq<byte> {
    if ps == [] then [] else ps[0].out + Delivered(ps[1..])
  }

  lemma {:induction false} PiecesSnoc(ps: seq<Piece>, p: Piece, blockSize: nat)
    requires AllSized(ps, blockSize) && p.Sized(blockSize)
    ensures AllSized(ps + [p], blockSize)
    ensures Pieces(ps + [p], blockSize) == Pieces(ps, blockSize) + p.Bytes()
    ensures Delivered(ps + [p]) == Delivered(ps) + p.out
    decreases |ps|
  {
    hide Piece.Bytes;
    if ps == [] {
      assert ps + [p] == [p] && [p][1..] == [];
      assert [] + p.out == p.out + [] && [] + p.Bytes() == p.Bytes() + [];
    } else {
      PiecesSnoc(ps[1..], p, blockSize);
      assert (ps + [p])[1..] == ps[1..] + [p];
    }
  }

  /** The payload, when decoding it does not run into its own input, is refused or has another length. */
  ghost predicate Violates(payload: seq<byte>, outLen: nat, blockSize: nat, m: Machine)
    requires |payload| <= blockSize
  {
    var j := m.Call(blockSize, |payload|, outLen);
    var e := Overlap.Reading(j, payload);
    Sound(j, e) ==> !(Decode(e).Done? && Decode(e).status == Ok && |Decode(e).out| == outLen)
  }

  /** The lengths that a block may announce. */
  predicate Sane(inLen: nat, outLen: nat, blockSize: nat) {
    1 <= inLen <= outLen <= blockSize
  }

  /**
   * Why a block whose uncompressed size `outLen` has been read, with the bytes `s` behind it, ends the program:
   * the file ends too early, the lengths are not sane (5), or the compressed data is in error (6).
   */
  ghost predicate BlockFails(s: seq<byte>, outLen: nat, blockSize: nat, m: Machine, e: Exit) {
    if |s| < 4 then e == Died
    else
      var n := FromBe32(s[..4]);
      if !Sane(n, outLen, blockSize) then e == Returned(5)
      else if |s| - 4 < n then e == Died
      else e == Returned(6) && n < outLen && Violates(s[4..][..n], outLen, blockSize, m)
  }

  /** Decompress a block in place: from the top of the buffer to its bottom. */
  method UnpackInPlace(buf: array<byte>, blockSize: nat, inLen: nat, outLen: nat, m: Machine, ghost good: bool,
          ghost p: Piece) returns (ok: bool)
    requires 1 <= inLen < outLen <= blockSize <= MAX_BLOCK && buf.Length == blockSize + blockSize / 16 + 64 + 3
    requires m.Legal()
    requires good ==> p.Sure(blockSize, m) && outLen == p.size && buf[buf.Length - inLen..] == p.payload
    modifies buf
    ensures good ==> ok && buf[..outLen] == p.out
    ensures ok ==> Piece(outLen, old(buf[buf.Length - inLen..]), buf[..outLen]).Accepted(blockSize, m)
    ensures !ok ==> Violates(old(buf[buf.Length - inLen..]), outLen, blockSize, m)
  {
    hide Decode, Sound, Limit;
    var j := m.Call(blockSize, inLen, outLen);
    ghost var payload := buf[j.inp..];
    assert buf[j.inp..j.inp + inLen] == payload;
    BelowLimit(inLen, outLen, m.word, m.unit == 8);
    var status, newLen := Decompress(buf, j);
    ok := status == Ok && newLen == outLen;
  }

  lemma BelowLimit(n: nat, cap: nat, word: Word, wide: bool)
    requires n <= MAX_BLOCK
    ensures Limited(n, cap, word, wide)
  {
  }

  /** `left` is the rest of the piece, behind the length that it announces, and then `rest`. */
  ghost predicate PieceAhead(left: seq<byte>, p: Piece, blockSize: nat, m: Machine, rest: seq<byte>) {
    p.Sure(blockSize, m) && blockSize <= MAX_BLOCK && left == Be32(|p.payload|) + (p.payload + rest)
  }

  /**
   * The rest of a block whose uncompressed size `outLen` has been read; it ends up in
   * `buf[at..at + outLen]`. When the file holds the piece `p` here (`good`), those are its contents.
   */
  method UnpackBlock(fi: File, buf: array<byte>, blockSize: nat, outLen: nat, m: Machine, ghost good: bool,
          ghost p: Piece, ghost rest: seq<byte>)
    returns (e: Exit, at: nat, ghost found: Piece)
    requires fi.Valid() && 1 <= outLen && blockSize <= MAX_BLOCK && buf.Length == blockSize + blockSize / 16 + 64 + 3
    requires m.Legal() && (good ==> PieceAhead(fi.Left(), p, blockSize, m, rest) && outLen == p.size)
    modifies fi, buf
    ensures fi.Valid() && fi.data == old(fi.data) && fi.pos >= old(fi.pos)
    ensures e == Returned(0) ==> at + outLen <= buf.Length && found.size == outLen && found.Accepted(blockSize, m)
                                 && found.out == buf[at..at + outLen] && BlockRead(old(fi.Left()), found, fi.Left())
    ensures good ==> e == Returned(0) && buf[at..at + outLen] == p.out && fi.Left() == rest
    ensures e != Returned(0) ==> BlockFails(old(fi.Left()), outLen, blockSize, m, e)
  {
    hide Be32, FromBe32, Decode, Sound, Machine.Call, Violates;
    at, found := 0, Piece(0, [], []);
    ghost var all := fi.Left();
    if good {
      Behead(Be32(|p.payload|), p.payload + rest);
      Behead(p.payload, rest);
      Be32RoundTrip(|p.payload|);
    }
    var ok, inLen := XRead32(fi);
    if !ok {
      return Died, 0, found;
    }
    if inLen > blockSize || outLen > blockSize || inLen == 0 || inLen > outLen {
      return Returned(5), 0, found;
    }
    var top := buf.Length - inLen;
    ok := XRead(fi, buf, top, inLen);
    if !ok {
      return Died, 0, found;
    }
    ghost var payload := buf[top..];
    assert buf[top..top + inLen] == payload == all[4..][..inLen];
    BlockWasRead(all, payload);
    if inLen < outLen {
      ok := UnpackInPlace(buf, blockSize, inLen, outLen, m, good, p);
      found := Piece(outLen, payload, buf[..outLen]);
      return if ok then Returned(0) else Returned(6), 0, found;
    }
    return Returned(0), top, Piece(outLen, payload, payload);
  }

  /** `before` is the payload's length, the payload and `after`. */
  ghost predicate BlockRead(before: seq<byte>, p: Piece, after: seq<byte>) {
    |p.payload| < 0x1_0000_0000 && before == Be32(|p.payload|) + p.payload + after
  }

  lemma BlockWasRead(all: seq<byte>, payload: seq<byte>)
    requires |all| >= 4 && |payload| == FromBe32(all[..4]) <= |all| - 4 && payload == all[4..][..|payload|]
    ensures all == Be32(|payload|) + payload + all[4..][|payload|..]
  {
    hide Be32, FromBe32;
    Be32Inverse(all[..4]);
    assert all == all[..4] + (all[4..][..|payload|] + all[4..][|payload|..]);
  }

  lemma Be32Inverse(s: seq<byte>)
    requires |s| == 4
    ensures Be32(FromBe32(s)) == s
  {
    var t := Be32(FromBe32(s));
    Be32RoundTrip(FromBe32(s));
    hide Be32;
    Le16Injective(s[1], s[0], t[1], t[0]);
    Le16Injective(s[3], s[2], t[3], t[2]);
    assert t == [t[0], t[1], t[2], t[3]] && s == [s[0], s[1], s[2], s[3]];
  }

  /** What follows the blocks. */
  function Trailer(adler: uint32): seq<byte> {
    Be32(0) + Be32(adler as int)
  }

  lemma ContainerStarts(blocks: seq<Block>, level: byte, size: nat)
    requires 1024 <= size && AllGood(blocks, size)
    ensures (var s := Container(blocks, level, size);
             && |s| >= 17 && HeaderExit(s) == Returned(0) && FromBe32(s[7..11]) == 1 && FromBe32(s[13..17]) == size
             && s[17..] == Body(blocks, size) + Trailer(Adler(START, Joined(blocks))))
  {
    hide Body, Joined, Adler, Be32, FromBe32, Trailer, Header;
    var s, head := Container(blocks, level, size), Header(level, size);
    var rest := Body(blocks, size) + Trailer(Adler(START, Joined(blocks)));
    HeaderIs(level, size);
    assert s == head + rest;
    assert s[..7] == head[..7] && s[7..11] == head[7..11] && s[11] == head[11] && s[13..17] == head[13..17];
    assert s[17..] == rest;
  }

  lemma HeaderIs(level: byte, size: nat)
    requires size <= MAX_BLOCK
    ensures (var head := Header(level, size);
             && |head| == 17 && head[..7] == MAGIC && FromBe32(head[7..11]) == 1 && head[11] == 1
             && FromBe32(head[13..17]) == size)
  {
    hide Be32, FromBe32;
    Be32RoundTrip(1);
    Be32RoundTrip(size);
    var head := Header(level, size);
    assert head[7..11] == Be32(1) && head[13..17] == Be32(size);
  }

  /** The reader has `written` out; `left` holds the pieces `todo`, the end mark and `tail`. */
  ghost predicate Ahead(left: seq<byte>, todo: seq<Piece>, written: seq<byte>, ps: seq<Piece>, size: nat, m: Machine,
          tail: seq<byte>) {
    && AllSure(todo, size, m) && left == Pieces(todo, size) + Be32(0) + tail
    && written + Delivered(todo) == Delivered(ps)
  }

  lemma NothingWritten(left: seq<byte>, ps: seq<Piece>, size: nat, m: Machine, tail: seq<byte>)
    requires AllSure(ps, size, m) && left == Pieces(ps, size) + Be32(0) + tail
    ensures Ahead(left, ps, [], ps, size, m, tail)
  {
    assert [] + Delivered(ps) == Delivered(ps);
  }

  /** What the reader finds next: a piece, or the end mark. */
  lemma NextIs(left: seq<byte>, todo: seq<Piece>, written: seq<byte>, ps: seq<Piece>, size: nat, m: Machine,
          tail: seq<byte>) returns (rest: seq<byte>)
    requires Ahead(left, todo, written, ps, size, m, tail)
    ensures |left| >= 4
    ensures if todo == [] then FromBe32(left[..4]) == 0 && left[4..] == tail && written == Delivered(ps)
            else
              && FromBe32(left[..4]) == todo[0].size > 0 && PieceAhead(left[4..], todo[0], size, m, rest)
              && Ahead(rest, todo[1..], written + todo[0].out, ps, size, m, tail)
  {
    hide Be32, FromBe32, Piece.Sure;
    rest := [];
    if todo == [] {
      Be32RoundTrip(0);
      assert left == Be32(0) + tail && written + [] == written;
      Behead(Be32(0), tail);
    } else {
      var p := todo[0];
      assert p.Sized(size);
      rest := Pieces(todo[1..], size) + Be32(0) + tail;
      Be32RoundTrip(p.size);
      Regroup([], Be32(p.size), Be32(|p.payload|), p.payload, rest);
      assert left == p.Bytes() + rest;
      assert left == Be32(p.size) + (Be32(|p.payload|) + (p.payload + rest));
      Behead(Be32(p.size), Be32(|p.payload|) + (p.payload + rest));
      assert written + p.out + Delivered(todo[1..]) == written + Delivered(todo);
    }
  }

  /** Write a block's contents and add them to the checksum. */
  method Deliver(fo: File, buf: array<byte>, at: nat, len: nat, checksum: uint32, ghost written: seq<byte>)
    returns (sum: uint32)
    requires at + len <= buf.Length && checksum == Adler(START, written)
    modifies fo`data
    ensures fo.data == old(fo.data) + buf[at..at + len] && sum == Adler(START, written + buf[at..at + len])
  {
    hide Adler;
    fo.Write(buf[at..at + len]);
    AdlerAppend(START, written, buf[at..at + len]);
    sum := LzoAdler32(checksum, buf, at, len);
  }

  /** The rest of a block, and its delivery. */
  method TakeBlock(fi: File, fo: File, buf: array<byte>, blockSize: nat, outLen: nat, checksum: uint32, m: Machine,
          ghost written: seq<byte>, ghost good: bool, ghost p: Piece, ghost rest: seq<byte>)
    returns (e: Exit, sum: uint32, ghost found: Piece)
    requires fi != fo && fi.Valid() && 1 <= outLen && blockSize <= MAX_BLOCK && m.Legal()
    requires buf.Length == blockSize + blockSize / 16 + 64 + 3 && checksum == Adler(START, written)
    requires good ==> PieceAhead(fi.Left(), p, blockSize, m, rest) && outLen == p.size
    modifies fi, fo`data, buf
    ensures fi.Valid() && fi.data == old(fi.data) && fi.pos >= old(fi.pos)
    ensures if e == Returned(0) then
              && found.size == outLen && found.Accepted(blockSize, m) && BlockRead(old(fi.Left()), found, fi.Left())
              && fo.data == old(fo.data) + found.out && sum == Adler(START, written + found.out)
            else fo.data == old(fo.data) && sum == checksum
    ensures good ==> e == Returned(0) && found.out == p.out && fi.Left() == rest
    ensures e != Returned(0) ==> BlockFails(old(fi.Left()), outLen, blockSize, m, e)
  {
    hide Adler, SumsUp, Be32, Piece.Accepted, BlockRead, PieceAhead, BlockFails;
    var at;
    e, at, found := UnpackBlock(fi, buf, blockSize, outLen, m, good, p, rest);
    sum := checksum;
    if e == Returned(0) {
      sum := Deliver(fo, buf, at, outLen, checksum, written);
    }
  }

  /** What has been read, written and summed up so far, and what is still to come. */
  ghost predicate Underway(all: seq<byte>, left: seq<byte>, found: seq<Piece>, written: seq<byte>, blockSize: nat,
          m: Machine) {
    AllAccepted(found, blockSize, m) && written == Delivered(found) && all == Pieces(found, blockSize) + left
  }

  /** Behind the blocks `found`, the file ends or there is a block that fails. */
  ghost predicate Fails(all: seq<byte>, found: seq<Piece>, blockSize: nat, m: Machine, e: Exit) {
    && AllSized(found, blockSize)
    && (var code := Pieces(found, blockSize);
        && |code| <= |all| && all[..|code|] == code
        && (var s := all[|code|..];
            if |s| < 4 then e == Died
            else FromBe32(s[..4]) != 0 && BlockFails(s[4..], FromBe32(s[..4]), blockSize, m, e)))
  }

  lemma FailedThere(all: seq<byte>, left: seq<byte>, found: seq<Piece>, written: seq<byte>, blockSize: nat, m: Machine,
          e: Exit)
    requires Underway(all, left, found, written, blockSize, m)
    requires if |left| < 4 then e == Died
             else FromBe32(left[..4]) != 0 && BlockFails(left[4..], FromBe32(left[..4]), blockSize, m, e)
    ensures AllAccepted(found, blockSize, m) && written == Delivered(found) && Fails(all, found, blockSize, m, e)
  {
    hide Be32, FromBe32, Pieces, Delivered, BlockFails, Piece.Accepted;
    var code := Pieces(found, blockSize);
    assert all[..|code|] == code && all[|code|..] == left;
  }

  /** The blocks up to the end mark; `found` are those that were delivered. */
  method UnpackBlocks(fi: File, fo: File, blockSize: nat, m: Machine, ghost good: bool, ghost ps: seq<Piece>,
          ghost tail: seq<byte>)
    returns (e: Exit, checksum: uint32, ghost written: seq<byte>, ghost found: seq<Piece>)
    requires fi != fo && fi.Valid() && blockSize <= MAX_BLOCK && m.Legal()
    requires good ==> AllSure(ps, blockSize, m) && fi.Left() == Pieces(ps, blockSize) + Be32(0) + tail
    modifies fi, fo
    ensures fi.Valid() && fi.data == old(fi.data) && fi.pos >= old(fi.pos)
    ensures fo.data == old(fo.data) + written && checksum == Adler(START, written)
    ensures AllAccepted(found, blockSize, m) && written == Delivered(found)
    ensures e == Returned(0) ==> old(fi.Left()) == Pieces(found, blockSize) + Be32(0) + fi.Left()
    ensures good ==> e == Returned(0) && written == Delivered(ps) && fi.Left() == tail
    ensures e != Returned(0) ==> Fails(old(fi.Left()), found, blockSize, m, e)
  {
    hide Adler, Be32, FromBe32, AllSure, BlockRead, Ahead, PieceAhead, Underway, Piece.Accepted, BlockFails, Fails;
    checksum, written, found := START, [], [];
    var buf := new byte[blockSize + blockSize / 16 + 64 + 3];
    ghost var todo := ps;
    ghost var all := fi.Left();
    NoBlocks(blockSize);
    NothingFound(all, blockSize, m);
    if good {
      NothingWritten(all, ps, blockSize, m, tail);
    }
    e := Returned(0);
    while true
      invariant fi.Valid() && fi.data == old(fi.data) && fi.pos >= old(fi.pos)
      invariant fo.data == old(fo.data) + written && checksum == Adler(START, written)
      invariant Underway(all, fi.Left(), found, written, blockSize, m)
      invariant good ==> Ahead(fi.Left(), todo, written, ps, blockSize, m, tail)
      decreases |fi.data| - fi.pos
    {
      ghost var rest: seq<byte> := [];
      ghost var before := fi.Left();
      if good {
        rest := NextIs(before, todo, written, ps, blockSize, m, tail);
      }
      var ok, outLen := XRead32(fi);
      if !ok {
        FailedThere(all, before, found, written, blockSize, m, Died);
        return Died, checksum, written, found;
      }
      NumberWasRead(before, outLen);
      if outLen == 0 {
        EndWasRead(all, before, found, written, blockSize, m);
        return Returned(0), checksum, written, found;
      }
      ghost var p := if todo == [] then Piece(0, [], []) else todo[0];
      e, checksum, p := TakeBlock(fi, fo, buf, blockSize, outLen, checksum, m, written, good, p, rest);
      if e != Returned(0) {
        FailedThere(all, before, found, written, blockSize, m, e);
        return;
      }
      PieceWasRead(all, before, found, written, p, blockSize, m, fi.Left());
      written, found := written + p.out, found + [p];
      if good {
        todo := todo[1..];
      }
    }
  }

  lemma NothingFound(all: seq<byte>, blockSize: nat, m: Machine)
    requires blockSize <= MAX_BLOCK
    ensures Underway(all, all, [], [], blockSize, m)
  {
    assert [] + all == all;
  }

  lemma EndWasRead(all: seq<byte>, left: seq<byte>, found: seq<Piece>, written: seq<byte>, blockSize: nat, m: Machine)
    requires Underway(all, left, found, written, blockSize, m) && |left| >= 4 && left == Be32(0) + left[4..]
    ensures AllAccepted(found, blockSize, m) && written == Delivered(found)
    ensures all == Pieces(found, blockSize) + Be32(0) + left[4..]
  {
    hide Be32, Pieces, Delivered, AllAccepted;
  }

  lemma NumberWasRead(s: seq<byte>, v: nat)
    requires |s| >= 4 && v == FromBe32(s[..4])
    ensures v < 0x1_0000_0000 && s == Be32(v) + s[4..]
  {
    hide Be32, FromBe32;
    Be32Inverse(s[..4]);
    assert s == s[..4] + s[4..];
  }

  /** One block more. */
  lemma PieceWasRead(all: seq<byte>, left: seq<byte>, found: seq<Piece>, written: seq<byte>, p: Piece, blockSize: nat,
          m: Machine, after: seq<byte>)
    requires Underway(all, left, found, written, blockSize, m) && p.Accepted(blockSize, m) && |left| >= 4
    requires p.size < 0x1_0000_0000 && left == Be32(p.size) + left[4..] && BlockRead(left[4..], p, after)
    ensures Underway(all, after, found + [p], written + p.out, blockSize, m)
  {
    hide Be32, Pieces, Delivered;
    PiecesSnoc(found, p, blockSize);
    Regroup(Pieces(found, blockSize), Be32(p.size), Be32(|p.payload|), p.payload, after);
  }

  lemma Regroup(x: seq<byte>, n: seq<byte>, l: seq<byte>, p: seq<byte>, after: seq<byte>)
    ensures x + (n + (l + p + after)) == x + (n + l + p) + after
  {
  }

  /** What is left of a file behind the blocks: the end mark, and the checksum if the flags ask for it. */
  function Ending(flags: nat, adler: uint32): seq<byte> {
    Be32(0) + if flags % 2 == 1 then Be32(adler as int) else []
  }

  /** `s` is a header, blocks, and an ending, in front of `after`. */
  ghost predicate Consists(s: seq<byte>, ps: seq<Piece>, after: seq<byte>) {
    && HeaderExit(s) == Returned(0)
    && (var size := FromBe32(s[13..17]);
        && AllSized(ps, size)
        && s == s[..17] + Pieces(ps, size) + Ending(FromBe32(s[7..11]), Adler(START, Delivered(ps))) + after)
  }

  /** The block size that a header announces. */
  function AnnouncedSize(s: seq<byte>): nat
    requires |s| >= 17
  {
    FromBe32(s[13..17])
  }

  /** Behind the blocks `found` and the end mark, the checksum is cut off or differs (7). */
  ghost predicate SumFails(s: seq<byte>, found: seq<Piece>, size: nat, sum: uint32, e: Exit) {
    && AllSized(found, size)
    && (var head := Pieces(found, size) + Be32(0);
        && |head| <= |s| && s[..|head|] == head
        && if |s[|head|..]| < 4 then e == Died else s[|head|..][..4] != Be32(sum as int) && e == Returned(7))
  }

  lemma SumFailed(s: seq<byte>, found: seq<Piece>, size: nat, sum: uint32, left: seq<byte>)
    requires AllSized(found, size) && s == Pieces(found, size) + Be32(0) + left
    ensures |left| < 4 ==> SumFails(s, found, size, sum, Died)
    ensures |left| >= 4 && FromBe32(left[..4]) != sum as int ==> SumFails(s, found, size, sum, Returned(7))
  {
    hide Be32, FromBe32, Pieces, AllSized;
    var head := Pieces(found, size) + Be32(0);
    assert s[..|head|] == head && s[|head|..] == left;
    Be32RoundTrip(sum as int);
  }

  /**
   * do_decompress. Whatever the file is, 0 is returned only if it consists of a header, blocks that are stored
   * or accepted by the checked decoder with the length they announce, the end mark and, when the flags ask
   * for it, the checksum of what these blocks hold, which is then what has been written. Conversely, of any
   * file that consists of these, each block stored or decoded without running into its own input, 0 is
   * returned, the contents of the blocks are written, and what follows is left.
   */
  method DoDecompress(fi: File, fo: File, m: Machine, ghost good: bool, ghost ps: seq<Piece>, ghost after: seq<byte>)
    returns (e: Exit, flags: nat, ghost found: seq<Piece>)
    requires fi != fo && fi.Valid() && m.Legal()
    requires good ==> Consists(fi.Left(), ps, after) && AllSure(ps, AnnouncedSize(fi.Left()), m)
    modifies fi, fo
    ensures fi.Valid() && |old(fo.data)| <= |fo.data| && fo.data[..|old(fo.data)|] == old(fo.data)
    ensures good ==> e == Returned(0) && fo.data == old(fo.data) + Delivered(ps) && fi.Left() == after
    ensures e == Returned(0) ==>
              && Consists(old(fi.Left()), found, fi.Left()) && AllAccepted(found, AnnouncedSize(old(fi.Left())), m)
              && fo.data == old(fo.data) + Delivered(found)
    ensures HeaderExit(old(fi.Left())) != Returned(0) ==> e == HeaderExit(old(fi.Left())) && fo.data == old(fo.data)
    ensures HeaderExit(old(fi.Left())) == Returned(0) && e != Returned(0) ==>
              && var s := old(fi.Left());
              && AllAccepted(found, AnnouncedSize(s), m) && fo.data == old(fo.data) + Delivered(found)
              && (Fails(s[17..], found, AnnouncedSize(s), m, e)
                  || (s[10] % 2 == 1 && SumFails(s[17..], found, AnnouncedSize(s), Adler(1, Delivered(found)), e)))
  {
    hide Adler, Pieces, Delivered, AllAccepted, AllSure, AllSized, Be32, FromBe32, Consists, HeaderExit, Fails;
    hide SumFails;
    ghost var s := fi.Left();
    ghost var tail: seq<byte> := [];
    found := [];
    if good {
      tail := ConsistsSplits(s, ps, after);
    }
    var blockSize;
    e, flags, blockSize := ReadHeader(fi);
    if e != Returned(0) {
      return;
    }
    var checksum;
    ghost var written;
    e, checksum, written, found := UnpackBlocks(fi, fo, blockSize, m, good, ps, tail);
    if e != Returned(0) {
      return;
    }
    ghost var left := fi.Left();
    AcceptedSized(found, blockSize, m);
    SumFailed(s[17..], found, blockSize, checksum, left);
    FlagBit(s);
    if flags % 2 == 1 {
      var ok, c := XRead32(fi);
      if !ok {
        return Died, flags, found;
      }
      if c != checksum as int {
        return Returned(7), flags, found;
      }
      NumberWasRead(left, c);
    }
    assert left == Summed(flags, checksum) + fi.Left();
    SplitsConsist(s, found, m, Summed(flags, checksum), fi.Left());
  }

  /** The header's size and flags, and what follows the end mark. */
  lemma ConsistsSplits(s: seq<byte>, ps: seq<Piece>, after: seq<byte>) returns (tail: seq<byte>)
    requires Consists(s, ps, after)
    ensures HeaderExit(s) == Returned(0) && |s| >= 17
    ensures AllSized(ps, AnnouncedSize(s)) && s[17..] == Pieces(ps, AnnouncedSize(s)) + Be32(0) + tail
    ensures (var sum := Adler(START, Delivered(ps));
             if FromBe32(s[7..11]) % 2 == 1 then
               |tail| >= 4 && FromBe32(tail[..4]) == sum as int && tail[4..] == after
             else tail == after)
  {
    hide Pieces, Delivered, Adler, Be32, FromBe32, AllSized;
    var sum := Adler(START, Delivered(ps));
    var flags := FromBe32(s[7..11]);
    tail := Summed(flags, sum) + after;
    SplitOff(s[..17], Pieces(ps, AnnouncedSize(s)), Be32(0), Summed(flags, sum), after);
    Be32RoundTrip(sum as int);
    Behead(Be32(sum as int), after);
    assert [] + after == after;
  }

  /** The checksum, where the flags ask for it. */
  function Summed(flags: nat, adler: uint32): seq<byte> {
    if flags % 2 == 1 then Be32(adler as int) else []
  }

  lemma SplitOff(h: seq<byte>, p: seq<byte>, z: seq<byte>, x: seq<byte>, after: seq<byte>)
    ensures (h + p + (z + x) + after)[|h|..] == p + z + (x + after)
    ensures h + (p + z + (x + after)) == h + p + (z + x) + after
  {
  }

  lemma SplitsConsist(s: seq<byte>, found: seq<Piece>, m: Machine, sum: seq<byte>, after: seq<byte>)
    requires HeaderExit(s) == Returned(0) && |s| >= 17 && AllAccepted(found, AnnouncedSize(s), m)
    requires s[17..] == Pieces(found, AnnouncedSize(s)) + Be32(0) + (sum + after)
    requires sum == Summed(FromBe32(s[7..11]), Adler(START, Delivered(found)))
    ensures Consists(s, found, after)
  {
    hide Pieces, Delivered, Adler, Be32, FromBe32, AllSized, HeaderExit;
    assert s == s[..17] + s[17..];
    SplitOff(s[..17], Pieces(found, AnnouncedSize(s)), Be32(0), sum, after);
  }

  // --------------------------------------------------------------------- containers

  /** A block that the compressor wrote, as a piece: it is decoded in place on any machine. */
  ghost function PieceOf(b: Block): Piece
    requires b.tu.Legal()
  {
    Piece(|b.raw|, b.Payload(), b.raw)
  }

  lemma BlockSure(b: Block, size: nat, m: Machine)
    requires b.Good(size) && size <= MAX_BLOCK
    ensures PieceOf(b).Sure(size, m) && BlockBytes(b, size) == PieceOf(b).Bytes()
  {
    hide Compressed, Decode, Sound;
    PayloadSize(b, size);
    if |b.Payload()| < |b.raw| {
      Overlap.Decodes(b.tu, b.raw, m.Call(size, |b.Payload()|, |b.raw|));
    }
  }

  lemma GoodLegal(b: Block, size: nat)
    requires b.Good(size)
    ensures b.tu.Legal()
  {
  }

  /** The body of a container consists of pieces that are sure to be delivered. */
  lemma {:induction false} BodySure(blocks: seq<Block>, size: nat, m: Machine) returns (ps: seq<Piece>)
    requires AllGood(blocks, size)
    ensures AllSure(ps, size, m) && Pieces(ps, size) == Body(blocks, size) && Delivered(ps) == Joined(blocks)
    decreases |blocks|
  {
    hide BlockBytes, Piece.Bytes, Piece.Sure, Block.Good, Block.Payload;
    ps := [];
    if blocks != [] {
      var b := blocks[0];
      assert b.Good(size);
      GoodLegal(b, size);
      PayloadSize(b, size);
      var rest := BodySure(blocks[1..], size, m);
      BlockSure(b, size, m);
      ps := [PieceOf(b)] + rest;
      assert ps[1..] == rest;
    }
  }

  /** Every container is a file that is unpacked to what its blocks hold. */
  lemma ContainerConsists(blocks: seq<Block>, level: byte, size: nat, m: Machine) returns (ps: seq<Piece>)
    requires 1024 <= size && AllGood(blocks, size)
    ensures (var s := Container(blocks, level, size);
             && Consists(s, ps, []) && AllSure(ps, AnnouncedSize(s), m) && Delivered(ps) == Joined(blocks))
  {
    hide Body, Joined, Adler, Be32, FromBe32, Pieces, Delivered, AllSure, Header, HeaderExit;
    ps := BodySure(blocks, size, m);
    ContainerStarts(blocks, level, size);
    var s := Container(blocks, level, size);
    var sum := Adler(START, Joined(blocks));
    assert s == s[..17] + s[17..];
    SureSized(ps, size, m);
    SplitOff(s[..17], Pieces(ps, size), Be32(0), Be32(sum as int), []);
    assert Be32(sum as int) + [] == Be32(sum as int);
    assert s[17..] == Pieces(ps, size) + Be32(0) + (Be32(sum as int) + []);
  }

  /** The flag that asks for the checksum is the lowest bit of the eleventh byte. */
  lemma FlagBit(s: seq<byte>)
    requires |s| >= 11
    ensures FromBe32(s[7..11]) % 2 == s[10] % 2
  {
    hide FromBe32, Be32;
    assert s[7..11] == [s[7], s[8], s[9], s[10]];
    Be32Is(s[7], s[8], s[9], s[10]);
  }

  lemma AcceptedSized(ps: seq<Piece>, size: nat, m: Machine)
    requires AllAccepted(ps, size, m)
    ensures AllSized(ps, size)
  {
  }

  lemma SureSized(ps: seq<Piece>, size: nat, m: Machine)
    requires AllSure(ps, size, m)
    ensures AllSized(ps, size)
  {
  }

  /** Packing a file and unpacking the result gives the file back. */
  method PackThenUnpack(contents: seq<byte>, level: byte, blockSize: nat, tu: Tuning, m: Machine)
    returns (e: Exit, back: seq<byte>)
    requires tu.Legal() && 1024 <= blockSize <= MAX_BLOCK && level != 9 && m.Legal()
    ensures e == Returned(0) && back == contents
  {
    hide Container, Consists, AllSure;
    var fi := new File(contents);
    var fo := new File([]);
    var r;
    ghost var blocks;
    r, blocks := DoCompress(fi, fo, level, blockSize, tu);
    var packed := new File(fo.data);
    var unpacked := new File([]);
    ghost var ps := ContainerConsists(blocks, level, blockSize, m);
    var flags;
    ghost var found;
    e, flags, found := DoDecompress(packed, unpacked, m, true, ps, []);
    back := unpacked.data;
  }
}
