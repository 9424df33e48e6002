/** What LZO1 and LZO1A compress an input to, at level 1, as a function of the input. */
module Lzo1Parse {
  import opened Bytes
  import opened Lz77
  import opened Lzo1Format
  import opened Lzo1Decoder
  import opened Words

  const DVAL_LEN := 3
  const D_SIZE := 0x2000

  /** The dictionary: positions in the input, or whatever the memory held. */
  type Dict = seq<int>

  /**
   * A build of LZO1, or of LZO1A with its R1 codes: whether the dictionary is cleared, whether its
   * entries are pointers or offsets, and any three hashes of three bytes.
   */
  datatype Tuning = Tuning(r1: bool, deterministic: bool, pointers: bool, first: nat -> nat, hash: nat -> nat,
      rehash: nat -> nat, initial: Dict)
  {
    predicate Legal() {
      |initial| == D_SIZE
    }

    /** A cleared entry: a null pointer, which is no position, or the offset 0. */
    function Blank(): int {
      if pointers then -1 else 0
    }

    /** UPDATE_D for the first position. */
    function FirstSlot(x: seq<byte>): (k: nat)
      requires 3 <= |x|
      ensures k < D_SIZE
    {
      first(Load24(x, 0)) % D_SIZE
    }

    /** DINDEX1 and DINDEX2. */
    function Slot(x: seq<byte>, i: nat): (k: nat)
      requires i + 3 <= |x|
      ensures k < D_SIZE
    {
      hash(Load24(x, i)) % D_SIZE
    }

    function Slot2(k: nat): (r: nat)
      ensures r < D_SIZE
    {
      rehash(k) % D_SIZE
    }

    /** LZO_CHECK_MPOS: only LZO1 with a cleared dictionary trusts what it finds there. */
    predicate Rejects(ip: nat, entry: int) {
      if deterministic && !r1 then entry == Blank() || ip - entry > MAX_OFFSET
      else !(0 <= entry < ip) || ip - entry > MAX_OFFSET
    }

    function FirstDict(): (d: Dict)
      requires Legal()
      ensures |d| == D_SIZE && (deterministic ==> forall k :: 0 <= k < |d| ==> d[k] == Blank())
    {
      if deterministic then seq<int>(D_SIZE, _ => Blank()) else initial
    }
  }

  function Load24(x: seq<byte>, i: nat): (v: nat)
    requires i + 3 <= |x|
  {
    Le16(x[i], x[i + 1]) + 0x1_0000 * (x[i + 2] as int)
  }

  /** DX2 with shifts of five, on the three bytes of `v`. */
  function Mixed(v: nat): nat {
    Xor(Xor(v / 0x1_0000 * 32, v / 0x100 % 0x100) * 32, v % 0x100)
  }

  /** D_INDEX1, the hash that the library looks up with, and D_INDEX2, which inverts all its bits. */
  function DefaultHash(v: nat): nat {
    0x21 * Mixed(v) % 0x1_0000_0000 / 32 % 8192
  }

  function DefaultRehash(k: nat): int {
    8191 - k
  }

  /** Both are indices into the dictionary, and the second slot is never the first. */
  lemma HashFits(tu: Tuning, x: seq<byte>, i: nat, k: nat)
    requires i + 3 <= |x| && k < 8192
    ensures tu.hash(Load24(x, i)) == DefaultHash(Load24(x, i)) ==> tu.Slot(x, i) == DefaultHash(Load24(x, i)) < 8192
    ensures tu.rehash(k) == DefaultRehash(k) ==> tu.Slot2(k) == DefaultRehash(k) != k
    ensures Mixed(Load24(x, i)) == Xor(Xor(x[i + 2] as int * 32, x[i + 1]) * 32, x[i])
  {
    hide Xor;
    var v := Load24(x, i);
    assert v / 0x1_0000 == x[i + 2] && v / 0x100 % 0x100 == x[i + 1] && v % 0x100 == x[i] by {
      ThreeBytes(x[i], x[i + 1], x[i + 2]);
    }
  }

  lemma ThreeBytes(a: byte, b: byte, c: byte)
    ensures (var v := Le16(a, b) + 0x1_0000 * (c as int);
             v / 0x1_0000 == c && v / 0x100 % 0x100 == b && v % 0x100 == a)
  {
    var v := Le16(a, b) + 0x1_0000 * (c as int);
    assert v / 0x100 == 0x100 * (c as int) + b;
  }

  predicate Same3(x: seq<byte>, i: nat, j: nat)
    requires i + 3 <= |x| && j + 3 <= |x|
  {
    x[i] == x[j] && x[i + 1] == x[j + 1] && x[i + 2] == x[j + 2]
  }

  /** A cleared dictionary only ever names positions before `ip`. */
  ghost predicate Behind(tu: Tuning, dict: Dict, ip: nat) {
    && |dict| == D_SIZE
    && (tu.deterministic ==> forall k :: 0 <= k < |dict| ==> dict[k] == tu.Blank() || 0 <= dict[k] < ip)
  }

  /** The slot to update, and the match at `pos` if there is one. */
  datatype Probe = Probe(slot: nat, found: bool, pos: int)

  /** Up to two slots; the second is tried when the first holds a plausible position that does not match. */
  function Lookup(tu: Tuning, x: seq<byte>, ip: nat, dict: Dict): (p: Probe)
    requires ip + 3 <= |x| && Behind(tu, dict, ip)
    ensures p.slot < D_SIZE
    ensures p.found ==> 0 <= p.pos < ip && ip - p.pos <= MAX_OFFSET && Same3(x, ip, p.pos)
  {
    var k := tu.Slot(x, ip);
    if tu.Rejects(ip, dict[k]) then Probe(k, false, 0)
    else if Same3(x, ip, dict[k]) then Probe(k, true, dict[k])
    else
      var k2 := tu.Slot2(k);
      if tu.Rejects(ip, dict[k2]) then Probe(k2, false, 0)
      else Probe(k2, Same3(x, ip, dict[k2]), dict[k2])
  }

  datatype Hit = Hit(ip: nat, pos: nat, dict: Dict) | Miss

  /** No match starts in the last twelve bytes. */
  function Limit(x: seq<byte>): int {
    |x| - DVAL_LEN - MIN_MATCH_LONG
  }

  function Search(tu: Tuning, x: seq<byte>, ip: nat, dict: Dict): (r: Hit)
    requires Behind(tu, dict, ip)
    ensures r.Hit? ==> ip <= r.ip < Limit(x) && 0 <= r.pos < r.ip && r.ip - r.pos <= MAX_OFFSET
    ensures r.Hit? ==> Same3(x, r.ip, r.pos) && Behind(tu, r.dict, r.ip + 1)
    decreases |x| - ip
  {
    if ip >= Limit(x) then Miss
    else
      var p := Lookup(tu, x, ip, dict);
      var dict' := dict[p.slot := ip];
      if p.found then Hit(ip, p.pos, dict') else Search(tu, x, ip + 1, dict')
  }

  /** Up to nine bytes, then at most 255 more, and never into the last three bytes. */
  function MatchLength(x: seq<byte>, ip: nat, pos: nat): (len: nat)
    requires pos < ip < Limit(x)
    ensures MIN_MATCH <= len <= MAX_MATCH_LONG && ip + len <= |x| - DVAL_LEN
  {
    var c := Common(x, ip + 3, pos + 3, 6);
    if c < 6 then 3 + c else 9 + Common(x, ip + 9, pos + 9, Further(x, ip + 9))
  }

  /** How far a long match may still go. */
  function Further(x: seq<byte>, ip: nat): (n: nat)
    requires ip + DVAL_LEN <= |x|
    ensures ip + n + DVAL_LEN <= |x| && n <= 255
  {
    var left := |x| - DVAL_LEN - ip;
    if left <= MAX_MATCH_LONG - MIN_MATCH_LONG then left else MAX_MATCH_LONG - MIN_MATCH_LONG
  }

  lemma MatchRepeats(x: seq<byte>, ip: nat, pos: nat)
    requires pos < ip < Limit(x) && Same3(x, ip, pos)
    ensures Repeats(x, ip, ip - pos, MatchLength(x, ip, pos))
  {
    hide Common;
    var off := ip - pos;
    CommonRepeats(x, ip + 3, pos + 3, 6);
    var c := Common(x, ip + 3, pos + 3, 6);
    RepeatsJoin(x, ip, off, 3, c);
    if c == 6 {
      CommonRepeats(x, ip + 9, pos + 9, Further(x, ip + 9));
      RepeatsJoin(x, ip, off, 9, Common(x, ip + 9, pos + 9, Further(x, ip + 9)));
    }
  }

  /** Segments found, and where the last literals start. */
  datatype Parsed = Parsed(segs: seq<Segment>, rest: nat)

  /** The main loop behind the segments `done`: literals pend since `start`, the scan is at `ip`. */
  function ParseFrom(tu: Tuning, x: seq<byte>, start: nat, ip: nat, dict: Dict, done: seq<Segment>): (p: Parsed)
    requires start <= ip && Behind(tu, dict, ip)
    decreases |x| - ip
  {
    match Search(tu, x, ip, dict)
    case Miss => Parsed(done, start)
    case Hit(at, pos, d) =>
      var end := at + MatchLength(x, at, pos);
      ParseFrom(tu, x, end, end, d, done + [Segment(x[start..at], at - pos, end - at)])
  }

  /** lzo1_compress and lzo1a_compress: short inputs are one literal run. */
  function Parse(tu: Tuning, x: seq<byte>): (p: Parsed)
    requires tu.Legal()
  {
    if |x| <= MIN_MATCH_LONG + DVAL_LEN + 1 then Parsed([], 0)
    else ParseFrom(tu, x, 0, 1, tu.FirstDict()[tu.FirstSlot(x) := 0], [])
  }

  // ---------------------------------------------------------- what the parse means

  /** Whatever the hashes do and whatever the dictionary held, the segments tile the input. */
  lemma {:induction false} ParseFromTiles(tu: Tuning, x: seq<byte>, start: nat, ip: nat, dict: Dict, done: seq<Segment>)
    requires start <= ip && Behind(tu, dict, ip) && Tiles(x, start, done)
    ensures (var p := ParseFrom(tu, x, start, ip, dict, done); Tiles(x, p.rest, p.segs))
    decreases |x| - ip
  {
    hide Search, Tiles, MatchLength, Repeats;
    var r := Search(tu, x, ip, dict);
    if r.Hit? {
      var len := MatchLength(x, r.ip, r.pos);
      MatchRepeats(x, r.ip, r.pos);
      TilesNext(x, start, done, r.ip, r.ip - r.pos, len);
      ParseFromTiles(tu, x, r.ip + len, r.ip + len, r.dict, done + [Segment(x[start..r.ip], r.ip - r.pos, len)]);
    }
  }

  lemma ParseTiles(tu: Tuning, x: seq<byte>)
    requires tu.Legal()
    ensures Tiles(x, Parse(tu, x).rest, Parse(tu, x).segs)
  {
    if |x| > MIN_MATCH_LONG + DVAL_LEN + 1 {
      hide ParseFrom;
      ParseFromTiles(tu, x, 0, 1, tu.FirstDict()[tu.FirstSlot(x) := 0], []);
    }
  }

  /** The compressed form of `x`. */
  ghost function Compressed(tu: Tuning, x: seq<byte>): (c: seq<byte>)
    requires tu.Legal()
  {
    var p := Parse(tu, x);
    ParseTiles(tu, x);
    TilesCodable(x, p.rest, p.segs);
    Encode(tu.r1, p.segs, x[p.rest..])
  }

  /** At most a thirty-second, and a byte, longer than the input. */
  lemma CompressedLength(tu: Tuning, x: seq<byte>)
    requires tu.Legal()
    ensures |Compressed(tu, x)| <= |x| + |x| / 32 + 1
  {
    hide Parse, RunCode, Draft, Tiles;
    var p := Parse(tu, x);
    ParseTiles(tu, x);
    TilesCodable(x, p.rest, p.segs);
    DraftLength(tu.r1, x, p.rest, p.segs);
    RunCodeLength(x[p.rest..]);
  }

  lemma RunCodeLength(lit: seq<byte>)
    ensures |RunCode(lit)| <= |lit| + 1 + |lit| / 32
  {
  }

  /** Round trip, for LZO1 and LZO1A, whatever lies behind the compressed bytes. */
  lemma RoundTrip(tu: Tuning, x: seq<byte>, past: nat -> byte)
    requires tu.Legal()
    ensures Decode(Env(tu.r1, Compressed(tu, x), past)) == Done(Ok, x)
  {
    hide Parse, Decode, Encode, Tiles;
    ParseTiles(tu, x);
    DecodeEncode(tu.r1, x, Parse(tu, x).rest, Parse(tu, x).segs, past);
  }
}
