/** What Snappy's match finder finds: the first agreeing candidate, the longest match, the shortest codes. */
module SnappyGreedy {
  import opened Bytes
  import opened Lz77
  import opened SnappyElements
  import opened SnappyFormat
  import opened SnappyParse
  import opened SnappyVarint

  // ------------------------------------------------------- the scan misses nothing

  /** A position that the scan visits, the skip it has there, and the table that it finds. */
  datatype Look = Look(ip: nat, skip: nat, table: Table)

  /** The look is one that a scan of the block may take. */
  ghost predicate Looks(x: seq<byte>, limit: nat, v: Look) {
    limit + 15 == |x| <= 65536 && 32 <= v.skip && 1 <= v.ip && Before(v.table, v.ip)
  }

  /** The scan gives up here: its next step would lead past the limit. */
  ghost predicate Last(limit: nat, v: Look) {
    v.ip + v.skip / 32 > limit
  }

  /** Four bytes here agree with those at the position in their slot. */
  ghost predicate Agreeing(h: Hash, x: seq<byte>, limit: nat, v: Look)
    requires Looks(x, limit, v)
  {
    !Last(limit, v)
    && var c := v.table[Slot(h, x, v.ip, |v.table|)];
       x[v.ip..v.ip + 4] == x[c..c + 4]
  }

  /** The next look: a step of a thirty-second of the skip, with this position entered in its slot. */
  ghost function Further(h: Hash, x: seq<byte>, limit: nat, v: Look): (n: Look)
    requires Looks(x, limit, v) && !Last(limit, v)
    ensures Looks(x, limit, n) && v.ip < n.ip
  {
    Look(v.ip + v.skip / 32, v.skip + 1, v.table[Slot(h, x, v.ip, |v.table|) := v.ip])
  }

  /** One look after the other, none of them but perhaps the last with a candidate that agrees. */
  ghost predicate Walk(h: Hash, x: seq<byte>, limit: nat, w: seq<Look>)
    decreases |w|
  {
    && w != [] && Looks(x, limit, w[0])
    && (|w| > 1 ==>
          && !Last(limit, w[0]) && !Agreeing(h, x, limit, w[0])
          && w[1] == Further(h, x, limit, w[0]) && Walk(h, x, limit, w[1..]))
  }

  /** What the scan returns, told from its last look `v`. */
  ghost predicate Found(h: Hash, x: seq<byte>, limit: nat, v: Look, r: Hit)
    requires Looks(x, limit, v)
  {
    if Last(limit, v) then r.Miss?
    else
      && Agreeing(h, x, limit, v)
      && (var k := Slot(h, x, v.ip, |v.table|); r == Hit(v.ip, v.table[k], v.table[k := v.ip]))
  }

  lemma SameSlices(x: seq<byte>, i: nat, j: nat)
    requires i + 4 <= |x| && j + 4 <= |x|
    ensures Same4(x, i, j) <==> x[i..i + 4] == x[j..j + 4]
  {
    var a, b := x[i..i + 4], x[j..j + 4];
    assert a == [x[i], x[i + 1], x[i + 2], x[i + 3]] && b == [x[j], x[j + 1], x[j + 2], x[j + 3]];
    assert a[0] == x[i] && a[1] == x[i + 1] && a[2] == x[i + 2] && a[3] == x[i + 3];
  }

  lemma SearchTurn(h: Hash, x: seq<byte>, limit: nat, v: Look)
    requires Looks(x, limit, v)
    ensures (var r := Search(h, x, limit, v.ip, v.skip, v.table);
             if Last(limit, v) || Agreeing(h, x, limit, v) then Found(h, x, limit, v, r)
             else
               var n := Further(h, x, limit, v);
               r == Search(h, x, limit, n.ip, n.skip, n.table))
  {
    hide Same4, Before, Slot;
    if !Last(limit, v) {
      SlotBefore(h, x, limit, v);
      SameSlices(x, v.ip, v.table[Slot(h, x, v.ip, |v.table|)]);
    }
  }

  lemma SlotBefore(h: Hash, x: seq<byte>, limit: nat, v: Look)
    requires Looks(x, limit, v) && !Last(limit, v)
    ensures v.ip + 4 <= |x| && |v.table| >= 1
    ensures v.table[Slot(h, x, v.ip, |v.table|)] < v.ip
  {
  }

  /** The scan stops at the first look whose candidate agrees in four bytes, and misses only if there is none. */
  lemma {:induction false} SearchFirst(h: Hash, x: seq<byte>, limit: nat, v: Look) returns (w: seq<Look>)
    requires Looks(x, limit, v)
    ensures w != [] && w[0] == v && Walk(h, x, limit, w)
    ensures Looks(x, limit, w[|w| - 1])
    ensures Found(h, x, limit, w[|w| - 1], Search(h, x, limit, v.ip, v.skip, v.table))
    decreases |x| - v.ip
  {
    w := [v];
    SearchTurn(h, x, limit, v);
    hide Search, Agreeing, Further, Found, Before;
    if !Last(limit, v) && !Agreeing(h, x, limit, v) {
      var n := Further(h, x, limit, v);
      var rest := SearchFirst(h, x, limit, n);
      w := [v] + rest;
      assert w[1..] == rest;
    }
  }

  /** The bytes at a look are entered in slot `s`. */
  ghost predicate InSlot(h: Hash, x: seq<byte>, v: Look, s: nat) {
    v.ip + 4 <= |x| && |v.table| >= 1 && Slot(h, x, v.ip, |v.table|) == s
  }

  lemma FurtherEnters(h: Hash, x: seq<byte>, limit: nat, v: Look, s: nat)
    requires Looks(x, limit, v) && !Last(limit, v) && s < |v.table|
    ensures (var n := Further(h, x, limit, v);
             |n.table| == |v.table| && n.table[s] == if InSlot(h, x, v, s) then v.ip else v.table[s])
  {
    hide Load32;
  }

  lemma {:induction false} EntryKept(h: Hash, x: seq<byte>, limit: nat, w: seq<Look>, s: nat)
    requires Walk(h, x, limit, w) && s < |w[0].table|
    requires forall i :: 0 <= i < |w| - 1 ==> !InSlot(h, x, w[i], s)
    ensures |w[|w| - 1].table| == |w[0].table| && w[|w| - 1].table[s] == w[0].table[s]
    decreases |w|
  {
    if |w| > 1 {
      FurtherEnters(h, x, limit, w[0], s);
      hide Looks, Agreeing, Further, InSlot;
      assert !InSlot(h, x, w[0], s);
      forall i | 0 <= i < |w| - 2 ensures !InSlot(h, x, w[1..][i], s) {
        assert w[1..][i] == w[i + 1];
      }
      EntryKept(h, x, limit, w[1..], s);
    }
  }

  /** A slot holds the latest position entered in it. */
  lemma {:induction false} EntryLatest(h: Hash, x: seq<byte>, limit: nat, w: seq<Look>, j: nat, s: nat)
    requires Walk(h, x, limit, w) && s < |w[0].table|
    requires j < |w| - 1 && InSlot(h, x, w[j], s)
    requires forall i :: j < i < |w| - 1 ==> !InSlot(h, x, w[i], s)
    ensures |w[|w| - 1].table| == |w[0].table| && w[|w| - 1].table[s] == w[j].ip
    decreases |w|
  {
    FurtherEnters(h, x, limit, w[0], s);
    hide Looks, Agreeing, Further, InSlot;
    if j == 0 {
      forall i | 0 <= i < |w| - 2 ensures !InSlot(h, x, w[1..][i], s) {
        assert w[1..][i] == w[i + 1];
      }
      EntryKept(h, x, limit, w[1..], s);
    } else {
      forall i | j - 1 < i < |w| - 2 ensures !InSlot(h, x, w[1..][i], s) {
        assert w[1..][i] == w[i + 1];
      }
      EntryLatest(h, x, limit, w[1..], j - 1, s);
    }
  }

  lemma {:induction false} LastLooks(h: Hash, x: seq<byte>, limit: nat, w: seq<Look>)
    requires Walk(h, x, limit, w)
    ensures Looks(x, limit, w[|w| - 1]) && |w[|w| - 1].table| == |w[0].table| >= 1
    decreases |w|
  {
    if |w| > 1 {
      LastLooks(h, x, limit, w[1..]);
    }
  }

  /**
   * Four bytes that a scan has passed before are found again, unless other bytes have taken their slot: a look
   * agrees when an earlier one has the same bytes and none between them the slot.
   */
  lemma RepetitionFound(h: Hash, x: seq<byte>, limit: nat, w: seq<Look>, j: nat)
    requires Walk(h, x, limit, w) && j < |w| - 1
    requires (var v := w[|w| - 1];
              && !Last(limit, v) && |v.table| >= 1 && v.ip + 4 <= |x| && w[j].ip + 4 <= |x|
              && |w[j].table| == |v.table| && x[v.ip..v.ip + 4] == x[w[j].ip..w[j].ip + 4]
              && (forall i :: j < i < |w| - 1 ==> !InSlot(h, x, w[i], Slot(h, x, v.ip, |v.table|))))
    ensures (LastLooks(h, x, limit, w);
             Agreeing(h, x, limit, w[|w| - 1]))
  {
    LastLooks(h, x, limit, w);
    var v := w[|w| - 1];
    SameSlices(x, v.ip, w[j].ip);
    Load32Equal(x, v.ip, w[j].ip);
    hide Load32, Walk;
    EntryLatest(h, x, limit, w, j, Slot(h, x, v.ip, |v.table|));
  }

  /** Behind a match its last byte and the one after it are entered, and the candidate is what the latter finds. */
  lemma BehindEnters(h: Hash, x: seq<byte>, end: nat, table: Table, s: nat)
    requires 1 <= end && end + 4 <= |x| <= 65536 && SnappyParse.Before(table, end) && s < |table|
    ensures (var a, b := Slot(h, x, end - 1, |table|), Slot(h, x, end, |table|);
             var (t, next) := Behind(h, x, end, table);
             && |t| == |table| && t[s] == (if s == b then end else if s == a then end - 1 else table[s])
             && next == if a == b then end - 1 else table[b])
  {
    hide Load32;
  }

  /**
   * What comes behind a match that ends at `end`: a copy if the candidate agrees in four bytes, else a literal and
   * whatever a new scan finds from the next byte on.
   */
  ghost predicate GoesOn(h: Hash, x: seq<byte>, end: nat, next: nat, table: Table, els: seq<Element>)
    requires next < end && end + 15 < |x| <= 65536 && SnappyParse.Before(table, end + 1)
  {
    && els != []
    && if x[end..end + 4] == x[next..next + 4] then els[0] == Copy(end - next, MatchedAt(x, end, next))
       else
         && els[0].Literal? && els[0].bytes != [] && els[0].bytes[0] == x[end]
         && els == ParseFrom(h, x, |x| - 15, end, end + 1, table)
  }

  /** A match that ends in the last 15 bytes is the last one. */
  lemma CopiesEnd(h: Hash, x: seq<byte>, ip: nat, candidate: nat, table: Table)
    requires 15 <= |x| <= 65536 && candidate < ip && ip + 15 < |x| && SnappyParse.Before(table, ip + 1)
    requires ip + MatchedAt(x, ip, candidate) + 15 >= |x|
    ensures (var end := ip + MatchedAt(x, ip, candidate);
             var last := if end == |x| then [] else [Literal(x[end..])];
             ParseCopies(h, x, |x| - 15, ip, candidate, table) == [Copy(ip - candidate, end - ip)] + last)
  {
    hide MatchedAt, SnappyParse.Before;
  }

  /** Any other is followed by what the candidate behind it decides. */
  lemma CopiesGoOn(h: Hash, x: seq<byte>, ip: nat, candidate: nat, table: Table)
    requires 15 <= |x| <= 65536 && candidate < ip && ip + 15 < |x| && SnappyParse.Before(table, ip + 1)
    requires ip + MatchedAt(x, ip, candidate) + 15 < |x|
    ensures (var len := MatchedAt(x, ip, candidate);
             var els := ParseCopies(h, x, |x| - 15, ip, candidate, table);
             BeforeLater(table, ip + 1, ip + len);
             var b := Behind(h, x, ip + len, table);
             && els != [] && els[0] == Copy(ip - candidate, len)
             && GoesOn(h, x, ip + len, b.1, b.0, els[1..]))
  {
    hide MatchedAt, Same4, SnappyParse.Before, Behind;
    var len := MatchedAt(x, ip, candidate);
    var end := ip + len;
    BeforeLater(table, ip + 1, end);
    var (table', next) := Behind(h, x, end, table);
    SameSlices(x, end, next);
    if Same4(x, end, next) {
      CopyFirst(h, x, end, next, table');
      var rest := ParseCopies(h, x, |x| - 15, end, next, table');
      assert ([Copy(ip - candidate, len)] + rest)[1..] == rest;
    } else {
      LiteralNext(h, x, end, table');
      var rest := ParseFrom(h, x, |x| - 15, end, end + 1, table');
      assert ([Copy(ip - candidate, len)] + rest)[1..] == rest;
    }
  }

  lemma CopyFirst(h: Hash, x: seq<byte>, ip: nat, candidate: nat, table: Table)
    requires 15 <= |x| <= 65536 && candidate < ip && ip + 15 < |x| && SnappyParse.Before(table, ip + 1)
    ensures (var els := ParseCopies(h, x, |x| - 15, ip, candidate, table);
             els != [] && els[0] == Copy(ip - candidate, MatchedAt(x, ip, candidate)))
  {
    hide MatchedAt, Same4, SnappyParse.Before, Behind, ParseFrom;
  }

  lemma LiteralNext(h: Hash, x: seq<byte>, emit: nat, table: Table)
    requires 15 <= |x| <= 65536 && emit + 15 < |x| && SnappyParse.Before(table, emit + 1)
    ensures (var els := ParseFrom(h, x, |x| - 15, emit, emit + 1, table);
             els != [] && els[0].Literal? && els[0].bytes != [] && els[0].bytes[0] == x[emit])
  {
    hide Search, ParseCopies, SnappyParse.Before;
  }

  // -------------------------------------------- matches are longest, and codes shortest

  /** A match ends only before a byte that differs, or with the block. */
  lemma MatchMaximal(x: seq<byte>, ip: nat, candidate: nat)
    requires candidate < ip && ip + 4 <= |x|
    ensures (var len := MatchedAt(x, ip, candidate);
             ip + len == |x| || x[ip + len] != x[candidate + len])
  {
    CommonIsLongest(x, ip + 4, candidate + 4, |x| - (ip + 4));
  }

  /** No item for the same copy is shorter than the code that is written. */
  lemma ShortCopyShortest(off: nat, len: nat, it: Item)
    requires 4 <= len <= 64 && 1 <= off < 65536 && it.Fits() && !it.Lit? && it.off == off && it.len == len
    ensures |ShortCopy(off, len)| <= |it.Bytes()|
  {
  }

  lemma LittleEndianLength(n: nat, w: nat)
    requires 1 <= w <= 4 && n < 4294967296
    requires (w == 1 ==> n < 256) && (w == 2 ==> n < 65536) && (w == 3 ==> n < 16777216)
    ensures |LittleEndian(n)| <= w
  {
  }

  /** No item for the same literal is shorter than the one that is written. */
  lemma LiteralShortest(b: seq<byte>, it: Item)
    requires 1 <= |b| < 4294967296 && it.Fits() && it.Lit? && it.bytes == b
    ensures |LiteralHead(|b|) + b| <= |it.Bytes()|
  {
    if it.width > 0 {
      LittleEndianLength(|b| - 1, it.width);
    }
    hide LittleEndian;
  }

  /** A copy is cut into no more pieces than are needed for pieces of up to 64 bytes. */
  lemma {:induction false} CopyCodeLength(off: nat, len: nat)
    requires 4 <= len && off < 65536
    ensures |CopyCode(off, len)| <= 3 * ((len + 63) / 64)
    decreases len
  {
    if len >= 68 {
      CopyCodeLength(off, len - 64);
    }
  }

  // ------------------------------------------------------ what repeats is compressed

  /** One byte over and over. */
  ghost predicate Uniform(x: seq<byte>) {
    forall i, j :: 0 <= i < |x| && 0 <= j < |x| ==> x[i] == x[j]
  }

  lemma {:induction false} UniformCommon(x: seq<byte>, a: nat, b: nat, n: nat)
    requires Uniform(x) && a + n <= |x| && b + n <= |x|
    ensures Common(x, a, b, n) == n
    decreases n
  {
    if n > 0 {
      UniformCommon(x, a + 1, b + 1, n - 1);
    }
  }

  /** A block of one byte over and over becomes that byte and a copy of the rest, whatever the hash. */
  lemma UniformBlock(h: Hash, x: seq<byte>)
    requires Uniform(x) && 17 <= |x| <= 65536
    ensures ParseBlock(h, x) == [Literal(x[..1]), Copy(1, |x| - 1)]
  {
    hide TableSize, Common, Load32;
    var t := ClearTable(TableSize(|x|));
    var limit := |x| - 15;
    var k := Slot(h, x, 1, |t|);
    assert t[k] == 0 && Same4(x, 1, 0);
    assert Search(h, x, limit, 1, 32, t) == Hit(1, 0, t[k := 1]);
    UniformCommon(x, 5, 4, |x| - 5);
    assert MatchedAt(x, 1, 0) == |x| - 1;
    hide Search, MatchedAt, Slot;
    assert ParseCopies(h, x, limit, 1, 0, t[k := 1]) == [Copy(1, |x| - 1)] + Remainder(x, |x|);
    assert x[0..1] == x[..1];
  }

  lemma UniformCode(h: Hash, x: seq<byte>)
    requires Uniform(x) && 1 <= |x| <= 65536
    ensures |BlockCode(h, x)| <= 3 * (|x| / 64) + 17
    ensures |x| == 65536 ==> |BlockCode(h, x)| <= 3074
  {
    hide CopyCode, TableSize, ParseBlock;
    BlockCovers(h, x);
    if |x| >= 17 {
      UniformBlock(h, x);
      CopyCodeLength(1, |x| - 1);
      TwoCodes(x[..1], |x| - 1);
    }
  }

  lemma TwoCodes(b: seq<byte>, len: nat)
    requires |b| == 1 && 4 <= len
    ensures AllCodable([Literal(b), Copy(1, len)])
    ensures |Encode([Literal(b), Copy(1, len)])| == 2 + |CopyCode(1, len)|
  {
    hide LittleEndian, CopyCode;
    var els := [Literal(b), Copy(1, len)];
    assert els[1..] == [Copy(1, len)] && els[1..][1..] == [];
    assert Encode([]) == [];
    assert Encode([Copy(1, len)]) == CopyCode(1, len) + [];
  }

  lemma {:induction false} UniformBody(h: Hash, x: seq<byte>, p: nat)
    requires Uniform(x) && p <= |x|
    ensures |Body(h, x, p)| <= (|x| - p) / 21 + 17
    ensures p == |x| ==> Body(h, x, p) == []
    decreases |x| - p
  {
    hide BlockCode;
    if p < |x| {
      var q := if |x| - p < BLOCK_SIZE then |x| else p + BLOCK_SIZE;
      assert Uniform(x[p..q]);
      UniformCode(h, x[p..q]);
      UniformBody(h, x, q);
    }
  }

  /** One byte over and over is compressed to at most a twenty-first and 22 bytes, whatever the hash. */
  lemma UniformCompressed(h: Hash, x: seq<byte>)
    requires Uniform(x)
    ensures |Compressed(h, x)| <= |x| / 21 + 22
  {
    hide Body;
    UniformBody(h, x, 0);
  }

  // ------------------------------------------------------------------ tables and blocks

  /** The table has 256 entries or more, as many as needed for the block up to 16384, and no more. */
  lemma {:induction false} TableSizeExactly(n: nat, size: nat)
    requires 256 <= size <= 16384 && (size == 256 || size / 2 < n)
    ensures (var r := TableSize(n, size);
             && 256 <= r < 32768 && (n <= r || 16384 <= r) && (r == 256 || r / 2 < n))
    decreases if size < 16384 then 16384 - size else 0
  {
    if size < 16384 && size < n && 2 * size <= 16384 {
      TableSizeExactly(n, 2 * size);
    }
  }

  lemma {:induction false} BodyShift(h: Hash, x: seq<byte>, y: seq<byte>, p: nat)
    requires p <= |y|
    ensures Body(h, x + y, |x| + p) == Body(h, y, p)
    decreases |y| - p
  {
    hide BlockCode;
    if p < |y| {
      var q := if |y| - p < 65536 then |y| else p + 65536;
      BodyShift(h, x, y, q);
      assert (x + y)[|x| + p..|x| + q] == y[p..q];
    }
  }

  /** A stream is the length and then, 65536 bytes at a time, the code of the blocks. */
  lemma CompressedBlocks(h: Hash, x: seq<byte>, y: seq<byte>)
    requires |x| <= 65536 && (y != [] ==> |x| == 65536)
    ensures Compressed(h, x + y)
         == Encoded(|x + y| % 4294967296) + (if x == [] then [] else BlockCode(h, x)) + Body(h, y, 0)
  {
    hide BlockCode, Encoded;
    BodyShift(h, x, y, 0);
    if x != [] {
      assert (x + y)[0..|x|] == x;
    } else {
      assert x + y == y;
    }
  }
}
