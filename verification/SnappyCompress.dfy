/** Snappy compression: the block compressor and its overshooting stores. */
module SnappyCompress {
  import opened Bytes
  import opened Lz77
  import opened SnappyFormat
  import opened SnappyMatch
  import opened SnappyParse

  /** Which of the three forms of FindMatchLength the machine uses. */
  datatype Machine = Words64 | Words32 | BigEndian32

  method FindMatchLength(machine: Machine, x: seq<byte>, s1: nat, s2: nat, limit: nat) returns (matched: nat)
    requires s1 <= s2 <= limit <= |x|
    ensures matched == Common(x, s2, s1, limit - s2)
  {
    match machine
    case Words64 => matched := FindMatchLength64(x, s1, s2, limit);
    case Words32 => matched := FindMatchLength32(x, s1, s2, limit, true);
    case BigEndian32 => matched := FindMatchLength32(x, s1, s2, limit, false);
  }

  // ------------------------------------------------------------------ element encoding

  /** `dst[from..op]` holds `code`. */
  ghost predicate Holds(dst: array<byte>, from: nat, op: nat, code: seq<byte>)
    reads dst
  {
    from <= op <= dst.Length && op - from == |code| && dst[from..op] == code
  }

  /** Nothing outside `[lo, hi)` has changed. */
  twostate predicate Framed(dst: array<byte>, lo: nat, hi: nat)
    reads dst
  {
    forall k :: 0 <= k < dst.Length && !(lo <= k < hi) ==> dst[k] == old(dst[k])
  }

  /** `*op++ = b` */
  method Put(dst: array<byte>, from: nat, op: nat, b: byte, ghost code: seq<byte>)
    requires Holds(dst, from, op, code) && op < dst.Length
    modifies dst
    ensures Holds(dst, from, op + 1, code + [b]) && Framed(dst, op, op + 1)
  {
    dst[op] := b;
    assert dst[from..op] == code;
  }

  /** The length bytes of a long literal. */
  method PutLength(dst: array<byte>, from: nat, op0: nat, n0: nat, ghost code: seq<byte>) returns (op: nat)
    requires Holds(dst, from, op0, code) && op0 + |LittleEndian(n0)| <= dst.Length
    modifies dst
    ensures Holds(dst, from, op, code + LittleEndian(n0)) && Framed(dst, op0, op)
  {
    op := op0;
    var n := n0;
    ghost var done: seq<byte> := code;
    while n > 0
      invariant Holds(dst, from, op, done) && done + LittleEndian(n) == code + LittleEndian(n0)
      invariant op0 <= op && Framed(dst, op0, op)
    {
      assert done + [n % 0x100] + LittleEndian(n / 0x100) == done + LittleEndian(n);
      Put(dst, from, op, n % 0x100, done);
      done := done + [n % 0x100];
      n, op := n / 0x100, op + 1;
    }
    assert done + [] == done;
  }

  /** The tag of a literal; for a long one the tag byte is filled in after the length. */
  method PutHead(dst: array<byte>, from: nat, op0: nat, len: nat, ghost code: seq<byte>) returns (op: nat)
    requires Holds(dst, from, op0, code) && 1 <= len <= BLOCK_SIZE && op0 + |LiteralHead(len)| <= dst.Length
    modifies dst
    ensures Holds(dst, from, op, code + LiteralHead(len)) && Framed(dst, op0, op)
  {
    var n := len - 1;
    if n < 60 {
      Put(dst, from, op0, 4 * n, code);
      op := op0 + 1;
    } else {
      op := PutLongHead(dst, from, op0, n, code);
    }
  }

  lemma HeadJoined(s: seq<byte>, from: nat, op0: nat, op: nat, code: seq<byte>, tag: byte, l: seq<byte>)
    requires from <= op0 < op <= |s| && s[from..op0] == code && s[op0] == tag && s[op0 + 1..op] == l
    ensures s[from..op] == code + ([tag] + l)
  {
    assert s[from..op] == s[from..op0] + ([s[op0]] + s[op0 + 1..op]);
  }

  method PutLongHead(dst: array<byte>, from: nat, op0: nat, n: nat, ghost code: seq<byte>) returns (op: nat)
    requires Holds(dst, from, op0, code) && 60 <= n < BLOCK_SIZE && op0 + 1 + |LittleEndian(n)| <= dst.Length
    modifies dst
    ensures Holds(dst, from, op, code + ([4 * (59 + |LittleEndian(n)|)] + LittleEndian(n))) && Framed(dst, op0, op)
  {
    ghost var l := LittleEndian(n);
    assert |l| <= 2 by {
      assert n / 0x100 / 0x100 == 0;
    }
    hide LittleEndian;
    op := PutLength(dst, op0 + 1, op0 + 1, n, []);
    assert [] + l == l;
    var tag := 4 * (59 + (op - op0 - 1));
    dst[op0] := tag;
    assert dst[op0 + 1..op] == l;
    HeadJoined(dst[..], from, op0, op, code, tag, l);
  }

  /** EmitLiteral: the fast path stores sixteen bytes whatever the length. */
  method EmitLiteral(dst: array<byte>, from: nat, op0: nat, x: seq<byte>, start: nat, len: nat, allowFast: bool,
          ghost code: seq<byte>) returns (op: nat)
    requires Holds(dst, from, op0, code) && 1 <= len <= BLOCK_SIZE && start + len <= |x|
    requires op0 + |LiteralHead(len)| + len <= dst.Length
    requires allowFast ==> start + 16 <= |x| && op0 + 17 <= dst.Length
    modifies dst
    ensures Holds(dst, from, op, code + LiteralHead(len) + x[start..start + len])
    ensures Framed(dst, op0, if allowFast && op < op0 + 17 then op0 + 17 else op)
  {
    op := PutHead(dst, from, op0, len, code);
    ghost var headed := code + LiteralHead(len);
    if allowFast && len <= 16 {
      assert op == op0 + 1;
      forall i | 0 <= i < 16 {
        dst[op + i] := x[start + i];
      }
    } else {
      forall i | 0 <= i < len {
        dst[op + i] := x[start + i];
      }
    }
    assert dst[from..op] == headed;
    assert dst[op..op + len] == x[start..start + len];
    assert dst[from..op + len] == dst[from..op] + dst[op..op + len];
    op := op + len;
  }

  method EmitCopyLessThan64(dst: array<byte>, from: nat, op0: nat, off: nat, len: nat, ghost code: seq<byte>)
    returns (op: nat)
    requires Holds(dst, from, op0, code) && 4 <= len <= 64 && off < 0x1_0000
      && op0 + |ShortCopy(off, len)| <= dst.Length
    modifies dst
    ensures Holds(dst, from, op, code + ShortCopy(off, len)) && Framed(dst, op0, op)
  {
    if len < 12 && off < 2048 {
      var tag := 1 + 4 * (len - 4) + 32 * (off / 0x100);
      Put(dst, from, op0, tag, code);
      Put(dst, from, op0 + 1, off % 0x100, code + [tag]);
      op := op0 + 2;
      assert code + [tag] + [off % 0x100] == code + ShortCopy(off, len);
    } else {
      var tag := 2 + 4 * (len - 1);
      Put(dst, from, op0, tag, code);
      Put(dst, from, op0 + 1, off % 0x100, code + [tag]);
      Put(dst, from, op0 + 2, off / 0x100, code + [tag] + [off % 0x100]);
      op := op0 + 3;
      assert code + [tag] + [off % 0x100] + [off / 0x100] == code + ShortCopy(off, len);
    }
  }

  method EmitCopy(dst: array<byte>, from: nat, op0: nat, off: nat, len0: nat, ghost code: seq<byte>) returns (op: nat)
    requires Holds(dst, from, op0, code) && 4 <= len0 && off < 0x1_0000 && op0 + |CopyCode(off, len0)| <= dst.Length
    modifies dst
    ensures Holds(dst, from, op, code + CopyCode(off, len0)) && Framed(dst, op0, op)
  {
    hide ShortCopy;
    op := op0;
    var len := len0;
    ghost var done: seq<byte> := code;
    while len >= 68
      invariant 4 <= len && Holds(dst, from, op, done) && done + CopyCode(off, len) == code + CopyCode(off, len0)
      invariant op0 <= op && Framed(dst, op0, op)
    {
      assert done + ShortCopy(off, 64) + CopyCode(off, len - 64) == done + CopyCode(off, len);
      op := EmitCopyLessThan64(dst, from, op, off, 64, done);
      done := done + ShortCopy(off, 64);
      len := len - 64;
    }
    if len > 64 {
      assert done + ShortCopy(off, 60) + ShortCopy(off, len - 60) == done + CopyCode(off, len);
      op := EmitCopyLessThan64(dst, from, op, off, 60, done);
      done := done + ShortCopy(off, 60);
      len := len - 60;
    }
    op := EmitCopyLessThan64(dst, from, op, off, len, done);
  }

  // ------------------------------------------------------------ the block compressor

  /** What the compressor has still to emit when it starts a scan at `ip`. */
  ghost function FromCode(h: Hash, x: seq<byte>, limit: nat, emit: nat, ip: nat, table: Table): (c: seq<byte>)
    requires limit + MARGIN == |x| <= BLOCK_SIZE && emit < ip <= |x| && Before(table, ip)
    ensures (var n := |x| - emit; |c| <= n + n / 61 + 1)
  {
    FromCovers(h, x, limit, emit, ip, table);
    Encode(ParseFrom(h, x, limit, emit, ip, table))
  }

  /** What it has still to emit when it has a match at `ip`. */
  ghost function CopiesCode(h: Hash, x: seq<byte>, limit: nat, ip: nat, candidate: nat, table: Table): (c: seq<byte>)
    requires limit + MARGIN == |x| <= BLOCK_SIZE && candidate < ip < limit && Before(table, ip + 1)
      && Same4(x, ip, candidate)
    ensures (var n := |x| - ip; |c| <= n + n / 61)
  {
    CopiesCover(h, x, limit, ip, candidate, table);
    Encode(ParseCopies(h, x, limit, ip, candidate, table))
  }

  /** The code of the last literal. */
  ghost function RemainderCode(x: seq<byte>, emit: nat): (c: seq<byte>)
    requires emit <= |x| <= BLOCK_SIZE
    ensures (var n := |x| - emit; |c| <= n + n / 61 + 1)
  {
    CoversRemainder(x, emit);
    Encode(Remainder(x, emit))
  }

  lemma EncodeCons(el: Element, els: seq<Element>)
    requires Codable(el) && AllCodable(els)
    ensures AllCodable([el] + els) && Encode([el] + els) == Code(el) + Encode(els)
  {
    assert ([el] + els)[1..] == els;
  }

  lemma RemainderUnfolds(x: seq<byte>, emit: nat)
    requires emit <= |x| <= BLOCK_SIZE
    ensures RemainderCode(x, emit) == if emit < |x| then LiteralHead(|x| - emit) + x[emit..] else []
  {
    hide LiteralHead;
    if emit < |x| {
      EncodeCons(Literal(x[emit..]), []);
      assert [Literal(x[emit..])] + [] == Remainder(x, emit);
    }
  }

  lemma FromUnfolds(h: Hash, x: seq<byte>, limit: nat, emit: nat, ip: nat, table: Table)
    requires limit + MARGIN == |x| <= BLOCK_SIZE && emit < ip <= |x| && Before(table, ip)
    ensures (var r := Search(h, x, limit, ip, 32, table);
             FromCode(h, x, limit, emit, ip, table) ==
             if r.Hit? then
               LiteralHead(r.ip - emit) + x[emit..r.ip] + CopiesCode(h, x, limit, r.ip, r.candidate, r.table)
             else RemainderCode(x, emit))
  {
    hide Search, ParseCopies, LiteralHead, Encode, Before;
    FromCovers(h, x, limit, emit, ip, table);
    var r := Search(h, x, limit, ip, 32, table);
    if r.Hit? {
      CopiesCover(h, x, limit, r.ip, r.candidate, r.table);
      EncodeCons(Literal(x[emit..r.ip]), ParseCopies(h, x, limit, r.ip, r.candidate, r.table));
    }
  }

  lemma CopiesUnfold(h: Hash, x: seq<byte>, limit: nat, ip: nat, candidate: nat, table: Table)
    requires limit + MARGIN == |x| <= BLOCK_SIZE && candidate < ip < limit && Before(table, ip + 1)
      && Same4(x, ip, candidate)
    ensures (var len := MatchedAt(x, ip, candidate);
             var end := ip + len;
             Before(table, end) && CopiesCode(h, x, limit, ip, candidate, table) == CopyCode(ip - candidate, len) +
             (if end >= limit then RemainderCode(x, end)
              else
                var (table', next) := Behind(h, x, end, table);
                if Same4(x, end, next) then CopiesCode(h, x, limit, end, next, table')
                else FromCode(h, x, limit, end, end + 1, table')))
  {
    hide Behind, Before, MatchedAt, ParseFrom, Encode, CopyCode, Valid, Expand, Same4, Search, Remainder, Slot;
    CopiesCover(h, x, limit, ip, candidate, table);
    var len := MatchedAt(x, ip, candidate);
    var end := ip + len;
    BeforeLater(table, ip + 1, end);
    var tail: seq<Element>;
    if end >= limit {
      tail := Remainder(x, end);
      CoversRemainder(x, end);
    } else {
      var (table', next) := Behind(h, x, end, table);
      if Same4(x, end, next) {
        tail := ParseCopies(h, x, limit, end, next, table');
        CopiesCover(h, x, limit, end, next, table');
      } else {
        tail := ParseFrom(h, x, limit, end, end + 1, table');
        FromCovers(h, x, limit, end, end + 1, table');
      }
    }
    EncodeCons(Copy(ip - candidate, len), tail);
  }

  lemma BeforeNonempty(table: Table, ip: nat)
    requires Before(table, ip)
    ensures |table| >= 1
  {
  }

  /** One turn of the scan. */
  lemma SearchUnfolds(h: Hash, x: seq<byte>, limit: nat, ip: nat, skip: nat, table: Table)
    requires limit + MARGIN == |x| <= BLOCK_SIZE && 32 <= skip && 1 <= ip && Before(table, ip)
    ensures (var r := Search(h, x, limit, ip, skip, table);
             var next := ip + skip / 32;
             if next > limit then r == Miss
             else
               var k := Slot(h, x, ip, |table|);
               Before(table[k := ip], ip + 1) && table[k] < ip &&
               r == if Same4(x, ip, table[k]) then Hit(ip, table[k], table[k := ip])
                    else Search(h, x, limit, next, skip + 1, table[k := ip]))
  {
    hide Same4, Slot;
  }

  /** Step 1: the scanning loop; `next_hash` is computed one position ahead. */
  method ScanForMatch(h: Hash, x: seq<byte>, limit: nat, ip0: nat, table: array<uint16>, size: nat)
    returns (hit: bool, ip: nat, candidate: nat)
    requires limit + MARGIN == |x| <= BLOCK_SIZE && 1 <= ip0 <= limit + 1
    requires size <= table.Length && Before(table[..size], ip0)
    modifies table
    ensures Before(old(table[..size]), ip0)
    ensures (var r := Search(h, x, limit, ip0, 32, old(table[..size]));
             hit == r.Hit? && (hit ==> ip == r.ip && candidate == r.candidate && table[..size] == r.table))
  {
    hide Search, Slot, Same4, Load32, Before;
    ghost var goal := Search(h, x, limit, ip0, 32, table[..size]);
    BeforeNonempty(table[..size], ip0);
    var skip := 32;
    var next := ip0;
    ip := ip0;
    candidate := 0;
    var nextHash := Slot(h, x, ip0, size);
    while true
      invariant 1 <= next <= limit + 1 && 32 <= skip && nextHash == Slot(h, x, next, size)
      invariant Before(table[..size], next) && goal == Search(h, x, limit, next, skip, table[..size])
      decreases limit + 1 - next
    {
      SearchUnfolds(h, x, limit, next, skip, table[..size]);
      ip := next;
      var hash := nextHash;
      next := ip + skip / 32;
      skip := skip + 1;
      if next > limit {
        return false, ip, candidate;
      }
      nextHash := Slot(h, x, next, size);
      candidate := table[hash];
      ghost var t := table[..size];
      var here: uint16 := ip;
      table[hash] := here;
      assert table[..size] == t[hash := here];
      BeforeLater(table[..size], ip + 1, next);
      if Load32(x, ip) == Load32(x, candidate) {
        Load32Equal(x, ip, candidate);
        return true, ip, candidate;
      }
      Load32Equal(x, ip, candidate);
    }
  }

  /** Enter the last two positions of a match, and take the candidate for the next. */
  method EnterBehind(h: Hash, x: seq<byte>, end: nat, table: array<uint16>, size: nat) returns (candidate: nat)
    requires 1 <= end && end + 4 <= |x| <= BLOCK_SIZE && size <= table.Length && Before(table[..size], end)
    modifies table
    ensures Before(old(table[..size]), end) && (table[..size], candidate) == Behind(h, x, end, old(table[..size]))
  {
    ghost var t0 := table[..size];
    BeforeNonempty(t0, end);
    hide Slot, Before;
    var before: uint16, here: uint16 := end - 1, end;
    var prevHash := Slot(h, x, end - 1, size);
    table[prevHash] := before;
    ghost var t1 := table[..size];
    assert t1 == t0[prevHash := before];
    var curHash := Slot(h, x, end, size);
    candidate := table[curHash];
    table[curHash] := here;
    assert table[..size] == t1[curHash := here];
  }

  /** Step 3: the loop of back-to-back copies. */
  method EmitCopies(h: Hash, machine: Machine, x: seq<byte>, limit: nat, ip0: nat, candidate0: nat,
                    table: array<uint16>, size: nat, dst: array<byte>, from: nat, op0: nat, ghost code: seq<byte>)
    returns (again: bool, ip: nat, op: nat, ghost done: seq<byte>)
    requires limit + MARGIN == |x| <= BLOCK_SIZE && candidate0 < ip0 < limit && Same4(x, ip0, candidate0)
    requires size <= table.Length && Before(table[..size], ip0 + 1)
    requires Holds(dst, from, op0, code) && |code| <= ip0 + ip0 / 61 + 1 && from + |x| + |x| / 61 + 1 <= dst.Length
    modifies dst, table
    ensures Before(old(table[..size]), ip0 + 1) && ip0 < ip <= |x|
    ensures again ==> ip < limit && Before(table[..size], ip + 1)
    ensures done + (if again then FromCode(h, x, limit, ip, ip + 1, table[..size]) else RemainderCode(x, ip)) ==
            code + CopiesCode(h, x, limit, ip0, candidate0, old(table[..size]))
    ensures Holds(dst, from, op, done) && |done| <= ip + ip / 61 && Framed(dst, op0, op) && op0 <= op
  {
    hide Before, Same4, Behind, CopyCode, CopiesCode, FromCode, RemainderCode, Load32, Holds;
    ghost var goal := code + CopiesCode(h, x, limit, ip0, candidate0, table[..size]);
    var candidate: nat := candidate0;
    ip, op, done := ip0, op0, code;
    while true
      invariant candidate < ip < limit && ip0 <= ip && Same4(x, ip, candidate) && Before(table[..size], ip + 1)
      invariant done + CopiesCode(h, x, limit, ip, candidate, table[..size]) == goal
      invariant Holds(dst, from, op, done) && op0 <= op && Framed(dst, op0, op) && |done| <= ip + ip / 61 + 1
      decreases limit - ip
    {
      CopiesUnfold(h, x, limit, ip, candidate, table[..size]);
      var matched := FindMatchLength(machine, x, candidate + 4, ip + 4, |x|);
      var off, len := ip - candidate, 4 + matched;
      ghost var t := table[..size];
      assert len == MatchedAt(x, ip, candidate);
      ghost var piece := CopyCode(off, len);
      ghost var rest := CopiesCode(h, x, limit, ip, candidate, t)[|piece|..];
      assert done + piece + rest == goal;
      HoldsLength(dst, from, op, done);
      op := EmitCopy(dst, from, op, off, len, done);
      done := done + piece;
      HoldsLength(dst, from, op, done);
      ip := ip + len;
      if ip >= limit {
        return false, ip, op, done;
      }
      candidate := EnterBehind(h, x, ip, table, size);
      if Load32(x, ip) != Load32(x, candidate) {
        Load32Equal(x, ip, candidate);
        return true, ip, op, done;
      }
      Load32Equal(x, ip, candidate);
    }
  }

  lemma HoldsLength(dst: array<byte>, from: nat, op: nat, code: seq<byte>)
    requires Holds(dst, from, op, code)
    ensures op == from + |code| <= dst.Length
  {
  }

  /** Step 2: the pending literal, by the overshooting fast path. */
  method EmitPending(x: seq<byte>, emit: nat, ip: nat, dst: array<byte>, from: nat, op0: nat, ghost done: seq<byte>)
    returns (op: nat)
    requires |x| <= BLOCK_SIZE && from + |x| + |x| / 61 + 1 <= dst.Length
    requires emit < ip && ip + 4 <= |x| && emit + 16 <= |x| && Holds(dst, from, op0, done) && |done| <= emit + emit / 61
    modifies dst
    ensures (var done' := done + (LiteralHead(ip - emit) + x[emit..ip]);
             Holds(dst, from, op, done') && |done'| <= ip + ip / 61 + 1 && op == from + |done'|)
    ensures Framed(dst, from, from + |x| + |x| / 61 + 1)
  {
    hide LiteralHead, Holds;
    HoldsLength(dst, from, op0, done);
    LiteralHeadLength(ip - emit);
    op := EmitLiteral(dst, from, op0, x, emit, ip - emit, true, done);
    assert done + LiteralHead(ip - emit) + x[emit..ip] == done + (LiteralHead(ip - emit) + x[emit..ip]);
    HoldsLength(dst, from, op, done + (LiteralHead(ip - emit) + x[emit..ip]));
  }

  /** Steps 2 and 3: the pending literal, then the copies. */
  method EmitRound(h: Hash, machine: Machine, x: seq<byte>, limit: nat, emit0: nat, ip: nat, candidate: nat,
                   table: array<uint16>, size: nat, dst: array<byte>, from: nat, op0: nat, ghost code: seq<byte>)
    returns (again: bool, emit: nat, op: nat, ghost done: seq<byte>)
    requires limit + MARGIN == |x| <= BLOCK_SIZE && emit0 < ip < limit && candidate < ip && Same4(x, ip, candidate)
    requires size <= table.Length && Before(table[..size], ip + 1)
    requires Holds(dst, from, op0, code) && |code| <= emit0 + emit0 / 61 && from + |x| + |x| / 61 + 1 <= dst.Length
    modifies dst, table
    ensures Before(old(table[..size]), ip + 1) && ip < emit <= |x|
    ensures again ==> emit < limit && Before(table[..size], emit + 1)
    ensures done + (if again then FromCode(h, x, limit, emit, emit + 1, table[..size]) else RemainderCode(x, emit)) ==
            code + (LiteralHead(ip - emit0) + x[emit0..ip] + CopiesCode(h, x, limit, ip, candidate, old(table[..size])))
    ensures Holds(dst, from, op, done) && |done| <= emit + emit / 61 && Framed(dst, from, from + |x| + |x| / 61 + 1)
  {
    hide Before, Same4, CopiesCode, FromCode, RemainderCode, Holds, LiteralHead;
    ghost var piece := LiteralHead(ip - emit0) + x[emit0..ip];
    op := EmitPending(x, emit0, ip, dst, from, op0, code);
    ghost var rest := CopiesCode(h, x, limit, ip, candidate, table[..size]);
    assert code + piece + rest == code + (piece + rest);
    again, emit, op, done := EmitCopies(h, machine, x, limit, ip, candidate, table, size, dst, from, op, code + piece);
    HoldsLength(dst, from, op, done);
  }

  /** The main loop: a literal, then copies, until no match is left. */
  method EmitMatches(h: Hash, machine: Machine, x: seq<byte>, limit: nat, dst: array<byte>, from: nat,
          table: array<uint16>, size: nat)
    returns (op: nat, emit: nat, ghost done: seq<byte>)
    requires limit + MARGIN == |x| <= BLOCK_SIZE && from + |x| + |x| / 61 + 1 <= dst.Length
    requires size <= table.Length && Before(table[..size], 1)
    modifies dst, table
    ensures Before(old(table[..size]), 1) && emit <= |x|
    ensures Holds(dst, from, op, done) && Framed(dst, from, from + |x| + |x| / 61 + 1)
    ensures done + RemainderCode(x, emit) == FromCode(h, x, limit, 0, 1, old(table[..size]))
  {
    hide Before, Same4, CopiesCode, FromCode, RemainderCode, Holds, LiteralHead, Search;
    ghost var goal := FromCode(h, x, limit, 0, 1, table[..size]);
    op, emit, done := from, 0, [];
    HoldsNothing(dst, from);
    while true
      invariant emit <= limit && (emit > 0 ==> emit < limit) && Before(table[..size], emit + 1)
      invariant done + FromCode(h, x, limit, emit, emit + 1, table[..size]) == goal
      invariant Holds(dst, from, op, done) && |done| <= emit + emit / 61
      invariant Framed(dst, from, from + |x| + |x| / 61 + 1)
      decreases limit - emit
    {
      FromUnfolds(h, x, limit, emit, emit + 1, table[..size]);
      var hit, ip, candidate := ScanForMatch(h, x, limit, emit + 1, table, size);
      if !hit {
        return;
      }
      var again;
      again, emit, op, done := EmitRound(h, machine, x, limit, emit, ip, candidate, table, size, dst, from, op, done);
      if !again {
        return;
      }
    }
  }

  /** CompressFragment: the block's code at `from`, and no store past `n + n/61 + 1` bytes from there. */
  method CompressFragment(h: Hash, machine: Machine, x: seq<byte>, dst: array<byte>, from: nat, table: array<uint16>,
          size: nat)
    returns (op: nat)
    requires |x| <= BLOCK_SIZE && from + |x| + |x| / 61 + 1 <= dst.Length
    requires size == TableSize(|x|) <= table.Length && forall k :: 0 <= k < size ==> table[k] == 0
    modifies dst, table
    ensures Holds(dst, from, op, BlockCode(h, x)) && Framed(dst, from, from + |x| + |x| / 61 + 1)
  {
    hide Before, Holds, FromCode, RemainderCode, LiteralHead, BlockCode;
    var emit := 0;
    ghost var done: seq<byte> := [];
    op := from;
    BlockStarts(h, x);
    if |x| >= MARGIN {
      assert table[..size] == ClearTable(size);
      op, emit, done := EmitMatches(h, machine, x, |x| - MARGIN, dst, from, table, size);
    } else {
      HoldsNothing(dst, from);
      assert [] + RemainderCode(x, 0) == RemainderCode(x, 0);
    }
    RemainderUnfolds(x, emit);
    if emit < |x| {
      HoldsLength(dst, from, op, done);
      op := EmitLiteral(dst, from, op, x, emit, |x| - emit, false, done);
      HoldsLength(dst, from, op, done + LiteralHead(|x| - emit) + x[emit..]);
      assert done + LiteralHead(|x| - emit) + x[emit..] == BlockCode(h, x);
    } else {
      assert done + [] == done;
    }
  }

  lemma HoldsNothing(dst: array<byte>, from: nat)
    requires from <= dst.Length
    ensures Holds(dst, from, from, [])
  {
  }

  lemma BlockStarts(h: Hash, x: seq<byte>)
    requires |x| <= BLOCK_SIZE
    ensures |x| < MARGIN ==> BlockCode(h, x) == RemainderCode(x, 0)
    ensures |x| >= MARGIN ==>
              (var t := ClearTable(TableSize(|x|));
               Before(t, 1) && BlockCode(h, x) == FromCode(h, x, |x| - MARGIN, 0, 1, t))
  {
    hide ParseFrom, Encode, TableSize;
  }
}
