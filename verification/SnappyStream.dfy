/** Snappy compression of a whole source into a sink, and the round trip. */
module SnappyStream {
  import opened Bytes
  import opened SnappyFormat
  import opened SnappyVarint
  import opened SnappySource
  import opened SnappyParse
  import opened SnappyCompress
  import opened SnappyReader
  import SnappyDecompress

  /** The reusable hash tables. */
  class WorkingMemory {
    const small: array<uint16>
    var large: array?<uint16>

    constructor ()
      ensures Valid() && fresh(small) && large == null
    {
      small := new uint16[0x400](_ => 0);
      large := null;
    }

    ghost predicate Valid()
      reads this
    {
      small.Length == 0x400 && (large != null ==> large.Length == MAX_TABLE)
    }

    ghost function Tables(): set<object>
      reads this
    {
      {small} + if large == null then {} else {large}
    }

    /** A cleared table whose size suits the input. */
    method GetHashTable(n: nat) returns (table: array<uint16>, size: nat)
      requires Valid()
      modifies this, Tables()
      ensures Valid() && table in Tables() && fresh(Tables() - old(Tables()))
      ensures size == TableSize(n) <= table.Length && forall k :: 0 <= k < size ==> table[k] == 0
    {
      size := 256;
      while size < MAX_TABLE && size < n
        invariant size in {0x100, 0x200, 0x400, 0x800, 0x1000, 0x2000, 0x4000}
        invariant TableSize(n, size) == TableSize(n)
        decreases MAX_TABLE - size
      {
        size := 2 * size;
      }
      if size <= small.Length {
        table := small;
      } else {
        if large == null {
          large := new uint16[MAX_TABLE];
        }
        table := large;
      }
      forall k | 0 <= k < size {
        table[k] := 0;
      }
    }
  }

  /**
   * A byte sink over a buffer. With `direct`, as UncheckedByteArraySink, it hands out its own next
   * bytes to be filled in; otherwise, as the default, it hands back the caller's scratch space.
   */
  class Sink {
    const buf: array<byte>
    const direct: bool
    var dest: nat

    constructor (buf: array<byte>, dest: nat, direct: bool)
      requires dest <= buf.Length
      ensures this.buf == buf && this.direct == direct && this.dest == dest
    {
      this.buf, this.direct, this.dest := buf, direct, dest;
    }

    method GetAppendBuffer(scratch: array<byte>) returns (a: array<byte>, at: nat)
      ensures (a, at) == if direct then (buf, dest) else (scratch, 0)
    {
      if direct {
        return buf, dest;
      }
      return scratch, 0;
    }

    /** Do no copying if the caller filled in the result of GetAppendBuffer. */
    method Append(a: array<byte>, at: nat, n: nat)
      requires at + n <= a.Length && dest + n <= buf.Length && (a == buf ==> at == dest)
      modifies this, buf
      ensures dest == old(dest) + n && buf[old(dest)..dest] == old(a[at..at + n])
      ensures forall k :: 0 <= k < buf.Length && !(old(dest) <= k < dest) ==> buf[k] == old(buf[k])
    {
      if a != buf {
        forall i | 0 <= i < n {
          buf[dest + i] := a[at + i];
        }
      }
      dest := dest + n;
    }
  }

  // ------------------------------------------------------------------------ blocks

  /** `memcpy` of a fragment behind what the scratch space holds already. */
  method Gather(scratch: array<byte>, at: nat, fragment: seq<byte>)
    requires at + |fragment| <= scratch.Length
    modifies scratch
    ensures scratch[..at + |fragment|] == old(scratch[..at]) + fragment
  {
    forall i | 0 <= i < |fragment| {
      scratch[at + i] := fragment[i];
    }
  }

  /**
   * The next block of `m` bytes: in place if the source holds it in one piece, and then still to be
   * skipped, or gathered in the scratch space.
   */
  method ReadBlock(reader: Source, m: nat, scratch0: array?<byte>)
    returns (block: seq<byte>, pending: nat, scratch: array?<byte>)
    requires reader.Valid() && 1 <= m <= |reader.Remaining()| && (scratch0 == null || scratch0.Length >= m)
    modifies reader, scratch0
    ensures reader.Valid() && block == old(reader.Remaining())[..m]
    ensures pending <= m && reader.Remaining() == old(reader.Remaining())[m - pending..]
    ensures scratch == scratch0 || (fresh(scratch) && scratch != null && scratch.Length == m)
  {
    hide Flatten, Source.Valid, Source.Remaining;
    ghost var x := reader.Remaining();
    scratch := scratch0;
    var fragment := reader.Peek();
    var bytesRead := |fragment|;
    if bytesRead >= m {
      return fragment[..m], m, scratch;
    }
    if scratch == null {
      scratch := new byte[m];
    }
    Gather(scratch, 0, fragment);
    reader.Skip(bytesRead);
    assert [] + fragment == x[..bytesRead];
    FillScratch(reader, scratch, m, bytesRead, x);
    return scratch[..m], 0, scratch;
  }

  /** The loop over the fragments that complete the block. */
  method FillScratch(reader: Source, scratch: array<byte>, m: nat, bytesRead0: nat, ghost x: seq<byte>)
    requires bytesRead0 <= m <= scratch.Length && m <= |x| && reader.Valid()
    requires reader.Remaining() == x[bytesRead0..] && scratch[..bytesRead0] == x[..bytesRead0]
    modifies reader, scratch
    ensures reader.Valid() && reader.Remaining() == x[m..] && scratch[..m] == x[..m]
  {
    hide Flatten, Source.Valid, Source.Remaining;
    var bytesRead := bytesRead0;
    while bytesRead < m
      invariant bytesRead <= m && reader.Valid() && reader.Remaining() == x[bytesRead..]
        && scratch[..bytesRead] == x[..bytesRead]
    {
      var fragment := reader.Peek();
      var n := if |fragment| < m - bytesRead then |fragment| else m - bytesRead;
      Gather(scratch, bytesRead, fragment[..n]);
      Joined(x, bytesRead, fragment, n);
      bytesRead := bytesRead + n;
      reader.Skip(n);
    }
  }

  lemma Joined(x: seq<byte>, k: nat, fragment: seq<byte>, n: nat)
    requires k <= |x| && fragment <= x[k..] && n <= |fragment|
    ensures x[..k] + fragment[..n] == x[..k + n] && x[k..][n..] == x[k + n..]
  {
  }

  /** One block, through a table and an output buffer of its own or of the sink. */
  method CompressBlock(h: Hash, machine: Machine, block: seq<byte>, wmem: WorkingMemory, scratch: array<byte>,
          sink: Sink)
    returns (n: nat)
    requires |block| <= BLOCK_SIZE && wmem.Valid() && sink.buf != scratch
    requires scratch.Length >= MaxCompressedLength(|block|) && sink.dest + |block| + |block| / 61 + 1 <= sink.buf.Length
    modifies wmem, wmem.Tables(), scratch, sink, sink.buf
    ensures wmem.Valid() && fresh(wmem.Tables() - old(wmem.Tables()))
    ensures n == |BlockCode(h, block)| <= |block| + |block| / 61 + 1
      && sink.dest == old(sink.dest) + n <= sink.buf.Length
    ensures sink.buf[old(sink.dest)..sink.dest] == BlockCode(h, block)
    ensures Framed(sink.buf, old(sink.dest), old(sink.dest) + |block| + |block| / 61 + 1)
  {
    BlockCodeLength(h, block);
    hide BlockCode, TableSize;
    var table, size := wmem.GetHashTable(|block|);
    var a, at := sink.GetAppendBuffer(scratch);
    var end := CompressFragment(h, machine, block, a, at, table, size);
    n := end - at;
    sink.Append(a, at, n);
  }

  lemma BlockCodeLength(h: Hash, block: seq<byte>)
    requires |block| <= BLOCK_SIZE
    ensures |BlockCode(h, block)| <= |block| + |block| / 61 + 1
  {
    hide ParseBlock, Encode;
    BlockCovers(h, block);
  }

  function NextSize(left: nat): (m: nat)
    ensures m <= left && m <= BLOCK_SIZE && (left > 0 ==> m > 0)
  {
    if left < BLOCK_SIZE then left else BLOCK_SIZE
  }

  /** One turn of the block loop. The scratch spaces are allocated for the first block, the largest. */
  method CompressNext(h: Hash, machine: Machine, reader: Source, left: nat, wmem: WorkingMemory,
                      scratch0: array?<byte>, scratchOutput0: array?<byte>, sink: Sink)
    returns (n: nat, scratch: array?<byte>, scratchOutput: array?<byte>)
    requires reader.Valid() && 0 < left == |reader.Remaining()| && wmem.Valid()
    requires scratch0 != null ==> scratch0.Length >= NextSize(left)
    requires scratchOutput0 != null ==> scratchOutput0 != sink.buf
                                        && scratchOutput0.Length >= MaxCompressedLength(NextSize(left))
    requires (var m := NextSize(left); sink.dest + m + m / 61 + 1 <= sink.buf.Length)
    requires scratch0 != null ==> scratch0 != sink.buf && scratch0 != scratchOutput0 && scratch0 !in wmem.Tables()
    modifies reader, wmem, wmem.Tables(), scratch0, scratchOutput0, sink, sink.buf
    ensures reader.Valid() && reader.Remaining() == old(reader.Remaining())[NextSize(left)..]
    ensures wmem.Valid() && fresh(wmem.Tables() - old(wmem.Tables()))
    ensures (scratch == scratch0 || (scratch != null && fresh(scratch))) && (scratch != null
      ==> scratch.Length >= NextSize(left))
    ensures scratchOutput != null && (scratchOutput == scratchOutput0 || fresh(scratchOutput))
    ensures scratchOutput.Length >= MaxCompressedLength(NextSize(left)) && scratchOutput != sink.buf
    ensures scratch != null ==> scratch != scratchOutput && scratch !in wmem.Tables()
    ensures (var m := NextSize(left);
             var block := old(reader.Remaining())[..m];
             && n == |BlockCode(h, block)| <= m + m / 61 + 1 && sink.dest == old(sink.dest) + n <= sink.buf.Length
             && sink.buf[old(sink.dest)..sink.dest] == BlockCode(h, block)
             && Framed(sink.buf, old(sink.dest), old(sink.dest) + m + m / 61 + 1))
  {
    hide Flatten, Source.Valid, Source.Remaining, BlockCode;
    var m := NextSize(left);
    var block, pending;
    block, pending, scratch := ReadBlock(reader, m, scratch0);
    scratchOutput := scratchOutput0;
    if scratchOutput == null {
      scratchOutput := new byte[MaxCompressedLength(m)];
    }
    n := CompressBlock(h, machine, block, wmem, scratchOutput, sink);
    reader.Skip(pending);
  }

  /** One turn of the block loop, as seen from the first block: `x` is the whole input, `start` where the body began. */
  method BlockTurn(h: Hash, machine: Machine, reader: Source, left: nat, wmem: WorkingMemory, scratch0: array?<byte>,
          scratchOutput0: array?<byte>, sink: Sink, written0: nat, ghost x: seq<byte>, ghost start: nat)
    returns (written: nat, scratch: array?<byte>, scratchOutput: array?<byte>)
    requires reader.Valid() && 0 < left <= |x| && reader.Remaining() == x[|x| - left..] && wmem.Valid()
    requires scratch0 != null ==> scratch0.Length >= NextSize(left)
    requires scratchOutput0 != null ==> scratchOutput0 != sink.buf
                                        && scratchOutput0.Length >= MaxCompressedLength(NextSize(left))
    requires scratch0 != null ==> scratch0 != sink.buf && scratch0 != scratchOutput0 && scratch0 !in wmem.Tables()
    requires (var done := |x| - left; written0 <= done + done / 6)
    requires sink.dest == start + written0 && start + |x| + |x| / 6 + 1 <= sink.buf.Length
    requires Begun(h, x, |x| - left, sink.buf[start..sink.dest])
    modifies reader, wmem, wmem.Tables(), scratch0, scratchOutput0, sink, sink.buf
    ensures (var m := NextSize(left);
             && reader.Valid() && reader.Remaining() == x[|x| - left + m..]
             && (var done := |x| - left + m; left > m ==> written <= done + done / 6)
             && sink.dest == start + written <= sink.buf.Length
             && Begun(h, x, |x| - left + m, sink.buf[start..sink.dest]))
    ensures wmem.Valid() && fresh(wmem.Tables() - old(wmem.Tables()))
    ensures scratch == scratch0 || (scratch != null && fresh(scratch))
    ensures scratchOutput != null && (scratchOutput == scratchOutput0 || fresh(scratchOutput))
    ensures scratchOutput.Length >= MaxCompressedLength(NextSize(left - NextSize(left)))
    ensures scratch != null ==> scratch.Length >= NextSize(left - NextSize(left)) && scratch != scratchOutput
                                && scratch !in wmem.Tables()
    ensures Framed(sink.buf, start, start + |x| + |x| / 6 + 1)
  {
    hide BlockCode, Flatten, Dropped, Source.Valid, Source.Remaining, MaxCompressedLength, NextSize, Begun;
    ghost var done := |x| - left;
    RoomLeft(|x|, done, written0);
    ghost var mid, was := sink.dest, sink.buf[..];
    var n;
    n, scratch, scratchOutput := CompressNext(h, machine, reader, left, wmem, scratch0, scratchOutput0, sink);
    BegunMore(h, x, done, was, sink.buf[..], start, mid, sink.dest);
    written := written0 + n;
  }

  /** The block loop: `n + n/6 + 1` bytes of room are enough for all its stores. */
  method CompressBlocks(h: Hash, machine: Machine, reader: Source, left0: nat, sink: Sink) returns (written: nat)
    requires reader.Valid() && left0 == |reader.Remaining()| && sink.dest + left0 + left0 / 6 + 1 <= sink.buf.Length
    modifies reader, sink, sink.buf
    ensures sink.dest == old(sink.dest) + written <= sink.buf.Length
    ensures sink.buf[old(sink.dest)..sink.dest] == Body(h, old(reader.Remaining()), 0)
    ensures Framed(sink.buf, old(sink.dest), old(sink.dest) + left0 + left0 / 6 + 1)
  {
    hide Body, Flatten, Source.Valid, Source.Remaining, MaxCompressedLength, NextSize, Begun;
    ghost var x := reader.Remaining();
    ghost var start := sink.dest;
    var left := left0;
    var wmem := new WorkingMemory();
    var scratch: array?<byte> := null;
    var scratchOutput: array?<byte> := null;
    written := 0;
    assert x[0..] == x && sink.buf[start..start] == [];
    NothingBegun(h, x);
    while left > 0
      invariant 0 <= left <= |x| && reader.Valid() && reader.Remaining() == x[|x| - left..]
      invariant wmem.Valid() && fresh(wmem) && fresh(wmem.Tables())
      invariant scratch != null ==> fresh(scratch) && scratch.Length >= NextSize(left) && scratch != scratchOutput
                                    && scratch !in wmem.Tables()
      invariant scratchOutput != null ==> fresh(scratchOutput)
                                          && scratchOutput.Length >= MaxCompressedLength(NextSize(left))
      invariant sink.dest == start + written <= sink.buf.Length && Begun(h, x, |x| - left, sink.buf[start..sink.dest])
      invariant left > 0 ==> (var done := |x| - left; written <= done + done / 6)
      invariant Framed(sink.buf, start, start + left0 + left0 / 6 + 1)
    {
      var m := NextSize(left);
      written, scratch, scratchOutput :=
        BlockTurn(h, machine, reader, left, wmem, scratch, scratchOutput, sink, written, x, start);
      left := left - m;
    }
    BodyEnds(h, x, sink.buf[start..sink.dest]);
  }

  /** `code` is the body of the first `done` bytes of `x`, which end a block. */
  ghost predicate Begun(h: Hash, x: seq<byte>, done: nat, code: seq<byte>) {
    done <= |x| && code + Body(h, x, done) == Body(h, x, 0)
  }

  lemma NothingBegun(h: Hash, x: seq<byte>)
    ensures Begun(h, x, 0, [])
  {
    hide Body;
    assert [] + Body(h, x, 0) == Body(h, x, 0);
  }

  /** A block more of the body, in the terms of the block loop. */
  lemma BegunMore(h: Hash, x: seq<byte>, p: nat, was: seq<byte>, now: seq<byte>, lo: nat, mid: nat, hi: nat)
    requires p < |x| && lo <= mid <= hi <= |now| == |was| && forall k :: lo <= k < mid ==> now[k] == was[k]
    requires Begun(h, x, p, was[lo..mid]) && now[mid..hi] == BlockCode(h, x[p..][..NextSize(|x| - p)])
    ensures (var m := NextSize(|x| - p); x[p..][m..] == x[p + m..] && Begun(h, x, p + m, now[lo..hi]))
  {
    hide BlockCode;
    var m := NextSize(|x| - p);
    SliceGrows(was, now, lo, mid, hi);
    assert x[p..][..m] == x[p..p + m];
    var b, rest := BlockCode(h, x[p..p + m]), Body(h, x, p + m);
    assert was[lo..mid] + b + rest == was[lo..mid] + (b + rest);
  }

  lemma SliceGrows(was: seq<byte>, now: seq<byte>, lo: nat, mid: nat, hi: nat)
    requires lo <= mid <= hi <= |now| == |was| && forall k :: lo <= k < mid ==> now[k] == was[k]
    ensures now[lo..hi] == was[lo..mid] + now[mid..hi]
  {
  }

  lemma BodyEnds(h: Hash, x: seq<byte>, code: seq<byte>)
    requires Begun(h, x, |x|, code)
    ensures code == Body(h, x, 0)
  {
    assert code + [] == code;
  }

  /**
   * Compress: whatever the fragments of the source, the hash and the machine, what is appended to the
   * sink is the compressed form of the bytes, and every store lies within MaxCompressedLength of where
   * the sink began.
   */
  method Compress(h: Hash, machine: Machine, reader: Source, sink: Sink) returns (written: nat)
    requires reader.Valid() && sink.dest + MaxCompressedLength(|reader.Remaining()|) <= sink.buf.Length
    modifies reader, sink, sink.buf
    ensures sink.dest == old(sink.dest) + written <= sink.buf.Length
    ensures sink.buf[old(sink.dest)..sink.dest] == Compressed(h, old(reader.Remaining()))
    ensures Framed(sink.buf, old(sink.dest), old(sink.dest) + MaxCompressedLength(|old(reader.Remaining())|))
  {
    hide Body, Encoded, Flatten, Source.Valid, Source.Remaining;
    ghost var start := sink.dest;
    var left: nat := reader.Available();
    var header := new byte[5];
    var p := Encode32(header, 0, left % 0x1_0000_0000);
    sink.Append(header, 0, p);
    ghost var mid, was := sink.dest, sink.buf[..];
    written := CompressBlocks(h, machine, reader, left, sink);
    written := p + written;
    SliceGrows(was, sink.buf[..], start, mid, sink.dest);
  }

  /** The bound leaves room for the next block, its overshoot included, and is kept by a whole block. */
  lemma RoomLeft(n: nat, done: nat, written: nat)
    requires done < n && written <= done + done / 6
    ensures (var m := NextSize(n - done);
             && written + m + m / 61 + 1 <= n + n / 6 + 1
             && (done + m < n ==> written + m + m / 61 + 1 <= (done + m) + (done + m) / 6)
             && NextSize(n - done - m) <= m && MaxCompressedLength(NextSize(n - done - m)) <= MaxCompressedLength(m))
  {
  }

  /** RawCompress: flat array to flat array. */
  method RawCompress(h: Hash, machine: Machine, input: seq<byte>, compressed: array<byte>, base: nat) returns (n: nat)
    requires base + MaxCompressedLength(|input|) <= compressed.Length
    modifies compressed
    ensures base + n <= compressed.Length && compressed[base..base + n] == Compressed(h, input)
    ensures Framed(compressed, base, base + MaxCompressedLength(|input|))
  {
    hide Compressed;
    var reader := new Source.Flat(input);
    var sink := new Sink(compressed, base, true);
    n := Compress(h, machine, reader, sink);
  }

  /**
   * Bytes compressed from any fragments, into either kind of sink, uncompress to themselves exactly when
   * both they and the blocks of their compressed form number fewer than 2^32; if only they do, Uncompress
   * never returns.
   */
  method CompressThenUncompress(h: Hash, machine: Machine, wide: bool, input: Source, direct: bool)
    returns (e: Ending<bool>, back: seq<byte>)
    requires input.Valid()
    modifies input
    ensures (var x := old(input.Remaining());
             var fits := |Body(h, x, 0)| < 0x1_0000_0000;
             && (e == Returns(true) && back == x <==> |x| < 0x1_0000_0000 && fits)
             && (|x| < 0x1_0000_0000 && !fits ==> e == Endless))
  {
    hide Compressed, Uncompressed, Prefix, Body;
    ghost var x := input.Remaining();
    var n := input.Available();
    var compressed := new byte[MaxCompressedLength(n)];
    var sink := new Sink(compressed, 0, direct);
    var size := Compress(h, machine, input, sink);
    e, back := SnappyDecompress.Uncompress(compressed[..size], wide);
    LengthRead(h, x);
    if |x| < 0x1_0000_0000 {
      RoundTrip(h, x);
    } else if e == Returns(true) {
      OutputShort(Compressed(h, x), back);
    }
  }

  lemma OutputShort(c: seq<byte>, out: seq<byte>)
    requires Uncompressed(c) == Succeeds(out)
    ensures |out| < 0x1_0000_0000
  {
  }

  lemma LengthRead(h: Hash, x: seq<byte>)
    ensures (var c := Compressed(h, x); var p := Prefix(c);
             p.Accepted? && |c| - p.used == |Body(h, x, 0)| && (p.used == 5 ==> c[4] < 16))
  {
    hide Body, Prefix, Encoded;
    EncodedReads(|x| % 0x1_0000_0000, Body(h, x, 0));
  }
}
