/** The two writers behind the Snappy decoder: one fills an array, one only counts. */
module SnappyWriters {
  import opened Bytes
  import opened Lz77

  // ------------------------------------------------------------- overshooting copies

  /** Eight bytes: in one load and store, or in two of four bytes. Only the first `dst - src` are sure. */
  method UnalignedCopy64(mem: array<byte>, src: nat, dst: nat, wide: bool)
    requires src < dst && dst + 8 <= mem.Length
    modifies mem
    ensures forall k :: dst <= k < dst + 8 && k - dst < dst - src ==> mem[k] == old(mem[k - (dst - src)])
    ensures forall k :: 0 <= k < mem.Length && !(dst <= k < dst + 8) ==> mem[k] == old(mem[k])
  {
    if wide {
      forall i | 0 <= i < 8 {
        mem[dst + i] := mem[src + i];
      }
    } else {
      forall i | 0 <= i < 4 {
        mem[dst + i] := mem[src + i];
      }
      assert forall k :: src + 4 <= k < src + 8 && k < dst ==> mem[k] == old(mem[k]);
      forall i | 0 <= i < 4 {
        mem[dst + 4 + i] := mem[src + 4 + i];
      }
    }
  }

  /** Byte `k` of the endless repetition of `pattern`. */
  function Cycle(pattern: seq<byte>, k: nat): byte
    requires pattern != []
  {
    if k < |pattern| then pattern[k] else Cycle(pattern, k - |pattern|)
  }

  /** `mem[src..end]` repeats `pattern`. */
  ghost predicate Cyclic(mem: array<byte>, src: nat, end: nat, pattern: seq<byte>)
    requires pattern != []
    reads mem
  {
    src <= end <= mem.Length && forall k :: src <= k < end ==> mem[k] == Cycle(pattern, k - src)
  }

  ghost predicate Multiple(d: nat, n: nat)
    requires n >= 1
  {
    d == 0 || (d >= n && Multiple(d - n, n))
  }

  lemma {:induction false} MultipleAdd(c: nat, d: nat, n: nat)
    requires n >= 1 && Multiple(c, n) && Multiple(d, n)
    ensures Multiple(c + d, n)
    decreases c
  {
    if c != 0 {
      MultipleAdd(c - n, d, n);
    }
  }

  lemma {:induction false} CycleShift(pattern: seq<byte>, k: nat, d: nat)
    requires pattern != [] && Multiple(d, |pattern|)
    ensures Cycle(pattern, k + d) == Cycle(pattern, k)
    decreases d
  {
    if d != 0 {
      CycleShift(pattern, k, d - |pattern|);
    }
  }

  /** Copying eight bytes from whole periods back continues the pattern. */
  method CopyCycle(mem: array<byte>, src0: nat, src: nat, op: nat, wide: bool, ghost pattern: seq<byte>)
    requires pattern != [] && src0 <= src < op && op + 8 <= mem.Length
    requires Cyclic(mem, src0, op, pattern) && Multiple(op - src, |pattern|)
    modifies mem
    ensures Cyclic(mem, src0, if op - src < 8 then op + (op - src) else op + 8, pattern)
    ensures forall k :: 0 <= k < mem.Length && !(op <= k < op + 8) ==> mem[k] == old(mem[k])
  {
    UnalignedCopy64(mem, src, op, wide);
    forall k | op <= k < op + 8 && k - op < op - src
      ensures mem[k] == Cycle(pattern, k - src0)
    {
      assert mem[k] == old(mem[k - (op - src)]);
      CycleShift(pattern, k - (op - src) - src0, op - src);
    }
  }

  /** Up to ten bytes behind the copy may be written, and no more. */
  const MAX_OVERFLOW := 10

  method IncrementalCopyFastPath(mem: array<byte>, src0: nat, op0: nat, len0: nat, wide: bool)
    requires src0 < op0 && 1 <= len0 && op0 + len0 + MAX_OVERFLOW <= mem.Length
    modifies mem
    ensures forall k :: 0 <= k < mem.Length && !(op0 <= k < op0 + len0 + MAX_OVERFLOW) ==> mem[k] == old(mem[k])
    ensures forall k :: op0 <= k < op0 + len0 ==> mem[k] == mem[k - (op0 - src0)]
  {
    ghost var pattern := mem[src0..op0];
    ghost var n := op0 - src0;
    var src, op, len: int := src0, op0, len0;
    while op - src < 8
      invariant src == src0 && op0 <= op && len == len0 - (op - op0) && Multiple(op - src, n)
      invariant op - src == n || op - src == 2 * n || op - src == 4 * n || op - src >= 8
      invariant Cyclic(mem, src0, op, pattern)
      invariant forall k :: 0 <= k < mem.Length && !(op0 <= k < op0 + len0 + MAX_OVERFLOW) ==> mem[k] == old(mem[k])
      decreases 16 - (op - src)
    {
      CopyCycle(mem, src0, src, op, wide, pattern);
      MultipleAdd(op - src, op - src, n);
      len := len - (op - src);
      op := op + (op - src);
    }
    while len > 0
      invariant src0 <= src && op0 <= op && len == len0 - (op - op0) && op - src >= 8 && Multiple(op - src, n)
      invariant Cyclic(mem, src0, op, pattern)
      invariant forall k :: 0 <= k < mem.Length && !(op0 <= k < op0 + len0 + MAX_OVERFLOW) ==> mem[k] == old(mem[k])
    {
      CopyCycle(mem, src0, src, op, wide, pattern);
      src, op, len := src + 8, op + 8, len - 8;
    }
    forall k | op0 <= k < op0 + len0 ensures mem[k] == mem[k - n] {
      CycleShift(pattern, k - op0, n);
      assert mem[k - n] == Cycle(pattern, k - n - src0);
    }
  }

  /** Byte by byte. */
  method IncrementalCopy(mem: array<byte>, src: nat, op: nat, len: nat)
    requires src < op && 1 <= len && op + len <= mem.Length
    modifies mem
    ensures forall k :: 0 <= k < mem.Length && !(op <= k < op + len) ==> mem[k] == old(mem[k])
    ensures forall k :: op <= k < op + len ==> mem[k] == mem[k - (op - src)]
  {
    var i := 0;
    while i < len
      invariant 0 <= i <= len
      invariant forall k :: 0 <= k < mem.Length && !(op <= k < op + i) ==> mem[k] == old(mem[k])
      invariant forall k :: op <= k < op + i ==> mem[k] == mem[k - (op - src)]
    {
      mem[op + i] := mem[src + i];
      i := i + 1;
    }
  }

  // ------------------------------------------------------------------- the writers

  /** SnappyArrayWriter: fills `mem` from `base`, never at or past `limit`. */
  class ArrayWriter {
    const mem: array<byte>
    const base: nat
    const wide: bool
    var op: nat
    var limit: nat

    constructor (mem: array<byte>, base: nat, wide: bool)
      requires base <= mem.Length
      ensures this.mem == mem && this.base == base && op == base && limit == base
      ensures Valid() && Out() == []
    {
      this.mem, this.base, this.wide, op, limit := mem, base, wide, base, base;
    }

    ghost predicate Valid()
      reads this
    {
      base <= op <= limit <= mem.Length
    }

    /** What has been written. */
    ghost function Out(): seq<byte>
      requires Valid()
      reads this, mem
    {
      mem[base..op]
    }

    /** The expected length. */
    ghost function Room(): nat
      requires Valid()
      reads this
    {
      limit - base
    }

    /** Nothing outside the expected area has changed. */
    twostate predicate Framed()
      reads this, mem
    {
      limit == old(limit) && forall k :: 0 <= k < mem.Length && !(base <= k < limit) ==> mem[k] == old(mem[k])
    }

    method SetExpectedLength(len: nat)
      requires Valid() && op == base && base + len <= mem.Length
      modifies this
      ensures Valid() && op == base && limit == base + len
    {
      limit := op + len;
    }

    method CheckLength() returns (b: bool)
      requires Valid()
      ensures b <==> |Out()| == Room()
    {
      b := op == limit;
    }

    method Append(b: seq<byte>) returns (ok: bool)
      requires Valid()
      modifies this, mem
      ensures ok <==> |old(Out())| + |b| <= old(Room())
      ensures Framed() && (ok ==> Valid() && Out() == old(Out()) + b)
    {
      if limit - op < |b| {
        return false;
      }
      ghost var before := Out();
      forall i | 0 <= i < |b| {
        mem[op + i] := b[i];
      }
      op := op + |b|;
      assert mem[base..op] == before + b;
      return true;
    }

    /** Sixteen bytes at once, when the input and the output both have them. */
    method TryFastAppend(buf: seq<byte>, ip: nat, len: nat) returns (ok: bool)
      requires Valid() && ip <= |buf|
      modifies this, mem
      ensures Valid() && Framed()
      ensures ok <==> len <= 16 && |buf| - ip >= 16 && old(Room()) - |old(Out())| >= 16
      ensures ok ==> Out() == old(Out()) + buf[ip..ip + len]
      ensures !ok ==> unchanged(this, mem)
    {
      if len <= 16 && |buf| - ip >= 16 && limit - op >= 16 {
        ghost var before := Out();
        forall i | 0 <= i < 16 {
          mem[op + i] := buf[ip + i];
        }
        op := op + len;
        assert mem[base..op] == before + buf[ip..ip + len];
        return true;
      }
      return false;
    }

    /** Copy from what has been written; the fast ways write past the copy, but not past the limit. */
    method AppendFromSelf(off: nat, len: nat) returns (ok: bool)
      requires Valid() && 1 <= len
      modifies this, mem
      ensures ok <==> 1 <= off <= |old(Out())| && |old(Out())| + len <= old(Room())
      ensures Framed() && (ok ==> Valid() && Out() == CopyBack(old(Out()), off, len))
    {
      if off == 0 || op - base <= off - 1 {
        return false;
      }
      hide CopyBack;
      ghost var before := Out();
      ok := CopyWithin(mem, op, limit, off, len, wide);
      if !ok {
        return false;
      }
      CopiedBack(mem, base, op, off, len, before);
      op := op + len;
      return true;
    }
  }

  /** The three ways to copy, by how much room is left; the slowest alone never stores past the copy. */
  method CopyWithin(mem: array<byte>, op: nat, limit: nat, off: nat, len: nat, wide: bool) returns (ok: bool)
    requires 1 <= off <= op <= limit <= mem.Length && 1 <= len
    modifies mem
    ensures ok <==> op + len <= limit
    ensures forall k :: 0 <= k < mem.Length && !(op <= k < limit) ==> mem[k] == old(mem[k])
    ensures ok ==> forall k :: op <= k < op + len ==> mem[k] == mem[k - off]
  {
    var left := limit - op;
    if len <= 16 && off >= 8 && left >= 16 {
      UnalignedCopy64(mem, op - off, op, wide);
      UnalignedCopy64(mem, op - off + 8, op + 8, wide);
    } else if left >= len + MAX_OVERFLOW {
      IncrementalCopyFastPath(mem, op - off, op, len, wide);
    } else {
      if left < len {
        return false;
      }
      IncrementalCopy(mem, op - off, op, len);
    }
    return true;
  }

  lemma CopiedBack(mem: array<byte>, base: nat, op: nat, off: nat, len: nat, before: seq<byte>)
    requires base <= op && op + len <= mem.Length && |before| == op - base && 1 <= off <= |before|
    requires forall k :: base <= k < op ==> mem[k] == before[k - base]
    requires forall k :: op <= k < op + len ==> mem[k] == mem[k - off]
    ensures mem[base..op + len] == CopyBack(before, off, len)
  {
    var now := mem[base..op + len];
    assert now[..|before|] == before;
    forall k | |before| <= k < |before| + len ensures now[k] == now[k - off] {
      assert now[k] == mem[base + k] && now[k - off] == mem[base + k - off];
    }
    CopyBackRepeats(now, |before|, off, len);
    assert now[..|before| + len] == now;
  }

  /** SnappyDecompressionValidator: keeps only how much has been produced. */
  class Validator {
    var expected: nat
    var produced: nat
    /** The bytes that an array writer would hold. */
    ghost var shadow: seq<byte>

    constructor ()
      ensures Valid() && Out() == [] && produced == 0
    {
      expected, produced, shadow := 0, 0, [];
    }

    ghost predicate Valid()
      reads this
    {
      produced == |shadow| && produced <= expected
    }

    ghost function Out(): seq<byte>
      reads this
    {
      shadow
    }

    method SetExpectedLength(len: nat)
      requires Valid() && produced == 0
      modifies this
      ensures Valid() && expected == len && Out() == old(Out())
    {
      expected := len;
    }

    method CheckLength() returns (b: bool)
      requires Valid()
      ensures b <==> |Out()| == expected
    {
      b := expected == produced;
    }

    method Append(b: seq<byte>) returns (ok: bool)
      requires Valid()
      modifies this
      ensures expected == old(expected) && (ok <==> |old(Out())| + |b| <= expected)
      ensures ok ==> Valid() && Out() == old(Out()) + b
    {
      produced := produced + |b|;
      shadow := shadow + b;
      ok := produced <= expected;
    }

    method AppendFromSelf(off: nat, len: nat) returns (ok: bool)
      requires Valid()
      modifies this
      ensures expected == old(expected)
      ensures ok <==> 1 <= off <= |old(Out())| && |old(Out())| + len <= expected
      ensures ok ==> Valid() && Out() == CopyBack(old(Out()), off, len)
    {
      if off == 0 || produced <= off - 1 {
        return false;
      }
      produced := produced + len;
      shadow := CopyBack(shadow, off, len);
      ok := produced <= expected;
    }
  }

  /** The decoder's template argument. */
  datatype Writer = ToArray(a: ArrayWriter) | Counting(v: Validator)
  {
    ghost function Repr(): set<object> {
      match this
      case ToArray(a) => {a, a.mem}
      case Counting(v) => {v}
    }

    ghost predicate Valid()
      reads Repr()
    {
      match this
      case ToArray(a) => a.Valid()
      case Counting(v) => v.Valid()
    }

    ghost function Out(): (s: seq<byte>)
      requires Valid()
      reads Repr()
      ensures |s| <= Room()
    {
      match this
      case ToArray(a) => a.Out()
      case Counting(v) => v.Out()
    }

    ghost function Room(): nat
      requires Valid()
      reads Repr()
    {
      match this
      case ToArray(a) => a.Room()
      case Counting(v) => v.expected
    }

    /** Outside the expected output nothing changes. */
    twostate predicate Framed()
      reads Repr()
    {
      match this
      case ToArray(a) => a.Framed()
      case Counting(v) => v.expected == old(v.expected)
    }

    method Append(b: seq<byte>) returns (ok: bool)
      requires Valid()
      modifies Repr()
      ensures ok <==> |old(Out())| + |b| <= old(Room())
      ensures Framed() && (ok ==> Valid() && Room() == old(Room()) && Out() == old(Out()) + b)
    {
      match this
      case ToArray(a) => ok := a.Append(b);
      case Counting(v) => ok := v.Append(b);
    }

    method TryFastAppend(buf: seq<byte>, ip: nat, len: nat) returns (ok: bool)
      requires Valid() && ip <= |buf|
      modifies Repr()
      ensures Valid() && Framed() && Room() == old(Room())
      ensures ok <==> ToArray? && len <= 16 && |buf| - ip >= 16 && old(Room()) - |old(Out())| >= 16
      ensures ok ==> Out() == old(Out()) + buf[ip..ip + len]
      ensures !ok ==> unchanged(Repr())
    {
      match this
      case ToArray(a) => ok := a.TryFastAppend(buf, ip, len);
      case Counting(v) => ok := false;
    }

    method AppendFromSelf(off: nat, len: nat) returns (ok: bool)
      requires Valid() && 1 <= len
      modifies Repr()
      ensures ok <==> 1 <= off <= |old(Out())| && |old(Out())| + len <= old(Room())
      ensures Framed() && (ok ==> Valid() && Room() == old(Room()) && Out() == CopyBack(old(Out()), off, len))
    {
      match this
      case ToArray(a) => ok := a.AppendFromSelf(off, len);
      case Counting(v) => ok := v.AppendFromSelf(off, len);
    }

    method CheckLength() returns (b: bool)
      requires Valid()
      ensures b <==> |Out()| == Room()
    {
      match this
      case ToArray(a) => b := a.CheckLength();
      case Counting(v) => b := v.CheckLength();
    }
  }
}
