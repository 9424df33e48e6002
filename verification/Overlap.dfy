/** overlap.c: compressing and decompressing within one buffer. */
module Overlap {
  import opened Bytes
  import opened Lzo1xDecoder
  import opened Lzo1xRoundTrip
  import opened Lzo1xParse
  import opened Lzo1xCompress
  import opened Lzo1xDecompress

  /** What do_file reports: which step gave up, if any. */
  datatype Report =
    | Skipped
    | CompressionFailed
    | OverlapCompressionError
    | OverlapDecompressionFailed
    | OverlapDecompressionError
    | Verified(outLen: nat, newLen: nat)

  /** The build, with the dictionary that a call finds; a clearing build does not look at it. */
  function WithDict(tu: Tuning, d: Dict): (t: Tuning)
    ensures tu.deterministic ==> t == tu
    ensures t.deterministic == tu.deterministic && (!tu.deterministic ==> t.initial == d)
    ensures tu.Legal() && |d| == DICT_SIZE ==> t.Legal()
  {
    if tu.deterministic then tu else tu.(initial := d)
  }

  /** What a call decodes when its input region holds `c`. */
  function Reading(j: Job, c: seq<byte>): Env {
    Lzo1xDecoder.Env(j.checks, c, j.past, j.cap, j.word, j.unit == 8)
  }

  /** A decoding that must succeed, in any two regions that the round trip allows. */
  lemma Decodes(tu: Tuning, x: seq<byte>, j: Job)
    requires tu.Legal() && j.cap == |x| < j.word && |Compressed(tu, x)| < j.word
    requires j.Disjoint() || |x| + |x| / 16 + 6 <= j.Distance() + |Compressed(tu, x)|
    ensures (var e := Reading(j, Compressed(tu, x)); Sound(j, e) && Decode(e) == Done(Ok, x))
  {
    hide Begin, Finish, Compressed;
    CompressedLength(tu, x);
    var d := if j.Disjoint() then |x| + |x| / 16 + 6 else j.Distance();
    RoundTrip(tu, x, j.checks, j.past, j.cap, j.word, j.unit == 8, d);
    var e := Reading(j, Compressed(tu, x));
    assert Decode(e) == Finish(e, Begin(e));
  }

  /** With `overhead` spare bytes the call can decode `c` from the top of the buffer to its bottom. */
  ghost predicate InPlace(j: Job, c: seq<byte>, overhead: nat) {
    |c| <= j.cap + overhead && Clear(Reading(j, c), j.cap + overhead - |c|, Begin(Reading(j, c)))
  }

  /** A sixteenth of the output and six bytes are enough. */
  lemma EnoughOverhead(tu: Tuning, x: seq<byte>, j: Job, overhead: nat)
    requires tu.Legal() && j.cap == |x| < j.word && |Compressed(tu, x)| < j.word
    requires overhead >= |x| / 16 + 6
    ensures InPlace(j, Compressed(tu, x), overhead)
  {
    hide Begin, Finish, Compressed;
    CompressedLength(tu, x);
    RoundTrip(tu, x, j.checks, j.past, j.cap, j.word, j.unit == 8, |x| + overhead - |Compressed(tu, x)|);
  }

  /** With regions that keep the run clear the call is sound. */
  lemma ClearSound(tu: Tuning, x: seq<byte>, j: Job)
    requires tu.Legal() && j.cap == |x| < j.word && |Compressed(tu, x)| < j.word
    requires Clear(Reading(j, Compressed(tu, x)), j.Distance(), Begin(Reading(j, Compressed(tu, x))))
    ensures (var e := Reading(j, Compressed(tu, x)); Sound(j, e) && Decode(e) == Done(Ok, x))
  {
    hide Begin, Finish, Compressed;
    CompressedLength(tu, x);
    RoundTrip(tu, x, j.checks, j.past, j.cap, j.word, j.unit == 8, |x| + |x| / 16 + 6);
    var e := Reading(j, Compressed(tu, x));
    assert Decode(e) == Finish(e, Begin(e));
  }

  /** lzo_memcpy into a buffer. */
  method Place(mem: array<byte>, at: nat, s: seq<byte>)
    requires at + |s| <= mem.Length
    modifies mem
    ensures mem[at..at + |s|] == s
  {
    forall i | 0 <= i < |s| {
      mem[at + i] := s[i];
    }
  }

  /** Compress `x` from one region of a fresh buffer of `size` bytes to another. */
  method CompressIn(x: array<byte>, size: nat, a: Area, tu: Tuning, dict: array<int>) returns (c: seq<byte>)
    requires tu.Legal() && a.n == x.Length && a.Fits(size) && dict.Length == DICT_SIZE
    requires !tu.deterministic ==> dict[..] == tu.initial
    modifies dict
    ensures c == Compressed(tu, x[..])
  {
    hide Compressed;
    var mem := new byte[size];
    Place(mem, a.src, x[..]);
    var outLen := Compress(mem, dict, a, tu);
    c := mem[a.out..a.out + outLen];
  }

  /** Decompress `c` from one region of a fresh buffer of `size` bytes to another. */
  method DecompressIn(c: seq<byte>, size: nat, j: Job) returns (status: Status, s: seq<byte>)
    requires j.inp + j.len <= size && j.outp + j.cap <= size && j.len == |c| < j.word && j.cap < j.word - 1
    requires j.unit == 1 || j.unit == 4 || j.unit == 8
    requires Sound(j, Reading(j, c))
    ensures Decode(Reading(j, c)) == Done(status, s)
  {
    hide Decode, Sound;
    var mem := new byte[size];
    Place(mem, j.inp, c);
    assert j.Env(mem) == Reading(j, c);
    var newLen;
    status, newLen := Decompress(mem, j);
    s := mem[j.outp..j.outp + newLen];
  }

  /** Steps 4d and 5c: what the compressor made of `x` comes back from a fresh buffer. */
  method Verify(ghost tu: Tuning, x: array<byte>, c: seq<byte>, size: nat, j: Job)
    returns (status: Status, newLen: nat, same: bool)
    requires tu.Legal() && c == Compressed(tu, x[..]) && j.cap == x.Length < j.word - 1 && j.len == |c| < j.word
    requires j.inp + j.len <= size && j.outp + j.cap <= size && (j.unit == 1 || j.unit == 4 || j.unit == 8)
    requires j.Disjoint() || Clear(Reading(j, c), j.Distance(), Begin(Reading(j, c)))
    ensures status == Ok && newLen == x.Length && same
  {
    hide Compressed, Decode, Sound, Clear, Begin;
    if j.Disjoint() {
      Decodes(tu, x[..], j);
    } else {
      ClearSound(tu, x[..], j);
    }
    var s;
    status, s := DecompressIn(c, size, j);
    newLen, same := |s|, s == x[..];
  }

  /** The decompression of step 5, before it is decided where the input starts. */
  function InPlaceJob(c: seq<byte>, n: nat, unit: nat, word: Word, past: nat -> byte, inp: nat): Job {
    Job(false, word, unit, past, inp, |c|, 0, n)
  }

  /** Step 5: the compressed data at the top, the output at the bottom. */
  method DecompressInPlace(ghost tu: Tuning, x: array<byte>, c: seq<byte>, overhead: nat, unit: nat, word: Word,
          past: nat -> byte)
    returns (status: Status, newLen: nat, same: bool)
    requires tu.Legal() && c == Compressed(tu, x[..]) && x.Length < word - 1 && |c| < word
    requires unit == 1 || unit == 4 || unit == 8
    requires InPlace(InPlaceJob(c, x.Length, unit, word, past, 0), c, overhead)
    ensures status == Ok && newLen == x.Length && same
  {
    hide Compressed, Clear, Begin;
    var offset := x.Length + overhead - |c|;
    status, newLen, same := Verify(tu, x, c, x.Length + overhead, InPlaceJob(c, x.Length, unit, word, past, offset));
  }

  /**
   * do_file on the contents of `x`, whose buffers have sizes that are words. Compressing within the overlap
   * buffer and decompressing within the second one always verify, as long as an overhead that the user asks
   * for keeps the decoder clear of its input when it matters; a deterministic build gives the same bytes in
   * both compressions.
   */
  method DoFile(x: array<byte>, tu: Tuning, dict: array<int>, optOverhead: nat, unit: nat, word: Word,
          past: nat -> byte)
    returns (r: Report, separate: seq<byte>, overlapped: seq<byte>, ghost t1: Tuning, ghost t2: Tuning)
    requires tu.Legal() && dict.Length == DICT_SIZE && (unit == 1 || unit == 4 || unit == 8)
    requires x.Length + x.Length / 16 + 64 + 3 < word
    requires (var c := Compressed(WithDict(tu, dict[..]), x[..]);
              optOverhead != 0 && |c| < x.Length ==>
                InPlace(InPlaceJob(c, x.Length, unit, word, past, 0), c, optOverhead))
    modifies dict
    ensures if x.Length == 0 then r == Skipped else r == Verified(|separate|, x.Length)
    ensures t1.Legal() && t2.Legal() && (tu.deterministic ==> t1 == t2 == tu)
    ensures r.Verified? ==> separate == Compressed(t1, x[..]) && overlapped == Compressed(t2, x[..])
    ensures |separate| <= x.Length + x.Length / 16 + 4
  {
    hide Compressed, WithDict, InPlace;
    var n := x.Length;
    separate, overlapped, t1, t2 := [], [], tu, tu;
    if n == 0 {
      r := Skipped;
      return;
    }

    // Step 3: from one buffer to another.
    var room := n + n / 16 + 64 + 3;
    var build := WithDict(tu, dict[..]);
    t1 := build;
    separate := CompressIn(x, n + room, Area(0, n, n), build, dict);
    CompressedLength(t1, x[..]);
    if |separate| > room {
      r := CompressionFailed;
      return;
    }

    // Step 4: one buffer, the input at its top.
    var overhead := (if n > 0xbfff then 0xbfff else n) + n / 16 + 64 + 3;
    build := WithDict(tu, dict[..]);
    t2 := build;
    overlapped := CompressIn(x, n + overhead, Area(overhead, n, 0), build, dict);
    if overlapped != separate {
      var l := |overlapped|;
      CompressedLength(t2, x[..]);
      var status, newLen, same := Verify(t2, x, overlapped, l + n, Job(true, word, unit, past, 0, l, l, n));
      if status != Ok || newLen != n || !same {
        r := OverlapCompressionError;
        return;
      }
    }

    // Step 5: the compressed data at the top, the output at the bottom.
    overhead := if optOverhead == 0 || |separate| >= n then n / 16 + 64 + 3 else optOverhead;
    if optOverhead == 0 || |separate| >= n {
      EnoughOverhead(t1, x[..], InPlaceJob(separate, n, unit, word, past, 0), overhead);
    }
    var status, newLen, same := DecompressInPlace(t1, x, separate, overhead, unit, word, past);
    if status != Ok {
      r := OverlapDecompressionFailed;
    } else if !same {
      r := OverlapDecompressionError;
    } else {
      r := Verified(|separate|, newLen);
    }
  }
}
