/**
 * The resumable Snappy decoder as a function of the source's regions. Its counts of peeked, buffered
 * and copied bytes have 32 bits, a region may have more: then bytes are read twice, or the loop that
 * stitches a tag together never ends.
 */
module SnappyReader {
  import opened Bytes
  import opened Lz77
  import opened SnappyFormat
  import opened SnappySource
  import opened SnappyVarint

  /** What a whole compressed buffer stands for. */
  function Uncompressed(c: seq<byte>): Result {
    match Prefix(c)
    case Rejected => Fails
    case Accepted(n, used) =>
      match Replay(c[used..], [], n)
      case Fails => Fails
      case Succeeds(out) => if |out| == n then Succeeds(out) else Fails
  }

  /** How many bytes the tag that starts with `c` occupies, without its literal. */
  function Needed(c: byte): (n: nat)
    ensures 1 <= n <= 5
  {
    TagEntry(c).extra + 1
  }

  /** A tag that is complete reads the same whatever follows. */
  lemma TagComplete(s: seq<byte>, more: seq<byte>)
    requires s != [] && |s| >= Needed(s[0])
    ensures ReadTag(s + more) == ReadTag(s) && ReadTag(s) != Truncated && ReadTag(s) != NoMore
  {
    var e := TagEntry(s[0]);
    assert (s + more)[1..1 + e.extra] == s[1..1 + e.extra];
  }

  /** A run that may never end. */
  datatype Ending<T> = Returns(value: T) | Endless

  // --------------------------------------------------------------------- the reader

  /** The bytes between ip_ and ip_limit_, how many are to be skipped for them, and the source. */
  datatype Reader = Reader(buf: seq<byte>, peeked: nat, frags: seq<seq<byte>>)
  {
    /** What was peeked at is the source's next region, but its length is kept modulo 2^32. */
    ghost predicate Valid() {
      && Filled(frags)
      && (peeked > 0 ==> frags != [] && peeked == |frags[0]| % MODULUS)
      && peeked <= |Flatten(frags)|
    }

    /** The whole of a region is buffered. */
    ghost predicate AtRegion() {
      frags != [] && buf == frags[0] && peeked == |buf| % MODULUS
    }

    /** What the source holds behind what was peeked at. */
    ghost function Behind(): seq<byte>
      requires Valid()
    {
      Flatten(frags)[peeked..]
    }

    /** What is still to be decoded, as long as no region is too long. */
    ghost function Unread(): seq<byte>
      requires Valid()
    {
      buf + Behind()
    }
  }

  /** Skip what was peeked at. */
  function Skipped(r: Reader): (frags: seq<seq<byte>>)
    requires r.Valid()
    ensures Filled(frags) && Flatten(frags) == r.Behind()
  {
    DroppedFlatten(r.frags, r.peeked);
    Dropped(r.frags, r.peeked)
  }

  /** Take the next region, if there is one. */
  function Fetched(r: Reader): (q: Reader)
    requires r.Valid()
    ensures q.Valid() && (if q.buf == [] then q == Reader([], 0, []) else q.AtRegion()) && |q.Behind()| <= |r.Behind()|
    ensures q.buf != [] && |q.buf| % MODULUS != 0 ==> |q.Behind()| < |r.Behind()|
  {
    var f := Skipped(r);
    if f == [] then Reader([], 0, []) else Reader(f[0], |f[0]| % MODULUS, f)
  }

  // ---------------------------------------------------------------- stitching a tag

  /** The scratch area while a tag is collected from several regions. */
  datatype Stitching = Stitching(scratch: seq<byte>, frags: seq<seq<byte>>)

  /** The loop takes another turn. */
  predicate Turning(s: Stitching, needed: nat) {
    |s.scratch| < needed && s.frags != []
  }

  /** to_add: the smaller of what is missing and the region's length, after both have become 32 bits wide. */
  function ToAdd(s: Stitching, needed: nat): (n: nat)
    requires Turning(s, needed)
    ensures n <= needed - |s.scratch| && n <= |s.frags[0]| <= |Flatten(s.frags)|
  {
    var length := |s.frags[0]| % MODULUS;
    if needed - |s.scratch| < length then needed - |s.scratch| else length
  }

  /** One turn of the loop. */
  function StitchTurn(s: Stitching, needed: nat): (t: Stitching)
    requires Filled(s.frags) && Turning(s, needed)
    ensures Filled(t.frags) && |t.scratch| == |s.scratch| + ToAdd(s, needed) <= needed
    ensures t.scratch + Flatten(t.frags) == s.scratch + Flatten(s.frags)
  {
    var n := ToAdd(s, needed);
    DroppedFlatten(s.frags, n);
    assert Flatten(s.frags) == s.frags[0][..n] + Flatten(s.frags)[n..];
    Stitching(s.scratch + s.frags[0][..n], Dropped(s.frags, n))
  }

  /** The loop after `k` turns, or as many as there are. */
  function StitchTurns(s: Stitching, needed: nat, k: nat): (t: Stitching)
    requires Filled(s.frags)
    ensures Filled(t.frags)
    decreases k
  {
    if k == 0 || !Turning(s, needed) then s else StitchTurns(StitchTurn(s, needed), needed, k - 1)
  }

  datatype Stitched = Full(s: Stitching) | OutOfInput | Stuck

  /** How the loop ends. A turn that adds nothing is taken again and again. */
  function Stitch(s: Stitching, needed: nat): (e: Stitched)
    requires Filled(s.frags)
    ensures e.Full? ==> Filled(e.s.frags) && |e.s.scratch| >= needed && s.scratch <= e.s.scratch
                        && e.s.scratch + Flatten(e.s.frags) == s.scratch + Flatten(s.frags)
    decreases needed - |s.scratch|
  {
    if |s.scratch| >= needed then Full(s)
    else if s.frags == [] then OutOfInput
    else if ToAdd(s, needed) == 0 then Stuck
    else Stitch(StitchTurn(s, needed), needed)
  }

  /** After any number of turns there is another one. */
  ghost predicate ForEver(s: Stitching, needed: nat)
    requires Filled(s.frags)
  {
    forall k: nat :: Turning(StitchTurns(s, needed, k), needed)
  }

  /** Stuck means exactly that there is always another turn. */
  lemma {:induction false} StuckForEver(s: Stitching, needed: nat)
    requires Filled(s.frags)
    ensures Stitch(s, needed) == Stuck <==> ForEver(s, needed)
    decreases needed - |s.scratch|
  {
    if !Turning(s, needed) {
      assert !Turning(StitchTurns(s, needed, 0), needed);
    } else {
      hide StitchTurn, Turning;
      var t := StitchTurn(s, needed);
      if ToAdd(s, needed) == 0 {
        NothingAdded(s, needed);
        forall k: nat ensures Turning(StitchTurns(s, needed, k), needed) {
          StandsStill(s, needed, k);
        }
      } else {
        StuckForEver(t, needed);
        TurnsShift(s, needed);
        assert Stitch(s, needed) == Stitch(t, needed);
      }
    }
  }

  lemma NothingAdded(s: Stitching, needed: nat)
    requires Filled(s.frags) && Turning(s, needed) && ToAdd(s, needed) == 0
    ensures StitchTurn(s, needed) == s
  {
  }

  lemma TurnsShift(s: Stitching, needed: nat)
    requires Filled(s.frags) && Turning(s, needed)
    ensures ForEver(s, needed) <==> ForEver(StitchTurn(s, needed), needed)
  {
    hide StitchTurn, Turning;
    var t := StitchTurn(s, needed);
    if ForEver(s, needed) {
      forall k: nat ensures Turning(StitchTurns(t, needed, k), needed) {
        assert Turning(StitchTurns(s, needed, k + 1), needed);
      }
    }
    if ForEver(t, needed) {
      forall k: nat ensures Turning(StitchTurns(s, needed, k), needed) {
        if k > 0 {
          assert Turning(StitchTurns(t, needed, k - 1), needed);
          assert StitchTurns(s, needed, k) == StitchTurns(t, needed, k - 1);
        } else {
          assert StitchTurns(s, needed, k) == s;
        }
      }
    }
  }

  lemma {:induction false} StandsStill(s: Stitching, needed: nat, k: nat)
    requires Filled(s.frags) && Turning(s, needed) && StitchTurn(s, needed) == s
    ensures StitchTurns(s, needed, k) == s
    decreases k
  {
    if k > 0 {
      StandsStill(s, needed, k - 1);
    }
  }

  /** A region of a multiple of 2^32 bytes adds nothing, so that the loop never ends. */
  lemma WholeMultiple(s: Stitching, needed: nat)
    requires Filled(s.frags) && Turning(s, needed) && |s.frags[0]| % MODULUS == 0
    ensures ForEver(s, needed)
  {
    StuckForEver(s, needed);
  }

  /** The shortest such region. */
  lemma RegionOf4GiB(needed: nat)
    requires needed > 0
    ensures (var s := Stitching([], [Zeros(MODULUS)]);
             Filled(s.frags) && ForEver(s, needed))
  {
    WholeMultiple(Stitching([], [Zeros(MODULUS)]), needed);
  }

  // --------------------------------------------------------------------- decoding

  datatype Refilled = Ready(r: Reader) | AtEnd | Cut | Hangs

  /** MAYBE_REFILL with RefillTag: make the next tag complete, or find the end of the input. */
  function Refill(r: Reader): (e: Refilled)
    requires r.Valid()
    ensures e.Ready? ==> e.r.Valid() && e.r.buf != [] && |e.r.buf| >= Needed(e.r.buf[0])
    ensures e.Ready? ==> |e.r.Behind()| < |r.Behind()| || (|e.r.Behind()| == |r.Behind()| && |e.r.buf| <= |r.buf|)
  {
    if |r.buf| >= 5 then Ready(r)
    else
      var q := if r.buf == [] then Fetched(r) else r;
      if q.buf == [] then AtEnd else InTag(q)
  }

  /** The rest of RefillTag, at a tag: short buffers go through the scratch area. */
  function InTag(q: Reader): (e: Refilled)
    requires q.Valid() && q.buf != [] && (|q.buf| < 5 || q.AtRegion())
    ensures e != AtEnd
    ensures e.Ready? ==> e.r.Valid() && e.r.buf != [] && |e.r.buf| >= Needed(e.r.buf[0])
    ensures e.Ready? ==> |e.r.Behind()| < |q.Behind()| || (|e.r.Behind()| == |q.Behind()| && |e.r.buf| <= |q.buf|)
    ensures e.Ready? && |q.buf| % MODULUS == 0 ==> |e.r.Behind()| < |q.Behind()|
  {
    var needed, nbuf := Needed(q.buf[0]), |q.buf| % MODULUS;
    if nbuf < needed then IntoScratch(q, nbuf, needed)
    else if nbuf < 5 then Ready(Reader(q.buf[..nbuf], 0, Skipped(q)))
    else Ready(q)
  }

  /** A multiple of 2^32 bytes seems to be none, and then nothing is added: the first byte is not lost. */
  lemma FromFirst(q: Reader, nbuf: nat, needed: nat, s: Stitching)
    requires q.Valid() && q.buf != [] && (|q.buf| < 5 || q.AtRegion())
    requires needed > nbuf == |q.buf| % MODULUS
    requires Stitch(Stitching(q.buf[..nbuf], Skipped(q)), needed) == Full(s)
    ensures s.scratch != [] && s.scratch[0] == q.buf[0] && |Flatten(s.frags)| < |q.Behind()|
  {
    if nbuf > 0 {
      assert q.buf[..nbuf][0] == q.buf[0];
    }
  }

  /** The tag goes on in the next region. */
  function IntoScratch(q: Reader, nbuf: nat, needed: nat): (e: Refilled)
    requires q.Valid() && q.buf != [] && (|q.buf| < 5 || q.AtRegion())
    requires needed == Needed(q.buf[0]) > nbuf == |q.buf| % MODULUS
    ensures e != AtEnd
    ensures e.Ready? ==> e.r.Valid() && |e.r.buf| >= needed && e.r.buf[0] == q.buf[0]
                         && |e.r.Behind()| < |q.Behind()|
  {
    match Stitch(Stitching(q.buf[..nbuf], Skipped(q)), needed)
    case Full(s) => FromFirst(q, nbuf, needed, s); Ready(Reader(s.scratch, 0, s.frags))
    case OutOfInput => Cut
    case Stuck => Hangs
  }

  /** How the stitching ends, in turns of its loop. */
  lemma {:induction false} StitchEnds(s: Stitching, needed: nat) returns (k: nat)
    requires Filled(s.frags)
    ensures match Stitch(s, needed)
            case Full(t) => StitchTurns(s, needed, k) == t
            case OutOfInput => StitchTurns(s, needed, k).frags == [] && |StitchTurns(s, needed, k).scratch| < needed
            case Stuck => ForEver(s, needed)
    decreases needed - |s.scratch|
  {
    hide StitchTurn, ForEver;
    k := 0;
    if Turning(s, needed) {
      if ToAdd(s, needed) == 0 {
        StuckForEver(s, needed);
      } else {
        var t := StitchTurn(s, needed);
        k := StitchEnds(t, needed);
        if Stitch(t, needed) == Stuck {
          StuckForEver(s, needed);
        }
        assert StitchTurns(s, needed, k + 1) == StitchTurns(t, needed, k);
        k := k + 1;
      }
    }
  }

  /** The reader at the tag that a refill is for, and the stitching that may be needed. */
  function AtTag(r: Reader): Reader
    requires r.Valid()
  {
    if r.buf == [] then Fetched(r) else r
  }

  function Stitches(q: Reader): Stitching
    requires q.Valid()
  {
    Stitching(q.buf[..|q.buf| % MODULUS], Skipped(q))
  }

  /**
   * The three ways not to get a tag: nothing is buffered and nothing left; the source runs out while the tag
   * is stitched, after `k` turns; or the stitching never ends.
   */
  lemma RefillMeans(r: Reader) returns (k: nat)
    requires r.Valid()
    ensures Refill(r) == AtEnd <==> r.buf == [] && Skipped(r) == []
    ensures Refill(r) == Cut ==>
              && AtTag(r).buf != []
              && (var needed := Needed(AtTag(r).buf[0]);
                  var t := StitchTurns(Stitches(AtTag(r)), needed, k);
                  t.frags == [] && |t.scratch| < needed)
    ensures Refill(r) == Hangs <==>
              && |r.buf| < 5 && AtTag(r).buf != []
              && |AtTag(r).buf| % MODULUS < Needed(AtTag(r).buf[0])
              && ForEver(Stitches(AtTag(r)), Needed(AtTag(r).buf[0]))
  {
    hide Stitch, StitchTurns, ForEver, Needed, Flatten, Dropped, Reader.Valid;
    k := 0;
    var q := AtTag(r);
    if |r.buf| < 5 && q.buf != [] {
      StuckForEver(Stitches(q), Needed(q.buf[0]));
      k := StitchEnds(Stitches(q), Needed(q.buf[0]));
    }
  }

  datatype Copied = Refused | Taken(r: Reader, out: seq<byte>)

  /** The bytes of a literal, region by region. */
  function CopyLiteral(r: Reader, len: nat, out: seq<byte>, limit: nat): (c: Copied)
    requires r.Valid() && |out| <= limit
    ensures c.Taken? ==> c.r.Valid() && |c.out| == |out| + len <= limit
    ensures len == 0 ==> c == Taken(r, out)
    decreases len, r.buf == []
  {
    assert r.buf[0..] == r.buf && out + r.buf[..0] == out;
    if |r.buf| >= len then
      if |out| + len > limit then Refused else Taken(r.(buf := r.buf[len..]), out + r.buf[..len])
    else if |out| + |r.buf| > limit then Refused
    else
      var q := Fetched(r);
      if q.buf == [] then Refused else CopyLiteral(q, len - |r.buf|, out + r.buf, limit)
  }

  /** The three ways through the loop over the regions of a literal. */
  lemma CopyLiteralStep(r: Reader, len: nat, out: seq<byte>, limit: nat)
    requires r.Valid() && |out| <= limit
    ensures |r.buf| >= len ==>
              CopyLiteral(r, len, out, limit)
              == if |out| + len > limit then Refused else Taken(r.(buf := r.buf[len..]), out + r.buf[..len])
    ensures |r.buf| < len && |out| + |r.buf| > limit ==> CopyLiteral(r, len, out, limit) == Refused
    ensures |r.buf| < len && |out| + |r.buf| <= limit ==>
              CopyLiteral(r, len, out, limit)
              == if Fetched(r).buf == [] then Refused else CopyLiteral(Fetched(r), len - |r.buf|, out + r.buf, limit)
  {
  }

  /** One element: its tag is complete in the buffer. */
  function TakeTag(q: Reader, out: seq<byte>, limit: nat): (c: Copied)
    requires q.Valid() && q.buf != [] && |q.buf| >= Needed(q.buf[0]) && |out| <= limit
    ensures c.Taken? ==> c.r.Valid() && |c.out| <= limit
    ensures c.Taken? ==>
              |c.out| > |out| || (|c.out| == |out| && |c.r.Behind()| <= |q.Behind()| && |c.r.buf| < |q.buf|)
  {
    var next := q.(buf := q.buf[Needed(q.buf[0])..]);
    match ReadTag(q.buf)
    case NoMore => Refused
    case Truncated => Refused
    case CopyTag(off, len, _) =>
      if off == 0 || off > |out| || |out| + len > limit then Refused else Taken(next, CopyBack(out, off, len))
    case LiteralTag(len, _) => CopyLiteral(next, len, out, limit)
  }

  /** DecompressAllTags, from a reader in any state. */
  function Decode(r: Reader, out: seq<byte>, limit: nat): Ending<Result>
    requires r.Valid() && |out| <= limit
    decreases limit - |out|, |r.Behind()|, |r.buf|
  {
    match Refill(r)
    case AtEnd => Returns(Succeeds(out))
    case Cut => Returns(Fails)
    case Hangs => Endless
    case Ready(q) =>
      match TakeTag(q, out, limit)
      case Refused => Returns(Fails)
      case Taken(next, out') => Decode(next, out', limit)
  }

  /** The fragments behind the length prefix. */
  function BehindPrefix(frags: seq<seq<byte>>): (rest: seq<seq<byte>>)
    requires Filled(frags) && Prefix(Flatten(frags)).Accepted?
    ensures Filled(rest) && Flatten(rest) == Flatten(frags)[Prefix(Flatten(frags)).used..]
  {
    DroppedFlatten(frags, Prefix(Flatten(frags)).used);
    Dropped(frags, Prefix(Flatten(frags)).used)
  }

  /** InternalUncompress on a source of these fragments. */
  function Run(frags: seq<seq<byte>>): Ending<Result>
    requires Filled(frags)
  {
    match Prefix(Flatten(frags))
    case Rejected => Returns(Fails)
    case Accepted(n, used) =>
      match Decode(Reader([], 0, BehindPrefix(frags)), [], n)
      case Endless => Endless
      case Returns(Fails) => Returns(Fails)
      case Returns(Succeeds(out)) => Returns(if |out| == n then Succeeds(out) else Fails)
  }

  // ------------------------------------------------------------- regions below 2^32 bytes

  predicate AllShort(frags: seq<seq<byte>>) {
    forall i :: 0 <= i < |frags| ==> |frags[i]| < MODULUS
  }

  lemma {:induction false} DroppedShort(frags: seq<seq<byte>>, n: nat)
    requires n <= |Flatten(frags)| && AllShort(frags)
    ensures AllShort(Dropped(frags, n))
    decreases |frags|
  {
    if n > 0 && n >= |frags[0]| {
      DroppedShort(frags[1..], n - |frags[0]|);
    }
  }

  lemma FetchedShort(r: Reader)
    requires r.Valid() && AllShort(r.frags) && r.buf == []
    ensures (var q := Fetched(r); AllShort(q.frags) && q.Unread() == r.Unread() && (q.buf == [] <==> r.Unread() == [])
                                  && |q.buf| < MODULUS)
  {
    DroppedShort(r.frags, r.peeked);
  }

  /** Stitching short regions stops with the tag, or at the end of the input. */
  lemma {:induction false} StitchShort(s: Stitching, needed: nat)
    requires Filled(s.frags) && AllShort(s.frags)
    ensures match Stitch(s, needed)
            case Full(t) => AllShort(t.frags)
            case OutOfInput => |s.scratch + Flatten(s.frags)| < needed
            case Stuck => false
    decreases needed - |s.scratch|
  {
    if Turning(s, needed) {
      DroppedShort(s.frags, ToAdd(s, needed));
      assert ToAdd(s, needed) != 0;
      StitchShort(StitchTurn(s, needed), needed);
    }
  }

  /** What a refill makes of the unread bytes when no region is too long. */
  ghost predicate RefillsAs(r: Reader, e: Refilled)
    requires r.Valid()
  {
    match e
    case Ready(q) => q.Valid() && AllShort(q.frags) && q.Unread() == r.Unread()
    case AtEnd => r.Unread() == []
    case Cut => ReadTag(r.Unread()) == Truncated
    case Hangs => false
  }

  /** A tag that the input does not complete. */
  lemma TagCut(s: seq<byte>)
    requires s != [] && |s| < Needed(s[0])
    ensures ReadTag(s) == Truncated
  {
  }

  lemma InTagShort(q: Reader)
    requires q.Valid() && q.buf != [] && |q.buf| < MODULUS && (|q.buf| < 5 || q.AtRegion()) && AllShort(q.frags)
    ensures RefillsAs(q, InTag(q))
  {
    hide Stitch, ReadTag, Flatten, Dropped, Needed, AllShort, Reader.AtRegion;
    var needed := Needed(q.buf[0]);
    DroppedShort(q.frags, q.peeked);
    assert q.buf[..|q.buf|] == q.buf;
    if |q.buf| < needed {
      var s := Stitching(q.buf, Skipped(q));
      StitchShort(s, needed);
      assert q.Unread() == s.scratch + Flatten(s.frags);
      if |q.Unread()| < needed {
        TagCut(q.Unread());
      }
    }
  }

  lemma RefillShort(r: Reader)
    requires r.Valid() && AllShort(r.frags)
    ensures RefillsAs(r, Refill(r))
  {
    hide InTag, Fetched;
    if r.buf == [] {
      FetchedShort(r);
      if Fetched(r).buf != [] {
        InTagShort(Fetched(r));
      }
    } else if |r.buf| < 5 {
      InTagShort(r);
    }
  }

  lemma {:induction false} CopyLiteralShort(r: Reader, len: nat, out: seq<byte>, limit: nat)
    requires r.Valid() && |out| <= limit && AllShort(r.frags)
    ensures ReplayLiteral(r.Unread(), len, out, limit) ==
            match CopyLiteral(r, len, out, limit)
            case Refused => Fails
            case Taken(q, out') => Replay(q.Unread(), out', limit)
    ensures CopyLiteral(r, len, out, limit).Taken? ==> AllShort(CopyLiteral(r, len, out, limit).r.frags)
    decreases len, r.buf == []
  {
    hide Replay, CopyLiteral;
    CopyLiteralStep(r, len, out, limit);
    var n := |r.buf|;
    if n >= len {
      assert r.Unread()[len..] == r.buf[len..] + r.Behind() && r.Unread()[..len] == r.buf[..len];
    } else if |out| + n <= limit {
      BufferCopied(r, len, out, limit);
      if Fetched(r).buf != [] {
        CopyLiteralShort(Fetched(r), len - n, out + r.buf, limit);
      }
    }
  }

  /** The buffered part of a literal, and the region that follows. */
  lemma BufferCopied(r: Reader, len: nat, out: seq<byte>, limit: nat)
    requires r.Valid() && |r.buf| < len && |out| + |r.buf| <= limit && AllShort(r.frags)
    ensures AllShort(Fetched(r).frags)
    ensures ReplayLiteral(r.Unread(), len, out, limit) ==
            if Fetched(r).buf == [] then Fails
            else ReplayLiteral(Fetched(r).Unread(), len - |r.buf|, out + r.buf, limit)
  {
    hide Replay, Flatten, Dropped, AllShort;
    var n := |r.buf|;
    var empty := r.(buf := []);
    FetchedShort(empty);
    assert Fetched(r) == Fetched(empty);
    assert empty.Unread() == r.Behind() == r.Unread()[n..] && r.Unread()[..n] == r.buf;
    ReplayLiteralSplit(r.Unread(), len, n, out, limit);
  }

  /** A complete tag in the buffer is the next one of what follows. */
  lemma BufferedTag(buf: seq<byte>, more: seq<byte>)
    requires buf != [] && |buf| >= Needed(buf[0])
    ensures (var tag, n := ReadTag(buf), Needed(buf[0]);
             && ReadTag(buf + more) == tag && (tag.CopyTag? || tag.LiteralTag?)
             && tag.at == n && (buf + more)[n..] == buf[n..] + more)
  {
    TagComplete(buf, more);
  }

  lemma TakeTagShort(q: Reader, out: seq<byte>, limit: nat)
    requires q.Valid() && q.buf != [] && |q.buf| >= Needed(q.buf[0]) && |out| <= limit && AllShort(q.frags)
    ensures Replay(q.Unread(), out, limit) ==
            match TakeTag(q, out, limit)
            case Refused => Fails
            case Taken(r, out') => Replay(r.Unread(), out', limit)
    ensures TakeTag(q, out, limit).Taken? ==> AllShort(TakeTag(q, out, limit).r.frags)
  {
    hide CopyLiteral, ReplayLiteral, ReadTag, CopyBack, Needed, AllShort;
    BufferedTag(q.buf, q.Behind());
    var tag, next := ReadTag(q.buf), q.(buf := q.buf[Needed(q.buf[0])..]);
    assert next.Unread() == q.Unread()[tag.at..];
    if tag.LiteralTag? {
      CopyLiteralShort(next, tag.len, out, limit);
    }
  }

  /** With short regions the run ends, and depends on the concatenated bytes alone. */
  lemma {:induction false} DecodeShort(r: Reader, out: seq<byte>, limit: nat)
    requires r.Valid() && |out| <= limit && AllShort(r.frags)
    ensures Decode(r, out, limit) == Returns(Replay(r.Unread(), out, limit))
    decreases limit - |out|, |r.Behind()|, |r.buf|
  {
    hide Refill, TakeTag, Replay, Needed, AllShort, ReadTag;
    RefillShort(r);
    if Refill(r).Ready? {
      var q := Refill(r).r;
      TakeTagShort(q, out, limit);
      var c := TakeTag(q, out, limit);
      if c.Taken? {
        DecodeShort(c.r, c.out, limit);
      }
    } else {
      NothingToReplay(r.Unread(), out, limit);
    }
  }

  lemma NothingToReplay(s: seq<byte>, out: seq<byte>, limit: nat)
    ensures s == [] ==> Replay(s, out, limit) == Succeeds(out)
    ensures ReadTag(s) == Truncated ==> Replay(s, out, limit) == Fails
  {
  }

  // ------------------------------------------------------- some region of 2^32 bytes or more

  /** A region that is never used up. */
  predicate HasLong(frags: seq<seq<byte>>) {
    exists i :: 0 <= i < |frags| && |frags[i]| >= MODULUS
  }

  /** Skipping less than 2^32 bytes of one region leaves a long one. */
  lemma LongStays(frags: seq<seq<byte>>, n: nat)
    requires Filled(frags) && HasLong(frags) && n <= |frags[0]| % MODULUS
    ensures n <= |Flatten(frags)| && HasLong(Dropped(frags, n))
  {
    DroppedFirst(frags, n);
    var i :| 0 <= i < |frags| && |frags[i]| >= MODULUS;
    if i == 0 {
      assert |Dropped(frags, n)[0]| >= MODULUS;
    } else if n == |frags[0]| {
      assert frags[1..][i - 1] == frags[i];
    } else {
      assert Dropped(frags, n)[i] == frags[i];
    }
  }

  lemma {:induction false} StitchLong(s: Stitching, needed: nat)
    requires Filled(s.frags) && HasLong(s.frags)
    ensures match Stitch(s, needed)
            case Full(t) => HasLong(t.frags)
            case OutOfInput => false
            case Stuck => true
    decreases needed - |s.scratch|
  {
    hide HasLong;
    if |s.scratch| < needed {
      NotEmpty(s.frags);
      LongStays(s.frags, ToAdd(s, needed));
      if ToAdd(s, needed) != 0 {
        StitchLong(StitchTurn(s, needed), needed);
      }
    }
  }

  lemma NotEmpty(frags: seq<seq<byte>>)
    requires HasLong(frags)
    ensures frags != []
  {
  }

  lemma SkippedLong(r: Reader)
    requires r.Valid() && HasLong(r.frags)
    ensures HasLong(Skipped(r)) && HasLong(Fetched(r).frags) && Fetched(r).buf != []
  {
    NotEmpty(r.frags);
    LongStays(r.frags, r.peeked);
    NotEmpty(Skipped(r));
  }

  lemma RefillLong(r: Reader)
    requires r.Valid() && HasLong(r.frags)
    ensures Refill(r) != AtEnd && (Refill(r).Ready? ==> HasLong(Refill(r).r.frags))
  {
    hide HasLong, Stitch, Fetched, Needed;
    SkippedLong(r);
    if |r.buf| < 5 {
      var q := if r.buf == [] then Fetched(r) else r;
      SkippedLong(q);
      StitchLong(Stitching(q.buf[..|q.buf| % MODULUS], Skipped(q)), Needed(q.buf[0]));
    }
  }

  lemma {:induction false} CopyLiteralLong(r: Reader, len: nat, out: seq<byte>, limit: nat)
    requires r.Valid() && |out| <= limit && HasLong(r.frags)
    ensures (var c := CopyLiteral(r, len, out, limit); c.Taken? ==> HasLong(c.r.frags))
    decreases len, r.buf == []
  {
    hide HasLong;
    if |r.buf| < len && |out| + |r.buf| <= limit {
      SkippedLong(r);
      CopyLiteralLong(Fetched(r), len - |r.buf|, out + r.buf, limit);
    }
  }

  /** With a region of 2^32 bytes or more ahead, nothing is ever decoded successfully. */
  lemma {:induction false} DecodeLong(r: Reader, out: seq<byte>, limit: nat)
    requires r.Valid() && |out| <= limit && HasLong(r.frags)
    ensures Decode(r, out, limit).Returns? ==> Decode(r, out, limit).value == Fails
    decreases limit - |out|, |r.Behind()|, |r.buf|
  {
    hide Refill, CopyLiteral, ReadTag, CopyBack, Needed, HasLong;
    RefillLong(r);
    if Refill(r).Ready? {
      var q := Refill(r).r;
      var tag, next := ReadTag(q.buf), q.(buf := q.buf[Needed(q.buf[0])..]);
      if tag.LiteralTag? {
        CopyLiteralLong(next, tag.len, out, limit);
      }
      var c := TakeTag(q, out, limit);
      if c.Taken? {
        DecodeLong(c.r, c.out, limit);
      }
    }
  }

  // ------------------------------------------------------------------ one long region

  /**
   * One region `g` of 2^32 bytes or more is left, and `t` is to be decoded: either `t` is buffered and
   * `g`, already read, will be peeked at again, or `t` ends with all of `g`.
   */
  ghost predicate Lone(r: Reader, t: seq<byte>) {
    && r.Valid() && |r.frags| == 1 && |r.frags[0]| >= MODULUS
    && (var g := r.frags[0];
        || (t == r.buf && r.peeked == |g| % MODULUS)
        || (t == r.buf + g && r.peeked == 0 && (r.buf == [] || |g| % MODULUS == 0)))
  }

  /** What is left of the region has a multiple of 2^32 bytes. */
  lemma LoneSkipped(r: Reader, t: seq<byte>)
    requires Lone(r, t) && r.peeked == |r.frags[0]| % MODULUS
    ensures (var g := r.frags[0][r.peeked..];
             Skipped(r) == [g] && |g| >= MODULUS && |g| % MODULUS == 0 && Flatten(Skipped(r)) == g)
  {
    DroppedFirst(r.frags, r.peeked);
    FlattenOne(r.frags[0][r.peeked..]);
  }

  /** The tag is complete in the buffer, or the stitching never ends. */
  lemma LoneInTag(q: Reader, t: seq<byte>)
    requires Lone(q, t) && q.buf != [] && q.peeked == |q.frags[0]| % MODULUS
    requires if |q.buf| < 5 then true else q.AtRegion() && t == q.buf
    ensures var e := InTag(q); e == Hangs || (e.Ready? && Lone(e.r, t))
  {
    hide Needed, Flatten, Dropped, Skipped;
    LoneSkipped(q, t);
    var nbuf, g := |q.buf| % MODULUS, q.frags[0][q.peeked..];
    var needed := Needed(q.buf[0]);
    if nbuf < needed {
      var s := Stitching(q.buf[..nbuf], Skipped(q));
      assert ToAdd(s, needed) == 0;
    } else if |q.buf| < 5 {
      assert q.buf[..nbuf] == q.buf && (q.peeked == 0 ==> g == q.frags[0]);
    } else {
      assert q.buf == q.buf[..nbuf] + g;
    }
  }

  lemma LoneRefill(r: Reader, t: seq<byte>)
    requires Lone(r, t)
    ensures var e := Refill(r); e == Hangs || (e.Ready? && Lone(e.r, t) && e.r.buf <= t)
  {
    hide InTag, Flatten, Dropped;
    if r.buf == [] {
      LoneFetched(r, t);
      if t == [] {
        LonePast(Fetched(r));
      } else {
        LoneInTag(Fetched(r), t);
      }
    } else if |r.buf| < 5 {
      LoneInTag(r, t);
    }
  }

  /** Behind the end of the region there is more, of which no byte can be copied. */
  lemma LonePast(q: Reader)
    requires q.Valid() && q.AtRegion() && q.buf != [] && |q.buf| % MODULUS == 0
    ensures InTag(q) == Hangs
  {
    var s := Stitching(q.buf[..0], Skipped(q));
    assert ToAdd(s, Needed(q.buf[0])) == 0;
  }

  /** The next region is peeked at for the first time, or once more. */
  lemma LoneFetched(r: Reader, t: seq<byte>)
    requires Lone(r, t) && r.buf == []
    ensures (var q := Fetched(r);
             && q.buf != [] && q.AtRegion()
             && if t == [] then |q.buf| % MODULUS == 0 else Lone(q, t) && t == q.buf)
  {
    hide Flatten, Dropped;
    DroppedFirst(r.frags, r.peeked);
    if t == [] {
      LoneSkipped(r, t);
    } else {
      assert t == r.frags[0];
      FlattenOne(t);
    }
  }

  /** Move past a tag or a literal in the buffer. */
  lemma LoneAdvance(r: Reader, t: seq<byte>, n: nat)
    requires Lone(r, t) && n <= |r.buf|
    ensures n <= |t| && r.buf[..n] == t[..n] && Lone(r.(buf := r.buf[n..]), t[n..])
  {
  }

  lemma {:induction false} LoneLiteral(r: Reader, t: seq<byte>, len: nat, out: seq<byte>, limit: nat)
    requires r.Valid() && Lone(r, t) && |out| <= limit && len <= |t| && |out| + len <= limit
    ensures (var c := CopyLiteral(r, len, out, limit);
             c.Taken? && c.out == out + t[..len] && Lone(c.r, t[len..]))
    decreases len, r.buf == []
  {
    hide Lone, Fetched, Reader.Valid, Reader.AtRegion;
    var n := |r.buf|;
    if n >= len {
      LoneAdvance(r, t, len);
    } else {
      LoneOver(r, t);
      LoneLiteral(Fetched(r), t[n..], len - n, out + r.buf, limit);
      assert out + r.buf + t[n..][..len - n] == out + t[..len];
      assert t[n..][len - n..] == t[len..];
    }
  }

  /** The buffer is used up, and there is more. */
  lemma LoneOver(r: Reader, t: seq<byte>)
    requires r.Valid() && Lone(r, t) && |r.buf| < |t|
    ensures r.buf == t[..|r.buf|] && Fetched(r).buf != [] && Fetched(r).Valid() && Lone(Fetched(r), t[|r.buf|..])
  {
    hide Flatten, Dropped;
    var empty := r.(buf := []);
    LoneAdvance(r, t, |r.buf|);
    assert r.buf[|r.buf|..] == [];
    LoneFetched(empty, t[|r.buf|..]);
    assert Fetched(r) == Fetched(empty);
  }

  lemma LoneTag(q: Reader, t: seq<byte>, out: seq<byte>, limit: nat) returns (t': seq<byte>)
    requires q.Valid() && Lone(q, t) && q.buf <= t && q.buf != [] && |q.buf| >= Needed(q.buf[0])
    requires |out| <= limit && Replay(t, out, limit).Succeeds?
    ensures (var c := TakeTag(q, out, limit);
             c.Taken? && Lone(c.r, t') && Replay(t, out, limit) == Replay(t', c.out, limit))
  {
    hide Lone, CopyLiteral, ReadTag, CopyBack, Needed;
    var more := t[|q.buf|..];
    BufferedTag(q.buf, more);
    assert q.buf + more == t;
    var tag, n := ReadTag(q.buf), Needed(q.buf[0]);
    LoneAdvance(q, t, n);
    t' := t[n..];
    if tag.LiteralTag? {
      LoneLiteral(q.(buf := q.buf[n..]), t', tag.len, out, limit);
      t' := t'[tag.len..];
    }
  }

  /** What would be decoded successfully is never finished: behind it the stitching goes on for ever. */
  lemma {:induction false} LoneDecode(r: Reader, t: seq<byte>, out: seq<byte>, limit: nat)
    requires r.Valid() && Lone(r, t) && |out| <= limit && Replay(t, out, limit).Succeeds?
    ensures Decode(r, out, limit) == Endless
    decreases limit - |out|, |r.Behind()|, |r.buf|
  {
    hide Lone, Refill, TakeTag, Replay, Needed;
    LoneRefill(r, t);
    if Refill(r).Ready? {
      var q := Refill(r).r;
      var t' := LoneTag(q, t, out, limit);
      var c := TakeTag(q, out, limit);
      LoneDecode(c.r, t', c.out, limit);
    }
  }

  // ------------------------------------------------------------------ the whole run

  /**
   * The run returns an output exactly when the bytes, however they are split, stand for it and no region
   * behind the length prefix has 2^32 bytes.
   */
  lemma RunSucceeds(frags: seq<seq<byte>>, out: seq<byte>)
    requires Filled(frags)
    ensures Run(frags) == Returns(Succeeds(out))
            <==> Uncompressed(Flatten(frags)) == Succeeds(out) && AllShort(BehindPrefix(frags))
  {
    hide Decode, Prefix, Replay, BehindPrefix;
    var p := Prefix(Flatten(frags));
    if p.Accepted? {
      var r := Reader([], 0, BehindPrefix(frags));
      assert r.Unread() == Flatten(frags)[p.used..];
      if AllShort(r.frags) {
        DecodeShort(r, [], p.v);
      } else {
        DecodeLong(r, [], p.v);
      }
    }
  }

  /** With short regions the run returns, and fragmentation makes no difference. */
  lemma RunShort(frags: seq<seq<byte>>)
    requires Filled(frags) && (Prefix(Flatten(frags)).Accepted? ==> AllShort(BehindPrefix(frags)))
    ensures Run(frags) == Returns(Uncompressed(Flatten(frags)))
  {
    hide Decode, Prefix, Replay, BehindPrefix;
    var p := Prefix(Flatten(frags));
    if p.Accepted? {
      var r := Reader([], 0, BehindPrefix(frags));
      assert r.Unread() == Flatten(frags)[p.used..];
      DecodeShort(r, [], p.v);
    }
  }

  /** A flat buffer that stands for something: the run returns it, or never returns. */
  lemma RunFlat(c: seq<byte>)
    requires Uncompressed(c).Succeeds?
    ensures Run(OneRegion(c)) == if |c| - Prefix(c).used < MODULUS then Returns(Uncompressed(c)) else Endless
  {
    hide Decode, Prefix, Replay;
    var p := Prefix(c);
    var rest := BehindPrefix(OneRegion(c));
    FlatBehindPrefix(c);
    if |c| - p.used < MODULUS {
      RunShort(OneRegion(c));
    } else {
      var r := Reader([], 0, rest);
      assert r.buf + rest[0] == c[p.used..];
      LoneDecode(r, c[p.used..], [], p.v);
    }
  }

  lemma FlatBehindPrefix(c: seq<byte>)
    requires Prefix(c).Accepted?
    ensures BehindPrefix(OneRegion(c)) == OneRegion(c[Prefix(c).used..])
  {
    hide Prefix;
    DroppedFirst(OneRegion(c), Prefix(c).used);
    assert OneRegion(c)[1..] == [];
  }
}
