/** SnappyDecompressor, step by step: the fields of a resumable decoder over a source of any fragments. */
module SnappyDecompress {
  import opened Bytes
  import opened Lz77
  import SnappyElements
  import opened SnappyFormat
  import opened SnappyReader
  import opened SnappySource
  import opened SnappyVarint
  import opened SnappyWriters

  /** Whether a routine goes on, makes its caller return, or never returns. */
  datatype Progress = Goes | Stops | Loops

  /** `buf` ends at ip_limit_. */
  class Decompressor {
    const reader: Source
    var buf: seq<byte>
    var ip: nat
    var peeked: nat
    var eof: bool

    constructor (reader: Source)
      requires reader.Valid()
      ensures this.reader == reader && Valid() && View() == Reader([], 0, reader.frags) && !eof && buf == []
    {
      this.reader := reader;
      buf, ip, peeked, eof := [], 0, 0, false;
    }

    /** The fields as a value. */
    ghost function View(): Reader
      requires ip <= |buf|
      reads this, reader
    {
      Reader(buf[ip..], peeked, reader.frags)
    }

    ghost predicate Valid()
      reads this, reader
    {
      ip <= |buf| && View().Valid()
    }

    /** Give back what was peeked at: the destructor. */
    method Close()
      requires Valid()
      modifies this, reader
      ensures reader.Valid() && reader.frags == Skipped(old(View()))
    {
      reader.Skip(peeked);
      peeked := 0;
    }

    /** ReadUncompressedLength: byte by byte, before anything else is read. */
    method ReadUncompressedLength() returns (r: Parsed)
      requires Valid() && buf == [] && peeked == 0
      modifies reader
      ensures Valid() && r == Prefix(old(reader.Remaining()))
      ensures r.Accepted? ==> reader.frags == BehindPrefix(old(reader.frags))
    {
      hide Digit, Stream, Flatten, Dropped;
      var result, i := 0, 0;
      ghost var was := reader.frags;
      ghost var all := Flatten(was);
      DroppedNone(was);
      assert all[0..] == all;
      while true
        invariant reader.Valid() && 0 <= i <= 5 && i <= |all| && 0 <= result < MODULUS
        invariant reader.frags == Dropped(was, i) && reader.Remaining() == all[i..]
        invariant Prefix(all) == Shifted(Stream(all[i..], i, result), i)
        decreases 5 - i
      {
        if i >= 5 {
          StreamEnds(all[i..], i, result);
          return Rejected;
        }
        var region := reader.Peek();
        if region == [] {
          StreamEnds(all[i..], i, result);
          return Rejected;
        }
        var c := region[0];
        StreamStep(all[i..], i, result);
        assert c == all[i] && all[i..][1..] == all[i + 1..];
        DroppedTwice(was, i, 1);
        reader.Skip(1);
        result := (result + Digit(c, i)) % MODULUS;
        i := i + 1;
        if c < 128 {
          return Accepted(result, i);
        }
      }
    }

    lemma StreamEnds(s: seq<byte>, i: nat, acc: nat)
      requires i >= 5 || s == []
      ensures Stream(s, i, acc) == Rejected
    {
    }

    /** Collect the rest of a tag; a turn that adds nothing would be repeated for ever. */
    method StitchTag(scratch0: seq<byte>, needed: nat) returns (p: Progress, scratch: seq<byte>)
      requires reader.Valid()
      modifies reader
      ensures reader.Valid()
      ensures match old(Stitch(Stitching(scratch0, reader.frags), needed))
              case Full(s) => p == Goes && s == Stitching(scratch, reader.frags)
              case OutOfInput => p == Stops
              case Stuck => p == Loops
    {
      scratch := scratch0;
      ghost var s := Stitching(scratch0, reader.frags);
      while |scratch| < needed
        invariant reader.Valid() && Stitch(Stitching(scratch, reader.frags), needed) == Stitch(s, needed)
        decreases needed - |scratch|
      {
        var region := reader.Peek();
        if region == [] {
          return Stops, scratch;
        }
        var length := |region| % MODULUS;
        var toAdd := if needed - |scratch| < length then needed - |scratch| else length;
        if toAdd == 0 {
          return Loops, scratch;
        }
        scratch := scratch + region[..toAdd];
        reader.Skip(toAdd);
      }
      p := Goes;
    }

    /** Skip what was peeked at and take the source's next region. */
    method NextRegion()
      requires Valid()
      modifies this, reader
      ensures Valid() && ip == 0 && buf == Fetched(old(View())).buf && View() == Fetched(old(View())) && eof == old(eof)
    {
      reader.Skip(peeked);
      buf := reader.Peek();
      ip, peeked := 0, |buf| % MODULUS;
    }

    /** The tag at `ip` may go on in the next region, or end too close to the buffer's end. */
    method FinishTag() returns (p: Progress)
      requires Valid() && ip < |buf| && (|buf| - ip < 5 || View().AtRegion())
      modifies this, reader
      ensures Valid() && eof == old(eof)
      ensures match old(InTag(View()))
              case Ready(r) => p == Goes && View() == r
              case Hangs => p == Loops
              case _ => p == Stops
    {
      hide Stitch;
      var needed := Needed(buf[ip]);
      var nbuf := (|buf| - ip) % MODULUS;
      p := Goes;
      if nbuf < 5 {
        var scratch := buf[ip..][..nbuf];
        reader.Skip(peeked);
        peeked := 0;
        if nbuf < needed {
          p, scratch := StitchTag(scratch, needed);
        }
        buf, ip := scratch, 0;
      }
    }

    /** MAYBE_REFILL, with RefillTag. */
    method MaybeRefill() returns (p: Progress)
      requires Valid() && !eof
      modifies this, reader
      ensures Valid()
      ensures match old(Refill(View()))
              case Ready(r) => p == Goes && !eof && View() == r
              case AtEnd => p == Stops && eof && reader.frags == [] && peeked == 0
              case Cut => p == Stops && !eof
              case Hangs => p == Loops
    {
      hide InTag, Fetched;
      if |buf| - ip >= 5 {
        return Goes;
      }
      if ip == |buf| {
        NextRegion();
        if buf == [] {
          eof := true;
          return Stops;
        }
      }
      p := FinishTag();
    }

    /** Reader and writer are different objects. */
    ghost predicate Separate(w: Writer)
      reads this
    {
      this !in w.Repr() && reader !in w.Repr()
    }

    /** The fields and the writer after something that `c` describes. */
    ghost predicate Agrees(c: Copied, ok: bool, w: Writer, room: nat)
      requires Valid()
      reads this, reader, w.Repr()
    {
      match c
      case Refused => !ok
      case Taken(r, out) => ok && w.Valid() && w.Room() == room && View() == r && w.Out() == out
    }

    /** The bytes of a literal, region by region. */
    method CopyBytes(w: Writer, len0: nat) returns (ok: bool)
      requires Valid() && w.Valid() && Separate(w)
      modifies this, reader, w.Repr()
      ensures Valid() && eof == old(eof) && w.Framed()
      ensures Agrees(old(CopyLiteral(View(), len0, w.Out(), w.Room())), ok, w, old(w.Room()))
    {
      hide Fetched, CopyLiteral;
      ghost var target, room := CopyLiteral(View(), len0, w.Out(), w.Room()), w.Room();
      var len := len0;
      while |buf| - ip < len
        invariant Valid() && w.Valid() && w.Room() == room && eof == old(eof) && w.Framed() && 0 <= len
        invariant CopyLiteral(View(), len, w.Out(), room) == target
        decreases len, ip == |buf|
      {
        CopyLiteralStep(View(), len, w.Out(), room);
        var avail := |buf| - ip;
        ok := w.Append(buf[ip..]);
        if !ok {
          return;
        }
        len := len - avail;
        NextRegion();
        if buf == [] {
          return false;
        }
      }
      CopyLiteralStep(View(), len, w.Out(), room);
      ok := TakeBytes(w, len);
    }

    /** Append bytes that are in the buffer. */
    method TakeBytes(w: Writer, n: nat) returns (ok: bool)
      requires Valid() && w.Valid() && Separate(w) && ip + n <= |buf|
      modifies this`ip, w.Repr()
      ensures Valid() && w.Framed() && (ok <==> |old(w.Out())| + n <= old(w.Room()))
      ensures ok ==> w.Valid() && w.Room() == old(w.Room()) && w.Out() == old(w.Out() + View().buf[..n])
                     && View() == old(View().(buf := View().buf[n..]))
    {
      assert buf[ip..][n..] == buf[ip + n..] && buf[ip..][..n] == buf[ip..ip + n];
      ok := w.Append(buf[ip..ip + n]);
      if ok {
        ip := ip + n;
      }
    }

    lemma BufferedLiteral(r: Reader, len: nat, out: seq<byte>, room: nat)
      requires r.Valid() && |r.buf| >= len && |out| + len <= room
      ensures CopyLiteral(r, len, out, room) == Taken(r.(buf := r.buf[len..]), out + r.buf[..len])
    {
      CopyLiteralStep(r, len, out, room);
      hide CopyLiteral;
    }

    /** The short cut for a short literal; declining changes nothing. */
    method TryFast(w: Writer, len: nat) returns (ok: bool)
      requires Valid() && w.Valid() && Separate(w)
      modifies this`ip, w.Repr()
      ensures Valid() && w.Valid() && w.Framed() && w.Room() == old(w.Room())
      ensures ok ==> len <= 16 && old(CopyLiteral(View(), len, w.Out(), w.Room())) == Taken(View(), w.Out())
      ensures !ok ==> ip == old(ip) && w.Out() == old(w.Out())
    {
      hide CopyLiteral;
      if ip + len <= |buf| && |w.Out()| + len <= w.Room() {
        BufferedLiteral(View(), len, w.Out(), w.Room());
        assert buf[ip..][len..] == buf[ip + len..] && buf[ip..][..len] == buf[ip..ip + len];
      }
      ok := w.TryFastAppend(buf, ip, len);
      if ok {
        ip := ip + len;
      }
    }

    /** The length bytes of a long literal. */
    method LongLength(n: nat) returns (len: nat)
      requires Valid() && 1 <= n <= 4 && ip + n <= |buf|
      modifies this`ip
      ensures Valid() && len == (FromLittleEndian(old(View()).buf[..n]) + 1) % MODULUS
        && View() == old(View().(buf := View().buf[n..]))
    {
      assert buf[ip..][n..] == buf[ip + n..] && buf[ip..][..n] == buf[ip..ip + n];
      len := (FromLittleEndian(buf[ip..ip + n]) + 1) % MODULUS;
      ip := ip + n;
    }

    /** What is taken when the tag in the buffer is a literal's. */
    lemma LiteralTagAt(q: Reader, out: seq<byte>, room: nat)
      requires q.Valid() && q.buf != [] && |q.buf| >= Needed(q.buf[0]) && |out| <= room && q.buf[0] % 4 == 0
      ensures (var len, s := q.buf[0] / 4 + 1, q.buf[1..];
               if len <= 60 then TakeTag(q, out, room) == CopyLiteral(q.(buf := s), len, out, room)
               else
                 && len - 60 <= |s|
                 && (var n := (FromLittleEndian(s[..len - 60]) + 1) % MODULUS;
                     TakeTag(q, out, room) == CopyLiteral(q.(buf := s[len - 60..]), n, out, room)))
    {
      hide CopyLiteral;
      var len, s := q.buf[0] / 4 + 1, q.buf;
      if len > 60 {
        assert s[1..][..len - 60] == s[1..1 + (len - 60)] && s[1..][len - 60..] == s[1 + (len - 60)..];
      }
    }

    /** The tag in the buffer is a copy's. */
    lemma CopyTagAt(s: seq<byte>)
      requires s != [] && s[0] % 4 != 0 && |s| >= Needed(s[0])
      ensures (var e := TagEntry(s[0]);
               && Needed(s[0]) == 1 + e.extra
               && ReadTag(s) == CopyTag((e.high + FromLittleEndian(s[1..][..e.extra])) % MODULUS, e.len, 1 + e.extra))
    {
      var e := TagEntry(s[0]);
      assert s[1..][..e.extra] == s[1..1 + e.extra];
    }

    /** Move past `n` bytes of the buffer. */
    method Advance(n: nat)
      requires Valid() && ip + n <= |buf|
      modifies this`ip
      ensures Valid() && View() == old(View().(buf := View().buf[n..]))
    {
      assert buf[ip..][n..] == buf[ip + n..];
      ip := ip + n;
    }

    /** The element's tag is complete in the buffer. */
    ghost predicate TagReady()
      requires Valid()
      reads this, reader
    {
      ip < |buf| && |buf| - ip >= Needed(buf[ip])
    }

    /** The literal branch of the loop, up to the next refill. */
    method TakeLiteral(w: Writer) returns (ok: bool)
      requires Valid() && w.Valid() && Separate(w) && TagReady() && buf[ip] % 4 == 0
      modifies this, reader, w.Repr()
      ensures Valid() && eof == old(eof) && w.Framed()
      ensures Agrees(old(TakeTag(View(), w.Out(), w.Room())), ok, w, old(w.Room()))
    {
      hide CopyLiteral, TakeTag, Needed, FromLittleEndian, Writer.Out, Writer.Room;
      LiteralTagAt(View(), w.Out(), w.Room());
      var c := buf[ip];
      Advance(1);
      var len := c / 4 + 1;
      ok := TryFast(w, len);
      if !ok {
        if len >= 61 {
          len := LongLength(len - 60);
        }
        ok := CopyBytes(w, len);
      }
    }

    /** The fields of a copy tag. */
    method ReadCopy() returns (off: nat, len: nat)
      requires Valid() && TagReady() && buf[ip] % 4 != 0
      modifies this`ip
      ensures Valid() && len >= 1 && ReadTag(old(View()).buf) == CopyTag(off, len, Needed(old(buf[ip])))
      ensures View() == old(View().(buf := View().buf[Needed(buf[ip])..]))
    {
      hide TagEntry, FromLittleEndian, ReadTag;
      ghost var s := View().buf;
      CopyTagAt(s);
      var c := buf[ip];
      Advance(1);
      var entry := TagEntry(c);
      var trailer := FromLittleEndian(buf[ip..ip + entry.extra]);
      assert buf[ip..ip + entry.extra] == s[1..][..entry.extra];
      Advance(entry.extra);
      assert s[1..][entry.extra..] == s[1 + entry.extra..];
      return (entry.high + trailer) % MODULUS, entry.len;
    }

    /** The copy branch of the loop, up to the next refill. */
    method TakeCopy(w: Writer) returns (ok: bool)
      requires Valid() && w.Valid() && Separate(w) && TagReady() && buf[ip] % 4 != 0
      modifies this, reader, w.Repr()
      ensures Valid() && eof == old(eof) && w.Framed()
      ensures Agrees(old(TakeTag(View(), w.Out(), w.Room())), ok, w, old(w.Room()))
    {
      hide CopyLiteral, CopyBack, TagEntry, FromLittleEndian, ReadTag, Needed;
      var off, len := ReadCopy();
      ok := w.AppendFromSelf(off, len);
    }

    /** One turn of the loop, up to the next refill. */
    method TakeElement(w: Writer) returns (ok: bool)
      requires Valid() && w.Valid() && Separate(w) && TagReady()
      modifies this, reader, w.Repr()
      ensures Valid() && eof == old(eof) && w.Framed()
      ensures Agrees(old(TakeTag(View(), w.Out(), w.Room())), ok, w, old(w.Room()))
    {
      if buf[ip] % 4 == 0 {
        ok := TakeLiteral(w);
      } else {
        ok := TakeCopy(w);
      }
    }

    /** DecompressAllTags: agrees with the run, and the end of the input is found exactly when it succeeds. */
    method DecompressAllTags(w: Writer) returns (p: Progress)
      requires Valid() && w.Valid() && Separate(w) && !eof
      modifies this, reader, w.Repr()
      ensures Valid() && w.Framed() && p != Goes
      ensures match old(Decode(View(), w.Out(), w.Room()))
              case Endless => p == Loops
              case Returns(Fails) => p == Stops && !eof
              case Returns(Succeeds(out)) => p == Stops && eof && reader.frags == [] && peeked == 0
                                             && w.Valid() && w.Room() == old(w.Room()) && w.Out() == out
    {
      hide Refill, TakeTag, Needed;
      ghost var target, room := Decode(View(), w.Out(), w.Room()), w.Room();
      p := MaybeRefill();
      while p == Goes
        invariant Valid() && w.Framed()
        invariant p == Goes ==> w.Valid() && !eof && TagReady() && w.Room() == room
        invariant p == Goes ==>
                    target == match TakeTag(View(), w.Out(), room)
                              case Refused => Returns(Fails)
                              case Taken(r, out) => Decode(r, out, room)
        invariant p == Stops ==> if eof then reader.frags == [] && peeked == 0 && w.Valid() && w.Room() == room
                                             && target == Returns(Succeeds(w.Out())) else target == Returns(Fails)
        invariant p == Loops ==> target == Endless
        decreases p == Goes, if p == Goes then room - |w.Out()| else 0, |View().Behind()|, |View().buf|
      {
        var ok := TakeElement(w);
        p := Stops;
        if ok {
          p := MaybeRefill();
        }
      }
    }
  }

  // ---------------------------------------------------------------- entry points

  /** Regions behind the length prefix that the decoder's 32-bit counts can count. */
  ghost predicate Countable(frags: seq<seq<byte>>)
    requires Filled(frags)
  {
    Prefix(Flatten(frags)).Accepted? ==> AllShort(BehindPrefix(frags))
  }

  /** InternalUncompressAllTags, after SetExpectedLength, and the destructor. */
  method Internal(d: Decompressor, w: Writer) returns (e: Ending<bool>)
    requires d.Valid() && w.Valid() && d.Separate(w) && !d.eof && w.Out() == []
    modifies d, d.reader, w.Repr()
    ensures w.Framed()
    ensures match old(Decode(d.View(), [], w.Room()))
            case Endless => e == Endless
            case Returns(Fails) => e == Returns(false)
            case Returns(Succeeds(out)) => e == Returns(|out| == old(w.Room())) && w.Valid() && w.Out() == out
    ensures e == Returns(true) ==> d.reader.Valid() && d.reader.Remaining() == []
  {
    hide Decode;
    var p := d.DecompressAllTags(w);
    if p == Loops {
      return Endless;
    }
    var ok := false;
    if d.eof {
      ok := w.CheckLength();
    }
    d.Close();
    return Returns(ok);
  }

  /**
   * RawUncompress from any source into `mem` from `base` on: it ends as the run on the source's regions
   * does; with regions below 2^32 bytes it depends on the bytes alone and not on how they are split; and
   * nothing is written outside the announced length, the overshooting copies included.
   */
  method RawUncompress(compressed: Source, mem: array<byte>, base: nat, wide: bool) returns (e: Ending<bool>)
    requires compressed.Valid() && base <= mem.Length
    requires (var p := Prefix(compressed.Remaining()); p.Accepted? ==> base + p.v <= mem.Length)
    modifies compressed, mem
    ensures match Run(old(compressed.frags))
            case Endless => e == Endless
            case Returns(Fails) => e == Returns(false)
            case Returns(Succeeds(out)) => e == Returns(true) && compressed.Remaining() == []
                                           && base + |out| <= mem.Length && mem[base..base + |out|] == out
    ensures e == Returns(true) <==>
            Countable(old(compressed.frags)) && Uncompressed(old(compressed.Remaining())).Succeeds?
    ensures Countable(old(compressed.frags)) ==> e == Returns(Uncompressed(old(compressed.Remaining())).Succeeds?)
    ensures (var p := Prefix(old(compressed.Remaining()));
             forall k :: 0 <= k < mem.Length && !(p.Accepted? && base <= k < base + p.v) ==> mem[k] == old(mem[k]))
  {
    hide Decode, Prefix, Uncompressed, BehindPrefix, Countable, Run;
    ghost var frags := compressed.frags;
    RunMeans(frags);
    RunIs(frags);
    var a := new ArrayWriter(mem, base, wide);
    var d := new Decompressor(compressed);
    var p := d.ReadUncompressedLength();
    if p.Rejected? || p.v > 0xffff_ffff {
      d.Close();
      return Returns(false);
    }
    a.SetExpectedLength(p.v);
    e := Internal(d, ToArray(a));
  }

  /** The run is that of the decoder behind the length prefix. */
  lemma RunIs(frags: seq<seq<byte>>)
    requires Filled(frags)
    ensures (var p := Prefix(Flatten(frags));
             if p.Rejected? then Run(frags) == Returns(Fails)
             else
               match Decode(Reader([], 0, BehindPrefix(frags)), [], p.v)
               case Endless => Run(frags) == Endless
               case Returns(Fails) => Run(frags) == Returns(Fails)
               case Returns(Succeeds(out)) => Run(frags) == Returns(if |out| == p.v then Succeeds(out) else Fails))
  {
    hide Decode, Prefix, BehindPrefix;
  }

  /** What the run on a source's regions has to do with what its bytes stand for. */
  lemma RunMeans(frags: seq<seq<byte>>)
    requires Filled(frags)
    ensures Countable(frags) ==> Run(frags) == Returns(Uncompressed(Flatten(frags)))
    ensures !Countable(frags) && Run(frags).Returns? ==> Run(frags).value == Fails
  {
    hide Run, Prefix, Uncompressed, BehindPrefix;
    if Countable(frags) {
      RunShort(frags);
    } else if Run(frags).Returns? && Run(frags).value.Succeeds? {
      RunSucceeds(frags, Run(frags).value.out);
    }
  }

  /** How a run on a flat buffer ends. */
  ghost predicate EndsFlat(c: seq<byte>, e: Ending<bool>) {
    && (e == Returns(true) <==> Uncompressed(c).Succeeds? && |c| - Prefix(c).used < MODULUS)
    && (Uncompressed(c).Succeeds? && |c| - Prefix(c).used >= MODULUS ==> e == Endless)
    && (|c| < MODULUS ==> e == Returns(Uncompressed(c).Succeeds?))
  }

  lemma FlatEnds(c: seq<byte>, e: Ending<bool>)
    requires match Run(OneRegion(c))
             case Endless => e == Endless
             case Returns(r) => e == Returns(r.Succeeds?)
    ensures EndsFlat(c, e)
  {
    hide Run, Prefix, Replay, OneRegion, AllShort;
    if Prefix(c).Accepted? {
      FlatBehindPrefix(c);
      FlatShort(c[Prefix(c).used..]);
    }
    RunMeans(OneRegion(c));
    if Uncompressed(c).Succeeds? {
      RunFlat(c);
    }
  }

  lemma FlatShort(c: seq<byte>)
    ensures AllShort(OneRegion(c)) <==> |c| < MODULUS
  {
  }

  /** IsValidCompressedBuffer: accepts exactly what decompression accepts. */
  method IsValidCompressedBuffer(compressed: seq<byte>) returns (e: Ending<bool>)
    ensures EndsFlat(compressed, e)
    ensures e.Endless? <==> Run(OneRegion(compressed)).Endless?
  {
    hide Decode, Prefix, BehindPrefix;
    var reader := new Source.Flat(compressed);
    var v := new Validator();
    var d := new Decompressor(reader);
    var p := d.ReadUncompressedLength();
    e := Returns(false);
    if p.Rejected? || p.v > 0xffff_ffff {
      d.Close();
    } else {
      v.SetExpectedLength(p.v);
      e := Internal(d, Counting(v));
    }
    FlatEnds(compressed, e);
  }

  /**
   * Uncompress into a string: the length is first parsed by the stricter parser, so that a stream
   * whose fifth length byte is 16 or more is refused although decompression would accept it.
   */
  method Uncompress(compressed: seq<byte>, wide: bool) returns (e: Ending<bool>, out: seq<byte>)
    ensures if Prefix(compressed).Accepted? && Prefix(compressed).used == 5 && compressed[4] >= 16
            then e == Returns(false) else EndsFlat(compressed, e)
    ensures e == Returns(true) ==> Uncompressed(compressed) == Succeeds(out)
    ensures e == Returns(true) ==> SnappyElements.StandsFor(compressed, out)
  {
    hide Run, Prefix, BehindPrefix, SnappyElements.StandsFor;
    out := [];
    var p := Parse32WithLimit(compressed);
    if p.Rejected? {
      return Returns(false), [];
    }
    var mem := new byte[p.v];
    var reader := new Source.Flat(compressed);
    e := RawUncompress(reader, mem, 0, wide);
    out := mem[..];
    FlatEnds(compressed, e);
    if e == Returns(true) {
      RunSucceeds(OneRegion(compressed), Run(OneRegion(compressed)).value.out);
      SnappyElements.UncompressedExactly(compressed, out);
    }
  }
}
