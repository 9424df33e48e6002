# LZO and Snappy, modelled and proved

This project models the two LZ77 codec families of the repository, their compressors, decompressors
and the programs built on them, and proves that they fit together:

- **LZO1X-1** (`lzo/minilzo/minilzo.c`): the block compressor with its back-patched literal counts, the
  goto decoder in its checked and unchecked builds, in-place decompression and overlapping compression.
- **overlap.c, lzopack.c and Adler-32**: the one-buffer program, and the container of compressed and
  stored blocks with its checksum.
- **LZO1 and LZO1A**: the tiered literal runs and the R1 codes that re-mark a match.
- **Snappy** (`snappy/`): the block compressor with its overshooting stores, the resumable decoder, the
  two writers behind it, sources, sinks, the length prefix and the match-length scan.

`Lz77.CopyBack` is the common meaning of a match: bytes are appended one at a time, each read a fixed
distance back, so that a copy may overlap itself. For each codec there is

1. a *format*: what a list of literals and matches is coded as, and what it stands for;
2. a *reference decoder* on byte sequences, and a proof that it inverts the format;
3. a *parse*: what the match finder makes of an input, for any hash, with a proof that it replays the input;
4. *methods* over arrays, loop by loop as in the C and C++ code, proved to compute 1 to 3;
5. the *whole format*, byte by byte, as lists of instructions of every form, those included that the
   compressor never writes, and a proof that the decoder accepts exactly the bytes of such lists;
6. what the match finder *finds*: the first agreeing candidate, no match that could be longer, and bounds on
   what repetitions are compressed to.

The main results:

- What each decoder accepts, as an if-and-only-if over all inputs: `Lzo1xProgram.AcceptsExactly` (all five codes of
  a match, every literal form, any end mark, for the checked build below the limit given below),
  `Lzo1Program.AcceptsExactly` (LZO1 and LZO1A, R1 codes included) and `SnappyElements.UncompressedExactly` (literals
  with up to four length bytes, copies with one, two or four bytes of distance). The error statuses of LZO1X follow
  from the bytes as well (`Lzo1xProgram.CopyDoes`, `RunDoes`, `FirstDoes`, `EndReads`, `EndMissing`, `LengthCut`).
- What the compressors find, for any hash: `Lzo1xGreedy.SearchFirst`, `Lzo1Greedy.SearchFirst` and
  `SnappyGreedy.SearchFirst` say that no scan passes an agreeing candidate, the lemmas named `MatchMaximal` that no
  match could have gone on, `Lzo1xProgram.ChosenIsShortest`, `SnappyGreedy.ShortCopyShortest` and `LiteralShortest`
  that no shorter code was to be had, and the lemmas named `UniformCompressed` bound the compressed form of equal bytes.
- `LzoPack.DoCompress` writes, for a build that clears its dictionary, the one container that the contents have:
  every block but the last of the block size, and compressed exactly if that is shorter (`LzoPack.OneContainer`).
  `Adler32.AdlerClosed` gives the checksum as two sums modulo 65521.
- Every input comes back from its compressed form: `Lzo1xParse.RoundTrip` (both decoder builds, any
  initial dictionary in the build that does not clear it), `Lzo1Parse.RoundTrip`, and for Snappy
  `SnappyParse.RoundTripExactly`: as one flat buffer an input comes back exactly when both it and the
  blocks of its compressed form have fewer than 2^32 bytes. If only the input has, decompression never
  ends; `SnappyLimit.NeverComesBack` gives such an input for every hash, and `SnappyParse.RoundTripFrom`
  the condition for a source of any regions.
- The Snappy decoder counts buffered and copied bytes in 32 bits. `SnappyReader.RunSucceeds` says when that
  is enough, for every source: a run returns an output exactly when the bytes stand for it and every region
  behind the length prefix has fewer than 2^32 bytes. Then the fragments make no difference
  (`SnappyReader.RunShort`), and `SnappyReader.RunFlat` tells the flat buffers on which the run never ends.
  The validator accepts exactly what decompression accepts.
- The checked LZO1X decoder stays inside its output area on every input of `n` bytes if and only if
  0 < `n` < `Limit(word, wide)`, given room for four bytes (`Lzo1xSafe.AreaExactly`, which also says what less
  room changes). With 32-bit words the limit is 16843011 for builds that copy literals by one or four bytes and
  16843012 for those that copy eight; from there on a length can wrap and pass both overrun tests. Below it
  `Lzo1xDecompress.Decompress` writes nothing outside the area even when the regions overlap in any way.
- What the checked LZO1X decoder accepts, the unchecked one decodes alike (`Lzo1xSafe.SafeImpliesUnchecked`).
- One buffer is enough: `Overlap.DoFile` and `LzoPack.PackThenUnpack` run the in-place and overlapping
  calls on a single array and always succeed, whether a build copies one, four or eight bytes at a time.
- `LzoPack.DoDecompress` returns 0 only for a file that is a header, blocks that are stored or accepted with
  the length they announce, an end mark and the right checksum, and then has written their contents; and it
  returns 0 for every such file in which no block runs into its own input when it is decoded in place. Every other
  exit code is told by the first thing in the file that is wrong.
- Size bounds hold for every suffix of a stream and for every store, overshoots included.

LZO1X memory is one `array<byte>` in which input and output are regions, so that "in place" is only a
choice of regions. Bytes are integers below 256; the bit fields of the code are written with `/`, `%`
and sums of disjoint fields. Indices stand for pointers. Hash functions, the contents of a dictionary
that is not cleared, the bytes found behind an input and the fragments of a source are parameters, and so is
the number of values of an `lzo_uint`, at least 2^32. `size_t` is taken to have 64 bits where Snappy narrows it.
A loop that C would never leave is recognised by a turn that changes nothing; `SnappyReader.StuckForEver`
shows that these are exactly the loops without an end.

Where the code and a comment or a promise differ, the code is followed. `Varint::Parse32WithLimit`
refuses a fifth length byte of 16 or more that the streaming reader accepts, so that `Uncompress` is
stricter than `RawUncompress`; `SnappyDecompress.Uncompress` gives the condition. `Compress` takes a
`size_t` of input but writes 32 bits of its length, and the decoder keeps a region's length in 32 bits; the
limits above follow. lzo/doc/LZO.FAQ:86-87 promises that the checked LZO1X decoder catches every violation;
that it stays inside its output area is proved below the limit above. It is false from there on, and on an
empty input, since the code decodes what lies behind it and may store that out of the area. lzo/minilzo/minilzo.c:4552
asserts that the length field of an end mark is 1; assertions are taken to be compiled out, and other values are
accepted.

## Model

| member | source | states |
|---|---|---|
| Lz77.CopyBackRepeats | lzo/minilzo/minilzo.c:4518-4521 | a byte-by-byte copy from behind, overlapping or not, gives the only extension that repeats at its distance |
| Lz77.CopyBackSplit | snappy/snappy.cc:215-231 | two copies from the same distance are one longer copy |
| Lz77.CopyBackWide | lzo/minilzo/minilzo.c:4478-4497 | as many bytes as the distance may be loaded before the first of them is stored: none is read after it was written |
| Lz77.CommonIsLongest | snappy/snappy-internal.h:73-81 | everything before the end of the common prefix agrees and the end, if before the limit, does not |
| Lzo1xDecoder.ScanMeans | lzo/minilzo/minilzo.c:4209-4219 | an extended length is 255 for every zero byte passed and the byte that ends them, modulo the word, also where the scan starts behind the input and goes on there |
| Lzo1xDecoder.CountsPlain | lzo/minilzo/minilzo.c:4222-4267 | as long as no length wraps, the copies of one, four and eight bytes take the same number of bytes |
| Lzo1xFormat.MatchReads | lzo/minilzo/minilzo.c:3384-3443 | a match as the compressor codes it, in any of its forms, reads back as the same distance and length, with the literal count two bytes before its end |
| Lzo1xFormat.ScanExtension | lzo/minilzo/minilzo.c:3404-3417 | a length written as zero bytes and a rest reads back as that length |
| Lzo1xFormat.DraftPatch | lzo/minilzo/minilzo.c:3249 | adding the run length to the last byte but one turns what was written into the code with that run announced, and never overflows the byte |
| Lzo1xFormat.DraftRest | lzo/minilzo/minilzo.c:3247-3256 | the stream written with back-patching is the stream specified with one match of lookahead |
| Lzo1xFormat.EncodeRestLength | lzo/minilzo/minilzo.c:3242-3444 | every suffix of a stream is at most a sixteenth and 4 bytes longer than what it produces |
| Lzo1xRoundTrip.DecodeEncode | lzo/minilzo/minilzo.c:4194-4299 | the coding of any valid segment list decodes to its meaning in both builds, and in one buffer the write index stays two bytes behind the read index in every state |
| Lzo1xRoundTrip.MatchStep | lzo/minilzo/minilzo.c:4299-4522 | a coded match is copied in every mode of the decoder, whatever preceded it |
| Lzo1xRoundTrip.RestYields | lzo/examples/overlap.c:217-234 | from behind any match, what is left of the stream replays what is left of the input and stays clear of unread bytes |
| Lzo1xRoundTrip.DecodeLone | lzo/minilzo/minilzo.c:3485-3486 | a stream of one literal run of 1 to 238 bytes with its one-byte header decodes to the run |
| Lzo1xSafe.SafeImpliesUnchecked | lzo/minilzo/minilzo.c:4145-4574 | when the checked decoder returns LZO_E_OK the unchecked one returns the same status and bytes |
| Lzo1xSafe.ScanFits | lzo/minilzo/minilzo.c:4357-4367 | a length is the sum of the bytes passed as long as that sum is a word, and a word less behind one wrap |
| Lzo1xSafe.HeaderInside | lzo/minilzo/minilzo.c:4356-4442 | behind the first two bytes of an input below the limit for matches no match has a length that wraps |
| Lzo1xSafe.LengthFits | lzo/minilzo/minilzo.c:4209-4222 | below the limit a literal run whose length wraps starts at the very end of the input, where NEED_IP stops it |
| Lzo1xSafe.SafeWithinArea | lzo/minilzo/minilzo.c:4083-4107 | on every input that is not empty and below the limit the checked decoder stops with a status and its output fits the area, for words of any width from 32 bits on |
| Lzo1xSafe.RunWrapsOut | lzo/minilzo/minilzo.c:4209-4267 | in builds that copy literals by one or four bytes, for every length from their limit on there is an input on which NEED_OP and NEED_IP pass a wrapped length and the run leaves any output area |
| Lzo1xSafe.MatchWrapsOut | lzo/minilzo/minilzo.c:4476-4522 | in every build, for every length from the limit for matches on and any room at all, there is an input on which a wrapped match closer than eight bytes leaves the output area |
| Lzo1xSafe.EmptyRunsOn | lzo/minilzo/minilzo.c:4194-4201 | with an input of no bytes and room for four, bytes may lie behind it that are decoded to a run and a match of wrapped length, which is stored out of the area |
| Lzo1xSafe.AreaExactly | lzo/minilzo/minilzo.c:4083-4102 | for every build, all inputs of n bytes stay inside the area if and only if n is below the limit of the build, or no match can be copied for lack of any room, and n is not zero unless there is room for less than four bytes |
| Lzo1xSafe.PastEndDoomed | lzo/minilzo/minilzo.c:4551-4555 | an instruction that starts at or behind the end of the input can never lead to LZO_E_OK |
| Lzo1xProgram.LengthIsExtension | lzo/minilzo/minilzo.c:3404-3417 | a length n is (n - 1) / 255 zero bytes and one of (n - 1) % 255 + 1 |
| Lzo1xProgram.CopyReads | lzo/minilzo/minilzo.c:4299-4466 | each of the five codes of a match, of two and three bytes by modes and of any length by markers, in every mode where it may stand, reads as its distance, length and literal count |
| Lzo1xProgram.CopyDoes | lzo/minilzo/minilzo.c:4083-4107 | what it then does: a lookbehind overrun if so many bytes are not there, an output overrun if there is no room, then its literals likewise with an input overrun, and otherwise the copy and the literals |
| Lzo1xProgram.RunDoes | lzo/minilzo/minilzo.c:4206-4267 | the code of a run of n literals gives an output overrun without room for n bytes, an input overrun without n + 1 bytes behind it, and otherwise the literals |
| Lzo1xProgram.FirstDoes | lzo/minilzo/minilzo.c:4194-4202 | a first byte of 18 to 255 stands for so many literals less 17, and with fewer than four of them a two-byte match may follow; up to 17 it is an instruction |
| Lzo1xProgram.EndReads | lzo/minilzo/minilzo.c:4551-4555 | the end mark gives LZO_E_OK if nothing is left and LZO_E_INPUT_NOT_CONSUMED otherwise |
| Lzo1xProgram.EndMissing | lzo/minilzo/minilzo.c:4543-4549 | LZO_E_EOF_NOT_FOUND where the input ends between instructions, or one byte behind short literals |
| Lzo1xProgram.LengthCut | lzo/minilzo/minilzo.c:4357-4367 | an input overrun where the input ends inside an extended length |
| Lzo1xProgram.ProgramDecodes | lzo/minilzo/minilzo.c:4145-4574 | the bytes of every legal program, with matches of every form, are decoded to its meaning, or end in an output overrun if that has no room |
| Lzo1xProgram.ProgramFound | lzo/minilzo/minilzo.c:4145-4574 | and whatever is decoded with LZO_E_OK is the bytes of a legal program |
| Lzo1xProgram.AcceptsExactly | lzo/minilzo/minilzo.c:4145-4574 | below the limit of the build, the checked decoder returns LZO_E_OK and x if and only if the input is a legal program, spelled out byte by byte, whose meaning x fits the area |
| Lzo1xProgram.MatchCodeIs | lzo/minilzo/minilzo.c:3384-3443 | the compressor codes a match of up to 8 bytes and 2048 back in two bytes, up to 16384 back behind a marker of 32, farther behind one of 16 |
| Lzo1xProgram.ChosenIsShortest | lzo/minilzo/minilzo.c:3387-3419 | no form that can carry a match is shorter than the one chosen |
| Lzo1xProgram.LiteralsAre | lzo/minilzo/minilzo.c:3244-3308 | up to three literals are written as they are, more of them behind their count |
| Lzo1xParse.HashFits | lzo/minilzo/minilzo.c:2794 | the hash of the library is an index into the dictionary, so that masking it changes nothing |
| Lzo1xParse.MatchRepeats | lzo/minilzo/minilzo.c:3311-3383 | a match, extended word by word, repeats the earlier bytes for its whole length |
| Lzo1xParse.ParseFromMeans | lzo/minilzo/minilzo.c:3182-3448 | whatever the hash does and the dictionary held, the segments of a block replay the input from the first pending literal |
| Lzo1xParse.ParseBlocksMeans | lzo/minilzo/minilzo.c:3461-3478 | literals carried over block boundaries are neither lost nor repeated, and the first run has at least four of them |
| Lzo1xParse.CompressedLength | lzo/minilzo/minilzo.c:3451-3518 | at most n + n/16 + 4 bytes |
| Lzo1xParse.RoundTrip | lzo/minilzo/minilzo.c:3451-3518 | both decoder builds return LZO_E_OK and the input, and in one buffer with n/16 + 6 spare bytes nothing is overwritten before it is read |
| Lzo1xGreedy.LookupExactly | lzo/minilzo/minilzo.c:3186-3240 | the deterministic build compares with what one slot names; the other goes on to a second slot exactly if the first names a position within 49151 bytes that is more than 2048 back and differs in its fourth byte |
| Lzo1xGreedy.SearchFirst | lzo/minilzo/minilzo.c:3186-3240 | the scan stops at the first position visited, a step more for every 32 bytes passed, whose candidate agrees in four bytes, and misses only if there is none before the limit |
| Lzo1xGreedy.EntryLatest | lzo/minilzo/minilzo.c:3236 | a slot holds the latest position that was entered in it |
| Lzo1xGreedy.RepetitionFound | lzo/minilzo/minilzo.c:3233-3238 | in the deterministic build four bytes passed before are found again unless other bytes took their slot in between |
| Lzo1xGreedy.MatchMaximal | lzo/minilzo/minilzo.c:3311-3383 | a match ends only before a byte that differs, or within a word behind the limit |
| Lzo1xGreedy.UniformExactly | lzo/minilzo/minilzo.c:3178-3240 | up to 49152 equal bytes: with 25 or fewer no match, otherwise one, at the sixth byte and five back, that reaches into the last 20 bytes |
| Lzo1xGreedy.UniformCompressed | lzo/minilzo/minilzo.c:3451-3518 | n equal bytes are compressed to at most n/200 + 58 bytes, and to n/255 + 36 in one block, in every build, for any hash and any initial dictionary |
| Lzo1xGreedy.ShortIsLiteral | lzo/minilzo/minilzo.c:3461 | up to 20 bytes become one literal run behind a byte, and the end mark |
| Lzo1xGreedy.CompressedSpells | lzo/minilzo/minilzo.c:3451-3518 | what is written is a legal program of the format that means the input |
| Lzo1xCompress.Put | lzo/minilzo/minilzo.c:3260 | a store keeps everything written so far, and every input byte that is still needed |
| Lzo1xCompress.WideCopy | lzo/minilzo/minilzo.c:3250-3269 | a store of four or eight bytes lands inside the output area and spares pending literals and bytes in reach of a match |
| Lzo1xCompress.PutExtension | lzo/minilzo/minilzo.c:3279-3291 | the loop of zero bytes writes the code of the length |
| Lzo1xCompress.PatchRun | lzo/minilzo/minilzo.c:3247-3256 | patching op[-2] and storing the run gives the stream with one to three literals announced |
| Lzo1xCompress.HeadedRun | lzo/minilzo/minilzo.c:3257-3308 | a run of four or more is written with its header by sixteen-byte stores of which only the wanted part counts |
| Lzo1xCompress.EmitMatch | lzo/minilzo/minilzo.c:3384-3443 | writes the code of the match with no literals announced |
| Lzo1xCompress.Scanning | lzo/minilzo/minilzo.c:3186-3240 | finds exactly the match of the reference scan and leaves the dictionary as it does |
| Words.BigWordsDiffer | lzo/minilzo/minilzo.c:3323-3330 | on big-endian machines the highest bit in which two words differ lies in the first byte in which they differ |
| Words.AgreeingBytes | lzo/minilzo/minilzo.c:3314-3337 | in either byte order the exclusive or of two words tells how many bytes agree |
| Lzo1xCompress.TrailingBytes | lzo/minilzo/minilzo.c:3333-3337 | shifting bytes out at the low end counts those below the lowest set bit |
| Lzo1xCompress.TopBytes | lzo/minilzo/minilzo.c:3326-3330 | shifting bytes out at the high end counts those above the highest set bit, and loses none |
| Lzo1xCompress.Agreeing | lzo/minilzo/minilzo.c:3314-3383 | with either byte order, with and without bit scans, the number of bytes that agree |
| Lzo1xCompress.Extending | lzo/minilzo/minilzo.c:3311-3383 | the word loop finds the length of the reference |
| Lzo1xCompress.DoCompress | lzo/minilzo/minilzo.c:3166-3449 | one block adds the code of its parse to what earlier blocks wrote and returns where the pending literals start |
| Lzo1xCompress.FinishStream | lzo/minilzo/minilzo.c:3479-3518 | the four ways to write the last literals, and the end mark, complete the stream |
| Lzo1xCompress.Compress | lzo/minilzo/minilzo.c:3451-3518 | with separate buffers, or overlapping with min(0xbfff, n) + n/16 + 67 bytes of headroom, the same function of the input is written, of which Lzo1xGreedy says what it finds, and nothing outside n + n/16 + 67 output bytes changes |
| Lzo1xDecompress.CopyUnits | lzo/minilzo/minilzo.c:4223-4262 | loading eight, four or one bytes before storing them appends the literals and keeps the input behind them, also when source and destination overlap |
| Lzo1xDecompress.CopyLiterals | lzo/minilzo/minilzo.c:4223-4267 | whichever units the build copies in, appends the literals and keeps the input that is still to be read |
| Lzo1xDecompress.CopyBackUnits | lzo/minilzo/minilzo.c:4478-4516 | units no longer than the distance give the byte-by-byte copy inside the one memory |
| Lzo1xDecompress.CopyBytes | lzo/minilzo/minilzo.c:4476-4522 | in any units, the overlapping copy is the reference copy and keeps the unread input |
| Lzo1xDecompress.Lengthen | lzo/minilzo/minilzo.c:4357-4367 | reads from what is in memory the length of the reference, modulo the word, or finds the input short |
| Lzo1xDecompress.Fields | lzo/minilzo/minilzo.c:4299-4441 | reads from what is in memory the distance, length and next position of the reference, or the end mark |
| Lzo1xDecompress.HeaderAlike | lzo/minilzo/minilzo.c:4299-4441 | what a match says depends on the input from its fields on alone, so that earlier bytes may have been overwritten |
| Lzo1xDecompress.RunFits | lzo/minilzo/minilzo.c:4222 | what passes NEED_OP and NEED_IP fits both regions with a byte to spare, unless a length wraps behind which there is input |
| Lzo1xDecompress.MatchCopy | lzo/minilzo/minilzo.c:4476-4542 | the copy and the late read of ip[-2] do what the reference does with the unspoilt input |
| Lzo1xDecompress.GuardedSound | lzo/minilzo/minilzo.c:4145-4202 | on separate regions every input that is not empty and below the limit meets what Decompress asks for |
| Lzo1xDecompress.Decompress | lzo/minilzo/minilzo.c:4145-4574 | the checked build writes nothing outside its area on any input below the limit and any regions; when the regions do not interfere both builds return the status, length and bytes of the reference, errors included, and the checked one LZO_E_OK exactly for a legal program with the output as its meaning |
| Overlap.Decodes | lzo/examples/overlap.c:217-234 | a compressed block in separate regions, or at the top of a buffer n/16 + 6 bytes larger than the output, satisfies what decompression needs and decodes to the input |
| Overlap.EnoughOverhead | lzo/examples/overlap.c:60-70 | n/16 + 6 spare bytes keep the decoder clear of its unread input on everything that the compressor writes |
| Overlap.ClearSound | lzo/examples/overlap.c:206-234 | in any regions in which the run stays clear the call is sound, and the input comes back |
| Overlap.Verify | lzo/examples/overlap.c:187-234 | decompression of what the compressor wrote returns LZO_E_OK, the length and the bytes, in separate regions or in any on which the run stays clear |
| Overlap.DoFile | lzo/examples/overlap.c:92-253 | every step succeeds and verifies, within one buffer for steps 4 and 5, with any overhead on which the run stays clear; with a cleared dictionary both compressions give the same bytes |
| Adler32.AdlerAppend | lzo/minilzo/minilzo.c:2401-2430 | the checksum of a concatenation is the second checksum continued from the first |
| Adler32.NoOverflow | lzo/minilzo/minilzo.c:2392-2427 | 5552 bytes without reduction stay below 2^32 even from sums of 65535 |
| Adler32.RawReduces | lzo/minilzo/minilzo.c:2411-2428 | reducing once behind a chunk equals reducing at every byte, as in section 8.2 of RFC 1950 |
| Adler32.AdlerClosed | lzo/minilzo/minilzo.c:2411-2430 | for n > 0 bytes and the halves a, b of the start value, the low half is (a + the sum of the bytes) % 65521, the high half (b + n * a + the sum in which the first byte counts n times and the last once) % 65521 |
| Adler32.Chunk | lzo/minilzo/minilzo.c:2415-2425 | the sixteen-fold and single loops compute the unreduced sums in 32 bits |
| Adler32.LzoAdler32 | lzo/minilzo/minilzo.c:2401-2430 | the result is the bytewise definition, and has that closed form, for any start value and buffer |
| LzoPack.File.Read | lzo/examples/lzopack.c:79-96 | reads as much as there is, up to the length asked for |
| LzoPack.Be32RoundTrip | lzo/examples/lzopack.c:125-147 | xread32 inverts xwrite32 |
| LzoPack.Be32Inverse | lzo/examples/lzopack.c:125-147 | and xwrite32 inverts xread32 |
| LzoPack.Be32Is | lzo/examples/lzopack.c:125-147 | in either direction the byte of the highest value comes first |
| LzoPack.PackBlock | lzo/examples/lzopack.c:222-249 | the branch that should never happen is never taken, and what is written is the block of the bytes read, compressed by this build from the dictionary found if and only if that is shorter |
| LzoPack.DoCompress | lzo/examples/lzopack.c:162-265 | returns 0 and writes a container of what was left to read, cut into blocks of the given size but for the last; a deterministic build writes the one container that the contents have |
| LzoPack.ChopAt | lzo/examples/lzopack.c:207-212 | there are as many blocks as begin inside the contents, each takes up where the one before it ends, and all but the last have the block size |
| LzoPack.OneContainer | lzo/examples/lzopack.c:162-265 | a deterministic build writes the magic bytes, flags 1, method 1, level and block size, then for each block two lengths and the compressed form if it is shorter and the block itself if not, four zeros and the checksum |
| LzoPack.HeaderMeans | lzo/examples/lzopack.c:292-316 | the codes 1, 2 and 3, acceptance and the end of the program, each if and only if the bytes of the header are such; block sizes from 1024 to 8388608 are accepted |
| LzoPack.ReadHeader | lzo/examples/lzopack.c:292-316 | the exit code, or the end of the program, is decided by the first 17 bytes alone |
| LzoPack.ContainerStarts | lzo/examples/lzopack.c:180-185 | the header of every container is accepted and its block size read back |
| LzoPack.BodySure | lzo/examples/lzopack.c:199-249 | the blocks that the compressor writes are stored, or decoded in place on any machine without running into their own input |
| LzoPack.ContainerConsists | lzo/examples/lzopack.c:162-265 | every container is a file that is unpacked, and holds what was packed |
| LzoPack.UnpackInPlace | lzo/examples/lzopack.c:360-379 | a payload that can be decoded in place to the announced length is; any other passes only with the announced length and, if decoding does not run into it, if the checked decoder accepts it, and is refused only if it does not |
| LzoPack.UnpackBlock | lzo/examples/lzopack.c:348-393 | a block that is stored or can be decoded in place passes the checks and its contents end up in the buffer; what passes is a length, a payload of that length, and contents that are the payload or decoded from it; the program ends for a cut file, 5 is returned for lengths out of order, 6 for data in error, and for nothing else |
| LzoPack.DoDecompress | lzo/examples/lzopack.c:275-412 | on any file, 0 means that it consists of a good header, accepted blocks, the end mark and, if the flags ask for it, the checksum of their contents, which are what was written; conversely, for any such file whose blocks are stored or decoded clear of their own input, 0 is returned, the contents are written and the rest of the file is left; any other end is that of the header, of the first block that fails or of a checksum that is cut off or differs (7), and the blocks before it have been written |
| LzoPack.PackThenUnpack | lzo/examples/lzopack.c:162-412 | any contents and any block size from 1024 to 8 MiB come back, with exit code 0 |
| Lzo1Format.Tier | lzo/src/lzo1.c:297-315 | for any run of 280 or more, the piece cut off is the largest of the eight sizes that is no longer than the run |
| Lzo1Format.RunCode | lzo/src/lzo1.c:292-331 | the code of a run is at least as long as the run and at most n/32 + 1 bytes longer |
| Lzo1Format.DraftLength | lzo/src/lzo1a.c:337-400 | what is written up to any match is at most a thirty-second longer than what it stands for |
| Lzo1Decoder.RunReads | lzo/src/lzo1.c:225-252 | the pieces of any literal run, however many tiers it takes, are decoded to exactly the run |
| Lzo1Decoder.MatchReads | lzo/src/lzo1.c:253-272 | a coded match, short or long, is copied in both decoding contexts |
| Lzo1Decoder.R1Reads | lzo/src/lzo1a.c:189-204 | in the after-literal context an R1 code yields its three bytes and its literal, and the context stays |
| Lzo1Decoder.RemarkedReads | lzo/src/lzo1a.c:342-363 | wherever the compressor re-marks a match, the decoder reaches that match in its after-literal context |
| Lzo1Decoder.DecodeEncode | lzo/src/lzo1.c:207-280 | the coding of any tiling of an input decodes to the input, with and without R1 codes |
| Lzo1Program.OpDoes | lzo/src/lzo1a.c:155-241 | every literal run, short, long or of one of the eight sizes from 280 to 32768, every match and every R1 code is decoded as what its bytes say, in each context in which it may stand |
| Lzo1Program.OpFound | lzo/src/lzo1a.c:155-241 | whatever step stays inside the input has decoded one of these |
| Lzo1Program.AcceptsExactly | lzo/src/lzo1a.c:138-248 | decompression returns LZO_E_OK and x if and only if the input is a legal list of these instructions, spelled out byte by byte, that means x |
| Lzo1Parse.HashFits | lzo/src/lzo1.c:159-160 | the two hashes of the library for lookups are indices below 8192, so that masking changes nothing, and never the same |
| Lzo1Parse.Lookup | lzo/src/lzo1.c:383-395 | a candidate that is accepted lies before the position, within 8192 bytes, and agrees in three bytes |
| Lzo1Parse.MatchLength | lzo/src/lzo1.c:431-527 | 3 to 264 bytes, never into the last three bytes of the input |
| Lzo1Parse.MatchRepeats | lzo/src/lzo1.c:431-527 | the match repeats the earlier bytes for its whole length |
| Lzo1Parse.ParseFromTiles | lzo/src/lzo1.c:379-578 | whatever the hashes do and the dictionary held, literals and matches tile the input |
| Lzo1Parse.CompressedLength | lzo/src/lzo1.c:611-633 | at most n + n/32 + 1 bytes |
| Lzo1Parse.RoundTrip | lzo/src/lzo1a.c:606-655 | every input, compressed by LZO1 or LZO1A, is decompressed with LZO_E_OK to itself |
| Lzo1Greedy.LookupExactly | lzo/src/lzo1.c:383-395 | what agrees in three bytes is found in the first slot, or in the second if the first names a position within 8192 bytes that differs |
| Lzo1Greedy.SearchFirst | lzo/src/lzo1.c:379-405 | no position is passed over: the scan stops at the first whose lookup finds three equal bytes, and misses only if there is none up to the last twelve bytes |
| Lzo1Greedy.MatchMaximal | lzo/src/lzo1.c:431-527 | a match ends only before a byte that differs, three bytes before the end of the input, or at 264 bytes |
| Lzo1Greedy.SingleLiteralCost | lzo/src/lzo1a.c:342-363 | in LZO1A a single literal costs one byte behind a three-byte match that follows 1 to 279 literals, and two in LZO1 or behind a longer match |
| Lzo1Greedy.FirstIsEntered | lzo/src/lzo1.c:374-377 | the first position is entered before the scan starts at the second, and found there if its bytes repeat |
| Lzo1Greedy.UniformCompressed | lzo/src/lzo1.c:611-633 | n equal bytes are compressed to at most n/88 + 19 bytes, for any hashes and any initial dictionary |
| Lzo1Greedy.ShortIsRun | lzo/src/lzo1.c:619-628 | up to 13 bytes become one literal run |
| Lzo1Compress.StoreRun | lzo/src/lzo1.c:292-331 | the loops from 32768 down to 512, then 280, then the rest, write the code of the run |
| Lzo1Compress.R1Distance | lzo/src/lzo1a.c:342-354 | the distance to the R1 pointer is four exactly when one literal follows a three-byte match that may be re-marked |
| Lzo1Compress.Remark | lzo/src/lzo1a.c:355-362 | clearing the length bits in place and adding the literal gives the stream with the R1 code |
| Lzo1Compress.EmitLiterals | lzo/src/lzo1a.c:337-400 | the pending literals are written in the form that the format asks for, and the R1 pointer is moved exactly then |
| Lzo1Compress.Scanning | lzo/src/lzo1.c:379-405 | finds exactly the match of the reference scan and leaves the dictionary as it does |
| Lzo1Compress.Extending | lzo/src/lzo1.c:431-527 | the six comparisons and the bounded loop find the length of the reference |
| Lzo1Compress.DoCompress | lzo/src/lzo1.c:343-580 | writes the code of the parse up to the last match |
| Lzo1Compress.Compress | lzo/src/lzo1.c:611-633 | the bytes written are the compressed form of the input, always fit n + n/32 + 1 bytes, and no store goes behind them |
| Lzo1Decompress.CopyMatch | lzo/src/lzo1.c:266-271 | the unrolled copy in the output array is the reference copy |
| Lzo1Decompress.Turn | lzo/src/lzo1a.c:155-241 | one marker does what one step of the reference does, in either context |
| Lzo1Decompress.Decompress | lzo/src/lzo1a.c:138-248 | where no match reaches before the output, status, length and bytes are those of the reference, LZO_E_OK exactly for a legal instruction list that means the output, and no store goes behind them |
| Lzo1Decompress.CompressThenDecompress | lzo/src/lzo1.c:207-633 | what is compressed comes back with LZO_E_OK |
| SnappyVarint.PrefixMeans | snappy/snappy.cc:686-705 | the streaming reader accepts exactly one to five bytes of which only the last is below 128, and gives their value modulo 2^32 |
| SnappyVarint.EncodedReads | snappy/snappy-stubs-internal.h:437-463 | every 32-bit number reads back from its code, whatever follows, using exactly its bytes |
| SnappyVarint.Encode32 | snappy/snappy-stubs-internal.h:437-463 | writes the code of the number and touches no other byte |
| SnappyVarint.Parse32WithLimit | snappy/snappy-stubs-internal.h:415-435 | accepts what the streaming reader accepts, with the same value and length, unless a fifth byte is 16 or more |
| SnappyMatch.Log2Floor | snappy/snappy-stubs-internal.h:349-364 | the five shifts find the highest set bit: the power of two at or below the number |
| SnappyMatch.UpperBits | snappy/snappy.cc:337-338 | a shift to the right leaves the upper bits, and all ones if all were set |
| SnappyMatch.ShiftLowBit | snappy/snappy-stubs-internal.h:369-374 | a 32-bit shift moves the lowest set bit up, or leaves zero exactly when it falls out |
| SnappyMatch.FindLSBSetNonZero | snappy/snappy-stubs-internal.h:366-377 | the five halvings find the lowest set bit |
| SnappyMatch.FindLSBSetNonZero64 | snappy/snappy-stubs-internal.h:380-388 | so do the two halves of 64 bits |
| Words.WordsDiffer | snappy/snappy-internal.h:99-106 | the lowest bit in which two words differ lies in the first byte in which they differ |
| SnappyMatch.FindMatchLength64 | snappy/snappy-internal.h:84-119 | the longest common prefix within the limit, also when the two regions overlap |
| SnappyMatch.FindMatchLength32 | snappy/snappy-internal.h:121-144 | the same, on little-endian and on big-endian machines |
| SnappySource.Source.Available | snappy/snappy-sinksource.cc:45 | the number of bytes left |
| SnappySource.Source.Peek | snappy/snappy-sinksource.cc:47-50 | the next region: a prefix of what is left, empty only at the end |
| SnappySource.Source.Skip | snappy/snappy-sinksource.cc:52-55 | passes so many bytes, across fragment boundaries, and leaves the other fragments as they are |
| SnappySource.DroppedTwice | snappy/snappy.cc:690-695 | byte by byte the same fragments are left as at once |
| SnappyFormat.LittleEndianRoundTrip | snappy/snappy.cc:184-188 | the length bytes of a long literal give its length back |
| SnappyFormat.LiteralHeadReads | snappy/snappy.cc:155-195 | a literal's tag reads back as its length, whatever follows |
| SnappyFormat.ShortCopyReads | snappy/snappy.cc:197-213 | both forms of a copy read back as their distance and length |
| SnappyFormat.CopyReplays | snappy/snappy.cc:215-231 | a long copy, cut into pieces of 64, 60 and the rest, replays as one copy |
| SnappyFormat.EncodeReplays | snappy/snappy.cc:710-779 | decoding the code of any valid element list replays the elements, whatever follows |
| SnappyFormat.ReplayLiteralSplit | snappy/snappy.cc:744-759 | a literal may be taken in two parts |
| SnappyElements.HeadReads | snappy/snappy.cc:564-613 | the head of a literal with up to four length bytes, and of a copy with one, two or four bytes of distance and any length of the format, reads as what it says, whatever follows |
| SnappyElements.ItemReplays | snappy/snappy.cc:710-779 | each of them is appended if there is room, and fails otherwise |
| SnappyElements.ImpossibleFails | snappy/snappy.cc:1008-1015 | a copy from before the output, or of distance zero, fails |
| SnappyElements.ReplaysExactly | snappy/snappy.cc:710-779 | decoding gives x if and only if the bytes are a legal list of these elements, spelled out byte by byte, that means x and has room |
| SnappyElements.PrefixExactly | snappy/snappy.cc:686-705 | a length prefix is accepted if and only if it has one to five bytes of which the last alone is below 128, and is the sum of their septets modulo 2^32 |
| SnappyElements.UncompressedExactly | snappy/snappy.cc:841-873 | a buffer stands for x if and only if it is such a prefix of the length of x and a legal list that means x |
| SnappyWriters.UnalignedCopy64 | snappy/snappy-stubs-internal.h:193-203 | one eight-byte or two four-byte copies move the bytes before the overlap, and nothing else changes |
| SnappyWriters.IncrementalCopyFastPath | snappy/snappy.cc:141-153 | on the wanted bytes it equals the byte-by-byte copy, and at most ten bytes behind them are overwritten |
| SnappyWriters.IncrementalCopy | snappy/snappy.cc:97-102 | the copy repeats at its distance, and nothing else changes |
| SnappyWriters.CopyWithin | snappy/snappy.cc:1015-1028 | all three ways to copy agree and none writes at or past the limit |
| SnappyWriters.ArrayWriter.Append | snappy/snappy.cc:983-992 | appends, or refuses exactly when there is no room |
| SnappyWriters.ArrayWriter.TryFastAppend | snappy/snappy.cc:994-1006 | appends by one sixteen-byte store inside the area exactly when the literal has at most sixteen bytes and both sides have sixteen; otherwise changes nothing |
| SnappyWriters.ArrayWriter.AppendFromSelf | snappy/snappy.cc:1008-1032 | appends the copy, or refuses exactly when the distance is no earlier byte or there is no room |
| SnappyWriters.Validator.Append | snappy/snappy.cc:1074-1077 | answers as the array writer does, by counting |
| SnappyWriters.Validator.AppendFromSelf | snappy/snappy.cc:1081-1085 | answers as the array writer does, by counting |
| SnappyWriters.Writer.AppendFromSelf | snappy/snappy.cc:455-488 | either writer grows its output by the same copy under the same condition |
| SnappyReader.StuckForEver | snappy/snappy.cc:816-825 | the stitching loop is stuck exactly when there is another turn after any number of turns |
| SnappyReader.RegionOf4GiB | snappy/snappy.cc:819-824 | a region of 2^32 bytes, whose length is 0 in 32 bits, keeps the loop turning for ever |
| SnappyReader.Refill | snappy/snappy.cc:782-839 | a refill that does not fail leaves a complete tag in the buffer, and never more to read than before |
| SnappyReader.StitchEnds | snappy/snappy.cc:816-825 | the loop ends with the tag, at the end of the source, or never, as the reference says |
| SnappyReader.RefillMeans | snappy/snappy.cc:782-839 | the end of the input is told exactly when nothing is buffered and nothing left, a truncated tag only when the source runs out while the tag is stitched, and the endless loop exactly when stitching takes turns for ever |
| SnappyReader.RefillShort | snappy/snappy.cc:782-839 | with regions below 2^32 bytes a refill loses no byte, never hangs, and tells the end of the input from a truncated tag |
| SnappyReader.CopyLiteralShort | snappy/snappy.cc:744-759 | with such regions a literal split over any of them is appended as a whole, or fails as it would in one piece |
| SnappyReader.DecodeShort | snappy/snappy.cc:710-779 | with such regions the run ends and is the replay of the unread bytes |
| SnappyReader.LongStays | snappy/snappy.cc:749-758 | skipping a length kept in 32 bits never uses up a region of 2^32 bytes or more |
| SnappyReader.DecodeLong | snappy/snappy.cc:710-779 | with such a region ahead no run ends in success |
| SnappyReader.LoneDecode | snappy/snappy.cc:782-839 | with such a region alone, what would be decoded successfully is followed by the endless loop, although bytes may have been decoded twice |
| SnappyReader.RunSucceeds | snappy/snappy.cc:841-873 | for any source: a run returns an output if and only if the bytes stand for it and every region behind the prefix is below 2^32 bytes |
| SnappyReader.RunShort | snappy/snappy.cc:841-873 | then the run returns, and depends on the concatenated bytes alone |
| SnappyReader.RunFlat | snappy/snappy.cc:1035-1043 | for any flat buffer that stands for something: its run returns that if fewer than 2^32 bytes follow the prefix, and never returns otherwise |
| SnappyDecompress.Decompressor.Close | snappy/snappy.cc:674-677 | the destructor skips what was peeked at |
| SnappyDecompress.Decompressor.ReadUncompressedLength | snappy/snappy.cc:686-705 | the length and the bytes used do not depend on the fragments, of which the rest is left |
| SnappyDecompress.Decompressor.StitchTag | snappy/snappy.cc:816-825 | the loop, with its minimum of 32-bit numbers, ends as the reference says |
| SnappyDecompress.Decompressor.FinishTag | snappy/snappy.cc:804-837 | the end of RefillTag, with the buffered length cut to 32 bits |
| SnappyDecompress.Decompressor.MaybeRefill | snappy/snappy.cc:719-728 | the fields are those of the reference reader behind a refill, and eof is set exactly at the end of the input |
| SnappyDecompress.Decompressor.CopyBytes | snappy/snappy.cc:744-762 | the loop over regions appends what the reference appends and leaves its reader |
| SnappyDecompress.Decompressor.TakeElement | snappy/snappy.cc:730-777 | one element, the short cut for literals included, as the reference takes it |
| SnappyDecompress.Decompressor.DecompressAllTags | snappy/snappy.cc:710-779 | agrees with the run of the reference on every source, and finds the end of the input exactly when it succeeds |
| SnappyDecompress.Internal | snappy/snappy.cc:841-867 | true exactly when the run succeeds with the announced length, and then the source is used up |
| SnappyDecompress.RawUncompress | snappy/snappy.cc:1035-1043 | true exactly when the bytes stand for something, which SnappyElements.UncompressedExactly spells out, and every region behind the prefix is below 2^32 bytes; with such regions it returns and depends on the bytes alone; nothing outside the announced length is written, however it ends |
| SnappyDecompress.IsValidCompressedBuffer | snappy/snappy.cc:1088-1092 | true, false or without an end exactly as decompression of the buffer |
| SnappyDecompress.Uncompress | snappy/snappy.cc:1045-1057 | false if a fifth length byte is 16 or more, otherwise as decompression, with the same output, which is what the elements of the buffer mean; without an end for buffers of 2^32 bytes or more that stand for something |
| SnappyParse.TableSizeIsPow2 | snappy/snappy.cc:251-255 | the size of a hash table is a power of two between 256 and 16384 |
| SnappyParse.HashFits | snappy/snappy.cc:337-338 | the shift keeps exactly as many bits as the table has, so that the hash of the library is an index and reducing it changes nothing |
| SnappyParse.Search | snappy/snappy.cc:376-396 | a hit agrees in four bytes with a candidate between the start of the block and the position, and every table entry stays before it |
| SnappyParse.FromCovers | snappy/snappy.cc:349-442 | from any pending literal on, the elements replay the rest of the block, fit the format and cost at most n/61 + 1 bytes more |
| SnappyParse.CopiesCover | snappy/snappy.cc:415-438 | so do back-to-back copies, which never cost more than they cover |
| SnappyParse.BlockCovers | snappy/snappy.cc:42-53 | any hash function gives a valid stream for a block |
| SnappyParse.CompressedLength | snappy/snappy.cc:55-77 | at most n + n/6 + 6 bytes, below the bound that callers provide for |
| SnappyParse.BodyReplays | snappy/snappy.cc:887-948 | the blocks of an input, one after the other, replay the input |
| SnappyParse.RoundTrip | snappy/snappy.cc:875-954 | the compressed form of fewer than 2^32 bytes stands for them, whatever the hash |
| SnappyParse.RoundTripFrom | snappy/snappy.cc:841-954 | from any regions it comes back if and only if the input has fewer than 2^32 bytes and so has every region behind the prefix |
| SnappyParse.RoundTripExactly | snappy/snappy.cc:875-881 | as one buffer it comes back if and only if both the input and the blocks have fewer than 2^32 bytes, and never returns if only the input has |
| SnappyParse.RoundTripBelow | snappy/snappy.cc:55-77 | inputs for which n + n/6 + 1 is below 2^32 always come back |
| SnappyGreedy.SearchFirst | snappy/snappy.cc:376-396 | the scan stops at the first position visited whose candidate agrees in four bytes, each step a thirty-second of a skip that grows by one, and misses only when its next step leads past the limit |
| SnappyGreedy.RepetitionFound | snappy/snappy.cc:376-396 | four bytes passed before in a scan are found again unless other bytes took their slot in between |
| SnappyGreedy.BehindEnters | snappy/snappy.cc:426-437 | behind a match its last position and the next are entered, and the candidate is what the slot of the latter named |
| SnappyGreedy.CopiesGoOn | snappy/snappy.cc:431-441 | behind a match a candidate that agrees in four bytes is copied at once, and otherwise a scan starts one byte further |
| SnappyGreedy.CopiesEnd | snappy/snappy.cc:427-449 | a match that ends in the last 15 bytes is followed by nothing but a literal of what is left |
| SnappyGreedy.MatchMaximal | snappy/snappy.cc:419-420 | a match ends only before a byte that differs, or with the block |
| SnappyGreedy.ShortCopyShortest | snappy/snappy.cc:197-213 | no element of the format for the same copy is shorter than the one written |
| SnappyGreedy.LiteralShortest | snappy/snappy.cc:155-195 | nor is one for the same literal |
| SnappyGreedy.CopyCodeLength | snappy/snappy.cc:215-231 | a copy is cut into no more pieces than pieces of 64 bytes need |
| SnappyGreedy.UniformBlock | snappy/snappy.cc:328-452 | a block of 17 equal bytes or more becomes one literal of a byte and one copy of the rest, whatever the hash |
| SnappyGreedy.UniformCompressed | snappy/snappy.cc:875-954 | n equal bytes are compressed to at most n/21 + 22 bytes, whatever the hash |
| SnappyGreedy.TableSizeExactly | snappy/snappy.cc:246-258 | a table has the fewest entries, 256 times a power of two up to 16384, that are as many as the block has bytes |
| SnappyGreedy.CompressedBlocks | snappy/snappy.cc:875-954 | a stream is the length and the code of each 65536 bytes on their own |
| SnappyLimit.BlockGrows | snappy/snappy.cc:328-452 | a block in which no four bytes occur twice becomes one literal behind three bytes, whatever the hash |
| SnappyLimit.NeverComesBack | snappy/snappy.cc:653 | for every hash there is an input of 2^32 - 1 bytes whose compressed form, given back as one buffer, is never uncompressed |
| SnappyCompress.EmitLiteral | snappy/snappy.cc:155-195 | writes the literal's code; the fast path stores past it by no more than sixteen bytes behind the tag |
| SnappyCompress.EmitCopy | snappy/snappy.cc:215-231 | writes the copy's code and nothing else |
| SnappyCompress.ScanForMatch | snappy/snappy.cc:376-396 | finds the hit of the reference scan, with the hash computed one position ahead |
| SnappyCompress.EnterBehind | snappy/snappy.cc:431-437 | enters the last two positions of a match and yields the candidate of the reference |
| SnappyCompress.EmitCopies | snappy/snappy.cc:415-438 | the loop of copies writes what the reference has for them and stops where the next literal starts |
| SnappyCompress.CompressFragment | snappy/snappy.cc:328-452 | writes the code of the block, and no store lies more than n + n/61 + 1 bytes behind its start |
| SnappyStream.WorkingMemory.GetHashTable | snappy/snappy.cc:246-270 | a cleared table of the right size, reused between blocks |
| SnappyStream.Sink.Append | snappy/snappy-sinksource.cc:59-65 | the bytes end up behind what was appended before, copied only if they are not there already |
| SnappyStream.ReadBlock | snappy/snappy.cc:888-922 | the next block is the next bytes of the source, in place or gathered from its fragments |
| SnappyStream.RoomLeft | snappy/snappy.cc:928-944 | after any number of blocks the bound leaves room for the next one and its overshoot |
| SnappyStream.BlockTurn | snappy/snappy.cc:887-948 | a block more of the body is appended and the bound keeps room for the next |
| SnappyStream.CompressBlocks | snappy/snappy.cc:887-948 | appends the blocks of what the source holds, with all stores inside n + n/6 + 1 bytes |
| SnappyStream.Compress | snappy/snappy.cc:875-954 | the compressed form depends on the concatenated bytes alone, and every store lies within 32 + n + n/6 bytes |
| SnappyStream.RawCompress | snappy/snappy.cc:1094-1104 | the same from a flat array to a flat array |
| SnappyStream.CompressThenUncompress | snappy/snappy.cc:875-1057 | any source, in any fragments, through either kind of sink, comes back from Uncompress if and only if it and its blocks are below 2^32 bytes; if only it is, Uncompress never returns |

## Left out

- LZO1B, LZO1C, LZO1F, LZO1Y, LZO1Z and the levels -99 and -999: the files that hold their code (`lzo1b_c.ch`, `lzo_mchw.ch` and others) are not part of this model.
- Lzo1Compress.StoreRun: `lzo1a_cr.ch`, where LZO1A has its own store_run, is not part of this model; the one of LZO1 stands for both.
- Lzo1Compress.DoCompress: compression level 1 and five run bits, the defaults; higher levels enter more positions into the dictionary, and `LZO_RETURN_IF_NOT_COMPRESSIBLE` is off.
- Lzo1Decompress.Decompress: for inputs on which no match reaches before the output, since the code does not check.
- Lzo1xDecompress.Decompress: the unchecked build is modelled on inputs that the reference decodes to an end inside the area.
- Lzo1xSafe.AreaExactly: an output area that ends at the last address is left out.
- Lzo1xCompress.HeadedRun: the builds that store four or eight bytes at once; the others write the same bytes one at a time.
- Lzo1xCompress.Compress: the pointer-wraparound test at lzo/minilzo/minilzo.c:3468-3470, since indices stand for pointers.
- Overlap.DoFile: asks of a user-given overhead, when it is used, that the run on the compressed data stays clear of unread bytes; otherwise the unchecked decoder reads bytes that it has overwritten.
- LzoPack.DoCompress: every level but 9, which calls code that is not part of this model; and without the debug option that fills the work memory; what a build that does not clear its dictionary hands from one block to the next is any dictionary.
- LzoPack.File: a file is a byte sequence; write errors, memory exhaustion and the totals that are printed are left out.
- LzoPack.DoDecompress: a block whose in-place decoding overwrites its own unread bytes is known only to have had the announced length if it is delivered.
- SnappyDecompress.Decompressor.FinishTag: the scratch area holds only the bytes of the tag; that `LittleEndian::Load32` also loads bytes that the mask then drops is not modelled.
- SnappyDecompress.Uncompress: the test against the largest string, and the string's old contents.
- SnappyFormat.TagEntry: states the fields of a tag by formula, as `ComputeTable` fills them; the comparison with the 256 literal entries of `char_table` is left out.
- Lzo1xProgram.AcceptsExactly: for inputs below the limit of the build; from there on lengths can wrap and the decoder may leave its area.
- Lzo1xGreedy.RepetitionFound: for the deterministic build; the dictionary of the other holds entries that no position was entered for.
- Lzo1xGreedy.UniformCompressed: of one byte repeated; what longer periods are compressed to depends on the hash and the positions visited.
- Iovec writers, the C bindings, the unit test's benchmarks and statistics, file I/O, JNI glue and the OpenSSL and OpenVPN headers.
