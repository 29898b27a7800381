# LZO: a verified model

This project models the LZO compression library and two programs built on it, and proves that they do what they are
for. It covers:

- the LZO1X-1 and LZO1Y-1 compressors and decoders (`minilzo/minilzo.c`, `src/lzo1x_d3.c`),
- compression and decompression inside one shared buffer (`examples/overlap.c`),
- the older codecs LZO1 and LZO1A (`src/lzo1.c`, `src/lzo1a.c`, `src/lzo1a_cr.ch`),
- the Adler-32 checksum and the block container of `examples/lzopack.c`,
- the worker pool and the container of `lzo_cpu/lzo_frag.c`.

## How the model is built

Every codec has three layers. A **pure decoder** takes one block of the C program's goto graph per step
(`Lzo1xDecoder`, `Lzo1Decoder`), on any bytes, with every test the C code makes. A **pure compressor** maps an input
and a hash function to matches of the input (`Lzo1xEncoder`, `Lzo1Encoder`) and prints them (`Lzo1xStream`,
`Lzo1Stream`), including the bits that are patched back into an earlier match code. **Methods on `array<byte>`** follow
the C code's loops, wide copies and pointer updates and are proved equal to the pure layer; their source and
destination may be one array where the C program does that. For both decoders the format is also written out in
numbers, as instructions, and the decoder is proved to accept exactly its streams. The laws (round trip, expansion
bound, prefix and capacity exactness, in-place safety) are theorems about the pure layer and so hold of the methods.

| files | contents |
|---|---|
| `Bytes`, `Matching`, `Memory` | bytes, windows, match copies, byte-wise and wide copy loops |
| `Lzo1xDecoder`, `Lzo1xLaws`, `Lzo1xPreset`, `Lzo1xDecompress` | the LZO1X/LZO1Y decoders |
| `Lzo1xInstructions` | the LZO1X/LZO1Y format in numbers, and that the decoder accepts it and nothing else |
| `Lzo1xStream`, `Lzo1xParse`, `Lzo1xRoundTrip` | the LZO1X/LZO1Y format, printed and read back |
| `Lzo1xEncoder`, `Lzo1xFinder`, `Lzo1xExtend`, `Lzo1xCompress`, `Lzo1xCompressor` | the LZO1X-1/LZO1Y-1 compressor |
| `Overlap` | in-place compression and decompression |
| `Lzo1Decoder`, `Lzo1Instructions`, `Lzo1Decompress`, `Lzo1Stream`, `Lzo1RoundTrip`, `Lzo1Encoder`, `Lzo1Finder`, `Lzo1StoreRun`, `Lzo1Compressor` | LZO1 and LZO1A |
| `Adler`, `Lzopack` | the checksum and the lzopack container |
| `FragPool`, `FragFormat`, `FragJobs` | the worker pool, the lzo_frag container, and files through both |
| `KnownFiles` | the smallest files of both containers, byte for byte |

The hash functions of the compressors are arbitrary functions, and the LZO1X table has any size, so every theorem holds
for every match finder of this shape, in particular for lzo1x_1_11, lzo1x_1_12 and lzo1x_1_15, which are the same
template with other tables (`src/lzo1x_1k.c`, `src/lzo1x_1l.c`, `src/lzo1x_1o.c`). Of the build options the model takes
a 64-bit `lzo_uint`, for LZO1X a table of 16-bit positions that is cleared for every chunk (the deterministic path),
and for LZO1 and LZO1A a table of pointers that is cleared once.

Where code and comments disagree, the model follows the code:

- The test for a wrapped end pointer (`minilzo/minilzo.c:5229-5230`) also succeeds when fewer than 32 bytes are pending,
  because `(t + ll) >> 5` is then 0; what is left of the input then becomes literals. `Lzo1xEncoder.CompressChunks` does
  the same.
- `examples/overlap.c:172-176` expects that in-place compression may produce different bytes. In the deterministic build
  it never does, so the fallback at lines 177-187 is not reached (`Overlap.DoFile`).

## Model

| member | source | states |
|---|---|---|
| Window.CopyMatchPeriodic | minilzo/minilzo.c:6311-6313 | the byte-at-a-time match copy, overlapping or not, continues the output with period equal to the distance |
| Window.CopyMatchUnique | minilzo/minilzo.c:6311-6313 | there is no other continuation with that period |
| Window.CopyMatchSplit | minilzo/minilzo.c:6274-6288 | a copy may be made in pieces |
| Window.CopyMatchChunk | minilzo/minilzo.c:6271-6283 | a piece no longer than the distance may be moved as one block |
| Memory.CopyBlocks | minilzo/minilzo.c:6012-6028 | the literal copy in eights, fours and ones moves exactly the bytes of the simple loop, also inside one array when the destination is not above the source; whatever the overlap it changes only the n bytes of the destination |
| Memory.CopyFours | minilzo/minilzo.c:6029-6048 | the literal copy of the builds with 4-byte moves does the same |
| Memory.CopyMatchBlocks | minilzo/minilzo.c:6271-6289 | the match copy in eights, fours and ones for distances of 8 or more gives the byte-at-a-time result and touches nothing else |
| Memory.CopyMatchFours | minilzo/minilzo.c:6290-6308 | the match copy in fours and ones, for distances of 4 or more, also gives the byte-at-a-time result, although a source four to seven bytes back overlaps what is stored |
| Memory.CopySixteens | minilzo/minilzo.c:5041-5048 | the compressor's literal copy in sixteens moves exactly the given bytes |
| Memory.CopySixteen | minilzo/minilzo.c:5016-5021 | the speculative copy stores sixteen consecutive input bytes, in one array too |
| Lzo1xDecoder.Step | minilzo/minilzo.c:5983-6337 | on any bytes and capacity each block leaves a legal state (in particular `match` has two unread bytes) and a smaller termination measure |
| Lzo1xLaws.OutputGrows | minilzo/minilzo.c:5983-6342 | on any input the output extends what was written and never exceeds the capacity |
| Lzo1xLaws.RunExtends | minilzo/minilzo.c:5983-6348 | appending bytes changes a run that does not end in INPUT_OVERRUN only by turning OK into INPUT_NOT_CONSUMED |
| Lzo1xLaws.AcceptsOneLength | minilzo/minilzo.c:5983-6348 | every proper prefix of an accepted stream gives INPUT_OVERRUN, every proper extension gives the same output with INPUT_NOT_CONSUMED |
| Lzo1xLaws.CapacityExact | minilzo/minilzo.c:5983-6354 | an accepted stream of d output bytes is accepted, with the same bytes, by exactly the capacities from d on; below d the result is OUTPUT_OVERRUN |
| Lzo1xPreset.CopyFromDictIsWindow | src/lzo1x_d3.c:53-68 | a match that starts in the dictionary and may run on into the output is one copy over the window dictionary ++ output |
| Lzo1xPreset.PresetIsWindow | src/lzo1x_d3.c:53-87 | on any input, decoding with a dictionary is decoding over the single window dictionary ++ output |
| Lzo1xPreset.EmptyDictionary | src/lzo1x_d3.c:70-78 | with an empty dictionary the same streams are accepted with the same output as without one |
| Lzo1xPreset.OffsetBound | minilzo/minilzo.c:6092-6243 | no match code of the format reaches back more than 0xbfff bytes |
| Lzo1xPreset.TrimmedRun | minilzo/minilzo.c:5961-5976 | dropping all but the last 0xbfff dictionary bytes changes no result, on any input |
| Lzo1xInstructions.AcceptsExactly | minilzo/minilzo.c:5983-6348 | the decoder returns OK on exactly the streams of the format that stand for at most cap bytes, with the bytes they stand for; the format is given in numbers and has all its codes, two-byte matches, near three-byte matches and every EOF code included |
| Lzo1xInstructions.ProgramReads | minilzo/minilzo.c:5983-6337 | every legal sequence of instructions is decoded to what it stands for, with and without a preset dictionary |
| Lzo1xInstructions.TokenReads | minilzo/minilzo.c:6092-6258 | every match code, whatever its form, is read back as its distance, its length and the number of literals behind it |
| Lzo1xInstructions.NearCopied | minilzo/minilzo.c:6062-6088 | behind a literal run a marker below 16 copies three bytes from just beyond the M2 distances |
| Lzo1xInstructions.ProgramThere | minilzo/minilzo.c:5983-6348 | an accepted stream can be taken apart into legal instructions and an EOF code |
| Lzo1xInstructions.LookbehindReported | minilzo/minilzo.c:6085-6271 | a match that starts before the output gives LOOKBEHIND_OVERRUN, after what precedes it has been written |
| Lzo1xDecompress.DecompressSafe | minilzo/minilzo.c:5935-6361 | on arbitrary bytes and with any overlap of the two buffers the decoder ends, reads inside the input and stores inside the output; with separate buffers, or inside one while reader and writer stay apart, code, length and bytes are those of the pure decoder and no other byte is stored |
| Lzo1xDecompress.DecompressUnchecked | minilzo/minilzo.c:5394-5820 | the decoder without tests agrees with the safe one on every stream that the safe one decodes |
| Lzo1xDecompress.DecompressDictSafe | src/lzo1x_d3.c:83-90 | the dictionary decoder, trimming included, does the same and computes the pure decoder's result for the untrimmed dictionary |
| Lzo1xDecompress.Decompressor.Decompress | minilzo/minilzo.c:5978-6361 | the loop over the blocks ends with the pure decoder's code and output, for all three builds |
| Lzo1xDecompress.Decompressor.AtM4 | minilzo/minilzo.c:6184-6234 | an M4 code is read as the pure token; at the EOF code the input position never exceeds the input end |
| Lzo1xDecompress.Decompressor.CopyDictDict | src/lzo1x_d3.c:53-68 | the two-region copy stores exactly what the pure dictionary copy appends |
| Lzo1xDecompress.Decompressor.FinishMatchAt | minilzo/minilzo.c:6262-6325 | after the bounds tests the copy and the re-read of `ip[-2]` lead to the pure decoder's next state, also when reader and writer share an array |
| Lzo1xParse.ReadLongLength | minilzo/minilzo.c:5028-5040 | a length written as zero bytes and a last byte is read back |
| Lzo1xParse.ReadMatch | minilzo/minilzo.c:5151-5203 | every match code is read back as its distance and length, whatever literal count was patched into its low bits |
| Lzo1xInstructions.ChosenCode | minilzo/minilzo.c:5151-5203 | the compressor's match codes are, in numbers, the M2, M3 and M4 codes of the format |
| Lzo1xInstructions.ChosenShortest | minilzo/minilzo.c:5153-5203 | no other code of the same match is shorter |
| Lzo1xParse.ItemReaches | minilzo/minilzo.c:5000-5203 | from the end of one item the decoder gets to the end of the next with exactly its bytes, and the writer stays behind the reader |
| Lzo1xRoundTrip.PrefixReaches | minilzo/minilzo.c:5994-6337 | the decoder passes the end of every printed prefix with exactly the bytes it stands for |
| Lzo1xRoundTrip.StreamDecodes | minilzo/minilzo.c:5983-6342 | every stream of the format decodes to the bytes it stands for with OK, keeping reader and writer apart when there is room |
| Lzo1xEncoder.Next | minilzo/minilzo.c:4986-4997 | every round keeps each table entry a position strictly before ip in the same chunk |
| Lzo1xEncoder.ExtendAgrees | minilzo/minilzo.c:5052-5149 | all bytes within the extended match length are equal at both places |
| Lzo1xFinder.NextTakes | minilzo/minilzo.c:4986-5152 | a probe whose slot holds a position with the same four bytes always becomes a match at that distance, up to the first difference or the coarse end; any other probe moves on by one and a thirty-second of the pending bytes; either way the slot then holds ip |
| Lzo1xFinder.TableIsHistory | minilzo/minilzo.c:4924-4997 | after any number of rounds every slot holds the latest probe with that hash, or the start of the chunk |
| Lzo1xFinder.SameChunk | minilzo/minilzo.c:4924-5209 | in a chunk of equal bytes the first probe, at the sixth or second byte, finds a match that leaves 9 to 20 bytes |
| Lzo1xFinder.ChunksGoOn | minilzo/minilzo.c:5221-5239 | another chunk of at most 49152 bytes is compressed exactly while more than 20 bytes are left and 32 are pending |
| Lzo1xFinder.RunsCompress | minilzo/minilzo.c:4924-5275 | n equal bytes, for any hash, give one match a chunk and at most n/255 + 27 (n/49152 + 1) + 50 bytes |
| Lzo1xFinder.RunOf64 | minilzo/minilzo.c:4924-5275 | the 29 bytes that 64 equal bytes are compressed to |
| Lzo1xFinder.ShortInputs | minilzo/minilzo.c:5221-5273 | fewer than 32 bytes are stored behind one length byte |
| Lzo1xFinder.NoMatches | minilzo/minilzo.c:5241-5273 | an input without matches is one literal run in its shorter coding, and the EOF code |
| Lzo1xExtend.ExtendByWords64 | minilzo/minilzo.c:5054-5078 | comparing by xor of 64-bit words and counting zero bytes gives the length of the byte loop |
| Lzo1xExtend.ExtendByWords32 | minilzo/minilzo.c:5084-5112 | so does the form with two 32-bit words per round |
| Lzo1xExtend.ExtendByBytes | minilzo/minilzo.c:5119-5146 | the unrolled byte loop computes the common length with its coarse end test |
| Matching.MatchCopiesInput | minilzo/minilzo.c:4991-4997 | a match found by comparing input bytes, copied from the decoded prefix, reproduces the input |
| Lzo1xCompress.NextFaithful | minilzo/minilzo.c:4986-5152 | the matches found so far stand for the input up to the pending literals, at least five literals precede the first match of a call, and distances lie in 1..0xbfff without a check |
| Lzo1xCompress.ChunkFaithful | minilzo/minilzo.c:4924-5209 | every call leaves at least nine pending literals, so a patched `op[-2]` is always a match byte of the same call |
| Lzo1xCompress.ChunksFaithful | minilzo/minilzo.c:5221-5239 | the same over all chunks with carried literals |
| Lzo1xCompress.EncodeFaithful | minilzo/minilzo.c:5211-5275 | matches and tail stand for the whole input, and after a match at least nine literals end it, so the arm for a tail of 1..3 is dead |
| Lzo1xCompress.ItemCost | minilzo/minilzo.c:5003-5203 | a run and a match together cost at most 17/16 of the bytes they stand for |
| Lzo1xCompress.ExpansionBound | minilzo/minilzo.c:5003-5273 | no input grows by more than n/16 + 5 bytes, within the n/16 + 64 + 3 that callers reserve |
| Lzo1xCompress.RoundTrip | minilzo/minilzo.c:4924-5275 | for every input, hash function, capacity of at least the input length, both formats and every decoder build, decoding the compressed bytes gives OK and the input |
| Lzo1xCompress.InPlaceClear | examples/overlap.c:199-216 | with the compressed bytes at the top of n + n/16 + 64 + 3 bytes the writer never reaches what the reader still needs, `ip[-2]` included |
| Lzo1xCompressor.Compressor.TakeFits | minilzo/minilzo.c:5000-5203 | the run before a match, with the up to twelve bytes that its wide stores run over, and the match code end inside the output buffer and below the literals and the chunk that are still to be read, and they are what the pure compressor prints |
| Lzo1xCompressor.PutMatch | minilzo/minilzo.c:5153-5203 | the stores make up the match code of the format and nothing else |
| Lzo1xCompressor.Compressor.WideLits | minilzo/minilzo.c:5007-5023 | speculative stores extend the output by exactly t literals and leave all input that is still needed |
| Lzo1xCompressor.Compressor.EmitRun | minilzo/minilzo.c:5000-5051 | a pending run, patched, short or long, extends the output as the format says, in one array too |
| Lzo1xCompressor.Compressor.DoCompress | minilzo/minilzo.c:4924-5209 | one call appends what the pure compressor prints for its chunk, whatever the table held before |
| Lzo1xCompressor.Compressor.Run | minilzo/minilzo.c:5211-5275 | the chunk loop, tail and EOF code produce the pure compressor's stream |
| Lzo1xCompressor.CompressTo | minilzo/minilzo.c:4924-5275 | the output bytes are those of the pure compressor, also when the output starts min(n, 0xbfff) + n/16 + 64 + 3 bytes before the input in one array; stores stay inside the reserved room |
| Overlap.DefaultIsEnough | examples/overlap.c:199-202 | the default overhead keeps reader and writer apart for every input |
| Overlap.InPlaceDecompress | examples/overlap.c:199-232 | in a buffer of any size that holds the data no access leaves it; where reader and writer stay apart, and so with the default overhead, the result is OK, the length and the data |
| Overlap.InPlaceCompress | examples/overlap.c:144-170 | in-place compression gives the bytes of out-of-place compression |
| Overlap.DoFile | examples/overlap.c:126-233 | it succeeds exactly when the decompression in place returned OK, the length and the data; that is so for any data with the default overhead or a larger one, and with a smaller one that keeps reader and writer apart |
| Overlap.CompareBack | examples/overlap.c:199-232 | the comparison reports exactly whether the code, the length and the bytes in the buffer after the decompression in place are right |
| Lzo1Stream.MergesExactly | src/lzo1a.c:322-348 | `ip - r1 == 4` with pending literals holds exactly when one literal is pending after a match of three bytes that directly follows a run of 1..279 literals |
| Lzo1Stream.MarkerBeforeMerge | src/lzo1a.c:339-343 | the byte that is masked is the marker of a match of length 3 |
| Lzo1RoundTrip.RunReads | src/lzo1.c:276-316 | the greedy split of a run into 32768..512, 280 and short parts is read back as the whole run, for LZO1 and LZO1A |
| Lzo1RoundTrip.StepMasked | src/lzo1a.c:173-189 | a masked marker after a run is read as a three-byte match that a literal follows |
| Lzo1RoundTrip.PrefixReads | src/lzo1a.c:138-226 | the decoder passes the end of every printed prefix, masked or not, with exactly the input covered so far |
| Lzo1RoundTrip.StreamDecodes | src/lzo1a.c:124-233 | every printed stream decodes to the input with OK, whatever follows it in memory |
| Lzo1Instructions.AcceptsExactly | src/lzo1.c:193-265 | the decoders return OK on exactly the streams of the two formats, given in numbers, with the bytes they stand for and whatever follows them in memory |
| Lzo1Instructions.ProgramReads | src/lzo1a.c:124-233 | every legal sequence of runs, matches and, for LZO1A, near matches is decoded to what it stands for |
| Lzo1Instructions.ProgramThere | src/lzo1a.c:124-233 | an accepted stream can be taken apart into legal instructions |
| Lzo1Encoder.Next | src/lzo1.c:364-563 | every round keeps the table entries strictly before ip and matches out of the last three bytes |
| Lzo1Encoder.NextFaithful | src/lzo1.c:368-563 | every match found has a distance in 1..8192, a length in 3..264 and equal bytes |
| Lzo1Finder.NextTakes | src/lzo1.c:364-563 | a probe whose slot, or the opposite one, holds a position in reach with the same three bytes always becomes a match, up to a difference, 264 bytes or the last three bytes of the input; any other probe moves on by one |
| Lzo1Finder.RunsCompress | src/lzo1.c:328-589 | n equal bytes, for any hash functions, give at most 3 (n/264) + 19 bytes, merged literals of LZO1A included |
| Lzo1Finder.ShortInputs | src/lzo1.c:596-618 | up to 13 bytes are stored behind one length byte |
| Lzo1Encoder.RoundTrip | src/lzo1.c:193-618 | lzo1_decompress inverts lzo1_compress and lzo1a_decompress inverts lzo1a_compress, for every input and all hash functions |
| Lzo1Encoder.ExpansionBound | src/lzo1.c:276-316 | neither codec expands an input by more than n/16 + 1 bytes |
| Lzo1StoreRun.StoreRun | src/lzo1.c:277-316 | the loop over descending powers writes the run coding and nothing else |
| Lzo1StoreRun.StoreRunA | src/lzo1a_cr.ch:43-107 | the loop that takes each smaller power once writes the same bytes |
| Lzo1StoreRun.NextPart | src/lzo1.c:282-293 | a long run starts with the largest power of two from 512 to 32768 that it holds, and its code byte |
| Lzo1Compressor.Compressor.Find | src/lzo1.c:368-390 | the two probes and the table update are those of the pure finder |
| Lzo1Compressor.Compressor.Measure | src/lzo1.c:421-509 | six comparisons and the bounded loop compute the common length, capped at 264 and three bytes before the end |
| Lzo1Compressor.Compressor.PutLits | src/lzo1a.c:322-385 | the pending run is merged, inlined or stored as printed, and r1 follows its definition |
| Lzo1Compressor.Compressor.DoCompress | src/lzo1.c:328-589 | the whole loop and the final run write the pure compressor's stream |
| Lzo1Compressor.CompressTo | src/lzo1.c:596-618 | the public entry writes the pure compressor's bytes, whatever the work memory held, and stores nothing behind them |
| Lzo1Decompress.DecompressLzo1 | src/lzo1.c:192-265 | on all data whose accesses stay inside the buffers the loop returns the machine's code and bytes |
| Lzo1Decompress.DecompressLzo1a | src/lzo1a.c:123-233 | the same for the nested loops of LZO1A |
| Lzo1Decompress.AfterLiterals | src/lzo1a.c:173-189 | the inner loop after a run follows the machine until a match or the end |
| Adler.ChecksumConcat | minilzo/minilzo.c:4280-4308 | the checksum of blocks in turn is the checksum of their concatenation |
| Adler.NoOverflow | minilzo/minilzo.c:4270-4306 | within 5552 bytes no sum reaches 32 bits, from any start value |
| Adler.DeferredStep | minilzo/minilzo.c:4273-4305 | sums that are reduced later stay congruent to those reduced at every byte |
| Adler.Adler32 | minilzo/minilzo.c:4279-4308 | with 32-bit arithmetic the loop computes the per-byte definition of RFC 1950 for any seed; a missing buffer gives 1 |
| Adler.ChecksumClosed | minilzo/minilzo.c:4270-4308 | the low half is (a + sum of d[i]) mod 65521 and the high half (b + n a + sum of (n - i) d[i]) mod 65521, for any seed (section 8.2 of RFC 1950) |
| Lzopack.Be32RoundTrip | examples/lzopack.c:110-132 | a 32-bit word written by xwrite32 is read back by xread32 |
| Lzopack.DoCompress | examples/lzopack.c:147-250 | the file is header, blocks in their shorter form, EOF marker and checksum of the data, and the internal check never fires |
| Lzopack.BlockSize | examples/lzopack.c:205-235 | a block takes eight bytes and the shorter of its compressed and its plain form |
| Lzopack.NextBlock | examples/lzopack.c:326-350 | where a block begins the reader finds sizes that pass every sanity check and the payload |
| Lzopack.ExpandBlock | examples/lzopack.c:345-378 | for any payload, stored or compressed, all accesses stay inside the buffer; what is written has the stated length, is the payload or its decoding, and is what the checksum is updated with; code 6 comes only for a payload that does not decode to that length |
| Lzopack.ReadHeader | examples/lzopack.c:277-302 | on any file the result is that of the header checks, in their order, and flags and block size are those of the file |
| Lzopack.WrittenHeader | examples/lzopack.c:277-302 | a header with any flags and level is refused exactly for a block size outside 1024 .. 8 MiB, with code 3 |
| Lzopack.GoodHeader | examples/lzopack.c:277-302 | no file without such a header passes the header checks |
| Lzopack.PayloadDecodes | examples/lzopack.c:345-358 | a payload that lzopack has compressed decodes in place to its block |
| Lzopack.ReadBlock | examples/lzopack.c:321-379 | on any file one round ends at the marker, complains of bad sizes (5) or of a payload that does not decode (6), stops at the end of the file, or writes one block of the stated size |
| Lzopack.UnpacksMore | examples/lzopack.c:321-379 | a file part that unpacks to some bytes, followed by one more block, unpacks to those bytes and the block's |
| Lzopack.OneWay | examples/lzopack.c:321-379 | blocks whose payloads are stored or decode can be unpacked in one way only |
| Lzopack.IntactAccepted | examples/lzopack.c:277-391 | an intact file, whoever wrote it and at whatever level, has no other outcome than success with its contents |
| Lzopack.PackedIntact | examples/lzopack.c:147-250 | every file that DoCompress writes is intact and holds the data for a block size in 1024 .. 8 MiB, and has a bad header for every other |
| Lzopack.DoDecompress | examples/lzopack.c:260-397 | on any file the output only grows and the result tells where reading ended: 1, 2 or 3 for a bad header, 5 at bad sizes, 6 at a payload that does not decode, 7 at a wrong checksum, a fatal error at the end of the file, 0 at a marker with the checksum of what was written; an intact file gives 0 and its contents |
| FragPool.StepInv | lzo_cpu/lzo_frag.c:347-375 | every atomic step of any worker keeps each chunk with at most one owner and called on at most once, loses no error and skips no chunk while the status is OK; an error status is never cleared |
| FragPool.PoolCorrect | lzo_cpu/lzo_frag.c:336-458 | for any thread count and interleaving no chunk is called on twice; at the end the status is OK exactly when every call succeeds, and then every chunk was called on exactly once |
| FragPool.PoolTerminates | lzo_cpu/lzo_frag.c:347-375 | no schedule is longer than three steps a chunk and one a worker, and it ends only with every worker out of its loop |
| FragPool.IndexBounded | lzo_cpu/lzo_frag.c:349-350 | the shared index never passes the number of chunks plus workers, so it does not wrap |
| FragFormat.ChooseBlockSize | lzo_cpu/lzo_frag.c:144-152 | the block size is positive, at most 1 MiB, at most a nonempty input, and below 64 KiB only when it is the whole input |
| FragFormat.BlockSizeExact | lzo_cpu/lzo_frag.c:144-152 | there are at most as many chunks as threads unless blocks reach 1 MiB, above 64 KiB no smaller block would do, and a block is below 64 KiB only when it is the whole input |
| FragFormat.RangesTile | lzo_cpu/lzo_frag.c:385-400 | chunks are nonempty, start at 0, follow each other without gap and end with the input |
| FragFormat.RangesDisjoint | lzo_cpu/lzo_frag.c:393-399 | different chunks have no byte in common |
| FragFormat.RangesCover | lzo_cpu/lzo_frag.c:385-399 | every input byte is in some chunk |
| FragFormat.Le32RoundTrip | lzo_cpu/lzo_frag.c:128-137 | read_u32 undoes write_u32 |
| FragFormat.SumGrows | lzo_cpu/lzo_frag.c:822-860 | the lengths before and at a chunk never exceed the sum that was checked |
| FragFormat.ContainerReads | lzo_cpu/lzo_frag.c:799-869 | a written container passes every check, and the descriptors computed from it are the chunks that were written |
| KnownFiles.LzopackNothing | examples/lzopack.c:147-250 | the 25 bytes of the file for no data, at any level |
| KnownFiles.LzopackOneByte | examples/lzopack.c:147-250 | the 34 bytes of the file for one byte, which is stored |
| KnownFiles.FragNothing | lzo_cpu/lzo_frag.c:655-677 | the 14 bytes of the container for no data |
| KnownFiles.FragOneByte | lzo_cpu/lzo_frag.c:655-677 | the 23 bytes of the container for one byte |
| FragJobs.PlanChunks | lzo_cpu/lzo_frag.c:385-400 | the descriptor loop computes the chunk ranges |
| FragJobs.LevelTables | lzo_cpu/lzo_frag.c:109-116 | the table sizes of the levels, and that a named algorithm overrides the level |
| FragJobs.CompressMulti | lzo_cpu/lzo_frag.c:380-470 | however the workers interleave, the status is OK and each chunk holds its own sequential result |
| FragJobs.BuildContainer | lzo_cpu/lzo_frag.c:655-677 | the cursor fills the buffer with header, length table and chunks, exactly |
| FragJobs.CompressFile | lzo_cpu/lzo_frag.c:615-720 | inputs beyond 2^32 - 1 bytes are refused; all others give the container of their compressed chunks, for each of the four algorithms, named or chosen by level; verifying writes nothing |
| FragJobs.Verify | lzo_cpu/lzo_frag.c:679-713 | decoding the chunks again in memory and comparing never fails |
| FragJobs.ParseContainer | lzo_cpu/lzo_frag.c:793-869 | on any bytes all reads stay inside the file, it succeeds exactly when the checks hold, and the chunk-overflow arm is dead |
| FragJobs.DecompressBlock | lzo_cpu/lzo_frag.c:321-326 | on every stream that the decoder decodes the call returns the decoder's code, whatever length was expected |
| FragJobs.WrongLengthPasses | lzo_cpu/lzo_frag.c:321-326 | so a wrong length is not reported: a stream that stands for nothing is decoded with OK where one byte is expected |
| FragJobs.AllPlaced | lzo_cpu/lzo_frag.c:849-868 | when every chunk has been decoded to its place, in whatever order, the output is the data |
| FragJobs.DecompressMulti | lzo_cpu/lzo_frag.c:472-528 | however the workers interleave, the status is OK exactly when every chunk is decoded with OK and otherwise the code of some chunk, and chunks that decode to the pieces of some data leave these data in the output buffer |
| FragJobs.DecompressFile | lzo_cpu/lzo_frag.c:787-879 | on every file whose chunks can be decoded inside the buffers it succeeds exactly when the checks hold and every chunk is decoded with OK, and gives the data to whose pieces the chunks decode, for any thread count and interleaving |
| FragJobs.PackedHolds | lzo_cpu/lzo_frag.c:793-879 | every file that compress_file writes, for any input up to 2^32 - 1 bytes, hash, table size and thread count, passes the checks, and its chunks decode to their pieces of the input |

## Left out

- Lzo1xCompress.RoundTrip: for inputs whose worst-case size is a 64-bit word, since `lzo_uint` counts run lengths.
- Lzo1xEncoder.Next: the 32-bit product that forms the hash is an arbitrary function; that input and output pointers
  themselves do not wrap is taken for granted.
- Lzo1xExtend.ExtendByWords64: little-endian zero-byte counting only; the big-endian branches are not modelled.
- Memory.CopyFours: the build that tests the alignment of both pointers first is not modelled; it chooses between this
  loop and the byte loop.
- Lzo1xDecompress.DecompressSafe: which bytes corrupted data leave in a buffer that holds input and output at once, when
  the writer overtakes the reader.
- Lzo1xDecompress.DecompressUnchecked: nothing is said of data that the safe decoder refuses.
- Overlap.DoFile: starts where the file has been read; the least overhead that keeps reader and writer apart for given
  data is a condition on the decoder's states, not a number.
- Lzo1Encoder.Next: the test of LZO1A for table pointers below the input or at ip is not modelled apart from NULL, since
  the cleared table holds no others.
- Lzo1Decompress.DecompressLzo1: nothing is said of data whose accesses leave the buffers, which the decoder does not
  test.
- Lzopack.DoCompress: compression level 9, which runs lzo1x_999_compress, is excluded.
- Lzopack.DoDecompress: allocation failure (code 4) and the totals that are printed.
- FragPool.Step: a call on a chunk is one step; its memory accesses concern only the chunk's own range and the worker's
  own memory, and atomics are sequentially consistent.
- FragJobs.CompressFile: the benchmark mode and allocation failure are not modelled.
- FragJobs.DecompressFile: containers that pass the checks but hold a chunk on which the unchecked decoder would leave
  its buffers are parsed, and nothing is said of decoding them; nor of which bytes are left when chunks of wrong
  lengths overlap.
- LZO1Z, LZO1B, LZO1C, LZO1F, LZO2A, the -99 and -999 levels and `lzo1x_optimize`.
- LZO1 and LZO1A with other than five run bits, and compression levels above 1.
- The OpenCL host and daemon under `lzo_gpu`, file and standard input and output, option parsing, printing, and the
  test programs.
- `lzo_init`, platform detection, CRC-32 and the version functions.
