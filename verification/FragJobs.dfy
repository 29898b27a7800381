// lzo_cpu/lzo_frag.c: compression and decompression of whole files by a pool of workers.
module FragJobs {
  import opened Bytes
  import opened Arithmetic
  import opened Layout
  import opened Memory
  import opened Lzo1xFormat
  import opened Lzo1xDecoder
  import opened Lzo1xEncoder
  import opened Lzo1xCompress
  import opened Lzo1xCompressor
  import opened Lzo1xDecompress
  import opened FragFormat
  import opened FragPool

  const UINT32_MAX := 0xFFFF_FFFF

  /** lzo1x_1_compress never fails. */
  function NoError(i: nat): int {
    OK
  }

  // ---- algorithms ----

  /** alg_t. The four compressors are one template with tables of different sizes and hash functions of their own. */
  datatype Alg = AlgNone | Alg1X | Alg1K | Alg1L | Alg1O

  /** A level that has no algorithm of its own means 1x. */
  function AlgFromLevel(level: int): Alg {
    if level == 1 then Alg1L else if level == 2 then Alg1K else if level == 4 then Alg1O else Alg1X
  }

  /** The algorithm named on the command line, or else the one of the level. */
  function Resolve(named: Alg, level: int): Alg {
    if named != AlgNone then named else AlgFromLevel(level)
  }

  /** D_BITS of the compressor that the switch selects: 12 for 1k, 13 for 1o, 11 for 1l, 14 otherwise. */
  function TableSize(alg: Alg): (size: nat)
    ensures 1 <= size <= WRKMEM
  {
    match alg
    case Alg1K => 0x1000
    case Alg1O => 0x2000
    case Alg1L => 0x800
    case _ => 0x4000
  }

  /** The tables of the levels, and of the algorithms that are named. */
  lemma LevelTables(named: Alg, level: int)
    ensures TableSize(Resolve(AlgNone, level))
         == if level == 1 then 2048 else if level == 2 then 4096 else if level == 4 then 8192 else 16384
    ensures named != AlgNone ==> Resolve(named, level) == Resolve(named, 0)
  {
  }

  /** Entries that the work memory of a worker has room for, at least. */
  const WRKMEM := 0x4000

  type Hashes = Alg -> nat -> nat

  function Finder(hashes: Hashes, alg: Alg): Hash {
    HashTable(hashes(alg), TableSize(alg))
  }

  // ---- compression ----

  /** The chunk descriptors: `off = i * block_size`, and what is left if that is less than a block. */
  method PlanChunks(n: nat, bs: nat) returns (plan: seq<Range>)
    ensures |plan| == ChunkCount(n, bs) && forall i :: 0 <= i < |plan| ==> plan[i] == RangeAt(n, bs, i)
  {
    var count := if bs == 0 || n == 0 then if n == 0 then 0 else 1 else (n + bs - 1) / bs;
    plan := [];
    for i := 0 to count
      invariant |plan| == i && forall k :: 0 <= k < i ==> plan[k] == RangeAt(n, bs, k)
    {
      InputHasChunk(n, bs, i);
      var off := i * bs;
      var left := n - off;
      plan := plan + [Range(off, if left < bs || bs == 0 then left else bs)];
    }
  }

  /** The body of compress_worker for one chunk: compresses it into the chunk's own buffer. */
  method CompressChunkAt(hash: Hash, input: array<byte>, r: Range) returns (rc: int, z: seq<byte>)
    requires r.Stop <= input.Length && hash.size <= WRKMEM
    ensures rc == OK && z == Compress(Lzo1x, hash, input[r.offset..r.Stop])
  {
    hide Compress;
    var comp := new byte[WorstCase(r.size)];
    var wrkmem := new word16[WRKMEM];
    var outLen := CompressTo(Lzo1x, hash, input, r.offset, r.size, comp, 0, wrkmem);
    rc, z := OK, comp[..outLen];
    assert comp[0..outLen] == comp[..outLen];
  }

  /** compress_multi: the workers take their steps in any order. */
  method CompressMulti(hash: Hash, input: array<byte>, bs: nat, threads: int) returns (status: int, zs: seq<seq<byte>>)
    requires hash.size <= WRKMEM
    ensures status == OK && zs == Compressed(hash, input[..], bs)
  {
    hide Compress, FragPool.Step, Inv, Measure;
    ghost var data := input[..];
    var plan := PlanChunks(input.Length, bs);
    var count := |plan|;
    zs := seq(count, _ => []);
    status := OK;
    if count > 0 {
      var p := Init(threads);
      InitInv(NoError, count, threads);
      while !AllExited(p)
        invariant Inv(NoError, count, p) && |zs| == count && |p.pcs| >= 1
        invariant forall i: nat :: i < count && i in p.log ==> zs[i] == Compress(Lzo1x, hash, Piece(data, bs, i))
        decreases Measure(count, p)
      {
        var w: nat :| w < |p.pcs| && !p.pcs[w].Exited?;
        StepInv(NoError, count, p, w);
        StepDecreases(NoError, count, p, w);
        StepLog(NoError, count, p, w);
        var rc := OK;
        if p.pcs[w].Work? {
          var i := p.pcs[w].idx;
          var z;
          rc, z := CompressChunkAt(hash, input, plan[i]);
          assert input[plan[i].offset..plan[i].Stop] == Piece(data, bs, i);
          zs := zs[i := z];
        }
        StepCalls(NoError, _ => rc, count, p, w);
        p := FragPool.Step(_ => rc, count, p, w);
      }
      FinalStatus(NoError, count, p);
      status := p.status;
    }
    assert zs == Compressed(hash, data, bs);
  }

  /** Only the owner of a chunk adds it to the log. */
  lemma StepLog(job: Job, count: nat, p: Pool, w: nat)
    requires Inv(job, count, p) && Enabled(p, w)
    ensures var r := FragPool.Step(job, count, p, w);
            && |r.pcs| == |p.pcs|
            && (p.pcs[w].Work? ==> p.pcs[w].idx < count && p.pcs[w].idx !in p.log && r.log == p.log + [p.pcs[w].idx])
            && (!p.pcs[w].Work? ==> r.log == p.log)
  {
    if p.pcs[w].Work? {
      assert Owns(p, w, p.pcs[w].idx);
    }
  }

  /** Writes x at the cursor. */
  method Put(buf: array<byte>, cursor: nat, x: seq<byte>) returns (next: nat)
    requires cursor + |x| <= buf.Length
    modifies buf
    ensures next == cursor + |x| && buf[..next] == old(buf[..cursor]) + x
  {
    StoreBytes(buf, cursor, x);
    OverlayPrefix(old(buf[..]), cursor, x);
    next := cursor + |x|;
    assert buf[..next] == buf[..][..next];
    assert old(buf[..])[..cursor] == old(buf[..cursor]);
  }

  /** The sum of the chunk sizes. */
  method TotalSize(zs: seq<seq<byte>>) returns (total: nat)
    ensures total == |Flat(zs)|
  {
    total := 0;
    for i := 0 to |zs|
      invariant total == |Flat(zs[..i])|
    {
      assert zs[..i + 1][..i] == zs[..i];
      total := total + |zs[i]|;
    }
    assert zs[..|zs|] == zs;
  }

  lemma {:induction false} FlatGrows(zs: seq<seq<byte>>, i: nat)
    requires i < |zs|
    ensures |Flat(zs[..i])| + |zs[i]| <= |Flat(zs)|
    decreases |zs|
  {
    var k := |zs| - 1;
    if i < k {
      FlatGrows(zs[..k], i);
      assert zs[..k][..i] == zs[..i];
    }
  }

  lemma Snoc(zs: seq<seq<byte>>, i: nat)
    requires i < |zs|
    ensures Table(zs[..i + 1]) == Table(zs[..i]) + ToLe32(|zs[i]|)
    ensures Flat(zs[..i + 1]) == Flat(zs[..i]) + zs[i]
  {
    hide ToLe32;
    assert zs[..i + 1][..i] == zs[..i];
  }

  /** The container is built in one buffer, with a cursor. */
  method BuildContainer(n: nat, bs: nat, zs: seq<seq<byte>>) returns (buf: array<byte>)
    ensures fresh(buf) && buf[..] == Container(n, bs, zs)
  {
    hide Table, Flat, ToLe16, ToLe32;
    var count := |zs|;
    var total := TotalSize(zs);
    buf := new byte[HEADER + 4 * count + total];
    var cursor := Put(buf, 0, ToLe16(MAGIC_TAG));
    cursor := Put(buf, cursor, ToLe32(n));
    cursor := Put(buf, cursor, ToLe32(bs));
    cursor := Put(buf, cursor, ToLe32(count));
    ghost var h := Header(n, bs, count);
    EmptyParts(zs);
    assert buf[..cursor] == h + [];
    cursor := PutTable(buf, cursor, zs, h);
    cursor := PutChunks(buf, cursor, zs, h + Table(zs));
    assert buf[..] == buf[..cursor];
  }

  /** The length table, behind the header h. */
  method PutTable(buf: array<byte>, cursor0: nat, zs: seq<seq<byte>>, ghost h: seq<byte>) returns (cursor: nat)
    requires cursor0 == |h| && cursor0 + 4 * |zs| <= buf.Length && buf[..cursor0] == h
    modifies buf
    ensures cursor == cursor0 + 4 * |zs| && buf[..cursor] == h + Table(zs)
  {
    hide Table, ToLe32;
    EmptyParts(zs);
    cursor := cursor0;
    assert h + [] == h;
    for i := 0 to |zs|
      invariant cursor == cursor0 + 4 * i && buf[..cursor] == h + Table(zs[..i])
    {
      Snoc(zs, i);
      assert (h + Table(zs[..i])) + ToLe32(|zs[i]|) == h + (Table(zs[..i]) + ToLe32(|zs[i]|));
      cursor := Put(buf, cursor, ToLe32(|zs[i]|));
    }
    assert zs[..|zs|] == zs;
  }

  /** The chunks, behind the header and the table. */
  method PutChunks(buf: array<byte>, cursor0: nat, zs: seq<seq<byte>>, ghost head: seq<byte>) returns (cursor: nat)
    requires cursor0 == |head| && cursor0 + |Flat(zs)| <= buf.Length && buf[..cursor0] == head
    modifies buf
    ensures cursor == cursor0 + |Flat(zs)| && buf[..cursor] == head + Flat(zs)
  {
    hide Flat;
    EmptyParts(zs);
    cursor := cursor0;
    assert head + [] == head;
    for i := 0 to |zs|
      invariant cursor == cursor0 + |Flat(zs[..i])| && cursor <= buf.Length && buf[..cursor] == head + Flat(zs[..i])
    {
      Snoc(zs, i);
      FlatGrows(zs, i);
      assert (head + Flat(zs[..i])) + zs[i] == head + (Flat(zs[..i]) + zs[i]);
      cursor := Put(buf, cursor, zs[i]);
    }
    assert zs[..|zs|] == zs;
  }

  lemma EmptyParts(zs: seq<seq<byte>>)
    ensures Table(zs[..0]) == [] && Flat(zs[..0]) == []
  {
  }

  // ---- decompression ----

  /** read_u16 and read_u32. */
  method ReadU16(comp: array<byte>, at: nat) returns (v: nat)
    requires at + 2 <= comp.Length
    ensures v == LE16(comp[..], at)
  {
    v := comp[at] as nat + comp[at + 1] as nat * 0x100;
  }

  method ReadU32(comp: array<byte>, at: nat) returns (v: nat)
    requires at + 4 <= comp.Length
    ensures v == LE32(comp[..], at) && v < WORD32
  {
    v := comp[at] as nat + comp[at + 1] as nat * 0x100
         + comp[at + 2] as nat * 0x1_0000 + comp[at + 3] as nat * 0x100_0000;
  }

  /** An entry of the length table; its index is a 32-bit number. */
  method ReadLength(comp: array<byte>, i: nat) returns (v: nat)
    requires HEADER + 4 * i + 4 <= comp.Length
    ensures v == LengthAt(comp[..], i) && v < WORD32
  {
    hide LE32;
    v := ReadU32(comp, HEADER + (4 * i) % WORD32);
  }

  /** The parsing half of decompress_file, on any file: every read stays inside it, it succeeds exactly when the checks
      hold, and the test for a chunk that overflows the payload is never met. */
  method ParseContainer(comp: array<byte>) returns (rc: int, origSz: nat, chunks: seq<Chunk>)
    ensures rc == if Accepts(comp[..]) then 0 else 1
    ensures rc == 0 ==> origSz == LE32(comp[..], 2) && |chunks| == BlockCount(comp[..])
    ensures rc == 0 ==> forall i :: 0 <= i < |chunks| ==> chunks[i] == Descriptor(comp[..], i)
  {
    hide LE32, LE16, LengthAt, SumLengths;
    ghost var s := comp[..];
    rc, origSz, chunks := 1, 0, [];
    var compSize := comp.Length;
    if compSize < 14 { return; }
    var magic := ReadU16(comp, 0);
    if magic != MAGIC_TAG { return; }
    origSz := ReadU32(comp, 2);
    var blkSz := ReadU32(comp, 6);
    var nblk := ReadU32(comp, 10);
    var cursor := 14;
    if cursor + nblk * 4 > compSize { return; }
    cursor := cursor + nblk * 4;
    var totalComp := 0;
    NoLengths(s);
    for i := 0 to nblk
      invariant totalComp == SumLengths(s, i)
    {
      var len := ReadLength(comp, i);
      SumNext(s, i);
      totalComp := totalComp + len;
    }
    if totalComp > compSize - cursor { return; }
    var overflow;
    overflow, chunks := ReadDescriptors(comp, origSz, blkSz, nblk);
    rc := if overflow then 1 else 0;
  }

  /** The loop that fills the chunk descriptors. */
  method ReadDescriptors(comp: array<byte>, origSz: nat, blkSz: nat, nblk: nat)
    returns (overflow: bool, chunks: seq<Chunk>)
    requires Accepts(comp[..]) && origSz == LE32(comp[..], 2) && blkSz == LE32(comp[..], 6)
             && nblk == BlockCount(comp[..])
    ensures !overflow && |chunks| == nblk && forall i :: 0 <= i < nblk ==> chunks[i] == Descriptor(comp[..], i)
  {
    hide LE32, LE16, LengthAt, SumLengths, Descriptor;
    ghost var s := comp[..];
    overflow, chunks := false, [];
    var blk, offset := HEADER + 4 * nblk, 0;
    NoLengths(s);
    var i := 0;
    while i < nblk && !overflow
      invariant !overflow && 0 <= i <= nblk && |chunks| == i && blk == HEADER + 4 * nblk + SumLengths(s, i)
      invariant i < nblk ==> offset == i * blkSz
      invariant forall k :: 0 <= k < i ==> chunks[k] == Descriptor(s, k)
    {
      var clen := ReadLength(comp, i);
      SumGrows(s, i, nblk);
      SumNext(s, i);
      DescriptorIs(s, i, blk, clen, offset);
      var origChunk := if i == nblk - 1 then (origSz - offset) % WORD else blkSz;
      if blk + clen > comp.Length {
        overflow := true;
      } else {
        chunks := chunks + [Chunk(blk, clen, origChunk, offset)];
        NextOffset(i, blkSz);
        blk, offset, i := blk + clen, offset + origChunk, i + 1;
      }
    }
  }

  lemma DescriptorIs(s: seq<byte>, i: nat, start: nat, len: nat, offset: nat)
    requires Accepts(s) && i < BlockCount(s) && offset == i * LE32(s, 6)
    requires start == HEADER + 4 * BlockCount(s) + SumLengths(s, i) && len == LengthAt(s, i)
    ensures Descriptor(s, i)
         == Chunk(start, len, if i == BlockCount(s) - 1 then (LE32(s, 2) - offset) % WORD else LE32(s, 6), offset)
  {
    hide LE32, LE16, LengthAt, SumLengths;
  }

  lemma NoLengths(s: seq<byte>)
    requires |s| >= HEADER
    ensures SumLengths(s, 0) == 0
  {
  }

  lemma SumNext(s: seq<byte>, i: nat)
    requires HEADER + 4 * i + 4 <= |s|
    ensures SumLengths(s, i + 1) == SumLengths(s, i) + LengthAt(s, i)
  {
    hide LengthAt;
  }

  lemma NextOffset(i: nat, bs: nat)
    ensures (i + 1) * bs == i * bs + bs
  {
  }

  /** Every capacity that holds x is enough to decode z, and gives x. */
  ghost predicate DecodesTo(z: seq<byte>, x: seq<byte>) {
    forall cap: nat :: |x| <= cap ==> Decode(Lzo1x, Plain, cap, z) == Result(Ok, x)
  }

  /** The numbers of the return codes. */
  function Number(code: Code): int {
    match code
    case Ok => 0
    case InputOverrun => -4
    case OutputOverrun => -5
    case LookbehindOverrun => -6
    case InputNotConsumed => -8
  }

  /** decompress_block, on any stream that the decoder decodes: the stream is decoded to the output whatever size the
      caller expects, and the result is OK exactly when the stream ends with its EOF code, also on a wrong length. */
  method DecompressBlock(comp: array<byte>, start: nat, size: nat, output: array<byte>, offset: nat, origSize: nat)
    returns (rc: int)
    requires comp != output && start + size <= comp.Length && offset <= output.Length
    requires Decode(Lzo1x, Plain, output.Length - offset, comp[start..start + size]).code in {Ok, InputNotConsumed}
    modifies output
    ensures var r := Decode(Lzo1x, Plain, output.Length - offset, comp[start..start + size]);
            && rc == Number(r.code) && (rc == OK <==> r.code == Ok)
            && offset + |r.out| <= output.Length && output[..] == Overlay(old(output[..]), offset, r.out)
  {
    hide Decode, Overlay;
    var code, dstLen := DecompressUnchecked(Lzo1x, comp, start, size, output, offset);
    rc := if Number(code) == OK && dstLen == origSize then OK else Number(code);
  }

  /** A chunk of another length than its descriptor says is not reported: the stream of three bytes that stands for
      nothing is decoded with OK where one byte is expected. */
  lemma WrongLengthPasses(cap: nat)
    ensures Decode(Lzo1x, Plain, cap, [17, 0, 0]) == Result(Ok, [])
    ensures Number(Decode(Lzo1x, Plain, cap, [17, 0, 0]).code) == OK && |Decode(Lzo1x, Plain, cap, [17, 0, 0]).out| != 1
  {
    var src: seq<byte> := [17, 0, 0];
    var s := State(LiteralRun, 0, []);
    var m := State(Match(17), 1, []);
    assert Lzo1xDecoder.Step(Lzo1x, Plain, cap, src, INIT) == Goto(s);
    assert Lzo1xDecoder.Step(Lzo1x, Plain, cap, src, s) == Goto(m);
    assert ReadToken(Lzo1x, src, 1, 17) == Eof(3);
    assert Lzo1xDecoder.Step(Lzo1x, Plain, cap, src, m) == Halt(Ok, []);
  }

  /** The output range of chunk i holds its bytes. */
  ghost predicate Placed(data: seq<byte>, bs: nat, i: nat, out: seq<byte>)
    requires i < ChunkCount(|data|, bs) && |out| == |data|
  {
    var r := RangeAt(|data|, bs, i); out[r.offset..r.Stop] == Piece(data, bs, i)
  }

  /** Writing one chunk puts it in place and leaves the others alone. */
  lemma PlaceOne(data: seq<byte>, bs: nat, i: nat, j: nat, out: seq<byte>)
    requires i < ChunkCount(|data|, bs) && j < ChunkCount(|data|, bs) && |out| == |data|
    requires j == i || Placed(data, bs, j, out)
    ensures Placed(data, bs, j, Overlay(out, RangeAt(|data|, bs, i).offset, Piece(data, bs, i)))
  {
    hide RangeAt, Overlay;
    var r, x := RangeAt(|data|, bs, i), Piece(data, bs, i);
    OverlayAt(out, r.offset, x);
    if j < i {
      RangesDisjoint(|data|, bs, j, i);
      OverlayBefore(out, r.offset, x, RangeAt(|data|, bs, j).offset, RangeAt(|data|, bs, j).Stop);
    } else if i < j {
      RangesDisjoint(|data|, bs, i, j);
      OverlayBehind(out, r.offset, x, RangeAt(|data|, bs, j).offset, RangeAt(|data|, bs, j).Stop);
    }
  }

  /** When every chunk is in place, the output is the data. */
  lemma AllPlaced(data: seq<byte>, bs: nat, out: seq<byte>)
    requires |out| == |data| && forall i: nat :: i < ChunkCount(|data|, bs) ==> Placed(data, bs, i, out)
    ensures out == data
  {
    forall k | 0 <= k < |data|
      ensures out[k] == data[k]
    {
      RangesCover(|data|, bs, k);
      var i: nat :| i < ChunkCount(|data|, bs) && RangeAt(|data|, bs, i).offset <= k < RangeAt(|data|, bs, i).Stop;
      assert Placed(data, bs, i, out);
      var r := RangeAt(|data|, bs, i);
      assert out[r.offset..r.Stop][k - r.offset] == Piece(data, bs, i)[k - r.offset];
    }
  }

  /** A chunk that lies where its range says and whose stream decodes to that piece of the data. */
  ghost predicate Describes(data: seq<byte>, bs: nat, s: seq<byte>, i: nat, c: Chunk)
    requires i < ChunkCount(|data|, bs)
  {
    var r := RangeAt(|data|, bs, i);
    c.offset == r.offset && c.inSize == r.size && c.start + c.compSize <= |s|
    && DecodesTo(s[c.start..c.start + c.compSize], Piece(data, bs, i))
  }

  /** A file with as many chunks as its sizes call for, each of which decodes to its piece of the data. */
  ghost predicate Holds(s: seq<byte>, data: seq<byte>)
    requires Accepts(s)
  {
    && LE32(s, 2) == |data| && BlockCount(s) == ChunkCount(|data|, LE32(s, 6))
    && forall i: nat :: i < BlockCount(s) ==> Describes(data, LE32(s, 6), s, i, Descriptor(s, i))
  }

  lemma PieceDecodes(hash: Hash, data: seq<byte>, bs: nat, i: nat)
    requires i < ChunkCount(|data|, bs) && |data| <= UINT32_MAX
    ensures DecodesTo(Compress(Lzo1x, hash, Piece(data, bs, i)), Piece(data, bs, i))
  {
    hide Decode, Compress;
    var x := Piece(data, bs, i);
    forall cap: nat | |x| <= cap
      ensures Decode(Lzo1x, Plain, cap, Compress(Lzo1x, hash, x)) == Result(Ok, x)
    {
      RoundTrip(Lzo1x, Plain, cap, hash, x);
    }
  }

  /** A chunk that the decoder, which does not check anything, decodes without leaving its buffers. */
  predicate Safe(s: seq<byte>, n: nat, c: Chunk) {
    && c.start + c.compSize <= |s| && c.offset <= n
    && Decode(Lzo1x, Plain, n - c.offset, s[c.start..c.start + c.compSize]).code in {Ok, InputNotConsumed}
  }

  /** What the call on a chunk returns. */
  function ChunkCode(s: seq<byte>, n: nat, c: Chunk): int
    requires Safe(s, n, c)
  {
    Number(Decode(Lzo1x, Plain, n - c.offset, s[c.start..c.start + c.compSize]).code)
  }

  predicate AllSafe(s: seq<byte>, n: nat, chunks: seq<Chunk>) {
    forall i :: 0 <= i < |chunks| ==> Safe(s, n, chunks[i])
  }

  function Calls(s: seq<byte>, n: nat, chunks: seq<Chunk>): Job
    requires AllSafe(s, n, chunks)
  {
    (i: nat) => if i < |chunks| then ChunkCode(s, n, chunks[i]) else OK
  }

  /** The chunks of a container for these data. */
  ghost predicate AllDescribe(data: seq<byte>, bs: nat, s: seq<byte>, chunks: seq<Chunk>) {
    |chunks| == ChunkCount(|data|, bs) && forall i: nat :: i < |chunks| ==> Describes(data, bs, s, i, chunks[i])
  }

  lemma DescribedSafe(data: seq<byte>, bs: nat, s: seq<byte>, i: nat, c: Chunk)
    requires i < ChunkCount(|data|, bs) && Describes(data, bs, s, i, c)
    ensures Safe(s, |data|, c) && ChunkCode(s, |data|, c) == OK
    ensures Decode(Lzo1x, Plain, |data| - c.offset, s[c.start..c.start + c.compSize]) == Result(Ok, Piece(data, bs, i))
  {
    hide Decode;
    assert |Piece(data, bs, i)| <= |data| - c.offset;
  }

  /** One chunk more is in place. */
  lemma OnePlaced(data: seq<byte>, bs: nat, s: seq<byte>, chunks: seq<Chunk>, i: nat, j: nat, out: seq<byte>,
                  x: seq<byte>)
    requires AllDescribe(data, bs, s, chunks) && i < |chunks| && j < |chunks| && |out| == |data|
    requires Safe(s, |data|, chunks[i])
    requires x == Decode(Lzo1x, Plain, |data| - chunks[i].offset,
                         s[chunks[i].start..chunks[i].start + chunks[i].compSize]).out
    requires j == i || Placed(data, bs, j, out)
    ensures chunks[i].offset + |x| <= |out| && Placed(data, bs, j, Overlay(out, chunks[i].offset, x))
  {
    hide Decode, Overlay, Placed, RangeAt;
    DescribedSafe(data, bs, s, i, chunks[i]);
    PlaceOne(data, bs, i, j, out);
  }

  /** decompress_multi: again the workers take their steps in any order, all writing to the one output buffer. The
      status is OK exactly when every chunk is decoded with OK, and otherwise the code of some chunk. */
  method DecompressMulti(comp: array<byte>, chunks: seq<Chunk>, threads: int, output: array<byte>,
                         ghost data: seq<byte>, ghost bs: nat)
    returns (status: int)
    requires comp != output && AllSafe(comp[..], output.Length, chunks)
    modifies output
    ensures status == OK <==> forall i :: 0 <= i < |chunks| ==> ChunkCode(comp[..], output.Length, chunks[i]) == OK
    ensures status != OK ==> exists i :: 0 <= i < |chunks| && ChunkCode(comp[..], output.Length, chunks[i]) == status
    ensures output.Length == |data| && AllDescribe(data, bs, comp[..], chunks) ==> status == OK && output[..] == data
  {
    hide Decode, DecodesTo, FragPool.Step, Inv, Measure, Overlay, Placed, Safe, ChunkCode, Describes;
    var count := |chunks|;
    ghost var s, n := comp[..], output.Length;
    ghost var good := n == |data| && AllDescribe(data, bs, s, chunks);
    ghost var job := Calls(s, n, chunks);
    status := OK;
    if count > 0 {
      var p := Init(threads);
      InitInv(job, count, threads);
      while !AllExited(p)
        invariant Inv(job, count, p) && |p.pcs| >= 1
        invariant good ==> forall i: nat :: i < count && i in p.log ==> Placed(data, bs, i, output[..])
        decreases Measure(count, p)
      {
        var w: nat :| w < |p.pcs| && !p.pcs[w].Exited?;
        StepInv(job, count, p, w);
        StepDecreases(job, count, p, w);
        StepLog(job, count, p, w);
        var rc := OK;
        if p.pcs[w].Work? {
          rc := OneChunk(comp, chunks, p.pcs[w].idx, output, p.log, data, bs, good);
        }
        StepCalls(job, _ => rc, count, p, w);
        p := FragPool.Step(_ => rc, count, p, w);
      }
      FinalStatus(job, count, p);
      status := p.status;
    }
    forall i: nat | i < count
      ensures job(i) == ChunkCode(s, n, chunks[i])
    {
    }
    assert status == OK ==> forall i :: 0 <= i < count ==> job(i) == OK;
    if good {
      AllOk(data, bs, s, chunks);
      AllPlaced(data, bs, output[..]);
    }
  }

  lemma AllOk(data: seq<byte>, bs: nat, s: seq<byte>, chunks: seq<Chunk>)
    requires AllDescribe(data, bs, s, chunks)
    ensures AllSafe(s, |data|, chunks)
    ensures forall i :: 0 <= i < |chunks| ==> ChunkCode(s, |data|, chunks[i]) == OK
  {
    hide Safe, ChunkCode, Describes;
    forall i | 0 <= i < |chunks|
      ensures Safe(s, |data|, chunks[i]) && ChunkCode(s, |data|, chunks[i]) == OK
    {
      DescribedSafe(data, bs, s, i, chunks[i]);
    }
  }

  /** The body of decompress_worker for one chunk. */
  method OneChunk(comp: array<byte>, chunks: seq<Chunk>, i: nat, output: array<byte>, ghost log: seq<nat>,
                  ghost data: seq<byte>, ghost bs: nat, ghost good: bool)
    returns (rc: int)
    requires comp != output && i < |chunks| && AllSafe(comp[..], output.Length, chunks)
    requires good ==> output.Length == |data| && AllDescribe(data, bs, comp[..], chunks)
    requires good ==> forall j: nat :: j < |chunks| && j in log ==> Placed(data, bs, j, output[..])
    modifies output
    ensures rc == ChunkCode(comp[..], output.Length, chunks[i])
    ensures good ==> forall j: nat :: j < |chunks| && (j == i || j in log) ==> Placed(data, bs, j, output[..])
  {
    hide Decode, DecodesTo, Overlay, Placed, Describes;
    ghost var out, s := output[..], comp[..];
    var c := chunks[i];
    assert Safe(s, output.Length, c);
    assert comp[c.start..c.start + c.compSize] == s[c.start..c.start + c.compSize];
    rc := DecompressBlock(comp, c.start, c.compSize, output, c.offset, c.inSize);
    if good {
      forall j: nat | j < |chunks| && (j == i || j in log)
        ensures Placed(data, bs, j, output[..])
      {
        OnePlaced(data, bs, s, chunks, i, j, out,
                  Decode(Lzo1x, Plain, |data| - c.offset, s[c.start..c.start + c.compSize]).out);
      }
    }
  }

  /** The descriptors of an accepted file. */
  ghost function Chunks(s: seq<byte>): (r: seq<Chunk>)
    requires Accepts(s)
    ensures |r| == BlockCount(s)
  {
    seq(BlockCount(s), i requires 0 <= i < BlockCount(s) => Descriptor(s, i))
  }

  /** Every chunk of an accepted file can be decoded without leaving the buffers. */
  ghost predicate Decodable(s: seq<byte>) {
    Accepts(s) ==> AllSafe(s, LE32(s, 2), Chunks(s))
  }

  /** The checks hold and every chunk is decoded with OK. */
  ghost predicate Good(s: seq<byte>)
    requires Decodable(s)
  {
    Accepts(s) && forall i :: 0 <= i < BlockCount(s) ==> ChunkCode(s, LE32(s, 2), Chunks(s)[i]) == OK
  }

  /** decompress_file, on any file whose chunks can be decoded without leaving the buffers: it succeeds exactly when the
      checks hold and every chunk is decoded with OK, and it gives the data to whose pieces the chunks decode, however
      the workers interleave. */
  method DecompressFile(comp: array<byte>, threads: int, ghost data: seq<byte>) returns (rc: int, output: array<byte>)
    requires Decodable(comp[..])
    ensures rc == if Good(comp[..]) then 0 else 1
    ensures Accepts(comp[..]) && Holds(comp[..], data) ==> rc == 0 && output[..] == data
  {
    hide Descriptor, LE32, LE16, SumLengths, Safe, ChunkCode, Describes;
    var origSz, chunks;
    ghost var s := comp[..];
    rc, origSz, chunks := ParseContainer(comp);
    output := new byte[if rc == 0 then origSz else 0];
    if rc == 0 {
      assert chunks == Chunks(s);
      var status := DecompressMulti(comp, chunks, threads, output, data, LE32(s, 6));
      rc := if status != OK then 1 else 0;
    }
  }

  /** A file that compress_file has written passes the checks and holds its input, whatever the number of threads. */
  lemma PackedHolds(hash: Hash, threads: int, data: seq<byte>)
    requires |data| <= UINT32_MAX
    ensures var s := Packed(hash, threads, data); Accepts(s) && Holds(s, data) && Decodable(s) && Good(s)
  {
    hide Container, Compressed, Accepts, Descriptor, LE32, Describes;
    PackedReads(hash, data, ChooseBlockSize(|data|, threads));
    HeldGood(Packed(hash, threads, data), data);
  }

  /** A file that holds some data is decoded with OK. */
  lemma HeldGood(s: seq<byte>, data: seq<byte>)
    requires Accepts(s) && Holds(s, data)
    ensures Decodable(s) && Good(s)
  {
    hide Descriptor, LE32, Describes, Safe, ChunkCode;
    AllOk(data, LE32(s, 6), s, Chunks(s));
  }

  /** Blocks are large, so the chunk count and the table index fit 32 bits. */
  lemma FewChunks(n: nat, bs: nat)
    requires n <= UINT32_MAX && 1 <= bs && (bs < MIN_BLOCK_SIZE ==> bs == n)
    ensures ChunkCount(n, bs) <= 0x1_0000
  {
    if n > 0 {
      var c := ChunkCount(n, bs);
      CountBounds(n, bs);
      if bs < MIN_BLOCK_SIZE {
        if c > 1 {
          Scale(1, c - 1, bs);
        }
      } else if c > 0x1_0000 {
        Scale(0x1_0000, c - 1, bs);
      }
    }
  }

  lemma SmallChunk(hash: Hash, data: seq<byte>, bs: nat, k: nat)
    requires 1 <= bs <= MAX_BLOCK_SIZE && k < ChunkCount(|data|, bs)
    ensures |Compressed(hash, data, bs)[k]| < WORD32
  {
    hide Compress;
    ExpansionBound(Lzo1x, hash, Piece(data, bs, k));
  }

  /** The container of a file is accepted, and its descriptors are those of the compressed chunks. */
  lemma PackedReads(hash: Hash, data: seq<byte>, bs: nat)
    requires |data| <= UINT32_MAX && 1 <= bs <= MAX_BLOCK_SIZE && (bs < MIN_BLOCK_SIZE ==> bs == |data|)
    ensures var s := Container(|data|, bs, Compressed(hash, data, bs));
            && Accepts(s) && LE32(s, 2) == |data| && LE32(s, 6) == bs && BlockCount(s) == ChunkCount(|data|, bs)
            && forall i: nat :: i < BlockCount(s) ==> Describes(data, bs, s, i, Descriptor(s, i))
  {
    hide Container, Descriptor, Compress, RangeAt, SumLengths, DecodesTo, LE32;
    var zs := Compressed(hash, data, bs);
    var s := Container(|data|, bs, zs);
    FewChunks(|data|, bs);
    forall k | 0 <= k < |zs|
      ensures |zs[k]| < WORD32
    {
      SmallChunk(hash, data, bs, k);
    }
    ContainerReads(|data|, bs, zs, |zs|);
    forall i: nat | i < BlockCount(s)
      ensures Describes(data, bs, s, i, Descriptor(s, i))
    {
      ContainerReads(|data|, bs, zs, i);
      PieceDecodes(hash, data, bs, i);
    }
  }

  // ---- the two commands ----

  /** Where the chunks stand in the container that has just been built. */
  method PlaceChunks(n: nat, bs: nat, zs: seq<seq<byte>>, ghost s: seq<byte>) returns (chunks: seq<Chunk>)
    requires |zs| == ChunkCount(n, bs) && s == Container(n, bs, zs)
    ensures |chunks| == |zs|
    ensures forall i :: 0 <= i < |zs| ==>
              && At(s, chunks[i].start, zs[i]) && chunks[i].compSize == |zs[i]|
              && chunks[i].offset == RangeAt(n, bs, i).offset && chunks[i].inSize == RangeAt(n, bs, i).size
  {
    hide Container, Flat, Table, At, RangeAt;
    var plan := PlanChunks(n, bs);
    var cursor := HEADER + 4 * |zs|;
    EmptyParts(zs);
    chunks := [];
    for i := 0 to |zs|
      invariant |chunks| == i && cursor == HEADER + 4 * |zs| + |Flat(zs[..i])|
      invariant forall k :: 0 <= k < i ==>
                  && At(s, chunks[k].start, zs[k]) && chunks[k].compSize == |zs[k]|
                  && chunks[k].offset == RangeAt(n, bs, k).offset && chunks[k].inSize == RangeAt(n, bs, k).size
    {
      Pieces(s, n, bs, zs);
      FlatAt(s, HEADER + 4 * |zs|, zs, i);
      Snoc(zs, i);
      chunks := chunks + [Chunk(cursor, |zs[i]|, plan[i].size, plan[i].offset)];
      cursor := cursor + |zs[i]|;
    }
  }

  /** The verification of compress_file: the chunks are decoded again by a pool of workers and compared. It never
      fails. The chunks are read where they stand in the container. */
  method Verify(ghost hash: Hash, input: array<byte>, bs: nat, zs: seq<seq<byte>>, buf: array<byte>, threads: int)
    returns (ok: bool)
    requires input.Length <= UINT32_MAX && zs == Compressed(hash, input[..], bs)
    requires buf[..] == Container(input.Length, bs, zs)
    ensures ok
  {
    hide Container, DecodesTo, Compress;
    ghost var data := input[..];
    var chunks := PlaceChunks(input.Length, bs, zs, buf[..]);
    var output := new byte[input.Length];
    forall i: nat | i < |chunks|
      ensures Describes(data, bs, buf[..], i, chunks[i])
    {
      PieceDecodes(hash, data, bs, i);
    }
    AllOk(data, bs, buf[..], chunks);
    var status := DecompressMulti(buf, chunks, threads, output, data, bs);
    ok := status == OK && output[..] == input[..];
  }

  /** compress_file, from the bytes that were read to the bytes that are written; with verifyOnly nothing is written. */
  method CompressFile(hashes: Hashes, input: array<byte>, named: Alg, level: int, threads: int, verifyOnly: bool)
    returns (rc: int, out: seq<byte>)
    ensures rc == if input.Length > UINT32_MAX then 1 else 0
    ensures out == if rc == 0 && !verifyOnly then Packed(Finder(hashes, Resolve(named, level)), threads, input[..])
                   else []
  {
    hide Compressed, Container, Compress;
    rc, out := 0, [];
    if input.Length > UINT32_MAX {
      rc := 1;
      return;
    }
    var hash := Finder(hashes, Resolve(named, level));
    var bs := ChooseBlockSize(input.Length, threads);
    var status, zs := CompressMulti(hash, input, bs, threads);
    if status != OK {
      rc := 1;
      return;
    }
    var buf := BuildContainer(input.Length, bs, zs);
    if verifyOnly {
      var ok := Verify(hash, input, bs, zs, buf, threads);
      if !ok {
        rc := 1;
      }
    } else {
      out := buf[..];
    }
  }
}
