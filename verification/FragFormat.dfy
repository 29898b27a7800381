// lzo_cpu/lzo_frag.c: the division of the input into chunks, and the container.
module FragFormat {
  import opened Bytes
  import opened Arithmetic
  import opened Layout
  import opened Lzo1xFormat
  import opened Lzo1xEncoder
  import opened Lzo1xCompress

  const MAGIC_TAG := 0x4C5A
  const MIN_BLOCK_SIZE := 64 * 1024
  const MAX_BLOCK_SIZE := 1024 * 1024
  const HEADER := 14

  // ---- chunks ----

  function ChooseBlockSize(total: nat, threads: int): (blk: nat)
    ensures 1 <= blk <= MAX_BLOCK_SIZE
    ensures blk < MIN_BLOCK_SIZE ==> blk == total
    ensures total > 0 ==> blk <= total
  {
    var t := if threads < 1 then 1 else threads;
    var blk0 := (total + t - 1) / t;
    var blk1 := if blk0 < MIN_BLOCK_SIZE then MIN_BLOCK_SIZE else blk0;
    var blk2 := if blk1 > MAX_BLOCK_SIZE then MAX_BLOCK_SIZE else blk1;
    var blk3 := if blk2 > total then total else blk2;
    if blk3 == 0 && total == 0 then MIN_BLOCK_SIZE else blk3
  }

  /** The number of chunks. A block size of 0 means one chunk. */
  function ChunkCount(n: nat, bs: nat): nat {
    if bs == 0 || n == 0 then if n == 0 then 0 else 1 else (n + bs - 1) / bs
  }

  datatype Range = Range(offset: nat, size: nat)
  {
    const Stop: nat := offset + size
  }

  lemma CountBounds(n: nat, bs: nat)
    requires n >= 1 && bs >= 1
    ensures var c := ChunkCount(n, bs); c >= 1 && (c - 1) * bs < n <= c * bs
  {
    var c := (n + bs - 1) / bs;
    assert n + bs - 1 == c * bs + (n + bs - 1) % bs;
    assert (c - 1) * bs == c * bs - bs;
  }

  /** The block size is large enough for one chunk a thread, unless that takes more than 1 MiB, and above 64 KiB it is
      no larger than that. */
  lemma BlockSizeExact(total: nat, threads: int)
    ensures var t, blk := (if threads < 1 then 1 else threads), ChooseBlockSize(total, threads);
            && (blk < 1048576 ==> ChunkCount(total, blk) <= t)
            && (blk > 65536 ==> (blk - 1) * t < total)
            && (if total == 0 then blk == 65536 else blk <= total && (blk < 65536 ==> blk == total)) && blk <= 1048576
  {
    var t: nat := if threads < 1 then 1 else threads;
    var blk := ChooseBlockSize(total, threads);
    if total > 0 {
      var c := ChunkCount(total, t);
      CountBounds(total, t);
      if blk < MAX_BLOCK_SIZE {
        Enough(total, blk, t, c);
      }
      if blk > MIN_BLOCK_SIZE {
        Scale(blk - 1, c - 1, t);
      }
    }
  }

  /** Blocks of at least c bytes, or of everything, make at most t chunks when c * t covers the input. */
  lemma Enough(total: nat, blk: nat, t: nat, c: nat)
    requires total > 0 && blk > 0 && t > 0 && total <= c * t && (c <= blk || blk == total)
    ensures ChunkCount(total, blk) <= t
  {
    if c <= blk {
      Scale(c, blk, t);
    } else {
      Scale(1, t, blk);
    }
    assert total <= t * blk;
    CountBounds(total, blk);
    Cancel(ChunkCount(total, blk) - 1, t, blk);
  }

  /** The chunk that starts at i * bs. */
  function RangeAt(n: nat, bs: nat, i: nat): (r: Range)
    requires i < ChunkCount(n, bs)
    ensures r.Stop <= n
  {
    InputHasChunk(n, bs, i);
    var left := n - i * bs;
    Range(i * bs, if left < bs || bs == 0 then left else bs)
  }

  lemma InputHasChunk(n: nat, bs: nat, i: nat)
    requires i < ChunkCount(n, bs)
    ensures i * bs < n && n > 0
  {
    if bs > 0 {
      CountBounds(n, bs);
      Scale(i, ChunkCount(n, bs) - 1, bs);
    }
  }

  /** The chunks are not empty, start at 0, follow each other without gap or overlap, and end at the end of the input.
      */
  lemma RangesTile(n: nat, bs: nat, i: nat)
    requires i < ChunkCount(n, bs)
    ensures RangeAt(n, bs, 0).offset == 0 && RangeAt(n, bs, i).size > 0
    ensures RangeAt(n, bs, i).Stop == if i + 1 < ChunkCount(n, bs) then RangeAt(n, bs, i + 1).offset else n
    ensures i + 1 < ChunkCount(n, bs) ==> RangeAt(n, bs, i).size == bs
  {
    InputHasChunk(n, bs, i);
    if bs > 0 {
      CountBounds(n, bs);
      Scale(i, i + 1, bs);
      if i + 1 < ChunkCount(n, bs) {
        InputHasChunk(n, bs, i + 1);
      }
    }
  }

  /** Different chunks have no byte in common. */
  lemma RangesDisjoint(n: nat, bs: nat, i: nat, j: nat)
    requires i < j < ChunkCount(n, bs)
    ensures RangeAt(n, bs, i).Stop <= RangeAt(n, bs, j).offset
  {
    RangesTile(n, bs, i);
    Scale(i + 1, j, bs);
  }

  /** Every byte is in some chunk. */
  lemma RangesCover(n: nat, bs: nat, k: nat)
    requires k < n
    ensures exists i: nat :: i < ChunkCount(n, bs) && RangeAt(n, bs, i).offset <= k < RangeAt(n, bs, i).Stop
  {
    if bs == 0 {
      assert RangeAt(n, bs, 0).offset <= k < RangeAt(n, bs, 0).Stop;
    } else {
      var i := k / bs;
      assert k == i * bs + k % bs;
      CountBounds(n, bs);
      var c := ChunkCount(n, bs);
      if i >= c {
        Scale(c, i, bs);
      }
      assert i < c;
      assert RangeAt(n, bs, i).offset <= k < RangeAt(n, bs, i).Stop;
    }
  }

  function Piece(input: seq<byte>, bs: nat, i: nat): (r: seq<byte>)
    requires i < ChunkCount(|input|, bs)
    ensures |r| == RangeAt(|input|, bs, i).size
  {
    var r := RangeAt(|input|, bs, i);
    input[r.offset..r.Stop]
  }

  /** The compressed chunks. */
  function Compressed(hash: Hash, input: seq<byte>, bs: nat): (zs: seq<seq<byte>>)
    ensures |zs| == ChunkCount(|input|, bs)
  {
    seq(ChunkCount(|input|, bs), i requires 0 <= i < ChunkCount(|input|, bs) =>
      Compress(Lzo1x, hash, Piece(input, bs, i)))
  }

  // ---- the container ----

  /** write_u16 and write_u32. */
  function ToLe16(v: nat): (r: seq<byte>)
    ensures |r| == 2
  {
    [ToByte(v), ToByte(v / 0x100)]
  }

  function ToLe32(v: nat): (r: seq<byte>)
    ensures |r| == 4
  {
    [ToByte(v), ToByte(v / 0x100), ToByte(v / 0x1_0000), ToByte(v / 0x100_0000)]
  }

  function LE16(s: seq<byte>, i: nat): nat
    requires i + 2 <= |s|
  {
    s[i] as int + 0x100 * s[i + 1] as int
  }

  /** read_u32 undoes write_u32. */
  lemma Le32RoundTrip(s: seq<byte>, i: nat, v: nat)
    requires v < WORD32 && At(s, i, ToLe32(v))
    ensures i + 4 <= |s| && LE32(s, i) == v
  {
    AtByte(s, i, ToLe32(v), 0);
    AtByte(s, i, ToLe32(v), 1);
    AtByte(s, i, ToLe32(v), 2);
    AtByte(s, i, ToLe32(v), 3);
    hide At;
    var a, b, c := v / 0x100, v / 0x1_0000, v / 0x100_0000;
    assert b == a / 0x100 && c == b / 0x100;
    assert v == 0x100 * a + v % 0x100 && a == 0x100 * b + a % 0x100 && b == 0x100 * c + b % 0x100;
  }

  lemma Le16RoundTrip(s: seq<byte>, i: nat, v: nat)
    requires v < 0x1_0000 && At(s, i, ToLe16(v))
    ensures i + 2 <= |s| && LE16(s, i) == v
  {
    AtByte(s, i, ToLe16(v), 0);
    AtByte(s, i, ToLe16(v), 1);
  }

  /** The length table, then the chunks. */
  function Table(zs: seq<seq<byte>>): (r: seq<byte>)
    ensures |r| == 4 * |zs|
  {
    if zs == [] then [] else Table(zs[..|zs| - 1]) + ToLe32(|zs[|zs| - 1]|)
  }

  function Flat(zs: seq<seq<byte>>): seq<byte> {
    if zs == [] then [] else Flat(zs[..|zs| - 1]) + zs[|zs| - 1]
  }

  function Header(n: nat, bs: nat, count: nat): (r: seq<byte>)
    ensures |r| == HEADER
  {
    ToLe16(MAGIC_TAG) + ToLe32(n) + ToLe32(bs) + ToLe32(count)
  }

  function Container(n: nat, bs: nat, zs: seq<seq<byte>>): seq<byte> {
    Header(n, bs, |zs|) + Table(zs) + Flat(zs)
  }

  /** The file that compress_file writes. */
  function Packed(hash: Hash, threads: int, input: seq<byte>): seq<byte> {
    var bs := ChooseBlockSize(|input|, threads);
    Container(|input|, bs, Compressed(hash, input, bs))
  }

  // ---- reading it ----

  /** Entry i of the length table. Its index is computed in 32 bits. */
  function LengthAt(s: seq<byte>, i: nat): nat
    requires HEADER + 4 * i + 4 <= |s|
  {
    LE32(s, HEADER + (4 * i) % WORD32)
  }

  function SumLengths(s: seq<byte>, i: nat): nat
    requires HEADER + 4 * i <= |s|
  {
    if i == 0 then 0 else SumLengths(s, i - 1) + LengthAt(s, i - 1)
  }

  function BlockCount(s: seq<byte>): nat
    requires |s| >= HEADER
  {
    LE32(s, 10)
  }

  /** The checks of decompress_file. */
  predicate Accepts(s: seq<byte>) {
    && |s| >= HEADER && LE16(s, 0) == MAGIC_TAG
    && HEADER + 4 * BlockCount(s) <= |s|
    && HEADER + 4 * BlockCount(s) + SumLengths(s, BlockCount(s)) <= |s|
  }

  /** Where a chunk lies in the file and in the output. */
  datatype Chunk = Chunk(start: nat, compSize: nat, inSize: nat, offset: nat)

  /** The descriptor that decompress_file computes for chunk i; sizes are 64-bit words. */
  function Descriptor(s: seq<byte>, i: nat): Chunk
    requires Accepts(s) && i < BlockCount(s)
  {
    ChunkAt(LE32(s, 2), LE32(s, 6), BlockCount(s), i, SumLengths(s, i), LengthAt(s, i))
  }

  function ChunkAt(n: nat, bs: nat, count: nat, i: nat, sum: nat, len: nat): Chunk {
    var offset := i * bs;
    Chunk(HEADER + 4 * count + sum, len, if i == count - 1 then (n - offset) % WORD else bs, offset)
  }

  lemma {:induction false} SumGrows(s: seq<byte>, i: nat, n: nat)
    requires i <= n && HEADER + 4 * n <= |s|
    ensures SumLengths(s, i) <= SumLengths(s, n)
    ensures i < n ==> SumLengths(s, i) + LengthAt(s, i) <= SumLengths(s, n)
  {
    if i + 1 < n {
      SumGrows(s, i, n - 1);
    }
  }

  // ---- the written container is read back ----

  lemma {:induction false} TableAt(s: seq<byte>, at: nat, zs: seq<seq<byte>>, i: nat)
    requires At(s, at, Table(zs)) && i < |zs|
    ensures At(s, at + 4 * i, ToLe32(|zs[i]|))
    decreases |zs|
  {
    hide At, ToLe32;
    var k := |zs| - 1;
    AtSplit(s, at, Table(zs[..k]), ToLe32(|zs[k]|));
    if i < k {
      TableAt(s, at, zs[..k], i);
    }
  }

  lemma {:induction false} FlatAt(s: seq<byte>, at: nat, zs: seq<seq<byte>>, i: nat)
    requires At(s, at, Flat(zs)) && i < |zs|
    ensures At(s, at + |Flat(zs[..i])|, zs[i])
    decreases |zs|
  {
    hide At;
    var k := |zs| - 1;
    AtSplit(s, at, Flat(zs[..k]), zs[k]);
    if i < k {
      FlatAt(s, at, zs[..k], i);
      assert zs[..k][..i] == zs[..i];
    }
  }

  /** The lengths that the reader adds up are those of the chunks. */
  lemma {:induction false} SumIsFlat(s: seq<byte>, zs: seq<seq<byte>>, i: nat)
    requires At(s, HEADER, Table(zs)) && i <= |zs| < WORD32 / 4 && HEADER + 4 * |zs| <= |s|
    requires forall k :: 0 <= k < |zs| ==> |zs[k]| < WORD32
    ensures SumLengths(s, i) == |Flat(zs[..i])|
    ensures i < |zs| ==> LengthAt(s, i) == |zs[i]|
  {
    hide At, Table, LengthAt;
    if i > 0 {
      SumIsFlat(s, zs, i - 1);
      assert zs[..i][..i - 1] == zs[..i - 1] && zs[..i][i - 1] == zs[i - 1];
    }
    if i < |zs| {
      LengthIs(s, zs, i);
    }
  }

  lemma LengthIs(s: seq<byte>, zs: seq<seq<byte>>, i: nat)
    requires At(s, HEADER, Table(zs)) && i < |zs| < WORD32 / 4 && |zs[i]| < WORD32
    ensures HEADER + 4 * i + 4 <= |s| && LengthAt(s, i) == |zs[i]|
  {
    hide At, Table, ToLe32, LE32;
    TableAt(s, HEADER, zs, i);
    Le32RoundTrip(s, HEADER + 4 * i, |zs[i]|);
  }

  lemma HeaderReads(s: seq<byte>, n: nat, bs: nat, count: nat)
    requires n < WORD32 && bs < WORD32 && count < WORD32 && At(s, 0, Header(n, bs, count))
    ensures |s| >= HEADER && LE16(s, 0) == MAGIC_TAG && LE32(s, 2) == n && LE32(s, 6) == bs && LE32(s, 10) == count
  {
    hide At, ToLe16, ToLe32;
    AtSplit(s, 0, ToLe16(MAGIC_TAG) + ToLe32(n) + ToLe32(bs), ToLe32(count));
    AtSplit(s, 0, ToLe16(MAGIC_TAG) + ToLe32(n), ToLe32(bs));
    AtSplit(s, 0, ToLe16(MAGIC_TAG), ToLe32(n));
    Le16RoundTrip(s, 0, MAGIC_TAG);
    Le32RoundTrip(s, 2, n);
    Le32RoundTrip(s, 6, bs);
    Le32RoundTrip(s, 10, count);
  }

  /** A container of the writer passes every check, and its descriptors are the chunks that were written. */
  lemma ContainerReads(n: nat, bs: nat, zs: seq<seq<byte>>, i: nat)
    requires n < WORD32 && bs < WORD32 && |zs| < WORD32 / 4 && |zs| == ChunkCount(n, bs)
    requires forall k :: 0 <= k < |zs| ==> |zs[k]| < WORD32
    ensures var s := Container(n, bs, zs);
            && Accepts(s) && BlockCount(s) == |zs| && LE32(s, 2) == n && LE32(s, 6) == bs
            && (i < |zs| ==>
                  var c := Descriptor(s, i);
                  && At(s, c.start, zs[i]) && c.compSize == |zs[i]|
                  && c.offset == RangeAt(n, bs, i).offset && c.inSize == RangeAt(n, bs, i).size)
  {
    hide At, Header, SumLengths, LengthAt, Table, Flat;
    var s := Container(n, bs, zs);
    Pieces(s, n, bs, zs);
    HeaderReads(s, n, bs, |zs|);
    SumIsFlat(s, zs, |zs|);
    assert zs[..|zs|] == zs;
    if i < |zs| {
      FlatAt(s, HEADER + 4 * |zs|, zs, i);
      SumIsFlat(s, zs, i);
      RangesTile(n, bs, i);
      if i + 1 == |zs| {
        LastSize(n, i * bs, RangeAt(n, bs, i).size);
      }
    }
  }

  lemma LastSize(n: nat, offset: nat, size: nat)
    requires n < WORD32 && offset + size == n
    ensures (n - offset) % WORD == size
  {
  }

  lemma Pieces(s: seq<byte>, n: nat, bs: nat, zs: seq<seq<byte>>)
    requires s == Container(n, bs, zs)
    ensures At(s, 0, Header(n, bs, |zs|)) && At(s, HEADER, Table(zs)) && At(s, HEADER + 4 * |zs|, Flat(zs))
    ensures |s| == HEADER + 4 * |zs| + |Flat(zs)|
  {
    hide Header, Table, Flat;
    var h, t, f := Header(n, bs, |zs|), Table(zs), Flat(zs);
    assert s[..|s|] == s;
    assert At(s, 0, h + t + f);
    AtSplit(s, 0, h + t, f);
    AtSplit(s, 0, h, t);
  }
}
