// The smallest files of lzopack and of lzo_frag, byte for byte.
module KnownFiles {
  import opened Bytes
  import opened Adler
  import opened Lzo1xFormat
  import opened Lzo1xEncoder
  import opened Lzo1xCompress
  import Lzo1xFinder
  import Lzopack
  import FragFormat

  /** lzopack on no data, with its usual blocks of 256 KiB. */
  lemma LzopackNothing(hash: Hash, level: byte)
    ensures Lzopack.Packed(hash, level, 262144, [])
         == [0x00, 0xe9, 0x4c, 0x5a, 0x4f, 0xff, 0x1a, 0, 0, 0, 1, 1, level, 0, 4, 0, 0, 0, 0, 0, 0, 0, 0, 0, 1]
  {
    ChecksumOfNothing(1);
    assert Lzopack.Be32(262144) == [0, 4, 0, 0] && Lzopack.Be32(1) == [0, 0, 0, 1] && Lzopack.Be32(0) == [0, 0, 0, 0];
  }

  /** lzopack on one byte, which is stored. */
  lemma LzopackOneByte(hash: Hash, level: byte, x: byte)
    requires x < 255
    ensures Lzopack.Packed(hash, level, 262144, [x])
         == [0x00, 0xe9, 0x4c, 0x5a, 0x4f, 0xff, 0x1a, 0, 0, 0, 1, 1, level, 0, 4, 0, 0, 0, 0, 0, 1, 0, 0, 0, 1, x,
             0, 0, 0, 0, 0, x + 1, 0, x + 1]
  {
    HeaderBytes(level);
    BlockOfOne(hash, x);
    TrailerOfOne(x);
    hide Lzopack.Header, Lzopack.Blocks, Lzopack.Trailer;
  }

  lemma HeaderBytes(level: byte)
    ensures Lzopack.Header(level, 262144)
         == [0x00, 0xe9, 0x4c, 0x5a, 0x4f, 0xff, 0x1a, 0, 0, 0, 1, 1, level, 0, 4, 0, 0]
  {
    assert Lzopack.Be32(262144) == [0, 4, 0, 0] && Lzopack.Be32(1) == [0, 0, 0, 1];
  }

  lemma BlockOfOne(hash: Hash, x: byte)
    ensures Lzopack.Blocks(hash, 262144, [x]) == [0, 0, 0, 1, 0, 0, 0, 1, x]
  {
    hide Compress;
    OneByte(hash, x);
    assert Lzopack.Be32(1) == [0, 0, 0, 1];
    hide Lzopack.Be32;
    assert Lzopack.Block(hash, [x]) == [0, 0, 0, 1, 0, 0, 0, 1, x];
    hide Lzopack.Block;
    assert [x][..1] == [x] && [x][1..] == [];
    assert Lzopack.Blocks(hash, 262144, []) == [];
  }

  lemma TrailerOfOne(x: byte)
    requires x < 255
    ensures Lzopack.Trailer([x]) == [0, 0, 0, 0, 0, x + 1, 0, x + 1]
  {
    hide Checksum;
    ChecksumOfOne(x);
    var c := (x + 1) * 0x1_0000 + x + 1;
    assert c / 0x1_0000 == x + 1 && c / 0x100 == (x + 1) * 0x100 && c / 0x100_0000 == 0;
    assert Lzopack.Be32(0) == [0, 0, 0, 0];
    assert Lzopack.Be32(c) == [0, x + 1, 0, x + 1];
  }

  lemma OneByte(hash: Hash, x: byte)
    ensures Compress(Lzo1x, hash, [x]) == [18, x, 17, 0, 0]
  {
    hide Compress;
    Lzo1xFinder.ShortInputs(Lzo1x, hash, [x]);
  }

  lemma ChecksumOfOne(x: byte)
    requires x < 255
    ensures Checksum(1, [x]) == (x + 1) * 0x1_0000 + x + 1
  {
    assert Unpack(1) == Sums(1, 0);
    assert Step(Sums(1, 0), x) == Sums(x + 1, x + 1);
    hide Unpack, Step;
    FoldEmpty(Sums(1, 0), []);
    FoldMore(Sums(1, 0), [], x);
    assert [] + [x] == [x];
  }

  /** lzo_frag on no data. */
  lemma FragNothing(hash: Hash, threads: int)
    ensures FragFormat.Packed(hash, threads, []) == [0x5a, 0x4c, 0, 0, 0, 0, 0, 0, 1, 0, 0, 0, 0, 0]
  {
    assert FragFormat.Compressed(hash, [], FragFormat.ChooseBlockSize(0, threads)) == [];
  }

  /** lzo_frag on one byte. */
  lemma FragOneByte(hash: Hash, threads: int, x: byte)
    ensures FragFormat.Packed(hash, threads, [x])
         == [0x5a, 0x4c, 1, 0, 0, 0, 1, 0, 0, 0, 1, 0, 0, 0, 5, 0, 0, 0, 18, x, 17, 0, 0]
  {
    assert FragFormat.ChooseBlockSize(1, threads) == 1;
    OneChunk(hash, x);
    var z: seq<byte> := [18, x, 17, 0, 0];
    OneTable(z);
    assert FragFormat.Header(1, 1, 1) == [0x5a, 0x4c, 1, 0, 0, 0, 1, 0, 0, 0, 1, 0, 0, 0];
    hide FragFormat.Header, FragFormat.Table, FragFormat.Flat, FragFormat.Compressed;
  }

  lemma OneChunk(hash: Hash, x: byte)
    ensures FragFormat.Compressed(hash, [x], 1) == [[18, x, 17, 0, 0]]
  {
    hide Compress;
    OneByte(hash, x);
    assert FragFormat.ChunkCount(1, 1) == 1;
    assert FragFormat.Piece([x], 1, 0) == [x];
  }

  lemma OneTable(z: seq<byte>)
    requires |z| == 5
    ensures FragFormat.Table([z]) == [5, 0, 0, 0] && FragFormat.Flat([z]) == z
  {
    assert [z][..0] == [];
    assert FragFormat.ToLe32(5) == [5, 0, 0, 0];
  }
}
