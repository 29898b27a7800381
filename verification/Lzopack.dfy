// examples/lzopack.c: the streamed block container with a running checksum.
module Lzopack {
  import opened Bytes
  import opened Slices
  import opened Memory
  import opened Adler
  import opened Lzo1xFormat
  import opened Lzo1xDecoder
  import opened Lzo1xParse
  import opened Lzo1xDecompress
  import opened Lzo1xEncoder
  import opened Lzo1xCompress
  import opened Lzo1xCompressor

  // ---- the format ----

  const MAGIC: seq<byte> := [0x00, 0xe9, 0x4c, 0x5a, 0x4f, 0xff, 0x1a]

  /** xwrite32: the low 32 bits, most significant byte first. */
  function Be32(v: nat): (r: seq<byte>)
    ensures |r| == 4
  {
    [ToByte(v / 0x100_0000), ToByte(v / 0x1_0000), ToByte(v / 0x100), ToByte(v)]
  }

  function FromBe32(b: seq<byte>): (v: nat)
    requires |b| == 4
    ensures v < WORD32
  {
    b[3] as nat + b[2] as nat * 0x100 + b[1] as nat * 0x1_0000 + b[0] as nat * 0x100_0000
  }

  lemma Be32RoundTrip(v: nat)
    requires v < WORD32
    ensures FromBe32(Be32(v)) == v
  {
    var a, b, c := v / 0x100, v / 0x1_0000, v / 0x100_0000;
    assert b == a / 0x100 && c == b / 0x100;
    assert v == 0x100 * a + v % 0x100 && a == 0x100 * b + a % 0x100 && b == 0x100 * c + b % 0x100;
  }

  function Header(level: byte, blockSize: nat): seq<byte> {
    MAGIC + Be32(1) + [1, level] + Be32(blockSize)
  }

  /** A block is stored compressed when that is shorter, and as it is otherwise. */
  function Block(hash: Hash, x: seq<byte>): seq<byte> {
    var z := Compress(Lzo1x, hash, x);
    Be32(|x|) + (if |z| < |x| then Be32(|z|) + z else Be32(|x|) + x)
  }

  function Blocks(hash: Hash, blockSize: nat, data: seq<byte>): seq<byte>
    requires blockSize >= 1
  {
    if data == [] then []
    else
      var n := if blockSize < |data| then blockSize else |data|;
      Block(hash, data[..n]) + Blocks(hash, blockSize, data[n..])
  }

  /** The file that lzopack writes for the data. */
  function Packed(hash: Hash, level: byte, blockSize: nat, data: seq<byte>): seq<byte>
    requires blockSize >= 1
  {
    Header(level, blockSize) + Blocks(hash, blockSize, data) + Trailer(data)
  }

  function Trailer(data: seq<byte>): seq<byte> {
    Be32(0) + Be32(Checksum(1, data))
  }

  // ---- files ----

  /** A file with a read position. Writing appends. */
  class File {
    var content: seq<byte>
    var pos: nat

    ghost predicate Valid()
      reads this
    {
      pos <= |content|
    }

    /** What is still to be read. */
    ghost function Rest(): seq<byte>
      requires Valid()
      reads this
    {
      content[pos..]
    }

    /** xread with allow_eof: up to len bytes. */
    method Read(len: nat) returns (x: seq<byte>)
      requires Valid()
      modifies this`pos
      ensures Valid() && |x| == (if len < |old(Rest())| then len else |old(Rest())|)
      ensures old(Rest()) == x + Rest()
    {
      var n := if len < |content| - pos then len else |content| - pos;
      x := content[pos..pos + n];
      Join(content, pos, pos + n, |content|);
      pos := pos + n;
    }

    method Write(x: seq<byte>)
      modifies this`content
      ensures content == old(content) + x
    {
      content := content + x;
    }

    /** xgetc. A short file is a fatal error. */
    method GetC() returns (ok: bool, c: byte)
      requires Valid()
      modifies this`pos
      ensures Valid() && |Rest()| <= |old(Rest())| && ok == (|old(Rest())| >= 1)
      ensures ok ==> c == old(Rest())[0] && Rest() == old(Rest())[1..]
    {
      ghost var rest := Rest();
      var b := Read(1);
      ok := |b| == 1;
      c := if ok then b[0] else 0;
    }

    /** xread32. A short file is a fatal error. */
    method Read32() returns (ok: bool, v: nat)
      requires Valid()
      modifies this`pos
      ensures Valid() && |Rest()| <= |old(Rest())| && ok == (|old(Rest())| >= 4)
      ensures ok ==> v == FromBe32(old(Rest())[..4]) && Rest() == old(Rest())[4..]
    {
      ghost var rest := Rest();
      var b := Read(4);
      ok := |b| == 4;
      v := if ok then FromBe32(b) else 0;
    }
  }

  // ---- compression ----

  lemma ChecksumEmpty()
    ensures Checksum(1, []) == 1
  {
  }

  lemma BlocksFirst(hash: Hash, blockSize: nat, data: seq<byte>, x: seq<byte>, rest: seq<byte>)
    requires blockSize >= 1 && data == x + rest && x != []
    requires |x| == (if blockSize < |data| then blockSize else |data|)
    ensures Blocks(hash, blockSize, data) == Block(hash, x) + Blocks(hash, blockSize, rest)
  {
    hide Block;
    assert data[..|x|] == x && data[|x|..] == rest;
  }

  /** The body of the compression loop: one block is compressed and written in the shorter form. */
  method WriteBlock(hash: Hash, fo: File, in_: array<byte>, n: nat, out: array<byte>, wrkmem: array<word16>)
    returns (ok: bool)
    requires 0 < n <= in_.Length && n < WORD32 && WorstCase(n) <= out.Length && in_ != out && hash.size <= wrkmem.Length
    modifies out, wrkmem, fo`content
    ensures ok && fo.content == old(fo.content) + Block(hash, in_[..n])
  {
    hide Compress;
    assert in_[0..n] == in_[..n];
    var outLen := CompressTo(Lzo1x, hash, in_, 0, n, out, 0, wrkmem);
    ghost var z := Compress(Lzo1x, hash, in_[..n]);
    assert out[..outLen] == z;
    ok := outLen <= WorstCase(n);
    fo.Write(Be32(n));
    if outLen < n {
      fo.Write(Be32(outLen));
      fo.Write(out[..outLen]);
    } else {
      fo.Write(Be32(n));
      fo.Write(in_[..n]);
    }
  }

  method WriteHeader(fo: File, level: byte, blockSize: nat)
    modifies fo`content
    ensures fo.content == old(fo.content) + Header(level, blockSize)
  {
    fo.Write(MAGIC);
    fo.Write(Be32(1));
    fo.Write([1]);
    fo.Write([level]);
    fo.Write(Be32(blockSize));
  }

  /** One round of the loop: reads a block, adds it to the checksum and writes it. */
  method CompressOne(hash: Hash, fi: File, fo: File, in_: array<byte>, out: array<byte>, wrkmem: array<word16>,
                     checksum0: nat, ghost done: seq<byte>)
    returns (r: int, more: bool, checksum: nat, ghost x: seq<byte>)
    requires fi != fo && fi.Valid() && 1 <= in_.Length < WORD32 && WorstCase(in_.Length) <= out.Length && in_ != out
    requires hash.size <= wrkmem.Length && checksum0 == Checksum(1, done) < WORD32
    modifies in_, out, wrkmem, fi`pos, fo`content
    ensures r == 0 && fi.Valid() && more == (old(fi.Rest()) != []) && old(fi.Rest()) == x + fi.Rest()
    ensures checksum == Checksum(1, done + x) < WORD32
    ensures if more then |fi.Rest()| < |old(fi.Rest())| && fo.content == old(fo.content) + Block(hash, x)
                         && Blocks(hash, in_.Length, old(fi.Rest()))
                           == Block(hash, x) + Blocks(hash, in_.Length, fi.Rest())
            else x == [] && fo.content == old(fo.content)
  {
    hide Blocks, Block, Checksum;
    ghost var rest := fi.Rest();
    r, checksum, more := 0, checksum0, true;
    var block := fi.Read(in_.Length);
    x := block;
    if |block| == 0 {
      more := false;
      assert done + x == done;
    } else {
      StoreBytes(in_, 0, block);
      assert in_[..|x|] == x && in_[0..|x|] == x;
      ChecksumConcat(1, done, x);
      ChecksumBound(1, done + x);
      checksum := Adler32(checksum, in_, 0, |block|);
      BlocksFirst(hash, in_.Length, rest, x, fi.Rest());
      var ok := WriteBlock(hash, fo, in_, |block|, out, wrkmem);
      r := if ok then 0 else 2;
    }
  }

  /** The level at which do_compress runs another compressor. */
  const LEVEL_999: byte := 9

  /** do_compress. r is 0 unless an internal check fails, which never happens. */
  method DoCompress(hash: Hash, fi: File, fo: File, level: byte, blockSize: nat) returns (r: int)
    requires fi != fo && fi.Valid() && 1 <= blockSize < WORD32 && level != LEVEL_999
    modifies fi`pos, fo`content
    ensures r == 0 && fi.Valid() && fi.Rest() == []
    ensures fo.content == old(fo.content) + Packed(hash, level, blockSize, old(fi.Rest()))
  {
    hide Blocks, Block, Checksum, Header, Be32;
    ghost var data, base := fi.Rest(), fo.content;
    r := 0;
    WriteHeader(fo, level, blockSize);
    var checksum := 1;
    ghost var done: seq<byte>, blocks: seq<byte> := [], [];
    ChecksumEmpty();
    var in_ := new byte[blockSize];
    var out := new byte[WorstCase(blockSize)];
    var wrkmem := new word16[hash.size];
    var more := true;
    while more
      invariant fi.Valid() && data == done + fi.Rest() && r == 0
      invariant fo.content == base + Header(level, blockSize) + blocks
      invariant blocks + Blocks(hash, blockSize, fi.Rest()) == Blocks(hash, blockSize, data)
      invariant checksum == Checksum(1, done) < WORD32
      invariant !more ==> fi.Rest() == []
      decreases |fi.Rest()|, more
    {
      ghost var x: seq<byte>;
      r, more, checksum, x := CompressOne(hash, fi, fo, in_, out, wrkmem, checksum, done);
      done := done + x;
      if more {
        blocks := blocks + Block(hash, x);
      }
    }
    assert done == data;
    BlocksEmpty(hash, blockSize);
    fo.Write(Be32(0));
    fo.Write(Be32(checksum));
  }

  lemma BlocksEmpty(hash: Hash, blockSize: nat)
    requires blockSize >= 1
    ensures Blocks(hash, blockSize, []) == []
  {
  }

  // ---- decompression ----

  const MIN_BLOCK := 1024
  const MAX_BLOCK := 8 * 1024 * 1024
  const FATAL := -1

  lemma Reads32(rest: seq<byte>, v: nat, tail: seq<byte>)
    requires v < WORD32 && rest == Be32(v) + tail
    ensures |rest| >= 4 && FromBe32(rest[..4]) == v && rest[4..] == tail
  {
    Be32RoundTrip(v);
    hide Be32, FromBe32;
    assert rest[..4] == Be32(v);
  }

  /** The payload of a block, and its length. */
  function Payload(hash: Hash, x: seq<byte>): seq<byte> {
    var z := Compress(Lzo1x, hash, x);
    if |z| < |x| then z else x
  }

  lemma BlockParts(hash: Hash, x: seq<byte>)
    ensures Block(hash, x) == Be32(|x|) + Be32(|Payload(hash, x)|) + Payload(hash, x)
    ensures x != [] ==> 0 < |Payload(hash, x)| <= |x|
    ensures |Payload(hash, x)| < |x| ==> Payload(hash, x) == Compress(Lzo1x, hash, x)
    ensures |Payload(hash, x)| >= |x| ==> Payload(hash, x) == x
  {
    CompressNotEmpty(hash, x);
    hide Compress, Be32;
    var z := Compress(Lzo1x, hash, x);
    assert Block(hash, x) == Be32(|x|) + (Be32(|Payload(hash, x)|) + Payload(hash, x));
  }

  /** A block is eight bytes and the shorter of the compressed and the plain form. */
  lemma BlockSize(hash: Hash, x: seq<byte>)
    ensures var z := |Compress(Lzo1x, hash, x)|; |Block(hash, x)| == 8 + if z < |x| then z else |x|
  {
    hide Compress, Be32;
  }

  lemma CompressNotEmpty(hash: Hash, x: seq<byte>)
    ensures |Compress(Lzo1x, hash, x)| >= 3
  {
    hide Encode;
  }

  /** The payload p of a block decodes to n bytes inside a buffer of size bytes. */
  ghost predicate Decodes(size: nat, p: seq<byte>, n: nat) {
    && |p| <= size && KeepsClear(Lzo1x, Plain, n, p, INIT, size - |p|)
    && Decode(Lzo1x, Plain, n, p).code == Ok && |Decode(Lzo1x, Plain, n, p).out| == n
  }

  /** x is what the payload p of a block expands to in a buffer of size bytes: a stored payload is itself; a compressed
      one, when reader and writer stay apart, decodes to x. */
  ghost predicate Expands(size: nat, p: seq<byte>, x: seq<byte>) {
    && |p| <= |x| <= size
    && (|p| == |x| ==> x == p)
    && (|p| < |x| && KeepsClear(Lzo1x, Plain, |x|, p, INIT, size - |p|) ==>
      Decode(Lzo1x, Plain, |x|, p) == Result(Ok, x))
  }

  /** The running checksum, if the flags ask for one. */
  function Running(flags: nat, done: seq<byte>): nat {
    if flags % 2 == 1 then Checksum(1, done) else 1
  }

  lemma RunningMore(flags: nat, done: seq<byte>, x: seq<byte>)
    ensures Running(flags, done) < WORD32 && (flags % 2 != 1 ==> Running(flags, done) == 1)
    ensures Running(flags, done + x) == if flags % 2 == 1 then Checksum(Running(flags, done), x) else 1
  {
    ChecksumBound(1, done);
    ChecksumConcat(1, done, x);
  }

  /** A compressed payload of lzopack decodes, to what was compressed. */
  lemma PayloadDecodes(hash: Hash, x: seq<byte>, size: nat)
    requires WorstCase(|x|) <= size && size < WORD && |Payload(hash, x)| < |x|
    ensures Decodes(size, Payload(hash, x), |x|) && Decode(Lzo1x, Plain, |x|, Payload(hash, x)).out == x
  {
    BlockParts(hash, x);
    hide Compress, Decode, KeepsClear, Payload;
    InPlaceClear(Lzo1x, hash, x, size);
    RoundTrip(Lzo1x, Plain, |x|, hash, x);
  }

  /** Decodes a payload from the top of the buffer to its bottom. It fails only when the payload does not decode. */
  method DecodeInPlace(buf: array<byte>, inLen: nat, outLen: nat) returns (ok: bool)
    requires inLen < outLen <= buf.Length
    modifies buf
    ensures ok ==> Expands(buf.Length, old(buf[buf.Length - inLen..]), buf[..outLen])
    ensures !ok ==> !Decodes(buf.Length, old(buf[buf.Length - inLen..]), outLen)
  {
    hide KeepsClear, Decode, Overlay, Only;
    var at := buf.Length - inLen;
    ghost var was, p := buf[..], buf[at..];
    assert buf[at..at + inLen] == p;
    var code, newLen := DecompressSafe(Lzo1x, buf, at, inLen, buf, 0, outLen);
    ok := code == Ok && newLen == outLen;
    if ok && KeepsClear(Lzo1x, Plain, outLen, p, INIT, at) {
      OverlayPrefix(was, 0, Decode(Lzo1x, Plain, outLen, p).out);
      assert buf[..outLen] == buf[..][..outLen];
    }
  }

  /** Writes n bytes of the buffer, and adds them to the checksum if the flags ask for one. */
  method PutOut(fo: File, buf: array<byte>, start: nat, n: nat, checksum0: nat, flags: nat, ghost done: seq<byte>)
    returns (checksum: nat)
    requires start + n <= buf.Length && checksum0 == Running(flags, done)
    modifies fo`content
    ensures fo.content == old(fo.content) + buf[start..start + n]
    ensures checksum == Running(flags, done + buf[start..start + n])
  {
    hide Running;
    RunningMore(flags, done, buf[start..start + n]);
    checksum := checksum0;
    fo.Write(buf[start..start + n]);
    if flags % 2 == 1 {
      checksum := Adler32(checksum, buf, start, n);
    }
  }

  /** Any payload at the top of the buffer: it is expanded in place where it is compressed, written, and added to the
      checksum. The only complaint is about a payload that does not decode. */
  method ExpandBlock(fo: File, buf: array<byte>, inLen: nat, outLen: nat, checksum0: nat, flags: nat,
                     ghost done: seq<byte>)
    returns (r: int, checksum: nat, ghost x: seq<byte>)
    requires inLen <= outLen <= buf.Length && checksum0 == Running(flags, done)
    modifies buf, fo`content
    ensures fo.content == old(fo.content) + x
    ensures r == 0 || r == 6
    ensures r == 0 ==> |x| == outLen && Expands(buf.Length, old(buf[buf.Length - inLen..]), x)
                       && checksum == Running(flags, done + x)
    ensures r == 6 ==> x == [] && inLen < outLen && !Decodes(buf.Length, old(buf[buf.Length - inLen..]), outLen)
  {
    hide Running, KeepsClear, Decode, Decodes;
    r, checksum, x := 0, checksum0, [];
    if inLen < outLen {
      var ok := DecodeInPlace(buf, inLen, outLen);
      if !ok {
        r := 6;
        return;
      }
      x := buf[0..outLen];
      assert buf[0..outLen] == buf[..outLen];
      checksum := PutOut(fo, buf, 0, outLen, checksum, flags, done);
    } else {
      var at := buf.Length - inLen;
      x := buf[at..at + inLen];
      assert x == buf[at..];
      checksum := PutOut(fo, buf, at, inLen, checksum, flags, done);
    }
  }

  /** What a reader finds where a block begins. */
  lemma NextBlock(hash: Hash, blockSize: nat, rest: seq<byte>, n: nat, after: seq<byte>, s: seq<byte>)
    requires 1 <= blockSize < WORD32 && rest != [] && n == (if blockSize < |rest| then blockSize else |rest|)
    requires s == Blocks(hash, blockSize, rest) + after
    ensures var p := Payload(hash, rest[..n]);
            && 0 < |p| <= n
            && |s| >= 8 && FromBe32(s[..4]) == n && FromBe32(s[4..8]) == |p|
            && s[8..] == p + (Blocks(hash, blockSize, rest[n..]) + after)
  {
    hide Blocks, Block, Be32, FromBe32, Payload;
    var x := rest[..n];
    var p := Payload(hash, x);
    var tail := Blocks(hash, blockSize, rest[n..]) + after;
    assert rest == x + rest[n..];
    BlocksFirst(hash, blockSize, rest, x, rest[n..]);
    BlockParts(hash, x);
    Regroup(Be32(n), Be32(|p|), p, Blocks(hash, blockSize, rest[n..]), after);
    Reads32(s, n, Be32(|p|) + (p + tail));
    Reads32(s[4..], |p|, p + tail);
    assert s[4..][..4] == s[4..8] && s[4..][4..] == s[8..];
  }

  // ---- any file ----

  /** A block at the start of s: its two sizes pass the checks, its payload expands to x, and rest follows it. A sure
      block is one whose payload is stored or decodes while reader and writer stay apart. */
  ghost predicate OneBlock(sure: bool, blockSize: nat, s: seq<byte>, x: seq<byte>, rest: seq<byte>) {
    match ReadHead(blockSize, s)
    case Sizes(n, m) =>
      var p := s[8..8 + m];
      && |x| == n && Expands(WorstCase(blockSize), p, x) && rest == s[8 + m..]
      && (sure ==> m == n || Decodes(WorstCase(blockSize), p, n))
    case _ => false
  }

  /** s starts with blocks that expand to out, and rest follows them. */
  ghost predicate Unpacks(sure: bool, blockSize: nat, s: seq<byte>, out: seq<byte>, rest: seq<byte>)
    decreases |s|
  {
    (out == [] && rest == s) ||
    match ReadHead(blockSize, s)
    case Sizes(n, m) =>
      && n <= |out|
      && OneBlock(sure, blockSize, s, out[..n], s[8 + m..])
      && Unpacks(sure, blockSize, s[8 + m..], out[n..], rest)
    case _ => false
  }

  /** One more block. */
  lemma {:induction false} UnpacksMore(sure: bool, blockSize: nat, s: seq<byte>, out: seq<byte>, mid: seq<byte>,
                                       x: seq<byte>, rest: seq<byte>)
    requires Unpacks(sure, blockSize, s, out, mid) && OneBlock(sure, blockSize, mid, x, rest)
    ensures Unpacks(sure, blockSize, s, out + x, rest)
    decreases |s|
  {
    hide ReadHead, Expands, Decodes;
    if out == [] && mid == s {
      assert out + x == x && x[..|x|] == x && x[|x|..] == [];
      assert Unpacks(sure, blockSize, rest, [], rest);
    } else {
      var n, m := ReadHead(blockSize, s).n, ReadHead(blockSize, s).m;
      UnpacksMore(sure, blockSize, s[8 + m..], out[n..], mid, x, rest);
      assert (out + x)[..n] == out[..n] && (out + x)[n..] == out[n..] + x;
    }
  }

  /** No sure block stands at the start of s. */
  ghost predicate Stuck(blockSize: nat, s: seq<byte>) {
    match ReadHead(blockSize, s)
    case Sizes(n, m) => m < n && !Decodes(WorstCase(blockSize), s[8..8 + m], n)
    case _ => true
  }

  /** Sure blocks can be unpacked in one way only. */
  lemma {:induction false} OneWay(blockSize: nat, s: seq<byte>, out: seq<byte>, rest: seq<byte>, out': seq<byte>,
                                  rest': seq<byte>)
    requires Unpacks(true, blockSize, s, out, rest) && !ReadHead(blockSize, rest).Sizes?
    requires Unpacks(false, blockSize, s, out', rest') && Stuck(blockSize, rest')
    ensures out == out' && rest == rest'
    decreases |s|
  {
    hide ReadHead, KeepsClear, Decode;
    var h := ReadHead(blockSize, s);
    if h.Sizes? && !(rest == s && out == []) && !(rest' == s && out' == []) {
      OneWay(blockSize, s[8 + h.m..], out[h.n..], rest, out'[h.n..], rest');
      assert out == out[..h.n] + out[h.n..] && out' == out'[..h.n] + out'[h.n..];
    }
  }

  /** Where the blocks end with this output, the file ends with this result: 0, 7 or a short file behind the marker, 5
      at bad sizes, 6 at a payload that does not decode, and a short file where a block is cut off. */
  ghost predicate Stops(blockSize: nat, flags: nat, rest: seq<byte>, out: seq<byte>, r: int) {
    match ReadHead(blockSize, rest)
    case Marker =>
      r == if flags % 2 != 1 then 0
           else if |rest| < 8 then FATAL
           else if FromBe32(rest[4..8]) == Checksum(1, out) then 0 else 7
    case BadSizes => r == 5
    case Sizes(_, _) => r == 6 && Stuck(blockSize, rest)
    case Short => r == FATAL
  }

  /** The result and the output of do_decompress on any file. */
  ghost predicate Outcome(s: seq<byte>, r: int, out: seq<byte>) {
    if HeaderCode(s) != 0 then r == HeaderCode(s) && out == []
    else exists rest ::
           && Unpacks(false, FileBlockSize(s), s[17..], out, rest)
           && Stops(FileBlockSize(s), FileFlags(s), rest, out, r)
  }

  /** An intact file with these contents, whoever wrote it: a good header, sure blocks, the EOF marker, and, if the
      flags say so, the checksum of the contents. */
  ghost predicate Intact(s: seq<byte>, out: seq<byte>) {
    && HeaderCode(s) == 0
    && exists rest ::
         && Unpacks(true, FileBlockSize(s), s[17..], out, rest)
         && ReadHead(FileBlockSize(s), rest).Marker? && Stops(FileBlockSize(s), FileFlags(s), rest, out, 0)
  }

  /** An intact file has no other outcome than success with its contents. */
  lemma IntactAccepted(s: seq<byte>, out: seq<byte>, r: int, out': seq<byte>)
    requires Intact(s, out) && Outcome(s, r, out')
    ensures r == 0 && out' == out
  {
    hide Unpacks, HeaderCode, FileBlockSize, FileFlags, FromBe32, Checksum;
    var bs := FileBlockSize(s);
    var rest :| Unpacks(true, bs, s[17..], out, rest) && ReadHead(bs, rest).Marker?
                && Stops(bs, FileFlags(s), rest, out, 0);
    var rest' :| Unpacks(false, bs, s[17..], out', rest') && Stops(bs, FileFlags(s), rest', out', r);
    OneWay(bs, s[17..], out, rest, out', rest');
  }

  /** What the header checks say of any file. */
  function HeaderCode(s: seq<byte>): (r: int)
    ensures r == 0 ==> |s| >= 17
  {
    if |s| < 7 || s[..7] != MAGIC then 1
    else if |s| < 13 then FATAL
    else if s[11] != 1 then 2
    else if |s| < 17 then FATAL
    else if MIN_BLOCK <= FromBe32(s[13..17]) <= MAX_BLOCK then 0 else 3
  }

  function FileFlags(s: seq<byte>): nat
    requires |s| >= 11
  {
    FromBe32(s[7..11])
  }

  function FileBlockSize(s: seq<byte>): nat
    requires |s| >= 17
  {
    FromBe32(s[13..17])
  }

  /** A header with these flags and this level is refused exactly for its block size. */
  lemma WrittenHeader(flags: nat, level: byte, bs: nat, rest: seq<byte>)
    requires flags < WORD32 && bs < WORD32
    ensures var s := MAGIC + Be32(flags) + [1, level] + Be32(bs) + rest;
            && HeaderCode(s) == (if 1024 <= bs <= 8388608 then 0 else 3)
            && |s| >= 17 && FileFlags(s) == flags && FileBlockSize(s) == bs && s[17..] == rest
  {
    hide FromBe32, Be32;
    Be32RoundTrip(flags);
    Be32RoundTrip(bs);
    var s := MAGIC + Be32(flags) + [1, level] + Be32(bs) + rest;
    assert s == MAGIC + (Be32(flags) + ([1, level] + (Be32(bs) + rest)));
    assert s[..7] == MAGIC && s[7..11] == Be32(flags) && s[11] == 1 && s[13..17] == Be32(bs);
  }

  lemma ReadBack(b: seq<byte>)
    requires |b| == 4
    ensures Be32(FromBe32(b)) == b
  {
    var v := FromBe32(b);
    assert v / 0x100 == b[2] as nat + b[1] as nat * 0x100 + b[0] as nat * 0x1_0000;
    assert v / 0x1_0000 == b[1] as nat + b[0] as nat * 0x100;
    assert v / 0x100_0000 == b[0];
  }

  /** No other file has a good header. */
  lemma GoodHeader(s: seq<byte>) returns (level: byte)
    requires HeaderCode(s) == 0
    ensures 1024 <= FileBlockSize(s) <= 8388608
    ensures s == MAGIC + Be32(FileFlags(s)) + [1, level] + Be32(FileBlockSize(s)) + s[17..]
  {
    hide FromBe32, Be32;
    level := s[12];
    ReadBack(s[7..11]);
    ReadBack(s[13..17]);
    assert s == s[..7] + s[7..11] + [s[11], s[12]] + s[13..17] + s[17..];
  }

  /** The checks of the header, on any file. */
  method ReadHeader(fi: File) returns (r: int, flags: nat, blockSize: nat)
    requires fi.Valid()
    modifies fi`pos
    ensures fi.Valid() && r == HeaderCode(old(fi.Rest()))
    ensures r == 0 ==> var s := old(fi.Rest());
                       fi.Rest() == s[17..] && flags == FileFlags(s) && blockSize == FileBlockSize(s)
  {
    hide FromBe32;
    ghost var s := fi.Rest();
    r, flags, blockSize := 0, 0, 0;
    label err: {
      var m := fi.Read(7);
      Taken(s, m, fi.Rest());
      if m != MAGIC { r := 1; break err; }
      var ok, c, level;
      ok, flags := fi.Read32();
      if !ok { r := FATAL; break err; }
      assert s[7..][..4] == s[7..11] && fi.Rest() == s[11..];
      ok, c := fi.GetC();
      if !ok { r := FATAL; break err; }
      ok, level := fi.GetC();
      if !ok { r := FATAL; break err; }
      assert c == s[11] && fi.Rest() == s[13..];
      if c != 1 { r := 2; break err; }
      ok, blockSize := fi.Read32();
      if !ok { r := FATAL; break err; }
      assert s[13..][..4] == s[13..17] && fi.Rest() == s[17..];
      if blockSize < MIN_BLOCK || blockSize > MAX_BLOCK { r := 3; break err; }
    }
  }

  lemma Taken(s: seq<byte>, m: seq<byte>, rest: seq<byte>)
    requires s == m + rest
    ensures s[..|m|] == m && s[|m|..] == rest
  {
  }

  /** What stands at the start of s: the end of the file, the EOF marker, bad sizes, or a block of n bytes in m. */
  datatype Head = Short | Marker | BadSizes | Sizes(n: nat, m: nat)

  function ReadHead(blockSize: nat, s: seq<byte>): (h: Head)
    ensures h.Marker? ==> |s| >= 4
    ensures h.Sizes? ==> 8 + h.m <= |s| && 0 < h.m <= h.n <= blockSize
  {
    if |s| < 4 then Short
    else if FromBe32(s[..4]) == 0 then Marker
    else if |s| < 8 then Short
    else
      var n, m := FromBe32(s[..4]), FromBe32(s[4..8]);
      if m > blockSize || n > blockSize || m == 0 || m > n then BadSizes else if 8 + m > |s| then Short else Sizes(n, m)
  }

  /** The outcome of one round of the block loop: it reads from s on and leaves s'. */
  ghost predicate Round(blockSize: nat, s: seq<byte>, r: int, more: bool, x: seq<byte>, s': seq<byte>) {
    match ReadHead(blockSize, s)
    case Short => r == FATAL && x == []
    case Marker => r == 0 && !more && x == [] && s' == s[4..]
    case BadSizes => r == 5 && x == []
    case Sizes(n, m) =>
      if r == 0 then more && OneBlock(false, blockSize, s, x, s')
      else r == 6 && x == [] && Stuck(blockSize, s)
  }

  lemma RoundFacts(blockSize: nat, s: seq<byte>, r: int, more: bool, x: seq<byte>, s': seq<byte>)
    requires Round(blockSize, s, r, more, x, s')
    ensures r != 0 || !more ==> x == []
    ensures r == 0 ==> |s'| < |s|
    ensures r == 0 && more ==> OneBlock(false, blockSize, s, x, s')
    ensures r == 0 && !more ==> ReadHead(blockSize, s).Marker? && s' == s[4..]
    ensures forall flags, out | r != 0 :: Stops(blockSize, flags, s, out, r)
  {
    hide FromBe32, Expands, Decodes;
  }

  /** The two sizes pass the checks. */
  predicate GoodSizes(blockSize: nat, s: seq<byte>, n: nat, m: nat) {
    |s| >= 8 && n == FromBe32(s[..4]) && m == FromBe32(s[4..8]) && 0 < m <= n <= blockSize
  }

  lemma HeadOfGoodSizes(blockSize: nat, s: seq<byte>, n: nat, m: nat)
    requires GoodSizes(blockSize, s, n, m)
    ensures ReadHead(blockSize, s) == if 8 + m > |s| then Short else Sizes(n, m)
  {
    hide FromBe32;
  }

  /** The two sizes of a block, or the EOF marker, and the sanity check. */
  method ReadSizes(fi: File, blockSize: nat) returns (r: int, more: bool, outLen: nat, inLen: nat)
    requires fi.Valid()
    modifies fi`pos
    ensures fi.Valid() && |fi.Rest()| <= |old(fi.Rest())|
    ensures var s := old(fi.Rest());
            if r == 0 && more then GoodSizes(blockSize, s, outLen, inLen) && fi.Rest() == s[8..]
            else Round(blockSize, s, r, more, [], fi.Rest())
  {
    hide FromBe32, Expands, Decodes;
    ghost var s := fi.Rest();
    r, more, inLen := 0, true, 0;
    label err: {
      var ok;
      ok, outLen := fi.Read32();
      if !ok { r := FATAL; break err; }
      if outLen == 0 { more := false; break err; }
      ok, inLen := fi.Read32();
      if !ok { r := FATAL; break err; }
      assert s[4..][..4] == s[4..8] && s[4..][4..] == s[8..];
      if inLen > blockSize || outLen > blockSize || inLen == 0 || inLen > outLen { r := 5; break err; }
    }
  }

  /** One round of the block loop, on any file. */
  method ReadBlock(fi: File, fo: File, buf: array<byte>, blockSize: nat, checksum0: nat, flags: nat,
                   ghost done: seq<byte>)
    returns (r: int, more: bool, checksum: nat, ghost x: seq<byte>)
    requires fi != fo && fi.Valid() && buf.Length == WorstCase(blockSize) && checksum0 == Running(flags, done)
    modifies fi`pos, fo`content, buf
    ensures fi.Valid() && |fi.Rest()| <= |old(fi.Rest())| && fo.content == old(fo.content) + x
    ensures r == 0 ==> checksum == Running(flags, done + x)
    ensures Round(blockSize, old(fi.Rest()), r, more, x, fi.Rest())
  {
    hide Running, ReadHead, Expands, Decodes, FromBe32;
    ghost var s := fi.Rest();
    checksum, x := checksum0, [];
    assert done + [] == done;
    label err: {
      var outLen, inLen;
      r, more, outLen, inLen := ReadSizes(fi, blockSize);
      if !more || r != 0 { break err; }
      HeadOfGoodSizes(blockSize, s, outLen, inLen);
      var p := fi.Read(inLen);
      if |p| != inLen { r := FATAL; break err; }
      Taken(s[8..], p, fi.Rest());
      assert s[8..][..inLen] == s[8..8 + inLen] && s[8..][inLen..] == s[8 + inLen..];
      StoreBytes(buf, buf.Length - inLen, p);
      assert buf[buf.Length - inLen..] == p;
      r, checksum, x := ExpandBlock(fo, buf, inLen, outLen, checksum, flags, done);
    }
  }

  // ---- a whole file ----

  lemma RunningStart(flags: nat)
    ensures Running(flags, []) == 1
  {
  }

  /** The comparison of the checksums after the EOF marker at t. */
  method CheckTrailer(fi: File, blockSize: nat, flags: nat, checksum: nat, ghost t: seq<byte>, ghost out: seq<byte>)
    returns (r: int)
    requires fi.Valid() && ReadHead(blockSize, t).Marker? && fi.Rest() == t[4..] && checksum == Running(flags, out)
    modifies fi`pos
    ensures Stops(blockSize, flags, t, out, r)
  {
    hide Checksum, FromBe32;
    r := 0;
    if flags % 2 == 1 {
      var ok, c := fi.Read32();
      if !ok {
        r := FATAL;
      } else {
        assert t[4..][..4] == t[4..8];
        if c != checksum { r := 7; }
      }
    }
  }

  /** The block loop, from the end of the header to behind the EOF marker, which stands at t, or to an error. */
  method ReadBlocks(fi: File, fo: File, blockSize: nat, flags: nat)
    returns (r: int, checksum: nat, ghost out: seq<byte>, ghost t: seq<byte>)
    requires fi != fo && fi.Valid()
    modifies fi`pos, fo`content
    ensures fi.Valid() && fo.content == old(fo.content) + out && Unpacks(false, blockSize, old(fi.Rest()), out, t)
    ensures if r == 0 then checksum == Running(flags, out) && ReadHead(blockSize, t).Marker? && fi.Rest() == t[4..]
            else Stops(blockSize, flags, t, out, r)
  {
    hide Running, ReadHead, Round, Unpacks, OneBlock, Stops;
    ghost var body, base := fi.Rest(), fo.content;
    var more := true;
    r, checksum, out, t := 0, 1, [], body;
    RunningStart(flags);
    UnpacksNothing(false, blockSize, body);
    var buf := new byte[WorstCase(blockSize)];
    assert base + out == base;
    while more && r == 0
      invariant fi.Valid() && fo.content == base + out && Unpacks(false, blockSize, body, out, t)
      invariant r == 0 ==> checksum == Running(flags, out)
      invariant r == 0 && more ==> t == fi.Rest()
      invariant r == 0 && !more ==> ReadHead(blockSize, t).Marker? && fi.Rest() == t[4..]
      invariant r != 0 ==> Stops(blockSize, flags, t, out, r)
      decreases |fi.Rest()|, more && r == 0
    {
      ghost var x;
      r, more, checksum, x := ReadBlock(fi, fo, buf, blockSize, checksum, flags, out);
      RoundFacts(blockSize, t, r, more, x, fi.Rest());
      assert (base + out) + x == base + (out + x);
      if r == 0 && more {
        UnpacksMore(false, blockSize, body, out, t, x, fi.Rest());
        t := fi.Rest();
      } else {
        assert out + x == out;
      }
      out := out + x;
    }
  }

  lemma UnpacksNothing(sure: bool, blockSize: nat, s: seq<byte>)
    ensures Unpacks(sure, blockSize, s, [], s)
  {
  }

  /** do_decompress. On any file, corrupted or not, every access stays inside the buffer, and the result says where and
      why reading ended. An intact file, whoever wrote it, gives 0 and its contents. */
  method DoDecompress(fi: File, fo: File) returns (r: int, ghost out: seq<byte>)
    requires fi != fo && fi.Valid()
    modifies fi`pos, fo`content
    ensures fo.content == old(fo.content) + out && Outcome(old(fi.Rest()), r, out)
    ensures forall contents :: Intact(old(fi.Rest()), contents) ==> r == 0 && out == contents
  {
    hide Unpacks, HeaderCode, FileFlags, FileBlockSize, Stops, ReadHead, Intact, Outcome;
    ghost var s := fi.Rest();
    out := [];
    assert fo.content + out == fo.content;
    var flags, blockSize;
    r, flags, blockSize := ReadHeader(fi);
    if r == 0 {
      var checksum;
      ghost var t;
      r, checksum, out, t := ReadBlocks(fi, fo, blockSize, flags);
      if r == 0 {
        r := CheckTrailer(fi, blockSize, flags, checksum, t, out);
      }
      HasOutcome(s, t, r, out);
    } else {
      BadHeader(s, r);
    }
    forall contents | Intact(s, contents)
      ensures r == 0 && out == contents
    {
      IntactAccepted(s, contents, r, out);
    }
  }

  lemma HasOutcome(s: seq<byte>, t: seq<byte>, r: int, out: seq<byte>)
    requires HeaderCode(s) == 0 && Unpacks(false, FileBlockSize(s), s[17..], out, t)
    requires Stops(FileBlockSize(s), FileFlags(s), t, out, r)
    ensures Outcome(s, r, out)
  {
    hide HeaderCode, FileFlags, FileBlockSize, Unpacks, Stops;
  }

  lemma BadHeader(s: seq<byte>, r: int)
    requires r == HeaderCode(s) != 0
    ensures Outcome(s, r, [])
  {
  }

  // ---- files that lzopack has written ----

  /** The blocks of a written file are sure and unpack to the data. */
  lemma {:induction false} WrittenUnpacks(hash: Hash, bs: nat, data: seq<byte>, after: seq<byte>)
    requires 1 <= bs <= MAX_BLOCK
    ensures Unpacks(true, bs, Blocks(hash, bs, data) + (Be32(0) + after), data, Be32(0) + after)
    decreases |data|
  {
    var s := Blocks(hash, bs, data) + (Be32(0) + after);
    if data == [] {
      BlocksEmpty(hash, bs);
      assert s == Be32(0) + after;
    } else {
      var n := if bs < |data| then bs else |data|;
      WrittenUnpacks(hash, bs, data[n..], after);
      WrittenBlock(hash, bs, data, n, Be32(0) + after, s);
    }
  }

  lemma WrittenBlock(hash: Hash, bs: nat, data: seq<byte>, n: nat, after: seq<byte>, s: seq<byte>)
    requires 1 <= bs <= MAX_BLOCK && data != [] && n == (if bs < |data| then bs else |data|)
    requires s == Blocks(hash, bs, data) + after
    requires Unpacks(true, bs, Blocks(hash, bs, data[n..]) + after, data[n..], after)
    ensures Unpacks(true, bs, s, data, after)
  {
    hide Blocks, FromBe32, Payload, Unpacks, OneBlock, Decodes, Expands;
    var p := Payload(hash, data[..n]);
    NextBlock(hash, bs, data, n, after, s);
    assert s[8..8 + |p|] == p && s[8 + |p|..] == Blocks(hash, bs, data[n..]) + after;
    SureBlock(hash, bs, data[..n], s);
    UnpacksFirst(bs, s, data[..n], s[8 + |p|..], data[n..], after);
    assert data == data[..n] + data[n..];
  }

  lemma SureBlock(hash: Hash, bs: nat, x: seq<byte>, s: seq<byte>)
    requires 0 < |x| <= bs <= MAX_BLOCK
    requires var p := Payload(hash, x);
             && ReadHead(bs, s) == Sizes(|x|, |p|) && s[8..8 + |p|] == p
    ensures OneBlock(true, bs, s, x, s[8 + |Payload(hash, x)|..])
  {
    hide FromBe32, KeepsClear, Decode, Payload, ReadHead;
    BlockParts(hash, x);
    if |Payload(hash, x)| < |x| {
      PayloadDecodes(hash, x, WorstCase(bs));
    }
  }

  /** One more block in front. */
  lemma UnpacksFirst(blockSize: nat, s: seq<byte>, x: seq<byte>, mid: seq<byte>, out: seq<byte>, rest: seq<byte>)
    requires OneBlock(true, blockSize, s, x, mid) && Unpacks(true, blockSize, mid, out, rest)
    ensures Unpacks(true, blockSize, s, x + out, rest)
  {
    hide FromBe32, Expands, Decodes;
    assert (x + out)[..|x|] == x && (x + out)[|x|..] == out;
  }

  /** A file that DoCompress has written is intact and holds the data, for every block size in 1024 .. 8 MiB, and has a
      bad header for every other. */
  lemma PackedIntact(hash: Hash, level: byte, bs: nat, data: seq<byte>)
    requires 1 <= bs < WORD32
    ensures if 1024 <= bs <= 8388608 then Intact(Packed(hash, level, bs, data), data)
            else HeaderCode(Packed(hash, level, bs, data)) == 3
  {
    hide Blocks, Checksum, Be32, FromBe32, HeaderCode, FileFlags, FileBlockSize, Unpacks;
    var body := Blocks(hash, bs, data) + Trailer(data);
    var s := Packed(hash, level, bs, data);
    assert s == Header(level, bs) + body;
    WrittenHeader(1, level, bs, body);
    assert s == MAGIC + Be32(1) + [1, level] + Be32(bs) + body;
    if bs <= MAX_BLOCK {
      var c := Checksum(1, data);
      WrittenUnpacks(hash, bs, data, Be32(c));
      WrittenTrailer(bs, data);
    }
  }

  lemma WrittenTrailer(bs: nat, data: seq<byte>)
    ensures ReadHead(bs, Trailer(data)).Marker? && Stops(bs, 1, Trailer(data), data, 0)
  {
    ChecksumBound(1, data);
    hide Checksum, Be32, FromBe32;
    var c := Checksum(1, data);
    Reads32(Trailer(data), 0, Be32(c));
    Be32RoundTrip(c);
    assert Trailer(data)[4..8] == Be32(c);
  }
}
