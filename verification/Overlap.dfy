// examples/overlap.c: compression and decompression inside one buffer.
module Overlap {
  import opened Bytes
  import opened Memory
  import opened Lzo1xFormat
  import opened Lzo1xDecoder
  import opened Lzo1xParse
  import opened Lzo1xEncoder
  import opened Lzo1xCompress
  import opened Lzo1xCompressor
  import opened Lzo1xDecompress

  /** Inside a buffer of size bytes the decoder's reader and writer stay apart. */
  ghost predicate Apart(v: Variant, hash: Hash, data: seq<byte>, size: nat) {
    var z := Compress(v, hash, data);
    |z| <= size && KeepsClear(v, Plain, |data|, z, INIT, size - |z|)
  }

  /** The default overhead is always enough. */
  lemma DefaultIsEnough(v: Variant, hash: Hash, data: seq<byte>, size: nat)
    requires WorstCase(|data|) < WORD && WorstCase(|data|) <= size
    ensures Apart(v, hash, data, size)
  {
    hide Compress, KeepsClear;
    ExpansionBound(v, hash, data);
    InPlaceClear(v, hash, data, size);
  }

  /** Step 5: the compressed bytes stand at the top of a buffer that holds at least the data, and are decoded to its
      bottom. Whatever the size, all accesses are inside the buffer; where reader and writer stay apart, which is so
      from n + n / 16 + 64 + 3 bytes on, the result is the data. */
  method InPlaceDecompress(v: Variant, ghost hash: Hash, ghost data: seq<byte>, buf: array<byte>, n: nat, outLen: nat)
    returns (code: Code, newLen: nat)
    requires n == |data| && WorstCase(n) < WORD && n <= buf.Length && outLen <= buf.Length
    requires buf[buf.Length - outLen..] == Compress(v, hash, data)
    modifies buf
    ensures newLen <= n
    ensures Apart(v, hash, data, buf.Length) ==> code == Ok && newLen == n && buf[..n] == data
    ensures WorstCase(n) <= buf.Length ==> code == Ok && newLen == n && buf[..n] == data
  {
    hide Compress, Decode, KeepsClear, Run, Step, Overlay, Only;
    ghost var z := Compress(v, hash, data);
    var offset := buf.Length - outLen;
    if WorstCase(n) <= buf.Length { DefaultIsEnough(v, hash, data, buf.Length); }
    RoundTrip(v, Plain, n, hash, data);
    assert buf[offset..offset + outLen] == z;
    ghost var was := buf[..];
    code, newLen := DecompressSafe(v, buf, offset, outLen, buf, 0, n);
    if Apart(v, hash, data, buf.Length) {
      OverlayPrefix(was, 0, data);
      assert buf[..n] == buf[..][..n];
    }
  }

  /** Step 4: the data stand Overhead(n) bytes above the bottom of the buffer, and are compressed to its bottom. */
  method InPlaceCompress(v: Variant, hash: Hash, buf: array<byte>, n: nat, wrkmem: array<word16>) returns (newLen: nat)
    requires n + Overhead(n) <= buf.Length && hash.size <= wrkmem.Length
    modifies buf, wrkmem
    ensures newLen <= buf.Length && buf[..newLen] == Compress(v, hash, old(buf[Overhead(n)..Overhead(n) + n]))
  {
    newLen := CompressTo(v, hash, buf, Overhead(n), n, buf, 0, wrkmem);
  }

  /** The overhead of step 5a. */
  function DecompressOverhead(optOverhead: nat, n: nat, outLen: nat): nat {
    if optOverhead == 0 || outLen >= n then n / 16 + 64 + 3 else optOverhead
  }

  /** do_file after the file is read into `data`: compresses it into a buffer of its own, then in place, compares, then
      decompresses in place inside `overlap` and compares. It succeeds exactly when the decompression in place returned
      OK, the length and the data. That is so for the default overhead or a larger one, and for a smaller one where
      reader and writer stay apart. */
  method DoFile(v: Variant, hash: Hash, data: array<byte>, optOverhead: nat)
    returns (ok: bool, outLen: nat, code: Code, newLen: nat, overlap: array<byte>)
    requires 0 < data.Length && WorstCase(data.Length) < WORD
    ensures outLen == |Compress(v, hash, data[..])|
    ensures overlap.Length == data.Length + DecompressOverhead(optOverhead, data.Length, outLen)
    ensures ok <==> code == Ok && newLen == data.Length && overlap[..newLen] == data[..]
    ensures optOverhead == 0 || outLen >= data.Length || optOverhead >= data.Length / 16 + 64 + 3 ==> ok
    ensures Apart(v, hash, data[..], overlap.Length) ==> ok
  {
    hide Compress, Decode, Apart, Overlay;
    var n := data.Length;
    var out := new byte[WorstCase(n)];
    var wrkmem := new word16[hash.size];
    outLen := CompressTo(v, hash, data, 0, n, out, 0, wrkmem);
    ok := outLen <= WorstCase(n);
    assert data[0..n] == data[..];
    ghost var z := Compress(v, hash, data[..]);
    assert out[..outLen] == z;

    var same := CompareInPlace(v, hash, data, wrkmem, out, outLen);
    var back;
    var size := n + DecompressOverhead(optOverhead, n, outLen);
    back, code, newLen, overlap := CompareBack(v, hash, data, out, outLen, size);
    ok := ok && same && back;
  }

  /** Step 4: the data are compressed again, in place, and the results are compared. */
  method CompareInPlace(v: Variant, hash: Hash, data: array<byte>, wrkmem: array<word16>, out: array<byte>, outLen: nat)
    returns (same: bool)
    requires hash.size <= wrkmem.Length && outLen <= out.Length && out[..outLen] == Compress(v, hash, data[..])
    modifies wrkmem
    ensures same
  {
    hide Compress, Overlay;
    var n := data.Length;
    var overlap := new byte[n + Overhead(n)];
    ghost var was := overlap[..];
    StoreBytes(overlap, Overhead(n), data[..]);
    OverlayAt(was, Overhead(n), data[..]);
    assert overlap[..][Overhead(n)..Overhead(n) + n] == overlap[Overhead(n)..Overhead(n) + n];
    var newLen := InPlaceCompress(v, hash, overlap, n, wrkmem);
    same := newLen == outLen && overlap[..newLen] == out[..outLen];
  }

  /** Step 5: the compressed bytes are decompressed inside a buffer of size bytes, and the result is compared with the
      data. */
  method CompareBack(v: Variant, ghost hash: Hash, data: array<byte>, out: array<byte>, outLen: nat, size: nat)
    returns (same: bool, code: Code, newLen: nat, overlap: array<byte>)
    requires WorstCase(data.Length) < WORD && data.Length <= size && outLen <= size && outLen <= out.Length
    requires out[..outLen] == Compress(v, hash, data[..])
    ensures overlap.Length == size && newLen <= data.Length
    ensures same <==> code == Ok && newLen == data.Length && overlap[..newLen] == data[..]
    ensures Apart(v, hash, data[..], size) || WorstCase(data.Length) <= size ==> same
  {
    hide Compress, Apart, Overlay;
    var n := data.Length;
    overlap := new byte[size];
    ghost var was := overlap[..];
    StoreBytes(overlap, size - outLen, out[..outLen]);
    OverlayAt(was, size - outLen, out[..outLen]);
    assert overlap[..][size - outLen..size] == overlap[size - outLen..];
    code, newLen := InPlaceDecompress(v, hash, data[..], overlap, n, outLen);
    same := code == Ok && newLen == n && overlap[..n] == data[..];
  }
}
