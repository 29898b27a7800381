// The LZO1X-1 match finder, as a function from the input and the hash to the items of the stream.
module Lzo1xEncoder {
  import opened Bytes
  import opened Matching
  import opened Lzo1xStream

  const CHUNK := 49152

  /** A hash of the next four bytes, and the number of table entries. */
  datatype HashTable = HashTable(hash: nat -> nat, size: nat)

  type Hash = h: HashTable | h.size >= 1 witness HashTable(_ => 0, 1)

  // ---- match extension ----

  /** The match length from len on: bytes are compared eight at a time, and the loop ends at the first difference or
      at the first multiple of eight that reaches ip_end. */
  function Extend(s: seq<byte>, m: nat, ip: nat, ipEnd: nat, len: nat): (r: nat)
    requires m < ip && ip + len < ipEnd + 4 && ipEnd + 20 <= |s|
    ensures len <= r && ip + r < ipEnd + 12
    decreases ipEnd + 4 - ip - len
  {
    var k := Common(s, m + len, ip + len, 8);
    if k < 8 then len + k
    else if ip + len + 8 >= ipEnd then len + 8
    else Extend(s, m, ip, ipEnd, len + 8)
  }

  /** Everything up to the extended length agrees. */
  lemma {:induction false} ExtendAgrees(s: seq<byte>, m: nat, ip: nat, ipEnd: nat, len: nat)
    requires m < ip && ip + len < ipEnd + 4 && ipEnd + 20 <= |s|
    requires Agree(s, m, ip, len)
    ensures Agree(s, m, ip, Extend(s, m, ip, ipEnd, len))
    decreases ipEnd + 4 - ip - len
  {
    hide Common, Agree;
    var c := Common(s, m + len, ip + len, 8);
    CommonExact(s, m + len, ip + len, 8);
    AgreeFurther(s, m, ip, len, c);
    if c == 8 && ip + len + 8 < ipEnd {
      ExtendAgrees(s, m, ip, ipEnd, len + 8);
    }
  }

  // ---- one chunk ----

  /** The variables of do_compress: positions in the whole input, the carried literal count ti, the table, and the
      items emitted so far. */
  datatype Scan = Scan(ip: nat, ii: nat, ti: nat, dict: seq<nat>, items: seq<Item>)

  /** Throughout a chunk every table entry is a position strictly before ip. */
  ghost predicate ValidScan(input: seq<byte>, b: nat, e: nat, s: Scan) {
    && 20 < e - b <= CHUNK && e <= |input|
    && b <= s.ii <= s.ip && b < s.ip && s.ii + 9 <= e
    && (s.ti > 0 ==> s.ii == b && s.ti <= b)
    && |s.dict| >= 1 && forall i :: 0 <= i < |s.dict| ==> s.dict[i] < s.ip - b
  }

  function Next(hash: Hash, input: seq<byte>, b: nat, e: nat, s: Scan): (r: Scan)
    requires ValidScan(input, b, e, s) && s.ip < e - 20
    ensures ValidScan(input, b, e, r) && r.ip > s.ip && |r.dict| == |s.dict|
  {
    var dv := LE32(input, s.ip);
    var i := hash.hash(dv) % |s.dict|;
    var m := b + s.dict[i];
    var dict := s.dict[i := (s.ip - b) % 0x1_0000];
    if dv != LE32(input, m) then Scan(s.ip + 1 + (s.ip - s.ii) / 32, s.ii, s.ti, dict, s.items)
    else FoundMatch(input, e, s, m, dict)
  }

  /** A match at m: the pending literals and the match become an item. */
  function FoundMatch(input: seq<byte>, e: nat, s: Scan, m: nat, dict: seq<nat>): (r: Scan)
    requires s.ti <= s.ii <= s.ip && m < s.ip < e - 20 && e <= |input|
    ensures s.ip + 4 <= r.ip == r.ii <= e - 9 && r.ti == 0 && r.dict == dict
  {
    var len := Extend(input, m, s.ip, e - 20, 4);
    Scan(s.ip + len, s.ip + len, 0, dict, s.items + [Item(input[s.ii - s.ti..s.ip], s.ip - m, len)])
  }

  function ScanChunk(hash: Hash, input: seq<byte>, b: nat, e: nat, s: Scan): (r: Scan)
    requires ValidScan(input, b, e, s)
    ensures ValidScan(input, b, e, r)
    decreases if s.ip < e then e - s.ip else 0
  {
    if s.ip >= e - 20 then s else ScanChunk(hash, input, b, e, Next(hash, input, b, e, s))
  }

  /** A cleared table, and ip past the first one to five bytes. */
  function StartChunk(size: nat, b: nat, t: nat, items: seq<Item>): (s: Scan)
    ensures s.ip > b && s.ii == b && |s.dict| == size
  {
    var ip := b + (if t < 4 then 4 - t else 0);
    Scan(ip + 1 + (ip - b) / 32, b, t, seq(size, _ => 0), items)
  }

  // ---- all chunks ----

  datatype Encoded = Encoded(items: seq<Item>, t: nat)

  /** do_compress: the items of one chunk and the number of pending literals. */
  function CompressChunk(hash: Hash, input: seq<byte>, b: nat, e: nat, t: nat, items: seq<Item>): (r: Encoded)
    requires 20 < e - b <= CHUNK && e <= |input| && t <= b
    ensures 9 <= r.t <= e
  {
    var s := ScanChunk(hash, input, b, e, StartChunk(hash.size, b, t, items));
    Encoded(s.items, e - (s.ii - s.ti))
  }

  /** The chunk loop of lzo1x_1_compress. The test for a wrapped end pointer also succeeds, and so also ends the loop,
      when fewer than 32 bytes are pending. */
  function CompressChunks(hash: Hash, input: seq<byte>, pos: nat, t: nat, items: seq<Item>): (r: Encoded)
    requires t <= pos <= |input|
    ensures r.t <= |input|
    decreases |input| - pos
  {
    var l := |input| - pos;
    var ll := if l <= CHUNK then l else CHUNK;
    if l <= 20 || (t + ll) / 32 == 0 then Encoded(items, t + l)
    else
      var c := CompressChunk(hash, input, pos, pos + ll, t, items);
      CompressChunks(hash, input, pos + ll, c.t, c.items)
  }

  function Encode(hash: Hash, input: seq<byte>): Encoded {
    CompressChunks(hash, input, 0, 0, [])
  }
}
