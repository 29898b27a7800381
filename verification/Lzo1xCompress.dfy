// LZO1X-1 and LZO1Y-1: the compressed stream of every input, and what is true of it.
module Lzo1xCompress {
  import opened Bytes
  import opened Slices
  import opened Window
  import opened Matching
  import opened Lzo1xFormat
  import opened Lzo1xDecoder
  import opened Lzo1xStream
  import opened Lzo1xParse
  import opened Lzo1xRoundTrip
  import opened Lzo1xEncoder

  /** The bytes that lzo1x_1_compress writes. */
  function Compress(v: Variant, hash: Hash, input: seq<byte>): seq<byte> {
    var r := Encode(hash, input);
    EncodeFaithful(hash, input);
    Stream(v, r.items, input[|input| - r.t..])
  }

  // ---- the items stand for the input ----

  /** Every match of the compressor has at least four bytes. */
  predicate LongMatches(items: seq<Item>) {
    items == [] || (Last(items).len >= 4 && LongMatches(Front(items)))
  }

  /** The items are a stream of the format that stands for the first n bytes of the input. */
  ghost predicate Covers(input: seq<byte>, items: seq<Item>, n: nat) {
    && n <= |input| && WellFormed(items) && LongMatches(items)
    && Expand(items) == input[..n]
  }

  /** The state of a call that started with `before` items: the literals pending before its first match number at
      least five. */
  ghost predicate Faithful(input: seq<byte>, b: nat, e: nat, before: nat, s: Scan) {
    && ValidScan(input, b, e, s)
    && Covers(input, s.items, s.ii - s.ti)
    && before <= |s.items|
    && (if |s.items| == before then s.ii == b && s.ti + (s.ip - b) >= 5 else s.ti == 0)
  }

  /** One more item, one longer prefix. */
  lemma CoversMore(input: seq<byte>, items: seq<Item>, n: nat, ip: nat, m: nat, len: nat)
    requires Covers(input, items, n) && n <= ip && m < ip && ip - m <= M4_MAX_OFFSET && len >= 4
    requires Agree(input, m, ip, len)
    requires items == [] ==> ip - n >= 4
    ensures Covers(input, items + [Item(input[n..ip], ip - m, len)], ip + len)
  {
    hide Agree, CopyMatch, Expand, WellFormed, LongMatches, Size;
    MatchCopiesInput(input, m, ip, len);
    AgreeInside(input, m, ip, len);
    Join(input, 0, n, ip);
    assert input[0..n] == input[..n] && input[0..ip] == input[..ip];
    CoversLength(input, items, n);
    OneMoreItem(items, Item(input[n..ip], ip - m, len));
  }

  lemma CoversLength(input: seq<byte>, items: seq<Item>, n: nat)
    requires Covers(input, items, n)
    ensures WellFormed(items) && Size(items) == n
  {
    hide Expand, WellFormed;
  }

  lemma OneMoreItem(items: seq<Item>, item: Item)
    requires WellFormed(items) && item.len >= 4 && 1 <= item.off <= M4_MAX_OFFSET
    requires item.off <= Size(items) + |item.lits| && (items == [] ==> |item.lits| >= 4)
    ensures WellFormed(items + [item]) && (LongMatches(items) ==> LongMatches(items + [item]))
    ensures Expand(items + [item]) == CopyMatch(Expand(items) + item.lits, item.off, item.len)
  {
    hide CopyMatch;
    var more := items + [item];
    assert Front(more) == items && Last(more) == item;
  }

  lemma AgreeInside(input: seq<byte>, m: nat, ip: nat, len: nat)
    requires Agree(input, m, ip, len)
    ensures m + len <= |input| && ip + len <= |input|
  {
  }

  /** Every step of do_compress keeps the state faithful. The match offset needs no check: the table holds positions
      before ip in the same chunk, so it lies in 1..0xbfff. */
  lemma NextFaithful(hash: Hash, input: seq<byte>, b: nat, e: nat, before: nat, s: Scan)
    requires Faithful(input, b, e, before, s) && s.ip < e - 20
    ensures Faithful(input, b, e, before, Next(hash, input, b, e, s))
    ensures |Next(hash, input, b, e, s).items| > |s.items| ==>
              1 <= Last(Next(hash, input, b, e, s).items).off <= M4_MAX_OFFSET
  {
    hide Covers, Extend, LE32;
    var m := b + s.dict[hash.hash(LE32(input, s.ip)) % |s.dict|];
    if LE32(input, s.ip) == LE32(input, m) {
      LE32Injective(input, s.ip, m);
      assert Agree(input, m, s.ip, 4);
      ExtendAgrees(input, m, s.ip, e - 20, 4);
      CoversMore(input, s.items, s.ii - s.ti, s.ip, m, Extend(input, m, s.ip, e - 20, 4));
    }
  }

  lemma {:induction false} ScanFaithful(hash: Hash, input: seq<byte>, b: nat, e: nat, before: nat, s: Scan)
    requires Faithful(input, b, e, before, s)
    ensures Faithful(input, b, e, before, ScanChunk(hash, input, b, e, s))
    decreases if s.ip < e then e - s.ip else 0
  {
    if s.ip < e - 20 {
      NextFaithful(hash, input, b, e, before, s);
      hide Faithful, Next;
      ScanFaithful(hash, input, b, e, before, Next(hash, input, b, e, s));
    }
  }

  /** The chunk carry: a call returns at least nine pending literals, and what precedes them is covered. */
  lemma ChunkFaithful(hash: Hash, input: seq<byte>, b: nat, e: nat, t: nat, items: seq<Item>)
    requires 20 < e - b <= CHUNK && e <= |input| && t <= b
    requires Covers(input, items, b - t)
    ensures var r := CompressChunk(hash, input, b, e, t, items);
            r.t >= 9 && Covers(input, r.items, e - r.t)
  {
    hide Covers, ScanChunk;
    ScanFaithful(hash, input, b, e, |items|, StartChunk(hash.size, b, t, items));
  }

  lemma {:induction false} ChunksFaithful(hash: Hash, input: seq<byte>, pos: nat, t: nat, items: seq<Item>)
    requires t <= pos <= |input| && Covers(input, items, pos - t) && (items != [] ==> t >= 9)
    ensures var r := CompressChunks(hash, input, pos, t, items);
            Covers(input, r.items, |input| - r.t) && (r.items != [] ==> r.t >= 9)
    decreases |input| - pos
  {
    hide Covers, CompressChunk;
    var l := |input| - pos;
    var ll := if l <= CHUNK then l else CHUNK;
    if l > 20 && (t + ll) / 32 != 0 {
      ChunkFaithful(hash, input, pos, pos + ll, t, items);
      var c := CompressChunk(hash, input, pos, pos + ll, t, items);
      ChunksFaithful(hash, input, pos + ll, c.t, c.items);
    }
  }

  /** The items and the tail stand for the input. When there is a match, at least nine literals follow the last one, so
      the arm of lzo1x_1_compress that patches a final run of 1..3 literals is never taken. */
  lemma EncodeFaithful(hash: Hash, input: seq<byte>)
    ensures var r := Encode(hash, input);
            && WellFormed(r.items) && LongMatches(r.items)
            && Expand(r.items) + input[|input| - r.t..] == input
            && Size(r.items) + r.t == |input|
            && (r.items != [] ==> r.t >= 9)
  {
    assert Covers(input, [], 0);
    hide CompressChunks;
    ChunksFaithful(hash, input, 0, 0, []);
    var r := Encode(hash, input);
    assert input[..|input| - r.t] + input[|input| - r.t..] == input;
  }

  // ---- size ----

  /** A match of at least four bytes is coded in fewer bytes. */
  lemma MatchCost(v: Variant, off: nat, len: nat)
    requires 1 <= off <= M4_MAX_OFFSET && len >= 4
    ensures |MatchCode(v, off, len)| < len
  {
  }

  /** Sixteen times the code of an item is at most seventeen times its size. */
  lemma ItemCost(v: Variant, w: seq<byte>, item: Item)
    requires 1 <= |item.lits| <= 3 ==> |w| >= 2
    requires 1 <= item.off <= M4_MAX_OFFSET && item.len >= 4
    ensures 16 * (|Emit(v, w, item)| - |w|) <= 17 * (|item.lits| + item.len)
  {
    MatchCost(v, item.off, item.len);
    hide MatchCode;
  }

  /** Sixteen times the printed size less seventeen times the expanded size. */
  function Slack(v: Variant, items: seq<Item>): int
    requires WellFormed(items)
  {
    16 * |Print(v, items)| - 17 * Size(items)
  }

  lemma SlackFalls(v: Variant, items: seq<Item>)
    requires items != [] && WellFormed(items) && LongMatches(items)
    ensures Slack(v, items) <= Slack(v, Front(items))
  {
    hide Emit;
    ItemCost(v, Print(v, Front(items)), Last(items));
  }

  lemma {:induction false} SlackNegative(v: Variant, items: seq<Item>)
    requires WellFormed(items) && LongMatches(items)
    ensures Slack(v, items) <= 0
  {
    if items != [] {
      SlackFalls(v, items);
      SlackNegative(v, Front(items));
    }
  }

  lemma FinishSize(w: seq<byte>, tail: seq<byte>)
    requires w != [] ==> |w| >= 2
    ensures 16 * |Finish(w, tail)| <= 16 * |w| + 17 * |tail| + 80
  {
  }

  /** Expansion: no input grows by more than a sixteenth and five bytes; callers reserve 64 + 3. */
  lemma ExpansionBound(v: Variant, hash: Hash, input: seq<byte>)
    ensures |Compress(v, hash, input)| <= |input| + |input| / 16 + 5
    ensures |Compress(v, hash, input)| <= WorstCase(|input|)
  {
    EncodeFaithful(hash, input);
    var r := Encode(hash, input);
    hide Encode, Finish;
    SlackNegative(v, r.items);
    FinishSize(Print(v, r.items), input[|input| - r.t..]);
  }

  // ---- decoding ----

  /** Room at the end of the stream is room at the end of every prefix. */
  lemma {:induction false} SlackIsRoom(v: Variant, items: seq<Item>, gap: int)
    requires WellFormed(items) && LongMatches(items)
    requires 32 <= 16 * gap + Slack(v, items)
    ensures Roomy(v, items, gap)
  {
    if items != [] {
      SlackFalls(v, items);
      SlackIsRoom(v, Front(items), gap);
    }
  }

  /** Decompression inverts compression, for every input, hash function and sufficient capacity, with and without a
      preset dictionary in the decoder. */
  lemma RoundTrip(v: Variant, b: Build, cap: nat, hash: Hash, input: seq<byte>)
    requires WorstCase(|input|) < WORD && cap >= |input|
    ensures Decode(v, b, cap, Compress(v, hash, input)) == Result(Ok, input)
  {
    EncodeFaithful(hash, input);
    var r := Encode(hash, input);
    var gap := Size(r.items) + 100 - Slack(v, r.items);
    hide Encode, Decode, Slack;
    SlackNegative(v, r.items);
    SlackIsRoom(v, r.items, gap);
    StreamDecodes(v, b, cap, r.items, input[|input| - r.t..], gap);
  }

  /** In-place decompression: with the compressed bytes at the top of a buffer of at least n + n / 16 + 64 + 3 bytes
      and the output at its bottom, the writer never reaches what the reader still needs. */
  lemma InPlaceClear(v: Variant, hash: Hash, input: seq<byte>, room: nat)
    requires WorstCase(|input|) < WORD && room >= WorstCase(|input|)
    ensures var src := Compress(v, hash, input);
            KeepsClear(v, Plain, |input|, src, INIT, room - |src|)
  {
    hide Encode, Stream, KeepsClear, Slack, WellFormed, LongMatches, Expand, Roomy, Size, Step, Run;
    EncodeFaithful(hash, input);
    var r := Encode(hash, input);
    var tail := input[|input| - r.t..];
    StreamRoom(v, r.items, tail, room);
    var gap := room - |Stream(v, r.items, tail)|;
    SlackIsRoom(v, r.items, gap);
    StreamDecodes(v, Plain, |input|, r.items, tail, gap);
  }

  lemma StreamRoom(v: Variant, items: seq<Item>, tail: seq<byte>, room: nat)
    requires WellFormed(items) && LongMatches(items)
    requires room >= WorstCase(Size(items) + |tail|)
    ensures var gap := room - |Stream(v, items, tail)|;
            gap >= 2 && 32 <= 16 * gap + Slack(v, items)
  {
    hide Finish, Print;
    SlackNegative(v, items);
    FinishSize(Print(v, items), tail);
  }
}
