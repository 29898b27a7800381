// What the LZO1X-1 match finder finds: every probe whose table entry fits becomes a match, as long as it can be, and
// the table remembers the latest probe of every slot.
module Lzo1xFinder {
  import opened Bytes
  import opened Slices
  import opened Matching
  import opened Lzo1xFormat
  import opened Lzo1xStream
  import opened Lzo1xEncoder
  import opened Lzo1xCompress

  // ---- one round ----

  /** How long a match is: up to the first difference, unless a block of eight bytes ends at or behind ipEnd before
      that. Blocks start four bytes into the match. */
  predicate Longest(s: seq<byte>, m: nat, ip: nat, ipEnd: nat, len: nat) {
    && m < ip && ip + len < |s| && len >= 4 && s[m..m + len] == s[ip..ip + len]
    && var block := 4 + (len - 4) / 8 * 8;
       if block == 4 || ip + block < ipEnd then s[m + len] != s[ip + len]
       else len == block && (block == 12 || ip + block - 8 < ipEnd)
  }

  lemma {:induction false} ExtendLongest(s: seq<byte>, m: nat, ip: nat, ipEnd: nat, q: nat)
    requires m < ip < ipEnd && ipEnd + 20 <= |s| && (q == 0 || ip + 4 + 8 * q < ipEnd) && Agree(s, m, ip, 4 + 8 * q)
    ensures Longest(s, m, ip, ipEnd, Extend(s, m, ip, ipEnd, 4 + 8 * q))
    decreases ipEnd + 4 - ip - 8 * q
  {
    hide Common, Longest, Agree;
    var len := 4 + 8 * q;
    var c := Common(s, m + len, ip + len, 8);
    CommonExact(s, m + len, ip + len, 8);
    AgreeFurther(s, m, ip, len, c);
    if c == 8 && ip + len + 8 < ipEnd {
      ExtendLongest(s, m, ip, ipEnd, q + 1);
    } else {
      LastBlock(s, m, ip, ipEnd, q, c);
    }
  }

  lemma LastBlock(s: seq<byte>, m: nat, ip: nat, ipEnd: nat, q: nat, c: nat)
    requires m < ip < ipEnd && ipEnd + 20 <= |s| && (q == 0 || ip + 4 + 8 * q < ipEnd)
    requires c <= 8 && Agree(s, m, ip, 4 + 8 * q + c)
    requires if c < 8 then s[m + 4 + 8 * q + c] != s[ip + 4 + 8 * q + c] else ip + 12 + 8 * q >= ipEnd
    ensures Longest(s, m, ip, ipEnd, 4 + 8 * q + c)
  {
    assert (4 + 8 * q + c - 4) / 8 == if c < 8 then q else q + 1;
  }

  /** The table index of the four bytes at ip. */
  function Slot(hash: Hash, size: nat, input: seq<byte>, ip: nat): (j: nat)
    requires size >= 1 && ip + 4 <= |input|
    ensures j < size
  {
    hash.hash(LE32(input, ip)) % size
  }

  /** One probe. If the four bytes at ip are those at the position in their slot, a match is taken: it starts at ip, has
      that distance and is as long as it can be. If not, there is no match, and ip moves on by one and by a
      thirty-second of the bytes since the last match. In either case the slot then holds ip. */
  lemma NextTakes(hash: Hash, input: seq<byte>, b: nat, e: nat, s: Scan)
    requires ValidScan(input, b, e, s) && s.ip < e - 20
    ensures var r, j := Next(hash, input, b, e, s), Slot(hash, |s.dict|, input, s.ip);
            var m := b + s.dict[j];
            && r.dict == s.dict[j := s.ip - b]
            && if input[m..m + 4] == input[s.ip..s.ip + 4] then
                 && r.items == s.items + [Item(input[s.ii - s.ti..s.ip], s.ip - m, r.ip - s.ip)]
                 && r.ii == r.ip && r.ti == 0 && Longest(input, m, s.ip, e - 20, r.ip - s.ip)
               else
                 r.items == s.items && r.ii == s.ii && r.ti == s.ti && r.ip == s.ip + 1 + (s.ip - s.ii) / 32
  {
    hide Extend, LE32, Longest;
    var m := b + s.dict[Slot(hash, |s.dict|, input, s.ip)];
    WordsEqual(input, s.ip, m);
    if LE32(input, s.ip) == LE32(input, m) {
      ExtendLongest(input, m, s.ip, e - 20, 0);
    }
  }

  lemma WordsEqual(s: seq<byte>, i: nat, m: nat)
    requires i + 4 <= |s| && m + 4 <= |s|
    ensures LE32(s, i) == LE32(s, m) <==> s[m..m + 4] == s[i..i + 4]
    ensures s[m..m + 4] == s[i..i + 4] ==> Agree(s, m, i, 4)
  {
    hide LE32;
    LE32Injective(s, i, m);
  }

  // ---- what the table remembers ----

  /** The state after k rounds, and the positions that were probed. */
  function Walk(hash: Hash, input: seq<byte>, b: nat, e: nat, s: Scan, k: nat): (r: Scan)
    requires ValidScan(input, b, e, s)
    ensures ValidScan(input, b, e, r) && |r.dict| == |s.dict|
  {
    if k == 0 then s
    else
      var r := Walk(hash, input, b, e, s, k - 1);
      if r.ip < e - 20 then Next(hash, input, b, e, r) else r
  }

  function Probed(hash: Hash, input: seq<byte>, b: nat, e: nat, s: Scan, k: nat): (ps: seq<nat>)
    requires ValidScan(input, b, e, s)
    ensures forall i :: 0 <= i < |ps| ==> ps[i] + 20 < e
  {
    if k == 0 then []
    else
      var r := Walk(hash, input, b, e, s, k - 1);
      Probed(hash, input, b, e, s, k - 1) + (if r.ip < e - 20 then [r.ip] else [])
  }

  /** The latest of these positions whose four bytes have this slot, or the start of the chunk. */
  function Latest(hash: Hash, size: nat, input: seq<byte>, b: nat, ps: seq<nat>, j: nat): nat
    requires size >= 1 && forall i :: 0 <= i < |ps| ==> ps[i] + 4 <= |input|
  {
    if ps == [] then b
    else if Slot(hash, size, input, Last(ps)) == j then Last(ps)
    else Latest(hash, size, input, b, Front(ps), j)
  }

  lemma {:induction false} WalkScans(hash: Hash, input: seq<byte>, b: nat, e: nat, s: Scan, k: nat)
    requires ValidScan(input, b, e, s)
    ensures ScanChunk(hash, input, b, e, s) == ScanChunk(hash, input, b, e, Walk(hash, input, b, e, s, k))
  {
    hide Next;
    if k > 0 {
      WalkScans(hash, input, b, e, s, k - 1);
    }
  }

  lemma LatestMore(hash: Hash, size: nat, input: seq<byte>, b: nat, ps: seq<nat>, ip: nat, j: nat)
    requires size >= 1 && ip + 4 <= |input| && forall i :: 0 <= i < |ps| ==> ps[i] + 4 <= |input|
    ensures Latest(hash, size, input, b, ps + [ip], j)
         == if Slot(hash, size, input, ip) == j then ip else Latest(hash, size, input, b, ps, j)
  {
    hide Slot;
    var more := ps + [ip];
    assert Front(more) == ps && Last(more) == ip;
  }

  lemma NextSlot(hash: Hash, input: seq<byte>, b: nat, e: nat, s: Scan, j: nat)
    requires ValidScan(input, b, e, s) && s.ip < e - 20 && j < |s.dict|
    ensures b + Next(hash, input, b, e, s).dict[j]
         == if Slot(hash, |s.dict|, input, s.ip) == j then s.ip else b + s.dict[j]
  {
    NextTakes(hash, input, b, e, s);
    hide Next, Slot;
  }

  /** At any time every slot of the table holds the latest probe that belongs to it. */
  lemma {:induction false} TableIsHistory(hash: Hash, input: seq<byte>, b: nat, e: nat, s: Scan, k: nat, j: nat)
    requires ValidScan(input, b, e, s) && j < |s.dict| && s.dict[j] == 0
    ensures b + Walk(hash, input, b, e, s, k).dict[j]
         == Latest(hash, |s.dict|, input, b, Probed(hash, input, b, e, s, k), j)
  {
    hide Next, Slot, ValidScan;
    EndsInside(input, b, e, s);
    if k > 0 {
      TableIsHistory(hash, input, b, e, s, k - 1, j);
      var r, ps := Walk(hash, input, b, e, s, k - 1), Probed(hash, input, b, e, s, k - 1);
      if r.ip < e - 20 {
        NextSlot(hash, input, b, e, r, j);
        LatestMore(hash, |s.dict|, input, b, ps, r.ip, j);
      } else {
        assert ps + [] == ps;
      }
    } else {
      hide Walk, Probed;
      NoRounds(hash, input, b, e, s);
    }
  }

  lemma EndsInside(input: seq<byte>, b: nat, e: nat, s: Scan)
    requires ValidScan(input, b, e, s)
    ensures e <= |input| && |s.dict| >= 1
  {
  }

  lemma NoRounds(hash: Hash, input: seq<byte>, b: nat, e: nat, s: Scan)
    requires ValidScan(input, b, e, s)
    ensures Walk(hash, input, b, e, s, 0) == s && Probed(hash, input, b, e, s, 0) == []
  {
  }

  // ---- inputs of one byte ----

  lemma SameAgree(input: seq<byte>, i: nat, j: nat, n: nat)
    requires Same(input) && i + n <= |input| && j + n <= |input|
    ensures input[i..i + n] == input[j..j + n]
  {
  }

  /** The first probe of a chunk, when t literals are pending. */
  function FirstProbe(b: nat, t: nat): nat {
    if t < 4 then b + 5 - t else b + 1
  }

  /** A chunk of equal bytes: its first probe finds a match at the start of the chunk, and this match reaches to the
      last 9 to 20 bytes of the chunk. */
  lemma SameChunk(hash: Hash, input: seq<byte>, b: nat, e: nat, t: nat, items: seq<Item>)
    requires Same(input) && 20 < e - b <= CHUNK && e <= |input| && t <= b
    ensures var r, ip := CompressChunk(hash, input, b, e, t, items), FirstProbe(b, t);
            if ip < e - 20 then
              && 9 <= r.t <= 20
              && var len := e - r.t - ip;
                 && len >= 12 && len % 8 == 4 && (len > 12 ==> ip + len - 8 < e - 20)
                 && r.items == items + [Item(input[b - t..ip], ip - b, len)]
            else r == Encoded(items, t + (e - b))
  {
    hide Next, LE32, Slot, Longest;
    var s := StartChunk(hash.size, b, t, items);
    StartsAt(hash.size, b, t, items);
    if s.ip < e - 20 {
      var r := Next(hash, input, b, e, s);
      SameAgree(input, b, s.ip, 4);
      NextTakes(hash, input, b, e, s);
      SameLongest(input, b, s.ip, e - 20, r.ip - s.ip);
      assert ScanChunk(hash, input, b, e, s) == r;
    }
  }

  lemma StartsAt(size: nat, b: nat, t: nat, items: seq<Item>)
    ensures var s := StartChunk(size, b, t, items);
            s.ip == FirstProbe(b, t) && s.ii == b && s.ti == t && s.items == items
            && forall j :: 0 <= j < |s.dict| ==> s.dict[j] == 0
  {
  }

  lemma SameLongest(input: seq<byte>, m: nat, ip: nat, ipEnd: nat, len: nat)
    requires Same(input) && ip < ipEnd && Longest(input, m, ip, ipEnd, len)
    ensures len >= 12 && len % 8 == 4 && ip + len >= ipEnd && (len > 12 ==> ip + len - 8 < ipEnd)
  {
  }

  /** Few literals and near matches. */
  predicate Cheap(items: seq<Item>) {
    items == [] || (|Last(items).lits| <= 21 && Last(items).off <= 5 && Cheap(Front(items)))
  }

  lemma {:induction false} SameChunks(hash: Hash, input: seq<byte>, pos: nat, t: nat, items: seq<Item>)
    requires Same(input) && t <= pos <= |input| && pos == 49152 * |items| && t <= 20 && Cheap(items)
    ensures var r := CompressChunks(hash, input, pos, t, items);
            && Cheap(r.items) && r.t <= 45 && |input| / 49152 <= |r.items| <= |input| / 49152 + 1
    decreases |input| - pos
  {
    hide CompressChunk, Cheap;
    var l := |input| - pos;
    var ll := if l <= CHUNK then l else CHUNK;
    if l > 20 && (t + ll) / 32 != 0 {
      var c := CompressChunk(hash, input, pos, pos + ll, t, items);
      CheapChunk(hash, input, pos, pos + ll, t, items);
      if ll == CHUNK {
        SameChunks(hash, input, pos + ll, c.t, c.items);
      } else {
        LastChunk(hash, input, c.t, c.items);
      }
    }
  }

  lemma CheapChunk(hash: Hash, input: seq<byte>, b: nat, e: nat, t: nat, items: seq<Item>)
    requires Same(input) && 20 < e - b <= CHUNK && e <= |input| && t <= b && t <= 20 && Cheap(items)
    ensures var r := CompressChunk(hash, input, b, e, t, items);
            && Cheap(r.items) && r.t <= 45 && |items| <= |r.items| <= |items| + 1
            && (e - b == CHUNK ==> r.t <= 20 && |r.items| == |items| + 1)
  {
    hide CompressChunk;
    SameChunk(hash, input, b, e, t, items);
    var r := CompressChunk(hash, input, b, e, t, items);
    if FirstProbe(b, t) < e - 20 {
      assert Front(r.items) == items && |Last(r.items).lits| <= 21;
    }
  }

  lemma LastChunk(hash: Hash, input: seq<byte>, t: nat, items: seq<Item>)
    requires t <= |input|
    ensures CompressChunks(hash, input, |input|, t, items) == Encoded(items, t)
  {
  }

  lemma CheapCode(v: Variant, w: seq<byte>, item: Item)
    requires 1 <= |item.lits| <= 3 ==> |w| >= 2
    requires |item.lits| <= 21 && 1 <= item.off <= 5 && item.len >= 4
    ensures 255 * |Emit(v, w, item)| <= 255 * |w| + 255 * 27 + item.len
  {
    NearCode(v, item.off, item.len);
    hide MatchCode;
  }

  lemma NearCode(v: Variant, off: nat, len: nat)
    requires 1 <= off <= 5 && len >= 4
    ensures |MatchCode(v, off, len)| <= 4 + len / 255
  {
    hide LongLength;
  }

  lemma {:induction false} CheapPrint(v: Variant, items: seq<Item>)
    requires WellFormed(items) && LongMatches(items) && Cheap(items)
    ensures 255 * |Print(v, items)| <= 255 * 27 * |items| + Size(items)
  {
    hide Print, WellFormed, LongMatches, Cheap, Size;
    if items == [] {
      PrintsNothing(v);
    } else {
      CheapParts(items);
      CheapPrint(v, Front(items));
      LastCheap(v, items);
    }
  }

  lemma PrintsNothing(v: Variant)
    ensures WellFormed([]) && Print(v, []) == []
  {
  }

  lemma CheapParts(items: seq<Item>)
    requires items != [] && WellFormed(items) && LongMatches(items) && Cheap(items)
    ensures WellFormed(Front(items)) && LongMatches(Front(items)) && Cheap(Front(items))
  {
  }

  lemma LastCheap(v: Variant, items: seq<Item>)
    requires items != [] && WellFormed(items) && LongMatches(items) && Cheap(items)
    ensures 255 * |Print(v, items)| <= 255 * |Print(v, Front(items))| + 255 * 27 + (Size(items) - Size(Front(items)))
  {
    hide Emit;
    CheapCode(v, Print(v, Front(items)), Last(items));
  }

  lemma CheapEnd(w: seq<byte>, tail: seq<byte>)
    requires (w != [] ==> |w| >= 2) && |tail| <= 45
    ensures |Finish(w, tail)| <= |w| + 50
  {
  }

  /** n equal bytes are compressed to one match in each chunk of 49152 bytes, whatever the hash. */
  lemma RunsCompress(v: Variant, hash: Hash, input: seq<byte>)
    requires forall i :: 0 <= i < |input| ==> input[i] == input[0]
    ensures |input| / 49152 <= |Encode(hash, input).items| <= |input| / 49152 + 1
    ensures |Compress(v, hash, input)| <= |input| / 255 + 27 * (|input| / 49152 + 1) + 50
  {
    hide Finish, CompressChunks, Print, WellFormed, LongMatches, Cheap, Size, Expand;
    NothingCheap();
    SameChunks(hash, input, 0, 0, []);
    EncodeFaithful(hash, input);
    var r := Encode(hash, input);
    CheapPrint(v, r.items);
    CheapEnd(Print(v, r.items), input[|input| - r.t..]);
    Budget(|Print(v, r.items)|, |r.items|, Size(r.items), |input|);
  }

  lemma NothingCheap()
    ensures Cheap([])
  {
  }

  lemma Budget(w: nat, k: nat, size: nat, n: nat)
    requires 255 * w <= 255 * 27 * k + size && size <= n && k <= n / 49152 + 1
    ensures w <= n / 255 + 27 * (n / 49152 + 1)
  {
  }

  /** A run of 64 bytes, to the byte. */
  lemma RunOf64(hash: Hash, x: byte)
    ensures Compress(Lzo1x, hash, seq(64, _ => x))
         == [2, x, x, x, x, x, 32, 11, 16, 0, 12] + seq(15, _ => x) + [17, 0, 0]
  {
    hide CompressChunk, Print;
    var input := seq(64, _ => x);
    SameChunk(hash, input, 0, 64, 0, []);
    var c := CompressChunk(hash, input, 0, 64, 0, []);
    LastChunk(hash, input, c.t, c.items);
    assert input[0..5] == [x, x, x, x, x] && input[49..] == seq(15, _ => x);
    assert c == Encoded([Item([x, x, x, x, x], 5, 44)], 15);
    assert Encode(hash, input) == c;
    PrintOf64(x);
    var w := Print(Lzo1x, c.items);
    assert Finish(w, input[49..]) == w + [12] + input[49..] + [17, 0, 0];
  }

  lemma PrintOf64(x: byte)
    ensures var items := [Item([x, x, x, x, x], 5, 44)];
            WellFormed(items) && Print(Lzo1x, items) == [2, x, x, x, x, x, 32, 11, 16, 0]
  {
    var item := Item([x, x, x, x, x], 5, 44);
    assert Front([item]) == [];
    assert WellFormed([item]);
    CodeOf44();
    hide MatchCode;
    assert EmitLits([], item.lits) == [2, x, x, x, x, x];
    hide EmitLits;
    assert Print(Lzo1x, []) == [];
    assert Print(Lzo1x, [item]) == Emit(Lzo1x, Print(Lzo1x, Front([item])), item);
  }

  lemma CodeOf44()
    ensures MatchCode(Lzo1x, 5, 44) == [32, 11, 16, 0]
  {
    assert LongLength(11) == [11];
    assert LengthCode(32, 44, 33) == [32, 11];
    assert DistanceCode(4) == [16, 0];
    hide LengthCode, DistanceCode;
    assert M3Code(5, 44) == [32, 11, 16, 0];
  }

  /** Fewer than 32 bytes are stored as literals. */
  lemma ShortInputs(v: Variant, hash: Hash, input: seq<byte>)
    requires |input| < 32
    ensures Compress(v, hash, input) == (if input == [] then [] else [17 + |input|] + input) + [17, 0, 0]
  {
    hide CompressChunk;
    assert input[0..] == input;
  }

  /** Another chunk of at most 49152 bytes is compressed whenever more than 20 bytes are left and 32 or more are
      pending; what is then left becomes literals. */
  lemma ChunksGoOn(hash: Hash, input: seq<byte>, pos: nat, t: nat, items: seq<Item>)
    requires t <= pos <= |input|
    ensures var l := |input| - pos;
            CompressChunks(hash, input, pos, t, items)
            == if l > 20 && t + l >= 32 then
                 var e := if l < 49152 then |input| else pos + 49152;
                 var c := CompressChunk(hash, input, pos, e, t, items);
                 CompressChunks(hash, input, e, c.t, c.items)
               else Encoded(items, t + l)
  {
  }

  /** An input in which no match is found is stored as one run of literals. */
  lemma NoMatches(v: Variant, hash: Hash, input: seq<byte>)
    requires Encode(hash, input).items == [] && input != []
    ensures Compress(v, hash, input)
         == (if |input| <= 238 then [17 + |input|] else [0] + LongLength(|input| - 18)) + input + [17, 0, 0]
  {
    hide Encode, LongLength, EmitLits, WellFormed, LongMatches, Expand;
    EncodeFaithful(hash, input);
    assert input[0..] == input;
    OnlyLiterals(input);
  }

  lemma OnlyLiterals(tail: seq<byte>)
    requires tail != []
    ensures Finish([], tail)
         == (if |tail| <= 238 then [17 + |tail|] else [0] + LongLength(|tail| - 18)) + tail + [17, 0, 0]
  {
    hide LongLength, EmitLits;
    if |tail| > 238 {
      LongTail(tail);
    }
  }

  lemma LongTail(tail: seq<byte>)
    requires |tail| > 238
    ensures EmitLits([], tail) == [0] + LongLength(|tail| - 18) + tail
  {
    assert RunHeader(|tail|) == [0] + LongLength(|tail| - 18);
    hide RunHeader, LongLength;
    assert [] + RunHeader(|tail|) == RunHeader(|tail|);
  }
}
