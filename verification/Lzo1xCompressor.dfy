// lzo1x_1_compress on arrays. The output may lie below the input in the same array, with the overhead that
// overlapping compression reserves.
module Lzo1xCompressor {
  import opened Bytes
  import opened Slices
  import opened Memory
  import opened Lzo1xFormat
  import opened Lzo1xStream
  import opened Matching
  import opened Lzo1xEncoder
  import opened Lzo1xExtend
  import opened Lzo1xRoundTrip
  import opened Lzo1xCompress

  /** The distance that overlapping compression of n bytes keeps between output and input. */
  function Overhead(n: nat): nat {
    (if n > 0xbfff then 0xbfff else n) + n / 16 + 64 + 3
  }

  type word16 = x: int | 0 <= x < 0x1_0000

  // ---- what the memory holds ----

  /** After at bytes that are as before stands w; from at + room on nothing has changed. In between there may be bytes
      that a wide store left behind. */
  predicate Written(mem: seq<byte>, before: seq<byte>, at: nat, room: nat, w: seq<byte>) {
    && |mem| == |before| && |w| <= room && at + room <= |mem|
    && mem[..at] == before[..at]
    && mem[at..at + |w|] == w
    && mem[at + room..] == before[at + room..]
  }

  /** The input from index k on is still there. */
  predicate Available(mem: seq<byte>, at: nat, input: seq<byte>, k: nat) {
    at + |input| <= |mem| && k <= |input| && mem[at + k..at + |input|] == input[k..]
  }

  /** Storing x, possibly with some bytes more, extends w by x. */
  lemma WrittenMore(mem: seq<byte>, mem': seq<byte>, before: seq<byte>, at: nat, room: nat, w: seq<byte>,
                    x: seq<byte>, junk: seq<byte>)
    requires Written(mem, before, at, room, w) && |w| + |x| + |junk| <= room
    requires mem' == Overlay(mem, at + |w|, x + junk)
    ensures Written(mem', before, at, room, w + x)
  {
    assert mem'[..at] == mem[..at];
    assert mem'[at..at + |w|] == mem[at..at + |w|];
    assert mem'[at + |w|..at + |w| + |x|] == x;
    Join(mem', at, at + |w|, at + |w| + |x|);
    assert mem'[at + room..] == mem[at + room..];
  }

  /** `op[-2] |= t` */
  lemma WrittenPatch(mem: seq<byte>, before: seq<byte>, at: nat, room: nat, w: seq<byte>, t: nat)
    requires Written(mem, before, at, room, w) && |w| >= 2 && t < 4
    ensures mem[at + |w| - 2] == w[|w| - 2]
    ensures Written(mem[at + |w| - 2 := OrLow(w[|w| - 2], t)], before, at, room, Patch(w, t))
  {
    hide OrLow;
    assert mem[at + |w| - 2] == mem[at..at + |w|][|w| - 2];
    var mem' := mem[at + |w| - 2 := OrLow(w[|w| - 2], t)];
    assert mem'[at..at + |w|] == Patch(w, t);
  }

  lemma AvailableLater(mem: seq<byte>, at: nat, input: seq<byte>, k: nat, k': nat)
    requires Available(mem, at, input, k) && k <= k' <= |input|
    ensures Available(mem, at, input, k')
  {
    assert input[k..] == input[k..|input|] && input[k'..] == input[k'..|input|];
    Sub(mem, at + k, at + |input|, k' - k, |input| - k);
    Sub(input, k, |input|, k' - k, |input| - k);
  }

  lemma AvailableRange(mem: seq<byte>, at: nat, input: seq<byte>, k: nat, i: nat, j: nat)
    requires Available(mem, at, input, k) && k <= i <= j <= |input|
    ensures mem[at + i..at + j] == input[i..j]
  {
    assert input[k..] == input[k..|input|];
    Sub(mem, at + k, at + |input|, i - k, j - k);
    Sub(input, k, |input|, i - k, j - k);
  }

  /** A store that ends before the input leaves it there. */
  lemma AvailableBehind(mem: seq<byte>, o: nat, x: seq<byte>, at: nat, input: seq<byte>, k: nat)
    requires Available(mem, at, input, k) && o + |x| <= at + k && o + |x| <= |mem|
    ensures Available(Overlay(mem, o, x), at, input, k)
  {
    OverlayBehind(mem, o, x, at + k, at + |input|);
  }

  // ---- lengths ----

  /** `while (tt > 255) { tt -= 255; *op++ = 0; } *op++ = tt` */
  method PutLong(dst: array<byte>, o: nat, n: nat) returns (o': nat)
    requires n >= 1 && o + |LongLength(n)| <= dst.Length
    modifies dst
    ensures o' == o + |LongLength(n)|
    ensures dst[..] == Overlay(old(dst[..]), o, LongLength(n))
  {
    hide Overlay;
    ghost var before, zeros: seq<byte> := dst[..], [];
    OverlayNothing(before, o);
    var m := n;
    o' := o;
    while m > 255
      invariant 1 <= m && o' == o + |zeros| && zeros + LongLength(m) == LongLength(n)
      invariant dst[..] == Overlay(before, o, zeros)
    {
      assert LongLength(m) == [0] + LongLength(m - 255);
      assert zeros + [0] + LongLength(m - 255) == zeros + LongLength(m);
      ghost var was := dst[..];
      dst[o'] := 0;
      ByElements(dst[..], was, o', [0]);
      OverlayNext(before, o, zeros, [0]);
      m := m - 255;
      o' := o' + 1;
      zeros := zeros + [0];
    }
    ghost var was := dst[..];
    dst[o'] := m;
    ByElements(dst[..], was, o', [m as byte]);
    OverlayNext(before, o, zeros, [m as byte]);
    o' := o' + 1;
  }

  /** The header of a run of four or more literals. */
  method PutHeader(dst: array<byte>, o: nat, t: nat) returns (o': nat)
    requires t >= 4 && o + |RunHeader(t)| <= dst.Length
    modifies dst
    ensures o' == o + |RunHeader(t)|
    ensures dst[..] == Overlay(old(dst[..]), o, RunHeader(t))
  {
    hide Overlay, LongLength;
    ghost var was := dst[..];
    if t <= 18 {
      dst[o] := t - 3;
      ByElements(dst[..], was, o, [(t - 3) as byte]);
      o' := o + 1;
    } else {
      dst[o] := 0;
      ByElements(dst[..], was, o, [0]);
      o' := PutLong(dst, o + 1, t - 18);
      OverlayNext(was, o, [0], LongLength(t - 18));
    }
  }

  /** The code of a match: two bytes for M2, a length part and two bytes of distance otherwise. */
  method PutMatch(v: Variant, dst: array<byte>, o: nat, off: nat, len: nat) returns (o': nat)
    requires 1 <= off <= M4_MAX_OFFSET && len >= 3 && o + |MatchCode(v, off, len)| <= dst.Length
    modifies dst
    ensures o' == o + |MatchCode(v, off, len)|
    ensures dst[..] == Overlay(old(dst[..]), o, MatchCode(v, off, len))
  {
    hide Overlay, LengthCode;
    if len <= v.M2MaxLen && off <= v.M2MaxOffset {
      var d := off - 1;
      match v {
        case Lzo1x => PutTwo(dst, o, (len - 1) * 32 + d % 8 * 4, d / 8);
        case Lzo1y => PutTwo(dst, o, (len + 1) * 16 + d % 4 * 4, d / 4);
      }
      o' := o + 2;
    } else if off <= M3_MAX_OFFSET {
      o' := PutLengthAndDistance(dst, o, M3_MARKER, len, M3_MAX_LEN, off - 1);
    } else {
      var d := off - 0x4000;
      o' := PutLengthAndDistance(dst, o, M4_MARKER + (if d / 0x4000 % 2 == 1 then 8 else 0), len, M4_MAX_LEN, d);
    }
  }

  method PutTwo(dst: array<byte>, o: nat, x: byte, y: byte)
    requires o + 2 <= dst.Length
    modifies dst
    ensures dst[..] == Overlay(old(dst[..]), o, [x, y])
  {
    ghost var was := dst[..];
    dst[o], dst[o + 1] := x, y;
    ByElements(dst[..], was, o, [x, y]);
  }

  /** The length part of a match code. */
  method PutLength(dst: array<byte>, o: nat, marker: byte, len: nat, maxLen: nat) returns (o': nat)
    requires len >= 3 && marker + maxLen < 258
    requires o + |LengthCode(marker, len, maxLen)| <= dst.Length
    modifies dst
    ensures o' == o + |LengthCode(marker, len, maxLen)|
    ensures dst[..] == Overlay(old(dst[..]), o, LengthCode(marker, len, maxLen))
  {
    hide Overlay, LongLength;
    ghost var was := dst[..];
    if len <= maxLen {
      dst[o] := marker + (len - 2);
      ByElements(dst[..], was, o, [marker + (len - 2)]);
      o' := o + 1;
    } else {
      dst[o] := marker;
      ByElements(dst[..], was, o, [marker]);
      o' := PutLong(dst, o + 1, len - maxLen);
      OverlayNext(was, o, [marker], LongLength(len - maxLen));
    }
  }

  method PutLengthAndDistance(dst: array<byte>, o: nat, marker: byte, len: nat, maxLen: nat, d: nat) returns (o': nat)
    requires len >= 3 && marker + maxLen < 258
    requires o + |LengthCode(marker, len, maxLen)| + 2 <= dst.Length
    modifies dst
    ensures o' == o + |LengthCode(marker, len, maxLen)| + 2
    ensures dst[..] == Overlay(old(dst[..]), o, LengthCode(marker, len, maxLen) + DistanceCode(d))
  {
    hide Overlay, LengthCode, ToByte, LongLength;
    ghost var was, code := dst[..], LengthCode(marker, len, maxLen);
    o' := PutLength(dst, o, marker, len, maxLen);
    PutTwo(dst, o', ToByte(d * 4), ToByte(d / 64));
    OverlayNext(was, o, code, DistanceCode(d));
    o' := o' + 2;
  }

  /** UA_GET_LE32 */
  method LoadLE32(src: array<byte>, i: nat) returns (x: nat)
    requires i + 4 <= src.Length
    ensures x == LE32(src[..], i)
  {
    x := src[i] as nat + 0x100 * src[i + 1] as nat + 0x1_0000 * src[i + 2] as nat + 0x100_0000 * src[i + 3] as nat;
  }

  // ---- the input seen through the array ----

  lemma SameByte(mem: seq<byte>, at: nat, input: seq<byte>, k: nat, i: nat)
    requires Available(mem, at, input, k) && k <= i < |input|
    ensures mem[at + i] == input[i]
  {
    assert mem[at + i] == mem[at + k..at + |input|][i - k];
  }

  lemma SameWord(mem: seq<byte>, at: nat, input: seq<byte>, k: nat, i: nat)
    requires Available(mem, at, input, k) && k <= i && i + 4 <= |input|
    ensures LE32(mem, at + i) == LE32(input, i)
  {
    SameByte(mem, at, input, k, i);
    SameByte(mem, at, input, k, i + 1);
    SameByte(mem, at, input, k, i + 2);
    SameByte(mem, at, input, k, i + 3);
  }

  lemma {:induction false} SameCommon(mem: seq<byte>, at: nat, input: seq<byte>, k: nat, i: nat, j: nat, w: nat)
    requires Available(mem, at, input, k) && k <= i && k <= j && i + w <= |input| && j + w <= |input|
    ensures Common(mem, at + i, at + j, w) == Common(input, i, j, w)
    decreases w
  {
    if w != 0 {
      SameByte(mem, at, input, k, i);
      SameByte(mem, at, input, k, j);
      hide Available;
      SameCommon(mem, at, input, k, i + 1, j + 1, w - 1);
    }
  }

  lemma {:induction false} SameExtend(mem: seq<byte>, at: nat, input: seq<byte>, k: nat, m: nat, ip: nat, ipEnd: nat,
                                      len: nat)
    requires Available(mem, at, input, k) && k <= m < ip && ip + len < ipEnd + 4 && ipEnd + 20 <= |input|
    ensures Extend(mem, at + m, at + ip, at + ipEnd, len) == Extend(input, m, ip, ipEnd, len)
    decreases ipEnd + 4 - ip - len
  {
    hide Common, Available;
    SameCommon(mem, at, input, k, m + len, ip + len, 8);
    if Common(input, m + len, ip + len, 8) == 8 && ip + len + 8 < ipEnd {
      SameExtend(mem, at, input, k, m, ip, ipEnd, len + 8);
    }
  }

  // ---- how much is written ----

  lemma LitsSize(w: seq<byte>, lits: seq<byte>)
    requires 1 <= |lits| <= 3 ==> |w| >= 2
    ensures |EmitLits(w, lits)| <= |w| + |lits| + 2 + |lits| / 255
  {
  }

  /** Before a match: w is bounded by what it stands for, so the run of literals up to ip, wide stores included, stays
      inside the buffer, behind the literals while they are read, and behind the chunk that starts at b. */
  lemma RunFits(n: nat, b: nat, w: nat, lo: nat, t: nat, e1: nat)
    requires 16 * w <= 17 * lo && e1 <= w + t + 2 + t / 255
    requires lo + t + 21 <= n && lo + t + 21 <= b + CHUNK
    ensures e1 + 12 <= WorstCase(n)
    ensures e1 - t <= lo + Overhead(n) && e1 + 12 <= b + Overhead(n)
  {
    assert 16 * e1 <= 17 * (lo + t) + 32;
  }

  /** After a match. */
  lemma MatchFits(n: nat, b: nat, w: nat, size: nat)
    requires 16 * w <= 17 * size && size + 9 <= n && size + 9 <= b + CHUNK
    ensures w <= WorstCase(n) && w <= b + Overhead(n)
  {
  }

  // ---- the compressor ----

  /** Four or sixteen bytes, whether they are needed or not. */
  method MoveWide(src: array<byte>, i: nat, dst: array<byte>, o: nat, wide: nat)
    requires wide in {4, 16} && i + wide <= src.Length && o + wide <= dst.Length
    requires src == dst ==> o <= i
    modifies dst
    ensures dst[..] == Overlay(old(dst[..]), o, old(src[i..i + wide]))
  {
    if wide == 4 {
      CopyFour(src, i, dst, o);
    } else {
      CopySixteen(src, i, dst, o);
    }
  }

  /** The buffers and the write position of one call of lzo1x_1_compress. */
  class Compressor {
    const v: Variant
    const hash: Hash
    const src: array<byte>
    const inp: nat
    const n: nat
    const dst: array<byte>
    const outp: nat
    const dict: array<word16>
    ghost const input: seq<byte>
    ghost const before: seq<byte>
    var op: nat

    constructor (v: Variant, hash: Hash, src: array<byte>, inp: nat, n: nat, dst: array<byte>, outp: nat,
                 dict: array<word16>)
      requires inp + n <= src.Length && outp + WorstCase(n) <= dst.Length
      requires src == dst ==> outp + Overhead(n) <= inp
      requires hash.size <= dict.Length
      ensures this.v == v && this.hash == hash && this.src == src && this.inp == inp && this.n == n
      ensures this.dst == dst && this.outp == outp && this.dict == dict && op == 0
      ensures Fixed() && input == src[inp..inp + n] && before == dst[..]
    {
      this.v, this.hash, this.dict := v, hash, dict;
      this.src, this.inp, this.n := src, inp, n;
      this.dst, this.outp := dst, outp;
      this.input, this.before := src[inp..inp + n], dst[..];
      op := 0;
    }

    ghost predicate Fixed() {
      && inp + n <= src.Length && outp + WorstCase(n) <= dst.Length
      && |input| == n && |before| == dst.Length && hash.size <= dict.Length
      && (src == dst ==> outp + Overhead(n) <= inp)
    }

    /** The output is w, and the input from index k on is still there. */
    ghost predicate Holds(w: seq<byte>, k: nat)
      reads this, src, dst
    {
      && Fixed() && op == |w|
      && Written(dst[..], before, outp, WorstCase(n), w)
      && Available(src[..], inp, input, k)
    }

    /** A store that ends before inp + k leaves the input from k on there. */
    lemma Stored(srcWas: seq<byte>, dstWas: seq<byte>, o: nat, x: seq<byte>, k: nat)
      requires Available(srcWas, inp, input, k)
      requires o + |x| <= |dstWas| && dst[..] == Overlay(dstWas, o, x)
      requires if src == dst then srcWas == dstWas && o + |x| <= inp + k else src[..] == srcWas
      ensures Available(src[..], inp, input, k)
    {
      if src == dst {
        AvailableBehind(dstWas, o, x, inp, input, k);
      }
    }

    /** `op[-2] |= t` */
    method PatchLast(t: nat, ghost w: seq<byte>, ghost k: nat)
      requires Holds(w, k) && 1 <= t <= 3 && |w| >= 2
      requires src == dst ==> outp + |w| <= inp + k
      modifies dst
      ensures Holds(Patch(w, t), k)
    {
      hide Overlay, OrLow, Available;
      ghost var mem, smem := dst[..], src[..];
      ghost var x := OrLow(w[|w| - 2], t);
      WrittenPatch(mem, before, outp, WorstCase(n), w, t);
      dst[outp + op - 2] := OrLow(dst[outp + op - 2], t);
      assert dst[..] == mem[outp + |w| - 2 := x];
      ByElements(dst[..], mem, outp + op - 2, [x]);
      Stored(smem, mem, outp + op - 2, [x], k);
    }

    /** The m bytes at lo are those of the input, and what is needed from k' on is there. */
    lemma Source(lo: nat, m: nat, w: seq<byte>, k: nat, k': nat)
      requires Holds(w, k) && k <= lo && k <= k' <= n && lo + m <= n
      ensures src[inp + lo..inp + lo + m] == input[lo..lo + m] && Available(src[..], inp, input, k')
      ensures Written(dst[..], before, outp, WorstCase(n), w)
    {
      hide Written, Available;
      AvailableRange(src[..], inp, input, k, lo, lo + m);
      AvailableLater(src[..], inp, input, k, k');
      assert src[..][inp + lo..inp + lo + m] == src[inp + lo..inp + lo + m];
    }

    /** Stores t literals with one or four wide moves: 4 or 16 bytes are written, and op advances by t. */
    method WideLits(lo: nat, t: nat, wide: nat, ghost w: seq<byte>, ghost k: nat, ghost k': nat)
      requires Holds(w, k) && k <= lo && k <= k' <= n && t <= wide && lo + wide <= n && wide in {4, 16}
      requires |w| + wide <= WorstCase(n)
      requires src == dst ==> outp + |w| <= inp + lo && outp + |w| + wide <= inp + k'
      modifies this`op, dst
      ensures Holds(w + input[lo..lo + t], k')
    {
      hide Overlay, Written, Available, Only;
      ghost var mem, smem := dst[..], src[..];
      ghost var x := input[lo..lo + wide];
      Source(lo, wide, w, k, k');
      MoveWide(src, inp + lo, dst, outp + op, wide);
      Stored(smem, mem, outp + op, x, k');
      Join(input, lo, lo + t, lo + wide);
      WrittenMore(mem, dst[..], before, outp, WorstCase(n), w, input[lo..lo + t], input[lo + t..lo + wide]);
      op := op + t;
    }

    /** Stores exactly t literals. The form in blocks of sixteen is that of do_compress, the other that of UA_COPYN. */
    method ExactLits(lo: nat, t: nat, sixteens: bool, ghost w: seq<byte>, ghost k: nat, ghost k': nat)
      requires Holds(w, k) && k <= lo && k <= k' <= n && lo + t <= n && |w| + t <= WorstCase(n)
      requires src == dst ==> outp + |w| <= inp + lo && outp + |w| + t <= inp + k'
      modifies this`op, dst
      ensures Holds(w + input[lo..lo + t], k')
    {
      hide Overlay, Written, Available, Only;
      ghost var mem, smem := dst[..], src[..];
      ghost var x := input[lo..lo + t];
      Source(lo, t, w, k, k');
      if sixteens {
        CopySixteens(src, inp + lo, dst, outp + op, t);
      } else {
        CopyBlocks(src, inp + lo, dst, outp + op, t);
      }
      Stored(smem, mem, outp + op, x, k');
      assert x + [] == x;
      WrittenMore(mem, dst[..], before, outp, WorstCase(n), w, x, []);
      op := op + t;
    }

    method EmitHeader(t: nat, ghost w: seq<byte>, ghost k: nat)
      requires Holds(w, k) && t >= 4 && |w| + |RunHeader(t)| <= WorstCase(n)
      requires src == dst ==> outp + |w| + |RunHeader(t)| <= inp + k
      modifies this`op, dst
      ensures Holds(w + RunHeader(t), k)
    {
      hide Overlay, Written, RunHeader;
      ghost var mem, smem, x := dst[..], src[..], RunHeader(t);
      var o := PutHeader(dst, outp + op, t);
      Stored(smem, mem, outp + op, x, k);
      assert x + [] == x;
      WrittenMore(mem, dst[..], before, outp, WorstCase(n), w, x, []);
      op := o - outp;
    }

    method EmitMatch(off: nat, len: nat, ghost w: seq<byte>, ghost k: nat)
      requires Holds(w, k) && 1 <= off <= M4_MAX_OFFSET && len >= 3 && |w| + |MatchCode(v, off, len)| <= WorstCase(n)
      requires src == dst ==> outp + |w| + |MatchCode(v, off, len)| <= inp + k
      modifies this`op, dst
      ensures Holds(w + MatchCode(v, off, len), k)
    {
      hide Overlay, Written, MatchCode;
      ghost var mem, smem, x := dst[..], src[..], MatchCode(v, off, len);
      var o := PutMatch(v, dst, outp + op, off, len);
      Stored(smem, mem, outp + op, x, k);
      assert x + [] == x;
      WrittenMore(mem, dst[..], before, outp, WorstCase(n), w, x, []);
      op := o - outp;
    }

    /** The literal run before a match. k' is where the input must survive, wide stores included. */
    method EmitRun(lo: nat, t: nat, ghost w: seq<byte>, ghost k: nat, ghost k': nat)
      requires Holds(w, k) && k <= lo && k <= k' <= n && lo + t + 16 <= n
      requires 1 <= t <= 3 ==> |w| >= 2
      requires |EmitLits(w, input[lo..lo + t])| + 12 <= WorstCase(n)
      requires src == dst ==> outp + |EmitLits(w, input[lo..lo + t])| - t <= inp + lo
      requires src == dst ==> outp + |EmitLits(w, input[lo..lo + t])| + 12 <= inp + k'
      modifies this`op, dst
      ensures Holds(EmitLits(w, input[lo..lo + t]), k')
    {
      hide Written, Available, RunHeader;
      ghost var mid := if lo < k' then lo else k';
      if t == 0 {
        HoldsLater(w, k, k');
      } else {
        HoldsLater(w, k, mid);
        if t <= 3 {
          PatchLast(t, w, mid);
          WideLits(lo, t, 4, Patch(w, t), mid, k');
        } else {
          EmitHeader(t, w, mid);
          if t <= 16 {
            WideLits(lo, t, 16, w + RunHeader(t), mid, k');
          } else {
            ExactLits(lo, t, true, w + RunHeader(t), mid, k');
          }
        }
      }
    }

    lemma HoldsLater(w: seq<byte>, k: nat, k': nat)
      requires Holds(w, k) && k <= k' <= n
      ensures Holds(w, k')
    {
      AvailableLater(src[..], inp, input, k, k');
    }

    /** The table holds the entries of the scan. */
    ghost predicate Table(entries: seq<nat>)
      reads dict
    {
      |entries| == hash.size <= dict.Length && forall i :: 0 <= i < hash.size ==> dict[i] == entries[i]
    }

    /** The output is the code of items that stand for the first size bytes; the input from k on is still there. */
    ghost predicate Output(items: seq<Item>, size: nat, k: nat)
      reads this, src, dst
    {
      |input| == n && Covers(input, items, size) && Holds(Print(v, items), k)
    }

    lemma PrintSize(items: seq<Item>, size: nat)
      requires Covers(input, items, size)
      ensures 16 * |Print(v, items)| <= 17 * size
    {
      SlackNegative(v, items);
    }

    /** The item that a found match adds, and its code. */
    lemma ItemPrints(items: seq<Item>, item: Item, more: seq<Item>, size: nat)
      requires more == items + [item] && Covers(input, items, size) && WellFormed(more)
      ensures 1 <= |item.lits| <= 3 ==> |Print(v, items)| >= 2
      ensures 1 <= item.off <= M4_MAX_OFFSET && item.len >= 3
      ensures Print(v, more) == EmitLits(Print(v, items), item.lits) + MatchCode(v, item.off, item.len)
    {
      assert Front(more) == items && Last(more) == item;
      PrintLast(v, more);
      hide EmitLits, MatchCode;
    }

    /** The run before a match, with up to twelve bytes that are stored behind it, and this match code end inside the
        output buffer and below what is still to be read, and they take the output from s to r. */
    ghost predicate RoomFor(b: nat, lo: int, s: Scan, r: Scan, code: seq<byte>) {
      && 0 <= lo <= s.ip <= |input| && WellFormed(s.items) && WellFormed(r.items)
      && var w, lits := Print(v, s.items), input[lo..s.ip];
         && (1 <= |lits| <= 3 ==> |w| >= 2)
         && var e1 := |EmitLits(w, lits)|;
            && e1 + 12 <= WorstCase(n) && e1 - |lits| <= lo + Overhead(n) && e1 + 12 <= b + Overhead(n)
            && e1 + |code| <= WorstCase(n) && e1 + |code| <= b + Overhead(n)
            && Print(v, r.items) == EmitLits(w, lits) + code
    }

    /** Everything that TakeMatch stores fits: the run before the match with its wide stores, and the match. */
    lemma TakeFits(b: nat, e: nat, mPos: nat, k0: nat, s: Scan, r: Scan)
      requires Fixed() && Faithful(input, b, e, k0, s) && Faithful(input, b, e, k0, r)
      requires s.ip < e - 20 && b <= mPos < s.ip && |input| == n && r == FoundMatch(input, e, s, mPos, r.dict)
      ensures var len := Extend(input, mPos, s.ip, e - 20, 4);
              && len >= 3 && s.ip - mPos <= M4_MAX_OFFSET
              && RoomFor(b, s.ii - s.ti, s, r, MatchCode(v, s.ip - mPos, len))
    {
      hide Extend, Covers, Print, EmitLits, MatchCode, Faithful, FoundMatch, WellFormed;
      var lo := s.ii - s.ti;
      var item := FoundItem(b, e, mPos, k0, s, r);
      var w := Print(v, s.items);
      ItemPrints(s.items, item, r.items, lo);
      PrintSize(s.items, lo);
      LitsSize(w, item.lits);
      RunFits(n, b, |w|, lo, s.ip - lo, |EmitLits(w, item.lits)|);
      PrintSize(r.items, r.ii);
      MatchFits(n, b, |Print(v, r.items)|, r.ii);
    }

    /** The item of a found match, and what the faithfulness of both states says of it. */
    lemma FoundItem(b: nat, e: nat, mPos: nat, k0: nat, s: Scan, r: Scan) returns (item: Item)
      requires Faithful(input, b, e, k0, s) && Faithful(input, b, e, k0, r)
      requires s.ip < e - 20 && b <= mPos < s.ip && |input| == n && r == FoundMatch(input, e, s, mPos, r.dict)
      ensures 0 <= s.ii - s.ti <= s.ip && s.ip + 21 <= e && r.ii + 9 <= e && e <= n && e <= b + CHUNK
      ensures item == Item(input[s.ii - s.ti..s.ip], s.ip - mPos, Extend(input, mPos, s.ip, e - 20, 4))
      ensures WellFormed(s.items) && WellFormed(r.items) && r.items == s.items + [item]
      ensures Covers(input, s.items, s.ii - s.ti) && Covers(input, r.items, r.ii)
    {
      hide Extend, WellFormed, Expand, LongMatches;
      item := Item(input[s.ii - s.ti..s.ip], s.ip - mPos, Extend(input, mPos, s.ip, e - 20, 4));
    }

    /** Stores the pending literals, extends the match at mPos and stores its code. */
    method TakeMatch(b: nat, e: nat, mPos: nat, ip: nat, lo: nat, ghost k0: nat, ghost s: Scan, ghost r: Scan)
      returns (len: nat)
      requires |input| == n && Faithful(input, b, e, k0, s) && Faithful(input, b, e, k0, r)
      requires ip == s.ip < e - 20 && lo == s.ii - s.ti && b <= mPos < ip
      requires r == FoundMatch(input, e, s, mPos, r.dict)
      requires Holds(Print(v, s.items), b - s.ti)
      modifies this`op, dst
      ensures len == Extend(input, mPos, ip, e - 20, 4) && Holds(Print(v, r.items), b)
    {
      hide Extend, Covers, Print, EmitLits, MatchCode, Written, Available;
      CoversWellFormed(s.items, lo);
      ghost var w, lits := Print(v, s.items), input[lo..ip];
      TakeFits(b, e, mPos, k0, s, r);
      EmitRun(lo, ip - lo, w, b - s.ti, b);
      SameExtend(src[..], inp, input, b, mPos, ip, e - 20, 4);
      len := ExtendByWords64(src, inp + mPos, inp + ip, inp + (e - 20));
      EmitMatch(ip - mPos, len, EmitLits(w, lits), b);
    }

    lemma CoversWellFormed(items: seq<Item>, size: nat)
      requires Covers(input, items, size)
      ensures WellFormed(items)
    {
    }

    /** Looks up the four bytes at ip and puts ip in their place. */
    method Lookup(b: nat, ip: nat, ghost k: nat, ghost entries: seq<nat>) returns (found: bool, mPos: nat)
      requires Fixed() && |input| == n && Available(src[..], inp, input, k) && Table(entries)
      requires k <= b < ip && ip + 4 <= n && forall i :: 0 <= i < |entries| ==> entries[i] < ip - b
      modifies dict
      ensures var dindex := hash.hash(LE32(input, ip)) % |entries|;
              && mPos == b + entries[dindex] && (found <==> LE32(input, ip) == LE32(input, mPos))
              && Table(entries[dindex := (ip - b) % 0x1_0000])
    {
      hide LE32, Available;
      var dv := LoadLE32(src, inp + ip);
      SameWord(src[..], inp, input, k, ip);
      var dindex := hash.hash(dv) % hash.size;
      mPos := b + dict[dindex] as nat;
      var w := LoadLE32(src, inp + mPos);
      SameWord(src[..], inp, input, k, mPos);
      dict[dindex] := (ip - b) % 0x1_0000;
      found := dv == w;
    }

    /** One round of the loop of do_compress, from `next:` on. */
    method Round(b: nat, e: nat, ip: nat, ii: nat, ti: nat, ghost k0: nat, ghost s: Scan)
      returns (ip': nat, ii': nat, ti': nat)
      requires s.ip == ip && s.ii == ii && s.ti == ti && ip < e - 20
      requires |input| == n && Faithful(input, b, e, k0, s)
      requires Output(s.items, ii - ti, b - ti) && Table(s.dict)
      modifies this`op, dst, dict
      ensures var r := Next(hash, input, b, e, s);
              && ip' == r.ip && ii' == r.ii && ti' == r.ti
              && Faithful(input, b, e, k0, r) && Output(r.items, r.ii - r.ti, b - r.ti) && Table(r.dict)
    {
      hide Extend, Covers, Print, Holds, Available, LE32, Table;
      OutputAvailable(s.items, ii - ti, b - ti);
      NextFaithful(hash, input, b, e, k0, s);
      var found, mPos := Lookup(b, ip, b - ti, s.dict);
      if !found {
        return ip + 1 + (ip - ii) / 32, ii, ti;
      }
      var len := TakeMatch(b, e, mPos, ip, ii - ti, k0, s, Next(hash, input, b, e, s));
      return ip + len, ip + len, 0;
    }

    method ClearTable()
      requires hash.size <= dict.Length
      modifies dict
      ensures Table(seq(hash.size, _ => 0))
    {
      forall i | 0 <= i < hash.size {
        dict[i] := 0;
      }
    }

    lemma OutputAvailable(items: seq<Item>, size: nat, k: nat)
      requires Output(items, size, k)
      ensures Fixed() && Available(src[..], inp, input, k)
    {
    }

    lemma OutputFacts(items: seq<Item>, size: nat, k: nat)
      requires Output(items, size, k)
      ensures Fixed() && |input| == n && Covers(input, items, size)
    {
    }

    lemma ScanOn(b: nat, e: nat, s: Scan)
      requires ValidScan(input, b, e, s) && s.ip < e - 20
      ensures ScanChunk(hash, input, b, e, s) == ScanChunk(hash, input, b, e, Next(hash, input, b, e, s))
    {
    }

    lemma ScanEnds(b: nat, e: nat, s: Scan)
      requires ValidScan(input, b, e, s) && s.ip >= e - 20
      ensures ScanChunk(hash, input, b, e, s) == s
    {
    }

    /** do_compress: one chunk, whose pending literals are returned. */
    method DoCompress(b: nat, e: nat, t: nat, ghost items: seq<Item>) returns (rest: nat)
      requires 20 < e - b <= CHUNK && e <= n && t <= b && Output(items, b - t, b - t)
      modifies this`op, dst, dict
      ensures var r := CompressChunk(hash, input, b, e, t, items);
              rest == r.t && Output(r.items, e - r.t, e - r.t)
    {
      hide Covers, Output, Next, Table, ScanChunk;
      OutputFacts(items, b - t, b - t);
      ClearTable();
      var ip := b + (if t < 4 then 4 - t else 0);
      var ii, ti := b, t;
      ip := ip + 1 + (ip - ii) / 32;
      ghost var s := StartChunk(hash.size, b, t, items);
      while ip < e - 20
        invariant s.ip == ip && s.ii == ii && s.ti == ti
        invariant Faithful(input, b, e, |items|, s) && Output(s.items, ii - ti, b - ti) && Table(s.dict)
        invariant ScanChunk(hash, input, b, e, s) == ScanChunk(hash, input, b, e, StartChunk(hash.size, b, t, items))
        decreases if ip < e then e - ip else 0
      {
        ghost var r := Next(hash, input, b, e, s);
        ScanOn(b, e, s);
        ip, ii, ti := Round(b, e, ip, ii, ti, |items|, s);
        s := r;
      }
      ScanEnds(b, e, s);
      rest := e - (ii - ti);
      OutputLater(s.items, ii - ti, b - ti, ii - ti);
    }

    lemma OutputLater(items: seq<Item>, size: nat, k: nat, k': nat)
      requires Output(items, size, k) && k <= k' <= n
      ensures Output(items, size, k')
    {
      HoldsLater(Print(v, items), k, k');
    }

    method PutEof(ghost w: seq<byte>)
      requires Holds(w, n) && |w| + 3 <= WorstCase(n)
      modifies this`op, dst
      ensures Holds(w + [M4_MARKER + 1, 0, 0], n)
    {
      hide Overlay, Written;
      ghost var mem, smem, x := dst[..], src[..], [(M4_MARKER + 1) as byte, 0, 0];
      var o := outp + op;
      dst[o], dst[o + 1], dst[o + 2] := M4_MARKER + 1, 0, 0;
      ByElements(dst[..], mem, o, x);
      Stored(smem, mem, o, x, n);
      assert x + [] == x;
      WrittenMore(mem, dst[..], before, outp, WorstCase(n), w, x, []);
      op := op + 3;
    }

    /** The first byte of a stream without matches. */
    method PutFirst(t: nat, ghost k: nat)
      requires Holds([], k) && 1 <= t <= 238 && 1 <= WorstCase(n)
      requires src == dst ==> outp + 1 <= inp + k
      modifies this`op, dst
      ensures Holds([17 + t], k)
    {
      hide Overlay, Written;
      ghost var mem, smem, x := dst[..], src[..], [(17 + t) as byte];
      dst[outp] := 17 + t;
      ByElements(dst[..], mem, outp, x);
      Stored(smem, mem, outp, x, k);
      assert x + [] == x && [] + x == x;
      WrittenMore(mem, dst[..], before, outp, WorstCase(n), [], x, []);
      op := 1;
    }

    /** The pending literals at the end of the input. */
    method EmitTail(t: nat, ghost w: seq<byte>)
      requires t <= n && |input| == n && Holds(w, n - t) && (w != [] ==> |w| >= 2) && 16 * |w| <= 17 * (n - t)
      modifies this`op, dst
      ensures Holds(Finish(w, input[n - t..]), n)
    {
      hide Written, Available, RunHeader;
      var k := n - t;
      ghost var tail := input[k..];
      FinishSize(w, tail);
      if t > 0 {
        assert input[k..k + t] == tail;
        RunHeaderSize(t);
        if op == 0 && t <= 238 {
          PutFirst(t, k);
          ExactLits(k, t, false, [17 + t], k, n);
        } else {
          if t <= 3 {
            PatchLast(t, w, k);
            ExactLits(k, t, false, Patch(w, t), k, n);
          } else {
            EmitHeader(t, w, k);
            ExactLits(k, t, false, w + RunHeader(t), k, n);
          }
        }
      }
      PutEof(if w == [] && 1 <= t <= 238 then [17 + t] + tail else EmitLits(w, tail));
    }

    lemma RunHeaderSize(t: nat)
      ensures t >= 4 ==> |RunHeader(t)| <= 2 + t / 255
    {
    }

    /** The chunk loop, the tail and the EOF code. */
    method Run()
      requires Holds([], 0) && |input| == n
      modifies this`op, dst, dict
      ensures Holds(Compress(v, hash, input), n)
    {
      hide Covers, Output, Holds, CompressChunk;
      var pos, l, t := 0, n, 0;
      ghost var items: seq<Item> := [];
      NothingCovered();
      while l > 20
        invariant 0 <= t <= pos && 0 <= l && pos + l == n && Output(items, pos - t, pos - t)
        invariant CompressChunks(hash, input, pos, t, items) == Encode(hash, input)
      {
        var ll := if l <= CHUNK then l else CHUNK;
        if (t + ll) / 32 == 0 { break; }
        ghost var r := CompressChunk(hash, input, pos, pos + ll, t, items);
        t := DoCompress(pos, pos + ll, t, items);
        items := r.items;
        pos, l := pos + ll, l - ll;
      }
      assert Encode(hash, input) == Encoded(items, t + l);
      t := t + l;
      EmitStream(t, items);
    }

    method EmitStream(t: nat, ghost items: seq<Item>)
      requires t <= n && Output(items, n - t, n - t) && Encode(hash, input) == Encoded(items, t)
      modifies this`op, dst
      ensures Holds(Compress(v, hash, input), n)
    {
      hide Covers, Holds, Finish, Print, Compress, Encode;
      CoversWellFormed(items, n - t);
      CompressIs(items, t);
      PrintSize(items, n - t);
      EmitTail(t, Print(v, items));
    }

    lemma CompressIs(items: seq<Item>, t: nat)
      requires t <= |input| && WellFormed(items) && Encode(hash, input) == Encoded(items, t)
      ensures Compress(v, hash, input) == Finish(Print(v, items), input[|input| - t..])
    {
      hide Encode, Finish, Print, WellFormed, Size;
      EncodeFaithful(hash, input);
    }

    lemma NothingCovered()
      requires Holds([], 0) && |input| == n
      ensures Output([], 0, 0)
    {
    }
  }

  /** lzo1x_1_compress, lzo1y_1_compress. Whatever the table held before, the output is Compress(input); in one shared
      array the output may start Overhead(n) bytes before the input. */
  method CompressTo(v: Variant, hash: Hash, src: array<byte>, inp: nat, n: nat, dst: array<byte>, outp: nat,
                    wrkmem: array<word16>)
    returns (outLen: nat)
    requires inp + n <= src.Length && outp + WorstCase(n) <= dst.Length && hash.size <= wrkmem.Length
    requires src == dst ==> outp + Overhead(n) <= inp
    modifies dst, wrkmem
    ensures var z := Compress(v, hash, old(src[inp..inp + n]));
            && outLen == |z| <= WorstCase(n) && dst[outp..outp + outLen] == z
            && dst[..outp] == old(dst[..outp]) && dst[outp + WorstCase(n)..] == old(dst[outp + WorstCase(n)..])
  {
    var c := new Compressor(v, hash, src, inp, n, dst, outp, wrkmem);
    c.Run();
    outLen := c.op;
  }
}
