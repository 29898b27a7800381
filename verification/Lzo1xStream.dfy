// The compressed format: what the compressor prints for a sequence of literal runs and matches.
module Lzo1xStream {
  import opened Bytes
  import opened Slices
  import opened Window
  import opened Lzo1xFormat

  /** A literal run (possibly empty) followed by a match. */
  datatype Item = Item(lits: seq<byte>, off: nat, len: nat)

  /** A length n as n / 255 zero bytes and a last byte in 1..255. */
  function LongLength(n: nat): (r: seq<byte>)
    requires n >= 1
    ensures |r| == 1 + (n - 1) / 255
  {
    if n > 255 then [0] + LongLength(n - 255) else [n]
  }

  /** The loop that reads a length of n back stays within the range of its counter. */
  predicate Countable(n: int) {
    (n - 1) / 255 * 255 <= RUN_LIMIT
  }

  function LengthCode(marker: byte, len: nat, maxLen: nat): (r: seq<byte>)
    requires len >= 3 && marker + maxLen < 258
    ensures |r| >= 1 && r[0] >= marker
  {
    if len <= maxLen then [marker + (len - 2)] else [marker] + LongLength(len - maxLen)
  }

  function M2Code(v: Variant, off: nat, len: nat): (r: seq<byte>)
    requires 1 <= off <= v.M2MaxOffset && 3 <= len <= v.M2MaxLen
    ensures |r| == 2 && r[0] % 4 == 0 && r[0] >= 64
  {
    match v
    case Lzo1x => [(len - 1) * 32 + (off - 1) % 8 * 4, (off - 1) / 8]
    case Lzo1y => [(len + 1) * 16 + (off - 1) % 4 * 4, (off - 1) / 4]
  }

  /** Six low and eight high bits of a distance. */
  function DistanceCode(d: nat): (r: seq<byte>)
    ensures |r| == 2 && r[0] % 4 == 0
  {
    [ToByte(d * 4), ToByte(d / 64)]
  }

  function M3Code(off: nat, len: nat): (r: seq<byte>)
    requires 1 <= off <= M3_MAX_OFFSET && len >= 3
    ensures |r| >= 3 && r[|r| - 2] % 4 == 0 && r[0] >= 32
  {
    LengthCode(M3_MARKER, len, M3_MAX_LEN) + DistanceCode(off - 1)
  }

  function M4Marker(off: nat): (r: byte)
    requires M3_MAX_OFFSET < off <= M4_MAX_OFFSET
    ensures r == 16 || r == 24
  {
    if (off - 0x4000) / 0x4000 % 2 == 1 then 24 else 16
  }

  function M4Code(off: nat, len: nat): (r: seq<byte>)
    requires M3_MAX_OFFSET < off <= M4_MAX_OFFSET && len >= 3
    ensures |r| >= 3 && r[|r| - 2] % 4 == 0 && r[0] >= 16
  {
    LengthCode(M4Marker(off), len, M4_MAX_LEN) + DistanceCode(off - 0x4000)
  }

  /** The code of a match. Its byte before last always has its two low bits clear. */
  function MatchCode(v: Variant, off: nat, len: nat): (r: seq<byte>)
    requires 1 <= off <= M4_MAX_OFFSET && len >= 3
    ensures |r| >= 2 && r[|r| - 2] % 4 == 0 && r[0] >= 16
  {
    if len <= v.M2MaxLen && off <= v.M2MaxOffset then M2Code(v, off, len)
    else if off <= M3_MAX_OFFSET then M3Code(off, len)
    else M4Code(off, len)
  }

  function RunHeader(t: nat): (r: seq<byte>)
    requires t >= 4
    ensures |r| >= 1
  {
    if t <= 18 then [t - 3] else [0] + LongLength(t - 18)
  }

  /** `op[-2] |= t`. */
  function Patch(w: seq<byte>, t: nat): (r: seq<byte>)
    requires |w| >= 2 && t < 4
    ensures |r| == |w|
  {
    w[|w| - 2 := OrLow(w[|w| - 2], t)]
  }

  /** Appends a literal run to the output w; a run of 1..3 bytes has its count patched into the previous match. */
  function EmitLits(w: seq<byte>, lits: seq<byte>): (r: seq<byte>)
    requires 1 <= |lits| <= 3 ==> |w| >= 2
    ensures |r| >= |w| + |lits|
  {
    if |lits| == 0 then w
    else if |lits| <= 3 then Patch(w, |lits|) + lits
    else w + RunHeader(|lits|) + lits
  }

  function Emit(v: Variant, w: seq<byte>, item: Item): (r: seq<byte>)
    requires 1 <= |item.lits| <= 3 ==> |w| >= 2
    requires 1 <= item.off <= M4_MAX_OFFSET && item.len >= 3
    ensures |r| >= |w| + |item.lits| + 2 && r[|r| - 2] % 4 == 0
  {
    EmitLits(w, item.lits) + MatchCode(v, item.off, item.len)
  }

  /** The bytes that a sequence of items stands for. */
  function Expand(items: seq<Item>): (r: seq<byte>)
    requires WellFormed(items)
    ensures |r| == Size(items)
  {
    if items == [] then []
    else CopyMatch(Expand(Front(items)) + Last(items).lits, Last(items).off, Last(items).len)
  }

  /** Number of bytes the items stand for. */
  function Size(items: seq<Item>): nat {
    if items == [] then 0 else Size(Front(items)) + |Last(items).lits| + Last(items).len
  }

  /** The streams of the format: the first run has at least four literals, and every match is encodable and starts in
      what has been produced. */
  predicate WellFormed(items: seq<Item>) {
    items == [] ||
    (&& WellFormed(Front(items))
     && (|items| == 1 ==> |Last(items).lits| >= 4)
     && Last(items).len >= 3
     && 1 <= Last(items).off <= M4_MAX_OFFSET
     && Last(items).off <= Size(Front(items)) + |Last(items).lits|)
  }

  /** What the compressor has written after these items. */
  function Print(v: Variant, items: seq<Item>): (w: seq<byte>)
    requires WellFormed(items)
    ensures items == [] <==> w == []
    ensures items != [] ==> |w| >= 2 && w[|w| - 2] % 4 == 0
  {
    if items == [] then [] else Emit(v, Print(v, Front(items)), Last(items))
  }

  /** The tail of the stream: the pending literals and the EOF code. */
  function Finish(w: seq<byte>, tail: seq<byte>): (r: seq<byte>)
    requires w != [] ==> |w| >= 2
  {
    (if w == [] && 1 <= |tail| <= 238 then [17 + |tail|] + tail else EmitLits(w, tail)) + [M4_MARKER + 1, 0, 0]
  }

  function Stream(v: Variant, items: seq<Item>, tail: seq<byte>): seq<byte>
    requires WellFormed(items)
  {
    Finish(Print(v, items), tail)
  }
}
