// What the LZO1 and LZO1A compressors print for a sequence of matches in the input.
module Lzo1Stream {
  import opened Bytes
  import opened Slices
  import opened Matching
  import opened Lzo1Format

  /** A match that starts at input position at. */
  datatype Phrase = Phrase(at: nat, off: nat, len: nat)

  /** Where the pending literals start: ii. */
  function End(ps: seq<Phrase>): nat {
    if ps == [] then 0 else Last(ps).at + Last(ps).len
  }

  /** Consecutive encodable matches of the input. */
  predicate Sound(input: seq<byte>, ps: seq<Phrase>) {
    ps == [] ||
    (&& Sound(input, Front(ps))
     && var p := Last(ps);
        && End(Front(ps)) <= p.at && 1 <= p.off <= p.at && p.off <= MAX_OFFSET && MIN_MATCH <= p.len <= MAX_MATCH_LONG
        && Agree(input, p.at - p.off, p.at, p.len))
  }

  lemma EndFits(input: seq<byte>, ps: seq<Phrase>)
    requires Sound(input, ps)
    ensures End(ps) <= |input|
  {
  }

  /** The largest of 32768, 16384, ..., 512 that is at most r. */
  function LongPart(r: nat, part: nat): (n: nat)
    requires r >= 512 && part >= 512
    ensures 512 <= n <= r && n <= part
    decreases part
  {
    if r >= part then part else if part < 1024 then 512 else LongPart(r, part / 2)
  }

  /** The code byte of a long part. */
  function LongCode(n: nat): byte
    requires n >= 512
  {
    if n < 1024 then 249 else if n < 2048 then 250 else if n < 4096 then 251 else if n < 8192 then 252
    else if n < 16384 then 253 else if n < 32768 then 254 else 255
  }

  /** store_run: a literal run as long R0 runs of decreasing size, R0 runs of 280, and one short run. */
  function RunCode(x: seq<byte>): (r: seq<byte>)
    ensures |x| <= |r|
    decreases |x|
  {
    if |x| >= 512 then
      var n := LongPart(|x|, 32768);
      [0, LongCode(n)] + x[..n] + RunCode(x[n..])
    else if |x| >= R0FAST then [0, R0FAST - R0MIN] + x[..R0FAST] + RunCode(x[R0FAST..])
    else ShortRun(x)
  }

  function ShortRun(x: seq<byte>): (r: seq<byte>)
    requires |x| < R0FAST
    ensures |x| <= |r|
  {
    if |x| >= R0MIN then [0, |x| - R0MIN] + x else if |x| > 0 then [|x|] + x else []
  }

  function MatchCode(off: nat, len: nat): (r: seq<byte>)
    requires 1 <= off <= MAX_OFFSET && MIN_MATCH <= len <= MAX_MATCH_LONG
    ensures |r| >= 2
  {
    if len <= MAX_MATCH_SHORT then [(len - 2) * OSIZE + (off - 1) % OSIZE, (off - 1) / OSIZE]
    else [LONG_MATCH + (off - 1) % OSIZE, (off - 1) / OSIZE, len - MIN_MATCH_LONG]
  }

  /** `op[-2] &= OMASK`. */
  function Mask(w: seq<byte>): (r: seq<byte>)
    requires |w| >= 2
    ensures |r| == |w|
  {
    w[|w| - 2 := w[|w| - 2] % OSIZE]
  }

  /** The number of literals before the last match. */
  function Lits(ps: seq<Phrase>): int
    requires ps != []
  {
    Last(ps).at - End(Front(ps))
  }

  /** The pointer r1 of the LZO1A compressor: the match after the last literal run of 1..279 bytes, and ip_end while
      there is none. */
  function R1(ipEnd: int, ps: seq<Phrase>): int {
    if ps == [] then ipEnd else if 1 <= Lits(ps) < R0FAST then Last(ps).at else R1(ipEnd, Front(ps))
  }

  /** No match starts at or after this position. */
  function IpEnd(input: seq<byte>): int {
    |input| - DVAL_LEN - MIN_MATCH_LONG
  }

  /** The condition under which LZO1A merges the pending literals before a match at ip into the previous match. */
  predicate Merges(v: Variant, ipEnd: int, ps: seq<Phrase>, ip: nat) {
    v.Lzo1a? && ip > End(ps) && ip - R1(ipEnd, ps) == MIN_MATCH + 1
  }

  /** What has been written when the match after x begins. */
  function EmitRun(w: seq<byte>, merge: bool, x: seq<byte>): (r: seq<byte>)
    requires merge ==> |w| >= 2
    ensures |r| >= |w|
  {
    if merge then Mask(w) + x else w + RunCode(x)
  }

  function Print(v: Variant, input: seq<byte>, ps: seq<Phrase>): (w: seq<byte>)
    requires Sound(input, ps) && (ps != [] ==> Last(ps).at < IpEnd(input))
    ensures ps == [] ==> w == []
    ensures ps != [] ==> |w| >= 2
  {
    if ps == [] then []
    else
      var p := Last(ps);
      var merge := Merges(v, IpEnd(input), Front(ps), p.at);
      EmitRun(Print(v, input, Front(ps)), merge, input[End(Front(ps))..p.at]) + MatchCode(p.off, p.len)
  }

  function Stream(v: Variant, input: seq<byte>, ps: seq<Phrase>): seq<byte>
    requires Sound(input, ps) && (ps != [] ==> Last(ps).at < IpEnd(input))
  {
    Print(v, input, ps) + RunCode(input[End(ps)..])
  }

  // ---- the R1 pointer ----

  /** r1 is ip_end, or the start of the last match when a short run precedes it, or three bytes or more before that. */
  lemma {:induction false} R1Bounds(ipEnd: int, input: seq<byte>, ps: seq<Phrase>)
    requires ps != [] && Sound(input, ps)
    ensures var r1 := R1(ipEnd, ps);
            if 1 <= Lits(ps) < R0FAST then r1 == Last(ps).at else r1 == ipEnd || r1 + MIN_MATCH <= Last(ps).at
  {
    if !(1 <= Lits(ps) < R0FAST) && Front(ps) != [] {
      R1Bounds(ipEnd, input, Front(ps));
    }
  }

  /** ip - r1 == 4 with pending literals exactly when one literal is pending after a match of three bytes that directly
      follows a run of 1..279 literals. */
  lemma {:induction false} MergesExactly(v: Variant, input: seq<byte>, ps: seq<Phrase>, ip: nat)
    requires Sound(input, ps) && ip < IpEnd(input)
    ensures Merges(v, IpEnd(input), ps, ip) <==>
              v.Lzo1a? && ps != [] && ip == End(ps) + 1 && Last(ps).len == MIN_MATCH && 1 <= Lits(ps) < R0FAST
  {
    if ps != [] {
      R1Bounds(IpEnd(input), input, ps);
    }
  }

  /** The byte that is masked is then the marker of a match of three bytes. */
  lemma MarkerBeforeMerge(v: Variant, input: seq<byte>, ps: seq<Phrase>, ip: nat)
    requires Sound(input, ps) && (ps != [] ==> Last(ps).at < IpEnd(input)) && ip < IpEnd(input)
    requires Merges(v, IpEnd(input), ps, ip)
    ensures ps != []
    ensures var w := Print(v, input, ps); w[|w| - 2] / OSIZE == MIN_MATCH - 2
  {
    MergesExactly(v, input, ps, ip);
    hide Sound, RunCode;
  }
}
