// lzo1_compress and lzo1a_compress on arrays.
module Lzo1StoreRun {
  import opened Bytes
  import opened Memory
  import opened Lzo1Format
  import opened Lzo1Decoder
  import opened Lzo1Stream
  import opened Lzo1RoundTrip

  // ---- store_run ----

  /** Two code bytes and t literals: `*op++ = 0; *op++ = code; MEMCPY8_DS(op, ii, t)`. */
  method PutPart(src: array<byte>, ii: nat, dst: array<byte>, op: nat, code: byte, t: nat)
    requires ii + t <= src.Length && op + 2 + t <= dst.Length && src != dst
    modifies dst
    ensures dst[..] == Overlay(old(dst[..]), op, [0, code] + src[ii..ii + t])
  {
    ghost var was := dst[..];
    dst[op] := 0;
    dst[op + 1] := code;
    ByElements(dst[..], was, op, [0, code]);
    StoreBytes(dst, op + 2, src[ii..ii + t]);
    OverlayNext(was, op, [0, code], src[ii..ii + t]);
  }

  /** The sizes of long parts. */
  predicate Power(p: nat, bits: nat) {
    && 1 <= bits <= 7 && p == LongRun(bits)
    && (bits == 1 ==> p == 512) && (bits == 2 ==> p == 1024) && (bits == 3 ==> p == 2048) && (bits == 4 ==> p == 4096)
    && (bits == 5 ==> p == 8192) && (bits == 6 ==> p == 16384) && (bits == 7 ==> p == 32768)
  }

  lemma PowerIs(bits: nat)
    requires 1 <= bits <= 7
    ensures Power(LongRun(bits), bits)
    ensures bits > 1 ==> LongRun(bits) == 2 * LongRun(bits - 1)
  {
    LongRuns();
  }

  lemma LongPartAt(r: nat, part: nat, p: nat)
    requires r >= p && part in {512, 1024, 2048, 4096, 8192, 16384, 32768}
             && p in {512, 1024, 2048, 4096, 8192, 16384, 32768}
    requires p <= part && (p == part || r < 2 * p)
    ensures LongPart(r, part) == p
    decreases part
  {
    if p < part {
      LongPartAt(r, part / 2, p);
    }
  }

  /** The part that store_run takes next. */
  lemma NextPart(x: seq<byte>, bits: nat)
    requires 1 <= bits <= 7 && |x| >= LongRun(bits) && (bits == 7 || |x| < 2 * LongRun(bits))
    ensures var p := LongRun(bits); RunCode(x) == [0, 248 + bits] + x[..p] + RunCode(x[p..])
  {
    var p := LongRun(bits);
    PowerIs(bits);
    hide LongRun;
    LongPartAt(|x|, 32768, p);
    hide LongPart;
    assert LongCode(p) == 248 + bits;
  }

  lemma LastPart(x: seq<byte>)
    requires R0FAST <= |x| < 512
    ensures RunCode(x) == [0, 248] + x[..R0FAST] + RunCode(x[R0FAST..])
  {
  }

  /** What is true while store_run works: w has been written for the first |x| - r literals. */
  ghost predicate Storing(x: seq<byte>, r: nat, w: seq<byte>) {
    r <= |x| && RunCode(x) == w + RunCode(x[|x| - r..])
  }

  lemma StoringMore(x: seq<byte>, r: nat, w: seq<byte>, head: seq<byte>, p: nat)
    requires Storing(x, r, w) && p <= r
    requires var y := x[|x| - r..]; RunCode(y) == head + y[..p] + RunCode(y[p..])
    ensures Storing(x, r - p, w + (head + x[|x| - r..|x| - r + p]))
  {
    hide RunCode;
    var y := x[|x| - r..];
    assert y[..p] == x[|x| - r..|x| - r + p] && y[p..] == x[|x| - (r - p)..];
    var a, b := head + y[..p], RunCode(y[p..]);
    assert w + (a + b) == (w + a) + b;
  }

  /** The variables of store_run: r literals at ii are left of x, and w has been written from o on. */
  ghost predicate Stored(src: array<byte>, ii: nat, dst: array<byte>, op: nat, r: nat,
                         x: seq<byte>, w: seq<byte>, was: seq<byte>, o: nat)
    reads src, dst
  {
    && src != dst && r <= |x| && ii + r <= src.Length && x[|x| - r..] == src[ii..ii + r]
    && |was| == dst.Length && o + |RunCode(x)| <= dst.Length && op == o + |w| <= dst.Length
    && dst[..] == Overlay(was, o, w) && Storing(x, r, w)
  }

  /** One part of a long run. */
  method StorePart(src: array<byte>, ii: nat, dst: array<byte>, op: nat, code: byte, p: nat,
                   ghost x: seq<byte>, ghost r: nat, ghost w: seq<byte>, ghost was: seq<byte>, ghost o: nat)
    returns (ghost w': seq<byte>)
    requires Stored(src, ii, dst, op, r, x, w, was, o) && p <= r
    requires var y := x[|x| - r..]; RunCode(y) == [0, code] + y[..p] + RunCode(y[p..])
    modifies dst
    ensures Stored(src, ii + p, dst, op + 2 + p, r - p, x, w', was, o)
  {
    hide RunCode, Overlay;
    ghost var part := x[|x| - r..|x| - r + p];
    StoringMore(x, r, w, [0, code], p);
    w' := w + ([0, code] + part);
    assert src[ii..ii + p] == src[ii..ii + r][..p] == part;
    assert src[ii + p..ii + r] == src[ii..ii + r][p..];
    StoringFits(x, r - p, w');
    PutPart(src, ii, dst, op, code, p);
    OverlayNext(was, o, w, [0, code] + part);
  }

  lemma StoringFits(x: seq<byte>, r: nat, w: seq<byte>)
    requires Storing(x, r, w)
    ensures |w| <= |RunCode(x)|
  {
  }

  /** The end of store_run: fewer than 280 literals. */
  method StoreShort(src: array<byte>, ii: nat, dst: array<byte>, op: nat, r: nat) returns (op': nat)
    requires r < R0FAST && ii + r <= src.Length && src != dst && op + |ShortRun(src[ii..ii + r])| <= dst.Length
    modifies dst
    ensures dst[..] == Overlay(old(dst[..]), op, ShortRun(src[ii..ii + r])) && op' == op + |ShortRun(src[ii..ii + r])|
  {
    hide Overlay, ShortRun;
    ghost var was, y := dst[..], src[ii..ii + r];
    ShortParts(y);
    op' := op;
    if r >= R0MIN {
      dst[op] := 0;
      dst[op + 1] := r - R0MIN;
      op' := PutRun(src, ii, dst, op + 2, r, op, [0, r - R0MIN], was);
    } else if r > 0 {
      dst[op] := r;
      op' := PutRun(src, ii, dst, op + 1, r, op, [r], was);
    } else {
      OverlayNothing(was, op);
    }
  }

  lemma ShortParts(x: seq<byte>)
    requires |x| < R0FAST
    ensures ShortRun(x) == if |x| >= R0MIN then [0, |x| - R0MIN] + x else if |x| > 0 then [|x|] + x else []
  {
  }

  /** The literals behind a run header h that has just been written: MEMCPY_DS(op, ii, t). */
  method PutRun(src: array<byte>, ii: nat, dst: array<byte>, at: nat, t: nat, ghost op: nat, ghost h: seq<byte>,
                ghost was: seq<byte>)
    returns (op': nat)
    requires ii + t <= src.Length && src != dst && at == op + |h| && at + t <= dst.Length && |was| == dst.Length
    requires forall j :: 0 <= j < dst.Length ==> dst[j] == if op <= j < op + |h| then h[j - op] else was[j]
    modifies dst
    ensures dst[..] == Overlay(was, op, h + src[ii..ii + t]) && op' == op + |h| + t
  {
    hide Overlay;
    ByElements(dst[..], was, op, h);
    CopyBytes(src, ii, dst, at, t);
    OverlayNext(was, op, h, src[ii..ii + t]);
    op' := at + t;
  }

  lemma ShortIs(x: seq<byte>)
    requires |x| < R0FAST
    ensures RunCode(x) == ShortRun(x)
  {
  }

  /** store_run of src/lzo1.c. */
  method StoreRun(src: array<byte>, ii0: nat, dst: array<byte>, o: nat, n: nat) returns (op: nat)
    requires ii0 + n <= src.Length && src != dst && o + |RunCode(src[ii0..ii0 + n])| <= dst.Length
    modifies dst
    ensures dst[..] == Overlay(old(dst[..]), o, RunCode(src[ii0..ii0 + n])) && op == o + |RunCode(src[ii0..ii0 + n])|
  {
    hide RunCode, Overlay, LongRun, ShortRun, Stored;
    ghost var x, was := src[ii0..ii0 + n], dst[..];
    ghost var w: seq<byte> := [];
    var ii: nat, r: nat := ii0, n;
    op := o;
    NothingStored(src, ii, dst, op, x);
    if r >= 512 {
      var bits := 7;
      while bits > 0
        invariant 0 <= bits <= 7 && r <= |x| && Stored(src, ii, dst, op, r, x, w, was, o)
        invariant bits == 0 ==> r < 512
        invariant 0 < bits < 7 ==> r < 2 * LongRun(bits)
      {
        PowerIs(bits);
        var p := LongRun(bits);
        while r >= p
          invariant r <= |x| && Stored(src, ii, dst, op, r, x, w, was, o)
          invariant bits < 7 ==> r < 2 * p
        {
          NextPart(x[|x| - r..], bits);
          w := StorePart(src, ii, dst, op, R0FAST - R0MIN + bits, p, x, r, w, was, o);
          ii, op, r := ii + p, op + 2 + p, r - p;
        }
        bits := bits - 1;
      }
    }
    op := StoreRest(src, ii, dst, op, r, x, w, was, o);
  }

  /** store_run of src/lzo1a_cr.ch, which takes each size below 32768 at most once. */
  method StoreRunA(src: array<byte>, ii0: nat, dst: array<byte>, o: nat, n: nat) returns (op: nat)
    requires ii0 + n <= src.Length && src != dst && o + |RunCode(src[ii0..ii0 + n])| <= dst.Length
    modifies dst
    ensures dst[..] == Overlay(old(dst[..]), o, RunCode(src[ii0..ii0 + n])) && op == o + |RunCode(src[ii0..ii0 + n])|
  {
    hide RunCode, Overlay, LongRun, ShortRun, Stored;
    ghost var x, was := src[ii0..ii0 + n], dst[..];
    ghost var w: seq<byte> := [];
    var ii: nat, r: nat := ii0, n;
    op := o;
    NothingStored(src, ii, dst, op, x);
    if r >= 512 {
      var bits, tt := 6, 32768;
      PowerIs(7);
      while r >= tt
        invariant r <= |x| && Stored(src, ii, dst, op, r, x, w, was, o)
      {
        NextPart(x[|x| - r..], 7);
        w := StorePart(src, ii, dst, op, 255, tt, x, r, w, was, o);
        ii, op, r := ii + tt, op + 2 + tt, r - tt;
      }
      tt := tt / 2;
      PowerIs(6);
      while bits > 0
        invariant 0 <= bits <= 6 && r <= |x| && Stored(src, ii, dst, op, r, x, w, was, o)
        invariant bits == 0 ==> r < 512
        invariant 0 < bits ==> tt == LongRun(bits) && r < 2 * tt
      {
        PowerIs(bits);
        if r >= tt {
          NextPart(x[|x| - r..], bits);
          w := StorePart(src, ii, dst, op, R0FAST - R0MIN + bits, tt, x, r, w, was, o);
          ii, op, r := ii + tt, op + 2 + tt, r - tt;
        }
        tt, bits := tt / 2, bits - 1;
      }
    }
    op := StoreRest(src, ii, dst, op, r, x, w, was, o);
  }

  lemma NothingStored(src: array<byte>, ii: nat, dst: array<byte>, op: nat, x: seq<byte>)
    requires src != dst && ii + |x| <= src.Length && x == src[ii..ii + |x|] && op + |RunCode(x)| <= dst.Length
    ensures Stored(src, ii, dst, op, |x|, x, [], dst[..], op)
  {
    hide RunCode;
    assert x[0..] == x;
    assert Overlay(dst[..], op, []) == dst[..];
    assert [] + RunCode(x) == RunCode(x);
  }

  /** Fewer than 512 literals: a run of 280 if there are so many, then the short run. */
  method StoreRest(src: array<byte>, ii0: nat, dst: array<byte>, op0: nat, r0: nat,
                   ghost x: seq<byte>, ghost w0: seq<byte>, ghost was: seq<byte>, ghost o: nat)
    returns (op: nat)
    requires r0 < 512 && Stored(src, ii0, dst, op0, r0, x, w0, was, o)
    modifies dst
    ensures dst[..] == Overlay(was, o, RunCode(x)) && op == o + |RunCode(x)|
  {
    hide RunCode, Overlay, ShortRun, Storing;
    var ii, r := ii0, r0;
    ghost var w := w0;
    op := op0;
    while r >= R0FAST
      invariant 0 <= r <= r0 && ii >= ii0 && Stored(src, ii, dst, op, r, x, w, was, o)
    {
      LastPart(x[|x| - r..]);
      w := StorePart(src, ii, dst, op, R0FAST - R0MIN, R0FAST, x, r, w, was, o);
      ii, op, r := ii + R0FAST, op + 2 + R0FAST, r - R0FAST;
    }
    ghost var y := src[ii..ii + r];
    ShortIs(y);
    StoringDone(x, r, w);
    op := StoreShort(src, ii, dst, op, r);
    OverlayNext(was, o, w, RunCode(y));
  }

  lemma StoringDone(x: seq<byte>, r: nat, w: seq<byte>)
    requires Storing(x, r, w)
    ensures RunCode(x) == w + RunCode(x[|x| - r..])
  {
  }
}
