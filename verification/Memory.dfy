// The copy loops of the codecs, on arrays. Source and destination may be the same array.
module Memory {
  import opened Bytes
  import opened Slices
  import opened Window

  /** s with x stored at index at. */
  function Overlay<T>(s: seq<T>, at: nat, x: seq<T>): (r: seq<T>)
    requires at + |x| <= |s|
    ensures |r| == |s|
  {
    s[..at] + x + s[at + |x|..]
  }

  lemma OverlayNothing<T>(s: seq<T>, at: nat)
    requires at <= |s|
    ensures Overlay(s, at, []) == s
  {
  }

  lemma OverlayNext<T>(s: seq<T>, at: nat, x: seq<T>, y: seq<T>)
    requires at + |x| + |y| <= |s|
    ensures Overlay(Overlay(s, at, x), at + |x|, y) == Overlay(s, at, x + y)
  {
  }

  /** What lies behind the stored bytes is unchanged. */
  lemma OverlayBehind<T>(s: seq<T>, at: nat, x: seq<T>, lo: nat, hi: nat)
    requires at + |x| <= lo <= hi <= |s|
    ensures Overlay(s, at, x)[lo..hi] == s[lo..hi]
  {
  }

  lemma OverlayBefore<T>(s: seq<T>, at: nat, x: seq<T>, lo: nat, hi: nat)
    requires lo <= hi <= at && at + |x| <= |s|
    ensures Overlay(s, at, x)[lo..hi] == s[lo..hi]
  {
  }

  lemma OverlayAt<T>(s: seq<T>, at: nat, x: seq<T>)
    requires at + |x| <= |s|
    ensures Overlay(s, at, x)[at..at + |x|] == x
  {
  }

  lemma OverlayPrefix<T>(s: seq<T>, at: nat, x: seq<T>)
    requires at + |x| <= |s|
    ensures Overlay(s, at, x)[..at + |x|] == s[..at] + x
  {
  }

  lemma ByElements(s: seq<byte>, before: seq<byte>, o: nat, x: seq<byte>)
    requires |s| == |before| && o + |x| <= |s|
    requires forall j :: 0 <= j < |s| ==> s[j] == if o <= j < o + |x| then x[j - o] else before[j]
    ensures s == Overlay(before, o, x)
  {
  }

  /** UA_COPY4 and UA_COPY8: w bytes are loaded, then stored. */
  method CopyWord(src: array<byte>, i: nat, dst: array<byte>, o: nat, w: nat)
    requires i + w <= src.Length && o + w <= dst.Length
    modifies dst
    ensures forall j :: 0 <= j < dst.Length ==>
              dst[j] == if o <= j < o + w then old(src[i..i + w])[j - o] else old(dst[j])
  {
    var word := src[i..i + w];
    forall k | o <= k < o + w {
      dst[k] := word[k - o];
    }
  }

  /** At most the n elements from o on differ. */
  ghost predicate Only(was: seq<byte>, now: seq<byte>, o: nat, n: nat) {
    |now| == |was| && forall j :: 0 <= j < |was| && !(o <= j < o + n) ==> now[j] == was[j]
  }

  lemma OverlayOnly(s: seq<byte>, o: nat, x: seq<byte>)
    requires o + |x| <= |s|
    ensures Only(s, Overlay(s, o, x), o, |x|)
  {
  }

  lemma OnlyThen(a: seq<byte>, b: seq<byte>, c: seq<byte>, o: nat, n: nat, o': nat, n': nat)
    requires Only(a, b, o, n) && Only(b, c, o', n') && o <= o' && o' + n' <= o + n
    ensures Only(a, c, o, n)
  {
  }

  /** A copy of n bytes from src[i..] to dst[o..] of which the first k have been stored. Unless the destination lies
      above the source in one array, the others can still be read. */
  ghost predicate Copying(src: array<byte>, was: seq<byte>, i: nat, dst: array<byte>, before: seq<byte>, o: nat, n: nat,
                          k: nat)
    reads src, dst
  {
    && |was| == src.Length && |before| == dst.Length && i + n <= |was| && o + n <= |before| && k <= n
    && (if src == dst && o > i then Only(before, dst[..], o, n)
        else dst[..] == Overlay(before, o, was[i..i + k]) && src[i + k..i + n] == was[i + k..i + n])
  }

  lemma CopyStarts(src: array<byte>, i: nat, dst: array<byte>, o: nat, n: nat)
    requires i + n <= src.Length && o + n <= dst.Length
    ensures Copying(src, src[..], i, dst, dst[..], o, n, 0)
  {
    assert src[..][i + 0..i + n] == src[i + 0..i + n];
  }

  lemma CopyEnds(src: array<byte>, was: seq<byte>, i: nat, dst: array<byte>, before: seq<byte>, o: nat, n: nat)
    requires Copying(src, was, i, dst, before, o, n, n)
    ensures Only(before, dst[..], o, n)
    ensures src != dst || o <= i ==> dst[..] == Overlay(before, o, was[i..i + n])
  {
    OverlayOnly(before, o, was[i..i + n]);
  }

  /** Moves the next w bytes. */
  method Move(src: array<byte>, ip: nat, dst: array<byte>, op: nat, w: nat,
              ghost was: seq<byte>, ghost i: nat, ghost before: seq<byte>, ghost o: nat, ghost n: nat, ghost k: nat)
    requires ip == i + k && op == o + k && k + w <= n && Copying(src, was, i, dst, before, o, n, k)
    modifies dst
    ensures Copying(src, was, i, dst, before, o, n, k + w)
  {
    hide Overlay, Only;
    ghost var mem, smem := dst[..], src[..];
    ghost var y := src[ip..ip + w];
    CopyWord(src, ip, dst, op, w);
    ByElements(dst[..], mem, op, y);
    if src == dst && o > i {
      OverlayOnly(mem, op, y);
      OnlyThen(before, mem, dst[..], o, n, op, w);
    } else {
      MoveSource(smem, was, i, n, k, w);
      assert y == smem[i + k..i + k + w];
      OverlayNext(before, o, was[i..i + k], y);
      Join(was, i, i + k, i + k + w);
      if src == dst {
        OverlayBehind(mem, op, y, i + k + w, i + n);
      }
      assert src[..][i + k + w..i + n] == src[i + k + w..i + n];
    }
  }

  lemma MoveSource(smem: seq<byte>, was: seq<byte>, i: nat, n: nat, k: nat, w: nat)
    requires |smem| == |was| && i + n <= |was| && k + w <= n && smem[i + k..i + n] == was[i + k..i + n]
    ensures smem[i + k..i + k + w] == was[i + k..i + k + w]
    ensures smem[i + k + w..i + n] == was[i + k + w..i + n]
  {
    Sub(was, i + k, i + n, 0, w);
    Sub(smem, i + k, i + n, 0, w);
    Sub(was, i + k, i + n, w, n - k);
    Sub(smem, i + k, i + n, w, n - k);
  }

  /** `do *op++ = *ip++; while (--t > 0)` */
  method CopyBytes(src: array<byte>, i: nat, dst: array<byte>, o: nat, n: nat)
    requires i + n <= src.Length && o + n <= dst.Length
    modifies dst
    ensures Only(old(dst[..]), dst[..], o, n)
    ensures src != dst || o <= i ==> dst[..] == Overlay(old(dst[..]), o, old(src[i..i + n]))
  {
    hide Overlay, Copying, Only;
    ghost var was, before := src[..], dst[..];
    var ip, op, t := i, o, n;
    CopyStarts(src, i, dst, o, n);
    while t > 0
      invariant 0 <= t <= n && ip == i + (n - t) && op == o + (n - t)
      invariant Copying(src, was, i, dst, before, o, n, n - t)
    {
      Move(src, ip, dst, op, 1, was, i, before, o, n, n - t);
      op, ip, t := op + 1, ip + 1, t - 1;
    }
    CopyEnds(src, was, i, dst, before, o, n);
    assert was[i..i + n] == old(src[i..i + n]);
  }

  /** The literal copy of the decoders: eight bytes at a time, then four, then one. */
  method CopyBlocks(src: array<byte>, i: nat, dst: array<byte>, o: nat, n: nat)
    requires i + n <= src.Length && o + n <= dst.Length
    modifies dst
    ensures Only(old(dst[..]), dst[..], o, n)
    ensures src != dst || o <= i ==> dst[..] == Overlay(old(dst[..]), o, old(src[i..i + n]))
  {
    hide Overlay, Copying, Only;
    ghost var was, before := src[..], dst[..];
    var ip, op, t := i, o, n;
    CopyStarts(src, i, dst, o, n);
    while t >= 8
      invariant 0 <= t <= n && ip == i + (n - t) && op == o + (n - t)
      invariant Copying(src, was, i, dst, before, o, n, n - t)
    {
      Move(src, ip, dst, op, 8, was, i, before, o, n, n - t);
      op, ip, t := op + 8, ip + 8, t - 8;
    }
    if t >= 4 {
      Move(src, ip, dst, op, 4, was, i, before, o, n, n - t);
      op, ip, t := op + 4, ip + 4, t - 4;
    }
    while t > 0
      invariant 0 <= t <= n && ip == i + (n - t) && op == o + (n - t)
      invariant Copying(src, was, i, dst, before, o, n, n - t)
    {
      Move(src, ip, dst, op, 1, was, i, before, o, n, n - t);
      op, ip, t := op + 1, ip + 1, t - 1;
    }
    CopyEnds(src, was, i, dst, before, o, n);
    assert was[i..i + n] == old(src[i..i + n]);
  }

  /** The literal copy of the builds with 4-byte moves only: fours, then ones; there are four bytes at least. */
  method CopyFours(src: array<byte>, i: nat, dst: array<byte>, o: nat, n: nat)
    requires n >= 4 && i + n <= src.Length && o + n <= dst.Length
    modifies dst
    ensures Only(old(dst[..]), dst[..], o, n)
    ensures src != dst || o <= i ==> dst[..] == Overlay(old(dst[..]), o, old(src[i..i + n]))
  {
    hide Overlay, Copying, Only;
    ghost var was, before := src[..], dst[..];
    CopyStarts(src, i, dst, o, n);
    Move(src, i, dst, o, 4, was, i, before, o, n, 0);
    var ip, op, t := i + 4, o + 4, n - 4;
    while t >= 4
      invariant 0 <= t <= n && ip == i + (n - t) && op == o + (n - t)
      invariant Copying(src, was, i, dst, before, o, n, n - t)
    {
      Move(src, ip, dst, op, 4, was, i, before, o, n, n - t);
      op, ip, t := op + 4, ip + 4, t - 4;
    }
    while t > 0
      invariant 0 <= t <= n && ip == i + (n - t) && op == o + (n - t)
      invariant Copying(src, was, i, dst, before, o, n, n - t)
    {
      Move(src, ip, dst, op, 1, was, i, before, o, n, n - t);
      op, ip, t := op + 1, ip + 1, t - 1;
    }
    CopyEnds(src, was, i, dst, before, o, n);
    assert was[i..i + n] == old(src[i..i + n]);
  }

  /** The bytes that a match copy appends. */
  function MatchBytes(out: seq<byte>, off: nat, len: nat): (r: seq<byte>)
    requires 1 <= off <= |out|
    ensures |r| == len
    ensures out + r == CopyMatch(out, off, len)
  {
    CopyMatch(out, off, len)[|out|..]
  }

  /** What precedes the output does not change a match that starts in it. */
  lemma InWindow(before: seq<byte>, out: seq<byte>, off: nat, len: nat)
    requires 1 <= off <= |out|
    ensures MatchBytes(before + out, off, len) == MatchBytes(out, off, len)
  {
    CopyMatchShift(before, out, off, len);
  }

  lemma ByPeriod(s: seq<byte>, before: seq<byte>, o: nat, off: nat, len: nat)
    requires |s| == |before| && 1 <= off <= o && o + len <= |s|
    requires forall j :: 0 <= j < |s| && !(o <= j < o + len) ==> s[j] == before[j]
    requires forall j :: o <= j < o + len ==> s[j] == s[j - off]
    ensures s == Overlay(before, o, MatchBytes(before[..o], off, len))
  {
    var x := s[..o + len];
    assert x[..o] == before[..o];
    assert Periodic(x, o, off);
    CopyMatchUnique(before[..o], off, len, x);
    assert s == x + s[o + len..];
    assert s[o + len..] == before[o + len..];
  }

  /** copy_match: byte at a time, source and destination may overlap. */
  method CopyMatchOnes(dst: array<byte>, o: nat, off: nat, len: nat)
    requires 1 <= off <= o && o + len <= dst.Length
    modifies dst
    ensures forall j :: 0 <= j < dst.Length && !(o <= j < o + len) ==> dst[j] == old(dst[j])
    ensures forall j :: o <= j < o + len ==> dst[j] == dst[j - off]
  {
    ghost var before := dst[..];
    var op, mp, t := o, o - off, len;
    while t > 0
      invariant 0 <= t <= len && op == o + (len - t) && mp == op - off
      invariant forall j :: 0 <= j < dst.Length && !(o <= j < op) ==> dst[j] == before[j]
      invariant forall j :: o <= j < op ==> dst[j] == dst[j - off]
    {
      dst[op] := dst[mp];
      op, mp, t := op + 1, mp + 1, t - 1;
    }
  }

  method CopyMatchBytes(dst: array<byte>, o: nat, off: nat, len: nat)
    requires 1 <= off <= o && o + len <= dst.Length
    modifies dst
    ensures dst[..] == Overlay(old(dst[..]), o, MatchBytes(old(dst[..o]), off, len))
  {
    ghost var before := dst[..];
    CopyMatchOnes(dst, o, off, len);
    assert before[..o] == old(dst[..o]);
    ByPeriod(dst[..], before, o, off, len);
  }

  /** The wide form for distances of at least eight: eight bytes at a time, then four, then one. */
  method CopyMatchBlocks(dst: array<byte>, o: nat, off: nat, len: nat)
    requires 8 <= off <= o && o + len <= dst.Length
    modifies dst
    ensures dst[..] == Overlay(old(dst[..]), o, MatchBytes(old(dst[..o]), off, len))
  {
    ghost var before := dst[..];
    var op, mp, t := o, o - off, len;
    while t >= 8
      invariant 0 <= t <= len && op == o + (len - t) && mp == op - off
      invariant forall j :: 0 <= j < dst.Length && !(o <= j < op) ==> dst[j] == before[j]
      invariant forall j :: o <= j < op ==> dst[j] == dst[j - off]
    {
      CopyWord(dst, mp, dst, op, 8);
      op, mp, t := op + 8, mp + 8, t - 8;
    }
    if t >= 4 {
      CopyWord(dst, mp, dst, op, 4);
      op, mp, t := op + 4, mp + 4, t - 4;
    }
    CopyMatchOnes(dst, op, off, t);
    assert before[..o] == old(dst[..o]);
    ByPeriod(dst[..], before, o, off, len);
  }

  /** The form of the builds with 4-byte moves only, for distances of at least four: fours, then ones. */
  method CopyMatchFours(dst: array<byte>, o: nat, off: nat, len: nat)
    requires 4 <= off <= o && 8 <= len && o + len <= dst.Length
    modifies dst
    ensures dst[..] == Overlay(old(dst[..]), o, MatchBytes(old(dst[..o]), off, len))
  {
    ghost var before := dst[..];
    var op, mp, t := o, o - off, len;
    while t >= 4
      invariant 0 <= t <= len && op == o + (len - t) && mp == op - off
      invariant forall j :: 0 <= j < dst.Length && !(o <= j < op) ==> dst[j] == before[j]
      invariant forall j :: o <= j < op ==> dst[j] == dst[j - off]
    {
      CopyWord(dst, mp, dst, op, 4);
      op, mp, t := op + 4, mp + 4, t - 4;
    }
    CopyMatchOnes(dst, op, off, t);
    assert before[..o] == old(dst[..o]);
    ByPeriod(dst[..], before, o, off, len);
  }

  /** FAST_MEMCPY from memory that is not the destination. */
  method StoreBytes(dst: array<byte>, o: nat, x: seq<byte>)
    requires o + |x| <= dst.Length
    modifies dst
    ensures dst[..] == Overlay(old(dst[..]), o, x)
  {
    ghost var before := dst[..];
    forall k | o <= k < o + |x| {
      dst[k] := x[k - o];
    }
    ByElements(dst[..], before, o, x);
  }

  /** FAST_MEMCPY of a match that does not overlap its source. */
  method CopyMatchWhole(dst: array<byte>, o: nat, off: nat, len: nat)
    requires 1 <= off <= o && len <= off && o + len <= dst.Length
    modifies dst
    ensures dst[..] == Overlay(old(dst[..]), o, MatchBytes(old(dst[..o]), off, len))
  {
    ghost var before := dst[..];
    CopyWord(dst, o - off, dst, o, len);
    assert before[..o] == old(dst[..o]);
    ByPeriod(dst[..], before, o, off, len);
  }

  /** UA_COPY4(op, ii): four bytes, whether they are needed or not. */
  method CopyFour(src: array<byte>, i: nat, dst: array<byte>, o: nat)
    requires i + 4 <= src.Length && o + 4 <= dst.Length
    modifies dst
    ensures dst[..] == Overlay(old(dst[..]), o, old(src[i..i + 4]))
  {
    ghost var before, input := dst[..], src[i..i + 4];
    CopyWord(src, i, dst, o, 4);
    ByElements(dst[..], before, o, input);
  }

  /** UA_COPY8(op, ii); UA_COPY8(op+8, ii+8): sixteen bytes, whether they are needed or not. */
  method CopySixteen(src: array<byte>, i: nat, dst: array<byte>, o: nat)
    requires i + 16 <= src.Length && o + 16 <= dst.Length
    requires src == dst ==> o <= i
    modifies dst
    ensures dst[..] == Overlay(old(dst[..]), o, old(src[i..i + 16]))
  {
    hide Overlay, Copying, Only;
    ghost var was, before := src[..], dst[..];
    CopyStarts(src, i, dst, o, 16);
    Move(src, i, dst, o, 8, was, i, before, o, 16, 0);
    Move(src, i + 8, dst, o + 8, 8, was, i, before, o, 16, 8);
    CopyEnds(src, was, i, dst, before, o, 16);
    assert was[i..i + 16] == old(src[i..i + 16]);
  }

  /** The long literal copy of the compressor: sixteen bytes at a time, then one. */
  method CopySixteens(src: array<byte>, i: nat, dst: array<byte>, o: nat, n: nat)
    requires i + n <= src.Length && o + n <= dst.Length
    requires src == dst ==> o <= i
    modifies dst
    ensures dst[..] == Overlay(old(dst[..]), o, old(src[i..i + n]))
  {
    hide Overlay, Copying, Only;
    ghost var was, before := src[..], dst[..];
    var ip, op, t := i, o, n;
    CopyStarts(src, i, dst, o, n);
    while t >= 16
      invariant 0 <= t <= n && ip == i + (n - t) && op == o + (n - t)
      invariant Copying(src, was, i, dst, before, o, n, n - t)
    {
      Move(src, ip, dst, op, 8, was, i, before, o, n, n - t);
      Move(src, ip + 8, dst, op + 8, 8, was, i, before, o, n, n - t + 8);
      op, ip, t := op + 16, ip + 16, t - 16;
    }
    while t > 0
      invariant 0 <= t <= n && ip == i + (n - t) && op == o + (n - t)
      invariant Copying(src, was, i, dst, before, o, n, n - t)
    {
      Move(src, ip, dst, op, 1, was, i, before, o, n, n - t);
      op, ip, t := op + 1, ip + 1, t - 1;
    }
    CopyEnds(src, was, i, dst, before, o, n);
    assert was[i..i + n] == old(src[i..i + n]);
  }
}
