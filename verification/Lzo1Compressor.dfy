// do_compress of LZO1 and LZO1A, and their public entry points.
module Lzo1Compressor {
  import opened Bytes
  import opened Slices
  import opened Memory
  import opened Matching
  import opened Lzo1Format
  import opened Lzo1Stream
  import opened Lzo1RoundTrip
  import opened Lzo1Encoder
  import opened Lzo1StoreRun

  lemma CommonIs(s: seq<byte>, i: nat, j: nat, n: nat, k: nat)
    requires i + n <= |s| && j + n <= |s| && k <= n && Agree(s, i, j, k) && (k < n ==> s[i + k] != s[j + k])
    ensures Common(s, i, j, n) == k
  {
    AgreeCommon(s, i, j, k, n);
    CommonExact(s, i, j, n);
    AgreeAt(s, i, j, Common(s, i, j, n), k);
  }

  lemma AgreeAt(s: seq<byte>, i: nat, j: nat, r: nat, k: nat)
    requires Agree(s, i, j, r)
    ensures k < r ==> s[i + k] == s[j + k]
  {
    if k < r {
      assert s[i..i + r][k] == s[j..j + r][k];
    }
  }

  lemma MeasuredLength(input: seq<byte>, m: nat, ip: nat, len: nat)
    requires m < ip < IpEnd(input) && Agree(input, m, ip, MIN_MATCH) && len == Common(input, m, ip, MaxLen(input, ip))
    ensures MIN_MATCH <= len <= MAX_MATCH_LONG && Agree(input, m, ip, len)
  {
    hide Common, Agree;
    AgreeCommon(input, m, ip, MIN_MATCH, MaxLen(input, ip));
    CommonExact(input, m, ip, MaxLen(input, ip));
  }

  /** What is known of a printed prefix followed by a run. */
  lemma RunFits(v: Variant, input: seq<byte>, ps: seq<Phrase>, ip: nat)
    requires Sound(input, ps) && (ps != [] ==> Last(ps).at < IpEnd(input)) && End(ps) <= ip <= |input|
    ensures |Print(v, input, ps)| + |RunCode(input[End(ps)..ip])| <= Room(ip)
    ensures ip < |input| - 8 ==> |Print(v, input, ps)| + |RunCode(input[End(ps)..ip])| + 3 <= Room(|input|)
  {
    hide Print, RunCode, Sound;
    PrintCost(v, input, ps);
    RunCost(input[End(ps)..ip]);
  }

  class Compressor {
    const v: Variant
    const hash: Hashes
    const src: array<byte>
    const dst: array<byte>
    const dict: array<Entry>
    ghost const input: seq<byte>
    ghost const was: seq<byte>

    var ip: nat
    var op: nat
    /** The start of the pending literals. */
    var ii: nat
    /** LZO1A's pointer for R1 matches. */
    var r1: int

    constructor (v: Variant, hash: Hashes, src: array<byte>, dst: array<byte>, dict: array<Entry>)
      requires src != dst && src.Length > MIN_MATCH_LONG + DVAL_LEN + 1 && Room(src.Length) <= dst.Length
      ensures this.v == v && this.hash == hash && this.src == src && this.dst == dst && this.dict == dict
      ensures input == src[..] && was == dst[..] && ip == 0 && Outs([])
    {
      this.v, this.hash, this.src, this.dst, this.dict := v, hash, src, dst, dict;
      input, was := src[..], dst[..];
      ip, op, ii, r1 := 0, 0, 0, src.Length - DVAL_LEN - MIN_MATCH_LONG;
      new;
      assert Overlay(was, 0, []) == was;
    }

    ghost predicate Fixed()
      reads src
    {
      src != dst && src[..] == input && |input| > MIN_MATCH_LONG + DVAL_LEN + 1
      && |was| == dst.Length && Room(|input|) <= dst.Length
    }

    /** What is written after these matches, and where the next run starts. */
    ghost predicate Outs(ps: seq<Phrase>)
      reads `op, `ii, `r1, src, dst
    {
      && Fixed() && Sound(input, ps) && (ps != [] ==> Last(ps).at < IpEnd(input))
      && ii == End(ps) && op == |Print(v, input, ps)| <= dst.Length
      && dst[..] == Overlay(was, 0, Print(v, input, ps))
      && (v.Lzo1a? ==> r1 == R1(IpEnd(input), ps))
    }

    ghost predicate Sim(s: Scan)
      reads this, src, dst, dict
    {
      Outs(s.ps) && ip == s.ip && dict[..] == s.dict && Faithful(input, s)
    }

    // ---- the dictionary ----

    method Word(i: nat) returns (w: nat)
      requires Fixed() && i + 3 <= |input|
      ensures w == LE24(input, i)
    {
      w := src[i] as int + 0x100 * src[i + 1] as int + 0x1_0000 * src[i + 2] as int;
    }

    method Test(entry: Entry) returns (r: Probed)
      requires Fixed() && ip + 3 <= |input| && (entry.Pos? ==> entry.pos < ip)
      ensures r == Probe(input, entry, ip)
    {
      if entry.Null? || ip - entry.pos > MAX_OFFSET {
        r := Reject;
      } else {
        var m := entry.pos;
        if src[m] == src[ip] && src[m + 1] == src[ip + 1] && src[m + 2] == src[ip + 2] {
          assert input[m..m + 3] == [src[m], src[m + 1], src[m + 2]] == input[ip..ip + 3];
          r := Hit(m);
        } else {
          assert input[m..m + 3][0] == src[m] && input[m..m + 3][1] == src[m + 1] && input[m..m + 3][2] == src[m + 2];
          assert input[ip..ip + 3][0] == src[ip] && input[ip..ip + 3][1] == src[ip + 1]
                 && input[ip..ip + 3][2] == src[ip + 2];
          r := Differ;
        }
      }
    }

    /** Two probes at most, then the position is entered where it was last looked for. */
    method Find(ghost s: Scan) returns (r: Probed)
      requires Sim(s) && ip < IpEnd(input)
      modifies dict
      ensures r == Lookup(hash, input, s.ip, s.dict).1
      ensures dict[..] == s.dict[Lookup(hash, input, s.ip, s.dict).0 := Pos(s.ip)]
    {
      hide Probe, LE24, Print, Sound, Overlay, RunCode;
      var dv := Word(ip);
      var d := hash.probe(dv) % D_SIZE;
      assert forall i :: 0 <= i < D_SIZE ==> dict[i] == s.dict[i];
      r := Test(dict[d]);
      if r.Differ? {
        d := D_MASK - d;
        r := Test(dict[d]);
      }
      dict[d] := Pos(ip);
    }

    // ---- a match ----

    /** The match length at ip: six more bytes for a long match, then as far as it goes. */
    method Measure(m: nat) returns (len: nat)
      requires Fixed() && m < ip < IpEnd(input) && Agree(input, m, ip, MIN_MATCH)
      ensures len == Common(input, m, ip, MaxLen(input, ip))
    {
      hide Common, Agree;
      len := Further(m, MIN_MATCH, ip + MIN_MATCH_LONG);
      if len == MIN_MATCH_LONG {
        var inEnd := src.Length - DVAL_LEN;
        var end := if inEnd - (ip + len) <= MAX_MATCH_LONG - MIN_MATCH_LONG then inEnd
                   else ip + len + (MAX_MATCH_LONG - MIN_MATCH_LONG);
        len := Further(m, len, end);
      }
      CommonIs(input, m, ip, MaxLen(input, ip), len);
    }

    /** `while (ip < end && *m_pos == *ip) { m_pos++; ip++; }`, and the six comparisons before it. */
    method Further(m: nat, len0: nat, end: nat) returns (len: nat)
      requires Fixed() && m < ip && ip + len0 <= end <= |input| && Agree(input, m, ip, len0)
      ensures len0 <= len && ip + len <= end && Agree(input, m, ip, len)
      ensures ip + len < end ==> input[m + len] != input[ip + len]
    {
      hide Agree;
      len := len0;
      while ip + len < end && src[m + len] == src[ip + len]
        invariant len0 <= len && ip + len <= end && Agree(input, m, ip, len)
        decreases end - len
      {
        AgreeOne(input, m + len, ip + len);
        AgreeFurther(input, m, ip, len, 1);
        len := len + 1;
      }
    }

    /** `op[-2] &= OMASK; *op++ = *ii` */
    method Merge(ghost ps: seq<Phrase>)
      requires Outs(ps) && ps != [] && ip == ii + 1 && ip <= |input| && op < dst.Length
      modifies this`op, dst
      ensures var w := EmitRun(Print(v, input, ps), true, input[ii..ip]);
              op == |w| <= dst.Length && dst[..] == Overlay(was, 0, w)
      ensures Fixed()
    {
      hide Print, RunCode, Sound, IpEnd, Overlay, R1;
      ghost var w, before, x := Print(v, input, ps), dst[..], input[ii..ip];
      dst[op - 2] := dst[op - 2] % OSIZE;
      dst[op] := src[ii];
      assert x == [src[ii]];
      assert dst[..] == before[op - 2 := before[op - 2] % OSIZE][op := x[0]];
      MergeStored(was, w, x, before, dst[..]);
      op := op + 1;
    }

    lemma MergeStored(was: seq<byte>, w: seq<byte>, x: seq<byte>, before: seq<byte>, after: seq<byte>)
      requires 2 <= |w| < |was| && |x| == 1 && before == Overlay(was, 0, w)
      requires after == before[|w| - 2 := before[|w| - 2] % OSIZE][|w| := x[0]]
      ensures after == Overlay(was, 0, Mask(w) + x)
    {
    }

    /** A run that is not merged, in the inlined form or by store_run. */
    method Store(t: nat, ghost w: seq<byte>, ghost x: seq<byte>)
      requires Fixed() && ii + t == ip <= |input| && x == input[ii..ip]
      requires op == |w| && op + |RunCode(x)| <= dst.Length && dst[..] == Overlay(was, 0, w)
      modifies this`op, this`r1, dst
      ensures Fixed() && op == |w + RunCode(x)| && dst[..] == Overlay(was, 0, w + RunCode(x))
      ensures v.Lzo1a? ==> r1 == if t < R0FAST then ip else old(r1)
    {
      hide RunCode, Overlay, ShortRun;
      assert src[ii..ip] == x;
      if t < (if v.Lzo1a? then R0FAST else R0MIN) {
        ShortIs(x);
        op := StoreShort(src, ii, dst, op, t);
        r1 := ip;
      } else if v.Lzo1? {
        op := StoreRun(src, ii, dst, op, t);
      } else {
        op := StoreRunA(src, ii, dst, op, t);
      }
      OverlayNext(was, 0, w, RunCode(x));
    }

    /** Stores the pending literals. */
    method PutLits(ghost ps: seq<Phrase>)
      requires Outs(ps) && ii <= ip < IpEnd(input)
      modifies this`op, this`r1, dst
      ensures Fixed()
      ensures var w := EmitRun(Print(v, input, ps), Merges(v, IpEnd(input), ps, ip), input[ii..ip]);
              op == |w| <= dst.Length && dst[..] == Overlay(was, 0, w)
      ensures v.Lzo1a? ==> r1 == if 1 <= ip - ii < R0FAST then ip else R1(IpEnd(input), ps)
    {
      hide Print, RunCode, Sound, Overlay, R1;
      ghost var w, x := Print(v, input, ps), input[ii..ip];
      RunFits(v, input, ps, ip);
      MergesExactly(v, input, ps, ip);
      var t := ip - ii;
      if t > 0 {
        if v.Lzo1a? && ip - r1 == MIN_MATCH + 1 {
          Merge(ps);
          r1 := ip;
        } else {
          Store(t, w, x);
        }
      } else {
        RunCost(x);
        assert w + [] == w;
      }
    }

    /** Two or three code bytes. */
    method PutCode(off: nat, len: nat, ghost w: seq<byte>)
      requires 1 <= off <= MAX_OFFSET && MIN_MATCH <= len <= MAX_MATCH_LONG && Fixed()
      requires op == |w| && op + 3 <= dst.Length && dst[..] == Overlay(was, 0, w)
      modifies this`op, dst
      ensures Fixed() && op == |w + MatchCode(off, len)| <= dst.Length
      ensures dst[..] == Overlay(was, 0, w + MatchCode(off, len))
    {
      ghost var before := dst[..];
      var o := off - 1;
      if len <= MAX_MATCH_SHORT {
        dst[op] := (len - 2) * OSIZE + o % OSIZE;
        dst[op + 1] := o / OSIZE;
        ByElements(dst[..], before, op, MatchCode(off, len));
        op := op + 2;
      } else {
        dst[op] := LONG_MATCH + o % OSIZE;
        dst[op + 1] := o / OSIZE;
        dst[op + 2] := len - MIN_MATCH_LONG;
        ByElements(dst[..], before, op, MatchCode(off, len));
        op := op + 3;
      }
      OverlayNext(was, 0, w, MatchCode(off, len));
    }

    /** One more match: what is printed, and what r1 becomes. */
    lemma OneMore(ps: seq<Phrase>, at: nat, m: nat, len: nat)
      requires Sound(input, ps) && (ps != [] ==> Last(ps).at < IpEnd(input)) && End(ps) <= at < IpEnd(input)
      requires m < at && at - m <= MAX_OFFSET && MIN_MATCH <= len <= MAX_MATCH_LONG && Agree(input, m, at, len)
      ensures var more := ps + [Phrase(at, at - m, len)];
              && Sound(input, more) && Last(more).at < IpEnd(input) && End(more) == at + len
              && R1(IpEnd(input), more) == (if 1 <= at - End(ps) < R0FAST then at else R1(IpEnd(input), ps))
              && Print(v, input, more)
                == EmitRun(Print(v, input, ps), Merges(v, IpEnd(input), ps, at), input[End(ps)..at])
                 + MatchCode(at - m, len)
    {
      hide Print, Agree, EmitRun, Merges, MatchCode;
      var more := ps + [Phrase(at, at - m, len)];
      assert Front(more) == ps && Last(more) == more[|ps|];
      PrintLast(v, input, more);
    }

    /** The literals and the match are written; the phrases grow by one. */
    method PutMatch(m: nat, ghost ps: seq<Phrase>) returns (len: nat)
      requires Outs(ps) && ii <= ip < IpEnd(input) && m < ip && ip - m <= MAX_OFFSET && Agree(input, m, ip, MIN_MATCH)
      modifies this`op, this`r1, this`ii, this`ip, dst
      ensures len == Common(input, m, old(ip), MaxLen(input, old(ip))) && ip == old(ip) + len
      ensures Outs(ps + [Phrase(old(ip), old(ip) - m, len)])
    {
      hide Print, Overlay, Common, Agree, EmitRun, Merges, MatchCode, R1, Sound, End, Room, IpEnd;
      len := Measure(m);
      MeasuredLength(input, m, ip, len);
      OneMore(ps, ip, m, len);
      EmitRunFits(ps);
      ghost var at, more := ip, ps + [Phrase(ip, ip - m, len)];
      ghost var w := EmitRun(Print(v, input, ps), Merges(v, IpEnd(input), ps, at), input[End(ps)..at]);
      PutLits(ps);
      PutCode(ip - m, len, w);
      ip := ip + len;
      ii := ip;
    }

    lemma EmitRunFits(ps: seq<Phrase>)
      requires Outs(ps) && ii <= ip < IpEnd(input)
      ensures Merges(v, IpEnd(input), ps, ip) ==> ps != []
      ensures |EmitRun(Print(v, input, ps), Merges(v, IpEnd(input), ps, ip), input[ii..ip])| + 3 <= dst.Length
    {
      hide Print, RunCode, Overlay, Sound;
      RunFits(v, input, ps, ip);
      MergesExactly(v, input, ps, ip);
      RunCost(input[ii..ip]);
    }

    // ---- the loop ----

    /** One round of the loop. */
    method Round(ghost s: Scan)
      requires Sim(s) && ip < IpEnd(input)
      modifies this, dst, dict
      ensures Sim(Next(hash, input, s))
    {
      hide Outs, Lookup, Common, Faithful;
      NextFaithful(hash, input, s);
      SimFacts(s);
      var r := Find(s);
      if r.Hit? {
        var len := PutMatch(r.pos, s.ps);
      } else {
        ip := ip + 1;
      }
    }

    lemma SimFacts(s: Scan)
      requires Sim(s)
      ensures Outs(s.ps) && ValidScan(input, s) && ii == End(s.ps) && Fixed() && ip == s.ip
    {
    }

    /** BZERO8_PTR, then the first position. */
    method InitDictionary()
      requires Fixed() && Outs([]) && dict.Length == D_SIZE && ip == 0
      modifies dict, this`ip
      ensures Sim(Start(hash, input)) && Outs([])
    {
      hide Print, RunCode, Overlay;
      forall i | 0 <= i < D_SIZE {
        dict[i] := Null;
      }
      assert dict[..] == seq(D_SIZE, _ => Null);
      var dv := Word(ip);
      dict[hash.first(dv) % D_SIZE] := Pos(ip);
      ip := ip + 1;
      StartFaithful(hash, input);
    }

    lemma ScanEnds(s: Scan)
      requires Sim(s) && ip >= IpEnd(input)
      ensures ScanAll(hash, input, s) == s
    {
    }

    lemma ScanOn(s: Scan)
      requires Sim(s) && ip < IpEnd(input)
      ensures ScanAll(hash, input, s) == ScanAll(hash, input, Next(hash, input, s))
    {
      hide Next;
    }

    /** do_compress. */
    method DoCompress() returns (outLen: nat)
      requires Outs([]) && Fixed() && dict.Length == D_SIZE && ip == 0
      modifies this, dst, dict
      ensures Fixed() && outLen == |Compress(v, hash, input)| <= dst.Length
      ensures dst[..] == Overlay(was, 0, Compress(v, hash, input))
    {
      hide Outs, Next, ScanAll, Start, RunCode, Overlay, Faithful, Print, Sim;
      InitDictionary();
      ghost var s := Start(hash, input);
      SimFacts(s);
      var ipEnd := src.Length - DVAL_LEN - MIN_MATCH_LONG;
      while ip < ipEnd
        invariant Sim(s) && Fixed() && ValidScan(input, s)
        invariant ScanAll(hash, input, s) == ScanAll(hash, input, Start(hash, input))
        decreases |input| - s.ip
      {
        ScanOn(s);
        SimFacts(s);
        ghost var next := Next(hash, input, s);
        Round(s);
        s := next;
        SimFacts(s);
      }
      ScanEnds(s);
      SimFacts(s);
      outLen := Tail(s.ps);
      CompressIs();
    }

    lemma CompressIs()
      requires Fixed()
      ensures Faithful(input, ScanAll(hash, input, Start(hash, input)))
      ensures Compress(v, hash, input) == Stream(v, input, ScanAll(hash, input, Start(hash, input)).ps)
    {
      hide ScanAll, Start, RunCode, Print;
      StartFaithful(hash, input);
      ScanFaithful(hash, input, Start(hash, input));
    }

    /** The final literal run. */
    method Tail(ghost ps: seq<Phrase>) returns (outLen: nat)
      requires Outs(ps)
      modifies this`op, dst
      ensures Fixed() && outLen == |Stream(v, input, ps)| <= dst.Length
              && dst[..] == Overlay(was, 0, Stream(v, input, ps))
    {
      hide Print, RunCode, Sound, Overlay, R1;
      EndFits(input, ps);
      ghost var w, x := Print(v, input, ps), input[ii..];
      RunFits(v, input, ps, |input|);
      assert input[ii..|input|] == x;
      assert src[ii..ii + (src.Length - ii)] == x;
      if src.Length - ii > 0 {
        if v.Lzo1? {
          op := StoreRun(src, ii, dst, op, src.Length - ii);
        } else {
          op := StoreRunA(src, ii, dst, op, src.Length - ii);
        }
        OverlayNext(was, 0, w, RunCode(x));
      } else {
        RunCost(x);
        assert w + [] == w;
      }
      outLen := op;
    }
  }

  /** lzo1_compress and lzo1a_compress. What the work memory held before does not matter. */
  method CompressTo(v: Variant, hash: Hashes, src: array<byte>, dst: array<byte>, wrkmem: array<Entry>)
    returns (outLen: nat)
    requires src != dst && Room(src.Length) <= dst.Length && wrkmem.Length == D_SIZE
    modifies dst, wrkmem
    ensures outLen == |Compress(v, hash, src[..])| <= dst.Length
    ensures dst[..] == Overlay(old(dst[..]), 0, Compress(v, hash, src[..]))
  {
    hide RunCode, Overlay, Compressor.Outs;
    RunCost(src[..]);
    assert src[0..0 + src.Length] == src[..];
    if src.Length == 0 {
      outLen := 0;
      OverlayNothing(dst[..], 0);
    } else if src.Length <= MIN_MATCH_LONG + DVAL_LEN + 1 {
      if v.Lzo1? {
        outLen := StoreRun(src, 0, dst, 0, src.Length);
      } else {
        outLen := StoreRunA(src, 0, dst, 0, src.Length);
      }
    } else {
      var c := new Compressor(v, hash, src, dst, wrkmem);
      outLen := c.DoCompress();
    }
  }
}
