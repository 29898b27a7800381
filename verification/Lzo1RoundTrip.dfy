// Decoding inverts printing, for LZO1 and LZO1A.
module Lzo1RoundTrip {
  import opened Bytes
  import opened Slices
  import opened Layout
  import opened Window
  import opened Matching
  import opened Lzo1Format
  import opened Lzo1Decoder
  import opened Lzo1Stream

  // ---- literal runs ----

  /** Where the decoder is after reading a run. */
  function AfterRunCode(v: Variant, n: nat): Label {
    if n == 0 then Top
    else if n >= 512 then AfterRunCode(v, n - LongPart(n, 32768))
    else if n >= R0FAST then AfterRunCode(v, n - R0FAST)
    else AfterShort(v)
  }

  lemma LongCodeRun(r: nat, part: nat)
    requires r >= 512 && part in {512, 1024, 2048, 4096, 8192, 16384, 32768}
    ensures var n := LongPart(r, part);
            n in {512, 1024, 2048, 4096, 8192, 16384, 32768} && LongRun(LongCode(n) as nat - 248) == n
    decreases part
  {
    LongRuns();
    hide LongRun;
    if r < part && part >= 1024 {
      LongCodeRun(r, part / 2);
    }
  }

  lemma LongRuns()
    ensures LongRun(1) == 512 && LongRun(2) == 1024 && LongRun(3) == 2048 && LongRun(4) == 4096
    ensures LongRun(5) == 8192 && LongRun(6) == 16384 && LongRun(7) == 32768
  {
    assert LongRun(2) == 1024;
    assert LongRun(4) == 4096;
    assert LongRun(6) == 16384;
  }

  /** One long part [0, u] + x is read as |x| literals. */
  lemma StepLong(v: Variant, cap: nat, mem: seq<byte>, n: nat, i: nat, out: seq<byte>, u: byte, x: seq<byte>)
    requires u >= 248 && |x| == (if u == 248 then R0FAST else LongRun(u as nat - 248))
    requires At(mem, i, [0, u] + x) && i < n && |out| + |x| <= cap
    ensures Step(v, cap, mem, n, State(Top, i, out)) == Goto(State(Top, i + 2 + |x|, out + x))
  {
    hide LongRun, At;
    AtSplit(mem, i, [0, u], x);
    AtFits(mem, i, [0, u]);
    AtWhole(mem, i + 2, x);
    AtByte(mem, i, [0, u], 0);
    AtByte(mem, i, [0, u], 1);
  }

  lemma StepShort(v: Variant, cap: nat, mem: seq<byte>, n: nat, i: nat, out: seq<byte>, x: seq<byte>)
    requires 0 < |x| < R0FAST && At(mem, i, ShortRun(x)) && i < n && |out| + |x| <= cap
    ensures Step(v, cap, mem, n, State(Top, i, out)) == Goto(State(AfterShort(v), i + |ShortRun(x)|, out + x))
  {
    hide At;
    var h: seq<byte> := if |x| >= R0MIN then [0, |x| - R0MIN] else [|x|];
    assert ShortRun(x) == h + x;
    AtSplit(mem, i, h, x);
    AtFits(mem, i, h);
    AtWhole(mem, i + |h|, x);
    AtByte(mem, i, h, 0);
    if |x| >= R0MIN {
      AtByte(mem, i, h, 1);
    }
  }

  lemma RunStep(v: Variant, cap: nat, mem: seq<byte>, n: nat, s: State, next: State)
    requires s.ip <= |mem| && Step(v, cap, mem, n, s) == Goto(next)
    ensures next.ip <= |mem| && Run(v, cap, mem, n, s) == Run(v, cap, mem, n, next)
  {
    hide Step;
  }

  /** The greedy split of a run is read back as the whole run. */
  lemma {:induction false} RunReads(v: Variant, cap: nat, mem: seq<byte>, n: nat, i: nat, out: seq<byte>, x: seq<byte>)
    requires At(mem, i, RunCode(x)) && i + |RunCode(x)| <= n && |out| + |x| <= cap
    ensures Run(v, cap, mem, n, State(Top, i, out))
         == Run(v, cap, mem, n, State(AfterRunCode(v, |x|), i + |RunCode(x)|, out + x))
    decreases |x|
  {
    hide Step, Run, LongRun, LongPart, LongCode, At, ShortRun;
    AtFits(mem, i, RunCode(x));
    if x == [] {
      hide RunCode;
      EmptyRun();
      assert out + x == out;
    } else if |x| >= R0FAST {
      var m := if |x| >= 512 then LongPart(|x|, 32768) else R0FAST;
      var u := LongReads(v, cap, mem, n, i, out, x, m);
      RunReads(v, cap, mem, n, i + 2 + m, out + x[..m], x[m..]);
      assert out + x[..m] + x[m..] == out + x;
    } else {
      StepShort(v, cap, mem, n, i, out, x);
      RunStep(v, cap, mem, n, State(Top, i, out), State(AfterShort(v), i + |ShortRun(x)|, out + x));
    }
  }

  lemma EmptyRun()
    ensures RunCode([]) == []
  {
  }

  /** The first part of a run of 280 or more. */
  lemma LongReads(v: Variant, cap: nat, mem: seq<byte>, n: nat, i: nat, out: seq<byte>, x: seq<byte>, m: nat)
    returns (u: byte)
    requires |x| >= R0FAST && m == if |x| >= 512 then LongPart(|x|, 32768) else R0FAST
    requires At(mem, i, RunCode(x)) && i + |RunCode(x)| <= n && |out| + |x| <= cap
    ensures RunCode(x) == [0, u] + x[..m] + RunCode(x[m..])
    ensures At(mem, i + 2 + m, RunCode(x[m..])) && i + 2 + m <= |mem|
    ensures Run(v, cap, mem, n, State(Top, i, out)) == Run(v, cap, mem, n, State(Top, i + 2 + m, out + x[..m]))
  {
    hide Step, Run, LongRun, LongPart, LongCode, At;
    u := if |x| >= 512 then LongCode(m) else 248;
    if |x| >= 512 {
      LongCodeRun(|x|, 32768);
      LongCodeByte(m);
    }
    assert RunCode(x) == ([0, u] + x[..m]) + RunCode(x[m..]);
    AtSplit(mem, i, [0, u] + x[..m], RunCode(x[m..]));
    AtFits(mem, i + 2 + m, RunCode(x[m..]));
    StepLong(v, cap, mem, n, i, out, u, x[..m]);
    RunStep(v, cap, mem, n, State(Top, i, out), State(Top, i + 2 + m, out + x[..m]));
  }

  lemma LongCodeByte(m: nat)
    requires m >= 512
    ensures LongCode(m) > 248
  {
  }

  lemma {:induction false} ShortRunLabel(v: Variant, n: nat)
    requires 1 <= n < R0FAST
    ensures AfterRunCode(v, n) == AfterShort(v)
  {
  }

  lemma {:induction false} RunLabel(v: Variant, n: nat)
    ensures AfterRunCode(v, n) in {Top, AfterShort(v)}
    decreases n
  {
    hide LongPart;
    if n >= 512 {
      RunLabel(v, n - LongPart(n, 32768));
    } else if n >= R0FAST {
      RunLabel(v, n - R0FAST);
    }
  }

  // ---- matches ----

  /** The fields of a match code. */
  lemma MatchFields(off: nat, len: nat)
    requires 1 <= off <= MAX_OFFSET && MIN_MATCH <= len <= MAX_MATCH_LONG
    ensures var code := MatchCode(off, len);
            && code[0] >= R0MIN && 1 + (code[0] % OSIZE + code[1] as nat * OSIZE) == off
            && code[0] % OSIZE == (off - 1) % OSIZE
            && (len <= MAX_MATCH_SHORT ==> |code| == 2 && code[0] < LONG_MATCH && 2 + code[0] as nat / OSIZE == len)
            && (len > MAX_MATCH_SHORT ==>
                  |code| == 3 && code[0] >= LONG_MATCH && MIN_MATCH_LONG + code[2] as nat == len)
  {
    var r := (off - 1) % OSIZE;
    assert off - 1 == r + (off - 1) / OSIZE * OSIZE;
    if len <= MAX_MATCH_SHORT {
      assert ((len - 2) * OSIZE + r) % OSIZE == r && ((len - 2) * OSIZE + r) / OSIZE == len - 2;
    }
  }

  /** A match is read alike at the top and after a run. */
  lemma StepMatch(v: Variant, cap: nat, mem: seq<byte>, n: nat, at: Label, i: nat, out: seq<byte>, off: nat, len: nat)
    requires 1 <= off <= MAX_OFFSET && MIN_MATCH <= len <= MAX_MATCH_LONG
    requires At(mem, i, MatchCode(off, len)) && i < n && off <= |out| && |out| + len <= cap && !at.R1Literal?
    ensures Step(v, cap, mem, n, State(at, i, out))
         == Goto(State(Top, i + |MatchCode(off, len)|, CopyMatch(out, off, len)))
  {
    hide CopyMatch, MatchCode, At, TakeRun, TakeR1, TakeMatch;
    MatchFields(off, len);
    AtFits(mem, i, MatchCode(off, len));
    AtByte(mem, i, MatchCode(off, len), 0);
    TakesMatch(cap, mem, i, out, off, len);
  }

  lemma TakesMatch(cap: nat, mem: seq<byte>, i: nat, out: seq<byte>, off: nat, len: nat)
    requires 1 <= off <= MAX_OFFSET && MIN_MATCH <= len <= MAX_MATCH_LONG
    requires i < |mem| && At(mem, i, MatchCode(off, len)) && off <= |out| && |out| + len <= cap
    ensures TakeMatch(cap, mem, i + 1, out, mem[i])
         == Goto(State(Top, i + |MatchCode(off, len)|, CopyMatch(out, off, len)))
  {
    hide CopyMatch, MatchCode, At, TakeMatch;
    var code := MatchCode(off, len);
    MatchFields(off, len);
    AtFits(mem, i, code);
    AtByte(mem, i, code, 0);
    AtByte(mem, i, code, 1);
    if len <= MAX_MATCH_SHORT {
      TakesShort(cap, mem, i + 1, out, code[0], off, len);
    } else {
      AtByte(mem, i, code, 2);
      TakesLong(cap, mem, i + 1, out, code[0], off, len);
    }
  }

  lemma TakesShort(cap: nat, mem: seq<byte>, ip: nat, out: seq<byte>, t: byte, off: nat, len: nat)
    requires ip < |mem| && t < LONG_MATCH
    requires 1 + (t % OSIZE + mem[ip] as nat * OSIZE) == off <= |out| && 2 + t as nat / OSIZE == len
    requires |out| + len <= cap
    ensures TakeMatch(cap, mem, ip, out, t) == Goto(State(Top, ip + 1, CopyMatch(out, off, len)))
  {
    hide CopyMatch;
  }

  lemma TakesLong(cap: nat, mem: seq<byte>, ip: nat, out: seq<byte>, t: byte, off: nat, len: nat)
    requires ip + 1 < |mem| && t >= LONG_MATCH
    requires 1 + (t % OSIZE + mem[ip] as nat * OSIZE) == off <= |out| && MIN_MATCH_LONG + mem[ip + 1] as nat == len
    requires |out| + len <= cap
    ensures TakeMatch(cap, mem, ip, out, t) == Goto(State(Top, ip + 2, CopyMatch(out, off, len)))
  {
    hide CopyMatch;
  }

  /** A masked match of three bytes after a run is read as an R1 match. */
  lemma StepMasked(cap: nat, mem: seq<byte>, n: nat, i: nat, out: seq<byte>, off: nat)
    requires 1 <= off <= MAX_OFFSET && At(mem, i, Mask(MatchCode(off, MIN_MATCH)))
    requires i < n && off <= |out| && |out| + MIN_MATCH <= cap
    ensures Step(Lzo1a, cap, mem, n, State(AfterRun, i, out))
         == Goto(State(R1Literal, i + 2, CopyMatch(out, off, MIN_MATCH)))
  {
    hide CopyMatch, MatchCode, At, TakeRun, TakeMatch;
    var code := Mask(MatchCode(off, MIN_MATCH));
    MatchFields(off, MIN_MATCH);
    AtFits(mem, i, code);
    AtByte(mem, i, code, 0);
    AtByte(mem, i, code, 1);
  }

  /** The literal of an R1 match. */
  lemma StepLiteral(cap: nat, mem: seq<byte>, n: nat, i: nat, out: seq<byte>, x: seq<byte>)
    requires |x| == 1 && At(mem, i, x) && |out| < cap
    ensures Step(Lzo1a, cap, mem, n, State(R1Literal, i, out)) == Goto(State(AfterRun, i + 1, out + x))
  {
  }

  // ---- prefixes ----

  /** A printed prefix, as it stands now or as the merge of one more literal will change it. */
  function Written(w: seq<byte>, masked: bool): (r: seq<byte>)
    requires masked ==> |w| >= 2
    ensures |r| == |w|
  {
    if masked then Mask(w) else w
  }

  /** The decoder gets to the end of every printed prefix with exactly the input covered so far. */
  lemma {:induction false} PrefixReads(v: Variant, cap: nat, mem: seq<byte>, n: nat, input: seq<byte>, ps: seq<Phrase>,
                                      masked: bool)
    requires Sound(input, ps) && (ps != [] ==> Last(ps).at < IpEnd(input)) && |input| <= cap
    requires masked ==> v.Lzo1a? && ps != [] && Last(ps).len == MIN_MATCH && 1 <= Lits(ps) < R0FAST
    requires At(mem, 0, Written(Print(v, input, ps), masked)) && |Print(v, input, ps)| <= n
    ensures End(ps) <= |input|
    ensures Run(v, cap, mem, n, INIT)
         == Run(v, cap, mem, n, State(if masked then R1Literal else Top, |Print(v, input, ps)|, input[..End(ps)]))
    decreases |ps|
  {
    hide Step, At, RunCode, Agree, CopyMatch, MatchCode, Merges, EmitRun;
    if ps == [] {
      assert input[..0] == [];
    } else {
      var front, p := Front(ps), Last(ps);
      PrintLast(v, input, ps);
      var merge := Merges(v, IpEnd(input), front, p.at);
      var w, x := Print(v, input, front), input[End(front)..p.at];
      MergesExactly(v, input, front, p.at);
      SplitWritten(mem, w, merge, x, MatchCode(p.off, p.len), masked);
      PrefixReads(v, cap, mem, n, input, front, merge);
      Join(input, 0, End(front), p.at);
      var at := LitsRead(v, cap, mem, n, w, merge, x, input[..End(front)]);
      assert input[..End(front)] + x == input[..p.at];
      MatchCopiesInput(input, p.at - p.off, p.at, p.len);
      var i := |EmitRun(w, merge, x)|;
      if masked {
        MatchFields(p.off, MIN_MATCH);
        StepMasked(cap, mem, n, i, input[..p.at], p.off);
      } else {
        StepMatch(v, cap, mem, n, at, i, input[..p.at], p.off, p.len);
      }
    }
  }

  /** The literals before a match are read, merged or not. */
  lemma LitsRead(v: Variant, cap: nat, mem: seq<byte>, n: nat, w: seq<byte>, merge: bool, x: seq<byte>, out: seq<byte>)
    returns (at: Label)
    requires merge ==> v.Lzo1a? && |w| >= 2 && |x| == 1
    requires At(mem, |w|, if merge then x else RunCode(x))
    requires |EmitRun(w, merge, x)| <= n && |out| + |x| <= cap
    ensures at in {Top, AfterShort(v)} && (1 <= |x| < R0FAST ==> at == AfterShort(v))
    ensures Run(v, cap, mem, n, State(if merge then R1Literal else Top, |w|, out))
         == Run(v, cap, mem, n, State(at, |EmitRun(w, merge, x)|, out + x))
  {
    hide Step, RunCode, At, AfterRunCode;
    if merge {
      at := AfterRun;
      AtFits(mem, |w|, x);
      StepLiteral(cap, mem, n, |w|, out, x);
    } else {
      at := AfterRunCode(v, |x|);
      RunReads(v, cap, mem, n, |w|, out, x);
      RunLabel(v, |x|);
      if 1 <= |x| < R0FAST {
        ShortRunLabel(v, |x|);
      }
    }
  }

  /** The parts of a printed prefix, found in memory. */
  lemma SplitWritten(mem: seq<byte>, w: seq<byte>, merge: bool, x: seq<byte>, code: seq<byte>, masked: bool)
    requires (merge ==> |w| >= 2) && |code| >= 2
    requires At(mem, 0, Written(EmitRun(w, merge, x) + code, masked))
    ensures At(mem, 0, Written(w, merge))
    ensures At(mem, |w|, if merge then x else RunCode(x))
    ensures At(mem, |EmitRun(w, merge, x)|, Written(code, masked))
  {
    hide At, RunCode, EmitRun, Written;
    var w1 := EmitRun(w, merge, x);
    EmitRunParts(w, merge, x);
    WrittenBehind(w1, code, masked);
    AtSplit(mem, 0, w1, Written(code, masked));
    AtSplit(mem, 0, Written(w, merge), if merge then x else RunCode(x));
  }

  lemma EmitRunParts(w: seq<byte>, merge: bool, x: seq<byte>)
    requires merge ==> |w| >= 2
    ensures EmitRun(w, merge, x) == Written(w, merge) + (if merge then x else RunCode(x))
  {
    hide RunCode;
  }

  /** Masking the marker of the last code does not touch what precedes it. */
  lemma WrittenBehind(w: seq<byte>, code: seq<byte>, masked: bool)
    requires |code| >= 2
    ensures Written(w + code, masked) == w + Written(code, masked)
  {
  }

  lemma PrintLast(v: Variant, input: seq<byte>, ps: seq<Phrase>)
    requires ps != [] && Sound(input, ps) && Last(ps).at < IpEnd(input)
    ensures var front, p := Front(ps), Last(ps);
            && End(ps) <= |input| && End(front) <= p.at
            && (front != [] ==> Last(front).at < IpEnd(input))
            && Print(v, input, ps)
            == EmitRun(Print(v, input, front), Merges(v, IpEnd(input), front, p.at), input[End(front)..p.at])
               + MatchCode(p.off, p.len)
  {
    hide Merges, EmitRun, MatchCode;
  }

  /** Every printed stream decodes to the input. */
  lemma StreamDecodes(v: Variant, cap: nat, input: seq<byte>, ps: seq<Phrase>, mem: seq<byte>)
    requires Sound(input, ps) && (ps != [] ==> Last(ps).at < IpEnd(input)) && |input| <= cap
    requires Stream(v, input, ps) <= mem
    ensures Decode(v, cap, mem, |Stream(v, input, ps)|) == Done(Ok, input)
  {
    hide At, RunCode, Print, Run, Step, AfterRunCode, Sound;
    EndFits(input, ps);
    var w, tail := Print(v, input, ps), input[End(ps)..];
    var n := |Stream(v, input, ps)|;
    assert At(mem, 0, w + RunCode(tail)) by {
      StartsAt(mem, w + RunCode(tail));
    }
    AtSplit(mem, 0, w, RunCode(tail));
    PrefixReads(v, cap, mem, n, input, ps, false);
    RunReads(v, cap, mem, n, |w|, input[..End(ps)], tail);
    RunLabel(v, |tail|);
    assert input[..End(ps)] + tail == input;
    RunEnds(v, cap, mem, n, State(AfterRunCode(v, |tail|), n, input));
  }

  lemma RunEnds(v: Variant, cap: nat, mem: seq<byte>, n: nat, s: State)
    requires s.ip == n <= |mem| && !s.at.R1Literal?
    ensures Run(v, cap, mem, n, s) == Done(Ok, s.out)
  {
  }

  lemma StartsAt(mem: seq<byte>, code: seq<byte>)
    requires code <= mem
    ensures At(mem, 0, code)
  {
  }
}
