// The compressed formats of LZO1 and LZO1A as sequences of instructions, with every code byte in numbers. The decoders
// accept the streams of these formats, all of them and no others, with the bytes they stand for.
module Lzo1Instructions {
  import opened Bytes
  import opened Slices
  import opened Layout
  import opened Window
  import opened Lzo1Format
  import opened Lzo1Decoder
  import opened Lzo1Stream
  import opened Lzo1RoundTrip

  // ---- the format ----

  /** A literal run, a match, or a match of three bytes with a literal behind it. */
  datatype Instr = Literals(lits: seq<byte>) | Repeat(off: nat, len: nat) | Near(off: nat, lit: byte)

  /** The lengths of long runs. */
  predicate LongSize(n: nat) {
    n in {280, 512, 1024, 2048, 4096, 8192, 16384, 32768}
  }

  /** Whether a short run or a literal has just been read: LZO1A then takes a marker below 32 for a near match. */
  function After(v: Variant, i: Instr): (r: bool)
    ensures r ==> v.Lzo1a?
  {
    v.Lzo1a? && match i
                case Literals(lits) => |lits| < 280
                case Repeat(_, _) => false
                case Near(_, _) => true
  }

  predicate Encodable(m: bool, i: Instr) {
    match i
    case Literals(lits) => !m && (1 <= |lits| <= 279 || LongSize(|lits|))
    case Repeat(off, len) => 1 <= off <= 8192 && 3 <= len <= 264
    case Near(off, _) => m && 1 <= off <= 8192
  }

  function RunBytes(n: nat): (r: seq<byte>)
    requires 1 <= n <= 279 || LongSize(n)
    ensures 1 <= |r| <= 2
  {
    if n <= 31 then [n]
    else if n <= 280 then [0, n - 32]
    else [0, if n == 512 then 249 else if n == 1024 then 250 else if n == 2048 then 251 else if n == 4096 then 252
             else if n == 8192 then 253 else if n == 16384 then 254 else 255]
  }

  function Code(i: Instr): (r: seq<byte>)
    requires Encodable(false, i) || Encodable(true, i)
    ensures |r| >= 2
  {
    match i
    case Literals(lits) => RunBytes(|lits|) + lits
    case Repeat(off, len) =>
      if len <= 8 then [(len - 2) * 32 + (off - 1) % 32, (off - 1) / 32]
      else [224 + (off - 1) % 32, (off - 1) / 32, len - 9]
    case Near(off, lit) => [(off - 1) % 32, (off - 1) / 32, lit]
  }

  predicate Legal(m: bool, out: seq<byte>, i: Instr) {
    Encodable(m, i) && (!i.Literals? ==> i.off <= |out|)
  }

  /** What an instruction appends. */
  function Produce(out: seq<byte>, i: Instr): (r: seq<byte>)
    requires !i.Literals? ==> 1 <= i.off <= |out|
    ensures |out| <= |r|
  {
    match i
    case Literals(lits) => out + lits
    case Repeat(off, len) => CopyMatch(out, off, len)
    case Near(off, lit) => CopyMatch(out, off, 3) + [lit]
  }

  predicate LegalAll(v: Variant, m: bool, out: seq<byte>, prog: seq<Instr>)
    decreases |prog|
  {
    prog == [] || (Legal(m, out, prog[0]) && LegalAll(v, After(v, prog[0]), Produce(out, prog[0]), prog[1..]))
  }

  function Codes(v: Variant, m: bool, out: seq<byte>, prog: seq<Instr>): seq<byte>
    requires LegalAll(v, m, out, prog)
    decreases |prog|
  {
    if prog == [] then [] else Code(prog[0]) + Codes(v, After(v, prog[0]), Produce(out, prog[0]), prog[1..])
  }

  /** The bytes that a legal program stands for. */
  function Meaning(v: Variant, m: bool, out: seq<byte>, prog: seq<Instr>): (r: seq<byte>)
    requires LegalAll(v, m, out, prog)
    ensures |out| <= |r|
    decreases |prog|
  {
    if prog == [] then out else Meaning(v, After(v, prog[0]), Produce(out, prog[0]), prog[1..])
  }

  // ---- reading one instruction ----

  function Before(m: bool, ip: nat, out: seq<byte>): State {
    State(if m then AfterRun else Top, ip, out)
  }

  ghost predicate Leads(v: Variant, cap: nat, mem: seq<byte>, n: nat, s: State, s': State) {
    s.ip <= |mem| && s'.ip <= |mem| && Run(v, cap, mem, n, s) == Run(v, cap, mem, n, s')
  }

  lemma StepLeads(v: Variant, cap: nat, mem: seq<byte>, n: nat, s: State, next: State)
    requires s.ip <= |mem| && Step(v, cap, mem, n, s) == Goto(next)
    ensures Leads(v, cap, mem, n, s, next)
  {
    RunStep(v, cap, mem, n, s, next);
  }

  /** The code bytes of runs, and what the decoder computes from them. */
  lemma RunBytesRead(n: nat)
    requires 1 <= n <= 279 || LongSize(n)
    ensures n >= 280 ==>
              && |RunBytes(n)| == 2 && RunBytes(n)[0] == 0 && RunBytes(n)[1] >= 248
              && n == (if RunBytes(n)[1] == 248 then R0FAST else LongRun(RunBytes(n)[1] as nat - 248))
  {
    LongRuns();
    hide LongRun;
  }

  lemma LiteralsRead(v: Variant, cap: nat, mem: seq<byte>, n: nat, ip: nat, out: seq<byte>, i: Instr)
    requires i.Literals? && Legal(false, out, i) && ip < n && At(mem, ip, Code(i)) && |out| + |i.lits| <= cap
    ensures Leads(v, cap, mem, n, State(Top, ip, out), Before(After(v, i), ip + |Code(i)|, Produce(out, i)))
  {
    hide At, Run, LongRun, Step;
    var c := RunBytes(|i.lits|);
    AtFits(mem, ip, Code(i));
    RunBytesRead(|i.lits|);
    if |i.lits| < 280 {
      assert ShortRun(i.lits) == c + i.lits;
      StepShort(v, cap, mem, n, ip, out, i.lits);
    } else {
      assert c == [0, c[1]];
      StepLong(v, cap, mem, n, ip, out, c[1], i.lits);
    }
    StepLeads(v, cap, mem, n, State(Top, ip, out), Before(After(v, i), ip + |Code(i)|, Produce(out, i)));
  }

  lemma RepeatRead(v: Variant, cap: nat, mem: seq<byte>, n: nat, m: bool, ip: nat, out: seq<byte>, i: Instr)
    requires i.Repeat? && Legal(m, out, i) && ip < n && At(mem, ip, Code(i)) && |out| + i.len <= cap
    ensures Leads(v, cap, mem, n, Before(m, ip, out), Before(After(v, i), ip + |Code(i)|, Produce(out, i)))
  {
    hide At, Run, Step, CopyMatch;
    AtFits(mem, ip, Code(i));
    assert Code(i) == MatchCode(i.off, i.len);
    StepMatch(v, cap, mem, n, Before(m, ip, out).at, ip, out, i.off, i.len);
    StepLeads(v, cap, mem, n, Before(m, ip, out), Before(After(v, i), ip + |Code(i)|, Produce(out, i)));
  }

  lemma NearRead(cap: nat, mem: seq<byte>, n: nat, ip: nat, out: seq<byte>, i: Instr)
    requires i.Near? && Legal(true, out, i) && ip < n && At(mem, ip, Code(i)) && |out| + 4 <= cap
    ensures Leads(Lzo1a, cap, mem, n, State(AfterRun, ip, out), State(AfterRun, ip + 3, Produce(out, i)))
  {
    hide At, Run, Step, CopyMatch, MatchCode;
    var c := Mask(MatchCode(i.off, MIN_MATCH));
    MaskedBytes(i.off);
    assert Code(i) == c + [i.lit];
    AtSplit(mem, ip, c, [i.lit]);
    AtFits(mem, ip, Code(i));
    var out1 := CopyMatch(out, i.off, 3);
    StepMasked(cap, mem, n, ip, out, i.off);
    StepLiteral(cap, mem, n, ip + 2, out1, [i.lit]);
    StepLeads(Lzo1a, cap, mem, n, State(AfterRun, ip, out), State(R1Literal, ip + 2, out1));
    StepLeads(Lzo1a, cap, mem, n, State(R1Literal, ip + 2, out1), State(AfterRun, ip + 3, out1 + [i.lit]));
  }

  lemma MaskedBytes(off: nat)
    requires 1 <= off <= 8192
    ensures Mask(MatchCode(off, MIN_MATCH)) == [(off - 1) % 32, (off - 1) / 32]
  {
  }

  lemma InstrReads(v: Variant, cap: nat, mem: seq<byte>, n: nat, m: bool, ip: nat, out: seq<byte>, i: Instr)
    requires m ==> v.Lzo1a?
    requires Legal(m, out, i) && ip < n && At(mem, ip, Code(i)) && |Produce(out, i)| <= cap
    ensures Leads(v, cap, mem, n, Before(m, ip, out), Before(After(v, i), ip + |Code(i)|, Produce(out, i)))
  {
    hide At, Leads, Code;
    match i {
      case Literals(_) => LiteralsRead(v, cap, mem, n, ip, out, i);
      case Repeat(_, _) => RepeatRead(v, cap, mem, n, m, ip, out, i);
      case Near(_, _) =>
        NearSize(i);
        NearRead(cap, mem, n, ip, out, i);
    }
  }

  lemma NearSize(i: Instr)
    requires i.Near? && 1 <= i.off <= 8192
    ensures |Code(i)| == 3
  {
  }

  /** Every program is carried out, and the run ends where its code ends. */
  lemma {:induction false} ProgramReads(v: Variant, cap: nat, mem: seq<byte>, n: nat, m: bool, ip: nat,
                                        out: seq<byte>, prog: seq<Instr>)
    requires m ==> v.Lzo1a?
    requires LegalAll(v, m, out, prog) && |Meaning(v, m, out, prog)| <= cap
    requires At(mem, ip, Codes(v, m, out, prog)) && n == ip + |Codes(v, m, out, prog)|
    ensures n <= |mem| && Run(v, cap, mem, n, Before(m, ip, out)) == Done(Ok, Meaning(v, m, out, prog))
    decreases |prog|
  {
    hide At, Code, Produce, Before;
    AtFits(mem, ip, Codes(v, m, out, prog));
    if prog == [] {
      RunEnds(v, cap, mem, n, m, out);
    } else {
      hide Run;
      var i, rest := prog[0], prog[1..];
      AtSplit(mem, ip, Code(i), Codes(v, After(v, i), Produce(out, i), rest));
      InstrReads(v, cap, mem, n, m, ip, out, i);
      ProgramReads(v, cap, mem, n, After(v, i), ip + |Code(i)|, Produce(out, i), rest);
    }
  }

  lemma RunEnds(v: Variant, cap: nat, mem: seq<byte>, n: nat, m: bool, out: seq<byte>)
    requires n <= |mem|
    ensures Run(v, cap, mem, n, Before(m, n, out)) == Done(Ok, out)
  {
  }

  // ---- every accepted stream has this format ----

  /** The code of i stands at ip, inside the memory, and i can be carried out. */
  predicate IsNext(cap: nat, mem: seq<byte>, m: bool, ip: nat, out: seq<byte>, i: Instr) {
    Legal(m, out, i) && |Produce(out, i)| <= cap && At(mem, ip, Code(i))
  }

  lemma RepeatThere(cap: nat, mem: seq<byte>, m: bool, ip: nat, out: seq<byte>) returns (i: Instr)
    requires ip < |mem| && mem[ip] >= 32 && TakeMatch(cap, mem, ip + 1, out, mem[ip]).Goto?
    ensures IsNext(cap, mem, m, ip, out, i)
  {
    hide CopyMatch, Code;
    var t, x := mem[ip], mem[ip + 1];
    var off := 1 + (t % 32 + x as nat * 32);
    if t < 224 {
      i := Repeat(off, 2 + t as nat / 32);
      ShortMatchBytes(t, x);
      assert mem[ip..ip + 2] == [t, x];
    } else {
      i := Repeat(off, 9 + mem[ip + 2] as nat);
      LongMatchBytes(t, x, mem[ip + 2]);
      assert mem[ip..ip + 3] == [t, x, mem[ip + 2]];
    }
  }

  lemma ShortMatchBytes(t: byte, x: byte)
    requires 32 <= t < 224
    ensures Code(Repeat(1 + (t % 32 + x as nat * 32), 2 + t as nat / 32)) == [t, x]
  {
  }

  lemma LongMatchBytes(t: byte, x: byte, l: byte)
    requires 224 <= t
    ensures Code(Repeat(1 + (t % 32 + x as nat * 32), 9 + l as nat)) == [t, x, l]
  {
  }

  lemma LiteralsThere(v: Variant, cap: nat, mem: seq<byte>, ip: nat, out: seq<byte>) returns (i: Instr)
    requires ip < |mem| && mem[ip] < 32 && TakeRun(v, cap, mem, ip + 1, out, mem[ip]).Goto?
    ensures IsNext(cap, mem, false, ip, out, i)
  {
    hide LongRun, At, RunBytes, TakeRun;
    var n, at := RunThere(v, cap, mem, ip, out);
    i := Literals(mem[at..at + n]);
    Glue(mem, ip, at, n, RunBytes(n));
  }

  /** The length of a run, and where its literals stand. */
  lemma RunThere(v: Variant, cap: nat, mem: seq<byte>, ip: nat, out: seq<byte>) returns (n: nat, at: nat)
    requires ip < |mem| && mem[ip] < 32 && TakeRun(v, cap, mem, ip + 1, out, mem[ip]).Goto?
    ensures (1 <= n <= 279 || LongSize(n)) && ip <= at && at + n <= |mem| && |out| + n <= cap
    ensures mem[ip..at] == RunBytes(n)
  {
    hide LongRun;
    n, at := mem[ip] as nat, ip + 1;
    if n == 0 {
      n := SizeThere(mem[ip + 1]);
      at := ip + 2;
      assert mem[ip..at] == [mem[ip], mem[ip + 1]];
    } else {
      assert mem[ip..at] == [mem[ip]];
    }
  }

  lemma SizeThere(u: byte) returns (n: nat)
    ensures n == if u < 248 then u as nat + 32 else if u == 248 then 280 else LongRun(u as nat - 248)
    ensures (1 <= n <= 279 || LongSize(n)) && RunBytes(n) == [0, u]
  {
    LongRuns();
    hide LongRun;
    n := if u < 248 then u as nat + 32 else if u == 248 then 280 else LongRun(u as nat - 248);
  }

  lemma Glue(mem: seq<byte>, ip: nat, at: nat, n: nat, c: seq<byte>)
    requires ip <= at && at + n <= |mem| && mem[ip..at] == c
    ensures At(mem, ip, c + mem[at..at + n])
  {
    Join(mem, ip, at, at + n);
  }

  lemma NearThere(cap: nat, mem: seq<byte>, n: nat, ip: nat, out: seq<byte>) returns (i: Instr)
    requires ip < |mem| && mem[ip] < 32 && TakeR1(cap, mem, ip + 1, out, mem[ip]).Goto?
    requires Step(Lzo1a, cap, mem, n, TakeR1(cap, mem, ip + 1, out, mem[ip]).next).Goto?
    ensures IsNext(cap, mem, true, ip, out, i)
  {
    hide CopyMatch, Code;
    i := Near(1 + (mem[ip] as nat + mem[ip + 1] as nat * 32), mem[ip + 2]);
    NearBytes(mem[ip], mem[ip + 1], mem[ip + 2]);
    assert mem[ip..ip + 3] == [mem[ip], mem[ip + 1], mem[ip + 2]];
  }

  lemma NearBytes(t: byte, x: byte, l: byte)
    requires t < 32
    ensures Code(Near(1 + (t as nat + x as nat * 32), l)) == [t, x, l]
  {
  }

  /** A run that ends with OK goes on before the end of the input. */
  lemma GoesOn(v: Variant, cap: nat, mem: seq<byte>, n: nat, s: State)
    requires s.ip <= |mem| && Run(v, cap, mem, n, s).Done? && Run(v, cap, mem, n, s).code == Ok
    ensures !s.at.R1Literal? ==> s.ip <= n
    ensures s.at.R1Literal? || s.ip < n ==>
              && s.ip < |mem| && Step(v, cap, mem, n, s).Goto?
              && Run(v, cap, mem, n, s) == Run(v, cap, mem, n, Step(v, cap, mem, n, s).next)
  {
    hide CopyMatch, LongRun;
  }

  lemma NextThere(v: Variant, cap: nat, mem: seq<byte>, n: nat, m: bool, ip: nat, out: seq<byte>) returns (i: Instr)
    requires (m ==> v.Lzo1a?) && ip < n && ip <= |mem|
    requires Run(v, cap, mem, n, Before(m, ip, out)).Done? && Run(v, cap, mem, n, Before(m, ip, out)).code == Ok
    ensures IsNext(cap, mem, m, ip, out, i)
  {
    hide Run, TakeMatch, TakeRun, TakeR1, IsNext;
    GoesOn(v, cap, mem, n, Before(m, ip, out));
    if mem[ip] >= 32 {
      i := RepeatThere(cap, mem, m, ip, out);
    } else if m {
      R1Next(cap, mem, ip, out);
      GoesOn(v, cap, mem, n, Step(v, cap, mem, n, Before(m, ip, out)).next);
      i := NearThere(cap, mem, n, ip, out);
    } else {
      i := LiteralsThere(v, cap, mem, ip, out);
    }
  }

  lemma R1Next(cap: nat, mem: seq<byte>, ip: nat, out: seq<byte>)
    requires ip < |mem| && TakeR1(cap, mem, ip + 1, out, mem[ip]).Goto?
    ensures TakeR1(cap, mem, ip + 1, out, mem[ip]).next.at.R1Literal?
  {
    hide CopyMatch;
  }

  /** The instructions of an accepted stream. */
  lemma {:induction false} ProgramThere(v: Variant, cap: nat, mem: seq<byte>, n: nat, m: bool, ip: nat, out: seq<byte>)
    returns (prog: seq<Instr>)
    requires (m ==> v.Lzo1a?) && ip <= |mem| && |out| <= cap
    requires Run(v, cap, mem, n, Before(m, ip, out)).Done? && Run(v, cap, mem, n, Before(m, ip, out)).code == Ok
    ensures ip <= n <= |mem| && LegalAll(v, m, out, prog) && |Meaning(v, m, out, prog)| <= cap
    ensures mem[ip..n] == Codes(v, m, out, prog)
    decreases |mem| - ip
  {
    hide Run, Code, Produce, Legal, IsNext;
    GoesOn(v, cap, mem, n, Before(m, ip, out));
    prog := [];
    if ip < n {
      var i := NextThere(v, cap, mem, n, m, ip, out);
      NextLegal(cap, mem, m, ip, out, i);
      InstrReads(v, cap, mem, n, m, ip, out, i);
      var at := ip + |Code(i)|;
      prog := ProgramThere(v, cap, mem, n, After(v, i), at, Produce(out, i));
      Join(mem, ip, at, n);
      OneMore(v, m, out, i, prog);
      prog := [i] + prog;
    }
  }

  lemma NextLegal(cap: nat, mem: seq<byte>, m: bool, ip: nat, out: seq<byte>, i: Instr)
    requires IsNext(cap, mem, m, ip, out, i)
    ensures Legal(m, out, i) && (Encodable(false, i) || Encodable(true, i)) && (!i.Literals? ==> 1 <= i.off <= |out|)
    ensures |Produce(out, i)| <= cap && At(mem, ip, Code(i)) && mem[ip..ip + |Code(i)|] == Code(i)
  {
  }

  lemma OneMore(v: Variant, m: bool, out: seq<byte>, i: Instr, prog: seq<Instr>)
    requires Legal(m, out, i) && (Encodable(false, i) || Encodable(true, i)) && (!i.Literals? ==> 1 <= i.off <= |out|)
    requires LegalAll(v, After(v, i), Produce(out, i), prog)
    ensures LegalAll(v, m, out, [i] + prog)
    ensures Meaning(v, m, out, [i] + prog) == Meaning(v, After(v, i), Produce(out, i), prog)
    ensures Codes(v, m, out, [i] + prog) == Code(i) + Codes(v, After(v, i), Produce(out, i), prog)
  {
    hide Produce, Code, Legal;
    var all := [i] + prog;
    assert all[0] == i && all[1..] == prog;
  }

  /** The decoder ends with OK on exactly the streams of the format that stand for at most cap bytes, with what they
      stand for, whatever follows them in memory. */
  lemma AcceptsExactly(v: Variant, cap: nat, mem: seq<byte>, n: nat, out: seq<byte>)
    ensures Decode(v, cap, mem, n) == Done(Ok, out) <==>
              && n <= |mem| && |out| <= cap
              && exists prog :: LegalAll(v, false, [], prog) && mem[..n] == Codes(v, false, [], prog)
                                && out == Meaning(v, false, [], prog)
  {
    hide Run, Codes, Meaning, LegalAll;
    var r := Decode(v, cap, mem, n);
    if r.Done? && r.code == Ok {
      var prog := ProgramThere(v, cap, mem, n, false, 0, []);
      assert mem[0..n] == mem[..n];
      ProgramReads(v, cap, mem, n, false, 0, [], prog);
    }
    forall prog | n <= |mem| && LegalAll(v, false, [], prog) && mem[..n] == Codes(v, false, [], prog)
                  && |Meaning(v, false, [], prog)| <= cap
      ensures r == Done(Ok, Meaning(v, false, [], prog))
    {
      assert mem[0..n] == mem[..n];
      ProgramReads(v, cap, mem, n, false, 0, [], prog);
    }
  }
}
