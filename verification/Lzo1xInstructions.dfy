// The compressed format of LZO1X and LZO1Y as a sequence of instructions, with every code byte in numbers. The decoder
// accepts the streams of this format, all of them and no others, with the bytes they stand for.
module Lzo1xInstructions {
  import opened Bytes
  import opened Slices
  import opened Layout
  import opened Window
  import opened Lzo1xFormat
  import opened Lzo1xDecoder
  import opened Lzo1xStream
  import opened Lzo1xParse
  import opened Lzo1xLaws

  // ---- the format ----

  datatype Form = M1 | M2 | M3 | M4

  /** Literals announced by the first byte of the stream, literals with a run header, or a match with up to three
      literals behind it. */
  datatype Instr =
    | First(lits: seq<byte>)
    | Literals(lits: seq<byte>)
    | Repeat(form: Form, off: nat, len: nat, lits: seq<byte>)

  /** What came before: nothing, a match without literals, one to three literals, or at least four. */
  datatype Mode = Fresh | Top | Few | Many

  function After(i: Instr): Mode {
    match i
    case First(lits) => if |lits| < 4 then Few else Many
    case Literals(_) => Many
    case Repeat(_, _, _, lits) => if lits == [] then Top else Few
  }

  /** The distances of M2 matches end here. */
  function Near(v: Variant): nat {
    if v.Lzo1x? then 2048 else 1024
  }

  /** The distances and lengths of each form. */
  predicate Fits(v: Variant, form: Form, off: nat, len: nat) {
    match form
    case M1 => if len == 2 then 1 <= off <= 1024 else len == 3 && Near(v) < off <= Near(v) + 1024
    case M2 => 1 <= off <= Near(v) && 3 <= len <= if v.Lzo1x? then 8 else 14
    case M3 => 1 <= off <= 16384 && 3 <= len
    case M4 => 16384 < off <= 49151 && 3 <= len
  }

  /** Long lengths are read back with a counter. */
  predicate Counted(form: Form, len: nat) {
    (form.M3? ==> Countable(len - 33)) && (form.M4? ==> Countable(len - 9))
  }

  predicate Encodable(v: Variant, m: Mode, i: Instr) {
    match i
    case First(lits) => m.Fresh? && 1 <= |lits| <= 238
    case Literals(lits) => (m.Fresh? || m.Top?) && |lits| >= 4 && Countable(|lits| - 18)
    case Repeat(form, off, len, lits) =>
      && !m.Fresh? && |lits| <= 3 && Fits(v, form, off, len) && Counted(form, len)
      && (form.M1? ==> if len == 2 then m.Few? else m.Many?)
  }

  /** The code of a match. The number of literals behind it is added to its byte before last. */
  function MatchBytes(v: Variant, form: Form, off: nat, len: nat, k: nat): (r: seq<byte>)
    requires k <= 3 && Fits(v, form, off, len)
    ensures |r| >= 2
  {
    match form
    case M1 => M1Bytes(off - 1 - (if len == 2 then 0 else Near(v)), k)
    case M2 => M2Bytes(v, off - 1, len, k)
    case M3 => LengthCode(32, len, 33) + DistanceBytes(off - 1, k)
    case M4 => LengthCode(if off < 32768 then 16 else 24, len, 9) + DistanceBytes((off - 16384) % 16384, k)
  }

  function M1Bytes(d: nat, k: nat): (r: seq<byte>)
    requires d < 1024 && k <= 3
    ensures |r| == 2
  {
    [d % 4 * 4 + k, d / 4]
  }

  function M2Bytes(v: Variant, d: nat, len: nat, k: nat): (r: seq<byte>)
    requires d < Near(v) && 3 <= len <= (if v.Lzo1x? then 8 else 14) && k <= 3
    ensures |r| == 2
  {
    if v.Lzo1x? then [(len - 1) * 32 + d % 8 * 4 + k, d / 8] else [(len + 1) * 16 + d % 4 * 4 + k, d / 4]
  }

  function DistanceBytes(d: nat, k: nat): (r: seq<byte>)
    requires d < 16384 && k <= 3
    ensures |r| == 2
  {
    [d % 64 * 4 + k, d / 64]
  }

  function Code(v: Variant, m: Mode, i: Instr): (r: seq<byte>)
    requires Encodable(v, m, i)
    ensures |r| >= 1
  {
    match i
    case First(lits) => [17 + |lits|] + lits
    case Literals(lits) => RunHead(|lits|) + lits
    case Repeat(form, off, len, lits) => MatchBytes(v, form, off, len, |lits|) + lits
  }

  function RunHead(n: nat): (r: seq<byte>)
    requires n >= 4
    ensures |r| >= 1
  {
    if n <= 18 then [n - 3] else [0] + LongLength(n - 18)
  }

  /** What an instruction appends. */
  function Produce(out: seq<byte>, i: Instr): (r: seq<byte>)
    requires i.Repeat? ==> 1 <= i.off <= |out|
  {
    if i.Repeat? then CopyMatch(out, i.off, i.len) + i.lits else out + i.lits
  }

  predicate Legal(v: Variant, m: Mode, out: seq<byte>, i: Instr) {
    Encodable(v, m, i) && (i.Repeat? ==> i.off <= |out|)
  }

  predicate LegalAll(v: Variant, m: Mode, out: seq<byte>, prog: seq<Instr>)
    decreases |prog|
  {
    prog == [] || (Legal(v, m, out, prog[0]) && LegalAll(v, After(prog[0]), Produce(out, prog[0]), prog[1..]))
  }

  /** The mode at the end. */
  function EndMode(m: Mode, prog: seq<Instr>): Mode
    decreases |prog|
  {
    if prog == [] then m else EndMode(After(prog[0]), prog[1..])
  }

  function Codes(v: Variant, m: Mode, out: seq<byte>, prog: seq<Instr>): seq<byte>
    requires LegalAll(v, m, out, prog)
    decreases |prog|
  {
    if prog == [] then [] else Code(v, m, prog[0]) + Codes(v, After(prog[0]), Produce(out, prog[0]), prog[1..])
  }

  /** The bytes that a legal program stands for. */
  function Meaning(v: Variant, m: Mode, out: seq<byte>, prog: seq<Instr>): (r: seq<byte>)
    requires LegalAll(v, m, out, prog)
    ensures |out| <= |r|
    decreases |prog|
  {
    if prog == [] then out else Meaning(v, After(prog[0]), Produce(out, prog[0]), prog[1..])
  }

  /** The EOF code: an M4 match at distance 0, of any length and with any low bits. */
  datatype Ending = Ending(len: nat, low: nat)

  predicate LegalEnd(m: Mode, e: Ending) {
    3 <= e.len && Countable(e.len - 9) && e.low <= 3 && (m.Fresh? ==> e.len == 3 || e.len > 9)
  }

  function EofCode(e: Ending): (r: seq<byte>)
    requires e.len >= 3 && e.low <= 3
    ensures |r| >= 3
  {
    LengthCode(16, e.len, 9) + [e.low, 0]
  }

  predicate LegalStream(v: Variant, prog: seq<Instr>, e: Ending) {
    LegalAll(v, Fresh, [], prog) && LegalEnd(EndMode(Fresh, prog), e)
  }

  function StreamOf(v: Variant, prog: seq<Instr>, e: Ending): seq<byte>
    requires LegalStream(v, prog, e)
  {
    Codes(v, Fresh, [], prog) + EofCode(e)
  }

  // ---- the machine between two instructions ----

  /** Where the machine is when the code of the next instruction stands at ip. After one to three literals it has read
      the first byte already. */
  function Before(m: Mode, src: seq<byte>, ip: nat, out: seq<byte>): State
    requires ip < |src|
  {
    match m
    case Fresh => State(Start, ip, out)
    case Top => State(LiteralRun, ip, out)
    case Few => State(Match(src[ip]), ip + 1, out)
    case Many => State(FirstLiteralRun, ip, out)
  }

  predicate Between(cap: nat, src: seq<byte>, m: Mode, ip: nat, out: seq<byte>) {
    ip + 3 <= |src| && |out| <= cap && (m.Fresh? ==> ip == 0 && out == [])
  }

  /** The machine goes on from one place between instructions to another. */
  ghost predicate Leads(v: Variant, b: Build, cap: nat, src: seq<byte>, m: Mode, ip: nat, out: seq<byte>,
                        m': Mode, ip': nat, out': seq<byte>)
  {
    && Between(cap, src, m, ip, out) && Between(cap, src, m', ip', out')
    && Run(v, b, cap, src, Before(m, src, ip, out)) == Run(v, b, cap, src, Before(m', src, ip', out'))
  }

  lemma StepRun(v: Variant, b: Build, cap: nat, src: seq<byte>, s: State, next: State)
    requires Valid(cap, src, s) && Step(v, b, cap, src, s) == Goto(next)
    ensures Valid(cap, src, next) && Run(v, b, cap, src, s) == Run(v, b, cap, src, next)
  {
    hide Step;
  }

  /** The marker of a match is read. */
  lemma ToMarker(v: Variant, b: Build, cap: nat, src: seq<byte>, m: Mode, ip: nat, out: seq<byte>)
    requires Between(cap, src, m, ip, out)
    requires m.Few? || (src[ip] >= 16 && (m.Fresh? ==> src[ip] <= 17))
    ensures Run(v, b, cap, src, Before(m, src, ip, out)) == Run(v, b, cap, src, State(Match(src[ip]), ip + 1, out))
  {
    hide Run;
    var goal := State(Match(src[ip]), ip + 1, out);
    match m {
      case Fresh =>
        StepRun(v, b, cap, src, Before(m, src, ip, out), State(LiteralRun, 0, out));
        StepRun(v, b, cap, src, State(LiteralRun, 0, out), goal);
      case Top => StepRun(v, b, cap, src, Before(m, src, ip, out), goal);
      case Few =>
      case Many => StepRun(v, b, cap, src, Before(m, src, ip, out), goal);
    }
  }

  /** After a match the machine copies the literals behind it, if there are any. */
  lemma BehindMatch(v: Variant, b: Build, cap: nat, src: seq<byte>, ip: nat, out: seq<byte>, lits: seq<byte>)
    requires 2 <= ip && ip + |lits| + 3 <= |src| && |out| + |lits| <= cap
    requires src[ip - 2] % 4 == |lits| && src[ip..ip + |lits|] == lits
    ensures Run(v, b, cap, src, State(AfterMatch(src, ip), ip, out))
         == Run(v, b, cap, src, Before(if lits == [] then Top else Few, src, ip + |lits|, out + lits))
  {
    hide Run;
    if lits == [] {
      assert out + lits == out;
    } else {
      StepRun(v, b, cap, src, State(AfterMatch(src, ip), ip, out), Before(Few, src, ip + |lits|, out + lits));
    }
  }

  // ---- reading one instruction ----

  lemma FirstReads(v: Variant, b: Build, cap: nat, src: seq<byte>, lits: seq<byte>)
    requires 1 <= |lits| <= 238 && |lits| <= cap && |lits| + 4 <= |src|
    requires src[0..1 + |lits|] == [17 + |lits|] + lits
    ensures Run(v, b, cap, src, INIT) == Run(v, b, cap, src, Before(After(First(lits)), src, 1 + |lits|, lits))
  {
    hide Run;
    HeadAndTail(src, 0, 17 + |lits|, lits);
    assert [] + lits == lits;
    var next := Before(After(First(lits)), src, 1 + |lits|, lits);
    if |lits| < 4 {
      var mid := State(MatchNext(|lits|), 1, []);
      StepRun(v, b, cap, src, INIT, mid);
      StepRun(v, b, cap, src, mid, next);
    } else {
      StepRun(v, b, cap, src, INIT, next);
    }
  }

  lemma LiteralsRead(v: Variant, b: Build, cap: nat, src: seq<byte>, m: Mode, ip: nat, out: seq<byte>, lits: seq<byte>)
    requires Between(cap, src, m, ip, out) && Encodable(v, m, Literals(lits)) && |out| + |lits| <= cap
    requires var c := RunHead(|lits|) + lits; ip + |c| + 3 <= |src| && src[ip..ip + |c|] == c
    ensures Run(v, b, cap, src, Before(m, src, ip, out))
         == Run(v, b, cap, src, Before(Many, src, ip + |RunHead(|lits|)| + |lits|, out + lits))
  {
    hide Run, RunHead, StepLiteralRun, RunHeader;
    var h := RunHead(|lits|);
    RunHeadIs(|lits|);
    AtSplit(src, ip, h, lits);
    LongRun(cap, src, ip, out, |lits|);
    if m.Fresh? {
      StepRun(v, b, cap, src, Before(m, src, ip, out), State(LiteralRun, 0, out));
    }
    LiteralRunStep(v, b, cap, src, State(LiteralRun, ip, out));
    StepRun(v, b, cap, src, State(LiteralRun, ip, out), Before(Many, src, ip + |h| + |lits|, out + lits));
  }

  lemma RunHeadIs(n: nat)
    requires n >= 4
    ensures RunHead(n) == RunHeader(n)
  {
  }

  /** The two bytes of a distance. */
  lemma DistanceReads(src: seq<byte>, ip: nat, d: nat, k: nat)
    requires d < 16384 && k <= 3 && ip + 2 <= |src| && src[ip..ip + 2] == DistanceBytes(d, k)
    ensures Distance(src, ip) == d && src[ip] % 4 == k
  {
    assert src[ip] == src[ip..ip + 2][0] && src[ip + 1] == src[ip..ip + 2][1];
  }

  lemma M1Reads(src: seq<byte>, ip: nat, d: nat, k: nat)
    requires d < 1024 && k <= 3 && ip + 2 <= |src| && src[ip..ip + 2] == M1Bytes(d, k)
    ensures src[ip] < 16 && src[ip] % 4 == k && src[ip] as nat / 4 + src[ip + 1] as nat * 4 == d
  {
    assert src[ip] == src[ip..ip + 2][0] && src[ip + 1] == src[ip..ip + 2][1];
  }

  lemma M2Reads(v: Variant, src: seq<byte>, ip: nat, d: nat, len: nat, k: nat)
    requires d < Near(v) && 3 <= len <= (if v.Lzo1x? then 8 else 14) && k <= 3
    requires ip + 3 <= |src| && src[ip..ip + 2] == M2Bytes(v, d, len, k)
    ensures src[ip] >= 64 && src[ip] % 4 == k
    ensures TokenM2(v, src, ip + 1, src[ip]) == Copy(ip + 2, d + 1, len)
  {
    assert src[ip] == src[ip..ip + 2][0] && src[ip + 1] == src[ip..ip + 2][1];
    if v.Lzo1x? {
      M2FieldsX(src[ip], d, len);
    } else {
      M2FieldsY(src[ip], d, len);
    }
  }

  /** The length and the distance of an M3 or M4 code. */
  lemma LongReads(src: seq<byte>, ip: nat, marker: byte, len: nat, maxLen: nat, d: nat, k: nat)
    requires 3 <= len && Countable(len - maxLen) && 2 <= maxLen && marker + maxLen < 258 && d < 16384 && k <= 3
    requires var c := LengthCode(marker, len, maxLen) + DistanceBytes(d, k);
             ip + |c| <= |src| && src[ip..ip + |c|] == c
    ensures var l := |LengthCode(marker, len, maxLen)|;
            && src[ip] == marker + (if len <= maxLen then len - 2 else 0)
            && Distance(src, ip + l) == d && src[ip + l] % 4 == k
            && MatchLength(src, ip + 1, if len <= maxLen then len - 2 else 0, maxLen - 2) == Length(len - 2, ip + l)
  {
    hide Distance, ReadLength, LengthCode, DistanceBytes;
    var lc := LengthCode(marker, len, maxLen);
    TwoParts(src, ip, lc, DistanceBytes(d, k));
    ReadLengthCode(src, ip, marker, len, maxLen);
    DistanceReads(src, ip + |lc|, d, k);
  }

  lemma TwoParts(src: seq<byte>, ip: nat, a: seq<byte>, c: seq<byte>)
    requires ip + |a + c| <= |src| && src[ip..ip + |a + c|] == a + c
    ensures src[ip..ip + |a|] == a && src[ip + |a|..ip + |a| + |c|] == c
  {
    assert At(src, ip, a + c);
    AtSplit(src, ip, a, c);
  }

  lemma M3Token(v: Variant, src: seq<byte>, ip: nat, off: nat, len: nat, k: nat)
    requires Fits(v, M3, off, len) && Counted(M3, len) && k <= 3
    requires var c := MatchBytes(v, M3, off, len, k); ip + |c| <= |src| && src[ip..ip + |c|] == c
    ensures var c := MatchBytes(v, M3, off, len, k);
            && 32 <= src[ip] < 64 && src[ip + |c| - 2] % 4 == k
            && ReadToken(v, src, ip + 1, src[ip]) == Copy(ip + |c|, off, len)
  {
    hide Distance, MatchLength, LengthCode, DistanceBytes;
    LongReads(src, ip, 32, len, 33, off - 1, k);
  }

  lemma M4Token(v: Variant, src: seq<byte>, ip: nat, off: nat, len: nat, k: nat)
    requires Fits(v, M4, off, len) && Counted(M4, len) && k <= 3
    requires var c := MatchBytes(v, M4, off, len, k); ip + |c| <= |src| && src[ip..ip + |c|] == c
    ensures var c := MatchBytes(v, M4, off, len, k);
            && 16 <= src[ip] < 32 && src[ip + |c| - 2] % 4 == k
            && ReadToken(v, src, ip + 1, src[ip]) == Copy(ip + |c|, off, len)
  {
    hide Distance, MatchLength, LengthCode, DistanceBytes;
    LongReads(src, ip, if off < 32768 then 16 else 24, len, 9, (off - 16384) % 16384, k);
    assert src[ip] as nat / 8 % 2 == (if off < 32768 then 0 else 1);
  }

  /** Every match code but that of a three-byte match behind a run is read as one token. */
  lemma TokenReads(v: Variant, src: seq<byte>, ip: nat, form: Form, off: nat, len: nat, k: nat)
    requires Fits(v, form, off, len) && Counted(form, len) && k <= 3 && !(form.M1? && len == 3)
    requires var c := MatchBytes(v, form, off, len, k); ip + |c| + 3 <= |src| && src[ip..ip + |c|] == c
    ensures var c := MatchBytes(v, form, off, len, k);
            && (form.M1? <==> src[ip] < 16) && src[ip + |c| - 2] % 4 == k
            && ReadToken(v, src, ip + 1, src[ip]) == Copy(ip + |c|, off, len)
  {
    hide MatchBytes, ReadToken;
    match form {
      case M1 => M1Token(v, src, ip, off, k);
      case M2 => M2Token(v, src, ip, off, len, k);
      case M3 => M3Token(v, src, ip, off, len, k);
      case M4 => M4Token(v, src, ip, off, len, k);
    }
  }

  lemma M1Token(v: Variant, src: seq<byte>, ip: nat, off: nat, k: nat)
    requires Fits(v, M1, off, 2) && k <= 3 && ip + 3 <= |src|
    requires var c := MatchBytes(v, M1, off, 2, k); ip + |c| <= |src| && src[ip..ip + |c|] == c
    ensures var c := MatchBytes(v, M1, off, 2, k);
            && src[ip] < 16 && src[ip + |c| - 2] % 4 == k
            && ReadToken(v, src, ip + 1, src[ip]) == Copy(ip + |c|, off, 2)
  {
    hide MatchBytes;
    M1Parts(v, src, ip, off, 2, k);
  }

  lemma M2Token(v: Variant, src: seq<byte>, ip: nat, off: nat, len: nat, k: nat)
    requires Fits(v, M2, off, len) && k <= 3 && ip + 3 <= |src|
    requires var c := MatchBytes(v, M2, off, len, k); ip + |c| <= |src| && src[ip..ip + |c|] == c
    ensures var c := MatchBytes(v, M2, off, len, k);
            && src[ip] >= 64 && src[ip + |c| - 2] % 4 == k
            && ReadToken(v, src, ip + 1, src[ip]) == Copy(ip + |c|, off, len)
  {
    hide M2Bytes, TokenM2;
    M2Reads(v, src, ip, off - 1, len, k);
  }

  lemma ManyIs(src: seq<byte>, ip: nat, out: seq<byte>)
    requires ip < |src|
    ensures Before(Many, src, ip, out) == State(FirstLiteralRun, ip, out)
  {
  }

  /** The machine after the copy of a match. */
  lemma MatchCopied(v: Variant, b: Build, cap: nat, src: seq<byte>, m: Mode, ip: nat, out: seq<byte>, form: Form,
                    off: nat, len: nat, k: nat)
    requires Between(cap, src, m, ip, out) && !m.Fresh? && Fits(v, form, off, len) && Counted(form, len) && k <= 3
    requires form.M1? ==> if len == 2 then m.Few? else m.Many?
    requires var c := MatchBytes(v, form, off, len, k); ip + |c| + 3 <= |src| && src[ip..ip + |c|] == c
    requires off <= |out| && |out| + len <= cap
    ensures var at := ip + |MatchBytes(v, form, off, len, k)|;
            && src[at - 2] % 4 == k
            && Run(v, b, cap, src, Before(m, src, ip, out))
               == Run(v, b, cap, src, State(AfterMatch(src, at), at, CopyMatch(out, off, len)))
  {
    hide Run, MatchBytes, ReadToken, CopyMatch, AfterMatch, Before;
    var c := MatchBytes(v, form, off, len, k);
    if form.M1? && len == 3 {
      M1Parts(v, src, ip, off, len, k);
      NearCopied(v, b, cap, src, ip, out, off);
      ManyIs(src, ip, out);
    } else {
      TokenReads(v, src, ip, form, off, len, k);
      ToMarker(v, b, cap, src, m, ip, out);
      TokenCopied(v, b, cap, src, ip, out, off, len, ip + |c|);
    }
  }

  lemma TokenCopied(v: Variant, b: Build, cap: nat, src: seq<byte>, ip: nat, out: seq<byte>, off: nat, len: nat,
                    at: nat)
    requires ip + 3 <= |src| && 1 <= off <= |out| && |out| + len <= cap
    requires ReadToken(v, src, ip + 1, src[ip]) == Copy(at, off, len)
    ensures 2 <= at <= |src|
    ensures Run(v, b, cap, src, State(Match(src[ip]), ip + 1, out))
         == Run(v, b, cap, src, State(AfterMatch(src, at), at, CopyMatch(out, off, len)))
  {
    hide Run, ReadToken, CopyMatch, AfterMatch;
    StepRun(v, b, cap, src, State(Match(src[ip]), ip + 1, out),
            State(AfterMatch(src, at), at, CopyMatch(out, off, len)));
  }

  lemma M1Parts(v: Variant, src: seq<byte>, ip: nat, off: nat, len: nat, k: nat)
    requires Fits(v, M1, off, len) && k <= 3 && ip + 2 <= |src|
    requires var c := MatchBytes(v, M1, off, len, k); ip + |c| <= |src| && src[ip..ip + |c|] == c
    ensures |MatchBytes(v, M1, off, len, k)| == 2
    ensures src[ip] < 16 && src[ip] % 4 == k
    ensures src[ip] as nat / 4 + src[ip + 1] as nat * 4 == off - 1 - (if len == 2 then 0 else v.M2MaxOffset)
  {
    hide M1Bytes;
    M1Reads(src, ip, off - 1 - (if len == 2 then 0 else Near(v)), k);
  }

  /** A three-byte match behind a run. */
  lemma NearCopied(v: Variant, b: Build, cap: nat, src: seq<byte>, ip: nat, out: seq<byte>, off: nat)
    requires ip + 5 <= |src| && 1 <= off <= |out| && |out| + 3 <= cap
    requires src[ip] < 16 && src[ip] as nat / 4 + src[ip + 1] as nat * 4 == off - 1 - v.M2MaxOffset
    ensures Run(v, b, cap, src, State(FirstLiteralRun, ip, out))
         == Run(v, b, cap, src, State(AfterMatch(src, ip + 2), ip + 2, CopyMatch(out, off, 3)))
  {
    hide Run, CopyMatch, AfterMatch;
    StepRun(v, b, cap, src, State(FirstLiteralRun, ip, out),
            State(AfterMatch(src, ip + 2), ip + 2, CopyMatch(out, off, 3)));
  }

  /** One instruction is carried out. */
  lemma InstrReads(v: Variant, b: Build, cap: nat, src: seq<byte>, m: Mode, ip: nat, out: seq<byte>, i: Instr)
    requires Between(cap, src, m, ip, out) && Legal(v, m, out, i) && |Produce(out, i)| <= cap
    requires var c := Code(v, m, i); ip + |c| + 3 <= |src| && src[ip..ip + |c|] == c
    ensures Leads(v, b, cap, src, m, ip, out, After(i), ip + |Code(v, m, i)|, Produce(out, i))
  {
    hide Run, Code, Produce, Before, Legal, After, Leads;
    match i {
      case First(lits) => FirstInstr(v, b, cap, src, m, ip, out, i);
      case Literals(lits) => LiteralsInstr(v, b, cap, src, m, ip, out, i);
      case Repeat(_, _, _, _) => RepeatInstr(v, b, cap, src, m, ip, out, i);
    }
  }

  lemma FirstInstr(v: Variant, b: Build, cap: nat, src: seq<byte>, m: Mode, ip: nat, out: seq<byte>, i: Instr)
    requires Between(cap, src, m, ip, out) && Legal(v, m, out, i) && |Produce(out, i)| <= cap && i.First?
    requires var c := Code(v, m, i); ip + |c| + 3 <= |src| && src[ip..ip + |c|] == c
    ensures Leads(v, b, cap, src, m, ip, out, After(i), ip + |Code(v, m, i)|, Produce(out, i))
  {
    hide Run, Before, After;
    assert [] + i.lits == i.lits;
    FirstReads(v, b, cap, src, i.lits);
    StartsFresh(src);
    NotFresh(i);
  }

  lemma LiteralsInstr(v: Variant, b: Build, cap: nat, src: seq<byte>, m: Mode, ip: nat, out: seq<byte>, i: Instr)
    requires Between(cap, src, m, ip, out) && Legal(v, m, out, i) && |Produce(out, i)| <= cap && i.Literals?
    requires var c := Code(v, m, i); ip + |c| + 3 <= |src| && src[ip..ip + |c|] == c
    ensures Leads(v, b, cap, src, m, ip, out, After(i), ip + |Code(v, m, i)|, Produce(out, i))
  {
    hide Run, RunHead, Before;
    LiteralsRead(v, b, cap, src, m, ip, out, i.lits);
  }

  lemma RepeatInstr(v: Variant, b: Build, cap: nat, src: seq<byte>, m: Mode, ip: nat, out: seq<byte>, i: Instr)
    requires Between(cap, src, m, ip, out) && Legal(v, m, out, i) && |Produce(out, i)| <= cap && i.Repeat?
    requires var c := Code(v, m, i); ip + |c| + 3 <= |src| && src[ip..ip + |c|] == c
    ensures Leads(v, b, cap, src, m, ip, out, After(i), ip + |Code(v, m, i)|, Produce(out, i))
  {
    hide Run, MatchBytes, Before, AfterMatch, CopyMatch;
    var c := MatchBytes(v, i.form, i.off, i.len, |i.lits|);
    TwoParts(src, ip, c, i.lits);
    MatchCopied(v, b, cap, src, m, ip, out, i.form, i.off, i.len, |i.lits|);
    BehindMatch(v, b, cap, src, ip + |c|, CopyMatch(out, i.off, i.len), i.lits);
  }

  /** The EOF code ends the run. */
  lemma EofReads(v: Variant, b: Build, cap: nat, src: seq<byte>, m: Mode, ip: nat, out: seq<byte>, e: Ending)
    requires Between(cap, src, m, ip, out) && LegalEnd(m, e)
    requires ip + |EofCode(e)| == |src| && src[ip..] == EofCode(e)
    ensures Run(v, b, cap, src, Before(m, src, ip, out)) == Result(Ok, out)
  {
    hide Run, EofCode, ReadToken;
    EofToken(v, src, ip, e);
    ToMarker(v, b, cap, src, m, ip, out);
    EofHalts(v, b, cap, src, ip, out);
  }

  lemma EofToken(v: Variant, src: seq<byte>, ip: nat, e: Ending)
    requires e.len >= 3 && Countable(e.len - 9) && e.low <= 3
    requires ip + |EofCode(e)| == |src| && src[ip..] == EofCode(e)
    ensures ReadToken(v, src, ip + 1, src[ip]) == Eof(|src|)
    ensures src[ip] == if e.len <= 9 then 14 + e.len else 16
  {
    hide LengthCode, Distance, MatchLength;
    assert [e.low as byte, 0] == DistanceBytes(0, e.low);
    assert src[ip..] == src[ip..ip + |EofCode(e)|];
    LongReads(src, ip, 16, e.len, 9, 0, e.low);
  }

  lemma EofHalts(v: Variant, b: Build, cap: nat, src: seq<byte>, ip: nat, out: seq<byte>)
    requires ip + 3 <= |src| && |out| <= cap && ReadToken(v, src, ip + 1, src[ip]) == Eof(|src|)
    ensures Run(v, b, cap, src, State(Match(src[ip]), ip + 1, out)) == Result(Ok, out)
  {
    hide ReadToken;
  }

  /** The instructions of a program are carried out in turn. */
  lemma {:induction false} PrefixReads(v: Variant, b: Build, cap: nat, src: seq<byte>, m: Mode, ip: nat,
                                       out: seq<byte>, prog: seq<Instr>)
    requires Between(cap, src, m, ip, out) && LegalAll(v, m, out, prog) && |Meaning(v, m, out, prog)| <= cap
    requires var c := Codes(v, m, out, prog); ip + |c| + 3 <= |src| && src[ip..ip + |c|] == c
    ensures Leads(v, b, cap, src, m, ip, out, EndMode(m, prog), ip + |Codes(v, m, out, prog)|, Meaning(v, m, out, prog))
    decreases |prog|
  {
    hide Run, Code, Produce;
    if prog != [] {
      var i, rest := prog[0], prog[1..];
      var c := Code(v, m, i);
      TwoParts(src, ip, c, Codes(v, After(i), Produce(out, i), rest));
      InstrReads(v, b, cap, src, m, ip, out, i);
      PrefixReads(v, b, cap, src, After(i), ip + |c|, Produce(out, i), rest);
    }
  }

  /** Every stream of the format is decoded to its meaning, with and without a preset dictionary. */
  lemma ProgramReads(v: Variant, b: Build, cap: nat, prog: seq<Instr>, e: Ending)
    requires LegalStream(v, prog, e) && |Meaning(v, Fresh, [], prog)| <= cap
    ensures Decode(v, b, cap, StreamOf(v, prog, e)) == Result(Ok, Meaning(v, Fresh, [], prog))
  {
    hide Run, Codes, EofCode, Meaning, LegalAll, LegalEnd, EndMode, Before;
    var src, c := StreamOf(v, prog, e), Codes(v, Fresh, [], prog);
    LegalEnding(EndMode(Fresh, prog), e);
    assert src[0..|c|] == c && src[|c|..] == EofCode(e);
    StartsFresh(src);
    PrefixReads(v, b, cap, src, Fresh, 0, [], prog);
    EofReads(v, b, cap, src, EndMode(Fresh, prog), |c|, Meaning(v, Fresh, [], prog), e);
  }

  lemma LegalEnding(m: Mode, e: Ending)
    requires LegalEnd(m, e)
    ensures 3 <= e.len && e.low <= 3
  {
  }

  lemma StartsFresh(src: seq<byte>)
    requires src != []
    ensures Before(Fresh, src, 0, []) == INIT
  {
  }

  /** A match that starts before the output is reported, after what precedes it has been written. */
  lemma LookbehindReported(v: Variant, cap: nat, prog: seq<Instr>, form: Form, off: nat, len: nat, k: nat,
                           rest: seq<byte>)
    requires LegalAll(v, Fresh, [], prog) && prog != [] && |Meaning(v, Fresh, [], prog)| <= cap
    requires Fits(v, form, off, len) && Counted(form, len) && k <= 3 && |rest| >= 3
    requires form.M1? ==> if len == 2 then EndMode(Fresh, prog).Few? else EndMode(Fresh, prog).Many?
    requires off > |Meaning(v, Fresh, [], prog)|
    ensures Decode(v, Plain, cap, Codes(v, Fresh, [], prog) + MatchBytes(v, form, off, len, k) + rest)
         == Result(LookbehindOverrun, Meaning(v, Fresh, [], prog))
  {
    hide Run, Codes, MatchBytes, Meaning, LegalAll, Before;
    var c, x, m := Codes(v, Fresh, [], prog), MatchBytes(v, form, off, len, k), EndMode(Fresh, prog);
    var src := c + x + rest;
    assert src[0..|c|] == c && src[|c|..|c| + |x|] == x;
    StartsFresh(src);
    PrefixReads(v, Plain, cap, src, Fresh, 0, [], prog);
    EndNotFresh(Fresh, prog);
    TooFar(v, cap, src, m, |c|, Meaning(v, Fresh, [], prog), form, off, len, k);
  }

  lemma {:induction false} EndNotFresh(m: Mode, prog: seq<Instr>)
    requires prog != []
    ensures !EndMode(m, prog).Fresh?
    decreases |prog|
  {
    NotFresh(prog[0]);
    if |prog| > 1 {
      EndNotFresh(After(prog[0]), prog[1..]);
    }
  }

  lemma TooFar(v: Variant, cap: nat, src: seq<byte>, m: Mode, ip: nat, out: seq<byte>, form: Form, off: nat, len: nat,
               k: nat)
    requires Between(cap, src, m, ip, out) && !m.Fresh? && Fits(v, form, off, len) && Counted(form, len) && k <= 3
    requires form.M1? ==> if len == 2 then m.Few? else m.Many?
    requires var c := MatchBytes(v, form, off, len, k); ip + |c| + 3 <= |src| && src[ip..ip + |c|] == c
    requires off > |out|
    ensures Run(v, Plain, cap, src, Before(m, src, ip, out)) == Result(LookbehindOverrun, out)
  {
    hide MatchBytes, ReadToken;
    if form.M1? && len == 3 {
      M1Parts(v, src, ip, off, len, k);
    } else {
      TokenReads(v, src, ip, form, off, len, k);
      ToMarker(v, Plain, cap, src, m, ip, out);
    }
  }

  lemma NotFresh(i: Instr)
    ensures !After(i).Fresh?
  {
  }

  // ---- every accepted stream has this format ----

  /** A length that has been read stands in its zero bytes and its last byte. */
  lemma {:induction false} LengthThere(src: seq<byte>, ip: nat, t: nat, base: nat, over: Code) returns (n: nat)
    requires ip < |src| && t <= RUN_LIMIT && ReadLength(src, ip, t, base, over).Length?
    ensures n >= 1 && t + (n - 1) / 255 * 255 <= RUN_LIMIT && ip + |LongLength(n)| <= |src|
    ensures ReadLength(src, ip, t, base, over) == Length(t + base + n, ip + |LongLength(n)|)
    ensures src[ip..ip + |LongLength(n)|] == LongLength(n)
    decreases |src| - ip
  {
    if src[ip] != 0 {
      n := src[ip];
      assert src[ip..ip + 1] == [src[ip]];
    } else {
      n := LengthThere(src, ip + 1, t + 255, base, over);
      hide LongLength;
      OneMoreZero(src, ip, n);
      n := n + 255;
    }
  }

  lemma OneMoreZero(src: seq<byte>, ip: nat, n: nat)
    requires n >= 1 && ip + 1 + |LongLength(n)| <= |src| && src[ip] == 0
    requires src[ip + 1..ip + 1 + |LongLength(n)|] == LongLength(n)
    ensures |LongLength(n + 255)| == 1 + |LongLength(n)|
    ensures src[ip..ip + 1 + |LongLength(n)|] == LongLength(n + 255)
  {
    LongLengthStep(n + 255);
    hide LongLength;
    assert src[ip..ip + 1 + |LongLength(n)|] == [src[ip]] + src[ip + 1..ip + 1 + |LongLength(n)|];
  }

  lemma MatchLengthThere(src: seq<byte>, ip: nat, marker: byte, field: nat, maxLen: nat, t: nat, at: nat)
    requires ip + 3 <= |src| && 2 <= maxLen && marker + maxLen < 258 && src[ip] == marker + field && field <= maxLen - 2
    requires MatchLength(src, ip + 1, field, maxLen - 2) == Length(t, at)
    ensures t >= 1 && Countable(t + 2 - maxLen) && at == ip + |LengthCode(marker, t + 2, maxLen)| && at + 2 <= |src|
    ensures src[ip..at] == LengthCode(marker, t + 2, maxLen)
    ensures if field != 0 then t == field else t + 2 > maxLen
  {
    hide ReadLength, LongLength;
    if field == 0 {
      var n := LengthThere(src, ip + 1, 0, maxLen - 2, OutputOverrun);
      assert src[ip..at] == [src[ip]] + src[ip + 1..at];
    }
  }

  lemma DistanceThere(src: seq<byte>, ip: nat)
    requires ip + 2 <= |src|
    ensures src[ip..ip + 2] == DistanceBytes(Distance(src, ip), src[ip] % 4)
  {
    var d, k := Distance(src, ip), src[ip] % 4;
    assert d % 64 == src[ip] / 4 && d / 64 == src[ip + 1];
  }

  /** A match code that has been read is one of the format. */
  predicate Stands(v: Variant, src: seq<byte>, ip: nat, form: Form, off: nat, len: nat, at: nat) {
    && Fits(v, form, off, len) && Counted(form, len) && ip + 2 <= at <= |src|
    && src[ip..at] == MatchBytes(v, form, off, len, src[at - 2] % 4)
  }

  lemma M1There(v: Variant, src: seq<byte>, ip: nat, off: nat, len: nat)
    requires ip + 2 <= |src| && src[ip] < 16 && (len == 2 || len == 3)
    requires off == 1 + (if len == 2 then 0 else v.M2MaxOffset) + src[ip] as nat / 4 + src[ip + 1] as nat * 4
    ensures Stands(v, src, ip, M1, off, len, ip + 2)
  {
    hide M1Bytes;
    assert src[ip..ip + 2] == [src[ip], src[ip + 1]];
    M1Code(src[ip], src[ip + 1]);
  }

  lemma M1Code(t: byte, x: byte)
    requires t < 16
    ensures M1Bytes(t as nat / 4 + x as nat * 4, t % 4) == [t, x]
  {
  }

  lemma M2ThereX(t: nat, x: nat, k: nat)
    requires 64 <= t < 256 && x < 256 && k == t % 4
    ensures var d, len := t / 4 % 8 + x * 8, t / 32 - 1 + 2;
            d < 2048 && 3 <= len <= 8 && (len - 1) * 32 + d % 8 * 4 + k == t && d / 8 == x
  {
    assert t / 32 == t / 4 / 8;
    assert t == t / 4 * 4 + k && t / 4 == t / 4 / 8 * 8 + t / 4 % 8;
  }

  lemma M2ThereY(t: nat, x: nat, k: nat)
    requires 64 <= t < 256 && x < 256 && k == t % 4
    ensures var d, len := t / 4 % 4 + x * 4, t / 16 - 3 + 2;
            d < 1024 && 3 <= len <= 14 && (len + 1) * 16 + d % 4 * 4 + k == t && d / 4 == x
  {
    assert t / 16 == t / 4 / 4;
    assert t == t / 4 * 4 + k && t / 4 == t / 4 / 4 * 4 + t / 4 % 4;
  }

  lemma M2There(v: Variant, src: seq<byte>, ip: nat, off: nat, len: nat, at: nat)
    requires ip + 3 <= |src| && src[ip] >= 64 && TokenM2(v, src, ip + 1, src[ip]) == Copy(at, off, len)
    ensures Stands(v, src, ip, M2, off, len, at)
  {
    hide M2Bytes;
    var t, x, k := src[ip] as nat, src[ip + 1] as nat, src[ip] as nat % 4;
    assert src[ip..ip + 2] == [src[ip], src[ip + 1]];
    if v.Lzo1x? {
      M2ThereX(t, x, k);
      M2CodeX(off - 1, len, k, t, x);
    } else {
      M2ThereY(t, x, k);
      M2CodeY(off - 1, len, k, t, x);
    }
  }

  lemma M2CodeX(d: nat, len: nat, k: nat, t: byte, x: byte)
    requires d < 2048 && 3 <= len <= 8 && k <= 3 && (len - 1) * 32 + d % 8 * 4 + k == t && d / 8 == x
    ensures M2Bytes(Lzo1x, d, len, k) == [t, x]
  {
  }

  lemma M2CodeY(d: nat, len: nat, k: nat, t: byte, x: byte)
    requires d < 1024 && 3 <= len <= 14 && k <= 3 && (len + 1) * 16 + d % 4 * 4 + k == t && d / 4 == x
    ensures M2Bytes(Lzo1y, d, len, k) == [t, x]
  {
  }

  lemma LongBytes(v: Variant, form: Form, off: nat, len: nat, k: nat)
    requires k <= 3 && len >= 3
    ensures form.M3? && 1 <= off <= 16384 ==>
              && Fits(v, M3, off, len)
              && MatchBytes(v, M3, off, len, k) == LengthCode(32, len, 33) + DistanceBytes(off - 1, k)
    ensures form.M4? && 16384 < off <= 49151 ==>
              && Fits(v, M4, off, len)
              && MatchBytes(v, M4, off, len, k)
                 == LengthCode(if off < 32768 then 16 else 24, len, 9) + DistanceBytes((off - 16384) % 16384, k)
  {
    hide LengthCode, DistanceBytes;
  }

  /** The parts of an M3 code. */
  lemma M3Parts(src: seq<byte>, ip: nat, off: nat, len: nat, at: nat)
    requires ip + 3 <= |src| && 32 <= src[ip] < 64 && TokenM3(src, ip + 1, src[ip]) == Copy(at, off, len)
    ensures 2 <= len && ip + 3 <= at <= |src| && off == 1 + Distance(src, at - 2)
    ensures MatchLength(src, ip + 1, src[ip] as nat % 32, 31) == Length(len - 2, at - 2)
  {
    hide MatchLength, Distance;
  }

  lemma M3There(v: Variant, src: seq<byte>, ip: nat, off: nat, len: nat, at: nat)
    requires ip + 3 <= |src| && 32 <= src[ip] < 64 && TokenM3(src, ip + 1, src[ip]) == Copy(at, off, len)
    ensures Stands(v, src, ip, M3, off, len, at)
  {
    hide MatchLength, LengthCode, DistanceBytes, Distance, TokenM3, MatchBytes;
    M3Parts(src, ip, off, len, at);
    LongBytes(v, M3, off, len, src[at - 2] % 4);
    MatchLengthThere(src, ip, 32, src[ip] % 32, 33, len - 2, at - 2);
    DistanceThere(src, at - 2);
    Glue(src, ip, at - 2, at, src[ip..at - 2], src[at - 2..at]);
  }

  /** The parts of an M4 code. */
  lemma M4Parts(src: seq<byte>, ip: nat, off: nat, len: nat, at: nat)
    requires ip + 3 <= |src| && 16 <= src[ip] < 32 && TokenM4(src, ip + 1, src[ip]) == Copy(at, off, len)
    ensures 2 <= len && ip + 3 <= at <= |src| && src[ip] < 32
    ensures MatchLength(src, ip + 1, src[ip] as nat % 8, 7) == Length(len - 2, at - 2)
    ensures var d := Distance(src, at - 2);
            && 16384 < off <= 49151 && (off - 16384) % 16384 == d
            && src[ip] == (if off < 32768 then 16 else 24) + src[ip] % 8
  {
    hide MatchLength, Distance;
  }

  lemma M4There(v: Variant, src: seq<byte>, ip: nat, off: nat, len: nat, at: nat)
    requires ip + 3 <= |src| && 16 <= src[ip] < 32 && TokenM4(src, ip + 1, src[ip]) == Copy(at, off, len)
    ensures Stands(v, src, ip, M4, off, len, at)
  {
    hide MatchLength, LengthCode, DistanceBytes, Distance, TokenM4, MatchBytes;
    M4Parts(src, ip, off, len, at);
    LongBytes(v, M4, off, len, src[at - 2] % 4);
    MatchLengthThere(src, ip, if off < 32768 then 16 else 24, src[ip] % 8, 9, len - 2, at - 2);
    DistanceThere(src, at - 2);
    Glue(src, ip, at - 2, at, src[ip..at - 2], src[at - 2..at]);
  }

  lemma EofThere(v: Variant, src: seq<byte>, ip: nat, at: nat) returns (e: Ending)
    requires ip + 3 <= |src| && ReadToken(v, src, ip + 1, src[ip]) == Eof(at)
    ensures 3 <= e.len && Countable(e.len - 9) && e.low <= 3 && at <= |src| && src[ip..at] == EofCode(e)
    ensures src[ip] == if e.len <= 9 then 14 + e.len else 16
  {
    hide MatchLength, LengthCode, DistanceBytes;
    var r := MatchLength(src, ip + 1, src[ip] % 8, 7);
    MatchLengthThere(src, ip, 16, src[ip] % 8, 9, r.t, r.ip);
    e := Ending(r.t + 2, src[r.ip] % 4);
    assert src[r.ip] < 4 && src[r.ip + 1] == 0;
    assert src[ip..at] == src[ip..r.ip] + [src[r.ip], src[r.ip + 1]];
  }

  /** The form of the match code that starts with t. */
  function FormOf(t: byte): Form {
    if t >= 64 then M2 else if t >= 32 then M3 else if t >= 16 then M4 else M1
  }

  lemma TokenThere(v: Variant, src: seq<byte>, ip: nat, off: nat, len: nat, at: nat)
    requires ip + 3 <= |src| && ReadToken(v, src, ip + 1, src[ip]) == Copy(at, off, len)
    ensures Stands(v, src, ip, FormOf(src[ip]), off, len, at) && (src[ip] < 16 ==> len == 2)
  {
    hide TokenM2, TokenM3, TokenM4, Stands;
    if src[ip] >= 64 {
      M2There(v, src, ip, off, len, at);
    } else if src[ip] >= 32 {
      M3There(v, src, ip, off, len, at);
    } else if src[ip] >= 16 {
      M4There(v, src, ip, off, len, at);
    } else {
      M1There(v, src, ip, off, len);
    }
  }

  // ---- whole streams ----

  /** Only at the EOF code can the machine stop with OK; elsewhere it goes on. */
  lemma GoesOn(v: Variant, cap: nat, src: seq<byte>, s: State)
    requires Valid(cap, src, s) && !s.at.Match? && Run(v, Plain, cap, src, s).code == Ok
    ensures Step(v, Plain, cap, src, s).Goto?
    ensures Run(v, Plain, cap, src, Step(v, Plain, cap, src, s).next).code == Ok
  {
    hide ReadLength;
    if s.at.LiteralRun? && s.ip + 1 < |src| {
      LengthCodes(src, s.ip + 1, 0, 15, InputOverrun);
    }
  }

  /** The machine goes on behind a match: there are as many literals as its code says, and room for them. */
  lemma BehindThere(v: Variant, cap: nat, src: seq<byte>, at: nat, out: seq<byte>)
    requires 2 <= at <= |src| && |out| <= cap
    requires Run(v, Plain, cap, src, State(AfterMatch(src, at), at, out)).code == Ok
    ensures var k := src[at - 2] % 4; at + k + 3 <= |src| && |out| + k <= cap
  {
    GoesOn(v, cap, src, State(AfterMatch(src, at), at, out));
    hide Run;
  }

  /** A match is read, its copy is possible, and its literals follow. */
  lemma CopyThere(v: Variant, cap: nat, src: seq<byte>, m: Mode, ip: nat, out: seq<byte>, form: Form, off: nat,
                  len: nat, at: nat)
    returns (i: Instr)
    requires Between(cap, src, m, ip, out) && Stands(v, src, ip, form, off, len, at) && !m.Fresh?
    requires form.M1? ==> if len == 2 then m.Few? else m.Many?
    requires 1 <= off <= |out| && |out| + len <= cap
    requires Run(v, Plain, cap, src, State(AfterMatch(src, at), at, CopyMatch(out, off, len))).code == Ok
    ensures IsNext(v, cap, src, m, ip, out, i)
  {
    hide Run, AfterMatch, CopyMatch, Stands, IsNext;
    StandsInside(v, src, ip, form, off, len, at);
    BehindThere(v, cap, src, at, CopyMatch(out, off, len));
    i := Repeat(form, off, len, src[at..at + src[at - 2] % 4]);
    RepeatIsNext(v, cap, src, m, ip, out, i, at);
  }

  lemma StandsInside(v: Variant, src: seq<byte>, ip: nat, form: Form, off: nat, len: nat, at: nat)
    requires Stands(v, src, ip, form, off, len, at)
    ensures 2 <= at <= |src|
  {
  }

  lemma RepeatIsNext(v: Variant, cap: nat, src: seq<byte>, m: Mode, ip: nat, out: seq<byte>, i: Instr, at: nat)
    requires i.Repeat? && Stands(v, src, ip, i.form, i.off, i.len, at) && !m.Fresh?
    requires i.form.M1? ==> if i.len == 2 then m.Few? else m.Many?
    requires at + src[at - 2] % 4 + 3 <= |src| && i.lits == src[at..at + src[at - 2] % 4]
    requires 1 <= i.off <= |out| && |out| + i.len + |i.lits| <= cap
    ensures IsNext(v, cap, src, m, ip, out, i)
  {
    hide CopyMatch, MatchBytes, Fits, Counted;
    Glue(src, ip, at, at + |i.lits|, MatchBytes(v, i.form, i.off, i.len, |i.lits|), i.lits);
  }

  lemma Glue(src: seq<byte>, ip: nat, at: nat, end: nat, a: seq<byte>, b: seq<byte>)
    requires ip <= at <= end <= |src| && src[ip..at] == a && src[at..end] == b
    ensures |a + b| == end - ip && src[ip..ip + |a + b|] == a + b
  {
    Join(src, ip, at, end);
  }

  /** The code of i stands at ip, with three bytes or more behind it, and i can be carried out. */
  predicate IsNext(v: Variant, cap: nat, src: seq<byte>, m: Mode, ip: nat, out: seq<byte>, i: Instr) {
    && Legal(v, m, out, i) && |Produce(out, i)| <= cap
    && ip + |Code(v, m, i)| + 3 <= |src| && src[ip..ip + |Code(v, m, i)|] == Code(v, m, i)
  }

  predicate IsEnd(src: seq<byte>, m: Mode, ip: nat, e: Ending) {
    LegalEnd(m, e) && ip <= |src| && src[ip..] == EofCode(e)
  }

  datatype Next = Instruction(i: Instr) | TheEnd(e: Ending)

  ghost predicate NextIs(v: Variant, cap: nat, src: seq<byte>, m: Mode, ip: nat, out: seq<byte>, next: Next) {
    match next
    case Instruction(i) => IsNext(v, cap, src, m, ip, out, i)
    case TheEnd(e) => IsEnd(src, m, ip, e)
  }

  /** Where a marker is read, a match or the EOF code stands. */
  lemma MarkerThere(v: Variant, cap: nat, src: seq<byte>, m: Mode, ip: nat, out: seq<byte>) returns (next: Next)
    requires Between(cap, src, m, ip, out)
    requires m.Few? || (src[ip] >= 16 && (m.Fresh? ==> src[ip] <= 17))
    requires Run(v, Plain, cap, src, State(Match(src[ip]), ip + 1, out)).code == Ok
    ensures NextIs(v, cap, src, m, ip, out, next)
  {
    hide Run, AfterMatch, CopyMatch, ReadToken, IsNext;
    var s := State(Match(src[ip]), ip + 1, out);
    MatchOutcome(v, cap, src, ip, out);
    match ReadToken(v, src, ip + 1, src[ip]) {
      case Eof(at) =>
        var e := EofThere(v, src, ip, at);
        assert src[ip..] == src[ip..at];
        next := TheEnd(e);
      case Copy(at, off, len) =>
        TokenThere(v, src, ip, off, len, at);
        var i := CopyThere(v, cap, src, m, ip, out, FormOf(src[ip]), off, len, at);
        next := Instruction(i);
    }
  }

  lemma MatchOutcome(v: Variant, cap: nat, src: seq<byte>, ip: nat, out: seq<byte>)
    requires ip + 3 <= |src| && |out| <= cap
    requires Run(v, Plain, cap, src, State(Match(src[ip]), ip + 1, out)).code == Ok
    ensures var r := ReadToken(v, src, ip + 1, src[ip]);
            && !r.Bad? && (r.Eof? ==> r.ip == |src|)
            && (r.Copy? ==>
                  && r.off <= |out| && |out| + r.len <= cap && 2 <= r.ip
                  && Run(v, Plain, cap, src,
                         State(AfterMatch(src, r.ip), r.ip, CopyMatch(out, r.off, r.len))).code == Ok)
  {
    hide ReadToken, CopyMatch, AfterMatch;
    TokenCodes(v, src, ip + 1, src[ip]);
  }

  /** Where a literal run starts, its literals follow. */
  lemma LiteralsThere(v: Variant, cap: nat, src: seq<byte>, m: Mode, ip: nat, out: seq<byte>) returns (i: Instr)
    requires Between(cap, src, m, ip, out) && (m.Fresh? || m.Top?) && src[ip] < 16
    requires Run(v, Plain, cap, src, State(LiteralRun, ip, out)).code == Ok
    ensures IsNext(v, cap, src, m, ip, out, i)
  {
    hide Run, Step, LongLength, CopyLiterals, RunHead, IsNext;
    GoesOn(v, cap, src, State(LiteralRun, ip, out));
    LiteralRunStep(v, Plain, cap, src, State(LiteralRun, ip, out));
    var n, at := RunThere(cap, src, ip, out);
    CopyFits(cap, src, at, out, n);
    i := Literals(src[at..at + n]);
    LiteralsAreNext(v, cap, src, m, ip, out, i, at);
  }

  lemma LiteralsAreNext(v: Variant, cap: nat, src: seq<byte>, m: Mode, ip: nat, out: seq<byte>, i: Instr, at: nat)
    requires i.Literals? && Encodable(v, m, i) && ip <= at && at + |i.lits| + 3 <= |src|
    requires src[ip..at] == RunHead(|i.lits|) && src[at..at + |i.lits|] == i.lits && |out| + |i.lits| <= cap
    ensures IsNext(v, cap, src, m, ip, out, i)
  {
    hide RunHead;
    Glue(src, ip, at, at + |i.lits|, RunHead(|i.lits|), i.lits);
  }

  /** The length of a literal run. */
  lemma RunThere(cap: nat, src: seq<byte>, ip: nat, out: seq<byte>) returns (n: nat, at: nat)
    requires ip + 3 <= |src| && |out| <= cap && src[ip] < 16
    requires StepLiteralRun(cap, src, State(LiteralRun, ip, out)).Goto?
    ensures n >= 4 && Countable(n - 18) && ip < at <= |src| && src[ip..at] == RunHead(n)
    ensures CopyLiterals(cap, src, at, out, n).Goto?
  {
    hide LongLength, ReadLength;
    n, at := src[ip] as nat + 3, ip + 1;
    if src[ip] == 0 {
      var k := LengthThere(src, ip + 1, 0, 15, InputOverrun);
      n, at := k + 18, ip + 1 + |LongLength(k)|;
      assert src[ip..at] == [src[ip]] + src[ip + 1..at];
    } else {
      assert src[ip..at] == [src[ip]];
    }
  }

  lemma CopyFits(cap: nat, src: seq<byte>, ip: nat, out: seq<byte>, n: nat)
    requires ip <= |src| && |out| <= cap && CopyLiterals(cap, src, ip, out, n).Goto?
    ensures |out| + n <= cap && ip + n + 3 <= |src|
  {
  }

  lemma FirstThere(v: Variant, cap: nat, src: seq<byte>) returns (i: Instr)
    requires |src| >= 3 && src[0] > 17 && Run(v, Plain, cap, src, INIT).code == Ok
    ensures IsNext(v, cap, src, Fresh, 0, [], i)
  {
    var t := src[0] as nat - 17;
    GoesOn(v, cap, src, INIT);
    hide Run;
    if t < 4 {
      GoesOn(v, cap, src, State(MatchNext(t), 1, []));
    }
    i := First(src[1..1 + t]);
    assert src[0..1 + t] == [src[0]] + src[1..1 + t];
  }

  lemma NearThere(v: Variant, cap: nat, src: seq<byte>, ip: nat, out: seq<byte>) returns (i: Instr)
    requires Between(cap, src, Many, ip, out) && src[ip] < 16
    requires Run(v, Plain, cap, src, State(FirstLiteralRun, ip, out)).code == Ok
    ensures IsNext(v, cap, src, Many, ip, out, i)
  {
    hide Run, CopyMatch, AfterMatch, IsNext, Stands;
    var off := 1 + v.M2MaxOffset + src[ip] as nat / 4 + src[ip + 1] as nat * 4;
    GoesOn(v, cap, src, State(FirstLiteralRun, ip, out));
    M1There(v, src, ip, off, 3);
    i := CopyThere(v, cap, src, Many, ip, out, M1, off, 3, ip + 2);
  }

  lemma NextThere(v: Variant, cap: nat, src: seq<byte>, m: Mode, ip: nat, out: seq<byte>) returns (next: Next)
    requires Between(cap, src, m, ip, out) && Run(v, Plain, cap, src, Before(m, src, ip, out)).code == Ok
    ensures NextIs(v, cap, src, m, ip, out, next)
  {
    hide Run, Step, IsNext, IsEnd;
    var i: Instr;
    if m.Few? || (src[ip] >= 16 && (m.Fresh? ==> src[ip] <= 17)) {
      ToMarker(v, Plain, cap, src, m, ip, out);
      next := MarkerThere(v, cap, src, m, ip, out);
      return;
    } else if m.Fresh? && src[ip] > 17 {
      i := FirstThere(v, cap, src);
    } else if m.Many? {
      i := NearThere(v, cap, src, ip, out);
    } else {
      if m.Fresh? { FreshTop(v, cap, src); }
      i := LiteralsThere(v, cap, src, m, ip, out);
    }
    next := Instruction(i);
  }

  lemma FreshTop(v: Variant, cap: nat, src: seq<byte>)
    requires |src| >= 3 && src[0] <= 17
    ensures Run(v, Plain, cap, src, INIT) == Run(v, Plain, cap, src, State(LiteralRun, 0, []))
  {
    StepRun(v, Plain, cap, src, INIT, State(LiteralRun, 0, []));
  }

  /** The instructions of an accepted stream. */
  lemma {:induction false} ProgramThere(v: Variant, cap: nat, src: seq<byte>, m: Mode, ip: nat, out: seq<byte>)
    returns (prog: seq<Instr>, e: Ending)
    requires Between(cap, src, m, ip, out) && Run(v, Plain, cap, src, Before(m, src, ip, out)).code == Ok
    ensures LegalAll(v, m, out, prog) && LegalEnd(EndMode(m, prog), e) && |Meaning(v, m, out, prog)| <= cap
    ensures src[ip..] == Codes(v, m, out, prog) + EofCode(e)
    decreases |src| - ip
  {
    hide Run, Code, Produce, EofCode, Legal, Between, LegalEnd, Before;
    var next := NextThere(v, cap, src, m, ip, out);
    match next {
      case TheEnd(e') =>
        prog, e := [], e';
        EndHere(v, cap, src, m, ip, out, e);
      case Instruction(i) =>
        LegalNext(v, cap, src, m, ip, out, i);
        InstrReads(v, Plain, cap, src, m, ip, out, i);
        var at := ip + |Code(v, m, i)|;
        prog, e := ProgramThere(v, cap, src, After(i), at, Produce(out, i));
        assert src[ip..] == src[ip..at] + src[at..];
        OneMore(v, m, out, i, prog);
        prog := [i] + prog;
    }
  }

  lemma EndHere(v: Variant, cap: nat, src: seq<byte>, m: Mode, ip: nat, out: seq<byte>, e: Ending)
    requires IsEnd(src, m, ip, e) && Between(cap, src, m, ip, out)
    ensures LegalAll(v, m, out, []) && LegalEnd(EndMode(m, []), e) && |Meaning(v, m, out, [])| <= cap
    ensures src[ip..] == Codes(v, m, out, []) + EofCode(e)
  {
  }

  lemma LegalNext(v: Variant, cap: nat, src: seq<byte>, m: Mode, ip: nat, out: seq<byte>, i: Instr)
    requires IsNext(v, cap, src, m, ip, out, i)
    ensures Encodable(v, m, i) && Legal(v, m, out, i) && (i.Repeat? ==> 1 <= i.off <= |out|)
  {
  }

  lemma OneMore(v: Variant, m: Mode, out: seq<byte>, i: Instr, prog: seq<Instr>)
    requires Encodable(v, m, i) && Legal(v, m, out, i) && (i.Repeat? ==> 1 <= i.off <= |out|)
    requires LegalAll(v, After(i), Produce(out, i), prog)
    ensures LegalAll(v, m, out, [i] + prog) && EndMode(m, [i] + prog) == EndMode(After(i), prog)
    ensures Meaning(v, m, out, [i] + prog) == Meaning(v, After(i), Produce(out, i), prog)
    ensures Codes(v, m, out, [i] + prog) == Code(v, m, i) + Codes(v, After(i), Produce(out, i), prog)
  {
    hide Produce, Code, Legal;
    var all := [i] + prog;
    assert all[0] == i && all[1..] == prog;
  }

  lemma AcceptedRoom(v: Variant, cap: nat, src: seq<byte>)
    requires Decode(v, Plain, cap, src).code == Ok
    ensures |src| >= 3
  {
    hide Run;
    GoesOn(v, cap, src, INIT);
    var s := Step(v, Plain, cap, src, INIT).next;
    GoesOn(v, cap, src, s);
  }

  /** The decoder accepts exactly the streams of the format that stand for at most cap bytes, with what they stand
      for. */
  lemma AcceptsExactly(v: Variant, cap: nat, src: seq<byte>, out: seq<byte>)
    ensures Decode(v, Plain, cap, src) == Result(Ok, out) <==>
              |out| <= cap
              && exists prog, e :: LegalStream(v, prog, e) && src == StreamOf(v, prog, e)
                                   && out == Meaning(v, Fresh, [], prog)
  {
    hide Run, Codes, EofCode, Meaning, LegalAll, LegalEnd, EndMode;
    if Decode(v, Plain, cap, src).code == Ok {
      AcceptedRoom(v, cap, src);
      var prog, e := ProgramThere(v, cap, src, Fresh, 0, []);
      assert src[0..] == src;
      ProgramReads(v, Plain, cap, prog, e);
      assert LegalStream(v, prog, e) && src == StreamOf(v, prog, e);
    }
    forall prog, e | LegalStream(v, prog, e) && src == StreamOf(v, prog, e) && |Meaning(v, Fresh, [], prog)| <= cap
      ensures Decode(v, Plain, cap, src) == Result(Ok, Meaning(v, Fresh, [], prog))
    {
      ProgramReads(v, Plain, cap, prog, e);
    }
  }

  // ---- the codes that the compressor chooses ----

  /** The form that the compressor takes for a match. */
  function Chosen(v: Variant, off: nat, len: nat): Form {
    if off <= Near(v) && len <= (if v.Lzo1x? then 8 else 14) then M2 else if off <= 16384 then M3 else M4
  }

  /** The compressor's match codes are codes of the format. */
  lemma ChosenCode(v: Variant, off: nat, len: nat)
    requires 1 <= off <= 49151 && len >= 3
    ensures Fits(v, Chosen(v, off, len), off, len)
    ensures MatchCode(v, off, len) == MatchBytes(v, Chosen(v, off, len), off, len, 0)
  {
    hide LengthCode, DistanceCode, DistanceBytes, M2Code, M2Bytes;
    if Chosen(v, off, len).M2? {
      M2Same(v, off, len);
    } else {
      SameDistance(if off > 16384 then off - 16384 else off - 1);
    }
  }

  lemma M2Same(v: Variant, off: nat, len: nat)
    requires 1 <= off <= Near(v) && 3 <= len <= if v.Lzo1x? then 8 else 14
    ensures M2Code(v, off, len) == M2Bytes(v, off - 1, len, 0)
  {
  }

  lemma SameDistance(d: nat)
    requires d < 32768
    ensures DistanceCode(d) == DistanceBytes(d % 16384, 0)
  {
    DistanceLow(d);
    if d >= 16384 {
      var e := d - 16384;
      assert e / 64 == d / 64 - 256;
      DistanceLow(e);
      Modulo(e);
    }
  }

  lemma DistanceLow(d: nat)
    ensures d * 4 % 256 == d % 64 * 4
  {
    var q, r := d / 64, d % 64;
    assert d * 4 == 256 * q + 4 * r;
  }

  lemma Modulo(e: nat)
    requires e < 16384
    ensures (e + 16384) % 16384 == e && (e + 16384) * 4 % 256 == e * 4 % 256
    ensures (e + 16384) / 64 % 256 == e / 64
  {
  }

  /** No other form of the same match has a shorter code. */
  lemma ChosenShortest(v: Variant, off: nat, len: nat, form: Form)
    requires 1 <= off <= 49151 && len >= 4 && Fits(v, form, off, len)
    ensures |MatchCode(v, off, len)| <= |MatchBytes(v, form, off, len, 0)|
  {
    hide LongLength;
  }
}
