// LZO1X and LZO1Y: constants that the compressor and the decoders share.
module Lzo1xFormat {

  /** LZO1Y differs from LZO1X in the layout of the M2 code and in two constants. */
  datatype Variant = Lzo1x | Lzo1y
  {
    const M2MaxLen: nat := if Lzo1x? then 8 else 14
    const M2MaxOffset: nat := if Lzo1x? then 0x800 else 0x400
  }

  const M3_MAX_LEN := 33
  const M3_MAX_OFFSET := 0x4000
  const M4_MAX_LEN := 9
  const M4_MAX_OFFSET := 0xbfff
  const M3_MARKER := 32
  const M4_MARKER := 16

  /** lzo_uint is a 64-bit word; a length counter above RUN_LIMIT fails TEST_IV and TEST_OV. */
  const WORD: nat := 0x1_0000_0000_0000_0000
  const RUN_LIMIT: nat := WORD - 511

  /** The buffer size that callers allocate for the compressed form of n bytes. */
  function WorstCase(n: nat): nat {
    n + n / 16 + 64 + 3
  }
}

// The decoder template as a machine that takes one block of the goto graph per step.
module Lzo1xDecoder {
  import opened Bytes
  import opened Window
  import opened Lzo1xFormat

  datatype Code = Ok | InputOverrun | OutputOverrun | LookbehindOverrun | InputNotConsumed

  /** The safe decoder, and the safe decoder with a preset dictionary. */
  datatype Build = Plain | Preset(dict: seq<byte>)

  /** The label that is about to run. Match and MatchNext carry t. */
  datatype Label = Start | LiteralRun | FirstLiteralRun | Match(t: byte) | MatchNext(n: nat)

  datatype State = State(at: Label, ip: nat, out: seq<byte>)

  datatype Outcome = Goto(next: State) | Halt(code: Code, out: seq<byte>)

  datatype Result = Result(code: Code, out: seq<byte>)

  /** What is true whenever control reaches a label; in particular `match` always has two unread bytes. */
  predicate Valid(cap: nat, src: seq<byte>, s: State) {
    && s.ip <= |src| && |s.out| <= cap
    && match s.at
       case Start => s.ip == 0
       case LiteralRun => true
       case FirstLiteralRun => s.ip + 3 <= |src|
       case Match(_) => 1 <= s.ip && s.ip + 2 <= |src|
       case MatchNext(n) => 1 <= n <= 3
  }

  // ---- run lengths ----

  datatype Length = Length(t: nat, ip: nat) | Cut(code: Code)

  /** The loop that adds 255 per zero byte. `over` is the error of the test on the counter: TEST_IV or TEST_OV. */
  function ReadLength(src: seq<byte>, ip: nat, t: nat, base: nat, over: Code): (r: Length)
    requires ip < |src|
    ensures r.Length? ==> ip < r.ip <= |src| && r.t >= t + base + 1
    decreases |src| - ip
  {
    if src[ip] != 0 then Length(t + base + src[ip], ip + 1)
    else if t + 255 > RUN_LIMIT then Cut(over)
    else if ip + 1 == |src| then Cut(InputOverrun)
    else ReadLength(src, ip + 1, t + 255, base, over)
  }

  // ---- match copies ----

  datatype Copied = Copied(out: seq<byte>) | Refused(code: Code)

  /** Copying len bytes from off bytes back: TEST_LB, NEED_OP and the copy, or NEED_OP and COPY_DICT. */
  function TryCopy(b: Build, cap: nat, out: seq<byte>, off: nat, len: nat): (r: Copied)
    requires off >= 1 && |out| <= cap
    ensures r.Copied? ==> |r.out| == |out| + len <= cap && r.out[..|out|] == out
  {
    match b
    case Plain =>
      if off > |out| then Refused(LookbehindOverrun)
      else if cap - |out| < len then Refused(OutputOverrun)
      else Copied(CopyMatch(out, off, len))
    case Preset(dict) =>
      if cap - |out| < len then Refused(OutputOverrun)
      else if off <= |out| then Copied(CopyMatch(out, off, len))
      else if off - |out| > |dict| then Refused(LookbehindOverrun)
      else Copied(CopyFromDict(dict, out, off - |out|, len))
  }

  /** COPY_DICT_DICT: the match starts back bytes before the end of the dictionary and, when it is longer than that,
      runs on from the first output byte. */
  function CopyFromDict(dict: seq<byte>, out: seq<byte>, back: nat, len: nat): (r: seq<byte>)
    requires 1 <= back <= |dict|
    ensures |r| == |out| + len && r[..|out|] == out
  {
    if len > back then
      var op := out + dict[|dict| - back..];
      CopyMatch(op, |op|, len - back)
    else
      out + dict[|dict| - back..|dict| - back + len]
  }

  // ---- the blocks ----

  /** match_done: the two low bits of the byte before last are the number of literals that follow. */
  function AfterMatch(src: seq<byte>, ip: nat): (r: Label)
    requires 2 <= ip <= |src|
  {
    if src[ip - 2] % 4 == 0 then LiteralRun else MatchNext(src[ip - 2] % 4)
  }

  function FinishMatch(b: Build, cap: nat, src: seq<byte>, ip: nat, out: seq<byte>, off: nat, len: nat): (r: Outcome)
    requires 2 <= ip <= |src| && off >= 1 && |out| <= cap
    ensures r.Goto? ==> r.next.ip == ip && Valid(cap, src, r.next)
  {
    match TryCopy(b, cap, out, off, len)
    case Refused(code) => Halt(code, out)
    case Copied(out') => Goto(State(AfterMatch(src, ip), ip, out'))
  }

  function StepStart(cap: nat, src: seq<byte>, s: State): (r: Outcome)
    requires Valid(cap, src, s) && s.at.Start?
    ensures r.Goto? ==> Valid(cap, src, r.next) && !r.next.at.Start?
  {
    if |src| < 1 then Halt(InputOverrun, s.out)
    else if src[0] > 17 then
      var t := src[0] as nat - 17;
      if t < 4 then Goto(State(MatchNext(t), 1, s.out))
      else if cap - |s.out| < t then Halt(OutputOverrun, s.out)
      else if |src| - 1 < t + 3 then Halt(InputOverrun, s.out)
      else Goto(State(FirstLiteralRun, 1 + t, s.out + src[1..1 + t]))
    else Goto(State(LiteralRun, 0, s.out))
  }

  function StepLiteralRun(cap: nat, src: seq<byte>, s: State): (r: Outcome)
    requires Valid(cap, src, s) && s.at.LiteralRun?
    ensures r.Goto? ==> Valid(cap, src, r.next) && s.ip < r.next.ip
  {
    if |src| - s.ip < 3 then Halt(InputOverrun, s.out)
    else
      var t := src[s.ip];
      if t >= 16 then Goto(State(Match(t), s.ip + 1, s.out))
      else if t == 0 then
        match ReadLength(src, s.ip + 1, 0, 15, InputOverrun)
        case Cut(code) => Halt(code, s.out)
        case Length(n, ip) => CopyLiterals(cap, src, ip, s.out, n + 3)
      else CopyLiterals(cap, src, s.ip + 1, s.out, t as nat + 3)
  }

  function CopyLiterals(cap: nat, src: seq<byte>, ip: nat, out: seq<byte>, n: nat): (r: Outcome)
    requires ip <= |src| && |out| <= cap
    ensures r.Goto? ==> Valid(cap, src, r.next) && r.next.ip == ip + n
  {
    if cap - |out| < n then Halt(OutputOverrun, out)
    else if |src| - ip < n + 3 then Halt(InputOverrun, out)
    else Goto(State(FirstLiteralRun, ip + n, out + src[ip..ip + n]))
  }

  function StepFirstLiteralRun(v: Variant, b: Build, cap: nat, src: seq<byte>, s: State): (r: Outcome)
    requires Valid(cap, src, s) && s.at.FirstLiteralRun?
    ensures r.Goto? ==> Valid(cap, src, r.next) && s.ip < r.next.ip
  {
    var t := src[s.ip];
    if t >= 16 then Goto(State(Match(t), s.ip + 1, s.out))
    else
      var off := 1 + v.M2MaxOffset + t as nat / 4 + src[s.ip + 1] as nat * 4;
      FinishMatch(b, cap, src, s.ip + 2, s.out, off, 3)
  }

  /** The 14-bit distance field of an M3 or M4 code. */
  function Distance(src: seq<byte>, ip: nat): (d: nat)
    requires ip + 2 <= |src|
    ensures d <= 0x3fff
  {
    src[ip] as nat / 4 + src[ip + 1] as nat * 64
  }

  /** The length field of an M3 (base 31) or M4 (base 7) code, then NEED_IP(2) after a long length. */
  function MatchLength(src: seq<byte>, ip: nat, field: nat, base: nat): (r: Length)
    requires ip + 2 <= |src|
    ensures r.Length? ==> ip <= r.ip && r.ip + 2 <= |src| && r.t >= 1
  {
    if field != 0 then Length(field, ip)
    else
      match ReadLength(src, ip, 0, base, OutputOverrun)
      case Cut(code) => Cut(code)
      case Length(t, ip') => if |src| - ip' < 2 then Cut(InputOverrun) else Length(t, ip')
  }

  /** What a match code says: copy len bytes from off bytes back and go on at ip, stop at the EOF code, or an error. */
  datatype Token = Copy(ip: nat, off: nat, len: nat) | Eof(ip: nat) | Bad(code: Code)

  function TokenM2(v: Variant, src: seq<byte>, ip: nat, t: byte): (r: Token)
    requires ip + 2 <= |src| && t >= 64
    ensures r.Copy? && ip < r.ip <= |src| && r.off >= 1
  {
    match v
    case Lzo1x => Copy(ip + 1, 1 + t as nat / 4 % 8 + src[ip] as nat * 8, t as nat / 32 - 1 + 2)
    case Lzo1y => Copy(ip + 1, 1 + t as nat / 4 % 4 + src[ip] as nat * 4, t as nat / 16 - 3 + 2)
  }

  function TokenM3(src: seq<byte>, ip: nat, t: byte): (r: Token)
    requires ip + 2 <= |src| && 32 <= t < 64
    ensures r.Copy? ==> ip < r.ip <= |src| && r.off >= 1
    ensures !r.Eof?
  {
    match MatchLength(src, ip, t as nat % 32, 31)
    case Cut(code) => Bad(code)
    case Length(n, ip') => Copy(ip' + 2, 1 + Distance(src, ip'), n + 2)
  }

  function TokenM4(src: seq<byte>, ip: nat, t: byte): (r: Token)
    requires ip + 2 <= |src| && 16 <= t < 32
    ensures !r.Bad? ==> ip < r.ip <= |src|
    ensures r.Copy? ==> r.off >= 1
  {
    match MatchLength(src, ip, t as nat % 8, 7)
    case Cut(code) => Bad(code)
    case Length(n, ip') =>
      var off := (if t as nat / 8 % 2 == 1 then 0x4000 else 0) + Distance(src, ip');
      if off == 0 then Eof(ip' + 2) else Copy(ip' + 2, off + 0x4000, n + 2)
  }

  function TokenM1(src: seq<byte>, ip: nat, t: byte): (r: Token)
    requires ip + 2 <= |src| && t < 16
    ensures r.Copy? && ip < r.ip <= |src| && r.off >= 1
  {
    Copy(ip + 1, 1 + t as nat / 4 + src[ip] as nat * 4, 2)
  }

  function ReadToken(v: Variant, src: seq<byte>, ip: nat, t: byte): (r: Token)
    requires ip + 2 <= |src|
    ensures !r.Bad? ==> ip < r.ip <= |src|
    ensures r.Copy? ==> r.off >= 1
  {
    if t >= 64 then TokenM2(v, src, ip, t)
    else if t >= 32 then TokenM3(src, ip, t)
    else if t >= 16 then TokenM4(src, ip, t)
    else TokenM1(src, ip, t)
  }

  function StepMatch(v: Variant, b: Build, cap: nat, src: seq<byte>, s: State): (r: Outcome)
    requires Valid(cap, src, s) && s.at.Match?
    ensures r.Goto? ==> Valid(cap, src, r.next) && s.ip < r.next.ip
  {
    match ReadToken(v, src, s.ip, s.at.t)
    case Bad(code) => Halt(code, s.out)
    case Eof(ip) => Halt(if ip == |src| then Ok else InputNotConsumed, s.out)
    case Copy(ip, off, len) => FinishMatch(b, cap, src, ip, s.out, off, len)
  }

  function StepMatchNext(cap: nat, src: seq<byte>, s: State): (r: Outcome)
    requires Valid(cap, src, s) && s.at.MatchNext?
    ensures r.Goto? ==> Valid(cap, src, r.next) && s.ip < r.next.ip
  {
    var n := s.at.n;
    if cap - |s.out| < n then Halt(OutputOverrun, s.out)
    else if |src| - s.ip < n + 3 then Halt(InputOverrun, s.out)
    else Goto(State(Match(src[s.ip + n]), s.ip + n + 1, s.out + src[s.ip..s.ip + n]))
  }

  /** One block. Termination of the decoder: every step other than the first consumes input. */
  function Step(v: Variant, b: Build, cap: nat, src: seq<byte>, s: State): (r: Outcome)
    requires Valid(cap, src, s)
    ensures r.Goto? ==> Valid(cap, src, r.next) && Rank(src, r.next) < Rank(src, s)
  {
    match s.at
    case Start => StepStart(cap, src, s)
    case LiteralRun => StepLiteralRun(cap, src, s)
    case FirstLiteralRun => StepFirstLiteralRun(v, b, cap, src, s)
    case Match(_) => StepMatch(v, b, cap, src, s)
    case MatchNext(_) => StepMatchNext(cap, src, s)
  }

  function Rank(src: seq<byte>, s: State): (r: nat)
    requires s.ip <= |src|
  {
    |src| - s.ip + (if s.at.Start? then 1 else 0)
  }

  function Run(v: Variant, b: Build, cap: nat, src: seq<byte>, s: State): (r: Result)
    requires Valid(cap, src, s)
    decreases Rank(src, s)
  {
    match Step(v, b, cap, src, s)
    case Goto(next) => Run(v, b, cap, src, next)
    case Halt(code, out) => Result(code, out)
  }

  const INIT := State(Start, 0, [])

  /** The whole decoder on in = src with *out_len = cap: the return code and the bytes written. */
  function Decode(v: Variant, b: Build, cap: nat, src: seq<byte>): Result {
    Run(v, b, cap, src, INIT)
  }
}
