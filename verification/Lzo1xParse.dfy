// Every stream of the format is decoded to the bytes it stands for, and the machine never reads ahead of what a
// shared buffer would still hold.
module Lzo1xParse {
  import opened Bytes
  import opened Slices
  import opened Window
  import opened Lzo1xFormat
  import opened Lzo1xDecoder
  import opened Lzo1xStream

  // ---- runs of the machine ----

  /** How many bytes before ip may still be read: ip[-2] has just been read after the copy of a match, and the byte at
      ip - 1 is read once more after the copy when it is the marker of an M2 match. */
  function Behind(at: Label): nat {
    match at
    case LiteralRun => 2
    case MatchNext(_) => 2
    case Match(_) => 1
    case _ => 0
  }

  /** The separation of reader and writer when input position ip lies at buffer index gap + ip and output starts at
      buffer index 0: op never passes ip, nor the bytes before ip that are still read. */
  predicate Clear(s: State, gap: int) {
    |s.out| + Behind(s.at) <= gap + s.ip
  }

  /** From s the machine gets to goal, keeping clear at every state after s. */
  ghost predicate Reaches(v: Variant, b: Build, cap: nat, src: seq<byte>, s: State, goal: State, gap: int)
    requires Valid(cap, src, s)
    decreases Rank(src, s)
  {
    s == goal ||
    match Step(v, b, cap, src, s)
    case Goto(next) => Clear(next, gap) && Reaches(v, b, cap, src, next, goal, gap)
    case Halt(_, _) => false
  }

  /** Every state from s on keeps clear. */
  ghost predicate KeepsClear(v: Variant, b: Build, cap: nat, src: seq<byte>, s: State, gap: int)
    requires Valid(cap, src, s)
    decreases Rank(src, s)
  {
    Clear(s, gap) &&
    match Step(v, b, cap, src, s)
    case Goto(next) => KeepsClear(v, b, cap, src, next, gap)
    case Halt(_, _) => true
  }

  lemma {:induction false} ReachesTrans(v: Variant, b: Build, cap: nat, src: seq<byte>, s: State, mid: State,
                                        goal: State, gap: int)
    requires Valid(cap, src, s) && Reaches(v, b, cap, src, s, mid, gap)
    requires Valid(cap, src, mid) && Reaches(v, b, cap, src, mid, goal, gap)
    ensures Reaches(v, b, cap, src, s, goal, gap)
    decreases Rank(src, s)
  {
    if s != mid {
      ReachesTrans(v, b, cap, src, Step(v, b, cap, src, s).next, mid, goal, gap);
    }
  }

  lemma OneStep(v: Variant, b: Build, cap: nat, src: seq<byte>, s: State, next: State, gap: int)
    requires Valid(cap, src, s) && Step(v, b, cap, src, s) == Goto(next) && Clear(next, gap)
    ensures Valid(cap, src, next) && Reaches(v, b, cap, src, s, next, gap)
  {
    assert Reaches(v, b, cap, src, next, next, gap);
  }

  /** What the machine does from goal it does from s. */
  lemma {:induction false} ReachesRun(v: Variant, b: Build, cap: nat, src: seq<byte>, s: State, goal: State, gap: int)
    requires Valid(cap, src, s) && Reaches(v, b, cap, src, s, goal, gap)
    ensures Valid(cap, src, goal)
    ensures Run(v, b, cap, src, s) == Run(v, b, cap, src, goal)
    ensures Clear(s, gap) && KeepsClear(v, b, cap, src, goal, gap) ==> KeepsClear(v, b, cap, src, s, gap)
    decreases Rank(src, s)
  {
    if s != goal {
      ReachesRun(v, b, cap, src, Step(v, b, cap, src, s).next, goal, gap);
    }
  }

  // ---- reading back the pieces ----

  /** code stands at src[ip..], up to the two low bits of its byte before last. */
  predicate HoldsAt(src: seq<byte>, ip: nat, code: seq<byte>) {
    && |code| >= 2 && ip + |code| <= |src|
    && src[ip..ip + |code| - 2] == code[..|code| - 2]
    && src[ip + |code| - 2] / 4 == code[|code| - 2] / 4
    && src[ip + |code| - 1] == code[|code| - 1]
  }

  /** A first byte and what follows it. */
  lemma HeadAndTail(src: seq<byte>, ip: nat, x: byte, rest: seq<byte>)
    requires ip + 1 + |rest| <= |src| && src[ip..ip + 1 + |rest|] == [x] + rest
    ensures src[ip] == x && src[ip + 1..ip + 1 + |rest|] == rest
  {
    assert src[ip] == src[ip..ip + 1 + |rest|][0];
    assert src[ip + 1..ip + 1 + |rest|] == src[ip..ip + 1 + |rest|][1..];
  }

  lemma {:induction false} ReadLongLength(src: seq<byte>, ip: nat, n: nat, t: nat, base: nat, over: Code)
    requires n >= 1 && t + (n - 1) / 255 * 255 <= RUN_LIMIT
    requires ip + |LongLength(n)| <= |src| && src[ip..ip + |LongLength(n)|] == LongLength(n)
    ensures ReadLength(src, ip, t, base, over) == Length(t + base + n, ip + |LongLength(n)|)
    decreases n
  {
    if n > 255 {
      LongLengthStep(n);
      hide LongLength;
      HeadAndTail(src, ip, 0, LongLength(n - 255));
      ReadLongLength(src, ip + 1, n - 255, t + 255, base, over);
    } else {
      HeadAndTail(src, ip, n, []);
    }
  }

  lemma LongLengthStep(n: nat)
    requires n > 255
    ensures LongLength(n) == [0] + LongLength(n - 255)
  {
  }

  /** The length part of an M3 or M4 code. */
  lemma ReadLengthCode(src: seq<byte>, ip: nat, marker: byte, len: nat, maxLen: nat)
    requires 3 <= len && Countable(len - maxLen) && 2 <= maxLen && marker + maxLen < 258
    requires var code := LengthCode(marker, len, maxLen);
             ip + |code| <= |src| && src[ip..ip + |code|] == code
    ensures len <= maxLen ==> src[ip] == marker + (len - 2) && |LengthCode(marker, len, maxLen)| == 1
    ensures len > maxLen ==>
              && src[ip] == marker && ip + 1 < |src|
              && ReadLength(src, ip + 1, 0, maxLen - 2, OutputOverrun)
                == Length(len - 2, ip + |LengthCode(marker, len, maxLen)|)
  {
    hide ReadLength, LongLength, LengthCode;
    LengthCodeIs(marker, len, maxLen);
    if len <= maxLen {
      HeadAndTail(src, ip, marker + (len - 2), []);
    } else {
      ReadLengthLong(src, ip, marker, len - maxLen, maxLen - 2);
    }
  }

  lemma LengthCodeIs(marker: byte, len: nat, maxLen: nat)
    requires 3 <= len && 2 <= maxLen && marker + maxLen < 258
    ensures len <= maxLen ==> LengthCode(marker, len, maxLen) == [marker + (len - 2)] + []
    ensures len > maxLen ==> LengthCode(marker, len, maxLen) == [marker] + LongLength(len - maxLen)
  {
    hide LongLength;
  }

  lemma ReadLengthLong(src: seq<byte>, ip: nat, marker: byte, n: nat, base: nat)
    requires 1 <= n && Countable(n) && ip + 1 + |LongLength(n)| <= |src|
    requires src[ip..ip + 1 + |LongLength(n)|] == [marker] + LongLength(n)
    ensures src[ip] == marker
    ensures ReadLength(src, ip + 1, 0, base, OutputOverrun) == Length(n + base, ip + 1 + |LongLength(n)|)
  {
    hide ReadLength, LongLength;
    HeadAndTail(src, ip, marker, LongLength(n));
    ReadLongLength(src, ip + 1, n, 0, base, OutputOverrun);
  }

  lemma M2FieldsX(t: nat, d: nat, len: nat)
    requires 3 <= len && t / 4 == (len - 1) * 8 + d % 8
    ensures t >= 64 && t / 4 % 8 == d % 8 && t / 32 == len - 1
  {
    assert t / 32 == t / 4 / 8;
  }

  lemma M2FieldsY(t: nat, d: nat, len: nat)
    requires 3 <= len && t / 4 == (len + 1) * 4 + d % 4
    ensures t >= 64 && t / 4 % 4 == d % 4 && t / 16 == len + 1
  {
    assert t / 16 == t / 4 / 4;
  }

  lemma M2Quarter(v: Variant, off: nat, len: nat)
    requires 1 <= off <= v.M2MaxOffset && 3 <= len <= v.M2MaxLen
    ensures var q := M2Code(v, off, len)[0] as nat / 4;
            q == if v.Lzo1x? then (len - 1) * 8 + (off - 1) % 8 else (len + 1) * 4 + (off - 1) % 4
  {
  }

  lemma M2Fields(v: Variant, t: nat, x: nat, off: nat, len: nat)
    requires 1 <= off <= v.M2MaxOffset && 3 <= len <= v.M2MaxLen
    requires t / 4 == M2Code(v, off, len)[0] / 4 && x == M2Code(v, off, len)[1]
    ensures t >= 64
    ensures v.Lzo1x? ==> 1 + t / 4 % 8 + x * 8 == off && t / 32 - 1 + 2 == len
    ensures v.Lzo1y? ==> 1 + t / 4 % 4 + x * 4 == off && t / 16 - 3 + 2 == len
  {
    M2Quarter(v, off, len);
    match v {
      case Lzo1x => M2FieldsX(t, off - 1, len);
      case Lzo1y => M2FieldsY(t, off - 1, len);
    }
  }

  lemma ReadM2(v: Variant, src: seq<byte>, ip: nat, off: nat, len: nat)
    requires 1 <= off <= v.M2MaxOffset && 3 <= len <= v.M2MaxLen
    requires HoldsAt(src, ip, M2Code(v, off, len)) && ip + 3 <= |src|
    ensures src[ip] >= 64
    ensures TokenM2(v, src, ip + 1, src[ip]) == Copy(ip + 2, off, len)
  {
    M2Fields(v, src[ip], src[ip + 1], off, len);
  }

  /** The two bytes of a 14-bit distance, the first with a literal count patched in. */
  lemma ReadDistance(src: seq<byte>, ip: nat, d: nat)
    requires ip + 2 <= |src|
    requires src[ip] / 4 == DistanceCode(d)[0] / 4 && src[ip + 1] == DistanceCode(d)[1]
    ensures Distance(src, ip) == d % 0x4000
  {
    LowBits(d);
    HighBits(d);
  }

  lemma LowBits(d: nat)
    ensures d * 4 % 256 / 4 == d % 64
  {
    var q, r := d / 64, d % 64;
    assert d * 4 == 256 * q + 4 * r;
  }

  lemma HighBits(d: nat)
    ensures d % 0x4000 == d % 64 + d / 64 % 256 * 64
  {
    var q, r := d / 64, d % 64;
    assert q == 256 * (q / 256) + q % 256;
    assert d == 0x4000 * (q / 256) + (q % 256 * 64 + r);
  }

  /** A code made of a length part and a distance part. */
  lemma SplitCode(src: seq<byte>, ip: nat, lc: seq<byte>, d: nat)
    requires HoldsAt(src, ip, lc + DistanceCode(d))
    ensures src[ip..ip + |lc|] == lc
    ensures Distance(src, ip + |lc|) == d % 0x4000
  {
    var code := lc + DistanceCode(d);
    assert code[..|code| - 2] == lc;
    ReadDistance(src, ip + |lc|, d);
  }

  lemma ReadM3(src: seq<byte>, ip: nat, off: nat, len: nat)
    requires 1 <= off <= M3_MAX_OFFSET && 3 <= len && Countable(len - M3_MAX_LEN)
    requires HoldsAt(src, ip, M3Code(off, len))
    ensures 32 <= src[ip] < 64
    ensures TokenM3(src, ip + 1, src[ip]) == Copy(ip + |M3Code(off, len)|, off, len)
  {
    hide Distance, ReadLength, LengthCode, DistanceCode, HoldsAt;
    HoldsFits(src, ip, M3Code(off, len));
    SplitCode(src, ip, LengthCode(M3_MARKER, len, M3_MAX_LEN), off - 1);
    ReadLengthCode(src, ip, M3_MARKER, len, M3_MAX_LEN);
  }

  lemma HoldsFits(src: seq<byte>, ip: nat, code: seq<byte>)
    requires HoldsAt(src, ip, code)
    ensures ip + |code| <= |src|
  {
  }

  lemma ReadM4(src: seq<byte>, ip: nat, off: nat, len: nat)
    requires M3_MAX_OFFSET < off <= M4_MAX_OFFSET && 3 <= len && Countable(len - M4_MAX_LEN)
    requires HoldsAt(src, ip, M4Code(off, len))
    ensures 16 <= src[ip] < 32
    ensures TokenM4(src, ip + 1, src[ip]) == Copy(ip + |M4Code(off, len)|, off, len)
  {
    hide Distance, ReadLength, LengthCode, DistanceCode, HoldsAt;
    HoldsFits(src, ip, M4Code(off, len));
    var d := off - 0x4000;
    SplitCode(src, ip, LengthCode(M4Marker(off), len, M4_MAX_LEN), d);
    ReadLengthCode(src, ip, M4Marker(off), len, M4_MAX_LEN);
    assert d == (if M4Marker(off) == 24 then 0x4000 else 0) + d % 0x4000;
    assert src[ip] as nat / 8 % 2 == 1 <==> M4Marker(off) == 24;
  }

  /** One match code is read as one match, whatever literal count was patched into it. */
  lemma ReadMatch(v: Variant, src: seq<byte>, ip: nat, off: nat, len: nat)
    requires 1 <= off <= M4_MAX_OFFSET && 3 <= len <= RUN_LIMIT
    requires HoldsAt(src, ip, MatchCode(v, off, len)) && ip + |MatchCode(v, off, len)| + 3 <= |src|
    ensures src[ip] >= 16
    ensures ReadToken(v, src, ip + 1, src[ip]) == Copy(ip + |MatchCode(v, off, len)|, off, len)
  {
    if len <= v.M2MaxLen && off <= v.M2MaxOffset {
      ReadM2(v, src, ip, off, len);
    } else if off <= M3_MAX_OFFSET {
      ReadM3(src, ip, off, len);
    } else {
      ReadM4(src, ip, off, len);
    }
  }

  // ---- one item ----

  /** Where the machine is after reading w: at the top of the loop, or at match_done. */
  function Position(src: seq<byte>, w: seq<byte>): Label
    requires w != [] ==> 2 <= |w| <= |src|
  {
    if w == [] then LiteralRun else AfterMatch(src, |w|)
  }

  /** The literal count that EmitLits leaves in the two low bits of the previous match. */
  function Count(lits: seq<byte>): nat {
    if |lits| <= 3 then |lits| else 0
  }

  /** src starts with w as EmitLits(w, lits) leaves it, then the run. */
  lemma SplitLits(src: seq<byte>, w: seq<byte>, lits: seq<byte>)
    requires w == [] ==> |lits| == 0 || |lits| >= 4
    requires w != [] ==> |w| >= 2 && w[|w| - 2] % 4 == 0
    requires var w1 := EmitLits(w, lits); |w1| <= |src| && src[..|w1|] == w1
    ensures w != [] ==> HoldsAt(src, 0, w) && src[|w| - 2] % 4 == Count(lits)
    ensures var w1 := EmitLits(w, lits); src[|w1| - |lits|..|w1|] == lits
    ensures |lits| >= 4 ==> src[|w|..|w| + |RunHeader(|lits|)|] == RunHeader(|lits|)
  {
    hide RunHeader;
    var w1 := EmitLits(w, lits);
    var w0 := if 1 <= |lits| <= 3 then Patch(w, |lits|) else w;
    var h := if |lits| >= 4 then RunHeader(|lits|) else [];
    assert w1 == w0 + h + lits;
    Parts(src, w0, h, lits);
    if w != [] {
      assert src[..|w| - 2] == w0[..|w| - 2] == w[..|w| - 2];
      assert src[|w| - 2] == w0[|w| - 2] && src[|w| - 1] == w0[|w| - 1];
    }
  }

  /** A run of four or more literals. */
  lemma LongRun(cap: nat, src: seq<byte>, ip: nat, out: seq<byte>, n: nat)
    requires 4 <= n && Countable(n - 18) && |out| + n <= cap
    requires ip + |RunHeader(n)| + n + 3 <= |src| && src[ip..ip + |RunHeader(n)|] == RunHeader(n)
    ensures var at := ip + |RunHeader(n)|;
            StepLiteralRun(cap, src, State(LiteralRun, ip, out))
              == Goto(State(FirstLiteralRun, at + n, out + src[at..at + n]))
    ensures src[ip] <= 15
  {
    hide ReadLength, LongLength;
    if n > 18 {
      HeadAndTail(src, ip, 0, LongLength(n - 18));
      ReadLongLength(src, ip + 1, n - 18, 0, 15, InputOverrun);
    } else {
      HeadAndTail(src, ip, n - 3, []);
    }
  }

  /** The literals are copied and the marker of what follows them is read. */
  lemma LitsReach(v: Variant, b: Build, cap: nat, src: seq<byte>, w: seq<byte>, lits: seq<byte>, out: seq<byte>,
                  gap: int)
    requires w == [] ==> |lits| == 0 || |lits| >= 4
    requires w != [] ==> |w| >= 2 && w[|w| - 2] % 4 == 0
    requires var w1 := EmitLits(w, lits); |w1| + 3 <= |src| && src[..|w1|] == w1 && src[|w1|] >= 16
    requires |out| + |lits| <= cap && |lits| <= RUN_LIMIT
    requires |out| + 2 <= gap + |w|
    ensures var w1 := EmitLits(w, lits);
            && Valid(cap, src, State(Position(src, w), |w|, out))
            && Reaches(v, b, cap, src, State(Position(src, w), |w|, out),
                       State(Match(src[|w1|]), |w1| + 1, out + lits), gap)
  {
    hide RunHeader, Step, Reaches;
    SplitLits(src, w, lits);
    if |lits| == 0 {
      assert out + lits == out;
      NoRunReach(v, b, cap, src, |w|, out, gap);
    } else if |lits| <= 3 {
      ShortRunReach(v, b, cap, src, w, lits, out, gap);
    } else {
      LongRunReach(v, b, cap, src, w, lits, out, gap);
    }
  }

  lemma NoRunReach(v: Variant, b: Build, cap: nat, src: seq<byte>, ip: nat, out: seq<byte>, gap: int)
    requires ip + 3 <= |src| && src[ip] >= 16
    requires |out| <= cap && |out| + 2 <= gap + ip
    ensures Reaches(v, b, cap, src, State(LiteralRun, ip, out), State(Match(src[ip]), ip + 1, out), gap)
  {
    OneStep(v, b, cap, src, State(LiteralRun, ip, out), State(Match(src[ip]), ip + 1, out), gap);
  }

  lemma ShortRunReach(v: Variant, b: Build, cap: nat, src: seq<byte>, w: seq<byte>, lits: seq<byte>, out: seq<byte>,
                      gap: int)
    requires 1 <= |lits| <= 3 && |w| >= 2
    requires |w| + |lits| + 3 <= |src| && src[|w|..|w| + |lits|] == lits
    requires |out| + |lits| <= cap && |out| + 2 <= gap + |w|
    ensures var at := |w| + |lits|;
            Reaches(v, b, cap, src, State(MatchNext(|lits|), |w|, out), State(Match(src[at]), at + 1, out + lits), gap)
  {
    var at := |w| + |lits|;
    OneStep(v, b, cap, src, State(MatchNext(|lits|), |w|, out), State(Match(src[at]), at + 1, out + lits), gap);
  }

  lemma LiteralRunStep(v: Variant, b: Build, cap: nat, src: seq<byte>, s: State)
    requires Valid(cap, src, s) && s.at.LiteralRun?
    ensures Step(v, b, cap, src, s) == StepLiteralRun(cap, src, s)
  {
    hide StepLiteralRun;
  }

  /** After a literal run a byte of 16 or more is the marker of a match. */
  lemma MarkerStep(v: Variant, b: Build, cap: nat, src: seq<byte>, ip: nat, out: seq<byte>)
    requires ip + 3 <= |src| && src[ip] >= 16 && |out| <= cap
    ensures Step(v, b, cap, src, State(FirstLiteralRun, ip, out)) == Goto(State(Match(src[ip]), ip + 1, out))
  {
    hide FinishMatch;
  }

  lemma LongRunReach(v: Variant, b: Build, cap: nat, src: seq<byte>, w: seq<byte>, lits: seq<byte>, out: seq<byte>,
                     gap: int)
    requires 4 <= |lits| <= RUN_LIMIT
    requires var at := |w| + |RunHeader(|lits|)|;
             && at + |lits| + 3 <= |src| && src[|w|..at] == RunHeader(|lits|)
             && src[at..at + |lits|] == lits && src[at + |lits|] >= 16
    requires |out| + |lits| <= cap && |out| + 2 <= gap + |w|
    ensures var at := |w| + |RunHeader(|lits|)| + |lits|;
            Reaches(v, b, cap, src, State(LiteralRun, |w|, out), State(Match(src[at]), at + 1, out + lits), gap)
  {
    var at := |w| + |RunHeader(|lits|)| + |lits|;
    LongRun(cap, src, |w|, out, |lits|);
    var s := State(LiteralRun, |w|, out);
    var mid := State(FirstLiteralRun, at, out + lits);
    LiteralRunStep(v, b, cap, src, s);
    MarkerStep(v, b, cap, src, at, out + lits);
    hide Step, Reaches, RunHeader, StepLiteralRun;
    OneStep(v, b, cap, src, s, mid, gap);
    OneStep(v, b, cap, src, mid, State(Match(src[at]), at + 1, out + lits), gap);
    ReachesTrans(v, b, cap, src, s, mid, State(Match(src[at]), at + 1, out + lits), gap);
  }

  /** From the end of w the machine gets to the end of Emit(w, item), having appended the bytes of the item. */
  lemma ItemReaches(v: Variant, b: Build, cap: nat, src: seq<byte>, w: seq<byte>, item: Item, out: seq<byte>, gap: int)
    requires w == [] ==> |item.lits| >= 4
    requires w != [] ==> |w| >= 2 && w[|w| - 2] % 4 == 0
    requires 1 <= item.off <= M4_MAX_OFFSET && item.len >= 3 && item.off <= |out| + |item.lits|
    requires |out| + |item.lits| + item.len <= cap && |item.lits| + item.len <= RUN_LIMIT
    requires var w2 := Emit(v, w, item); HoldsAt(src, 0, w2) && |w2| + 3 <= |src|
    requires |out| + 2 <= gap + |w|
    requires |out| + |item.lits| + item.len + 2 <= gap + |Emit(v, w, item)|
    ensures w != [] ==> HoldsAt(src, 0, w)
    ensures var w2 := Emit(v, w, item);
            && Valid(cap, src, State(Position(src, w), |w|, out))
            && Reaches(v, b, cap, src, State(Position(src, w), |w|, out),
                       State(Position(src, w2), |w2|, CopyMatch(out + item.lits, item.off, item.len)), gap)
  {
    hide Step, Reaches, Emit, EmitLits, ReadToken, CopyMatch;
    var w1 := EmitLits(w, item.lits);
    var w2 := Emit(v, w, item);
    ReadItem(v, src, w, item);
    LitsReach(v, b, cap, src, w, item.lits, out, gap);
    var mid := State(Match(src[|w1|]), |w1| + 1, out + item.lits);
    MatchReach(v, b, cap, src, mid, |w2|, item.off, item.len, gap);
    ReachesTrans(v, b, cap, src, State(Position(src, w), |w|, out), mid,
                 State(Position(src, w2), |w2|, CopyMatch(out + item.lits, item.off, item.len)), gap);
  }

  lemma ReadItem(v: Variant, src: seq<byte>, w: seq<byte>, item: Item)
    requires w == [] ==> |item.lits| >= 4
    requires w != [] ==> |w| >= 2 && w[|w| - 2] % 4 == 0
    requires 1 <= item.off <= M4_MAX_OFFSET && 3 <= item.len <= RUN_LIMIT
    requires var w2 := Emit(v, w, item); HoldsAt(src, 0, w2) && |w2| + 3 <= |src|
    ensures w != [] ==> HoldsAt(src, 0, w)
    ensures var w1 := EmitLits(w, item.lits);
            && |w1| + 5 <= |src| && src[..|w1|] == w1 && src[|w1|] >= 16
            && ReadToken(v, src, |w1| + 1, src[|w1|]) == Copy(|Emit(v, w, item)|, item.off, item.len)
  {
    hide MatchCode, EmitLits, ReadToken;
    var w1 := EmitLits(w, item.lits);
    var code := MatchCode(v, item.off, item.len);
    HoldsInside(src, w1, code);
    SplitLits(src, w, item.lits);
    ReadMatch(v, src, |w1|, item.off, item.len);
  }

  lemma MatchReach(v: Variant, b: Build, cap: nat, src: seq<byte>, s: State, ip: nat, off: nat, len: nat, gap: int)
    requires Valid(cap, src, s) && s.at.Match?
    requires ReadToken(v, src, s.ip, s.at.t) == Copy(ip, off, len)
    requires off <= |s.out| && |s.out| + len <= cap && |s.out| + len + 2 <= gap + ip
    ensures var goal := State(AfterMatch(src, ip), ip, CopyMatch(s.out, off, len));
            Valid(cap, src, goal) && Reaches(v, b, cap, src, s, goal, gap)
  {
    OneStep(v, b, cap, src, s, State(AfterMatch(src, ip), ip, CopyMatch(s.out, off, len)), gap);
  }

  lemma HoldsInside(src: seq<byte>, w1: seq<byte>, code: seq<byte>)
    requires |code| >= 2 && HoldsAt(src, 0, w1 + code)
    ensures src[..|w1|] == w1 && HoldsAt(src, |w1|, code)
  {
    var w2 := w1 + code;
    assert src[0..|w2| - 2] == w2[..|w2| - 2];
    assert w2[..|w2| - 2] == w1 + code[..|code| - 2];
    assert src[..|w1|] == src[0..|w2| - 2][..|w1|];
    assert src[|w1|..|w2| - 2] == src[0..|w2| - 2][|w1|..];
  }
}
