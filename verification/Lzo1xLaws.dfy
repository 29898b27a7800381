// Laws of the safe decoder on arbitrary bytes.
module Lzo1xLaws {
  import opened Bytes
  import opened Lzo1xFormat
  import opened Lzo1xDecoder

  /** Output only grows. */
  lemma {:induction false} OutputGrows(v: Variant, b: Build, cap: nat, src: seq<byte>, s: State)
    requires Valid(cap, src, s)
    ensures s.out <= Run(v, b, cap, src, s).out && |Run(v, b, cap, src, s).out| <= cap
    decreases Rank(src, s)
  {
    var r := Step(v, b, cap, src, s);
    StepGrows(v, b, cap, src, s);
    if r.Goto? {
      hide Step;
      OutputGrows(v, b, cap, src, r.next);
    }
  }

  lemma StepGrows(v: Variant, b: Build, cap: nat, src: seq<byte>, s: State)
    requires Valid(cap, src, s)
    ensures var r := Step(v, b, cap, src, s);
            if r.Goto? then s.out <= r.next.out else r.out == s.out
  {
  }

  // ---- input length ----

  lemma {:induction false} ReadLengthExtends(src: seq<byte>, long: seq<byte>, ip: nat, t: nat, base: nat, over: Code)
    requires src <= long && ip < |src|
    ensures var r := ReadLength(src, ip, t, base, over);
            r != Cut(InputOverrun) ==> ReadLength(long, ip, t, base, over) == r
    decreases |src| - ip
  {
    if src[ip] == 0 && t + 255 <= RUN_LIMIT && ip + 1 < |src| {
      ReadLengthExtends(src, long, ip + 1, t + 255, base, over);
    }
  }

  lemma MatchLengthExtends(src: seq<byte>, long: seq<byte>, ip: nat, field: nat, base: nat)
    requires src <= long && ip + 2 <= |src|
    ensures var r := MatchLength(src, ip, field, base);
            r != Cut(InputOverrun) ==> MatchLength(long, ip, field, base) == r
  {
    if field == 0 {
      ReadLengthExtends(src, long, ip, 0, base, OutputOverrun);
    }
  }

  lemma TokenExtends(v: Variant, src: seq<byte>, long: seq<byte>, ip: nat, t: byte)
    requires src <= long && ip + 2 <= |src|
    ensures var r := ReadToken(v, src, ip, t);
            r != Bad(InputOverrun) ==> ReadToken(v, long, ip, t) == r
  {
    hide MatchLength;
    if 32 <= t < 64 {
      MatchLengthExtends(src, long, ip, t as nat % 32, 31);
    } else if 16 <= t < 32 {
      MatchLengthExtends(src, long, ip, t as nat % 8, 7);
    }
  }

  /** What an accepted-so-far input becomes when more bytes follow. */
  function Longer(r: Outcome, longer: bool): Outcome {
    if longer && r.Halt? && r.code == Ok then Halt(InputNotConsumed, r.out) else r
  }

  lemma FinishExtends(b: Build, cap: nat, src: seq<byte>, long: seq<byte>, ip: nat, out: seq<byte>, off: nat, len: nat)
    requires src <= long && 2 <= ip <= |src| && off >= 1 && |out| <= cap
    ensures FinishMatch(b, cap, src, ip, out, off, len) == FinishMatch(b, cap, long, ip, out, off, len)
    ensures FinishMatch(b, cap, src, ip, out, off, len).Halt? ==>
              FinishMatch(b, cap, src, ip, out, off, len).code in {OutputOverrun, LookbehindOverrun}
  {
  }

  lemma LiteralRunExtends(cap: nat, src: seq<byte>, long: seq<byte>, s: State)
    requires src <= long && Valid(cap, src, s) && s.at.LiteralRun?
    ensures var r := StepLiteralRun(cap, src, s);
            !(r.Halt? && r.code == InputOverrun) ==> StepLiteralRun(cap, long, s) == r
    ensures var r := StepLiteralRun(cap, src, s); r.Halt? ==> r.code in {InputOverrun, OutputOverrun}
  {
    hide ReadLength, CopyLiterals;
    if |src| - s.ip >= 3 && src[s.ip] == 0 {
      LengthCodes(src, s.ip + 1, 0, 15, InputOverrun);
      ReadLengthExtends(src, long, s.ip + 1, 0, 15, InputOverrun);
      var l := ReadLength(src, s.ip + 1, 0, 15, InputOverrun);
      if l.Length? {
        LiteralsExtend(cap, src, long, l.ip, s.out, l.t + 3);
      }
    } else if |src| - s.ip >= 3 && src[s.ip] < 16 {
      LiteralsExtend(cap, src, long, s.ip + 1, s.out, src[s.ip] as nat + 3);
    }
  }

  lemma LiteralsExtend(cap: nat, src: seq<byte>, long: seq<byte>, ip: nat, out: seq<byte>, n: nat)
    requires src <= long && ip <= |src| && |out| <= cap
    ensures var r := CopyLiterals(cap, src, ip, out, n);
            !(r.Halt? && r.code == InputOverrun) ==> CopyLiterals(cap, long, ip, out, n) == r
    ensures var r := CopyLiterals(cap, src, ip, out, n); r.Halt? ==> r.code in {InputOverrun, OutputOverrun}
  {
    if |src| - ip >= n + 3 {
      assert src[ip..ip + n] == long[ip..ip + n];
    }
  }

  lemma {:induction false} LengthCodes(src: seq<byte>, ip: nat, t: nat, base: nat, over: Code)
    requires ip < |src|
    ensures var r := ReadLength(src, ip, t, base, over); r.Cut? ==> r.code in {over, InputOverrun}
    decreases |src| - ip
  {
    if src[ip] == 0 && t + 255 <= RUN_LIMIT && ip + 1 < |src| {
      LengthCodes(src, ip + 1, t + 255, base, over);
    }
  }

  lemma StartExtends(cap: nat, src: seq<byte>, long: seq<byte>, s: State)
    requires src <= long && Valid(cap, src, s) && s.at.Start?
    ensures var r := StepStart(cap, src, s);
            && (!(r.Halt? && r.code == InputOverrun) ==> StepStart(cap, long, s) == r)
            && (r.Halt? ==> r.code in {InputOverrun, OutputOverrun})
  {
    var r := StepStart(cap, src, s);
    if r.Goto? && r.next.at.FirstLiteralRun? {
      assert src[1..r.next.ip] == long[1..r.next.ip];
    }
  }

  lemma FirstRunExtends(v: Variant, b: Build, cap: nat, src: seq<byte>, long: seq<byte>, s: State)
    requires src <= long && Valid(cap, src, s) && s.at.FirstLiteralRun?
    ensures var r := StepFirstLiteralRun(v, b, cap, src, s);
            && StepFirstLiteralRun(v, b, cap, long, s) == r
            && (r.Halt? ==> r.code in {OutputOverrun, LookbehindOverrun})
  {
    hide FinishMatch;
    if src[s.ip] < 16 {
      var off := 1 + v.M2MaxOffset + src[s.ip] as nat / 4 + src[s.ip + 1] as nat * 4;
      FinishExtends(b, cap, src, long, s.ip + 2, s.out, off, 3);
    }
  }

  lemma MatchNextExtends(cap: nat, src: seq<byte>, long: seq<byte>, s: State)
    requires src <= long && Valid(cap, src, s) && s.at.MatchNext?
    ensures var r := StepMatchNext(cap, src, s);
            && (!(r.Halt? && r.code == InputOverrun) ==> StepMatchNext(cap, long, s) == r)
            && (r.Halt? ==> r.code in {InputOverrun, OutputOverrun})
  {
    if |src| - s.ip >= s.at.n + 3 {
      assert src[s.ip..s.ip + s.at.n] == long[s.ip..s.ip + s.at.n];
    }
  }

  /** One step that does not run out of input is the same step on every longer input. */
  lemma StepExtends(v: Variant, b: Build, cap: nat, src: seq<byte>, long: seq<byte>, s: State)
    requires src <= long && Valid(cap, src, s)
    ensures var r := Step(v, b, cap, src, s);
            !(r.Halt? && r.code == InputOverrun) ==> Step(v, b, cap, long, s) == Longer(r, |src| < |long|)
  {
    hide StepStart, StepLiteralRun, StepFirstLiteralRun, StepMatch, StepMatchNext;
    match s.at {
      case Start => StartExtends(cap, src, long, s);
      case LiteralRun => LiteralRunExtends(cap, src, long, s);
      case FirstLiteralRun => FirstRunExtends(v, b, cap, src, long, s);
      case Match(_) => MatchStepExtends(v, b, cap, src, long, s);
      case MatchNext(_) => MatchNextExtends(cap, src, long, s);
    }
  }

  lemma MatchStepExtends(v: Variant, b: Build, cap: nat, src: seq<byte>, long: seq<byte>, s: State)
    requires src <= long && Valid(cap, src, s) && s.at.Match?
    ensures var r := StepMatch(v, b, cap, src, s);
            !(r.Halt? && r.code == InputOverrun) ==> StepMatch(v, b, cap, long, s) == Longer(r, |src| < |long|)
  {
    hide ReadToken, FinishMatch;
    TokenExtends(v, src, long, s.ip, s.at.t);
    var token := ReadToken(v, src, s.ip, s.at.t);
    if token.Copy? {
      FinishExtends(b, cap, src, long, token.ip, s.out, token.off, token.len);
    } else if token.Bad? {
      TokenCodes(v, src, s.ip, s.at.t);
    }
  }

  lemma TokenCodes(v: Variant, src: seq<byte>, ip: nat, t: byte)
    requires ip + 2 <= |src|
    ensures var r := ReadToken(v, src, ip, t); r.Bad? ==> r.code in {InputOverrun, OutputOverrun}
  {
    hide ReadLength;
    LengthCodes(src, ip, 0, 31, OutputOverrun);
    LengthCodes(src, ip, 0, 7, OutputOverrun);
  }

  /** A run that does not run out of input is the same on every longer input; only LZO_E_OK becomes
      LZO_E_INPUT_NOT_CONSUMED. */
  lemma {:induction false} RunExtends(v: Variant, b: Build, cap: nat, src: seq<byte>, long: seq<byte>, s: State)
    requires src <= long && Valid(cap, src, s)
    ensures Valid(cap, long, s)
    ensures var r := Run(v, b, cap, src, s);
            r.code != InputOverrun ==>
              Run(v, b, cap, long, s) == Result(if r.code == Ok
                && |src| < |long| then InputNotConsumed else r.code, r.out)
    decreases Rank(src, s)
  {
    StepExtends(v, b, cap, src, long, s);
    hide Step;
    var r := Step(v, b, cap, src, s);
    if r.Goto? {
      RunExtends(v, b, cap, src, long, r.next);
    }
  }

  /** Accepted streams are prefix-free, and trailing bytes are reported without changing the output. */
  lemma AcceptsOneLength(v: Variant, b: Build, cap: nat, src: seq<byte>, p: nat, more: seq<byte>)
    requires Decode(v, b, cap, src).code == Ok
    requires p < |src| && more != []
    ensures Decode(v, b, cap, src[..p]).code == InputOverrun
    ensures Decode(v, b, cap, src + more) == Result(InputNotConsumed, Decode(v, b, cap, src).out)
  {
    hide Run;
    RunExtends(v, b, cap, src[..p], src, INIT);
    RunExtends(v, b, cap, src, src + more, INIT);
  }

  // ---- output capacity ----

  lemma FinishFits(b: Build, cap: nat, cap': nat, src: seq<byte>, ip: nat, out: seq<byte>, off: nat, len: nat)
    requires 2 <= ip <= |src| && off >= 1 && |out| <= cap && |out| <= cap'
    ensures var r, r' := FinishMatch(b, cap, src, ip, out, off, len), FinishMatch(b, cap', src, ip, out, off, len);
            r.Goto? ==> r' == if |r.next.out| <= cap' then r else Halt(OutputOverrun, out)
    ensures var r := FinishMatch(b, cap, src, ip, out, off, len); r.Halt? ==> r.code != Ok && r.code != InputNotConsumed
  {
  }

  /** The outcome under capacity cap' of a step whose outcome under another capacity is r. */
  ghost predicate Fits(r: Outcome, r': Outcome, cap': nat, out: seq<byte>) {
    && (r.Goto? ==> r' == if |r.next.out| <= cap' then r else Halt(OutputOverrun, out))
    && (r.Halt? && (r.code == Ok || r.code == InputNotConsumed) ==> r' == r)
  }

  lemma FirstRunFits(v: Variant, b: Build, cap: nat, cap': nat, src: seq<byte>, s: State)
    requires Valid(cap, src, s) && |s.out| <= cap' && s.at.FirstLiteralRun?
    ensures Fits(StepFirstLiteralRun(v, b, cap, src, s), StepFirstLiteralRun(v, b, cap', src, s), cap', s.out)
  {
    hide FinishMatch;
    if src[s.ip] < 16 {
      var off := 1 + v.M2MaxOffset + src[s.ip] as nat / 4 + src[s.ip + 1] as nat * 4;
      FinishFits(b, cap, cap', src, s.ip + 2, s.out, off, 3);
    }
  }

  lemma MatchFits(v: Variant, b: Build, cap: nat, cap': nat, src: seq<byte>, s: State)
    requires Valid(cap, src, s) && |s.out| <= cap' && s.at.Match?
    ensures Fits(StepMatch(v, b, cap, src, s), StepMatch(v, b, cap', src, s), cap', s.out)
  {
    hide ReadToken, FinishMatch;
    var token := ReadToken(v, src, s.ip, s.at.t);
    if token.Copy? {
      FinishFits(b, cap, cap', src, token.ip, s.out, token.off, token.len);
    } else if token.Bad? {
      TokenCodes(v, src, s.ip, s.at.t);
    }
  }

  /** One step depends on the capacity only through whether what it produces fits. */
  lemma StepFits(v: Variant, b: Build, cap: nat, cap': nat, src: seq<byte>, s: State)
    requires Valid(cap, src, s) && |s.out| <= cap'
    ensures Fits(Step(v, b, cap, src, s), Step(v, b, cap', src, s), cap', s.out)
  {
    hide StepFirstLiteralRun, StepMatch;
    match s.at {
      case FirstLiteralRun => FirstRunFits(v, b, cap, cap', src, s);
      case Match(_) => MatchFits(v, b, cap, cap', src, s);
      case LiteralRun => LiteralRunExtends(cap, src, src, s);
      case _ =>
    }
  }

  lemma {:induction false} RunFits(v: Variant, b: Build, cap: nat, cap': nat, src: seq<byte>, s: State)
    requires Valid(cap, src, s) && |s.out| <= cap'
    requires var code := Run(v, b, cap, src, s).code; code == Ok || code == InputNotConsumed
    ensures var r, r' := Run(v, b, cap, src, s), Run(v, b, cap', src, s);
            if |r.out| <= cap' then r' == r else r'.code == OutputOverrun
    decreases Rank(src, s)
  {
    StepFits(v, b, cap, cap', src, s);
    OutputGrows(v, b, cap, src, s);
    hide Step;
    var r := Step(v, b, cap, src, s);
    if r.Goto? {
      OutputGrows(v, b, cap, src, r.next);
      if |r.next.out| <= cap' {
        RunFits(v, b, cap, cap', src, r.next);
      }
    } else {
      StepGrows(v, b, cap, src, s);
    }
  }

  /** An accepted stream that produces d bytes is accepted, with the same bytes, exactly by the capacities from d on;
      below d the result is LZO_E_OUTPUT_OVERRUN. */
  lemma CapacityExact(v: Variant, b: Build, cap: nat, cap': nat, src: seq<byte>)
    requires Decode(v, b, cap, src).code == Ok
    ensures var d := |Decode(v, b, cap, src).out|;
            if cap' >= d then Decode(v, b, cap', src) == Decode(v, b, cap, src)
            else Decode(v, b, cap', src).code == OutputOverrun
  {
    RunFits(v, b, cap, cap', src, INIT);
  }
}
