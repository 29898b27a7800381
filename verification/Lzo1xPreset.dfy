// Decoding with a preset dictionary.
module Lzo1xPreset {
  import opened Bytes
  import opened Slices
  import opened Window
  import opened Lzo1xFormat
  import opened Lzo1xDecoder

  // ---- the copies ----

  /** A match that starts in the dictionary, and possibly runs on into the output, is the one copy over the single
      window made of the dictionary and the output. */
  lemma CopyFromDictIsWindow(dict: seq<byte>, out: seq<byte>, back: nat, len: nat)
    requires 1 <= back <= |dict|
    ensures CopyMatch(dict + out, |out| + back, len) == dict + CopyFromDict(dict, out, back, len)
  {
    hide CopyMatch;
    var off := |out| + back;
    if len > back {
      var op := out + dict[|dict| - back..];
      CopyMatchSplit(dict + out, off, back, len - back);
      FromDictionary(dict, out, back, back);
      assert dict[|dict| - back..|dict| - back + back] == dict[|dict| - back..];
      CopyMatchShift(dict, op, off, len - back);
    } else {
      FromDictionary(dict, out, back, len);
    }
  }

  lemma FromDictionary(dict: seq<byte>, out: seq<byte>, back: nat, n: nat)
    requires 1 <= back <= |dict| && n <= back
    ensures CopyMatch(dict + out, |out| + back, n) == dict + (out + dict[|dict| - back..|dict| - back + n])
  {
    hide CopyMatch;
    var off := |out| + back;
    CopyMatchChunk(dict + out, off, n);
    assert (dict + out)[|dict + out| - off..|dict + out| - off + n] == dict[|dict| - back..|dict| - back + n];
    assert (dict + out) + dict[|dict| - back..|dict| - back + n]
           == dict + (out + dict[|dict| - back..|dict| - back + n]);
  }

  // ---- the single window ----

  /** The same position of the plain decoder whose output already holds the dictionary. */
  function Windowed(dict: seq<byte>, s: State): State {
    State(s.at, s.ip, dict + s.out)
  }

  /** Equal codes and outputs; only the order of the room test and the look-behind test differs. */
  predicate SameCode(preset: Code, window: Code) {
    preset == window || (preset == OutputOverrun && window == LookbehindOverrun)
  }

  predicate SameOutcome(dict: seq<byte>, preset: Outcome, window: Outcome) {
    if preset.Goto? then window == Goto(Windowed(dict, preset.next))
    else window.Halt? && SameCode(preset.code, window.code) && window.out == dict + preset.out
  }

  lemma FinishWindow(dict: seq<byte>, cap: nat, src: seq<byte>, ip: nat, out: seq<byte>, off: nat, len: nat)
    requires 2 <= ip <= |src| && off >= 1 && |out| <= cap
    ensures SameOutcome(dict, FinishMatch(Preset(dict), cap, src, ip, out, off, len),
                              FinishMatch(Plain, |dict| + cap, src, ip, dict + out, off, len))
  {
    hide CopyFromDict;
    if cap - |out| >= len {
      if off <= |out| {
        CopyMatchShift(dict, out, off, len);
      } else if off - |out| <= |dict| {
        CopyFromDictIsWindow(dict, out, off - |out|, len);
      }
    }
  }

  lemma LiteralsWindow(dict: seq<byte>, cap: nat, src: seq<byte>, ip: nat, out: seq<byte>, n: nat)
    requires ip <= |src| && |out| <= cap
    ensures SameOutcome(dict, CopyLiterals(cap, src, ip, out, n), CopyLiterals(|dict| + cap, src, ip, dict + out, n))
  {
    if |src| - ip >= n + 3 {
      assert (dict + out) + src[ip..ip + n] == dict + (out + src[ip..ip + n]);
    }
  }

  lemma LiteralRunWindow(dict: seq<byte>, cap: nat, src: seq<byte>, s: State)
    requires Valid(cap, src, s) && s.at.LiteralRun?
    ensures SameOutcome(dict, StepLiteralRun(cap, src, s), StepLiteralRun(|dict| + cap, src, Windowed(dict, s)))
  {
    hide CopyLiterals, ReadLength;
    if |src| - s.ip >= 3 && src[s.ip] == 0 {
      var l := ReadLength(src, s.ip + 1, 0, 15, InputOverrun);
      if l.Length? {
        LiteralsWindow(dict, cap, src, l.ip, s.out, l.t + 3);
      }
    } else if |src| - s.ip >= 3 && src[s.ip] < 16 {
      LiteralsWindow(dict, cap, src, s.ip + 1, s.out, src[s.ip] as nat + 3);
    }
  }

  lemma FirstRunWindow(v: Variant, dict: seq<byte>, cap: nat, src: seq<byte>, s: State)
    requires Valid(cap, src, s) && s.at.FirstLiteralRun?
    ensures SameOutcome(dict, StepFirstLiteralRun(v, Preset(dict), cap, src, s),
                              StepFirstLiteralRun(v, Plain, |dict| + cap, src, Windowed(dict, s)))
  {
    hide FinishMatch;
    if src[s.ip] < 16 {
      var off := 1 + v.M2MaxOffset + src[s.ip] as nat / 4 + src[s.ip + 1] as nat * 4;
      FinishWindow(dict, cap, src, s.ip + 2, s.out, off, 3);
    }
  }

  lemma MatchWindow(v: Variant, dict: seq<byte>, cap: nat, src: seq<byte>, s: State)
    requires Valid(cap, src, s) && s.at.Match?
    ensures SameOutcome(dict, StepMatch(v, Preset(dict), cap, src, s),
                              StepMatch(v, Plain, |dict| + cap, src, Windowed(dict, s)))
  {
    hide FinishMatch, ReadToken;
    var token := ReadToken(v, src, s.ip, s.at.t);
    if token.Copy? {
      FinishWindow(dict, cap, src, token.ip, s.out, token.off, token.len);
    }
  }

  lemma StartWindow(dict: seq<byte>, cap: nat, src: seq<byte>, s: State)
    requires Valid(cap, src, s) && s.at.Start?
    ensures SameOutcome(dict, StepStart(cap, src, s), StepStart(|dict| + cap, src, Windowed(dict, s)))
  {
    if |src| >= 1 && 21 <= src[0] && |src| - 1 >= src[0] as nat - 17 + 3 {
      var t := src[0] as nat - 17;
      assert (dict + s.out) + src[1..1 + t] == dict + (s.out + src[1..1 + t]);
    }
  }

  lemma MatchNextWindow(dict: seq<byte>, cap: nat, src: seq<byte>, s: State)
    requires Valid(cap, src, s) && s.at.MatchNext?
    ensures SameOutcome(dict, StepMatchNext(cap, src, s), StepMatchNext(|dict| + cap, src, Windowed(dict, s)))
  {
    var n := s.at.n;
    if |src| - s.ip >= n + 3 {
      assert (dict + s.out) + src[s.ip..s.ip + n] == dict + (s.out + src[s.ip..s.ip + n]);
    }
  }

  lemma StepWindow(v: Variant, dict: seq<byte>, cap: nat, src: seq<byte>, s: State)
    requires Valid(cap, src, s)
    ensures SameOutcome(dict, Step(v, Preset(dict), cap, src, s), Step(v, Plain, |dict| + cap, src, Windowed(dict, s)))
  {
    hide StepStart, StepLiteralRun, StepFirstLiteralRun, StepMatch, StepMatchNext;
    match s.at {
      case Start => StartWindow(dict, cap, src, s);
      case LiteralRun => LiteralRunWindow(dict, cap, src, s);
      case FirstLiteralRun => FirstRunWindow(v, dict, cap, src, s);
      case Match(_) => MatchWindow(v, dict, cap, src, s);
      case MatchNext(_) => MatchNextWindow(dict, cap, src, s);
    }
  }

  /** Decoding with a dictionary is decoding over the single window dict ++ out. */
  lemma {:induction false} PresetIsWindow(v: Variant, dict: seq<byte>, cap: nat, src: seq<byte>, s: State)
    requires Valid(cap, src, s)
    ensures var p, w := Run(v, Preset(dict), cap, src, s), Run(v, Plain, |dict| + cap, src, Windowed(dict, s));
            SameCode(p.code, w.code) && w.out == dict + p.out
    decreases Rank(src, s)
  {
    StepWindow(v, dict, cap, src, s);
    hide Step;
    var r := Step(v, Preset(dict), cap, src, s);
    if r.Goto? {
      PresetIsWindow(v, dict, cap, src, r.next);
    }
  }

  /** An empty dictionary accepts the same streams with the same output as the plain decoder. */
  lemma EmptyDictionary(v: Variant, cap: nat, src: seq<byte>)
    ensures var p, q := Decode(v, Preset([]), cap, src), Decode(v, Plain, cap, src);
            p.out == q.out && SameCode(p.code, q.code)
  {
    assert Windowed([], INIT) == INIT;
    PresetIsWindow(v, [], cap, src, INIT);
  }

  // ---- trimming ----

  /** No match code of the format reaches back further than M4_MAX_OFFSET. */
  lemma OffsetBound(v: Variant, src: seq<byte>, ip: nat, t: byte)
    requires ip + 2 <= |src|
    ensures var r := ReadToken(v, src, ip, t); r.Copy? ==> r.off <= M4_MAX_OFFSET
  {
    hide MatchLength;
  }

  /** The prologue of the dictionary decoder: only the last 0xbfff bytes are kept. */
  function Trim(dict: seq<byte>): seq<byte> {
    if |dict| > M4_MAX_OFFSET then dict[|dict| - M4_MAX_OFFSET..] else dict
  }

  /** The end of the dictionary is the same before and after. */
  lemma TrimSlice(dict: seq<byte>, back: nat, len: nat)
    requires len <= back <= |Trim(dict)|
    ensures var t := Trim(dict); t[|t| - back..|t| - back + len] == dict[|dict| - back..|dict| - back + len]
  {
    if |dict| > M4_MAX_OFFSET {
      var a := |dict| - M4_MAX_OFFSET;
      assert dict[a..|dict|] == dict[a..];
      Sub(dict, a, |dict|, M4_MAX_OFFSET - back, M4_MAX_OFFSET - back + len);
    }
  }

  lemma FinishTrimmed(dict: seq<byte>, cap: nat, src: seq<byte>, ip: nat, out: seq<byte>, off: nat, len: nat)
    requires 2 <= ip <= |src| && 1 <= off <= M4_MAX_OFFSET && |out| <= cap
    ensures FinishMatch(Preset(Trim(dict)), cap, src, ip, out, off, len)
            == FinishMatch(Preset(dict), cap, src, ip, out, off, len)
  {
    hide CopyMatch;
    var trimmed := Trim(dict);
    if off > |out| && off - |out| <= |trimmed| {
      var back := off - |out|;
      TrimSlice(dict, back, back);
      assert trimmed[|trimmed| - back..] == dict[|dict| - back..];
      if len <= back {
        TrimSlice(dict, back, len);
      }
    }
  }

  lemma StepTrimmed(v: Variant, dict: seq<byte>, cap: nat, src: seq<byte>, s: State)
    requires Valid(cap, src, s)
    ensures Step(v, Preset(Trim(dict)), cap, src, s) == Step(v, Preset(dict), cap, src, s)
  {
    hide StepStart, StepLiteralRun, StepMatchNext, FinishMatch, ReadToken;
    if s.at.FirstLiteralRun? && src[s.ip] < 16 {
      var off := 1 + v.M2MaxOffset + src[s.ip] as nat / 4 + src[s.ip + 1] as nat * 4;
      FinishTrimmed(dict, cap, src, s.ip + 2, s.out, off, 3);
    } else if s.at.Match? {
      OffsetBound(v, src, s.ip, s.at.t);
      var token := ReadToken(v, src, s.ip, s.at.t);
      if token.Copy? {
        FinishTrimmed(dict, cap, src, token.ip, s.out, token.off, token.len);
      }
    }
  }

  /** Trimming the dictionary changes nothing, on any input. */
  lemma {:induction false} TrimmedRun(v: Variant, dict: seq<byte>, cap: nat, src: seq<byte>, s: State)
    requires Valid(cap, src, s)
    ensures Run(v, Preset(Trim(dict)), cap, src, s) == Run(v, Preset(dict), cap, src, s)
    decreases Rank(src, s)
  {
    StepTrimmed(v, dict, cap, src, s);
    hide Step;
    var r := Step(v, Preset(dict), cap, src, s);
    if r.Goto? {
      TrimmedRun(v, dict, cap, src, r.next);
    }
  }
}
