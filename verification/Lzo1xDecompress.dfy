// The decoder template on arrays: lzo1x_decompress (no tests), lzo1x_decompress_safe and lzo1x_decompress_dict_safe.
// Source and destination may lie in the same array.
module Lzo1xDecompress {
  import opened Bytes
  import opened Slices
  import opened Window
  import opened Memory
  import opened Lzo1xFormat
  import opened Lzo1xDecoder
  import opened Lzo1xParse
  import opened Lzo1xPreset
  import opened Lzo1xLaws

  /** The local variables of the decoder: in, in_len, out, *out_len and the moving ip, op and label. */
  class Decompressor {
    const v: Variant
    const b: Build
    const tests: bool  // LZO_TEST_OVERRUN
    const src: array<byte>
    const inp: nat
    const n: nat
    const dst: array<byte>
    const outp: nat
    const cap: nat
    ghost const input: seq<byte>
    ghost const before: seq<byte>
    ghost const exact: bool
    var at: Label
    var ip: nat
    var op: nat

    /** exact: reader and writer are known to stay apart, so that the pure machine tells what happens. */
    constructor (v: Variant, b: Build, tests: bool, src: array<byte>, inp: nat, n: nat, dst: array<byte>, outp: nat,
                 cap: nat, ghost exact: bool)
      requires inp + n <= src.Length && outp + cap <= dst.Length
      requires !tests ==> b.Plain? && exact
      requires var input := src[inp..inp + n];
               && (exact && src == dst ==> KeepsClear(v, b, cap, input, INIT, inp - outp))
               && (!tests ==> Decode(v, b, cap, input).code in {Ok, InputNotConsumed})
      ensures this.v == v && this.b == b && this.tests == tests && this.exact == exact
      ensures this.src == src && this.inp == inp && this.n == n
      ensures this.dst == dst && this.outp == outp && this.cap == cap
      ensures input == src[inp..inp + n] && before == dst[..]
      ensures Sim(INIT)
    {
      this.v, this.b, this.tests, this.exact := v, b, tests, exact;
      this.src, this.inp, this.n := src, inp, n;
      this.dst, this.outp, this.cap := dst, outp, cap;
      this.input, this.before := src[inp..inp + n], dst[..];
      at, ip, op := Start, 0, 0;
    }

    ghost predicate Fixed() {
      && inp + n <= src.Length && outp + cap <= dst.Length
      && |input| == n && |before| == dst.Length
      && (src == dst ==> input == before[inp..inp + n])
      && (!tests ==> b.Plain? && exact)
    }

    /** What the caller guarantees about the run from s: separation inside a shared buffer, and acceptance where the
        tests are compiled out. */
    ghost predicate Granted(s: State) {
      && Valid(cap, input, s)
      && (exact && src == dst ==> KeepsClear(v, b, cap, input, s, inp - outp))
      && (!tests ==> Run(v, b, cap, input, s).code in {Ok, InputNotConsumed})
    }

    /** Nothing but the output buffer has changed; and if exact, the output so far stands at outp, the rest of the
        array is as before, and input from index k on is still there. */
    ghost predicate Holds(out: seq<byte>, k: nat)
      reads src, dst
    {
      && Fixed() && |out| <= cap && k <= n && Only(before, dst[..], outp, cap)
      && (exact ==> dst[..] == Overlay(before, outp, out) && src[..][inp + k..inp + n] == input[k..])
    }

    /** Nothing but the output buffer has changed; and if exact, the array holds exactly this output. */
    ghost predicate Wrote(out: seq<byte>)
      reads dst
    {
      && Fixed() && |out| <= cap && Only(before, dst[..], outp, cap)
      && (exact ==> dst[..] == Overlay(before, outp, out))
    }

    /** The object is in state s of the machine. */
    ghost predicate Sim(s: State)
      reads this, src, dst
    {
      && Fixed() && Granted(s)
      && at == s.at && ip == s.ip && op == |s.out|
      && Holds(s.out, if s.at.Match? then s.ip - 1 else s.ip)
    }

    /** The state that the fields show. Output bytes matter only to the exact machine. */
    ghost function Now(): (s: State)
      reads this
      ensures s.at == at && s.ip == ip && |s.out| == op
    {
      State(at, ip, seq(op, _ => 0))
    }

    /** A block has been run from s: if exact, it was the step of the machine; in any case the next block may run, and
        less is left to be done. */
    ghost predicate Goes(s: State)
      reads this, src, dst
      requires Valid(cap, input, s)
    {
      if exact then
        var r := Step(v, b, cap, input, s);
        r.Goto? && Sim(r.next)
      else Sim(Now()) && Rank(input, Now()) < Rank(input, s)
    }

    /** The decoder stops in a block that starts in s. */
    ghost predicate Stops(s: State, code: Code)
      reads this, src, dst
      requires Valid(cap, input, s)
    {
      && Wrote(s.out) && op == |s.out|
      && (exact ==> Step(v, b, cap, input, s) == Halt(code, s.out))
    }

    lemma GrantedNext(s: State)
      requires Granted(s) && exact && Step(v, b, cap, input, s).Goto?
      ensures var next := Step(v, b, cap, input, s).next;
              Granted(next) && (src == dst ==> Clear(next, inp - outp))
    {
    }

    /** Without tests, the step does not fail. */
    lemma NoFailure(s: State)
      requires Granted(s) && !tests
      ensures var r := Step(v, b, cap, input, s); r.Halt? ==> r.code in {Ok, InputNotConsumed}
    {
    }

    lemma ReadsInput(out: seq<byte>, k: nat, i: nat)
      requires Holds(out, k) && k <= i < n
      ensures exact ==> src[inp + i] == input[i]
    {
      if exact {
        assert src[inp + i] == src[..][inp + k..inp + n][i - k];
      }
    }

    lemma ReadsInputRange(out: seq<byte>, k: nat, i: nat, j: nat)
      requires exact && Holds(out, k) && k <= i <= j <= n
      ensures src[inp + i..inp + j] == input[i..j]
    {
      Sub(src[..], inp + k, inp + n, i - k, j - k);
      assert input[k..] == input[k..n];
      Sub(input, k, n, i - k, j - k);
      assert src[..][inp + i..inp + j] == src[inp + i..inp + j];
    }

    /** After appending x to the output, the input from k' on is still there. srcWas and dstWas are the contents
        before. */
    lemma HoldsMore(out: seq<byte>, k: nat, x: seq<byte>, k': nat, srcWas: seq<byte>, dstWas: seq<byte>)
      requires Fixed() && |out| + |x| <= cap && k <= k' <= n && |srcWas| == src.Length
      requires Only(before, dstWas, outp, cap) && Only(dstWas, dst[..], outp + |out|, |x|)
      requires exact ==> AppendedTo(out, k, x, k', srcWas, dstWas)
      ensures Holds(out + x, k')
    {
      OnlyThen(before, dstWas, dst[..], outp, cap, outp + |out|, |x|);
      if exact {
        Appends(out, k, x, k', srcWas, dstWas);
      }
    }

    ghost predicate AppendedTo(out: seq<byte>, k: nat, x: seq<byte>, k': nat, srcWas: seq<byte>, dstWas: seq<byte>)
      reads src, dst
      requires Fixed() && |out| + |x| <= cap && k <= k' <= n && |srcWas| == src.Length
    {
      && dstWas == Overlay(before, outp, out)
      && srcWas[inp + k..inp + n] == input[k..]
      && dst[..] == Overlay(dstWas, outp + |out|, x)
      && (if src == dst then outp + |out| + |x| <= inp + k' else src[..] == srcWas)
    }

    lemma Appends(out: seq<byte>, k: nat, x: seq<byte>, k': nat, srcWas: seq<byte>, dstWas: seq<byte>)
      requires Fixed() && |out| + |x| <= cap && k <= k' <= n && |srcWas| == src.Length
      requires AppendedTo(out, k, x, k', srcWas, dstWas)
      ensures dst[..] == Overlay(before, outp, out + x) && src[..][inp + k'..inp + n] == input[k'..]
    {
      hide Overlay;
      OverlayNext(before, outp, out, x);
      assert input[k..] == input[k..n] && input[k'..] == input[k'..n];
      if src == dst {
        OverlayBehind(before, outp, out + x, inp + k', inp + n);
        Sub(before, inp, inp + n, k', n);
      } else {
        Sub(src[..], inp + k, inp + n, k' - k, n - k);
        Sub(input, k, n, k' - k, n - k);
      }
    }

    lemma HoldsLater(out: seq<byte>, k: nat, k': nat)
      requires Holds(out, k) && k <= k' <= n
      ensures Holds(out, k')
    {
      if exact {
        assert input[k..] == input[k..n] && input[k'..] == input[k'..n];
        Sub(src[..], inp + k, inp + n, k' - k, n - k);
        Sub(input, k, n, k' - k, n - k);
      }
    }

    /** Copies t literals; wide is the form with eight-byte blocks. */
    method Literals(t: nat, wide: bool, ghost out: seq<byte>)
      requires Holds(out, ip) && op == |out| && ip + t <= n && |out| + t <= cap
      requires exact && src == dst ==> outp + op <= inp + ip
      modifies this`ip, this`op, dst
      ensures ip == old(ip) + t && op == old(op) + t
      ensures Holds(out + input[old(ip)..ip], ip)
    {
      hide Overlay, Only;
      if exact { ReadsInputRange(out, ip, ip, ip + t); }
      ghost var srcWas, dstWas := src[..], dst[..];
      if wide {
        CopyBlocks(src, inp + ip, dst, outp + op, t);
      } else {
        CopyBytes(src, inp + ip, dst, outp + op, t);
      }
      HoldsMore(out, ip, input[ip..ip + t], ip + t, srcWas, dstWas);
      ip, op := ip + t, op + t;
    }

    // ---- the blocks; each takes the step of the machine from s ----

    method AtStart(ghost s: State) returns (stop: bool, code: Code)
      requires Sim(s) && s.at.Start?
      modifies this`at, this`ip, this`op, dst
      ensures if stop then Stops(s, code) else Goes(s)
    {
      hide Run, KeepsClear;
      if !tests { NoFailure(s); }
      stop, code := true, InputOverrun;
      if tests && n < 1 { return; }
      ReadsInput(s.out, 0, 0);
      var t := src[inp] as int - 17;
      if t > 0 {
        if t < 4 {
          ip, at := 1, MatchNext(t);
          HoldsLater(s.out, 0, 1);
        } else {
          if tests && cap - op < t { code := OutputOverrun; return; }
          if tests && n - 1 < t + 3 { return; }
          if exact { GrantedNext(s); }
          HoldsLater(s.out, 0, 1);
          ip := 1;
          Literals(t, false, s.out);
          at := FirstLiteralRun;
        }
      } else {
        at := LiteralRun;
      }
      stop := false;
      if exact { GrantedNext(s); }
    }

    method AtMatchNext(ghost s: State) returns (stop: bool, code: Code)
      requires Sim(s) && s.at.MatchNext?
      modifies this`at, this`ip, this`op, dst
      ensures if stop then Stops(s, code) else Goes(s)
    {
      hide Run, KeepsClear, Goes, Overlay, Only;
      if !tests { NoFailure(s); }
      stop, code := true, InputOverrun;
      var t := at.n;
      if tests && cap - op < t { code := OutputOverrun; return; }
      if tests && n - ip < t + 3 { return; }
      if exact { GrantedNext(s); }
      Literals(t, false, s.out);
      ReadMarker(s, s.out + input[s.ip..ip]);
      stop := false;
    }

    /** `t = *ip++` before `match` */
    method ReadMarker(ghost s: State, ghost out: seq<byte>)
      requires Granted(s) && ip + 3 <= n && op == |out| && Holds(out, ip) && s.ip < ip && !s.at.Start?
      requires exact ==> Step(v, b, cap, input, s) == Goto(State(Match(input[ip]), ip + 1, out))
      modifies this`at, this`ip
      ensures Goes(s)
    {
      hide Step, Run, KeepsClear, Overlay, Only;
      if exact { GrantedNext(s); }
      ReadsInput(out, ip, ip);
      at := Match(src[inp + ip]);
      ip := ip + 1;
    }

    /** `while (*ip == 0) { t += 255; ip++; ... } t += base + *ip++` */
    method ReadRun(base: nat, over: Code, ghost out: seq<byte>, ghost k: nat) returns (stop: bool, code: Code, t: nat)
      requires Holds(out, k) && k <= ip < n
      requires !tests ==> ReadLength(input, ip, 0, base, over).Length?
      modifies this`ip
      ensures exact ==> var r := ReadLength(input, old(ip), 0, base, over);
                        if stop then r == Cut(code) else r == Length(t, ip)
      ensures old(ip) <= ip <= n && (!stop ==> old(ip) < ip)
    {
      stop, code, t := true, InputOverrun, 0;
      ReadsInput(out, k, ip);
      while src[inp + ip] == 0
        invariant k <= old(ip) <= ip < n && (exact ==> src[inp + ip] == input[ip])
        invariant exact ==> ReadLength(input, old(ip), 0, base, over) == ReadLength(input, ip, t, base, over)
        decreases n - ip
      {
        t, ip := t + 255, ip + 1;
        if tests && t > RUN_LIMIT { code := over; return; }
        if tests && n - ip < 1 { return; }
        ReadsInput(out, k, ip);
      }
      t := t + base + src[inp + ip] as nat;
      ip := ip + 1;
      stop := false;
    }

    method AtLiteralRun(ghost s: State) returns (stop: bool, code: Code)
      requires Sim(s) && s.at.LiteralRun?
      modifies this`at, this`ip, this`op, dst
      ensures if stop then Stops(s, code) else Goes(s)
    {
      hide Run, KeepsClear, Overlay, ReadLength;
      if !tests { NoFailure(s); }
      stop, code := true, InputOverrun;
      if tests && n - ip < 3 { return; }
      ReadsInput(s.out, ip, ip);
      var t := src[inp + ip] as nat;
      ip := ip + 1;
      if t >= 16 {
        at := Match(t);
        stop := false;
        if exact { GrantedNext(s); }
        return;
      }
      if t == 0 {
        LengthCodes(input, ip, 0, 15, InputOverrun);
        stop, code, t := ReadRun(15, InputOverrun, s.out, s.ip);
        if stop { return; }
      }
      stop, code := CopyRun(t, s);
    }

    /** The tests and the copy of t + 3 literals. */
    method CopyRun(t: nat, ghost s: State) returns (stop: bool, code: Code)
      requires Fixed() && Granted(s) && Holds(s.out, s.ip) && op == |s.out| && s.ip < ip <= n && !s.at.Start?
      requires exact ==> Step(v, b, cap, input, s) == CopyLiterals(cap, input, ip, s.out, t + 3)
      modifies this`at, this`ip, this`op, dst
      ensures if stop then Stops(s, code) else Goes(s)
    {
      hide Step, Run, KeepsClear, Overlay;
      if !tests { NoFailure(s); }
      stop, code := true, InputOverrun;
      if tests && cap - op < t + 3 { code := OutputOverrun; return; }
      if tests && n - ip < t + 6 { return; }
      if exact { GrantedNext(s); }
      HoldsLater(s.out, s.ip, ip);
      Literals(t + 3, true, s.out);
      at := FirstLiteralRun;
      stop := false;
    }

    // ---- matches ----

    /** What a match copy over the whole array appends is what it appends to the output alone. */
    lemma MatchInOutput(out: seq<byte>, off: nat, len: nat)
      requires Fixed() && outp + |out| <= |before| && 1 <= off <= |out|
      ensures var pre := Overlay(before, outp, out)[..outp + |out|];
              off <= |pre| && MatchBytes(pre, off, len) == MatchBytes(out, off, len)
    {
      OverlayPrefix(before, outp, out);
      InWindow(before[..outp], out, off, len);
    }

    /** The copy of the decoders without a dictionary. `wide` allows the form in blocks of eight. */
    method CopyMatchTo(off: nat, len: nat, wide: bool, ghost out: seq<byte>)
      requires Wrote(out) && op == |out| && 1 <= off <= op && outp + op + len <= dst.Length
      modifies dst
      ensures Fixed() && Only(old(dst[..]), dst[..], outp + op, len)
      ensures exact ==> dst[..] == Overlay(old(dst[..]), outp + op, MatchBytes(out, off, len))
    {
      hide Overlay, MatchBytes, Only;
      MatchInOutput(out, off, len);
      assert dst[..outp + op] == dst[..][..outp + op];
      OverlayOnly(dst[..], outp + op, MatchBytes(dst[..outp + op], off, len));
      if wide && off >= 8 {
        CopyMatchBlocks(dst, outp + op, off, len);
      } else {
        CopyMatchBytes(dst, outp + op, off, len);
      }
    }

    /** COPY_DICT with a match inside the output. */
    method CopyDict(off: nat, len: nat, ghost out: seq<byte>)
      requires Wrote(out) && op == |out| && 1 <= off <= op && outp + op + len <= dst.Length
      modifies dst
      ensures Fixed() && Only(old(dst[..]), dst[..], outp + op, len)
      ensures exact ==> dst[..] == Overlay(old(dst[..]), outp + op, MatchBytes(out, off, len))
    {
      hide Overlay, MatchBytes, Only;
      MatchInOutput(out, off, len);
      assert dst[..outp + op] == dst[..][..outp + op];
      OverlayOnly(dst[..], outp + op, MatchBytes(dst[..outp + op], off, len));
      if off >= len {
        CopyMatchWhole(dst, outp + op, off, len);
      } else {
        CopyMatchBytes(dst, outp + op, off, len);
      }
    }

    lemma DictionaryParts(dict: seq<byte>, out: seq<byte>, back: nat, len: nat)
      requires 1 <= back <= |dict|
      ensures var part, x := dict[|dict| - back..], CopyFromDict(dict, out, back, len)[|out|..];
              if len > back then x == part + MatchBytes(out + part, |out| + back, len - back)
              else x == dict[|dict| - back..|dict| - back + len]
    {
      hide CopyMatch;
      if len > back {
        var part := dict[|dict| - back..];
        assert CopyFromDict(dict, out, back, len) == (out + part) + MatchBytes(out + part, |out| + back, len - back);
      }
    }

    /** COPY_DICT_DICT: the match starts in the dictionary. */
    method CopyDictDict(dict: seq<byte>, back: nat, len: nat, ghost out: seq<byte>)
      requires Wrote(out) && op == |out| && 1 <= back <= |dict| && outp + op + len <= dst.Length
      modifies dst
      ensures Fixed() && Only(old(dst[..]), dst[..], outp + op, len)
      ensures exact ==> dst[..] == Overlay(old(dst[..]), outp + op, CopyFromDict(dict, out, back, len)[|out|..])
    {
      hide Overlay, MatchBytes, CopyFromDict, Only;
      DictionaryParts(dict, out, back, len);
      if len > back {
        CopyAcross(dict[|dict| - back..], len, out);
      } else {
        OverlayOnly(dst[..], outp + op, dict[|dict| - back..|dict| - back + len]);
        StoreBytes(dst, outp + op, dict[|dict| - back..|dict| - back + len]);
      }
    }

    /** The end of the dictionary, then the match runs on from the first output byte. */
    method CopyAcross(part: seq<byte>, len: nat, ghost out: seq<byte>)
      requires Wrote(out) && op == |out| && 1 <= |part| < len && outp + op + len <= dst.Length
      modifies dst
      ensures Fixed() && Only(old(dst[..]), dst[..], outp + op, len)
      ensures exact ==> dst[..] == Overlay(old(dst[..]), outp + op,
                                           part + MatchBytes(out + part, |out| + |part|, len - |part|))
    {
      hide Overlay, MatchBytes, Only;
      ghost var dstWas, mid := dst[..], out + part;
      var m := outp + op + |part|;
      StoreBytes(dst, outp + op, part);
      OverlayNext(before, outp, out, part);
      MatchInOutput(mid, |mid|, len - |part|);
      assert dst[..m] == dst[..][..m];
      ghost var y := MatchBytes(dst[..m], |mid|, len - |part|);
      CopyMatchBytes(dst, m, op + |part|, len - |part|);
      OverlayNext(dstWas, outp + op, part, y);
      OverlayOnly(dstWas, outp + op, part + y);
    }

    /** What a successful copy appends. */
    ghost function Appended(out: seq<byte>, off: nat, len: nat): (x: seq<byte>)
      requires off >= 1 && |out| <= cap && TryCopy(b, cap, out, off, len).Copied?
      ensures out + x == TryCopy(b, cap, out, off, len).out && |x| == len
    {
      TryCopy(b, cap, out, off, len).out[|out|..]
    }

    /** TEST_LB, NEED_OP and the copy, or NEED_OP and COPY_DICT. */
    method TestAndCopy(off: nat, len: nat, wide: bool, ghost out: seq<byte>) returns (refused: bool, code: Code)
      requires Wrote(out) && op == |out| && off >= 1
      requires !tests ==> TryCopy(b, cap, out, off, len).Copied?
      modifies dst
      ensures Fixed() && (refused ==> dst[..] == old(dst[..]))
      ensures !refused ==> op + len <= cap && Only(old(dst[..]), dst[..], outp + op, len)
      ensures exact ==> var r := TryCopy(b, cap, out, off, len);
                        if refused then r == Refused(code)
                        else r.Copied? && dst[..] == Overlay(old(dst[..]), outp + op, Appended(out, off, len))
    {
      hide Overlay, MatchBytes, CopyMatch, CopyFromDict, Only;
      refused, code := true, LookbehindOverrun;
      match b {
        case Plain =>
          if tests && off > op { return; }
          if tests && cap - op < len { code := OutputOverrun; return; }
          CopyMatchTo(off, len, wide, out);
        case Preset(dict) =>
          if cap - op < len { code := OutputOverrun; return; }
          if off <= op {
            CopyDict(off, len, out);
          } else {
            if off - op > |dict| { return; }
            CopyDictDict(dict, off - op, len, out);
          }
      }
      refused := false;
      if exact { AppendedIs(out, off, len); }
    }

    lemma AppendedIs(out: seq<byte>, off: nat, len: nat)
      requires off >= 1 && |out| <= cap && TryCopy(b, cap, out, off, len).Copied?
      ensures off <= |out| ==> Appended(out, off, len) == MatchBytes(out, off, len)
      ensures off > |out| ==> b.Preset? && off - |out| <= |b.dict|
                              && Appended(out, off, len) == CopyFromDict(b.dict, out, off - |out|, len)[|out|..]
    {
      hide CopyMatch, CopyFromDict;
    }

    /** Without tests, the copy is never refused. */
    lemma NeverRefused(s: State, ip': nat, off: nat, len: nat)
      requires Fixed() && Granted(s) && !tests && 2 <= ip' <= n && off >= 1
      requires Step(v, b, cap, input, s) == FinishMatch(b, cap, input, ip', s.out, off, len)
      ensures TryCopy(b, cap, s.out, off, len).Copied?
    {
      hide Step, Run, KeepsClear, CopyMatch;
      NoFailure(s);
    }

    /** The copy, then match_done. */
    method FinishMatchAt(off: nat, len: nat, wide: bool, ghost s: State)
      returns (stop: bool, code: Code)
      requires Fixed() && Granted(s) && op == |s.out| && 2 <= ip <= n && off >= 1 && Holds(s.out, ip - 2)
      requires s.ip < ip && !s.at.Start?
      requires exact ==> Step(v, b, cap, input, s) == FinishMatch(b, cap, input, ip, s.out, off, len)
      modifies this`at, this`op, dst
      ensures if stop then Stops(s, code) else Goes(s)
    {
      hide Step, Run, KeepsClear, Overlay, TryCopy, Only, Goes;
      if !tests { NeverRefused(s, ip, off, len); }
      ghost var srcWas, dstWas := src[..], dst[..];
      stop, code := TestAndCopy(off, len, wide, s.out);
      if stop { return; }
      ghost var x := if exact then Appended(s.out, off, len) else seq(len, _ => 0);
      if exact { GrantedNext(s); }
      HoldsMore(s.out, ip - 2, x, ip - 2, srcWas, dstWas);
      op := op + len;
      MatchDone(s, s.out + x);
    }

    /** match_done: `t = ip[-2] & 3` */
    method MatchDone(ghost s: State, ghost out: seq<byte>)
      requires Granted(s) && 2 <= ip <= n && op == |out| && Holds(out, ip - 2) && s.ip < ip && !s.at.Start?
      requires exact ==> Step(v, b, cap, input, s) == Goto(State(AfterMatch(input, ip), ip, out))
      modifies this`at
      ensures Goes(s)
    {
      hide Step, Run, KeepsClear, Overlay, Only;
      if exact { GrantedNext(s); }
      ReadsInput(out, ip - 2, ip - 2);
      HoldsLater(out, ip - 2, ip);
      var t := src[inp + ip - 2] as nat % 4;
      at := if t == 0 then LiteralRun else MatchNext(t);
    }

    method AtFirstLiteralRun(ghost s: State) returns (stop: bool, code: Code)
      requires Sim(s) && s.at.FirstLiteralRun?
      modifies this`at, this`ip, this`op, dst
      ensures if stop then Stops(s, code) else Goes(s)
    {
      hide Run, KeepsClear, Overlay, FinishMatch;
      ReadsInput(s.out, ip, ip);
      var t := src[inp + ip] as nat;
      ip := ip + 1;
      if t >= 16 {
        at := Match(t);
        stop, code := false, Ok;
        if exact { GrantedNext(s); }
      } else {
        ReadsInput(s.out, s.ip, ip);
        var off := 1 + v.M2MaxOffset + t / 4 + src[inp + ip] as nat * 4;
        ip := ip + 1;
        stop, code := FinishMatchAt(off, 3, false, s);
      }
    }

    /** The length field of an M3 or M4 code. */
    method ReadMatchLength(field: nat, base: nat, ghost s: State) returns (stop: bool, code: Code, t: nat)
      requires Holds(s.out, s.ip) && ip == s.ip && ip + 2 <= n
      requires !tests ==> MatchLength(input, ip, field, base).Length?
      modifies this`ip
      ensures exact ==> var r := MatchLength(input, old(ip), field, base);
                        if stop then r == Cut(code) else r == Length(t, ip)
      ensures s.ip <= ip && (!stop ==> ip + 2 <= n)
    {
      hide ReadLength;
      stop, code, t := false, Ok, field;
      if t == 0 {
        stop, code, t := ReadRun(base, OutputOverrun, s.out, s.ip);
        if !stop && tests && n - ip < 2 { stop, code := true, InputOverrun; }
      }
    }

    method ReadDistance(ghost s: State) returns (d: nat)
      requires Holds(s.out, s.ip) && s.ip <= ip && ip + 2 <= n
      modifies this`ip
      ensures ip == old(ip) + 2 && (exact ==> d == Distance(input, old(ip)))
    {
      ReadsInput(s.out, s.ip, ip);
      ReadsInput(s.out, s.ip, ip + 1);
      d := src[inp + ip] as nat / 4 + src[inp + ip + 1] as nat * 64;
      ip := ip + 2;
    }

    /** Without tests the token at s is not an error. */
    lemma NoBadToken(s: State)
      requires Granted(s) && !tests && s.at.Match?
      ensures !ReadToken(v, input, s.ip, s.at.t).Bad?
    {
      hide ReadToken;
      NoFailure(s);
      TokenCodes(v, input, s.ip, s.at.t);
    }

    /** Goes on with a token that has been read. */
    method TakeCopy(off: nat, len: nat, wide: bool, ghost s: State) returns (stop: bool, code: Code)
      requires Fixed() && Granted(s) && s.at.Match? && op == |s.out| && Holds(s.out, s.ip - 1) && s.ip < ip <= n
      requires off >= 1 && (exact ==> ReadToken(v, input, s.ip, s.at.t) == Copy(ip, off, len))
      modifies this`at, this`op, dst
      ensures if stop then Stops(s, code) else Goes(s)
    {
      hide ReadToken, FinishMatch, Run, KeepsClear, Overlay;
      HoldsLater(s.out, s.ip - 1, ip - 2);
      stop, code := FinishMatchAt(off, len, wide, s);
    }

    method AtM2(ghost s: State) returns (stop: bool, code: Code)
      requires Sim(s) && s.at.Match? && s.at.t >= 64
      modifies this`at, this`ip, this`op, dst
      ensures if stop then Stops(s, code) else Goes(s)
    {
      hide Step, Run, KeepsClear, Overlay;
      var t := at.t as nat;
      ReadsInput(s.out, ip - 1, ip);
      var x := src[inp + ip] as nat;
      ip := ip + 1;
      match v {
        case Lzo1x => stop, code := TakeCopy(1 + t / 4 % 8 + x * 8, t / 32 - 1 + 2, false, s);
        case Lzo1y => stop, code := TakeCopy(1 + t / 4 % 4 + x * 4, t / 16 - 3 + 2, false, s);
      }
    }

    method AtM3(ghost s: State) returns (stop: bool, code: Code)
      requires Sim(s) && s.at.Match? && 32 <= s.at.t < 64
      modifies this`at, this`ip, this`op, dst
      ensures if stop then Stops(s, code) else Goes(s)
    {
      hide FinishMatch, Run, KeepsClear, Overlay, MatchLength, Distance;
      HoldsLater(s.out, ip - 1, ip);
      if !tests { NoBadToken(s); }
      var t;
      stop, code, t := ReadMatchLength(at.t as nat % 32, 31, s);
      if stop { return; }
      var d := ReadDistance(s);
      stop, code := TakeCopy(1 + d, t + 2, true, s);
    }

    method AtM4(ghost s: State) returns (stop: bool, code: Code)
      requires Sim(s) && s.at.Match? && 16 <= s.at.t < 32
      modifies this`at, this`ip, this`op, dst
      ensures if stop then Stops(s, code) else Goes(s)
    {
      hide FinishMatch, Run, KeepsClear, Overlay, MatchLength, Distance;
      HoldsLater(s.out, ip - 1, ip);
      if !tests { NoBadToken(s); }
      var off := if at.t as nat / 8 % 2 == 1 then 0x4000 else 0;
      var t;
      stop, code, t := ReadMatchLength(at.t as nat % 8, 7, s);
      if stop { return; }
      var d := ReadDistance(s);
      off := off + d;
      if off == 0 {
        // eof_found: the third arm is never taken
        stop, code := true, if ip == n then Ok else if ip < n then InputNotConsumed else InputOverrun;
        return;
      }
      stop, code := TakeCopy(off + 0x4000, t + 2, true, s);
    }

    method AtM1(ghost s: State) returns (stop: bool, code: Code)
      requires Sim(s) && s.at.Match? && s.at.t < 16
      modifies this`at, this`ip, this`op, dst
      ensures if stop then Stops(s, code) else Goes(s)
    {
      hide Step, Run, KeepsClear, Overlay;
      ReadsInput(s.out, ip - 1, ip);
      var off := 1 + at.t as nat / 4 + src[inp + ip] as nat * 4;
      ip := ip + 1;
      stop, code := TakeCopy(off, 2, false, s);
    }

    /** One block. */
    method Block(ghost s: State) returns (stop: bool, code: Code)
      requires Sim(s)
      modifies this`at, this`ip, this`op, dst
      ensures if stop then Stops(s, code) else Goes(s)
    {
      hide Granted, Holds, Wrote, Step;
      match at {
        case Start => stop, code := AtStart(s);
        case LiteralRun => stop, code := AtLiteralRun(s);
        case FirstLiteralRun => stop, code := AtFirstLiteralRun(s);
        case MatchNext(_) => stop, code := AtMatchNext(s);
        case Match(t) =>
          if t >= 64 {
            stop, code := AtM2(s);
          } else if t >= 32 {
            stop, code := AtM3(s);
          } else if t >= 16 {
            stop, code := AtM4(s);
          } else {
            stop, code := AtM1(s);
          }
      }
    }

    lemma SimValid(s: State)
      requires Sim(s)
      ensures Valid(cap, input, s) && op == |s.out| <= cap
    {
    }

    /** The state after a block. */
    ghost function After(s: State): State
      reads this
      requires Valid(cap, input, s)
    {
      var r := Step(v, b, cap, input, s);
      if exact && r.Goto? then r.next else Now()
    }

    lemma GoesOn(s: State)
      requires Valid(cap, input, s) && Goes(s)
      ensures var r := After(s);
              && Sim(r) && Valid(cap, input, r) && Rank(input, r) < Rank(input, s)
              && (exact ==> Run(v, b, cap, input, r) == Run(v, b, cap, input, s))
    {
      hide Step;
    }

    /** The result of the whole decoder. */
    ghost predicate Result(code: Code)
      reads this, dst
    {
      && Fixed() && op <= cap && Only(before, dst[..], outp, cap)
      && (exact ==>
            var r := Decode(v, b, cap, input);
            r.code == code && |r.out| == op && dst[..] == Overlay(before, outp, r.out))
    }

    lemma StopsHere(s: State, code: Code)
      requires Valid(cap, input, s) && Stops(s, code)
      requires exact ==> Run(v, b, cap, input, s) == Decode(v, b, cap, input)
      ensures Result(code)
    {
      hide Step, Overlay, Only;
    }

    /** The whole decoder. */
    method Decompress() returns (code: Code, outLen: nat)
      requires Sim(INIT)
      modifies this`at, this`ip, this`op, dst
      ensures Result(code) && outLen == op
    {
      hide Sim, Wrote, Step, Goes, Stops, Result, After;
      ghost var s := INIT;
      var stop := false;
      code := Ok;
      SimValid(s);
      while !stop
        invariant if stop then Result(code)
                  else Valid(cap, input, s) && Sim(s)
        invariant !stop && exact ==> Run(v, b, cap, input, s) == Decode(v, b, cap, input)
        decreases if stop then 0 else 1 + Rank(input, s)
      {
        stop, code := Block(s);
        if stop {
          StopsHere(s, code);
        } else {
          GoesOn(s);
          s := After(s);
        }
      }
      outLen := op;
    }
  }

  /** lzo1x_decompress_safe and lzo1y_decompress_safe, for any bytes and any overlap of the two buffers: the decoder
      ends, reads inside the input and stores inside the output buffer. When the buffers do not lie in one array, or the
      reader and the writer stay apart, the result is that of the pure machine and nothing but the output is stored. */
  method DecompressSafe(v: Variant, src: array<byte>, inp: nat, inLen: nat, dst: array<byte>, outp: nat, cap: nat)
    returns (code: Code, outLen: nat)
    requires inp + inLen <= src.Length && outp + cap <= dst.Length
    modifies dst
    ensures outLen <= cap && Only(old(dst[..]), dst[..], outp, cap)
    ensures old(src != dst || KeepsClear(v, Plain, cap, src[inp..inp + inLen], INIT, inp - outp)) ==>
              var r := Decode(v, Plain, cap, old(src[inp..inp + inLen]));
              code == r.code && outLen == |r.out| && dst[..] == Overlay(old(dst[..]), outp, r.out)
  {
    hide Decode, KeepsClear, Overlay, Only, Lzo1xDecoder.Step, Decompressor.Sim;
    ghost var exact := src != dst || KeepsClear(v, Plain, cap, src[inp..inp + inLen], INIT, inp - outp);
    var d := new Decompressor(v, Plain, true, src, inp, inLen, dst, outp, cap, exact);
    code, outLen := d.Decompress();
  }

  /** lzo1x_decompress: no tests, so only for data that the safe decoder accepts with the memory behind outp; on those
      the two agree. */
  method DecompressUnchecked(v: Variant, src: array<byte>, inp: nat, inLen: nat, dst: array<byte>, outp: nat)
    returns (code: Code, outLen: nat)
    requires inp + inLen <= src.Length && outp <= dst.Length
    requires src == dst ==> KeepsClear(v, Plain, dst.Length - outp, src[inp..inp + inLen], INIT, inp - outp)
    requires Decode(v, Plain, dst.Length - outp, src[inp..inp + inLen]).code in {Ok, InputNotConsumed}
    modifies dst
    ensures var r := Decode(v, Plain, dst.Length - outp, old(src[inp..inp + inLen]));
            && code == r.code && outLen == |r.out| && outp + outLen <= dst.Length
            && dst[..] == Overlay(old(dst[..]), outp, r.out)
  {
    hide Decode, KeepsClear, Overlay, Only, Lzo1xDecoder.Step, Decompressor.Sim;
    var d := new Decompressor(v, Plain, false, src, inp, inLen, dst, outp, dst.Length - outp, true);
    code, outLen := d.Decompress();
  }

  /** lzo1x_decompress_dict_safe: the dictionary is first trimmed to its last 0xbfff bytes. Any overlap, as above. */
  method DecompressDictSafe(v: Variant, src: array<byte>, inp: nat, inLen: nat, dst: array<byte>, outp: nat, cap: nat,
                            dict: seq<byte>)
    returns (code: Code, outLen: nat)
    requires inp + inLen <= src.Length && outp + cap <= dst.Length
    modifies dst
    ensures outLen <= cap && Only(old(dst[..]), dst[..], outp, cap)
    ensures old(src != dst || KeepsClear(v, Preset(Trim(dict)), cap, src[inp..inp + inLen], INIT, inp - outp)) ==>
              var r := Decode(v, Preset(dict), cap, old(src[inp..inp + inLen]));
              code == r.code && outLen == |r.out| && dst[..] == Overlay(old(dst[..]), outp, r.out)
  {
    hide KeepsClear, Overlay, Only, Lzo1xDecoder.Step, Decompressor.Sim, Run;
    TrimmedRun(v, dict, cap, src[inp..inp + inLen], INIT);
    ghost var exact := src != dst || KeepsClear(v, Preset(Trim(dict)), cap, src[inp..inp + inLen], INIT, inp - outp);
    var trimmed := if |dict| > M4_MAX_OFFSET then dict[|dict| - M4_MAX_OFFSET..] else dict;
    var d := new Decompressor(v, Preset(trimmed), true, src, inp, inLen, dst, outp, cap, exact);
    code, outLen := d.Decompress();
  }
}
