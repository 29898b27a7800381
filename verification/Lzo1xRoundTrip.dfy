// Whole streams: decoding inverts printing, with any capacity that fits and also inside one shared buffer.
module Lzo1xRoundTrip {
  import opened Bytes
  import opened Slices
  import opened Window
  import opened Lzo1xFormat
  import opened Lzo1xDecoder
  import opened Lzo1xStream
  import opened Lzo1xParse

  /** At the end of every prefix of the items the output is two bytes behind the input. */
  ghost predicate Roomy(v: Variant, items: seq<Item>, gap: int)
    requires WellFormed(items)
  {
    Size(items) + 2 <= gap + |Print(v, items)| && (items != [] ==> Roomy(v, Front(items), gap))
  }

  /** The machine gets from the start to the end of every printed prefix, with exactly the bytes it stands for. */
  lemma {:induction false} PrefixReaches(v: Variant, b: Build, cap: nat, src: seq<byte>, items: seq<Item>, gap: int)
    requires WellFormed(items) && Size(items) <= cap && Size(items) <= RUN_LIMIT
    requires |Print(v, items)| + 3 <= |src|
    requires if items == [] then src[0] <= 17 else HoldsAt(src, 0, Print(v, items))
    requires Roomy(v, items, gap)
    ensures var w := Print(v, items);
            Reaches(v, b, cap, src, INIT, State(Position(src, w), |w|, Expand(items)), gap)
  {
    if items == [] {
      OneStep(v, b, cap, src, INIT, State(LiteralRun, 0, []), gap);
    } else {
      hide Step, Reaches, Emit, CopyMatch, ReadToken;
      var front, item := Front(items), Last(items);
      var w := Print(v, front);
      assert Print(v, items) == Emit(v, w, item) by { PrintLast(v, items); }
      ReadItem(v, src, w, item);
      if front == [] {
        FirstByte(src, item.lits);
      }
      PrefixReaches(v, b, cap, src, front, gap);
      ItemReaches(v, b, cap, src, w, item, Expand(front), gap);
      ReachesTrans(v, b, cap, src, INIT, State(Position(src, w), |w|, Expand(front)),
                   State(Position(src, Print(v, items)), |Print(v, items)|, Expand(items)), gap);
    }
  }

  lemma PrintLast(v: Variant, items: seq<Item>)
    requires items != [] && WellFormed(items)
    ensures Print(v, items) == Emit(v, Print(v, Front(items)), Last(items))
  {
  }

  lemma FirstByte(src: seq<byte>, lits: seq<byte>)
    requires |lits| >= 4
    requires var w1 := EmitLits([], lits); |w1| <= |src| && src[..|w1|] == w1
    ensures src[0] <= 15
  {
    var w1 := EmitLits([], lits);
    assert w1 == RunHeader(|lits|) + lits;
    assert src[0] == src[..|w1|][0] == RunHeader(|lits|)[0];
  }

  /** The EOF code ends the run with LZO_E_OK when nothing follows it. */
  lemma EofHalts(v: Variant, b: Build, cap: nat, src: seq<byte>, out: seq<byte>, gap: int)
    requires |src| >= 3 && src[|src| - 3..] == [M4_MARKER + 1, 0, 0]
    requires |out| <= cap && |out| + 3 <= gap + |src|
    ensures var s := State(Match(src[|src| - 3]), |src| - 2, out);
            Valid(cap, src, s) && Run(v, b, cap, src, s) == Result(Ok, out) && KeepsClear(v, b, cap, src, s, gap)
  {
    assert src[|src| - 3] == src[|src| - 3..][0] && src[|src| - 2] == src[|src| - 3..][1]
           && src[|src| - 1] == src[|src| - 3..][2];
    var s := State(Match(src[|src| - 3]), |src| - 2, out);
    assert ReadToken(v, src, |src| - 2, src[|src| - 3]) == Eof(|src|);
  }

  /** The first byte 17 + t announces t literals. */
  lemma FirstLiterals(v: Variant, b: Build, cap: nat, src: seq<byte>, tail: seq<byte>, gap: int)
    requires 1 <= |tail| <= 238 && |tail| <= cap && gap >= 2
    requires |src| == |tail| + 4 && src[0] == 17 + |tail| && src[1..1 + |tail|] == tail && src[1 + |tail|] >= 16
    ensures Reaches(v, b, cap, src, INIT, State(Match(src[1 + |tail|]), 2 + |tail|, tail), gap)
  {
    var goal := State(Match(src[1 + |tail|]), 2 + |tail|, tail);
    var mid := if |tail| < 4 then State(MatchNext(|tail|), 1, []) else State(FirstLiteralRun, 1 + |tail|, tail);
    assert [] + tail == tail;
    assert Step(v, b, cap, src, INIT) == Goto(mid);
    assert Step(v, b, cap, src, mid) == Goto(goal);
    hide Step, Reaches;
    OneStep(v, b, cap, src, INIT, mid, gap);
    OneStep(v, b, cap, src, mid, goal, gap);
    ReachesTrans(v, b, cap, src, INIT, mid, goal, gap);
  }

  /** A stream without any match: its literals have their own first byte. */
  lemma OnlyLiterals(v: Variant, b: Build, cap: nat, tail: seq<byte>, gap: int)
    requires 1 <= |tail| <= 238 && |tail| <= cap && gap >= 2
    ensures var src := Finish([], tail);
            && Decode(v, b, cap, src) == Result(Ok, tail)
            && KeepsClear(v, b, cap, src, INIT, gap)
  {
    hide Step, Reaches, Run, KeepsClear;
    var src := Finish([], tail);
    assert src == [17 + |tail|] + tail + [M4_MARKER + 1, 0, 0];
    Parts(src, [17 + |tail|], tail, [M4_MARKER + 1, 0, 0]);
    assert src[|tail| + 1] == src[|tail| + 1..|src|][0];
    assert src[|src| - 3..] == [M4_MARKER + 1, 0, 0];
    FirstLiterals(v, b, cap, src, tail, gap);
    EofHalts(v, b, cap, src, tail, gap);
    ReachesRun(v, b, cap, src, INIT, State(Match(src[|src| - 3]), |src| - 2, tail), gap);
  }

  /** Every stream of the format decodes to the bytes it stands for, for either decoder and every capacity that holds
      them; when there is room in a shared buffer, the writer never reaches what the reader still needs. */
  lemma StreamDecodes(v: Variant, b: Build, cap: nat, items: seq<Item>, tail: seq<byte>, gap: int)
    requires WellFormed(items) && Size(items) + |tail| <= cap && Size(items) + |tail| <= RUN_LIMIT
    requires Roomy(v, items, gap) && gap >= 2
    ensures var src := Stream(v, items, tail);
            && Decode(v, b, cap, src) == Result(Ok, Expand(items) + tail)
            && KeepsClear(v, b, cap, src, INIT, gap)
  {
    hide Step, Reaches, Run, KeepsClear;
    if items == [] && 1 <= |tail| <= 238 {
      OnlyLiterals(v, b, cap, tail, gap);
      assert Expand(items) + tail == tail;
    } else {
      MatchesThenLiterals(v, b, cap, items, tail, gap);
    }
  }

  lemma MatchesThenLiterals(v: Variant, b: Build, cap: nat, items: seq<Item>, tail: seq<byte>, gap: int)
    requires WellFormed(items) && Size(items) + |tail| <= cap && Size(items) + |tail| <= RUN_LIMIT
    requires Roomy(v, items, gap) && gap >= 2 && !(items == [] && 1 <= |tail| <= 238)
    ensures var src := Stream(v, items, tail);
            && Run(v, b, cap, src, INIT) == Result(Ok, Expand(items) + tail)
            && KeepsClear(v, b, cap, src, INIT, gap)
  {
    hide Step, Reaches, Run, KeepsClear, Expand, EmitLits, Print, WellFormed;
    var w := Print(v, items);
    var w1 := EmitLits(w, tail);
    var src := Stream(v, items, tail);
    assert src == w1 + [M4_MARKER + 1, 0, 0];
    TailReads(v, src, items, tail);
    PrefixReaches(v, b, cap, src, items, gap);
    LitsReach(v, b, cap, src, w, tail, Expand(items), gap);
    EofHalts(v, b, cap, src, Expand(items) + tail, gap);
    var goal := State(Match(src[|w1|]), |w1| + 1, Expand(items) + tail);
    ReachesTrans(v, b, cap, src, INIT, State(Position(src, w), |w|, Expand(items)), goal, gap);
    ReachesRun(v, b, cap, src, INIT, goal, gap);
  }

  lemma TailReads(v: Variant, src: seq<byte>, items: seq<Item>, tail: seq<byte>)
    requires WellFormed(items) && !(items == [] && 1 <= |tail| <= 238)
    requires src == EmitLits(Print(v, items), tail) + [M4_MARKER + 1, 0, 0]
    ensures var w1 := EmitLits(Print(v, items), tail);
            && |w1| + 3 == |src| && src[..|w1|] == w1 && src[|w1|] == 17
            && src[|w1|..] == [M4_MARKER + 1, 0, 0] && |Print(v, items)| <= |w1|
    ensures if items == [] then src[0] <= 17 else HoldsAt(src, 0, Print(v, items))
  {
    var w := Print(v, items);
    var w1 := EmitLits(w, tail);
    var eof: seq<byte> := [M4_MARKER + 1, 0, 0];
    assert src[..|w1|] == w1 && src[|w1|..] == eof;
    assert src[|w1|] == src[|w1|..][0];
    SplitLits(src, w, tail);
    if items == [] && tail != [] {
      FirstByte(src, tail);
    }
  }
}
