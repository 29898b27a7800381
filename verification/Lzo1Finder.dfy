// What the match finder of LZO1 and LZO1A finds: every probe whose table entry fits becomes a match, as long as it can
// be.
module Lzo1Finder {
  import opened Bytes
  import opened Slices
  import opened Matching
  import opened Lzo1Format
  import opened Lzo1Stream
  import opened Lzo1Encoder

  // ---- one round ----

  /** The entry points into the last 8192 bytes before ip. */
  predicate InReach(entry: Entry, ip: nat) {
    entry.Pos? && entry.pos < ip && ip - entry.pos <= 8192
  }

  predicate SameThree(input: seq<byte>, entry: Entry, ip: nat)
    requires ip + 3 <= |input| && InReach(entry, ip)
  {
    input[entry.pos..entry.pos + 3] == input[ip..ip + 3]
  }

  /** The slot that counts at ip: that of its three bytes, or the opposite one if the entry there is in reach but the
      bytes differ. */
  function Slot(hash: Hashes, input: seq<byte>, ip: nat, dict: seq<Entry>): (j: nat)
    requires ip + 3 <= |input| && |dict| == 8192
    ensures j < 8192
  {
    var d := hash.probe(LE24(input, ip)) % 8192;
    if InReach(dict[d], ip) && !SameThree(input, dict[d], ip) then 8191 - d else d
  }

  /** A match of 264 bytes, or one that is ended by a difference or three bytes before the end of the input. */
  predicate Longest(input: seq<byte>, m: nat, ip: nat, len: nat) {
    && m < ip && ip + len + 3 <= |input| && 3 <= len <= 264 && input[m..m + len] == input[ip..ip + len]
    && (len < 264 && ip + len + 3 < |input| ==> input[m + len] != input[ip + len])
  }

  /** One probe. If the slot that counts holds a position in reach with the same three bytes, a match is taken: it
      starts at ip, has that distance and is as long as it can be. If not, there is no match and ip moves on by one. In
      either case the slot then holds ip. */
  lemma NextTakes(hash: Hashes, input: seq<byte>, s: Scan)
    requires ValidScan(input, s) && s.ip < IpEnd(input)
    ensures var r, j := Next(hash, input, s), Slot(hash, input, s.ip, s.dict);
            && r.dict == s.dict[j := Pos(s.ip)]
            && if InReach(s.dict[j], s.ip) && SameThree(input, s.dict[j], s.ip) then
                 && r.ps == s.ps + [Phrase(s.ip, s.ip - s.dict[j].pos, r.ip - s.ip)]
                 && Longest(input, s.dict[j].pos, s.ip, r.ip - s.ip)
               else
                 r.ps == s.ps && r.ip == s.ip + 1
  {
    hide Common, LE24, Longest, Agree;
    var j := Slot(hash, input, s.ip, s.dict);
    LookupIs(hash, input, s.ip, s.dict);
    if InReach(s.dict[j], s.ip) && SameThree(input, s.dict[j], s.ip) {
      var m := s.dict[j].pos;
      CommonLongest(input, m, s.ip);
    }
  }

  lemma LookupIs(hash: Hashes, input: seq<byte>, ip: nat, dict: seq<Entry>)
    requires ip + 3 <= |input| && |dict| == D_SIZE
    requires forall i :: 0 <= i < D_SIZE && dict[i].Pos? ==> dict[i].pos < ip
    ensures var (d, p), j := Lookup(hash, input, ip, dict), Slot(hash, input, ip, dict);
            && d == j && (p.Hit? <==> InReach(dict[j], ip) && SameThree(input, dict[j], ip))
            && (p.Hit? ==> p.pos == dict[j].pos)
  {
    hide LE24;
  }

  lemma CommonLongest(input: seq<byte>, m: nat, ip: nat)
    requires m < ip < IpEnd(input) && Agree(input, m, ip, 3)
    ensures Longest(input, m, ip, Common(input, m, ip, MaxLen(input, ip)))
  {
    hide Common;
    AgreeCommon(input, m, ip, 3, MaxLen(input, ip));
    CommonExact(input, m, ip, MaxLen(input, ip));
  }

  // ---- inputs of one byte ----

  /** The slot of every position. */
  function TheSlot(hash: Hashes, input: seq<byte>): (j: nat)
    requires |input| >= 3
    ensures j < 8192
  {
    hash.probe(LE24(input, 0)) % 8192
  }

  lemma SameSlot(hash: Hashes, input: seq<byte>, ip: nat, dict: seq<Entry>)
    requires Same(input) && ip + 3 <= |input| && |dict| == 8192
    ensures Slot(hash, input, ip, dict) == TheSlot(hash, input)
    ensures var d := dict[TheSlot(hash, input)]; InReach(d, ip) ==> SameThree(input, d, ip)
  {
  }

  /** Matches of 264 bytes, but for the last one, and at most two literals. */
  predicate Dense(ps: seq<Phrase>) {
    ps == [] ||
    (&& Dense(Front(ps)) && Last(ps).at == (if |ps| == 1 then Last(ps).at else End(Front(ps)))
     && (|ps| == 1 ==> Last(ps).at <= 2) && (|ps| > 1 ==> Last(Front(ps)).len == 264))
  }

  /** While the input is scanned, the one slot holds the start of the last match. */
  ghost predicate Running(hash: Hashes, input: seq<byte>, s: Scan) {
    && Faithful(input, s) && Dense(s.ps) && |input| >= 14
    && if s.ps == [] then
         && 1 <= s.ip <= 2
         && (s.ip == 2 ==> s.dict[TheSlot(hash, input)].Pos?)
       else
         && s.ip == End(s.ps) && s.dict[TheSlot(hash, input)] == Pos(Last(s.ps).at)
         && (s.ip < IpEnd(input) ==> Last(s.ps).len == 264)
  }

  lemma RunningOn(hash: Hashes, input: seq<byte>, s: Scan)
    requires Same(input) && Running(hash, input, s) && s.ip < IpEnd(input)
    ensures Running(hash, input, Next(hash, input, s))
  {
    hide Next, Slot, SameThree, LE24, TheSlot;
    var j, r := TheSlot(hash, input), Next(hash, input, s);
    NextTakes(hash, input, s);
    NextFaithful(hash, input, s);
    SameSlot(hash, input, s.ip, s.dict);
    if InReach(s.dict[j], s.ip) {
      assert Front(r.ps) == s.ps && Last(r.ps).at == s.ip;
    }
  }

  lemma {:induction false} RunningToEnd(hash: Hashes, input: seq<byte>, s: Scan)
    requires Same(input) && Running(hash, input, s)
    ensures var r := ScanAll(hash, input, s); Running(hash, input, r) && r.ip >= IpEnd(input)
    decreases |input| - s.ip
  {
    hide Next, TheSlot, Dense;
    if s.ip < IpEnd(input) {
      RunningOn(hash, input, s);
      RunningToEnd(hash, input, Next(hash, input, s));
    }
  }

  lemma {:induction false} DenseCount(input: seq<byte>, ps: seq<Phrase>)
    requires Dense(ps) && Sound(input, ps)
    ensures ps != [] ==> 264 * (|ps| - 1) <= Last(ps).at
  {
    if |ps| > 1 {
      DenseCount(input, Front(ps));
    }
  }

  lemma {:induction false} DensePrint(v: Variant, input: seq<byte>, ps: seq<Phrase>)
    requires Dense(ps) && Sound(input, ps) && (ps != [] ==> Last(ps).at < IpEnd(input))
    ensures ps != [] ==> |Print(v, input, ps)| <= 3 * |ps| + 3
  {
    if ps != [] {
      DensePrint(v, input, Front(ps));
      MergesExactly(v, input, Front(ps), Last(ps).at);
    }
  }

  lemma StartsRunning(hash: Hashes, input: seq<byte>)
    requires Same(input) && |input| >= 14
    ensures Running(hash, input, Start(hash, input))
  {
    StartFaithful(hash, input);
  }

  lemma ShortTail(x: seq<byte>)
    requires |x| <= 31
    ensures RunCode(x) == if x == [] then [] else [|x|] + x
  {
  }

  /** n equal bytes are compressed to one match in 264 bytes, whatever the hash functions. */
  lemma RunsCompress(v: Variant, hash: Hashes, input: seq<byte>)
    requires forall i :: 0 <= i < |input| ==> input[i] == input[0]
    ensures |Compress(v, hash, input)| <= 3 * (|input| / 264) + 19
  {
    if |input| < 14 {
      ShortTail(input);
    } else {
      hide Start, ScanAll, Print, RunCode, TheSlot, Dense, Sound, LE24;
      StartFaithful(hash, input);
      ScanFaithful(hash, input, Start(hash, input));
      StartsRunning(hash, input);
      RunningToEnd(hash, input, Start(hash, input));
      RunningSize(v, hash, input, ScanAll(hash, input, Start(hash, input)));
    }
  }

  lemma RunningSize(v: Variant, hash: Hashes, input: seq<byte>, s: Scan)
    requires Running(hash, input, s) && s.ip >= IpEnd(input)
    ensures Sound(input, s.ps) && (s.ps != [] ==> Last(s.ps).at < IpEnd(input))
    ensures |Stream(v, input, s.ps)| <= 3 * (|input| / 264) + 19
  {
    hide Print, RunCode, TheSlot, Dense, Sound, Running, Faithful;
    AtTheEnd(hash, input, s);
    ShortTail(input[End(s.ps)..]);
    if s.ps == [] {
      NoPhrases(v, input);
      assert input[0..] == input;
    } else {
      DenseCount(input, s.ps);
      DensePrint(v, input, s.ps);
      Budget(|s.ps|, Last(s.ps).at, |input|);
    }
  }

  lemma AtTheEnd(hash: Hashes, input: seq<byte>, s: Scan)
    requires Running(hash, input, s) && s.ip >= IpEnd(input)
    ensures Sound(input, s.ps) && Dense(s.ps) && End(s.ps) <= |input| <= End(s.ps) + (if s.ps == [] then 14 else 12)
    ensures s.ps != [] ==> Last(s.ps).at < IpEnd(input)
  {
    hide TheSlot, Dense, Sound;
  }

  lemma Budget(k: nat, at: nat, n: nat)
    requires 264 * (k - 1) <= at < n
    ensures 3 * k <= 3 * (n / 264) + 3
  {
  }

  /** Up to 13 bytes are stored as literals. */
  lemma ShortInputs(v: Variant, hash: Hashes, input: seq<byte>)
    requires |input| <= 13
    ensures Compress(v, hash, input) == if input == [] then [] else [|input|] + input
  {
    ShortTail(input);
  }
}
