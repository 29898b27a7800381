// The match finder of LZO1 and LZO1A, as a function from the input to its matches.
module Lzo1Encoder {
  import opened Bytes
  import opened Slices
  import opened Matching
  import opened Lzo1Format
  import opened Lzo1Decoder
  import opened Lzo1Stream
  import opened Lzo1RoundTrip

  const D_SIZE := 0x2000
  const D_MASK := D_SIZE - 1

  /** The two hash functions of three bytes: the one that enters the first position, and the one that is looked up. */
  datatype Hashes = Hashes(first: nat -> nat, probe: nat -> nat)

  function LE24(s: seq<byte>, i: nat): nat
    requires i + 3 <= |s|
  {
    s[i] as int + 0x100 * s[i + 1] as int + 0x1_0000 * s[i + 2] as int
  }

  /** A pointer into the input, or NULL. */
  datatype Entry = Null | Pos(pos: nat)

  datatype Probed = Reject | Differ | Hit(pos: nat)

  /** LZO_CHECK_MPOS, then the comparison of three bytes. */
  function Probe(input: seq<byte>, entry: Entry, ip: nat): (r: Probed)
    requires ip + 3 <= |input| && (entry.Pos? ==> entry.pos < ip)
    ensures r.Hit? ==> r.pos < ip && ip - r.pos <= MAX_OFFSET && Agree(input, r.pos, ip, 3)
  {
    if entry.Null? || ip - entry.pos > MAX_OFFSET then Reject
    else if input[entry.pos..entry.pos + 3] == input[ip..ip + 3] then Hit(entry.pos)
    else Differ
  }

  /** How long a match may become at ip: 264 bytes, and not into the last three bytes of the input. */
  function MaxLen(input: seq<byte>, ip: nat): (r: nat)
    requires ip < IpEnd(input)
    ensures MIN_MATCH_LONG <= r <= MAX_MATCH_LONG && ip + r <= |input| - DVAL_LEN
  {
    var left := |input| - DVAL_LEN - ip;
    if left < MAX_MATCH_LONG then left else MAX_MATCH_LONG
  }

  datatype Scan = Scan(ip: nat, dict: seq<Entry>, ps: seq<Phrase>)

  /** Throughout, every table entry is NULL or a position strictly before ip. */
  ghost predicate ValidScan(input: seq<byte>, s: Scan) {
    && End(s.ps) <= s.ip <= |input| - DVAL_LEN
    && |s.dict| == D_SIZE && forall i :: 0 <= i < D_SIZE && s.dict[i].Pos? ==> s.dict[i].pos < s.ip
  }

  /** The table index that is probed last at ip, and what was found there: the first index is given up for its
      complement when the entry is near enough but the bytes differ. */
  function Lookup(hash: Hashes, input: seq<byte>, ip: nat, dict: seq<Entry>): (r: (nat, Probed))
    requires ip + 3 <= |input| && |dict| == D_SIZE
    requires forall i :: 0 <= i < D_SIZE && dict[i].Pos? ==> dict[i].pos < ip
    ensures r.0 < D_SIZE
    ensures r.1.Hit? ==> r.1.pos < ip && ip - r.1.pos <= MAX_OFFSET && Agree(input, r.1.pos, ip, 3)
  {
    var d := hash.probe(LE24(input, ip)) % D_SIZE;
    var p := Probe(input, dict[d], ip);
    if p.Differ? then (D_MASK - d, Probe(input, dict[D_MASK - d], ip)) else (d, p)
  }

  /** One round of the loop of do_compress. */
  function Next(hash: Hashes, input: seq<byte>, s: Scan): (r: Scan)
    requires ValidScan(input, s) && s.ip < IpEnd(input)
    ensures ValidScan(input, r) && r.ip > s.ip
  {
    var (d, p) := Lookup(hash, input, s.ip, s.dict);
    var dict := s.dict[d := Pos(s.ip)];
    if p.Hit? then
      var len := Common(input, p.pos, s.ip, MaxLen(input, s.ip));
      AgreeCommon(input, p.pos, s.ip, 3, MaxLen(input, s.ip));
      Scan(s.ip + len, dict, s.ps + [Phrase(s.ip, s.ip - p.pos, len)])
    else Scan(s.ip + 1, dict, s.ps)
  }

  lemma {:induction false} AgreeCommon(s: seq<byte>, i: nat, j: nat, k: nat, n: nat)
    requires Agree(s, i, j, k) && k <= n && i + n <= |s| && j + n <= |s|
    ensures Common(s, i, j, n) >= k
    decreases k
  {
    if k > 0 {
      assert s[i..i + k][0] == s[j..j + k][0];
      assert s[i + 1..i + k] == s[i..i + k][1..] && s[j + 1..j + k] == s[j..j + k][1..];
      AgreeCommon(s, i + 1, j + 1, k - 1, n - 1);
    }
  }

  function ScanAll(hash: Hashes, input: seq<byte>, s: Scan): (r: Scan)
    requires ValidScan(input, s)
    decreases |input| - s.ip
  {
    if s.ip >= IpEnd(input) then s else ScanAll(hash, input, Next(hash, input, s))
  }

  /** A table cleared but for the first position. */
  function Start(hash: Hashes, input: seq<byte>): (s: Scan)
    requires |input| > MIN_MATCH_LONG + DVAL_LEN + 1
    ensures ValidScan(input, s)
  {
    Scan(1, seq(D_SIZE, _ => Null)[hash.first(LE24(input, 0)) % D_SIZE := Pos(0)], [])
  }

  /** The bytes that lzo1_compress and lzo1a_compress write. Short inputs are one literal run. */
  function Compress(v: Variant, hash: Hashes, input: seq<byte>): seq<byte> {
    if |input| <= MIN_MATCH_LONG + DVAL_LEN + 1 then RunCode(input)
    else
      StartFaithful(hash, input);
      ScanFaithful(hash, input, Start(hash, input));
      Stream(v, input, ScanAll(hash, input, Start(hash, input)).ps)
  }

  // ---- the phrases are matches of the input ----

  ghost predicate Faithful(input: seq<byte>, s: Scan) {
    ValidScan(input, s) && Sound(input, s.ps) && (s.ps != [] ==> Last(s.ps).at < IpEnd(input))
  }

  lemma StartFaithful(hash: Hashes, input: seq<byte>)
    requires |input| > MIN_MATCH_LONG + DVAL_LEN + 1
    ensures Faithful(input, Start(hash, input))
  {
  }

  /** One more match keeps the phrases sound: its distance is in 1..8192 because the table holds earlier positions. */
  lemma NextFaithful(hash: Hashes, input: seq<byte>, s: Scan)
    requires Faithful(input, s) && s.ip < IpEnd(input)
    ensures Faithful(input, Next(hash, input, s))
  {
    hide Common, Agree, Lookup;
    var (d, p) := Lookup(hash, input, s.ip, s.dict);
    if p.Hit? {
      var n := MaxLen(input, s.ip);
      CommonExact(input, p.pos, s.ip, n);
      AgreeCommon(input, p.pos, s.ip, 3, n);
      var more := s.ps + [Phrase(s.ip, s.ip - p.pos, Common(input, p.pos, s.ip, n))];
      assert Front(more) == s.ps && Last(more) == more[|s.ps|];
    }
  }

  lemma {:induction false} ScanFaithful(hash: Hashes, input: seq<byte>, s: Scan)
    requires Faithful(input, s)
    ensures Faithful(input, ScanAll(hash, input, s))
    decreases |input| - s.ip
  {
    hide Next;
    if s.ip < IpEnd(input) {
      NextFaithful(hash, input, s);
      ScanFaithful(hash, input, Next(hash, input, s));
    }
  }

  /** lzo1_decompress inverts lzo1_compress and lzo1a_decompress inverts lzo1a_compress, for every input and all hash
      functions, whatever follows the compressed bytes in memory. */
  lemma RoundTrip(v: Variant, cap: nat, hash: Hashes, input: seq<byte>, mem: seq<byte>)
    requires |input| <= cap && Compress(v, hash, input) <= mem
    ensures Decode(v, cap, mem, |Compress(v, hash, input)|) == Done(Ok, input)
  {
    hide ScanAll, Start, Lzo1Decoder.Run, Print, RunCode, Faithful;
    if |input| <= MIN_MATCH_LONG + DVAL_LEN + 1 {
      assert input[End([])..] == input;
      NoPhrases(v, input);
      StreamDecodes(v, cap, input, [], mem);
    } else {
      StartFaithful(hash, input);
      ScanFaithful(hash, input, Start(hash, input));
      FaithfulSound(input, ScanAll(hash, input, Start(hash, input)));
      StreamDecodes(v, cap, input, ScanAll(hash, input, Start(hash, input)).ps, mem);
    }
  }

  lemma NoPhrases(v: Variant, input: seq<byte>)
    ensures Stream(v, input, []) == RunCode(input)
  {
    hide RunCode;
    assert input[0..] == input;
  }

  lemma FaithfulSound(input: seq<byte>, s: Scan)
    requires Faithful(input, s)
    ensures Sound(input, s.ps) && (s.ps != [] ==> Last(s.ps).at < IpEnd(input))
  {
  }

  // ---- size ----

  /** A literal run costs at most a sixteenth of its length, and one byte. */
  lemma {:induction false} RunCost(x: seq<byte>)
    ensures 16 * |RunCode(x)| <= 17 * |x| + 16
    ensures x == [] ==> RunCode(x) == []
    decreases |x|
  {
    hide LongPart, LongCode;
    if |x| >= 512 {
      RunCost(x[LongPart(|x|, 32768)..]);
    } else if |x| >= R0FAST {
      RunCost(x[R0FAST..]);
    }
  }

  lemma {:induction false} PrintCost(v: Variant, input: seq<byte>, ps: seq<Phrase>)
    requires Sound(input, ps) && (ps != [] ==> Last(ps).at < IpEnd(input))
    ensures 16 * |Print(v, input, ps)| <= 17 * End(ps)
    decreases |ps|
  {
    if ps != [] {
      hide Print, Merges, RunCode;
      PrintLast(v, input, ps);
      PrintCost(v, input, Front(ps));
      MergesExactly(v, input, Front(ps), Last(ps).at);
      RunCost(input[End(Front(ps))..Last(ps).at]);
    }
  }

  function Room(n: nat): nat {
    n + n / 16 + 1
  }

  /** No input grows by more than a sixteenth and one byte. */
  lemma ExpansionBound(v: Variant, hash: Hashes, input: seq<byte>)
    ensures |Compress(v, hash, input)| <= Room(|input|)
  {
    hide ScanAll, Start, Print, RunCode, Faithful;
    RunCost(input);
    if |input| > MIN_MATCH_LONG + DVAL_LEN + 1 {
      StartFaithful(hash, input);
      ScanFaithful(hash, input, Start(hash, input));
      var s := ScanAll(hash, input, Start(hash, input));
      FaithfulSound(input, s);
      PrintCost(v, input, s.ps);
      RunCost(input[End(s.ps)..]);
    }
  }
}
