// lzo_adler32: the Adler-32 checksum of RFC 1950.
module Adler {
  import opened Bytes
  import opened Arithmetic
  import opened Slices

  /** The largest prime below 2^16. */
  const BASE: nat := 65521
  const NMAX: nat := 5552

  /** The two running sums of section 2.2 of RFC 1950. */
  datatype Sums = Sums(s1: nat, s2: nat)

  /** Both sums are reduced modulo 65521 after every byte. */
  function Step(s: Sums, x: byte): Sums {
    var s1 := (s.s1 + x as nat) % BASE;
    Sums(s1, (s.s2 + s1) % BASE)
  }

  function Fold(s: Sums, data: seq<byte>): Sums {
    if data == [] then s else Step(Fold(s, data[..|data| - 1]), data[|data| - 1])
  }

  function Unpack(adler: nat): Sums {
    Sums(adler % 0x1_0000, adler / 0x1_0000 % 0x1_0000)
  }

  function Pack(s: Sums): nat {
    s.s2 * 0x1_0000 + s.s1
  }

  /** The checksum by definition: every byte in turn, starting from any 32-bit seed. */
  function Checksum(adler: nat, data: seq<byte>): nat {
    Pack(Fold(Unpack(adler), data))
  }

  lemma {:induction false} FoldBound(s: Sums, data: seq<byte>)
    requires s.s1 < 0x1_0000 && s.s2 < 0x1_0000
    ensures var r := Fold(s, data); r.s1 < 0x1_0000 && r.s2 < 0x1_0000 && (data != [] ==> r.s1 < BASE && r.s2 < BASE)
  {
    if data != [] {
      FoldBound(s, data[..|data| - 1]);
    }
  }

  lemma {:induction false} FoldConcat(s: Sums, a: seq<byte>, b: seq<byte>)
    ensures Fold(s, a + b) == Fold(Fold(s, a), b)
  {
    if b == [] {
      assert a + b == a;
    } else {
      assert (a + b)[..|a + b| - 1] == a + b[..|b| - 1];
      FoldConcat(s, a, b[..|b| - 1]);
    }
  }

  /** Checksumming blocks in turn is checksumming their concatenation. */
  lemma ChecksumConcat(adler: nat, a: seq<byte>, b: seq<byte>)
    ensures Checksum(Checksum(adler, a), b) == Checksum(adler, a + b)
  {
    UnpackBound(adler);
    hide Fold, Pack, Unpack;
    FoldConcat(Unpack(adler), a, b);
    FoldKept(Unpack(adler), a, b);
  }

  /** Packing the sums into a word and unpacking them loses nothing. */
  lemma FoldKept(s: Sums, a: seq<byte>, b: seq<byte>)
    requires s.s1 < 0x1_0000 && s.s2 < 0x1_0000
    ensures Fold(Unpack(Pack(Fold(s, a))), b) == Fold(Fold(s, a), b)
  {
    FoldBound(s, a);
    hide Fold;
    UnpackPack(Fold(s, a));
  }

  lemma UnpackBound(adler: nat)
    ensures Unpack(adler).s1 < 0x1_0000 && Unpack(adler).s2 < 0x1_0000
  {
  }

  lemma UnpackPack(s: Sums)
    requires s.s1 < 0x1_0000 && s.s2 < 0x1_0000
    ensures Unpack(Pack(s)) == s
  {
    var w := Pack(s);
    assert w % 0x1_0000 == s.s1;
    assert w / 0x1_0000 == s.s2;
  }

  lemma ChecksumBound(adler: nat, data: seq<byte>)
    ensures Checksum(adler, data) < WORD32
  {
    FoldBound(Unpack(adler), data);
  }

  // ---- the sums in closed form ----

  /** The sum of all bytes. */
  function Total(data: seq<byte>): nat {
    if data == [] then 0 else data[0] as nat + Total(data[1..])
  }

  /** The sum of (n - i) * data[i], n being the number of bytes. */
  function Weighted(data: seq<byte>): nat {
    if data == [] then 0 else |data| * data[0] as nat + Weighted(data[1..])
  }

  /** The running sums are congruent to the closed forms. */
  lemma {:induction false} FoldClosed(s: Sums, data: seq<byte>)
    ensures Fold(s, data).s1 % BASE == (s.s1 + Total(data)) % BASE
    ensures Fold(s, data).s2 % BASE == (s.s2 + |data| * s.s1 + Weighted(data)) % BASE
    decreases |data|
  {
    if data != [] {
      hide Fold, Total, Weighted;
      FoldFirst(s, data);
      FoldClosed(Step(s, data[0]), data[1..]);
      SumsOfFirst(data);
      OneMoreByte(s, data[0], |data| - 1, Total(data[1..]), Weighted(data[1..]));
    }
  }

  lemma SumsOfFirst(data: seq<byte>)
    requires data != []
    ensures Total(data) == data[0] as nat + Total(data[1..])
    ensures Weighted(data) == |data| * data[0] as nat + Weighted(data[1..])
  {
  }

  lemma FoldFirst(s: Sums, data: seq<byte>)
    requires data != []
    ensures Fold(s, data) == Fold(Step(s, data[0]), data[1..])
  {
    hide Fold;
    assert data == ([] + [data[0]]) + data[1..];
    FoldConcat(s, [] + [data[0]], data[1..]);
    FoldMore(s, [], data[0]);
    FoldEmpty(s, []);
  }

  lemma OneMoreByte(s: Sums, x: byte, n: nat, total: nat, weighted: nat)
    ensures (Step(s, x).s1 + total) % BASE == (s.s1 + (x as nat + total)) % BASE
    ensures (Step(s, x).s2 + n * Step(s, x).s1 + weighted) % BASE
         == (s.s2 + (n + 1) * s.s1 + ((n + 1) * x as nat + weighted)) % BASE
  {
    var t := Step(s, x);
    var y := s.s1 + x as nat;
    var q1, q2 := y / BASE, (s.s2 + t.s1) / BASE;
    assert y == BASE * q1 + t.s1 && s.s2 + t.s1 == BASE * q2 + t.s2;
    ModShift(t.s1 + total, q1);
    ModShift(t.s2 + n * t.s1 + weighted, (n + 1) * q1 + q2);
    Collect(s.s1, s.s2, x, n, t.s1, t.s2, q1, q2);
  }

  lemma Collect(s1: nat, s2: nat, x: nat, n: nat, t1: nat, t2: nat, q1: nat, q2: nat)
    requires s1 + x == BASE * q1 + t1 && s2 + t1 == BASE * q2 + t2
    ensures s2 + (n + 1) * s1 + (n + 1) * x == t2 + n * t1 + BASE * ((n + 1) * q1 + q2)
  {
    assert (n + 1) * s1 + (n + 1) * x == (n + 1) * (s1 + x) == (n + 1) * (BASE * q1 + t1);
    assert (n + 1) * (BASE * q1) == BASE * ((n + 1) * q1);
  }

  /** The checksum without the running sums, as section 8.2 of RFC 1950 describes it. */
  lemma ChecksumClosed(adler: nat, data: seq<byte>)
    requires data != []
    ensures var a, b := adler % 65536, adler / 65536 % 65536;
            && Checksum(adler, data) % 65536 == (a + Total(data)) % 65521
            && Checksum(adler, data) / 65536 == (b + |data| * a + Weighted(data)) % 65521
  {
    hide Fold, Total, Weighted, Pack, Unpack;
    var s := Unpack(adler);
    UnpackIs(adler);
    FoldClosed(s, data);
    FoldBound(s, data);
    Halves(Fold(s, data));
    Reduced(Fold(s, data).s1);
    Reduced(Fold(s, data).s2);
  }

  lemma UnpackIs(adler: nat)
    ensures Unpack(adler).s1 == adler % 65536 < 65536 && Unpack(adler).s2 == adler / 65536 % 65536 < 65536
  {
  }

  lemma Halves(s: Sums)
    requires s.s1 < 65536
    ensures Pack(s) % 65536 == s.s1 && Pack(s) / 65536 == s.s2
  {
  }

  lemma Reduced(x: nat)
    requires x < BASE
    ensures x % BASE == x
  {
  }

  lemma ChecksumOfNothing(adler: nat)
    requires adler < WORD32
    ensures Checksum(adler, []) == adler
  {
  }

  lemma FoldEmpty(s: Sums, data: seq<byte>)
    requires data == []
    ensures Fold(s, data) == s
  {
  }

  lemma FoldMore(s: Sums, data: seq<byte>, x: byte)
    ensures Fold(s, data + [x]) == Step(Fold(s, data), x)
  {
    assert (data + [x])[..|data|] == data;
  }

  // ---- deferred reduction ----

  /** Upper bounds of the unreduced sums after j bytes of a block. */
  function Bound1(j: nat): nat {
    0xffff + 255 * j
  }

  function Bound2(j: nat): nat {
    if j == 0 then 0xffff else Bound2(j - 1) + Bound1(j)
  }

  lemma {:induction false} Bound2Closed(j: nat)
    ensures 2 * Bound2(j) == 2 * 0xffff * (j + 1) + 255 * (j * (j + 1))
  {
    if j != 0 {
      Bound2Closed(j - 1);
      assert j * (j + 1) == (j - 1) * j + 2 * j;
    }
  }

  lemma Bound2Start()
    ensures Bound2(0) == 0xffff
  {
  }

  lemma Bound2Step(j: nat)
    ensures Bound2(j + 1) == Bound2(j) + Bound1(j + 1)
  {
  }

  /** Up to 5552 bytes no sum reaches 32 bits. */
  lemma NoOverflow(j: nat)
    requires j <= NMAX
    ensures Bound1(j) < WORD32 && Bound2(j) < WORD32
  {
    hide Bound2;
    Bound2Closed(j);
    Triangle(j);
    var p := j * (j + 1);
    assert 2 * Bound2(j) == 2 * 0xffff * (j + 1) + 255 * p;
  }

  lemma Triangle(j: nat)
    requires j <= NMAX
    ensures j * (j + 1) <= 5552 * 5553
  {
    Scale(j, 5552, j + 1);
  }

  /** The sums of a block that has not been reduced yet stand for those of the definition. */
  predicate Deferred(s: Sums, exact: Sums) {
    s.s1 % BASE == exact.s1 % BASE && s.s2 % BASE == exact.s2 % BASE
  }

  lemma DeferredStep(s1: nat, s2: nat, exact: Sums, x: byte)
    requires Deferred(Sums(s1, s2), exact)
    ensures Deferred(Sums(s1 + x as nat, s2 + (s1 + x as nat)), Step(exact, x))
  {
    ModAdd(s1, exact.s1, x);
    ModAdd(s2, exact.s2, s1 + x as nat);
    ModAdd(s1 + x as nat, (exact.s1 + x as nat) % BASE, exact.s2);
  }

  lemma ModAdd(a: nat, b: nat, c: nat)
    requires a % BASE == b % BASE
    ensures (a + c) % BASE == (b + c) % BASE
  {
    var q := a / BASE - b / BASE;
    assert a == b + BASE * q;
    assert (a + c) == (b + c) + BASE * q;
    ModShift(b + c, q);
  }

  lemma ModShift(x: nat, q: int)
    requires x + BASE * q >= 0
    ensures (x + BASE * q) % BASE == x % BASE
  {
    assert x == BASE * (x / BASE) + x % BASE;
    assert x + BASE * q == BASE * (x / BASE + q) + x % BASE;
  }

  /** lzo_adler32. All sums are 32-bit words. A missing buffer gives the initial value. */
  method Adler32(adler: nat, buf: array?<byte>, start: nat, len: nat) returns (r: nat)
    requires adler < WORD32
    requires buf != null ==> start + len <= buf.Length
    ensures r == if buf == null then 1 else Checksum(adler, buf[start..start + len])
  {
    hide Fold;
    var s1: nat, s2: nat := adler % 0x1_0000, adler / 0x1_0000 % 0x1_0000;
    if buf == null { return 1; }
    ghost var seed := Sums(s1, s2);
    var i, rest := start, len;
    FoldEmpty(seed, buf[start..i]);
    while rest > 0
      invariant start <= i && 0 <= rest && i + rest == start + len
      invariant s1 < 0x1_0000 && s2 < 0x1_0000
      invariant Sums(s1, s2) == Fold(seed, buf[start..i])
    {
      var k := if rest < NMAX then rest else NMAX;
      rest := rest - k;
      s1, s2 := SumBlock(buf, i, k, s1, s2, seed, buf[start..i]);
      Join(buf[..], start, i, i + k);
      assert buf[start..i] + buf[i..i + k] == buf[start..i + k];
      i := i + k;
      FoldBound(seed, buf[start..i]);
      s1, s2 := s1 % BASE, s2 % BASE;
    }
    r := s2 * 0x1_0000 + s1;
  }

  /** The sums over one block of at most 5552 bytes, sixteen at a time and then one at a time, not reduced. */
  method SumBlock(buf: array<byte>, i: nat, k0: nat, a1: nat, a2: nat, ghost seed: Sums, ghost done: seq<byte>)
    returns (s1: nat, s2: nat)
    requires i + k0 <= buf.Length && k0 <= NMAX && a1 < 0x1_0000 && a2 < 0x1_0000
    requires Deferred(Sums(a1, a2), Fold(seed, done))
    ensures Deferred(Sums(s1, s2), Fold(seed, done + buf[i..i + k0]))
  {
    hide Fold, Bound2, Deferred;
    Bound2Start();
    s1, s2 := a1, a2;
    var p, k := i, k0;
    assert done + buf[i..p] == done;
    while k >= 16
      invariant 0 <= k && i <= p && p + k == i + k0
      invariant s1 <= Bound1(p - i) && s2 <= Bound2(p - i)
      invariant Deferred(Sums(s1, s2), Fold(seed, done + buf[i..p]))
    {
      for q := p to p + 16
        invariant s1 <= Bound1(q - i) && s2 <= Bound2(q - i)
        invariant Deferred(Sums(s1, s2), Fold(seed, done + buf[i..q]))
      {
        s1, s2 := AddByte(buf, q, s1, s2, i, seed, done);
      }
      p, k := p + 16, k - 16;
    }
    while k > 0
      invariant 0 <= k && i <= p && p + k == i + k0
      invariant s1 <= Bound1(p - i) && s2 <= Bound2(p - i)
      invariant Deferred(Sums(s1, s2), Fold(seed, done + buf[i..p]))
    {
      s1, s2 := AddByte(buf, p, s1, s2, i, seed, done);
      p, k := p + 1, k - 1;
    }
  }

  /** Within a block the 32-bit sums are the exact sums. */
  lemma NoWrap(a1: nat, a2: nat, j: nat, x: byte)
    requires j < NMAX && a1 <= Bound1(j) && a2 <= Bound2(j)
    ensures a1 + x as nat <= Bound1(j + 1) && a2 + (a1 + x as nat) <= Bound2(j + 1)
    ensures (a1 + x as nat) % WORD32 == a1 + x as nat
    ensures (a2 + (a1 + x as nat)) % WORD32 == a2 + (a1 + x as nat)
  {
    hide Bound2;
    NoOverflow(j + 1);
    Bound2Step(j);
  }

  /** `s1 += *buf++; s2 += s1` on 32-bit words, for the byte at p of a block that starts at i. */
  method AddByte(buf: array<byte>, p: nat, a1: nat, a2: nat, ghost i: nat, ghost seed: Sums, ghost done: seq<byte>)
    returns (s1: nat, s2: nat)
    requires i <= p < buf.Length && p - i < NMAX
    requires a1 <= Bound1(p - i) && a2 <= Bound2(p - i) && Deferred(Sums(a1, a2), Fold(seed, done + buf[i..p]))
    ensures s1 <= Bound1(p + 1 - i) && s2 <= Bound2(p + 1 - i)
    ensures Deferred(Sums(s1, s2), Fold(seed, done + buf[i..p + 1]))
  {
    hide Fold, Bound1, Bound2, Deferred, Step;
    var x := buf[p];
    NoWrap(a1, a2, p - i, x);
    s1 := (a1 + x as nat) % WORD32;
    s2 := (a2 + s1) % WORD32;
    DeferredStep(a1, a2, Fold(seed, done + buf[i..p]), x);
    assert done + buf[i..p + 1] == (done + buf[i..p]) + [x];
    FoldMore(seed, done + buf[i..p], x);
  }
}
