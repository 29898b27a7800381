// The match extension loops of do_compress: byte by byte, and by exclusive or of 64-bit or 32-bit words. All three
// find the same length.
module Lzo1xExtend {
  import opened Bytes
  import opened Matching
  import opened Lzo1xEncoder

  // ---- words ----

  /** Exclusive or. */
  function Xor(a: nat, b: nat): nat {
    if a == 0 && b == 0 then 0 else (a % 2 + b % 2) % 2 + 2 * Xor(a / 2, b / 2)
  }

  lemma {:induction false} XorZero(a: nat, b: nat)
    ensures Xor(a, b) == 0 <==> a == b
  {
    if a != 0 || b != 0 {
      XorZero(a / 2, b / 2);
    }
  }

  lemma XorBit(a: nat, b: nat)
    ensures Xor(a, b) == (a % 2 + b % 2) % 2 + 2 * Xor(a / 2, b / 2)
    ensures Xor(a, b) / 2 == Xor(a / 2, b / 2)
  {
  }

  lemma XorHalf(a: nat, b: nat, x: nat, y: nat)
    ensures Xor(a + 2 * x, b + 2 * y) - Xor(a, b) == 2 * (Xor(a / 2 + x, b / 2 + y) - Xor(a / 2, b / 2))
  {
    hide Xor;
    assert (a + 2 * x) % 2 == a % 2 && (b + 2 * y) % 2 == b % 2;
    assert (a + 2 * x) / 2 == a / 2 + x && (b + 2 * y) / 2 == b / 2 + y;
    XorBit(a, b);
    XorBit(a + 2 * x, b + 2 * y);
  }

  lemma XorNibble(a: nat, b: nat, x: nat, y: nat)
    ensures Xor(a + 16 * x, b + 16 * y) - Xor(a, b) == 16 * (Xor(a / 16 + x, b / 16 + y) - Xor(a / 16, b / 16))
  {
    hide Xor;
    XorHalf(a, b, 8 * x, 8 * y);
    XorHalf(a / 2, b / 2, 4 * x, 4 * y);
    XorHalf(a / 2 / 2, b / 2 / 2, 2 * x, 2 * y);
    XorHalf(a / 2 / 2 / 2, b / 2 / 2 / 2, x, y);
    assert a / 2 / 2 / 2 / 2 == a / 16 && b / 2 / 2 / 2 / 2 == b / 16;
  }

  lemma XorLowNibble(c: nat, d: nat, x: nat, y: nat)
    requires c < 16 && d < 16
    ensures Xor(c + 16 * x, d + 16 * y) - Xor(c, d) == 16 * Xor(x, y)
  {
    XorZero(0, 0);
    hide Xor;
    XorNibble(c, d, x, y);
    assert c / 16 == 0 && d / 16 == 0;
  }

  /** The low byte and the rest are combined independently. */
  lemma XorByte(a: byte, b: byte, x: nat, y: nat)
    ensures Xor(a + 256 * x, b + 256 * y) == Xor(a, b) + 256 * Xor(x, y)
  {
    hide Xor;
    var c, d := a / 16, b / 16;
    XorNibble(a, b, 16 * x, 16 * y);
    XorLowNibble(c, d, x, y);
  }

  /** A little-endian word of w bytes. */
  function Word(s: seq<byte>, i: nat, w: nat): nat
    requires i + w <= |s|
    decreases w
  {
    if w == 0 then 0 else s[i] as nat + 256 * Word(s, i + 1, w - 1)
  }

  lemma {:induction false} WordsEqual(s: seq<byte>, i: nat, j: nat, w: nat)
    requires i + w <= |s| && j + w <= |s|
    ensures Word(s, i, w) == Word(s, j, w) <==> Common(s, i, j, w) == w
    decreases w
  {
    if w != 0 {
      WordsEqual(s, i + 1, j + 1, w - 1);
    }
  }

  lemma XorSmall(a: byte, b: byte)
    ensures Xor(a, b) < 256
  {
    hide Xor;
    XorNibbles(a, b);
    XorNibbles(a / 16, b / 16);
    XorZero(0, 0);
  }

  lemma XorNibbles(a: nat, b: nat)
    ensures Xor(a, b) / 16 == Xor(a / 16, b / 16)
  {
    hide Xor;
    XorBit(a, b);
    XorBit(a / 2, b / 2);
    XorBit(a / 2 / 2, b / 2 / 2);
    XorBit(a / 2 / 2 / 2, b / 2 / 2 / 2);
    assert a / 2 / 2 / 2 / 2 == a / 16 && b / 2 / 2 / 2 / 2 == b / 16;
  }

  lemma XorShift(a: byte, b: byte, x: nat, y: nat)
    ensures var v := Xor(a + 256 * x, b + 256 * y);
            && (v % 256 == 0 <==> a == b)
            && (a == b ==> v / 256 == Xor(x, y))
  {
    hide Xor;
    XorByte(a, b, x, y);
    XorSmall(a, b);
    XorZero(a, b);
  }

  /** `v & UCHAR_MAX` and `v >>= CHAR_BIT` on a combined word look at its bytes from the first on. */
  lemma WordShift(s: seq<byte>, i: nat, j: nat, w: nat, v: nat)
    requires i + w <= |s| && j + w <= |s|
    requires v == Xor(Word(s, i, w), Word(s, j, w)) && v != 0
    ensures w >= 1
    ensures v % 256 != 0 ==> Common(s, i, j, w) == 0
    ensures v % 256 == 0 ==>
              && v / 256 == Xor(Word(s, i + 1, w - 1), Word(s, j + 1, w - 1)) && v / 256 != 0
              && Common(s, i, j, w) == 1 + Common(s, i + 1, j + 1, w - 1)
  {
    if w != 0 {
      XorShift(s[i], s[j], Word(s, i + 1, w - 1), Word(s, j + 1, w - 1));
      hide Xor;
    }
  }

  /** The two words are combined to zero exactly when all their bytes agree. */
  lemma WordZero(s: seq<byte>, i: nat, j: nat, w: nat)
    requires i + w <= |s| && j + w <= |s|
    ensures Xor(Word(s, i, w), Word(s, j, w)) == 0 <==> Common(s, i, j, w) == w
  {
    XorZero(Word(s, i, w), Word(s, j, w));
    WordsEqual(s, i, j, w);
  }

  lemma {:induction false} CommonSplit(s: seq<byte>, i: nat, j: nat, a: nat, b: nat)
    requires i + a + b <= |s| && j + a + b <= |s|
    ensures var c := Common(s, i, j, a);
            Common(s, i, j, a + b) == if c < a then c else a + Common(s, i + a, j + a, b)
    decreases a
  {
    if a != 0 {
      CommonSplit(s, i + 1, j + 1, a - 1, b);
    }
  }

  // ---- the loops ----

  /** UA_GET_NE64, UA_GET_NE32 on a little-endian machine. */
  method LoadWord(src: array<byte>, i: nat, w: nat) returns (x: nat)
    requires i + w <= src.Length
    ensures x == Word(src[..], i, w)
  {
    x := 0;
    for k := w downto 0
      invariant x == Word(src[..], i + k, w - k)
    {
      x := src[i + k] as nat + 256 * x;
    }
  }

  method LoadXor(src: array<byte>, m: nat, ip: nat, w: nat) returns (v: nat)
    requires m + w <= src.Length && ip + w <= src.Length
    ensures v == Xor(Word(src[..], m, w), Word(src[..], ip, w))
  {
    var a := LoadWord(src, ip, w);
    var b := LoadWord(src, m, w);
    v := Xor(b, a);
  }

  /** The number of zero bytes at the low end of a combined word that is not zero. */
  method TrailingBytes(ghost s: seq<byte>, ghost m: nat, ghost ip: nat, ghost w: nat, v0: nat) returns (k: nat)
    requires m + w <= |s| && ip + w <= |s|
    requires v0 == Xor(Word(s, m, w), Word(s, ip, w)) && v0 != 0
    ensures k == Common(s, m, ip, w) && k < w
  {
    hide Xor, Word, Common;
    k := 0;
    var v := v0;
    while v % 256 == 0
      invariant k <= w && v == Xor(Word(s, m + k, w - k), Word(s, ip + k, w - k)) && v != 0
      invariant Common(s, m, ip, w) == k + Common(s, m + k, ip + k, w - k)
      decreases w - k
    {
      WordShift(s, m + k, ip + k, w - k, v);
      v := v / 256;
      k := k + 1;
    }
    WordShift(s, m + k, ip + k, w - k, v);
  }

  /** The loop over 64-bit words. */
  method ExtendByWords64(src: array<byte>, m: nat, ip: nat, ipEnd: nat) returns (len: nat)
    requires m < ip < ipEnd && ipEnd + 20 <= src.Length
    ensures len == Extend(src[..], m, ip, ipEnd, 4)
  {
    hide Xor, Word, Common;
    len := 4;
    var v := LoadXor(src, m + len, ip + len, 8);
    WordZero(src[..], m + len, ip + len, 8);
    while v == 0
      invariant ip + len < ipEnd + 4
      invariant v == Xor(Word(src[..], m + len, 8), Word(src[..], ip + len, 8))
      invariant v == 0 <==> Common(src[..], m + len, ip + len, 8) == 8
      invariant Extend(src[..], m, ip, ipEnd, 4) == Extend(src[..], m, ip, ipEnd, len)
      decreases ipEnd + 4 - ip - len
    {
      len := len + 8;
      v := LoadXor(src, m + len, ip + len, 8);
      if ip + len >= ipEnd { return; }
      WordZero(src[..], m + len, ip + len, 8);
    }
    var k := TrailingBytes(src[..], m + len, ip + len, 8, v);
    len := len + k;
  }

  /** The loop over 32-bit words, two per round. */
  method ExtendByWords32(src: array<byte>, m: nat, ip: nat, ipEnd: nat) returns (len: nat)
    requires m < ip < ipEnd && ipEnd + 20 <= src.Length
    ensures len == Extend(src[..], m, ip, ipEnd, 4)
  {
    hide Xor, Word, Common;
    len := 4;
    var v := LoadXor(src, m + len, ip + len, 4);
    WordZero(src[..], m + len, ip + len, 4);
    CommonSplit(src[..], m + len, ip + len, 4, 4);
    while v == 0
      invariant ip + len < ipEnd + 4
      invariant v == Xor(Word(src[..], m + len, 4), Word(src[..], ip + len, 4))
      invariant v == 0 <==> Common(src[..], m + len, ip + len, 4) == 4
      invariant v != 0 ==> Common(src[..], m + len, ip + len, 8) == Common(src[..], m + len, ip + len, 4)
      invariant v == 0 ==> Common(src[..], m + len, ip + len, 8) == 4 + Common(src[..], m + len + 4, ip + len + 4, 4)
      invariant Extend(src[..], m, ip, ipEnd, 4) == Extend(src[..], m, ip, ipEnd, len)
      decreases ipEnd + 4 - ip - len
    {
      v := LoadXor(src, m + len + 4, ip + len + 4, 4);
      WordZero(src[..], m + len + 4, ip + len + 4, 4);
      if v != 0 {
        var k := TrailingBytes(src[..], m + len + 4, ip + len + 4, 4, v);
        len := len + 4 + k;
        return;
      }
      len := len + 8;
      v := LoadXor(src, m + len, ip + len, 4);
      if ip + len >= ipEnd { return; }
      WordZero(src[..], m + len, ip + len, 4);
      CommonSplit(src[..], m + len, ip + len, 4, 4);
    }
    var k := TrailingBytes(src[..], m + len, ip + len, 4, v);
    len := len + k;
  }

  lemma CommonStep(s: seq<byte>, i: nat, j: nat, w: nat)
    requires w >= 1 && i + w <= |s| && j + w <= |s|
    ensures Common(s, i, j, w) == if s[i] != s[j] then 0 else 1 + Common(s, i + 1, j + 1, w - 1)
    ensures Common(s, i + 1, j + 1, 0) == 0
  {
  }

  /** What one round of eight comparisons decides. */
  lemma ExtendRound(s: seq<byte>, m: nat, ip: nat, ipEnd: nat, len: nat)
    requires m < ip && ip + len < ipEnd + 4 && ipEnd + 20 <= |s|
    ensures var k := Common(s, m + len, ip + len, 8);
            && (k < 8 ==> Extend(s, m, ip, ipEnd, len) == len + k)
            && (k == 8 && ip + len + 8 >= ipEnd ==> Extend(s, m, ip, ipEnd, len) == len + 8)
            && (k == 8 && ip + len + 8 < ipEnd ==> Extend(s, m, ip, ipEnd, len) == Extend(s, m, ip, ipEnd, len + 8))
  {
    hide Common;
  }

  /** The loop over bytes: the end of the chunk is tested once in a round of eight bytes. */
  method ExtendByBytes(src: array<byte>, m: nat, ip: nat, ipEnd: nat) returns (len: nat)
    requires m < ip < ipEnd && ipEnd + 20 <= src.Length
    ensures len == Extend(src[..], m, ip, ipEnd, 4)
  {
    hide Common, Extend;
    ghost var s := src[..];
    len := 4;
    var round := 0;
    ExtendRound(s, m, ip, ipEnd, len);
    CommonStep(s, m + len, ip + len, 8);
    while src[ip + len] == src[m + len]
      invariant 0 <= round < 8 && round <= len && ip + len - round < ipEnd + 4
      invariant Common(s, m + len - round, ip + len - round, 8)
                  == round + Common(s, m + len, ip + len, 8 - round)
      invariant src[ip + len] != src[m + len] ==> Common(s, m + len, ip + len, 8 - round) == 0
      invariant Extend(s, m, ip, ipEnd, 4) == Extend(s, m, ip, ipEnd, len - round)
      decreases ipEnd + 12 - ip - len
    {
      CommonStep(s, m + len, ip + len, 8 - round);
      ExtendRound(s, m, ip, ipEnd, len - round);
      len, round := len + 1, round + 1;
      if round == 8 {
        if ip + len >= ipEnd { return; }
        round := 0;
      }
      CommonStep(s, m + len, ip + len, 8 - round);
    }
    ExtendRound(s, m, ip, ipEnd, len - round);
  }
}
