// Bytes, little-endian words and the overlapping copy that every LZO decoder performs.
module Bytes {
  type byte = x: int | 0 <= x < 256

  /** One more than the largest 32-bit word. */
  const WORD32: nat := 0x1_0000_0000

  /** The cast LZO_BYTE(x): the low eight bits. */
  function ToByte(x: nat): byte {
    x % 256
  }

  /** Bitwise or of two 2-bit values. */
  function Or2(a: nat, b: nat): (r: nat)
    requires a < 4 && b < 4
    ensures r < 4
  {
    (if a % 2 == 1 || b % 2 == 1 then 1 else 0) + (if a >= 2 || b >= 2 then 2 else 0)
  }

  /** `b | t` for a byte b and a 2-bit value t. */
  function OrLow(b: byte, t: nat): (r: byte)
    requires t < 4
    ensures r / 4 == b / 4
    ensures b % 4 == 0 ==> r % 4 == t
    ensures t == 0 ==> r == b
  {
    b - b % 4 + Or2(b % 4, t)
  }

  /** The 32-bit little-endian word at index i. */
  function LE32(s: seq<byte>, i: nat): nat
    requires i + 4 <= |s|
  {
    s[i] as int + 0x100 * s[i + 1] as int + 0x1_0000 * s[i + 2] as int + 0x100_0000 * s[i + 3] as int
  }

  /** Two words are equal exactly when their four bytes are. */
  lemma LE32Injective(s: seq<byte>, i: nat, j: nat)
    requires i + 4 <= |s| && j + 4 <= |s|
    ensures LE32(s, i) == LE32(s, j) <==> s[i..i + 4] == s[j..j + 4]
  {
    LE32Bytes(s, i);
    LE32Bytes(s, j);
    if s[i..i + 4] == s[j..j + 4] {
      assert s[i] == s[i..i + 4][0] && s[i + 1] == s[i..i + 4][1] && s[i + 2] == s[i..i + 4][2]
             && s[i + 3] == s[i..i + 4][3];
      assert s[j] == s[j..j + 4][0] && s[j + 1] == s[j..j + 4][1] && s[j + 2] == s[j..j + 4][2]
             && s[j + 3] == s[j..j + 4][3];
    }
  }

  /** The bytes of a word, read back from it. */
  lemma LE32Bytes(s: seq<byte>, i: nat)
    requires i + 4 <= |s|
    ensures var w := LE32(s, i);
            s[i] == w % 0x100 && s[i + 1] == w / 0x100 % 0x100 && s[i + 2] == w / 0x1_0000 % 0x100
              && s[i + 3] == w / 0x100_0000
  {
    var w := LE32(s, i);
    assert w == 0x100 * (s[i + 1] as int + 0x100 * s[i + 2] as int + 0x1_0000 * s[i + 3] as int) + s[i] as int;
    assert w / 0x100 == 0x100 * (s[i + 2] as int + 0x100 * s[i + 3] as int) + s[i + 1] as int;
    assert w / 0x1_0000 == 0x100 * s[i + 3] as int + s[i + 2] as int;
  }
}

// Slices of sequences and of concatenations.
module Slices {
  /** All but the last element, and the last element. */
  function Front<T>(s: seq<T>): (r: seq<T>)
    requires s != []
    ensures |r| == |s| - 1
  {
    s[..|s| - 1]
  }

  function Last<T>(s: seq<T>): T
    requires s != []
  {
    s[|s| - 1]
  }

  lemma Join<T>(s: seq<T>, a: nat, b: nat, c: nat)
    requires a <= b <= c <= |s|
    ensures s[a..c] == s[a..b] + s[b..c]
  {
  }

  lemma Sub<T>(s: seq<T>, a: nat, b: nat, i: nat, j: nat)
    requires a <= b <= |s| && i <= j <= b - a
    ensures s[a..b][i..j] == s[a + i..a + j]
  {
    forall k | 0 <= k < j - i
      ensures s[a..b][i..j][k] == s[a + i..a + j][k]
    {
      assert s[a..b][i + k] == s[a + i + k];
    }
  }

  lemma Regroup<T>(a: seq<T>, b: seq<T>, c: seq<T>, d: seq<T>, e: seq<T>)
    ensures ((a + b + c) + d) + e == a + (b + (c + (d + e)))
  {
  }

  lemma Parts<T>(s: seq<T>, a: seq<T>, b: seq<T>, c: seq<T>)
    requires a + b + c <= s
    ensures s[..|a|] == a
    ensures s[|a|..|a| + |b|] == b
    ensures s[|a| + |b|..|a| + |b| + |c|] == c
  {
    var whole := a + b + c;
    assert s[..|whole|] == whole;
    assert whole[..|a|] == a && whole[|a|..|a| + |b|] == b && whole[|a| + |b|..] == c;
    assert s[..|a|] == s[..|whole|][..|a|];
    assert s[|a|..|a| + |b|] == s[..|whole|][|a|..|a| + |b|];
    assert s[|a| + |b|..|whole|] == s[..|whole|][|a| + |b|..];
  }
}

// Products in order.
module Arithmetic {
  lemma Scale(i: nat, j: nat, m: nat)
    requires i <= j
    ensures i * m <= j * m
    ensures (i + 1) * m == i * m + m
    ensures i < j ==> i * m + m <= j * m
  {
    if i < j {
      assert j * m == i * m + m + (j - i - 1) * m;
    }
  }

  lemma Cancel(a: nat, b: nat, m: nat)
    requires a * m < b * m
    ensures a < b
  {
    if b <= a {
      Scale(b, a, m);
    }
  }
}

// Where pieces of a file or of a stream stand.
module Layout {
  import opened Bytes

  /** code stands at index i. */
  predicate At(s: seq<byte>, i: nat, code: seq<byte>) {
    i + |code| <= |s| && s[i..i + |code|] == code
  }

  lemma AtSplit(s: seq<byte>, i: nat, a: seq<byte>, b: seq<byte>)
    requires At(s, i, a + b)
    ensures At(s, i, a) && At(s, i + |a|, b)
  {
    var c := a + b;
    assert c[..|a|] == a && c[|a|..] == b;
    assert s[i..i + |a|] == s[i..i + |c|][..|a|];
    assert s[i + |a|..i + |c|] == s[i..i + |c|][|a|..];
  }

  lemma AtFits(s: seq<byte>, i: nat, code: seq<byte>)
    requires At(s, i, code)
    ensures i + |code| <= |s|
  {
  }

  lemma AtWhole(s: seq<byte>, i: nat, code: seq<byte>)
    requires At(s, i, code)
    ensures i + |code| <= |s| && s[i..i + |code|] == code
  {
  }

  lemma AtByte(s: seq<byte>, i: nat, code: seq<byte>, k: nat)
    requires At(s, i, code) && k < |code|
    ensures s[i + k] == code[k]
  {
    assert s[i..i + |code|][k] == code[k];
  }
}

// The output window of a decoder.
module Window {
  import opened Bytes

  /** Appends len bytes, each a copy of the byte off positions earlier: the byte-at-a-time match copy, in which
      source and destination may overlap. */
  function CopyMatch(out: seq<byte>, off: nat, len: nat): (r: seq<byte>)
    requires 1 <= off <= |out|
    ensures |r| == |out| + len
    ensures r[..|out|] == out
    decreases len
  {
    if len == 0 then out else CopyMatch(out + [out[|out| - off]], off, len - 1)
  }

  /** From index n on, every byte equals the one off positions before it. */
  ghost predicate Periodic(s: seq<byte>, n: nat, off: nat) {
    forall k :: n <= k < |s| && off <= k ==> s[k] == s[k - off]
  }

  lemma {:induction false} CopyMatchPeriodic(out: seq<byte>, off: nat, len: nat)
    requires 1 <= off <= |out|
    ensures Periodic(CopyMatch(out, off, len), |out|, off)
    decreases len
  {
    if len != 0 {
      var next := out + [out[|out| - off]];
      var r := CopyMatch(next, off, len - 1);
      CopyMatchPeriodic(next, off, len - 1);
      assert r[|out|] == r[..|next|][|out|] == next[|out|];
      assert r[|out| - off] == r[..|next|][|out| - off] == next[|out| - off];
    }
  }

  /** The periodicity determines the copy. */
  lemma {:induction false} CopyMatchUnique(out: seq<byte>, off: nat, len: nat, s: seq<byte>)
    requires 1 <= off <= |out|
    requires |s| == |out| + len && s[..|out|] == out && Periodic(s, |out|, off)
    ensures s == CopyMatch(out, off, len)
    decreases len
  {
    if len == 0 {
      assert s[..|out|] == s;
    } else {
      var next := out + [out[|out| - off]];
      assert s[|out|] == s[|out| - off] == s[..|out|][|out| - off];
      assert s[..|next|] == next;
      CopyMatchUnique(next, off, len - 1, s);
    }
  }

  /** A copy of a + b bytes is a copy of a bytes followed by one of b bytes. */
  lemma {:induction false} CopyMatchSplit(out: seq<byte>, off: nat, a: nat, b: nat)
    requires 1 <= off <= |out|
    ensures CopyMatch(out, off, a + b) == CopyMatch(CopyMatch(out, off, a), off, b)
    decreases a
  {
    if a != 0 {
      CopyMatchSplit(out + [out[|out| - off]], off, a - 1, b);
    }
  }

  /** Up to off bytes the copy is one plain slice: the wide (4- or 8-byte) load and store of a chunk. */
  lemma CopyMatchChunk(out: seq<byte>, off: nat, len: nat)
    requires 1 <= off <= |out| && len <= off
    ensures CopyMatch(out, off, len) == out + out[|out| - off..|out| - off + len]
  {
    var s := out + out[|out| - off..|out| - off + len];
    CopyMatchUnique(out, off, len, s);
  }

  /** Bytes in front of the window do not matter to a copy that stays inside it. */
  lemma {:induction false} CopyMatchShift(dict: seq<byte>, out: seq<byte>, off: nat, len: nat)
    requires 1 <= off <= |out|
    ensures CopyMatch(dict + out, off, len) == dict + CopyMatch(out, off, len)
    decreases len
  {
    if len != 0 {
      var next := out + [out[|out| - off]];
      assert dict + next == dict + out + [(dict + out)[|dict + out| - off]];
      CopyMatchShift(dict, next, off, len - 1);
    }
  }
}
