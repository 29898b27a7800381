// Comparing two stretches of the input: what every match finder relies on.
module Matching {
  import opened Bytes
  import opened Slices
  import opened Window

  /** All bytes are equal. */
  predicate Same(input: seq<byte>) {
    forall i :: 0 <= i < |input| ==> input[i] == input[0]
  }

  /** The n bytes at i and at j are the same. */
  predicate Agree(s: seq<byte>, i: nat, j: nat, n: nat) {
    i + n <= |s| && j + n <= |s| && s[i..i + n] == s[j..j + n]
  }

  lemma AgreeOne(s: seq<byte>, i: nat, j: nat)
    requires i <= |s| && j <= |s|
    ensures Agree(s, i, j, 0)
    ensures i < |s| && j < |s| && s[i] == s[j] ==> Agree(s, i, j, 1)
  {
  }

  lemma AgreeFurther(s: seq<byte>, i: nat, j: nat, n: nat, c: nat)
    requires Agree(s, i, j, n) && Agree(s, i + n, j + n, c)
    ensures Agree(s, i, j, n + c)
  {
    Join(s, i, i + n, i + n + c);
    Join(s, j, j + n, j + n + c);
  }

  /** How many of n bytes agree at i and j. */
  function Common(s: seq<byte>, i: nat, j: nat, n: nat): (r: nat)
    requires i + n <= |s| && j + n <= |s|
    ensures r <= n
    decreases n
  {
    if n == 0 || s[i] != s[j] then 0 else 1 + Common(s, i + 1, j + 1, n - 1)
  }

  lemma {:induction false} CommonExact(s: seq<byte>, i: nat, j: nat, n: nat)
    requires i + n <= |s| && j + n <= |s|
    ensures var r := Common(s, i, j, n); Agree(s, i, j, r) && (r < n ==> s[i + r] != s[j + r])
    decreases n
  {
    hide Agree;
    AgreeOne(s, i, j);
    if n != 0 && s[i] == s[j] {
      CommonExact(s, i + 1, j + 1, n - 1);
      AgreeFurther(s, i, j, 1, Common(s, i + 1, j + 1, n - 1));
    }
  }

  /** A match found by comparing input bytes copies exactly those bytes. */
  lemma MatchCopiesInput(input: seq<byte>, m: nat, ip: nat, len: nat)
    requires m < ip && Agree(input, m, ip, len)
    ensures CopyMatch(input[..ip], ip - m, len) == input[..ip + len]
  {
    var whole := input[..ip + len];
    assert whole[..ip] == input[..ip];
    forall k | ip <= k < |whole| && ip - m <= k
      ensures whole[k] == whole[k - (ip - m)]
    {
      assert input[ip..ip + len][k - ip] == input[m..m + len][k - ip];
    }
    assert Periodic(whole, ip, ip - m);
    CopyMatchUnique(input[..ip], ip - m, len, whole);
  }
}
