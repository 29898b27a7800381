// lzo1_decompress and lzo1a_decompress on arrays.
module Lzo1Decompress {
  import opened Bytes
  import opened Slices
  import opened Memory
  import opened Window
  import opened Lzo1Format
  import opened Lzo1Decoder

  class Decompressor {
    const src: array<byte>
    const inp: nat
    const dst: array<byte>
    const outp: nat
    const ipEnd: nat
    ghost const v: Variant
    ghost const base: seq<byte>
    ghost const mem: seq<byte>
    ghost const cap: nat

    var ip: nat
    var op: nat

    constructor (ghost v: Variant, src: array<byte>, inp: nat, inLen: nat, dst: array<byte>, outp: nat)
      requires inp + inLen <= src.Length && outp <= dst.Length && src != dst
      ensures this.v == v && this.src == src && this.dst == dst && this.outp == outp && ipEnd == inp + inLen
      ensures base == dst[..] && mem == src[inp..] && cap == dst.Length - outp && this.inp == inp
      ensures Holds(0, [])
    {
      this.v, this.src, this.inp, this.dst, this.outp := v, src, inp, dst, outp;
      ipEnd := inp + inLen;
      base, mem, cap := dst[..], src[inp..], dst.Length - outp;
      ip, op := inp, outp;
    }

    /** i input bytes have been consumed and the bytes out have been written, and nothing else. */
    ghost predicate Holds(i: nat, out: seq<byte>)
      reads this, src, dst
    {
      && src != dst && inp <= ipEnd <= src.Length && outp <= dst.Length && |base| == dst.Length
      && mem == src[inp..] && cap == dst.Length - outp
      && ip == inp + i && i <= |mem| && op == outp + |out| && |out| <= cap
      && dst[..] == Overlay(base, outp, out)
    }

    ghost predicate Sim(s: State)
      reads this, src, dst
    {
      Holds(s.ip, s.out)
    }

    method GetByte(ghost i: nat, ghost out: seq<byte>) returns (t: byte)
      requires Holds(i, out) && i < |mem|
      modifies this`ip
      ensures Holds(i + 1, out) && t == mem[i]
    {
      t := src[ip];
      assert src[ip] == src[inp..][i];
      ip := ip + 1;
    }

    /** MEMCPY_DS(op, ip, t) from the input. */
    method CopyInput(t: nat, ghost at: Label, ghost i: nat, ghost out: seq<byte>)
      requires Holds(i, out) && CopyRun(cap, mem, i, out, t, at).Goto?
      modifies this`ip, this`op, dst
      ensures Sim(CopyRun(cap, mem, i, out, t, at).next)
    {
      hide Overlay;
      ghost var x := mem[i..i + t];
      Sub(src[..], inp, src.Length, i, i + t);
      assert src[..][inp..src.Length] == src[inp..] && src[..][inp + i..inp + i + t] == src[ip..ip + t];
      CopyBytes(src, ip, dst, op, t);
      OverlayNext(base, outp, out, x);
      ip, op := ip + t, op + t;
    }

    /** The copy of a match, a byte at a time. */
    method CopyOutput(off: nat, len: nat, ghost at: Label, ghost i: nat, ghost out: seq<byte>)
      requires off >= 1 && Holds(i, out) && CopyBack(cap, i, out, off, len, at).Goto?
      modifies this`op, dst
      ensures Sim(CopyBack(cap, i, out, off, len, at).next)
    {
      hide Overlay, MatchBytes, CopyMatch;
      ghost var x := MatchBytes(out, off, len);
      OverlayPrefix(base, outp, out);
      InWindow(base[..outp], out, off, len);
      assert dst[..op] == dst[..][..op];
      CopyMatchBytes(dst, op, off, len);
      OverlayNext(base, outp, out, x);
      assert out + x == CopyMatch(out, off, len);
      op := op + len;
    }

    /** A match whose marker t has been read. */
    method Match(t: byte, ghost i: nat, ghost out: seq<byte>)
      requires Holds(i, out) && TakeMatch(cap, mem, i, out, t).Goto?
      modifies this`ip, this`op, dst
      ensures Sim(TakeMatch(cap, mem, i, out, t).next)
    {
      hide Holds, CopyMatch;
      var b := GetByte(i, out);
      var off := 1 + (t % OSIZE + b as nat * OSIZE);
      if t >= LONG_MATCH {
        b := GetByte(i + 1, out);
        CopyOutput(off, MIN_MATCH_LONG + b as nat, Top, i + 2, out);
      } else {
        CopyOutput(off, 2 + t as nat / OSIZE, Top, i + 1, out);
      }
    }

    /** A literal run whose marker t has been read. long: a long R0 run. */
    method Run(t: byte, ghost i: nat, ghost out: seq<byte>) returns (long: bool)
      requires Holds(i, out) && TakeRun(v, cap, mem, i, out, t).Goto?
      modifies this`ip, this`op, dst
      ensures Sim(TakeRun(v, cap, mem, i, out, t).next)
      ensures TakeRun(v, cap, mem, i, out, t).next.at == if long then Top else AfterShort(v)
    {
      hide Holds, LongRun;
      long := false;
      var n: nat := t;
      ghost var j := i;
      if t == 0 {
        var u := GetByte(i, out);
        j := i + 1;
        n := u;
        if n >= R0FAST - R0MIN {
          n := n - (R0FAST - R0MIN);
          if n == 0 {
            n := R0FAST;
          } else {
            n := Doubled(n);
          }
          long := true;
        } else {
          n := n + R0MIN;
        }
      }
      CopyInput(n, if long || v.Lzo1? then Top else AfterRun, j, out);
    }

    /** `tt = 256; do tt <<= 1; while (--t > 0)` */
    static method Doubled(t0: nat) returns (tt: nat)
      requires t0 > 0
      ensures tt == LongRun(t0)
    {
      var t := t0 - 1;
      tt := 512;
      while t > 0
        invariant t < t0 && tt == LongRun(t0 - t)
      {
        tt, t := tt * 2, t - 1;
      }
    }

    /** An R1 match and its literal, after the marker t has been read. */
    method R1Match(t: byte, ghost i: nat, ghost out: seq<byte>)
      requires v.Lzo1a? && Holds(i, out) && TakeR1(cap, mem, i, out, t).Goto?
      requires Step(v, cap, mem, ipEnd - inp, TakeR1(cap, mem, i, out, t).next).Goto?
      modifies this`ip, this`op, dst
      ensures Sim(Step(v, cap, mem, ipEnd - inp, TakeR1(cap, mem, i, out, t).next).next)
    {
      hide Holds, CopyMatch;
      ghost var s := TakeR1(cap, mem, i, out, t).next;
      var b := GetByte(i, out);
      CopyOutput(1 + (t + b as nat * OSIZE), MIN_MATCH, R1Literal, i + 1, out);
      CopyInput(1, AfterRun, s.ip, s.out);
    }
  }

  /** One round of the loop: the marker at ip can be read, and leads on. */
  lemma Reading(v: Variant, cap: nat, mem: seq<byte>, n: nat, s: State)
    requires s.ip <= |mem| && !s.at.R1Literal? && s.ip < n && Lzo1Decoder.Run(v, cap, mem, n, s) != Fault
    ensures s.ip < |mem|
    ensures var r := Step(v, cap, mem, n, s);
            && r.Goto? && Lzo1Decoder.Run(v, cap, mem, n, r.next) == Lzo1Decoder.Run(v, cap, mem, n, s)
            && r == (var t := mem[s.ip];
                     if t >= R0MIN then TakeMatch(cap, mem, s.ip + 1, s.out, t)
                     else if s.at.Top? then TakeRun(v, cap, mem, s.ip + 1, s.out, t)
                     else TakeR1(cap, mem, s.ip + 1, s.out, t))
            && (mem[s.ip] >= R0MIN ==> r.next.at == Top)
            && (mem[s.ip] < R0MIN && s.at.Top? ==> r.next.at in {Top, AfterShort(v)})
            && (mem[s.ip] < R0MIN && s.at.AfterRun? ==> r.next.at == R1Literal)
  {
    hide LongRun, CopyMatch;
  }

  lemma ReadingLiteral(v: Variant, cap: nat, mem: seq<byte>, n: nat, s: State)
    requires s.ip <= |mem| && s.at.R1Literal? && Lzo1Decoder.Run(v, cap, mem, n, s) != Fault
    ensures var r := Step(v, cap, mem, n, s);
            && r.Goto? && r.next.at == AfterRun
            && Lzo1Decoder.Run(v, cap, mem, n, r.next) == Lzo1Decoder.Run(v, cap, mem, n, s)
  {
  }

  lemma AtEnd(v: Variant, cap: nat, mem: seq<byte>, n: nat, s: State)
    requires s.ip <= |mem| && !s.at.R1Literal? && s.ip >= n
    ensures Lzo1Decoder.Run(v, cap, mem, n, s) == Done(if s.ip == n then Ok else InputOverrun, s.out)
  {
  }

  /** lzo1_decompress: no tests, so only for data on which no access leaves the buffers. */
  method DecompressLzo1(src: array<byte>, inp: nat, inLen: nat, dst: array<byte>, outp: nat)
    returns (code: Code, outLen: nat)
    requires inp + inLen <= src.Length && outp <= dst.Length && src != dst
    requires Decode(Lzo1, dst.Length - outp, src[inp..], inLen) != Fault
    modifies dst
    ensures Decode(Lzo1, dst.Length - outp, old(src[inp..]), inLen).code == code
    ensures var out := Decode(Lzo1, dst.Length - outp, old(src[inp..]), inLen).out;
            outLen == |out| && outp + |out| <= dst.Length && dst[..] == Overlay(old(dst[..]), outp, out)
  {
    hide Overlay, TakeRun, TakeMatch, TakeR1, Lzo1Decoder.Run, Step;
    var d := new Decompressor(Lzo1, src, inp, inLen, dst, outp);
    ghost var s, result := INIT, Decode(Lzo1, d.cap, d.mem, inLen);
    while d.ip < d.ipEnd
      invariant d.Sim(s) && s.at == Top && Lzo1Decoder.Run(Lzo1, d.cap, d.mem, inLen, s) == result
      decreases |d.mem| - s.ip
    {
      Reading(Lzo1, d.cap, d.mem, inLen, s);
      var t := d.GetByte(s.ip, s.out);
      if t < R0MIN {
        var long := d.Run(t, s.ip + 1, s.out);
      } else {
        d.Match(t, s.ip + 1, s.out);
      }
      s := Step(Lzo1, d.cap, d.mem, inLen, s).next;
    }
    AtEnd(Lzo1, d.cap, d.mem, inLen, s);
    outLen := d.op - outp;
    code := if d.ip == d.ipEnd then Ok else if d.ip < d.ipEnd then InputNotConsumed else InputOverrun;
  }

  /** lzo1a_decompress. */
  method DecompressLzo1a(src: array<byte>, inp: nat, inLen: nat, dst: array<byte>, outp: nat)
    returns (code: Code, outLen: nat)
    requires inp + inLen <= src.Length && outp <= dst.Length && src != dst
    requires Decode(Lzo1a, dst.Length - outp, src[inp..], inLen) != Fault
    modifies dst
    ensures Decode(Lzo1a, dst.Length - outp, old(src[inp..]), inLen).code == code
    ensures var out := Decode(Lzo1a, dst.Length - outp, old(src[inp..]), inLen).out;
            outLen == |out| && outp + |out| <= dst.Length && dst[..] == Overlay(old(dst[..]), outp, out)
  {
    hide Overlay, TakeRun, TakeMatch, TakeR1, Lzo1Decoder.Run, Step;
    var d := new Decompressor(Lzo1a, src, inp, inLen, dst, outp);
    ghost var s, result := INIT, Decode(Lzo1a, d.cap, d.mem, inLen);
    while d.ip < d.ipEnd
      invariant d.Sim(s) && Lzo1Decoder.Run(Lzo1a, d.cap, d.mem, inLen, s) == result
      invariant s.at == Top || (s.at == AfterRun && d.ip >= d.ipEnd)
      decreases |d.mem| - s.ip
    {
      Reading(Lzo1a, d.cap, d.mem, inLen, s);
      var t := d.GetByte(s.ip, s.out);
      if t < R0MIN {
        var long := d.Run(t, s.ip + 1, s.out);
        s := Step(Lzo1a, d.cap, d.mem, inLen, s).next;
        if !long {
          s := AfterLiterals(d, s, inLen);
        }
      } else {
        d.Match(t, s.ip + 1, s.out);
        s := Step(Lzo1a, d.cap, d.mem, inLen, s).next;
      }
    }
    AtEnd(Lzo1a, d.cap, d.mem, inLen, s);
    outLen := d.op - outp;
    code := if d.ip == d.ipEnd then Ok else if d.ip < d.ipEnd then InputNotConsumed else InputOverrun;
  }

  /** The inner loop after a short run: R1 matches until the input ends or a match is read. */
  method AfterLiterals(d: Decompressor, ghost s0: State, ghost inLen: nat) returns (ghost s: State)
    requires d.Sim(s0) && s0.at == AfterRun && d.v == Lzo1a && inLen == d.ipEnd - d.inp
    requires Lzo1Decoder.Run(Lzo1a, d.cap, d.mem, inLen, s0) != Fault
    modifies d`ip, d`op, d.dst
    ensures d.Sim(s) && s.ip >= s0.ip
    ensures Lzo1Decoder.Run(Lzo1a, d.cap, d.mem, inLen, s) == Lzo1Decoder.Run(Lzo1a, d.cap, d.mem, inLen, s0)
    ensures s.at == Top || (s.at == AfterRun && d.ip >= d.ipEnd)
  {
    hide Overlay, TakeRun, TakeMatch, TakeR1, Lzo1Decoder.Run, Step;
    s := s0;
    var matched := false;
    while !matched && d.ip < d.ipEnd
      invariant d.Sim(s) && s.ip >= s0.ip
      invariant Lzo1Decoder.Run(Lzo1a, d.cap, d.mem, inLen, s) == Lzo1Decoder.Run(Lzo1a, d.cap, d.mem, inLen, s0)
      invariant s.at == if matched then Top else AfterRun
      decreases |d.mem| - s.ip
    {
      Reading(Lzo1a, d.cap, d.mem, inLen, s);
      var t := d.GetByte(s.ip, s.out);
      if t >= R0MIN {
        d.Match(t, s.ip + 1, s.out);
        s := Step(Lzo1a, d.cap, d.mem, inLen, s).next;
        matched := true;
      } else {
        ghost var mid := Step(Lzo1a, d.cap, d.mem, inLen, s).next;
        ReadingLiteral(Lzo1a, d.cap, d.mem, inLen, mid);
        d.R1Match(t, s.ip + 1, s.out);
        s := Step(Lzo1a, d.cap, d.mem, inLen, mid).next;
      }
    }
  }
}
