// LZO1 and LZO1A with five run bits: constants of the marker byte.
module Lzo1Format {

  datatype Variant = Lzo1 | Lzo1a

  const MIN_MATCH := 3
  const MAX_MATCH_SHORT := 8
  const MIN_MATCH_LONG := 9
  const MAX_MATCH_LONG := 264
  const MAX_OFFSET := 8192
  const OSIZE := 32
  const LONG_MATCH := 224
  const R0MIN := 32
  const R0FAST := 280
  const DVAL_LEN := 3
}

// The two decoders as one machine. Neither checks anything while it runs, so memory accesses that would leave the
// buffers are modelled as a fault.
module Lzo1Decoder {
  import opened Bytes
  import opened Window
  import opened Lzo1Format

  /** The top of the loop; after a short literal run, where LZO1A takes a marker below 32 for an R1 match; and the
      literal that belongs to an R1 match. */
  datatype Label = Top | AfterRun | R1Literal

  datatype State = State(at: Label, ip: nat, out: seq<byte>)

  datatype Code = Ok | InputNotConsumed | InputOverrun

  datatype Result = Done(code: Code, out: seq<byte>) | Fault

  datatype Outcome = Goto(next: State) | Halt(code: Code) | Crash

  /** Where a short run leads. */
  function AfterShort(v: Variant): Label {
    if v.Lzo1a? then AfterRun else Top
  }

  function CopyRun(cap: nat, mem: seq<byte>, ip: nat, out: seq<byte>, t: nat, at: Label): (r: Outcome)
    ensures r.Goto? ==> r.next.ip == ip + t <= |mem| && |r.next.out| == |out| + t <= cap
  {
    if ip + t <= |mem| && |out| + t <= cap then Goto(State(at, ip + t, out + mem[ip..ip + t])) else Crash
  }

  function CopyBack(cap: nat, ip: nat, out: seq<byte>, off: nat, len: nat, at: Label): (r: Outcome)
    requires off >= 1
    ensures r.Goto? ==> r.next.ip == ip && |r.next.out| == |out| + len <= cap
  {
    if off <= |out| && |out| + len <= cap then Goto(State(at, ip, CopyMatch(out, off, len))) else Crash
  }

  /** `tt = 256; do tt <<= 1; while (--t > 0)` */
  function LongRun(t: nat): (r: nat)
    ensures r >= 256
  {
    if t == 0 then 256 else 2 * LongRun(t - 1)
  }

  /** A match whose marker t has been read. */
  function TakeMatch(cap: nat, mem: seq<byte>, ip: nat, out: seq<byte>, t: byte): (r: Outcome)
    ensures r.Goto? ==> ip < r.next.ip <= |mem| && |r.next.out| <= cap
  {
    if ip >= |mem| then Crash
    else
      var off := 1 + (t % OSIZE + mem[ip] as nat * OSIZE);
      if t < LONG_MATCH then CopyBack(cap, ip + 1, out, off, 2 + t as nat / OSIZE, Top)
      else if ip + 1 >= |mem| then Crash
      else CopyBack(cap, ip + 2, out, off, MIN_MATCH_LONG + mem[ip + 1] as nat, Top)
  }

  /** A literal run whose marker t has been read. */
  function TakeRun(v: Variant, cap: nat, mem: seq<byte>, ip: nat, out: seq<byte>, t: byte): (r: Outcome)
    requires ip <= |mem|
    ensures r.Goto? ==> ip <= r.next.ip <= |mem| && |r.next.out| <= cap
  {
    if t != 0 then CopyRun(cap, mem, ip, out, t, AfterShort(v))
    else if ip >= |mem| then Crash
    else
      var u := mem[ip] as nat;
      if u < R0FAST - R0MIN then CopyRun(cap, mem, ip + 1, out, u + R0MIN, AfterShort(v))
      else CopyRun(cap, mem, ip + 1, out, if u == R0FAST - R0MIN then R0FAST else LongRun(u - (R0FAST - R0MIN)), Top)
  }

  /** A match of three bytes, to be followed by a literal. */
  function TakeR1(cap: nat, mem: seq<byte>, ip: nat, out: seq<byte>, t: byte): (r: Outcome)
    ensures r.Goto? ==> ip < r.next.ip <= |mem| && |r.next.out| <= cap
  {
    if ip >= |mem| then Crash else CopyBack(cap, ip + 1, out, 1 + (t + mem[ip] as nat * OSIZE), MIN_MATCH, R1Literal)
  }

  /** One step on memory that starts at `in`; the input ends at n. */
  function Step(v: Variant, cap: nat, mem: seq<byte>, n: nat, s: State): (r: Outcome)
    ensures r.Goto? ==> s.ip < r.next.ip <= |mem| && |r.next.out| <= cap
  {
    if s.at.R1Literal? then CopyRun(cap, mem, s.ip, s.out, 1, AfterRun)
    else if s.ip >= n then Halt(if s.ip == n then Ok else InputOverrun)
    else if s.ip >= |mem| then Crash
    else
      var t := mem[s.ip];
      if t >= R0MIN then TakeMatch(cap, mem, s.ip + 1, s.out, t)
      else if s.at.Top? then TakeRun(v, cap, mem, s.ip + 1, s.out, t)
      else TakeR1(cap, mem, s.ip + 1, s.out, t)
  }

  function Run(v: Variant, cap: nat, mem: seq<byte>, n: nat, s: State): (r: Result)
    requires s.ip <= |mem|
    decreases |mem| - s.ip
  {
    match Step(v, cap, mem, n, s)
    case Goto(next) => Run(v, cap, mem, n, next)
    case Halt(code) => Done(code, s.out)
    case Crash => Fault
  }

  const INIT := State(Top, 0, [])

  /** lzo1_decompress and lzo1a_decompress on the first n bytes of mem, with room for cap bytes. */
  function Decode(v: Variant, cap: nat, mem: seq<byte>, n: nat): Result {
    Run(v, cap, mem, n, INIT)
  }
}
