// The worker pool of lzo_cpu/lzo_frag.c as a state machine over its atomic steps.
module FragPool {
  const OK := 0

  /** What a call on each chunk returns. */
  type Job = nat -> int

  /** Where a worker stands: before the fetch-and-add, before the status test, before the call on its chunk, before the
      store of an error, or out of its loop. */
  datatype Pc = Fetch | Check(idx: nat) | Work(idx: nat) | Report(idx: nat, rc: int) | Exited

  /** log lists the chunks in the order in which calls were made on them. */
  datatype Pool = Pool(next: nat, status: int, pcs: seq<Pc>, log: seq<nat>)

  /** At least one worker is started. */
  function Init(threads: int): (p: Pool)
    ensures |p.pcs| >= 1
  {
    Pool(0, OK, seq(if threads < 1 then 1 else threads, _ => Fetch), [])
  }

  predicate Enabled(p: Pool, w: nat) {
    w < |p.pcs| && !p.pcs[w].Exited?
  }

  /** The next atomic step of worker w. */
  function Step(job: Job, count: nat, p: Pool, w: nat): (r: Pool)
    requires Enabled(p, w)
    ensures |r.pcs| == |p.pcs|
  {
    match p.pcs[w]
    case Fetch => p.(next := p.next + 1, pcs := p.pcs[w := if p.next >= count then Exited else Check(p.next)])
    case Check(idx) => p.(pcs := p.pcs[w := if p.status != OK then Exited else Work(idx)])
    case Work(idx) =>
      var rc := job(idx);
      p.(log := p.log + [idx], pcs := p.pcs[w := if rc != OK then Report(idx, rc) else Fetch])
    case Report(_, rc) => p.(status := rc, pcs := p.pcs[w := Exited])
  }

  /** A step depends on no other call than the one it makes. */
  lemma StepCalls(job: Job, job': Job, count: nat, p: Pool, w: nat)
    requires Enabled(p, w) && (p.pcs[w].Work? ==> job(p.pcs[w].idx) == job'(p.pcs[w].idx))
    ensures Step(job, count, p, w) == Step(job', count, p, w)
  {
  }

  /** A schedule names the worker of each step. */
  ghost predicate Schedule(job: Job, count: nat, p: Pool, ws: seq<nat>)
    decreases |ws|
  {
    ws != [] ==> Enabled(p, ws[0]) && Schedule(job, count, Step(job, count, p, ws[0]), ws[1..])
  }

  ghost function Exec(job: Job, count: nat, p: Pool, ws: seq<nat>): Pool
    requires Schedule(job, count, p, ws)
    decreases |ws|
  {
    if ws == [] then p else Exec(job, count, Step(job, count, p, ws[0]), ws[1..])
  }

  predicate AllExited(p: Pool) {
    forall w :: 0 <= w < |p.pcs| ==> p.pcs[w].Exited?
  }

  // ---- the invariant ----

  /** Worker w owns chunk i: it has fetched the index and has not called on it yet. */
  predicate Owns(p: Pool, w: nat, i: nat) {
    w < |p.pcs| && (p.pcs[w] == Check(i) || p.pcs[w] == Work(i))
  }

  ghost predicate Owned(p: Pool, i: nat) {
    exists w: nat :: Owns(p, w, i)
  }

  ghost predicate Reporting(job: Job, p: Pool, i: nat) {
    exists w :: 0 <= w < |p.pcs| && p.pcs[w] == Report(i, job(i))
  }

  ghost predicate NoRepeats(s: seq<nat>) {
    forall a, b :: 0 <= a < b < |s| ==> s[a] != s[b]
  }

  /** Indices are handed out once; a chunk is owned by at most one worker, and is called on only by its owner. */
  ghost predicate Exclusive(count: nat, p: Pool) {
    && (forall i :: i in p.log ==> i < p.next && i < count)
    && (forall w: nat, i: nat :: Owns(p, w, i) ==> i < p.next && i < count && i !in p.log)
    && (forall w: nat, w': nat, i: nat :: Owns(p, w, i) && Owns(p, w', i) ==> w == w')
    && NoRepeats(p.log)
  }

  /** Errors are not lost, and without an error no fetched chunk is skipped. */
  ghost predicate Complete(job: Job, count: nat, p: Pool) {
    && (p.status != OK ==> exists i :: i in p.log && job(i) == p.status)
    && (forall w :: 0 <= w < |p.pcs| && p.pcs[w].Report? ==>
          p.pcs[w].idx in p.log && p.pcs[w].rc == job(p.pcs[w].idx) && p.pcs[w].rc != OK)
    && (p.status == OK ==>
          && (forall w :: 0 <= w < |p.pcs| && p.pcs[w].Exited? ==> p.next >= count)
          && (forall i :: 0 <= i < p.next && i < count ==> i in p.log || Owned(p, i))
          && (forall i :: i in p.log && job(i) != OK ==> Reporting(job, p, i)))
  }

  ghost predicate Inv(job: Job, count: nat, p: Pool) {
    Exclusive(count, p) && Complete(job, count, p)
  }

  lemma InitInv(job: Job, count: nat, threads: int)
    ensures Inv(job, count, Init(threads))
  {
  }

  lemma StepExclusive(job: Job, count: nat, p: Pool, w: nat)
    requires Exclusive(count, p) && Enabled(p, w)
    ensures Exclusive(count, Step(job, count, p, w))
  {
    var r := Step(job, count, p, w);
    forall v: nat, i: nat | Owns(r, v, i)
      ensures i < r.next && i < count && i !in r.log
      ensures v == w && p.pcs[w].Fetch? ==> i == p.next
      ensures v != w || !p.pcs[w].Fetch? ==> Owns(p, v, i)
    {
      StepOwns(job, count, p, w, v, i);
    }
    if p.pcs[w].Work? {
      assert Owns(p, w, p.pcs[w].idx);
    }
  }

  /** Ownership is kept, or newly fetched. */
  lemma StepOwns(job: Job, count: nat, p: Pool, w: nat, v: nat, i: nat)
    requires Exclusive(count, p) && Enabled(p, w) && Owns(Step(job, count, p, w), v, i)
    ensures var r := Step(job, count, p, w);
            && i < r.next && i < count && i !in r.log
            && (v == w && p.pcs[w].Fetch? ==> i == p.next)
            && (v != w || !p.pcs[w].Fetch? ==> Owns(p, v, i))
  {
    var r := Step(job, count, p, w);
    if v != w {
      assert p.pcs[v] == r.pcs[v];
      assert Owns(p, v, i);
      if p.pcs[w].Work? {
        assert Owns(p, w, p.pcs[w].idx);
      }
    } else if !p.pcs[w].Fetch? {
      assert Owns(p, w, i);
    }
  }

  lemma StepComplete(job: Job, count: nat, p: Pool, w: nat)
    requires Inv(job, count, p) && Enabled(p, w)
    ensures Complete(job, count, Step(job, count, p, w))
  {
    var r := Step(job, count, p, w);
    if r.status == OK {
      forall i | 0 <= i < r.next && i < count
        ensures i in r.log || Owned(r, i)
      {
        StepOwned(job, count, p, w, i);
      }
      forall i | i in r.log && job(i) != OK
        ensures Reporting(job, r, i)
      {
        StepReporting(job, count, p, w, i);
      }
    }
  }

  lemma StepOwned(job: Job, count: nat, p: Pool, w: nat, i: nat)
    requires Inv(job, count, p) && Enabled(p, w) && i < count
    requires var r := Step(job, count, p, w); r.status == OK && i < r.next
    ensures var r := Step(job, count, p, w); i in r.log || Owned(r, i)
  {
    var r := Step(job, count, p, w);
    if p.status == OK {
      if i == p.next {
        assert Owns(r, w, i);
      } else if i !in p.log {
        var v :| Owns(p, v, i);
        if v != w {
          assert Owns(r, v, i);
        } else if p.pcs[w].Check? {
          assert Owns(r, w, i);
        }
      }
    }
  }

  lemma StepReporting(job: Job, count: nat, p: Pool, w: nat, i: nat)
    requires Inv(job, count, p) && Enabled(p, w) && job(i) != OK
    requires var r := Step(job, count, p, w); r.status == OK && i in r.log
    ensures Reporting(job, Step(job, count, p, w), i)
  {
    var r := Step(job, count, p, w);
    if i in p.log {
      var v :| 0 <= v < |p.pcs| && p.pcs[v] == Report(i, job(i));
      assert r.pcs[v] == Report(i, job(i));
    } else {
      assert r.pcs[w] == Report(i, job(i));
    }
  }

  /** Every step keeps the invariant, and an error status is never cleared. */
  lemma StepInv(job: Job, count: nat, p: Pool, w: nat)
    requires Inv(job, count, p) && Enabled(p, w)
    ensures Inv(job, count, Step(job, count, p, w))
    ensures p.status != OK ==> Step(job, count, p, w).status != OK
  {
    StepExclusive(job, count, p, w);
    StepComplete(job, count, p, w);
  }

  // ---- whole runs ----

  lemma {:induction false} ExecInv(job: Job, count: nat, p: Pool, ws: seq<nat>)
    requires Inv(job, count, p) && Schedule(job, count, p, ws)
    ensures Inv(job, count, Exec(job, count, p, ws))
    ensures |Exec(job, count, p, ws).pcs| == |p.pcs|
    ensures p.status != OK ==> Exec(job, count, p, ws).status != OK
    decreases |ws|
  {
    hide Inv;
    if ws != [] {
      StepInv(job, count, p, ws[0]);
      ExecInv(job, count, Step(job, count, p, ws[0]), ws[1..]);
    }
  }

  /** When the workers have left their loops, the status tells the truth. */
  lemma FinalStatus(job: Job, count: nat, p: Pool)
    requires Inv(job, count, p) && AllExited(p) && |p.pcs| >= 1
    ensures p.status == OK <==> forall i: nat :: i < count ==> job(i) == OK
    ensures p.status == OK ==> NoRepeats(p.log) && forall i: nat :: i < count <==> i in p.log
    ensures p.status != OK ==> exists i: nat :: i < count && job(i) == p.status
  {
    if p.status == OK {
      assert p.pcs[0].Exited?;
      forall i: nat | i < count
        ensures i in p.log && job(i) == OK
      {
        assert !Owned(p, i);
        assert !Reporting(job, p, i);
      }
    }
  }

  /** For any number of threads and any interleaving: no chunk is called on twice; once every worker has left its loop,
      the status is OK exactly when every call succeeds, and then every chunk was called on exactly once. */
  lemma PoolCorrect(job: Job, count: nat, threads: int, ws: seq<nat>)
    requires Schedule(job, count, Init(threads), ws)
    ensures var p := Exec(job, count, Init(threads), ws);
            && NoRepeats(p.log)
            && (AllExited(p) ==> (p.status == OK <==> forall i: nat :: i < count ==> job(i) == OK))
            && (AllExited(p) && p.status == OK ==> forall i: nat :: i < count <==> i in p.log)
            && (AllExited(p) && p.status != OK ==> exists i: nat :: i < count && job(i) == p.status)
  {
    InitInv(job, count, threads);
    ExecInv(job, count, Init(threads), ws);
    var p := Exec(job, count, Init(threads), ws);
    if AllExited(p) {
      FinalStatus(job, count, p);
    }
  }

  // ---- termination ----

  function Sum(pcs: seq<Pc>, f: Pc -> nat): nat {
    if pcs == [] then 0 else f(pcs[0]) + Sum(pcs[1..], f)
  }

  lemma {:induction false} SumUpdate(pcs: seq<Pc>, f: Pc -> nat, w: nat, pc: Pc)
    requires w < |pcs|
    ensures Sum(pcs[w := pc], f) + f(pcs[w]) == Sum(pcs, f) + f(pc)
  {
    if w > 0 {
      assert pcs[w := pc][1..] == pcs[1..][w - 1 := pc];
      SumUpdate(pcs[1..], f, w - 1, pc);
    } else {
      assert pcs[w := pc][1..] == pcs[1..];
    }
  }

  /** The steps that a worker can still make on its own. */
  function Weight(pc: Pc): nat {
    match pc
    case Fetch => 1
    case Check(_) => 3
    case Work(_) => 2
    case Report(_, _) => 1
    case Exited => 0
  }

  /** Steps that are still possible. */
  function Measure(count: nat, p: Pool): nat {
    Sum(p.pcs, Weight) + 3 * (if p.next < count then count - p.next else 0)
  }

  lemma StepDecreases(job: Job, count: nat, p: Pool, w: nat)
    requires Enabled(p, w)
    ensures Measure(count, Step(job, count, p, w)) < Measure(count, p)
  {
    hide Sum;
    SumUpdate(p.pcs, Weight, w, Step(job, count, p, w).pcs[w]);
    assert p.pcs[w := Step(job, count, p, w).pcs[w]] == Step(job, count, p, w).pcs;
  }

  lemma {:induction false} SumFetch(n: nat)
    ensures Sum(seq(n, _ => Fetch), Weight) == n
  {
    if n > 0 {
      assert seq(n, _ => Fetch)[1..] == seq(n - 1, _ => Fetch);
      SumFetch(n - 1);
    }
  }

  lemma {:induction false} ScheduleBounded(job: Job, count: nat, p: Pool, ws: seq<nat>)
    requires Schedule(job, count, p, ws)
    ensures |ws| <= Measure(count, p)
    decreases |ws|
  {
    hide Measure;
    if ws != [] {
      StepDecreases(job, count, p, ws[0]);
      ScheduleBounded(job, count, Step(job, count, p, ws[0]), ws[1..]);
    }
  }

  /** All workers terminate: no schedule is longer than three steps a chunk and one a worker, and a schedule that cannot
      be continued has led every worker out of its loop. */
  lemma PoolTerminates(job: Job, count: nat, threads: int, ws: seq<nat>)
    requires Schedule(job, count, Init(threads), ws)
    ensures |ws| <= 3 * count + |Init(threads).pcs|
    ensures var p := Exec(job, count, Init(threads), ws); (forall w :: !Enabled(p, w)) <==> AllExited(p)
  {
    SumFetch(|Init(threads).pcs|);
    hide Sum;
    assert Init(threads).pcs == seq(|Init(threads).pcs|, _ => Fetch);
    ScheduleBounded(job, count, Init(threads), ws);
    var p := Exec(job, count, Init(threads), ws);
    if forall w :: !Enabled(p, w) {
      forall w | 0 <= w < |p.pcs|
        ensures p.pcs[w].Exited?
      {
        assert !Enabled(p, w);
      }
    }
  }

  function Gone(pc: Pc): nat {
    if pc.Exited? then 1 else 0
  }

  lemma {:induction false} SumGone(pcs: seq<Pc>)
    ensures Sum(pcs, Gone) <= |pcs|
  {
    if pcs != [] {
      SumGone(pcs[1..]);
    }
  }

  lemma {:induction false} ExecIndex(job: Job, count: nat, p: Pool, ws: seq<nat>)
    requires Schedule(job, count, p, ws) && p.next <= count + Sum(p.pcs, Gone)
    ensures var r := Exec(job, count, p, ws); r.next <= count + |p.pcs|
    decreases |ws|
  {
    hide Sum;
    SumGone(p.pcs);
    if ws != [] {
      var r := Step(job, count, p, ws[0]);
      SumUpdate(p.pcs, Gone, ws[0], r.pcs[ws[0]]);
      assert p.pcs[ws[0] := r.pcs[ws[0]]] == r.pcs;
      ExecIndex(job, count, r, ws[1..]);
    }
  }

  /** The shared index never passes the number of chunks plus the number of workers, so a size_t does not wrap. */
  lemma IndexBounded(job: Job, count: nat, threads: int, ws: seq<nat>)
    requires Schedule(job, count, Init(threads), ws)
    ensures Exec(job, count, Init(threads), ws).next <= count + |Init(threads).pcs|
  {
    ExecIndex(job, count, Init(threads), ws);
  }
}
