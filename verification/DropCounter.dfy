/** The count of events lost to a full ring buffer, shared by all CPUs
    (felix/bpf-gpl/ringbuf.h:33-127). Each atomic operation is one step, and the steps of any
    number of CPUs interleave in any order. */
module DropCounter {

  const U64 := 0x1_0000_0000_0000_0000
  const FLUSH_INTERVAL := 5_000_000_000

  /** Where one CPU is in ringbuf_submit_event. */
  datatype Cpu =
    | Idle
    | Flushing(now: nat)
    | Holding(now: nat, dropped: nat)
    | Restoring(dropped: nat)
    | Stamping(now: nat)

  /** The shared counter and stamp, and the CPUs. bumped and reported are the totals so far, and
      wraps counts the times the counter went past 64 bits. */
  datatype State = State(count: nat, lastFlush: nat, cpus: seq<Cpu>, bumped: nat, reported: nat, wraps: nat)

  datatype Action =
    | SubmitFails
    | SubmitSucceeds(now: nat)
    | Exchange
    | Emit(ok: bool)
    | Restore
    | Stamp

  function Init(n: nat): State {
    State(0, 0, seq(n, _ => Idle), 0, 0, 0)
  }

  predicate Enabled(s: State, cpu: nat, a: Action) {
    cpu < |s.cpus| &&
    match a
    case SubmitFails => s.cpus[cpu].Idle?
    case SubmitSucceeds(now) => s.cpus[cpu].Idle? && now < U64
    case Exchange => s.cpus[cpu].Flushing?
    case Emit(_) => s.cpus[cpu].Holding?
    case Restore => s.cpus[cpu].Restoring?
    case Stamp => s.cpus[cpu].Stamping?
  }

  /** __sync_fetch_and_add */
  function Added(s: State, n: nat): State {
    s.(count := (s.count + n) % U64, wraps := s.wraps + (s.count + n) / U64)
  }

  function At(s: State, cpu: nat, c: Cpu): State
    requires cpu < |s.cpus|
  {
    s.(cpus := s.cpus[cpu := c])
  }

  function Next(s: State, cpu: nat, a: Action): State
    requires Enabled(s, cpu, a)
  {
    match a
    case SubmitFails => Added(s, 1).(bumped := s.bumped + 1)
    case SubmitSucceeds(now) =>
      if (now - s.lastFlush) % U64 < FLUSH_INTERVAL then s else At(s, cpu, Flushing(now))
    case Exchange =>
      if s.count == 0 then At(s, cpu, Idle)
      else At(s, cpu, Holding(s.cpus[cpu].now, s.count)).(count := 0)
    case Emit(ok) =>
      if ok then At(s, cpu, Stamping(s.cpus[cpu].now)).(reported := s.reported + s.cpus[cpu].dropped)
      else At(s, cpu, Restoring(s.cpus[cpu].dropped))
    case Restore => At(Added(s, s.cpus[cpu].dropped), cpu, Idle)
    case Stamp => At(s, cpu, Idle).(lastFlush := s.cpus[cpu].now)
  }

  type Step = (nat, Action)

  ghost predicate ValidRun(s: State, steps: seq<Step>)
    decreases |steps|
  {
    steps != [] ==> Enabled(s, steps[0].0, steps[0].1) && ValidRun(Next(s, steps[0].0, steps[0].1), steps[1..])
  }

  ghost function After(s: State, steps: seq<Step>): State
    requires ValidRun(s, steps)
    decreases |steps|
  {
    if steps == [] then s else After(Next(s, steps[0].0, steps[0].1), steps[1..])
  }

  // ---------- Conservation ----------

  /** What a CPU has taken out of the counter and not yet accounted for. */
  function InHand(c: Cpu): nat {
    match c
    case Holding(_, dropped) => dropped
    case Restoring(dropped) => dropped
    case _ => 0
  }

  function InFlight(cpus: seq<Cpu>): nat {
    if cpus == [] then 0 else InHand(cpus[0]) + InFlight(cpus[1..])
  }

  ghost predicate Conserved(s: State) {
    s.count < U64 && s.bumped == s.reported + s.count + InFlight(s.cpus) + s.wraps * U64
  }

  lemma {:induction false} OneCpu(cpus: seq<Cpu>, i: nat, c: Cpu)
    requires i < |cpus|
    ensures InFlight(cpus[i := c]) + InHand(cpus[i]) == InFlight(cpus) + InHand(c)
  {
    if i == 0 {
      assert cpus[i := c][1..] == cpus[1..];
    } else {
      assert cpus[i := c][1..] == cpus[1..][i - 1 := c];
      OneCpu(cpus[1..], i - 1, c);
    }
  }

  lemma StepConserves(s: State, cpu: nat, a: Action)
    requires Conserved(s) && Enabled(s, cpu, a)
    ensures Conserved(Next(s, cpu, a))
  {
    OneCpu(s.cpus, cpu, Next(s, cpu, a).cpus[cpu]);
    assert s.cpus[cpu := s.cpus[cpu]] == s.cpus;
  }

  lemma {:induction false} NothingInFlight(cpus: seq<Cpu>)
    requires forall i :: 0 <= i < |cpus| ==> InHand(cpus[i]) == 0
    ensures InFlight(cpus) == 0
  {
    if cpus != [] { NothingInFlight(cpus[1..]); }
  }

  lemma {:induction false} RunConserves(s: State, steps: seq<Step>)
    requires Conserved(s) && ValidRun(s, steps)
    ensures Conserved(After(s, steps))
    decreases |steps|
  {
    if steps != [] {
      StepConserves(s, steps[0].0, steps[0].1);
      RunConserves(Next(s, steps[0].0, steps[0].1), steps[1..]);
    }
  }

  /** On any number of CPUs and in any interleaving, no drop is lost or counted twice: until
      2^64 of them, those bumped are those reported, those stored and those in flight. Between
      events nothing is in flight. */
  lemma DropsConserved(n: nat, steps: seq<Step>)
    requires ValidRun(Init(n), steps)
    ensures var s := After(Init(n), steps);
            && s.bumped == s.reported + s.count + InFlight(s.cpus) + s.wraps * U64
            && (s.bumped < U64 ==> s.bumped == s.reported + s.count + InFlight(s.cpus))
            && (s.bumped < U64 && (forall i :: 0 <= i < |s.cpus| ==> s.cpus[i].Idle?) ==>
                  s.bumped == s.reported + s.count)
  {
    NothingInFlight(Init(n).cpus);
    RunConserves(Init(n), steps);
    var s := After(Init(n), steps);
    if forall i :: 0 <= i < |s.cpus| ==> s.cpus[i].Idle? { NothingInFlight(s.cpus); }
  }

  // ---------- Flushing ----------

  /** The time since, on a clock that wraps. */
  function Since(start: nat, now: nat): int {
    if start <= now then now - start else now + U64 - start
  }

  /** An event that gets through starts a flush exactly if the last one is at least five seconds ago. */
  lemma FlushStartsExactly(s: State, cpu: nat, now: nat)
    requires Enabled(s, cpu, SubmitSucceeds(now)) && s.lastFlush < U64
    ensures var s' := Next(s, cpu, SubmitSucceeds(now));
            if Since(s.lastFlush, now) >= 5_000_000_000 then s' == s.(cpus := s.cpus[cpu := Flushing(now)]) else s' == s
  {
    assert (now - s.lastFlush) % U64 == Since(s.lastFlush, now);
  }

  /** While a CPU waits, the others leave it where it is. */
  lemma {:induction false} OthersLeave(s: State, steps: seq<Step>, cpu: nat)
    requires ValidRun(s, steps) && cpu < |s.cpus| && forall k :: 0 <= k < |steps| ==> steps[k].0 != cpu
    ensures var s' := After(s, steps); |s'.cpus| == |s.cpus| && s'.cpus[cpu] == s.cpus[cpu]
    decreases |steps|
  {
    if steps != [] { OthersLeave(Next(s, steps[0].0, steps[0].1), steps[1..], cpu); }
  }

  /** A flush takes the whole count, whatever was added to it until then. What it took is reported once
      it is emitted, however many steps of other CPUs come before that, and is to be put back if not. */
  lemma FlushReports(s: State, cpu: nat, others: seq<Step>, ok: bool)
    requires cpu < |s.cpus| && s.cpus[cpu].Flushing? && s.count > 0
    requires ValidRun(Next(s, cpu, Exchange), others) && forall k :: 0 <= k < |others| ==> others[k].0 != cpu
    ensures var t := After(Next(s, cpu, Exchange), others);
            && Next(s, cpu, Exchange).count == 0 && Enabled(t, cpu, Emit(ok))
            && var e := Next(t, cpu, Emit(ok));
               if ok then
                 && e.reported == t.reported + s.count && e.count == t.count
                 && Enabled(e, cpu, Stamp) && Next(e, cpu, Stamp).lastFlush == s.cpus[cpu].now
                 && Next(e, cpu, Stamp).cpus[cpu].Idle?
               else e.reported == t.reported && e.count == t.count && e.cpus[cpu] == Restoring(s.count)
  {
    OthersLeave(Next(s, cpu, Exchange), others, cpu);
  }

  lemma RestorePutsBack(s: State, cpu: nat)
    requires Enabled(s, cpu, Restore)
    ensures var s' := Next(s, cpu, Restore);
            s'.count == (s.count + s.cpus[cpu].dropped) % U64 && s'.cpus[cpu].Idle? && s'.reported == s.reported
  {
  }

  /** There is nothing to flush if nothing was lost. */
  lemma NothingToFlush(s: State, cpu: nat)
    requires cpu < |s.cpus| && s.cpus[cpu].Flushing? && s.count == 0
    ensures Next(s, cpu, Exchange) == s.(cpus := s.cpus[cpu := Idle])
  {
  }
}
