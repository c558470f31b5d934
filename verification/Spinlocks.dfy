/**
 Spinlocks and the nesting of disabled interrupts, under every interleaving of any
 number of CPUs and locks.

 A step is one access to shared state: the exchange that takes a lock, the store that
 records its CPU, the store that frees it, or one pushcli or popcli; or a switch from a
 process to the scheduler of its CPU or back.  A process may resume on another CPU than
 the one it left, and sched carries the interrupt flag along for it.
 */
module Spinlocks {
  import opened Machine

  /** Where a CPU is in acquire or release. */
  datatype Pc =
    | Outside
    | Spinning(l: nat)      // pushcli is done
    | Got(l: nat)           // the exchange has succeeded, lk->cpu is not yet set
    | Releasing(l: nat)     // lk->cpu is cleared, lk->locked not yet
    | Popping               // the lock is free, popcli is still to come

  /**
   who is the process that runs; None is the CPU's scheduler.  The other fields after pc are
   history: the locks held, the bare pushcli calls open, the interrupt flag before the
   outermost pushcli of whoever runs, and the same of the scheduler while a process runs.
   */
  datatype Cpu = Cpu(ncli: int, intena: bool, on: bool, pc: Pc, who: Option<nat>, holds: set<nat>, extra: nat, before: bool, idle: bool)

  /** A process: not run yet; in sched, with the flag it saved, and as history that before its outermost pushcli; or on a CPU. */
  datatype Thread = New | Parked(intena: bool, before: bool) | OnCpu

  datatype Lock = Lock(locked: bool, cpu: Option<nat>)

  /** table is ptable.lock; own is history: the CPU whose exchange took the lock. */
  datatype State = State(cpus: seq<Cpu>, locks: seq<Lock>, table: nat, threads: seq<Thread>, own: seq<Option<nat>>, panicked: bool)

  datatype Step =
    | Push(c: nat) | Pop(c: nat)              // pushcli and popcli called directly
    | Acquire(c: nat, l: nat) | Release(c: nat, l: nat)
    | Next(c: nat)                            // the next access of the acquire or release under way
    | SetInterrupts(c: nat, on: bool)         // sti or cli by code outside any pushcli
    | Sched(c: nat)                           // sched, up to the switch to the scheduler
    | Switch(c: nat, p: nat)                  // the scheduler's switch to p, and p's return from sched

  predicate Initial(s: State) {
    && !s.panicked && |s.own| == |s.locks|
    && (forall c :: 0 <= c < |s.cpus| ==> s.cpus[c] == Cpu(0, s.cpus[c].intena, s.cpus[c].on, Outside, None, {}, 0, s.cpus[c].before, s.cpus[c].idle))
    && (forall p :: 0 <= p < |s.threads| ==> s.threads[p] == New)
    && forall l :: 0 <= l < |s.locks| ==> s.locks[l] == Lock(false, None) && s.own[l] == None
  }

  predicate UnderWay(pc: Pc, locks: nat) {
    match pc
    case Outside => false
    case Spinning(l) => l < locks
    case Got(l) => l < locks
    case Releasing(l) => l < locks
    case Popping => true
  }

  predicate Enabled(s: State, step: Step) {
    && !s.panicked && |s.own| == |s.locks|
    && match step
       case Push(c) => c < |s.cpus| && s.cpus[c].pc.Outside?
       case Pop(c) => c < |s.cpus| && s.cpus[c].pc.Outside? && s.cpus[c].extra > 0
       case Acquire(c, l) => c < |s.cpus| && l < |s.locks| && s.cpus[c].pc.Outside?
       case Release(c, l) => c < |s.cpus| && l < |s.locks| && s.cpus[c].pc.Outside?
       case Next(c) => c < |s.cpus| && UnderWay(s.cpus[c].pc, |s.locks|)
       case SetInterrupts(c, _) => c < |s.cpus| && s.cpus[c].pc.Outside? && s.cpus[c].ncli == 0
       case Sched(c) =>
         c < |s.cpus| && s.table < |s.locks| && s.cpus[c].pc.Outside? && s.cpus[c].who.Some? && s.cpus[c].who.value < |s.threads|
       case Switch(c, p) =>
         && c < |s.cpus| && s.cpus[c].pc.Outside? && s.cpus[c].who == None && s.cpus[c].holds == {s.table} && s.cpus[c].extra == 0
         && p < |s.threads| && s.threads[p] != OnCpu
  }

  function PushCli(q: Cpu): Cpu {
    q.(on := false, intena := if q.ncli == 0 then q.on else q.intena, before := if q.ncli == 0 then q.on else q.before, ncli := q.ncli + 1)
  }

  /** popcli panics if interrupts are on or it has no pushcli to undo. */
  predicate PopPanics(q: Cpu) {
    q.on || q.ncli - 1 < 0
  }

  function PopCli(q: Cpu): Cpu {
    q.(ncli := q.ncli - 1, on := q.ncli == 1 && q.intena)
  }

  /** holding. */
  predicate Holding(k: Lock, c: nat) {
    k.locked && k.cpu == Some(c)
  }

  /** The scheduler takes over its CPU with whatever flag the process had. */
  function ToScheduler(q: Cpu): Cpu {
    q.(who := None, before := q.idle)
  }

  /** A process is back from sched with its own flag; a new one begins with the flag that the CPU has. */
  function ToProcess(q: Cpu, p: nat, h: Thread): Cpu {
    if h.Parked? then q.(who := Some(p), idle := q.before, intena := h.intena, before := h.before)
    else q.(who := Some(p), idle := q.before, before := q.intena)
  }

  function Do(s: State, step: Step): (t: State)
    requires Enabled(s, step)
    ensures |t.cpus| == |s.cpus| && |t.locks| == |s.locks| && |t.own| == |s.own| && |t.threads| == |s.threads| && t.table == s.table
  {
    match step
    case Push(c) => s.(cpus := s.cpus[c := PushCli(s.cpus[c]).(extra := s.cpus[c].extra + 1)])
    case Pop(c) =>
      if PopPanics(s.cpus[c]) then s.(panicked := true)
      else s.(cpus := s.cpus[c := PopCli(s.cpus[c]).(extra := s.cpus[c].extra - 1)])
    case Acquire(c, l) =>
      if Holding(s.locks[l], c) then s.(panicked := true)
      else s.(cpus := s.cpus[c := PushCli(s.cpus[c]).(pc := Spinning(l))])
    case Release(c, l) =>
      if !Holding(s.locks[l], c) then s.(panicked := true)
      else s.(cpus := s.cpus[c := s.cpus[c].(pc := Releasing(l), holds := s.cpus[c].holds - {l})],
              locks := s.locks[l := s.locks[l].(cpu := None)])
    case SetInterrupts(c, on) => s.(cpus := s.cpus[c := s.cpus[c].(on := on)])
    case Sched(c) =>
      var q := s.cpus[c];
      if !Holding(s.locks[s.table], c) || q.ncli != 1 || q.on then s.(panicked := true)
      else s.(threads := s.threads[q.who.value := Parked(q.intena, q.before)], cpus := s.cpus[c := ToScheduler(q)])
    case Switch(c, p) =>
      s.(threads := s.threads[p := OnCpu], cpus := s.cpus[c := ToProcess(s.cpus[c], p, s.threads[p])])
    case Next(c) =>
      match s.cpus[c].pc
      case Spinning(l) =>
        if s.locks[l].locked then s.(locks := s.locks[l := s.locks[l].(locked := true)])
        else s.(locks := s.locks[l := s.locks[l].(locked := true)], own := s.own[l := Some(c)], cpus := s.cpus[c := s.cpus[c].(pc := Got(l))])
      case Got(l) =>
        s.(locks := s.locks[l := s.locks[l].(cpu := Some(c))],
           cpus := s.cpus[c := s.cpus[c].(pc := Outside, holds := s.cpus[c].holds + {l})])
      case Releasing(l) =>
        s.(locks := s.locks[l := s.locks[l].(locked := false)], own := s.own[l := None], cpus := s.cpus[c := s.cpus[c].(pc := Popping)])
      case Popping =>
        if PopPanics(s.cpus[c]) then s.(panicked := true)
        else s.(cpus := s.cpus[c := PopCli(s.cpus[c]).(pc := Outside)])
      case Outside => s
  }

  ghost predicate Runs(s: State, steps: seq<Step>, t: State)
    decreases |steps|
  {
    if steps == [] then s == t else Enabled(s, steps[0]) && Runs(Do(s, steps[0]), steps[1..], t)
  }

  // ----- invariant

  /** Calls of pushcli that acquire and release have yet to undo, besides one for each lock held. */
  function Pending(pc: Pc): nat {
    if pc.Outside? then 0 else 1
  }

  predicate CpuOk(q: Cpu) {
    && q.ncli == |q.holds| + q.extra + Pending(q.pc)
    && (q.ncli > 0 ==> !q.on && (q.who.Some? ==> q.intena == q.before))
  }

  predicate Has(q: Cpu, l: nat) {
    l in q.holds || q.pc == Got(l) || q.pc == Releasing(l)
  }

  ghost predicate CpusInv(s: State) {
    forall c: nat :: c < |s.cpus| ==> CpuOk(s.cpus[c])
  }

  predicate OwnAt(s: State, c: nat, l: nat) {
    c < |s.cpus| && l < |s.locks| ==>
      (l < |s.own| && (Has(s.cpus[c], l) <==> s.own[l] == Some(c)) && (s.locks[l].locked <==> s.own[l].Some?))
  }

  predicate FieldAt(s: State, c: nat, l: nat) {
    c < |s.cpus| ==>
      && (l in s.cpus[c].holds <==> l < |s.locks| && s.locks[l].cpu == Some(c))
      && (s.cpus[c].pc == Got(l) || s.cpus[c].pc == Releasing(l) ==> l !in s.cpus[c].holds)
  }

  ghost predicate OwnInv(s: State) {
    |s.own| == |s.locks| && forall c: nat, l: nat :: OwnAt(s, c, l)
  }

  ghost predicate FieldInv(s: State) {
    forall c: nat, l: nat :: FieldAt(s, c, l)
  }

  /** Each process runs on at most one CPU, and what sched has saved is the flag before the process's pushcli. */
  ghost predicate ThreadsInv(s: State) {
    && (forall c: nat :: c < |s.cpus| && s.cpus[c].who.Some? ==>
          s.cpus[c].who.value < |s.threads| && s.threads[s.cpus[c].who.value] == OnCpu)
    && (forall c: nat, d: nat :: c < |s.cpus| && d < |s.cpus| && c != d && s.cpus[c].who.Some? ==> s.cpus[d].who != s.cpus[c].who)
    && forall p: nat :: p < |s.threads| && s.threads[p].Parked? ==> s.threads[p].intena == s.threads[p].before
  }

  ghost predicate Inv(s: State) {
    CpusInv(s) && OwnInv(s) && FieldInv(s) && ThreadsInv(s)
  }

  /** The CPU that takes a step. */
  function Actor(step: Step): nat {
    match step
    case Push(c) => c
    case Pop(c) => c
    case Acquire(c, l) => c
    case Release(c, l) => c
    case Next(c) => c
    case SetInterrupts(c, on) => c
    case Sched(c) => c
    case Switch(c, p) => c
  }

  lemma StepKeepsThreads(s: State, step: Step)
    requires CpusInv(s) && FieldInv(s) && ThreadsInv(s) && Enabled(s, step)
    ensures ThreadsInv(Do(s, step))
  {
    var c, t := Actor(step), Do(s, step);
    assert CpuOk(s.cpus[c]);
    if !step.Sched? && !step.Switch? {
      assert t.threads == s.threads && forall d: nat :: d < |s.cpus| ==> t.cpus[d].who == s.cpus[d].who;
    }
  }

  lemma StepKeepsCpus(s: State, step: Step)
    requires CpusInv(s) && FieldInv(s) && ThreadsInv(s) && Enabled(s, step)
    ensures CpusInv(Do(s, step))
  {
    var c, t := Actor(step), Do(s, step);
    assert CpuOk(s.cpus[c]);
    if step.Release? && !t.panicked {
      assert FieldAt(s, c, step.l);
      assert |s.cpus[c].holds - {step.l}| == |s.cpus[c].holds| - 1;
    }
    if step.Next? && s.cpus[c].pc.Got? {
      assert FieldAt(s, c, s.cpus[c].pc.l);
      assert |s.cpus[c].holds + {s.cpus[c].pc.l}| == |s.cpus[c].holds| + 1;
    }
  }

  lemma StepKeepsOwn(s: State, step: Step)
    requires OwnInv(s) && FieldInv(s) && Enabled(s, step)
    ensures OwnInv(Do(s, step))
  {
    forall c: nat, l: nat
      ensures OwnAt(Do(s, step), c, l)
    {
      assert OwnAt(s, c, l) && OwnAt(s, Actor(step), l);
      assert FieldAt(s, c, l) && FieldAt(s, Actor(step), l);
    }
  }

  lemma StepKeepsFields(s: State, step: Step)
    requires OwnInv(s) && FieldInv(s) && Enabled(s, step)
    ensures FieldInv(Do(s, step))
  {
    forall c: nat, l: nat
      ensures FieldAt(Do(s, step), c, l)
    {
      assert OwnAt(s, c, l) && OwnAt(s, Actor(step), l);
      assert FieldAt(s, c, l) && FieldAt(s, Actor(step), l);
    }
  }

  lemma {:induction false} RunsKeepInv(s: State, steps: seq<Step>, t: State)
    requires Inv(s) && Runs(s, steps, t)
    ensures Inv(t)
    decreases |steps|
  {
    hide CpusInv, OwnInv, FieldInv, ThreadsInv, Do, Enabled;
    if steps != [] {
      StepKeepsThreads(s, steps[0]);
      StepKeepsCpus(s, steps[0]);
      StepKeepsOwn(s, steps[0]);
      StepKeepsFields(s, steps[0]);
      RunsKeepInv(Do(s, steps[0]), steps[1..], t);
    }
  }

  /** CPU c has returned from acquire of lock l and not called release. */
  predicate HoldsLock(s: State, c: nat, l: nat) {
    c < |s.cpus| && l in s.cpus[c].holds
  }

  lemma HeldBy(s: State, c: nat, l: nat)
    requires Inv(s) && c < |s.cpus| && l in s.cpus[c].holds
    ensures l < |s.locks| && l < |s.own| && s.own[l] == Some(c) && Holding(s.locks[l], c)
  {
    assert FieldAt(s, c, l) && OwnAt(s, c, l);
  }

  lemma Counted(s: State, c: nat)
    requires Inv(s) && c < |s.cpus|
    ensures CpuOk(s.cpus[c])
  {
  }

  /** Before any step nothing is held. */
  lemma InitialInv(s: State)
    requires Initial(s)
    ensures Inv(s)
  {
  }

  /**
   In every reachable state: no lock is held by two CPUs; a CPU that holds a lock, or has
   an open pushcli, runs with interrupts off, and ncli counts exactly these; and popcli
   has not panicked.
   */
  lemma Exclusion(s: State, steps: seq<Step>, t: State)
    requires Initial(s) && Runs(s, steps, t)
    ensures forall c: nat, d: nat, l: nat :: HoldsLock(t, c, l) && HoldsLock(t, d, l) ==> c == d
    ensures forall c: nat :: c < |t.cpus| ==>
              var q := t.cpus[c];
              && (q.ncli > 0 <==> q.holds != {} || q.extra > 0 || !q.pc.Outside?)
              && (q.ncli > 0 ==> !q.on)
    ensures forall c: nat, l: nat :: HoldsLock(t, c, l) ==> l < |t.locks| && Holding(t.locks[l], c)
  {
    hide CpusInv, OwnInv, FieldInv, ThreadsInv, Holding, Runs, Initial;
    InitialInv(s);
    RunsKeepInv(s, steps, t);
    forall c: nat, l: nat | HoldsLock(t, c, l)
      ensures l < |t.locks| && Holding(t.locks[l], c)
    {
      HeldBy(t, c, l);
    }
    forall c: nat, d: nat, l: nat | HoldsLock(t, c, l) && HoldsLock(t, d, l)
      ensures c == d
    {
      HeldBy(t, c, l);
      HeldBy(t, d, l);
    }
    forall c: nat | c < |t.cpus|
      ensures CpuOk(t.cpus[c])
    {
      Counted(t, c);
    }
  }

  /** The only panics are those for acquiring a lock that the CPU holds, for releasing one that it does not hold, and for sched without ptable.lock or within another pushcli. */
  lemma PanicsIff(s: State, steps: seq<Step>, t: State, step: Step)
    requires Initial(s) && Runs(s, steps, t) && Enabled(t, step)
    ensures Do(t, step).panicked <==>
              (step.Acquire? && step.l in t.cpus[step.c].holds) || (step.Release? && step.l !in t.cpus[step.c].holds)
              || (step.Sched? && (t.table !in t.cpus[step.c].holds || t.cpus[step.c].ncli != 1))
  {
    InitialInv(s);
    RunsKeepInv(s, steps, t);
    assert CpuOk(t.cpus[Actor(step)]);
    if step.Acquire? || step.Release? {
      assert OwnAt(t, step.c, step.l) && FieldAt(t, step.c, step.l);
    }
    if step.Sched? {
      assert OwnAt(t, step.c, t.table) && FieldAt(t, step.c, t.table);
    }
  }

  /**
   The popcli that closes the outermost pushcli puts a process's interrupt flag back, also
   if the process has changed its CPU since; the scheduler's only if the last process on
   its CPU had the same flag.
   */
  lemma InterruptsRestored(s: State, steps: seq<Step>, t: State, step: Step)
    requires Initial(s) && Runs(s, steps, t) && Enabled(t, step) && (step.Pop? || step.Next?)
    requires t.cpus[step.c].ncli > 0 && Do(t, step).cpus[step.c].ncli == 0
    ensures t.cpus[step.c].who.Some? ==> Do(t, step).cpus[step.c].on == t.cpus[step.c].before
    ensures Do(t, step).cpus[step.c].on == t.cpus[step.c].before <==> t.cpus[step.c].intena == t.cpus[step.c].before
  {
    InitialInv(s);
    RunsKeepInv(s, steps, t);
    assert CpuOk(t.cpus[step.c]);
  }

  /** Until the scheduler of some CPU takes p up again, what sched saved for it stays. */
  lemma {:induction false} StaysParked(s: State, steps: seq<Step>, t: State, p: nat)
    requires Inv(s) && Runs(s, steps, t) && p < |s.threads| && s.threads[p].Parked?
    requires forall k :: 0 <= k < |steps| && steps[k].Switch? ==> steps[k].p != p
    ensures |t.threads| == |s.threads| && t.threads[p] == s.threads[p]
    decreases |steps|
  {
    if steps != [] {
      var u := Do(s, steps[0]);
      assert u.threads[p] == s.threads[p];
      assert Runs(s, steps[..1], u) by {
        assert steps[..1][1..] == [];
      }
      RunsKeepInv(s, steps[..1], u);
      StaysParked(u, steps[1..], t, p);
    }
  }

  /** A process that calls sched on one CPU resumes with its flag, on whichever CPU and whatever has run there in between. */
  lemma FlagTravels(s: State, c: nat, steps: seq<Step>, t: State, d: nat)
    requires Inv(s) && Enabled(s, Sched(c)) && !Do(s, Sched(c)).panicked && Runs(Do(s, Sched(c)), steps, t)
    requires var p := s.cpus[c].who.value;
             Enabled(t, Switch(d, p)) && forall k :: 0 <= k < |steps| && steps[k].Switch? ==> steps[k].p != p
    ensures var q := Do(t, Switch(d, s.cpus[c].who.value)).cpus[d];
            q.who == s.cpus[c].who && q.intena == s.cpus[c].intena && q.before == s.cpus[c].before && q.intena == q.before
  {
    var u := Do(s, Sched(c));
    assert Runs(s, [Sched(c)], u) by {
      assert [Sched(c)][1..] == [];
    }
    assert CpuOk(s.cpus[c]);
    RunsKeepInv(s, [Sched(c)], u);
    StaysParked(u, steps, t, s.cpus[c].who.value);
  }
}
