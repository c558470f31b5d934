/**
 A sleep lock under every interleaving of its users, at the granularity of single
 lock operations.

 The lock's own spinlock is lk; ptable.lock, which sleep and wakeup need and
 which the rest of the kernel takes too, is pt.  A spinlock is acquired in one
 atomic exchange, which succeeds only if it is free.
 */
module SleepLocks {
  import opened Machine

  /** Where a process is in acquiresleep, sleep and releasesleep. */
  datatype Pc =
    | Idle
    | WantLk            // acquire(&lk->lk) in acquiresleep, or again at the end of sleep
    | Testing           // holds lk, tests locked
    | Taken             // has set locked, still holds lk
    | Holding           // has returned from acquiresleep
    | WantPt            // in sleep, holds lk
    | BothHeld          // in sleep, holds lk and ptable.lock
    | Dozing            // in sleep, has released lk, state still RUNNING
    | AsleepPt          // SLEEPING on the lock; its CPU still holds ptable.lock
    | Asleep            // SLEEPING on the lock
    | Runnable          // woken, not yet running
    | Resumed           // running again, holds ptable.lock
    | WantRelease       // acquire(&lk->lk) in releasesleep
    | Releasing         // holds lk, about to clear locked
    | WakingPt          // in wakeup, wants ptable.lock
    | Waking            // in wakeup, holds ptable.lock
    | Woke              // has woken the sleepers
    | Leaving           // has released ptable.lock, still holds lk

  datatype PtHolder = Nobody | Process(p: nat) | Others

  /** pid is the process that set locked, if any. */
  datatype State = State(pcs: seq<Pc>, lk: Option<nat>, pt: PtHolder, locked: bool, pid: Option<nat>)

  datatype Step = Run(p: nat) | OthersAcquire | OthersRelease | Kill(p: nat)

  predicate Initial(s: State) {
    s.lk == None && s.pt == Nobody && !s.locked && s.pid == None && forall p :: 0 <= p < |s.pcs| ==> s.pcs[p] == Idle
  }

  predicate Enabled(s: State, step: Step) {
    match step
    case Run(p) =>
      && p < |s.pcs|
      && (s.pcs[p].WantLk? || s.pcs[p].WantRelease? ==> s.lk == None)
      && (s.pcs[p].WantPt? || s.pcs[p].Runnable? || s.pcs[p].WakingPt? ==> s.pt == Nobody)
      && !s.pcs[p].Asleep?
    case OthersAcquire => s.pt == Nobody
    case OthersRelease => s.pt == Others
    case Kill(p) => p < |s.pcs| && s.pt == Others
  }

  predicate Sleeping(c: Pc) {
    c.AsleepPt? || c.Asleep?
  }

  /** wakeup on the lock: every SLEEPING process becomes RUNNABLE. */
  function WakeAll(pcs: seq<Pc>): (r: seq<Pc>)
    ensures |r| == |pcs| && forall p :: 0 <= p < |pcs| ==> r[p] == if Sleeping(pcs[p]) then Runnable else pcs[p]
  {
    seq(|pcs|, p requires 0 <= p < |pcs| => if Sleeping(pcs[p]) then Runnable else pcs[p])
  }

  function Do(s: State, step: Step): (t: State)
    requires Enabled(s, step)
    ensures |t.pcs| == |s.pcs|
  {
    match step
    case OthersAcquire => s.(pt := Others)
    case OthersRelease => s.(pt := Nobody)
    case Kill(p) => if s.pcs[p] == Asleep then s.(pcs := s.pcs[p := Runnable]) else s
    case Run(p) =>
      match s.pcs[p]
      case Idle => s.(pcs := s.pcs[p := WantLk])
      case WantLk => s.(pcs := s.pcs[p := Testing], lk := Some(p))
      case Testing =>
        if s.locked then s.(pcs := s.pcs[p := WantPt])
        else s.(pcs := s.pcs[p := Taken], locked := true, pid := Some(p))
      case Taken => s.(pcs := s.pcs[p := Holding], lk := None)
      case Holding => s.(pcs := s.pcs[p := WantRelease])
      case WantPt => s.(pcs := s.pcs[p := BothHeld], pt := Process(p))
      case BothHeld => s.(pcs := s.pcs[p := Dozing], lk := None)
      case Dozing => s.(pcs := s.pcs[p := AsleepPt])
      case AsleepPt => s.(pcs := s.pcs[p := Asleep], pt := Nobody)
      case Runnable => s.(pcs := s.pcs[p := Resumed], pt := Process(p))
      case Resumed => s.(pcs := s.pcs[p := WantLk], pt := Nobody)
      case WantRelease => s.(pcs := s.pcs[p := Releasing], lk := Some(p))
      case Releasing => s.(pcs := s.pcs[p := WakingPt], locked := false, pid := None)
      case WakingPt => s.(pcs := s.pcs[p := Waking], pt := Process(p))
      case Waking => s.(pcs := WakeAll(s.pcs)[p := Woke])
      case Woke => s.(pcs := s.pcs[p := Leaving], pt := Nobody)
      case Leaving => s.(pcs := s.pcs[p := Idle], lk := None)
      case Asleep => s
  }

  ghost predicate Runs(s: State, steps: seq<Step>, t: State)
    decreases |steps|
  {
    if steps == [] then s == t else Enabled(s, steps[0]) && Runs(Do(s, steps[0]), steps[1..], t)
  }

  // ----- invariant

  predicate HasLk(c: Pc) {
    c.Testing? || c.Taken? || c.WantPt? || c.BothHeld? || c.Releasing? || c.WakingPt? || c.Waking? || c.Woke? || c.Leaving?
  }

  predicate HasPt(c: Pc) {
    c.BothHeld? || c.Dozing? || c.AsleepPt? || c.Resumed? || c.Waking? || c.Woke?
  }

  /** Between taking the sleep lock and giving it back. */
  predicate Owns(c: Pc) {
    c.Taken? || c.Holding? || c.WantRelease? || c.Releasing?
  }

  /** About to sleep, or sleeping, with lk already released. */
  predicate MustBeWoken(c: Pc) {
    c.Dozing? || c.AsleepPt? || c.Asleep?
  }

  ghost predicate LkInv(s: State) {
    (s.lk.Some? ==> s.lk.value < |s.pcs|) && forall p: nat :: p < |s.pcs| ==> (HasLk(s.pcs[p]) <==> s.lk == Some(p))
  }

  ghost predicate PtInv(s: State) {
    forall p: nat :: p < |s.pcs| ==> (HasPt(s.pcs[p]) <==> s.pt == Process(p))
  }

  ghost predicate OwnerInv(s: State) {
    && (s.locked <==> s.pid.Some?) && (s.pid.Some? ==> s.pid.value < |s.pcs|)
    && forall p: nat :: p < |s.pcs| ==> (Owns(s.pcs[p]) <==> s.pid == Some(p))
  }

  ghost predicate SleepersInv(s: State) {
    && (forall p: nat :: p < |s.pcs| && (s.pcs[p].WantPt? || s.pcs[p].BothHeld?) ==> s.locked)
    && (forall p: nat :: p < |s.pcs| && MustBeWoken(s.pcs[p]) ==> s.locked || WakerAtWork(s))
  }

  ghost predicate Inv(s: State) {
    LkInv(s) && PtInv(s) && OwnerInv(s) && SleepersInv(s)
  }

  /** The holder of lk has cleared locked and not yet woken the sleepers. */
  predicate WakerAtWork(s: State) {
    s.lk.Some? && s.lk.value < |s.pcs| && (s.pcs[s.lk.value].WakingPt? || s.pcs[s.lk.value].Waking?)
  }

  lemma StepKeepsLk(s: State, step: Step)
    requires LkInv(s) && Enabled(s, step)
    ensures LkInv(Do(s, step))
  {
  }

  lemma StepKeepsPt(s: State, step: Step)
    requires PtInv(s) && Enabled(s, step)
    ensures PtInv(Do(s, step))
  {
    var t := Do(s, step);
    forall p: nat | p < |t.pcs|
      ensures HasPt(t.pcs[p]) <==> t.pt == Process(p)
    {
      assert HasPt(s.pcs[p]) <==> s.pt == Process(p);
    }
  }

  lemma StepKeepsOwner(s: State, step: Step)
    requires LkInv(s) && OwnerInv(s) && Enabled(s, step)
    ensures OwnerInv(Do(s, step))
  {
  }

  /** A process that sleeps holds ptable.lock from before it releases lk until it is SLEEPING, so no waker can miss it. */
  lemma StepKeepsSleepers(s: State, step: Step)
    requires LkInv(s) && PtInv(s) && OwnerInv(s) && SleepersInv(s) && Enabled(s, step)
    ensures SleepersInv(Do(s, step))
  {
    var t := Do(s, step);
    forall p: nat | p < |t.pcs|
      ensures t.pcs[p].WantPt? || t.pcs[p].BothHeld? ==> t.locked
      ensures MustBeWoken(t.pcs[p]) ==> t.locked || WakerAtWork(t)
    {
      assert HasLk(s.pcs[p]) <==> s.lk == Some(p);
      assert HasPt(s.pcs[p]) <==> s.pt == Process(p);
    }
  }

  lemma StepKeepsInv(s: State, step: Step)
    requires Inv(s) && Enabled(s, step)
    ensures Inv(Do(s, step))
  {
    hide LkInv, PtInv, OwnerInv, SleepersInv, Do, Enabled;
    StepKeepsLk(s, step);
    StepKeepsPt(s, step);
    StepKeepsOwner(s, step);
    StepKeepsSleepers(s, step);
  }

  lemma {:induction false} RunsKeepInv(s: State, steps: seq<Step>, t: State)
    requires Inv(s) && Runs(s, steps, t)
    ensures Inv(t)
    decreases |steps|
  {
    if steps != [] {
      StepKeepsInv(s, steps[0]);
      RunsKeepInv(Do(s, steps[0]), steps[1..], t);
    }
  }

  /**
   In every reachable state: at most one process holds the sleep lock and each
   spinlock; while lk is free, a process that sleeps, or is about to, does so because
   the sleep lock is held, by a process that has yet to release it and wake it; and if
   it is no longer held, the releaser is still between clearing it and waking.
   */
  lemma {:induction false} NoLostWakeup(s: State, steps: seq<Step>, t: State)
    requires Initial(s) && Runs(s, steps, t)
    ensures forall p: nat, q: nat :: p < |t.pcs| && q < |t.pcs| && p != q ==>
              !(Owns(t.pcs[p]) && Owns(t.pcs[q])) && !(HasLk(t.pcs[p]) && HasLk(t.pcs[q])) && !(HasPt(t.pcs[p]) && HasPt(t.pcs[q]))
    ensures forall p: nat :: p < |t.pcs| && MustBeWoken(t.pcs[p]) && t.lk == None ==>
              t.locked && t.pid.Some? && t.pid.value < |t.pcs| && (t.pcs[t.pid.value].Holding? || t.pcs[t.pid.value].WantRelease?)
    ensures forall p: nat :: p < |t.pcs| && MustBeWoken(t.pcs[p]) && !t.locked ==> WakerAtWork(t)
  {
    RunsKeepInv(s, steps, t);
  }

  // ----- a releaser that no one else disturbs wakes every sleeper

  function Repeat(s: State, p: nat, n: nat): Option<State>
    decreases n
  {
    if n == 0 then Some(s)
    else if Enabled(s, Run(p)) then Repeat(Do(s, Run(p)), p, n - 1)
    else None
  }

  /** The five steps from clearing the lock to the end of releasesleep. */
  lemma ReleaseWakesAll(s: State, p: nat)
    requires Inv(s) && p < |s.pcs| && s.pcs[p] == Releasing && s.pt == Nobody
    ensures var t := Repeat(s, p, 5);
            && t.Some? && |t.value.pcs| == |s.pcs| && t.value.pcs[p] == Idle && t.value.lk == None && !t.value.locked
            && forall q: nat :: q < |s.pcs| ==> !MustBeWoken(t.value.pcs[q])
  {
    var s1 := Do(s, Run(p));
    var s2 := Do(s1, Run(p));
    assert s2.pcs == s.pcs[p := Waking];
    assert forall q: nat :: q < |s.pcs| ==> !s2.pcs[q].Dozing? by {
      StepKeepsPt(s, Run(p));
      StepKeepsPt(s1, Run(p));
    }
    var s3 := Do(s2, Run(p));
    var s4 := Do(s3, Run(p));
    var s5 := Do(s4, Run(p));
    assert Repeat(s4, p, 1) == Some(s5) && Repeat(s3, p, 2) == Some(s5) && Repeat(s2, p, 3) == Some(s5);
    assert Repeat(s1, p, 4) == Some(s5);
  }
}
