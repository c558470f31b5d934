/**
 The process table: fork, exit, wait, kill, sleep, wakeup and the scheduler, as
 the sections of code that run under ptable.lock.

 Any number of slots and CPUs.  A process is named by its slot.
 */
module ProcessTable {
  import opened Machine

  datatype State = UNUSED | EMBRYO | SLEEPING | RUNNABLE | RUNNING | ZOMBIE

  /** What a process sleeps on: in wait, its own slot; else the address of something else. */
  datatype Chan = NoChan | OfProc(p: nat) | Other(address: nat)

  datatype Proc = Proc(state: State, pid: nat, parent: Option<nat>, killed: bool, chan: Chan)

  predicate Alive(s: State) {
    s == SLEEPING || s == RUNNABLE || s == RUNNING
  }

  predicate Asleep(q: Proc, chan: Chan) {
    q.state == SLEEPING && q.chan == chan
  }

  // ----- invariants

  /**
   initproc lives for ever; whatever else runs or is a zombie has a live parent with a
   smaller pid; a slot being set up has at most its maker for a parent; a free slot none.
   */
  ghost predicate Tree(init: nat, proc: seq<Proc>, making: map<nat, nat>) {
    && init < |proc| && Alive(proc[init].state) && proc[init].parent == None && proc[init].pid == 1
    && forall p: nat :: p < |proc| ==> ParentFits(init, proc, making, p)
  }

  ghost predicate ParentFits(init: nat, proc: seq<Proc>, making: map<nat, nat>, p: nat)
    requires init < |proc| && p < |proc|
  {
    match proc[p].state
    case UNUSED => proc[p].parent == None
    case EMBRYO => proc[p].parent.Some? ==> proc[p].parent.value in making && making[proc[p].parent.value] == p
    case _ => p == init || (proc[p].parent.Some? && LiveParent(proc, p, proc[p].parent.value))
  }

  predicate LiveParent(proc: seq<Proc>, p: nat, q: nat)
    requires p < |proc|
  {
    q < |proc| && Alive(proc[q].state) && proc[q].pid < proc[p].pid
  }

  /** The processes inside fork, and the slots they are setting up. */
  ghost predicate Makers(proc: seq<Proc>, making: map<nat, nat>) {
    && (forall m :: m in making ==> MakerFits(proc, m, making[m]))
    && forall m, n :: m in making && n in making && m != n ==> making[m] != making[n]
  }

  predicate MakerFits(proc: seq<Proc>, m: nat, np: nat) {
    m < |proc| && np < |proc| && proc[np].state == EMBRYO && Alive(proc[m].state) && proc[m].pid < proc[np].pid
  }

  /** No process sleeps in wait once it was killed, or while it has a zombie child. */
  ghost predicate WaitersIdle(proc: seq<Proc>) {
    && (forall w: nat :: w < |proc| && Asleep(proc[w], OfProc(w)) ==> !proc[w].killed)
    && forall w: nat, z: nat :: w < |proc| && z < |proc| && Asleep(proc[w], OfProc(w)) && proc[z].state == ZOMBIE ==>
      proc[z].parent != Some(w)
  }

  /** RUNNING means current on exactly one CPU. */
  ghost predicate OnCpus(proc: seq<Proc>, cpu: seq<Option<nat>>) {
    && (forall c :: 0 <= c < |cpu| && cpu[c].Some? ==> cpu[c].value < |proc| && proc[cpu[c].value].state == RUNNING)
    && (forall c, d :: 0 <= c < d < |cpu| && cpu[c].Some? ==> cpu[c] != cpu[d])
    && forall p: nat :: p < |proc| && proc[p].state == RUNNING ==> Some(p) in cpu
  }

  /** A pid other than 0 names at most one slot, be it in use or free. */
  ghost predicate Pids(proc: seq<Proc>, nextpid: nat) {
    && (forall p: nat :: p < |proc| ==> proc[p].pid < nextpid)
    && (forall p: nat :: p < |proc| && proc[p].state != UNUSED ==> proc[p].pid > 0)
    && forall p: nat, q: nat :: p < |proc| && q < |proc| && p != q && proc[p].pid > 0 ==> proc[p].pid != proc[q].pid
  }

  /** Some process, or zombie, has this pid. */
  ghost predicate InUse(proc: seq<Proc>, pid: nat) {
    exists q: nat :: q < |proc| && proc[q].state != UNUSED && proc[q].pid == pid
  }

  /** The first slot with a pid is free exactly when no process has that pid. */
  lemma FirstWithPid(proc: seq<Proc>, nextpid: nat, pid: nat, p: nat)
    requires Pids(proc, nextpid) && p < |proc| && proc[p].pid == pid
    requires forall q: nat :: q < p ==> proc[q].pid != pid
    ensures proc[p].state == UNUSED <==> !InUse(proc, pid)
    ensures forall q: nat :: q < |proc| && proc[q].state != UNUSED && proc[q].pid == pid ==> q == p
  {
  }

  /** The zombies are those that have exited and not been reaped. */
  ghost predicate Exits(proc: seq<Proc>, nextpid: nat, exited: set<nat>, reaped: set<nat>) {
    && reaped <= exited && (forall x :: x in exited ==> x < nextpid)
    && (forall p: nat :: p < |proc| && proc[p].state == ZOMBIE ==> proc[p].pid in exited && proc[p].pid !in reaped)
    && (forall p: nat :: p < |proc| && (proc[p].state == EMBRYO || Alive(proc[p].state)) ==> proc[p].pid !in exited)
    && forall x :: x in exited && x !in reaped ==> ZombieWith(proc, x)
  }

  ghost predicate ZombieWith(proc: seq<Proc>, pid: nat) {
    exists p: nat :: p < |proc| && proc[p].state == ZOMBIE && proc[p].pid == pid
  }

  datatype Ghost = Ghost(making: map<nat, nat>, exited: set<nat>, reaped: set<nat>)

  ghost predicate Inv(init: nat, proc: seq<Proc>, cpu: seq<Option<nat>>, nextpid: nat, g: Ghost) {
    && Tree(init, proc, g.making) && Makers(proc, g.making) && WaitersIdle(proc)
    && OnCpus(proc, cpu) && Pids(proc, nextpid) && Exits(proc, nextpid, g.exited, g.reaped)
  }

  /** n steps up from p. */
  function Ancestor(proc: seq<Proc>, p: nat, n: nat): (a: Option<nat>)
    ensures a.Some? ==> a.value < |proc|
    decreases n
  {
    if p >= |proc| then None
    else if n == 0 then Some(p)
    else if proc[p].parent.None? then None
    else Ancestor(proc, proc[p].parent.value, n - 1)
  }

  /** Every process and every zombie descends from initproc: there are no cycles and no lost subtrees. */
  lemma {:induction false} DescendsFromInit(init: nat, proc: seq<Proc>, making: map<nat, nat>, p: nat) returns (n: nat)
    requires Tree(init, proc, making) && p < |proc| && (Alive(proc[p].state) || proc[p].state == ZOMBIE)
    ensures Ancestor(proc, p, n) == Some(init)
    ensures forall k: nat :: 0 < k < n ==> Ancestor(proc, p, k).Some? && Alive(proc[Ancestor(proc, p, k).value].state)
    decreases proc[p].pid
  {
    if p == init {
      n := 0;
    } else {
      assert ParentFits(init, proc, making, p);
      var q := proc[p].parent.value;
      var m := DescendsFromInit(init, proc, making, q);
      n := m + 1;
      forall k: nat | 0 < k < n
        ensures Ancestor(proc, p, k).Some? && Alive(proc[Ancestor(proc, p, k).value].state)
      {
        assert Ancestor(proc, p, k) == Ancestor(proc, q, k - 1);
      }
    }
  }

  // ----- what the steps do

  /** wakeup1. */
  function Woken(q: Proc, chan: Chan): Proc {
    if Asleep(q, chan) then q.(state := RUNNABLE) else q
  }

  function Awakened(proc: seq<Proc>, chan: Chan): (r: seq<Proc>)
    ensures |r| == |proc| && forall p :: 0 <= p < |proc| ==> r[p] == Woken(proc[p], chan)
  {
    seq(|proc|, p requires 0 <= p < |proc| => Woken(proc[p], chan))
  }

  // ----- steps that change only what live processes are doing

  predicate SameKind(s: State, t: State) {
    s == t || (Alive(s) && Alive(t))
  }

  /** Nobody is born, dies or changes parent. */
  ghost predicate SameFamily(proc: seq<Proc>, proc': seq<Proc>) {
    && |proc'| == |proc|
    && forall p: nat :: p < |proc| ==>
         proc'[p].pid == proc[p].pid && proc'[p].parent == proc[p].parent && SameKind(proc[p].state, proc'[p].state)
  }

  /** Who is asleep in wait was so before, and has not been killed since. */
  ghost predicate NoNewWaiters(proc: seq<Proc>, proc': seq<Proc>) {
    && |proc'| == |proc|
    && forall w: nat :: w < |proc| && Asleep(proc'[w], OfProc(w)) ==>
         Asleep(proc[w], OfProc(w)) && proc'[w].killed == proc[w].killed
  }

  lemma FamilyTree(init: nat, proc: seq<Proc>, proc': seq<Proc>, making: map<nat, nat>)
    requires Tree(init, proc, making) && SameFamily(proc, proc')
    ensures Tree(init, proc', making)
  {
    forall p: nat | p < |proc|
      ensures ParentFits(init, proc', making, p)
    {
      assert ParentFits(init, proc, making, p);
    }
  }

  lemma FamilyMakers(proc: seq<Proc>, proc': seq<Proc>, making: map<nat, nat>)
    requires Makers(proc, making) && SameFamily(proc, proc')
    ensures Makers(proc', making)
  {
    forall m | m in making
      ensures MakerFits(proc', m, making[m])
    {
      assert MakerFits(proc, m, making[m]);
    }
  }

  lemma FamilyPids(proc: seq<Proc>, proc': seq<Proc>, nextpid: nat)
    requires Pids(proc, nextpid) && SameFamily(proc, proc')
    ensures Pids(proc', nextpid)
  {
  }

  lemma FamilyExits(proc: seq<Proc>, proc': seq<Proc>, nextpid: nat, exited: set<nat>, reaped: set<nat>)
    requires Exits(proc, nextpid, exited, reaped) && SameFamily(proc, proc')
    ensures Exits(proc', nextpid, exited, reaped)
  {
    forall x | x in exited && x !in reaped
      ensures ZombieWith(proc', x)
    {
      assert ZombieWith(proc, x);
      var p: nat :| p < |proc| && proc[p].state == ZOMBIE && proc[p].pid == x;
      assert proc'[p].state == ZOMBIE && proc'[p].pid == x;
    }
  }

  lemma FamilyInv(init: nat, proc: seq<Proc>, cpu: seq<Option<nat>>, nextpid: nat, g: Ghost, proc': seq<Proc>, cpu': seq<Option<nat>>)
    requires Inv(init, proc, cpu, nextpid, g) && SameFamily(proc, proc')
    requires OnCpus(proc', cpu') && WaitersIdle(proc')
    ensures Inv(init, proc', cpu', nextpid, g)
  {
    hide Tree, Makers, WaitersIdle, OnCpus, Pids, Exits, SameFamily;
    FamilyTree(init, proc, proc', g.making);
    FamilyMakers(proc, proc', g.making);
    FamilyPids(proc, proc', nextpid);
    FamilyExits(proc, proc', nextpid, g.exited, g.reaped);
  }

  lemma WaitersStay(proc: seq<Proc>, proc': seq<Proc>)
    requires WaitersIdle(proc) && SameFamily(proc, proc') && NoNewWaiters(proc, proc')
    ensures WaitersIdle(proc')
  {
  }

  lemma AwakenedCpus(proc: seq<Proc>, cpu: seq<Option<nat>>, proc': seq<Proc>)
    requires OnCpus(proc, cpu) && |proc'| == |proc|
    requires forall p :: 0 <= p < |proc| ==> (proc'[p].state == RUNNING <==> proc[p].state == RUNNING)
    ensures OnCpus(proc', cpu)
  {
  }

  /** The process on CPU c leaves it. */
  lemma CpuLeft(proc: seq<Proc>, cpu: seq<Option<nat>>, c: nat, q: Proc)
    requires OnCpus(proc, cpu) && c < |cpu| && cpu[c].Some? && q.state != RUNNING
    ensures cpu[c].value < |proc| && OnCpus(proc[cpu[c].value := q], cpu[c := None])
  {
    var p := cpu[c].value;
    var proc', cpu' := proc[p := q], cpu[c := None];
    forall r: nat | r < |proc'| && proc'[r].state == RUNNING
      ensures Some(r) in cpu'
    {
      assert Some(r) in cpu;
      var d :| 0 <= d < |cpu| && cpu[d] == Some(r);
      assert cpu'[d] == Some(r);
    }
  }

  lemma CpuTaken(proc: seq<Proc>, cpu: seq<Option<nat>>, c: nat, p: nat, q: Proc)
    requires OnCpus(proc, cpu) && c < |cpu| && cpu[c] == None && p < |proc| && proc[p].state != RUNNING && q.state == RUNNING
    ensures OnCpus(proc[p := q], cpu[c := Some(p)])
  {
    var proc', cpu' := proc[p := q], cpu[c := Some(p)];
    forall r: nat | r < |proc'| && proc'[r].state == RUNNING
      ensures Some(r) in cpu'
    {
      if r == p {
        assert cpu'[c] == Some(p);
      } else {
        assert Some(r) in cpu;
        var d :| 0 <= d < |cpu| && cpu[d] == Some(r);
        assert cpu'[d] == Some(r);
      }
    }
  }

  lemma AwakenedInv(init: nat, proc: seq<Proc>, cpu: seq<Option<nat>>, nextpid: nat, g: Ghost, chan: Chan)
    requires Inv(init, proc, cpu, nextpid, g)
    ensures Inv(init, Awakened(proc, chan), cpu, nextpid, g)
  {
    hide Tree, Makers, WaitersIdle, OnCpus, Pids, Exits;
    WaitersStay(proc, Awakened(proc, chan));
    AwakenedCpus(proc, cpu, Awakened(proc, chan));
    FamilyInv(init, proc, cpu, nextpid, g, Awakened(proc, chan), cpu);
  }

  // ----- steps that set up or free one slot, which is no live process

  lemma SlotTree(init: nat, proc: seq<Proc>, making: map<nat, nat>, np: nat, q: Proc, making': map<nat, nat>)
    requires Tree(init, proc, making) && np < |proc| && !Alive(proc[np].state)
    requires forall m :: m in making && making[m] != np ==> m in making' && making'[m] == making[m]
    requires ParentFits(init, proc[np := q], making', np)
    ensures Tree(init, proc[np := q], making')
  {
    var proc' := proc[np := q];
    forall p: nat | p < |proc|
      ensures ParentFits(init, proc', making', p)
    {
      assert ParentFits(init, proc, making, p);
    }
  }

  lemma SlotMakers(proc: seq<Proc>, making: map<nat, nat>, np: nat, q: Proc, making': map<nat, nat>)
    requires Makers(proc, making) && np < |proc| && !Alive(proc[np].state)
    requires forall m :: m in making' ==>
               (m in making && making'[m] == making[m] != np) || (making'[m] == np && MakerFits(proc[np := q], m, np))
    requires forall m, n :: m in making' && n in making' && making'[m] == making'[n] == np ==> m == n
    ensures Makers(proc[np := q], making')
  {
    forall m | m in making'
      ensures MakerFits(proc[np := q], m, making'[m])
    {
      assert m in making && making[m] != np ==> MakerFits(proc, m, making[m]);
    }
  }

  lemma SlotPids(proc: seq<Proc>, nextpid: nat, np: nat, q: Proc, nextpid': nat)
    requires Pids(proc, nextpid) && np < |proc| && nextpid <= nextpid' && q.pid < nextpid'
    requires q.pid == 0 || q.pid == nextpid || q.pid == proc[np].pid
    requires q.state != UNUSED ==> q.pid > 0
    ensures Pids(proc[np := q], nextpid')
  {
  }

  lemma SlotExits(proc: seq<Proc>, nextpid: nat, exited: set<nat>, reaped: set<nat>, np: nat, q: Proc, nextpid': nat)
    requires Exits(proc, nextpid, exited, reaped) && np < |proc| && nextpid <= nextpid'
    requires proc[np].state != ZOMBIE && q.state != ZOMBIE && (q.state != UNUSED ==> q.pid !in exited)
    ensures Exits(proc[np := q], nextpid', exited, reaped)
  {
    forall x | x in exited && x !in reaped
      ensures ZombieWith(proc[np := q], x)
    {
      assert ZombieWith(proc, x);
      var p: nat :| p < |proc| && proc[p].state == ZOMBIE && proc[p].pid == x;
      assert proc[np := q][p].state == ZOMBIE;
    }
  }

  lemma SlotWaiters(proc: seq<Proc>, np: nat, q: Proc)
    requires WaitersIdle(proc) && np < |proc| && q.state != SLEEPING && q.state != ZOMBIE
    ensures WaitersIdle(proc[np := q])
  {
  }

  // ----- fork

  function Without(making: map<nat, nat>, m: nat): map<nat, nat> {
    map n | n in making && n != m :: making[n]
  }

  /** Slot np becomes EMBRYO for m. */
  lemma AllocatedInv(init: nat, proc: seq<Proc>, cpu: seq<Option<nat>>, nextpid: nat, g: Ghost, m: nat, np: nat)
    requires Inv(init, proc, cpu, nextpid, g)
    requires m < |proc| && Alive(proc[m].state) && m !in g.making && np < |proc| && proc[np].state == UNUSED
    ensures Inv(init, proc[np := proc[np].(state := EMBRYO, pid := nextpid)], cpu, nextpid + 1, g.(making := g.making[m := np]))
  {
    var q, making' := proc[np].(state := EMBRYO, pid := nextpid), g.making[m := np];
    assert proc[np].parent == None by {
      assert ParentFits(init, proc, g.making, np);
    }
    forall n | n in g.making
      ensures g.making[n] != np
    {
      assert MakerFits(proc, n, g.making[n]);
    }
    assert proc[m].pid < nextpid && 0 < nextpid && nextpid !in g.exited;
    hide Tree, Makers, WaitersIdle, OnCpus, Pids, Exits;
    SlotTree(init, proc, g.making, np, q, making');
    SlotMakers(proc, g.making, np, q, making');
    SlotPids(proc, nextpid, np, q, nextpid + 1);
    SlotExits(proc, nextpid, g.exited, g.reaped, np, q, nextpid + 1);
    SlotWaiters(proc, np, q);
    AwakenedCpus(proc, cpu, proc[np := q]);
  }

  /** The slot that m is setting up changes in what does not matter to the others. */
  lemma MadeInv(init: nat, proc: seq<Proc>, cpu: seq<Option<nat>>, nextpid: nat, g: Ghost, m: nat, q: Proc, making': map<nat, nat>)
    requires Inv(init, proc, cpu, nextpid, g) && m in g.making && g.making[m] < |proc|
    requires q.pid == proc[g.making[m]].pid && q.state in {UNUSED, EMBRYO, RUNNABLE}
    requires q.parent == if q.state == UNUSED then None else Some(m)
    requires making' == if q.state == EMBRYO then g.making else Without(g.making, m)
    ensures Inv(init, proc[g.making[m] := q], cpu, nextpid, g.(making := making'))
  {
    var np := g.making[m];
    assert MakerFits(proc, m, np);
    assert ParentFits(init, proc[np := q], making', np);
    assert proc[np].pid < nextpid && 0 < proc[np].pid && proc[np].pid !in g.exited;
    assert forall n :: n in g.making && n != m ==> g.making[n] != np;
    hide Tree, Makers, WaitersIdle, OnCpus, Pids, Exits;
    SlotTree(init, proc, g.making, np, q, making');
    SlotMakers(proc, g.making, np, q, making');
    SlotPids(proc, nextpid, np, q, nextpid);
    SlotExits(proc, nextpid, g.exited, g.reaped, np, q, nextpid);
    SlotWaiters(proc, np, q);
    AwakenedCpus(proc, cpu, proc[np := q]);
  }

  // ----- exit and wait

  /** Children of p pass to initproc. */
  function Reparented(q: Proc, p: nat, init: nat): Proc {
    if q.parent == Some(p) then q.(parent := Some(init)) else q
  }

  ghost predicate HasZombieChild(proc: seq<Proc>, p: nat) {
    exists z: nat :: z < |proc| && proc[z].parent == Some(p) && proc[z].state == ZOMBIE
  }

  /** What exit of p makes of slot q. */
  function AfterExit(init: nat, q: Proc, p: nat, parent: nat, wakeInit: bool): Proc {
    var q1 := Reparented(Woken(q, OfProc(parent)), p, init);
    if wakeInit then Woken(q1, OfProc(init)) else q1
  }

  ghost predicate ZombieChildBelow(proc: seq<Proc>, p: nat, n: nat) {
    exists z: nat :: z < n && z < |proc| && proc[z].parent == Some(p) && proc[z].state == ZOMBIE
  }

  /** Slot r when exit's loop has come to slot n. */
  ghost function DuringExit(init: nat, proc: seq<Proc>, p: nat, parent: nat, n: nat, r: nat): Proc
    requires r < |proc|
  {
    var q1 := Woken(proc[r], OfProc(parent));
    var q2 := if r < n then Reparented(q1, p, init) else q1;
    if ZombieChildBelow(proc, p, n) then Woken(q2, OfProc(init)) else q2
  }

  /** One turn of the loop. */
  lemma ExitStep(init: nat, proc: seq<Proc>, p: nat, parent: nat, n: nat, proc': seq<Proc>)
    requires n < |proc| && |proc'| == |proc|
    requires forall r: nat :: r < |proc| ==> proc'[r] == DuringExit(init, proc, p, parent, n, r)
    ensures proc'[n].parent == proc[n].parent && (proc'[n].state == ZOMBIE <==> proc[n].state == ZOMBIE)
    ensures var adopted := if proc[n].parent == Some(p) then proc'[n := proc'[n].(parent := Some(init))] else proc';
            var woken := if proc[n].parent == Some(p) && proc[n].state == ZOMBIE then Awakened(adopted, OfProc(init)) else adopted;
            forall r: nat :: r < |proc| ==> woken[r] == DuringExit(init, proc, p, parent, n + 1, r)
  {
    assert ZombieChildBelow(proc, p, n + 1) <==>
           ZombieChildBelow(proc, p, n) || (proc[n].parent == Some(p) && proc[n].state == ZOMBIE) by {
      if ZombieChildBelow(proc, p, n) {
        var z: nat :| z < n && z < |proc| && proc[z].parent == Some(p) && proc[z].state == ZOMBIE;
        assert z < n + 1;
      }
    }
  }

  lemma ExitLoopDone(init: nat, proc: seq<Proc>, p: nat, proc': seq<Proc>)
    requires p < |proc| == |proc'| && proc[p].parent.Some? && proc[p].parent != Some(p) && proc[p].state == RUNNING
    requires forall r: nat :: r < |proc| ==> proc'[r] == DuringExit(init, proc, p, proc[p].parent.value, |proc|, r)
    ensures Exited(init, proc, p, proc'[p := proc'[p].(state := ZOMBIE)])
  {
    assert ZombieChildBelow(proc, p, |proc|) <==> HasZombieChild(proc, p);
  }

  ghost predicate Exited(init: nat, proc: seq<Proc>, p: nat, proc': seq<Proc>) {
    && |proc'| == |proc| && p < |proc| && proc[p].parent.Some?
    && forall q: nat :: q < |proc| ==>
         proc'[q] == (if q == p then proc[p].(state := ZOMBIE)
                      else AfterExit(init, proc[q], p, proc[p].parent.value, HasZombieChild(proc, p)))
  }

  /** What exit of p does to another slot: children pass to initproc, and the parent, or initproc if it inherits a zombie, wakes up. */
  predicate ExitedSlot(init: nat, q: Proc, q': Proc, p: nat, parent: nat, zombies: bool) {
    && q'.pid == q.pid && q'.killed == q.killed && q'.chan == q.chan
    && q'.parent == (if q.parent == Some(p) then Some(init) else q.parent)
    && q'.state == (if q.state == SLEEPING && (q.chan == OfProc(parent) || (zombies && q.chan == OfProc(init))) then RUNNABLE else q.state)
  }

  lemma ExitedSlots(init: nat, proc: seq<Proc>, p: nat, proc': seq<Proc>)
    requires Exited(init, proc, p, proc')
    ensures p < |proc| == |proc'| && proc[p].parent.Some? && proc'[p] == proc[p].(state := ZOMBIE)
    ensures var zombies := exists z: nat :: z < |proc| && proc[z].parent == Some(p) && proc[z].state == ZOMBIE;
            forall q: nat :: q < |proc| && q != p ==> ExitedSlot(init, proc[q], proc'[q], p, proc[p].parent.value, zombies)
  {
  }

  lemma ExitedParent(init: nat, proc: seq<Proc>, p: nat, proc': seq<Proc>, making: map<nat, nat>, q: nat)
    requires Tree(init, proc, making) && Exited(init, proc, p, proc') && q < |proc|
    requires p != init && proc[p].state == RUNNING && p !in making
    requires q != init && proc[q].state != UNUSED ==> proc[init].pid < proc[q].pid
    ensures ParentFits(init, proc', making, q)
  {
    assert ParentFits(init, proc, making, q);
  }

  /** initproc's pid is smaller than any other's. */
  lemma InitFirst(init: nat, proc: seq<Proc>, making: map<nat, nat>, nextpid: nat, q: nat)
    requires Pids(proc, nextpid) && init < |proc| && proc[init].pid == 1 && proc[init].state != UNUSED
    requires q < |proc| && q != init && proc[q].state != UNUSED
    ensures proc[init].pid < proc[q].pid
  {
  }

  lemma ExitedTree(init: nat, proc: seq<Proc>, p: nat, proc': seq<Proc>, making: map<nat, nat>, nextpid: nat)
    requires Tree(init, proc, making) && Pids(proc, nextpid) && Exited(init, proc, p, proc')
    requires p != init && proc[p].state == RUNNING && p !in making && proc[init].pid == 1
    ensures Tree(init, proc', making)
  {
    hide Pids, ParentFits;
    forall q: nat | q < |proc|
      ensures ParentFits(init, proc', making, q)
    {
      if q != init && proc[q].state != UNUSED {
        InitFirst(init, proc, making, nextpid, q);
      }
      ExitedParent(init, proc, p, proc', making, q);
    }
  }

  lemma ExitedMakers(init: nat, proc: seq<Proc>, p: nat, proc': seq<Proc>, making: map<nat, nat>)
    requires Makers(proc, making) && Exited(init, proc, p, proc') && proc[p].state == RUNNING && p !in making
    ensures Makers(proc', making)
  {
    forall m | m in making
      ensures MakerFits(proc', m, making[m])
    {
      assert MakerFits(proc, m, making[m]);
    }
  }

  lemma ExitedWaiters(init: nat, proc: seq<Proc>, p: nat, proc': seq<Proc>)
    requires WaitersIdle(proc) && Exited(init, proc, p, proc') && init < |proc| && proc[p].parent != Some(p)
    ensures WaitersIdle(proc')
  {
    forall w: nat, z: nat | w < |proc| && z < |proc| && Asleep(proc'[w], OfProc(w)) && proc'[z].state == ZOMBIE
      ensures proc'[z].parent != Some(w)
    {
      assert w != p && Asleep(proc[w], OfProc(w));
      if z != p && proc[z].parent == Some(p) {
        assert HasZombieChild(proc, p);
      }
    }
  }

  lemma ExitedPids(init: nat, proc: seq<Proc>, p: nat, proc': seq<Proc>, nextpid: nat)
    requires Pids(proc, nextpid) && Exited(init, proc, p, proc') && proc[p].state == RUNNING
    ensures Pids(proc', nextpid)
  {
    assert forall q: nat :: q < |proc| ==> proc'[q].pid == proc[q].pid && (proc'[q].state == UNUSED <==> proc[q].state == UNUSED);
  }

  lemma ExitedExits(init: nat, proc: seq<Proc>, p: nat, proc': seq<Proc>, nextpid: nat, exited: set<nat>, reaped: set<nat>)
    requires Exits(proc, nextpid, exited, reaped) && Pids(proc, nextpid) && Exited(init, proc, p, proc') && proc[p].state == RUNNING
    ensures Exits(proc', nextpid, exited + {proc[p].pid}, reaped)
  {
    var exited' := exited + {proc[p].pid};
    forall q: nat | q < |proc|
      ensures proc'[q].pid == proc[q].pid && (q != p ==> SameKind(proc[q].state, proc'[q].state))
      ensures q != p && proc[q].state != UNUSED ==> proc[q].pid != proc[p].pid
    {
    }
    hide Exited, Pids;
    forall x | x in exited' && x !in reaped
      ensures ZombieWith(proc', x)
    {
      if x == proc[p].pid {
        assert proc'[p].state == ZOMBIE && proc'[p].pid == x;
      } else {
        assert ZombieWith(proc, x);
        var z: nat :| z < |proc| && proc[z].state == ZOMBIE && proc[z].pid == x;
        assert proc'[z].state == ZOMBIE && proc'[z].pid == x;
      }
    }
  }

  lemma ExitedCpus(init: nat, proc: seq<Proc>, p: nat, proc': seq<Proc>, cpu: seq<Option<nat>>, c: nat)
    requires OnCpus(proc, cpu) && Exited(init, proc, p, proc') && c < |cpu| && cpu[c] == Some(p)
    ensures OnCpus(proc', cpu[c := None])
  {
    CpuLeft(proc, cpu, c, proc'[p]);
    AwakenedCpus(proc[p := proc'[p]], cpu[c := None], proc');
  }

  lemma ReapedExits(proc: seq<Proc>, nextpid: nat, exited: set<nat>, reaped: set<nat>, z: nat, q: Proc)
    requires Exits(proc, nextpid, exited, reaped) && Pids(proc, nextpid)
    requires z < |proc| && proc[z].state == ZOMBIE && q.state == UNUSED
    ensures proc[z].pid in exited && proc[z].pid !in reaped
    ensures Exits(proc[z := q], nextpid, exited, reaped + {proc[z].pid})
  {
    var proc', reaped' := proc[z := q], reaped + {proc[z].pid};
    forall x | x in exited && x !in reaped'
      ensures ZombieWith(proc', x)
    {
      assert ZombieWith(proc, x);
      var p: nat :| p < |proc| && proc[p].state == ZOMBIE && proc[p].pid == x;
      assert proc'[p].state == ZOMBIE && proc'[p].pid == x;
    }
  }

  /** Slot z is freed by the wait of its parent. */
  lemma ReapedInv(init: nat, proc: seq<Proc>, cpu: seq<Option<nat>>, nextpid: nat, g: Ghost, z: nat)
    requires Inv(init, proc, cpu, nextpid, g) && z < |proc| && proc[z].state == ZOMBIE
    ensures proc[z].pid in g.exited && proc[z].pid !in g.reaped && proc[z].pid > 0
    ensures Inv(init, proc[z := Proc(UNUSED, 0, None, false, proc[z].chan)], cpu, nextpid, g.(reaped := g.reaped + {proc[z].pid}))
  {
    var q := Proc(UNUSED, 0, None, false, proc[z].chan);
    assert forall m :: m in g.making ==> MakerFits(proc, m, g.making[m]) && g.making[m] != z;
    assert proc[z].pid < nextpid && proc[z].pid > 0;
    hide Tree, Makers, WaitersIdle, OnCpus, Pids, Exits;
    SlotTree(init, proc, g.making, z, q, g.making);
    SlotMakers(proc, g.making, z, q, g.making);
    SlotPids(proc, nextpid, z, q, nextpid);
    ReapedExits(proc, nextpid, g.exited, g.reaped, z, q);
    SlotWaiters(proc, z, q);
    AwakenedCpus(proc, cpu, proc[z := q]);
  }

  class ProcTable {
    const init: nat
    var proc: seq<Proc>
    var cpu: seq<Option<nat>>
    var nextpid: nat
    ghost var g: Ghost

    ghost predicate Valid()
      reads this
    {
      Inv(init, proc, cpu, nextpid, g)
    }

    /** CPU c runs a process. */
    predicate Running(c: nat)
      reads this
    {
      c < |cpu| && cpu[c].Some?
    }

    /** After userinit: initproc runnable in the first slot, the other slots free. */
    constructor (slots: nat, cpus: nat)
      requires slots > 0
      ensures Valid() && init == 0 && nextpid == 2 && g == Ghost(map[], {}, {})
      ensures |proc| == slots && proc[0] == Proc(RUNNABLE, 1, None, false, NoChan)
      ensures forall p :: 1 <= p < slots ==> proc[p] == Proc(UNUSED, 0, None, false, NoChan)
      ensures |cpu| == cpus && forall c :: 0 <= c < cpus ==> cpu[c] == None
    {
      init, nextpid, g := 0, 2, Ghost(map[], {}, {});
      proc := seq(slots, p => if p == 0 then Proc(RUNNABLE, 1, None, false, NoChan) else Proc(UNUSED, 0, None, false, NoChan));
      cpu := seq(cpus, c => None);
    }

    /** wakeup1. */
    method Wakeup1(chan: Chan)
      modifies `proc
      ensures proc == Awakened(old(proc), chan)
      ensures forall p: nat :: p < |proc| ==>
        && proc[p] == old(proc)[p].(state := proc[p].state)
        && proc[p].state == if old(proc)[p].state == SLEEPING && old(proc)[p].chan == chan then RUNNABLE else old(proc)[p].state
    {
      var p := 0;
      while p < |proc|
        invariant p <= |proc| == |old(proc)|
        invariant forall q :: 0 <= q < |proc| ==> proc[q] == if q < p then Woken(old(proc)[q], chan) else old(proc)[q]
      {
        if proc[p].state == SLEEPING && proc[p].chan == chan {
          proc := proc[p := proc[p].(state := RUNNABLE)];
        }
        p := p + 1;
      }
    }

    /** wakeup: whoever sleeps on chan is runnable; nothing else changes in any slot. */
    method Wakeup(chan: Chan)
      requires Valid()
      modifies `proc
      ensures Valid() && proc == Awakened(old(proc), chan)
      ensures forall p: nat :: p < |proc| ==>
        && proc[p] == old(proc)[p].(state := proc[p].state)
        && proc[p].state == if old(proc)[p].state == SLEEPING && old(proc)[p].chan == chan then RUNNABLE else old(proc)[p].state
    {
      AwakenedInv(init, proc, cpu, nextpid, g, chan);
      Wakeup1(chan);
    }

    /** allocproc under the lock: the first free slot, for the process on CPU c. */
    method Allocproc(c: nat) returns (np: nat, ok: bool)
      requires Valid() && Running(c) && cpu[c].value !in g.making
      modifies `proc, `nextpid, `g
      ensures Valid()
      ensures ok <==> exists p: nat :: p < |old(proc)| && old(proc)[p].state == UNUSED
      ensures !ok ==> proc == old(proc) && nextpid == old(nextpid) && g == old(g)
      ensures ok ==> np < |old(proc)| && old(proc)[np].state == UNUSED && forall p: nat :: p < np ==> old(proc)[p].state != UNUSED
      ensures ok ==> proc == old(proc)[np := old(proc)[np].(state := EMBRYO, pid := old(nextpid))] && nextpid == old(nextpid) + 1
                     && old(proc)[np].parent == None
      ensures ok ==> g == old(g).(making := old(g).making[cpu[c].value := np])
    {
      hide Tree, Makers, WaitersIdle, Pids, Exits;
      np := 0;
      var found := false;
      while np < |proc| && !found
        invariant np <= |proc| && (found ==> np < |proc| && proc[np].state == UNUSED)
        invariant forall p: nat :: p < np ==> proc[p].state != UNUSED
        decreases |proc| - np, if found then 0 else 1
      {
        if proc[np].state == UNUSED {
          found := true;
        } else {
          np := np + 1;
        }
      }
      if !found {
        return 0, false;
      }
      FreeSlot(init, proc, g.making, np);
      AllocatedInv(init, proc, cpu, nextpid, g, cpu[c].value, np);
      proc, nextpid := proc[np := proc[np].(state := EMBRYO, pid := nextpid)], nextpid + 1;
      g := g.(making := g.making[cpu[c].value := np]);
      ok := true;
    }

    /** Without a kernel stack or a page table, fork frees the slot again; it keeps its pid. */
    method Abandon(c: nat, np: nat)
      requires Valid() && Running(c) && cpu[c].value in g.making && g.making[cpu[c].value] == np
      requires np < |proc| && proc[np].parent == None
      modifies `proc, `g
      ensures Valid() && proc == old(proc)[np := old(proc)[np].(state := UNUSED)] && cpu[c].value !in g.making
    {
      ghost var m := cpu[c].value;
      MadeInv(init, proc, cpu, nextpid, g, m, proc[np].(state := UNUSED), Without(g.making, m));
      proc, g := proc[np := proc[np].(state := UNUSED)], g.(making := Without(g.making, m));
    }

    method SetParent(c: nat, np: nat)
      requires Valid() && Running(c) && cpu[c].value in g.making && g.making[cpu[c].value] == np && np < |proc|
      modifies `proc
      ensures Valid() && proc == old(proc)[np := old(proc)[np].(parent := Some(cpu[c].value))]
    {
      Made(init, proc, cpu, nextpid, g, cpu[c].value);
      MadeInv(init, proc, cpu, nextpid, g, cpu[c].value, proc[np].(parent := Some(cpu[c].value)), g.making);
      proc := proc[np := proc[np].(parent := Some(cpu[c].value))];
    }

    method Start(c: nat, np: nat)
      requires Valid() && Running(c) && cpu[c].value in g.making && g.making[cpu[c].value] == np
      requires np < |proc| && proc[np].parent == Some(cpu[c].value)
      modifies `proc, `g
      ensures Valid() && proc == old(proc)[np := old(proc)[np].(state := RUNNABLE)] && cpu[c].value !in g.making
    {
      ghost var m := cpu[c].value;
      MadeInv(init, proc, cpu, nextpid, g, m, proc[np].(state := RUNNABLE), Without(g.making, m));
      proc, g := proc[np := proc[np].(state := RUNNABLE)], g.(making := Without(g.making, m));
    }

    /**
     fork without interruption: a runnable child of the process on CPU c, in the first
     free slot.  stack and pages say whether kalloc and copyuvm succeed.
     */
    method Fork(c: nat, stack: bool, pages: bool) returns (pid: int, np: nat)
      requires Valid() && Running(c) && cpu[c].value !in g.making
      modifies `proc, `nextpid, `g
      ensures Valid() && cpu[c].value !in g.making
      ensures var free := exists p: nat :: p < |old(proc)| && old(proc)[p].state == UNUSED;
              && (pid == -1 <==> !(stack && pages && free))
              && (!free ==> proc == old(proc) && nextpid == old(nextpid))
              && (free ==> np < |old(proc)| && old(proc)[np].state == UNUSED && nextpid == old(nextpid) + 1)
              && (free ==> forall p: nat :: p < np ==> old(proc)[p].state != UNUSED)
              && (free && pid == -1 ==> proc == old(proc)[np := old(proc)[np].(pid := old(nextpid))])
      ensures pid != -1 ==> pid == old(nextpid) && np < |old(proc)|
                            && proc == old(proc)[np := Proc(RUNNABLE, old(nextpid), Some(cpu[c].value), old(proc)[np].killed, old(proc)[np].chan)]
    {
      hide Inv;
      var ok;
      np, ok := Allocproc(c);
      if !ok {
        return -1, np;
      }
      if !stack || !pages {
        Abandon(c, np);
        assert proc == old(proc)[np := old(proc)[np].(pid := old(nextpid))];
        return -1, np;
      }
      SetParent(c, np);
      pid := proc[np].pid;
      Start(c, np);
    }

    /** exit: wake the parent, pass the children to initproc, leave a zombie and the CPU. */
    method Exit(c: nat)
      requires Valid() && Running(c) && cpu[c].value != init && cpu[c].value !in g.making
      modifies `proc, `cpu, `g
      ensures Valid() && cpu == old(cpu)[c := None] && Exited(init, old(proc), old(cpu)[c].value, proc)
      ensures var p, zombies := old(cpu)[c].value, exists z: nat :: z < |old(proc)| && old(proc)[z].parent == old(cpu)[c] && old(proc)[z].state == ZOMBIE;
              && |proc| == |old(proc)| && p < |proc| && old(proc)[p].parent.Some?
              && proc[p] == old(proc)[p].(state := ZOMBIE)
              && forall q: nat :: q < |proc| && q != p ==> ExitedSlot(init, old(proc)[q], proc[q], p, old(proc)[p].parent.value, zombies)
      ensures g.reaped == old(g).reaped && g.exited == old(g).exited + {old(proc)[old(cpu)[c].value].pid}
    {
      hide Inv, Exited, DuringExit;
      var p := cpu[c].value;
      ExitingProcess(init, proc, cpu, nextpid, g, c);
      ghost var proc0 := proc;
      var parent := proc[p].parent.value;
      Wakeup1(OfProc(parent));
      var q := 0;
      DuringStart(init, proc0, p, parent);
      while q < |proc|
        invariant q <= |proc| == |proc0| && cpu == old(cpu) && g == old(g)
        invariant forall r: nat :: r < |proc0| ==> proc[r] == DuringExit(init, proc0, p, parent, q, r)
      {
        ExitStep(init, proc0, p, parent, q, proc);
        if proc[q].parent == Some(p) {
          proc := proc[q := proc[q].(parent := Some(init))];
          if proc[q].state == ZOMBIE {
            Wakeup1(OfProc(init));
          }
        }
        q := q + 1;
      }
      ExitLoopDone(init, proc0, p, proc);
      proc := proc[p := proc[p].(state := ZOMBIE)];
      ExitedInv(init, proc0, cpu, nextpid, g, c, proc);
      ExitedSlots(init, proc0, p, proc);
      g := g.(exited := g.exited + {proc0[p].pid});
      cpu := cpu[c := None];
    }

    /**
     wait, one scan: the pid of the first zombie child, reaped; -1 without children or if
     killed; otherwise no result, and the process sleeps until a child exits.
     */
    method Wait(c: nat) returns (r: Option<int>, ghost z: nat)
      requires Valid() && Running(c) && cpu[c].value !in g.making
      modifies `proc, `cpu, `g
      ensures Valid()
      ensures r.Some? && r.value >= 0 ==>
        && cpu == old(cpu) && z < |old(proc)| && ZombieChild(old(proc), cpu[c].value, z) && r.value == old(proc)[z].pid
        && (forall y: nat :: y < z ==> !ZombieChild(old(proc), cpu[c].value, y))
        && proc == old(proc)[z := Proc(UNUSED, 0, None, false, old(proc)[z].chan)]
        && old(proc)[z].pid in old(g).exited && old(proc)[z].pid !in old(g).reaped
        && g == old(g).(reaped := old(g).reaped + {old(proc)[z].pid})
      ensures r == Some(-1) ==>
        && cpu == old(cpu) && proc == old(proc) && g == old(g)
        && (forall y: nat :: y < |proc| ==> !ZombieChild(proc, cpu[c].value, y))
        && (proc[cpu[c].value].killed || forall y: nat :: y < |proc| ==> proc[y].parent != cpu[c])
      ensures r == None ==>
        && g == old(g) && cpu == old(cpu)[c := None]
        && (var p := old(cpu)[c].value;
            && (forall y: nat :: y < |old(proc)| ==> !ZombieChild(old(proc), p, y))
            && !old(proc)[p].killed && (exists y: nat :: y < |old(proc)| && old(proc)[y].parent == Some(p))
            && proc == old(proc)[p := old(proc)[p].(state := SLEEPING, chan := OfProc(p))])
      ensures r.Some? ==> r.value >= -1
    {
      hide Inv;
      var p := cpu[c].value;
      RunningProcess(init, proc, cpu, nextpid, g, c);
      var havekids, q := false, 0;
      z := 0;
      while q < |proc|
        invariant q <= |proc| && proc == old(proc) && g == old(g) && cpu == old(cpu)
        invariant forall y: nat :: y < q ==> !ZombieChild(proc, p, y)
        invariant havekids <==> exists y: nat :: y < q && y < |proc| && proc[y].parent == Some(p)
      {
        if proc[q].parent == Some(p) {
          havekids := true;
          if proc[q].state == ZOMBIE {
            var pid := proc[q].pid;
            ReapedInv(init, proc, cpu, nextpid, g, q);
            g := g.(reaped := g.reaped + {pid});
            proc := proc[q := Proc(UNUSED, 0, None, false, proc[q].chan)];
            return Some(pid), q;
          }
        }
        q := q + 1;
      }
      if !havekids || proc[p].killed {
        return Some(-1), z;
      }
      SleptInv(init, proc, cpu, nextpid, g, c, OfProc(p));
      proc := proc[p := proc[p].(state := SLEEPING, chan := OfProc(p))];
      cpu := cpu[c := None];
      r := None;
    }

    /** sleep on something other than a process, holding ptable.lock. */
    method Sleep(c: nat, address: nat)
      requires Valid() && Running(c)
      modifies `proc, `cpu
      ensures Valid() && cpu == old(cpu)[c := None]
      ensures var p := old(cpu)[c].value; p < |old(proc)| && proc == old(proc)[p := old(proc)[p].(state := SLEEPING, chan := Other(address))]
    {
      RunningProcess(init, proc, cpu, nextpid, g, c);
      SleptInv(init, proc, cpu, nextpid, g, c, Other(address));
      var p := cpu[c].value;
      proc := proc[p := proc[p].(state := SLEEPING, chan := Other(address))];
      cpu := cpu[c := None];
    }

    method Yield(c: nat)
      requires Valid() && Running(c)
      modifies `proc, `cpu
      ensures Valid() && cpu == old(cpu)[c := None]
      ensures var p := old(cpu)[c].value; p < |old(proc)| && proc == old(proc)[p := old(proc)[p].(state := RUNNABLE)]
    {
      RunningProcess(init, proc, cpu, nextpid, g, c);
      YieldedInv(init, proc, cpu, nextpid, g, c);
      var p := cpu[c].value;
      proc := proc[p := proc[p].(state := RUNNABLE)];
      cpu := cpu[c := None];
    }

    /** The scheduler of an idle CPU runs p; back from sched, a process that slept clears its channel. */
    method Dispatch(c: nat, p: nat)
      requires Valid() && c < |cpu| && cpu[c] == None && p < |proc| && proc[p].state == RUNNABLE
      modifies `proc, `cpu
      ensures Valid() && cpu == old(cpu)[c := Some(p)] && proc == old(proc)[p := old(proc)[p].(state := RUNNING, chan := NoChan)]
    {
      hide Inv;
      DispatchedInv(init, proc, cpu, nextpid, g, c, p);
      proc := proc[p := proc[p].(state := RUNNING)];
      cpu := cpu[c := Some(p)];
      proc := proc[p := proc[p].(chan := NoChan)];
      assert proc == old(proc)[p := old(proc)[p].(state := RUNNING, chan := NoChan)];
    }

    /** kill: the process with that pid; if there is none, the first free slot that has it. */
    method Kill(pid: nat) returns (r: int, p: nat)
      requires Valid()
      modifies `proc
      ensures Valid() && (r == 0 || r == -1)
      ensures r == -1 ==> proc == old(proc)
      ensures r == -1 <==> forall q: nat :: q < |old(proc)| ==> old(proc)[q].pid != pid
      ensures r == 0 ==> p < |old(proc)| && (old(proc)[p].state == UNUSED <==> !InUse(old(proc), pid))
      ensures r == 0 ==> forall q: nat :: q < |old(proc)| && old(proc)[q].state != UNUSED && old(proc)[q].pid == pid ==> q == p
      ensures r == 0 ==>
        && p < |old(proc)| && old(proc)[p].pid == pid && (forall q: nat :: q < p ==> old(proc)[q].pid != pid)
        && proc == old(proc)[p := Killed(old(proc)[p])]
      ensures r == 0 ==>
        && |proc| == |old(proc)| && proc[p].killed
        && proc[p].state != SLEEPING && proc[p].state == (if old(proc)[p].state == SLEEPING then RUNNABLE else old(proc)[p].state)
        && proc[p].pid == old(proc)[p].pid && proc[p].parent == old(proc)[p].parent && proc[p].chan == old(proc)[p].chan
        && forall q: nat :: q < |proc| && q != p ==> proc[q] == old(proc)[q]
      ensures r == 0 ==> forall q: nat :: q < |proc| && proc[q].pid == pid && proc[q].state != UNUSED ==> proc[q].killed && proc[q].state != SLEEPING
    {
      hide Inv;
      p := 0;
      while p < |proc|
        invariant p <= |proc| && proc == old(proc)
        invariant forall q: nat :: q < p ==> proc[q].pid != pid
      {
        if proc[p].pid == pid {
          KillsInUse(init, proc, cpu, nextpid, g, pid, p);
          KilledInv(init, proc, cpu, nextpid, g, p);
          proc := proc[p := proc[p].(killed := true)];
          if proc[p].state == SLEEPING {
            proc := proc[p := proc[p].(state := RUNNABLE)];
          }
          assert proc == old(proc)[p := Killed(old(proc)[p])];
          return 0, p;
        }
        p := p + 1;
      }
      r := -1;
    }
  }

  /** In every reachable state: who sleeps in wait was not killed, and none of its children is a zombie. */
  lemma WaitersSound(init: nat, proc: seq<Proc>, cpu: seq<Option<nat>>, nextpid: nat, g: Ghost, w: nat, z: nat)
    requires Inv(init, proc, cpu, nextpid, g) && w < |proc| && proc[w].state == SLEEPING && proc[w].chan == OfProc(w)
    ensures !proc[w].killed
    ensures z < |proc| && proc[z].parent == Some(w) ==> proc[z].state != ZOMBIE
  {
    assert Asleep(proc[w], OfProc(w));
  }

  function Killed(q: Proc): Proc {
    q.(killed := true, state := if q.state == SLEEPING then RUNNABLE else q.state)
  }

  predicate ZombieChild(proc: seq<Proc>, p: nat, z: nat) {
    z < |proc| && proc[z].parent == Some(p) && proc[z].state == ZOMBIE
  }

  lemma FreeSlot(init: nat, proc: seq<Proc>, making: map<nat, nat>, np: nat)
    requires Tree(init, proc, making) && np < |proc| && proc[np].state == UNUSED
    ensures proc[np].parent == None
  {
    assert ParentFits(init, proc, making, np);
  }

  lemma Made(init: nat, proc: seq<Proc>, cpu: seq<Option<nat>>, nextpid: nat, g: Ghost, m: nat)
    requires Inv(init, proc, cpu, nextpid, g) && m in g.making
    ensures g.making[m] < |proc| && proc[g.making[m]].state == EMBRYO
  {
    assert MakerFits(proc, m, g.making[m]);
  }

  lemma RunningProcess(init: nat, proc: seq<Proc>, cpu: seq<Option<nat>>, nextpid: nat, g: Ghost, c: nat)
    requires Inv(init, proc, cpu, nextpid, g) && c < |cpu| && cpu[c].Some?
    ensures cpu[c].value < |proc| && proc[cpu[c].value].state == RUNNING
  {
  }

  lemma ExitingProcess(init: nat, proc: seq<Proc>, cpu: seq<Option<nat>>, nextpid: nat, g: Ghost, c: nat)
    requires Inv(init, proc, cpu, nextpid, g) && c < |cpu| && cpu[c].Some? && cpu[c].value != init
    ensures var p := cpu[c].value;
            p < |proc| && proc[p].state == RUNNING && proc[p].parent.Some? && proc[p].parent != Some(p)
  {
    assert ParentFits(init, proc, g.making, cpu[c].value);
  }

  lemma DuringStart(init: nat, proc: seq<Proc>, p: nat, parent: nat)
    ensures forall r: nat :: r < |proc| ==> Awakened(proc, OfProc(parent))[r] == DuringExit(init, proc, p, parent, 0, r)
  {
  }

  lemma ExitedInv(init: nat, proc: seq<Proc>, cpu: seq<Option<nat>>, nextpid: nat, g: Ghost, c: nat, proc': seq<Proc>)
    requires Inv(init, proc, cpu, nextpid, g) && c < |cpu| && cpu[c].Some? && cpu[c].value != init && cpu[c].value !in g.making
    requires Exited(init, proc, cpu[c].value, proc')
    ensures Inv(init, proc', cpu[c := None], nextpid, g.(exited := g.exited + {proc[cpu[c].value].pid}))
  {
    var p := cpu[c].value;
    ExitingProcess(init, proc, cpu, nextpid, g, c);
    assert proc[init].pid == 1;
    hide Tree, Makers, WaitersIdle, OnCpus, Pids, Exits, Exited;
    ExitedTree(init, proc, p, proc', g.making, nextpid);
    ExitedMakers(init, proc, p, proc', g.making);
    ExitedWaiters(init, proc, p, proc');
    ExitedCpus(init, proc, p, proc', cpu, c);
    ExitedPids(init, proc, p, proc', nextpid);
    ExitedExits(init, proc, p, proc', nextpid, g.exited, g.reaped);
  }

  /** The process on CPU c goes to sleep; in wait, only without zombie children and if it was not killed. */
  lemma SleptInv(init: nat, proc: seq<Proc>, cpu: seq<Option<nat>>, nextpid: nat, g: Ghost, c: nat, chan: Chan)
    requires Inv(init, proc, cpu, nextpid, g) && c < |cpu| && cpu[c].Some? && cpu[c].value < |proc|
    requires chan.OfProc? ==> chan.p == cpu[c].value && forall y: nat :: y < |proc| ==> !ZombieChild(proc, chan.p, y)
    requires chan.OfProc? ==> !proc[cpu[c].value].killed
    ensures Inv(init, proc[cpu[c].value := proc[cpu[c].value].(state := SLEEPING, chan := chan)], cpu[c := None], nextpid, g)
  {
    var p := cpu[c].value;
    var q := proc[p].(state := SLEEPING, chan := chan);
    var proc' := proc[p := q];
    CpuLeft(proc, cpu, c, q);
    forall w: nat | w < |proc| && Asleep(proc'[w], OfProc(w))
      ensures !proc'[w].killed
    {
      assert w != p ==> Asleep(proc[w], OfProc(w));
    }
    forall w: nat, z: nat | w < |proc| && z < |proc| && Asleep(proc'[w], OfProc(w)) && proc'[z].state == ZOMBIE
      ensures proc'[z].parent != Some(w)
    {
      assert w == p ==> !ZombieChild(proc, p, z);
      assert w != p ==> Asleep(proc[w], OfProc(w));
    }
    FamilyInv(init, proc, cpu, nextpid, g, proc', cpu[c := None]);
  }

  lemma YieldedInv(init: nat, proc: seq<Proc>, cpu: seq<Option<nat>>, nextpid: nat, g: Ghost, c: nat)
    requires Inv(init, proc, cpu, nextpid, g) && c < |cpu| && cpu[c].Some? && cpu[c].value < |proc|
    ensures Inv(init, proc[cpu[c].value := proc[cpu[c].value].(state := RUNNABLE)], cpu[c := None], nextpid, g)
  {
    var p := cpu[c].value;
    var q := proc[p].(state := RUNNABLE);
    CpuLeft(proc, cpu, c, q);
    WaitersStay(proc, proc[p := q]);
    FamilyInv(init, proc, cpu, nextpid, g, proc[p := q], cpu[c := None]);
  }

  lemma DispatchedInv(init: nat, proc: seq<Proc>, cpu: seq<Option<nat>>, nextpid: nat, g: Ghost, c: nat, p: nat)
    requires Inv(init, proc, cpu, nextpid, g) && c < |cpu| && cpu[c] == None && p < |proc| && proc[p].state == RUNNABLE
    ensures Inv(init, proc[p := proc[p].(state := RUNNING, chan := NoChan)], cpu[c := Some(p)], nextpid, g)
  {
    var q := proc[p].(state := RUNNING, chan := NoChan);
    CpuTaken(proc, cpu, c, p, q);
    WaitersStay(proc, proc[p := q]);
    FamilyInv(init, proc, cpu, nextpid, g, proc[p := q], cpu[c := Some(p)]);
  }

  lemma KilledInv(init: nat, proc: seq<Proc>, cpu: seq<Option<nat>>, nextpid: nat, g: Ghost, p: nat)
    requires Inv(init, proc, cpu, nextpid, g) && p < |proc|
    ensures Inv(init, proc[p := Killed(proc[p])], cpu, nextpid, g)
  {
    WaitersStay(proc, proc[p := Killed(proc[p])]);
    AwakenedCpus(proc, cpu, proc[p := Killed(proc[p])]);
    FamilyInv(init, proc, cpu, nextpid, g, proc[p := Killed(proc[p])], cpu);
  }

  lemma KillsInUse(init: nat, proc: seq<Proc>, cpu: seq<Option<nat>>, nextpid: nat, g: Ghost, pid: nat, p: nat)
    requires Inv(init, proc, cpu, nextpid, g) && p < |proc| && proc[p].pid == pid
    requires forall q: nat :: q < p ==> proc[q].pid != pid
    ensures proc[p].state == UNUSED <==> !InUse(proc, pid)
    ensures forall q: nat :: q < |proc| && proc[q].state != UNUSED && proc[q].pid == pid ==> q == p
  {
    FirstWithPid(proc, nextpid, pid, p);
  }

  /** A fork that found no memory leaves its pid in a free slot; a kill of that pid marks the slot's next owner. */
  method KilledByStalePid() returns (t: ProcTable)
    ensures t.Valid() && fresh(t) && |t.proc| == 2
    ensures t.proc[1] == Proc(RUNNABLE, 3, Some(0), true, NoChan)
  {
    t := new ProcTable(2, 1);
    t.Dispatch(0, 0);
    assert t.proc[1].state == UNUSED;
    var r, np := t.Fork(0, false, true);
    assert t.proc[1].state == UNUSED && t.proc[1].pid == 2;
    r, np := t.Kill(2);
    assert t.proc[1].killed;
    r, np := t.Fork(0, true, true);
  }

  /** kill(0) finds a free slot, and the next child born there is already killed. */
  method KilledBeforeBirth() returns (t: ProcTable)
    ensures t.Valid() && fresh(t) && |t.proc| == 2
    ensures t.proc[1] == Proc(RUNNABLE, 2, Some(0), true, NoChan)
  {
    t := new ProcTable(2, 1);
    t.Dispatch(0, 0);
    var r, np := t.Kill(0);
    assert t.proc[1].killed;
    r, np := t.Fork(0, true, true);
  }
}
