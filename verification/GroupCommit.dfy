/**
 Group commit: any number of processes interleave begin_op, log_write and end_op
 with the disk writes of the commit that the last end_op starts.

 Each step is what one process does while it holds log.lock, or one disk write
 of a commit.  The state also keeps the history of all logged updates, which no
 step looks at, so that recovered disks can be compared with prefixes of it.
 */
module GroupCommit {
  import opened Machine
  import opened Blocks
  import opened Log

  const MAXOPBLOCKS: nat := 10

  /**
   A process slot: outside any operation, asleep on &log in begin_op, or inside an operation.
   A sleeper takes no step until it is woken; then it may try to begin again.
   */
  datatype Proc = Outside | Asleep | Active(id: nat, blocks: set<Word>)

  datatype Update = Update(op: nat, b: Word, data: Block)

  /** The commit in progress: the disk it started from and the number of writes done. */
  datatype Commit = NoCommit | InCommit(base: Disk, done: nat)

  datatype State = State(
    g: Area,
    disk: Disk,
    dirty: map<nat, Block>,
    lh: seq<Word>,
    procs: seq<Proc>,
    outstanding: int,
    commit: Commit,
    panicked: bool,
    // history
    init: Disk,
    hist: seq<Update>,
    mark: nat,             // how much of hist the finished commits cover
    nextId: nat)

  datatype Step =
    | TryBegin(p: nat)
    | LogWrite(p: nat, b: Word, data: Block)
    | EndOp(p: nat)
    | DiskWrite
    | Finish

  // ----- the transition system

  predicate Initial(s: State) {
    && Empty(s.disk, s.g) && s.g.size <= WORDS
    && s.init == s.disk && s.dirty == map[] && s.lh == []
    && (forall p :: 0 <= p < |s.procs| ==> s.procs[p] == Outside)
    && s.outstanding == 0 && s.commit == NoCommit && !s.panicked
    && s.hist == [] && s.mark == 0 && s.nextId == 0
  }

  predicate Wf(s: State) {
    && Loggable(s.disk, s.g, s.lh)
    && (s.commit.InCommit? ==> |s.commit.base| == |s.disk|)
  }

  function Trace(s: State): seq<Disk>
    requires Wf(s) && s.commit.InCommit?
  {
    CommitTrace(s.commit.base, s.g, s.lh, Latest(s.commit.base, s.dirty, s.lh))
  }

  /** The steps a state allows when no operation logs more than limit distinct blocks. */
  predicate Enabled(limit: nat, s: State, step: Step) {
    && Wf(s) && !s.panicked
    && match step
       case TryBegin(p) => p < |s.procs| && s.procs[p] == Outside
       case LogWrite(p, b, _) =>
         && p < |s.procs| && s.procs[p].Active?
         && b < |s.disk| && !InLog(s.g, b)
         && |s.procs[p].blocks + {b}| <= limit
       case EndOp(p) => p < |s.procs| && s.procs[p].Active?
       case DiskWrite => s.commit.InCommit? && s.commit.done < |Trace(s)|
       case Finish => s.commit.InCommit? && s.commit.done == |Trace(s)|
  }

  function Wakeup(procs: seq<Proc>): seq<Proc> {
    seq(|procs|, p requires 0 <= p < |procs| => if procs[p] == Asleep then Outside else procs[p])
  }

  function Do(limit: nat, s: State, step: Step): State
    requires Enabled(limit, s, step)
  {
    match step
    case TryBegin(p) =>
      if s.commit.InCommit? || |s.lh| + (s.outstanding + 1) * MAXOPBLOCKS > LOGSIZE then
        s.(procs := s.procs[p := Asleep])
      else
        s.(procs := s.procs[p := Active(s.nextId, {})], outstanding := s.outstanding + 1, nextId := s.nextId + 1)
    case LogWrite(p, b, data) =>
      if |s.lh| >= LOGSIZE || |s.lh| >= s.g.size - 1 || s.outstanding < 1 then
        s.(panicked := true)
      else
        s.(lh := if b in s.lh then s.lh else s.lh + [b],
           dirty := s.dirty[b as nat := data],
           procs := s.procs[p := Active(s.procs[p].id, s.procs[p].blocks + {b})],
           hist := s.hist + [Update(s.procs[p].id, b, data)])
    case EndOp(p) =>
      if s.commit.InCommit? then
        s.(panicked := true)
      else
        var procs := s.procs[p := Outside];
        if s.outstanding == 1 then
          s.(outstanding := 0, procs := procs, commit := InCommit(s.disk, 0))
        else
          s.(outstanding := s.outstanding - 1, procs := Wakeup(procs))
    case DiskWrite =>
      s.(disk := Trace(s)[s.commit.done], commit := InCommit(s.commit.base, s.commit.done + 1))
    case Finish =>
      s.(lh := [], dirty := map[], commit := NoCommit, procs := Wakeup(s.procs), mark := |s.hist|)
  }

  /** s leads to t by the given steps. */
  predicate Runs(limit: nat, s: State, steps: seq<Step>, t: State)
    decreases |steps|
  {
    if steps == [] then s == t
    else Enabled(limit, s, steps[0]) && Runs(limit, Do(limit, s, steps[0]), steps[1..], t)
  }

  // ----- what the history means

  /** A disk after a list of updates. */
  function Apply(d: Disk, us: seq<Update>): (e: Disk)
    ensures |e| == |d|
    decreases |us|
  {
    if us == [] then d
    else
      var n := |us| - 1;
      var e := Apply(d, us[..n]);
      if us[n].b < |d| then e[us[n].b := us[n].data] else e
  }

  /** How much of the history a crash now would preserve: all of it once the header is written. */
  function Durable(s: State): nat {
    if s.commit.InCommit? && s.commit.done > |s.lh| then |s.hist| else s.mark
  }

  // ----- the invariant

  function ActiveCount(procs: seq<Proc>): nat {
    if procs == [] then 0
    else ActiveCount(procs[..|procs| - 1]) + if procs[|procs| - 1].Active? then 1 else 0
  }

  lemma {:induction false} ActiveCountUpdate(procs: seq<Proc>, p: nat, q: Proc)
    requires p < |procs|
    ensures ActiveCount(procs[p := q])
         == ActiveCount(procs) - (if procs[p].Active? then 1 else 0) + (if q.Active? then 1 else 0)
  {
    var n := |procs| - 1;
    if p < n {
      assert procs[p := q][..n] == procs[..n][p := q];
      ActiveCountUpdate(procs[..n], p, q);
    } else {
      assert procs[p := q][..n] == procs[..n];
    }
  }

  lemma {:induction false} ActiveCountWakeup(procs: seq<Proc>)
    ensures ActiveCount(Wakeup(procs)) == ActiveCount(procs)
  {
    if procs != [] {
      var n := |procs| - 1;
      assert Wakeup(procs)[..n] == Wakeup(procs[..n]);
      ActiveCountWakeup(procs[..n]);
    }
  }

  lemma {:induction false} NoneActive(procs: seq<Proc>, p: nat)
    requires ActiveCount(procs) == 0 && p < |procs|
    ensures !procs[p].Active?
  {
    var n := |procs| - 1;
    if p < n {
      NoneActive(procs[..n], p);
    }
  }

  function Base(s: State): Disk {
    if s.commit.InCommit? then s.commit.base else s.disk
  }

  ghost predicate CountInv(s: State) {
    && s.outstanding == ActiveCount(s.procs)
    && (s.commit.InCommit? ==> s.outstanding == 0)
    && (s.commit == NoCommit && s.outstanding == 0 ==> s.lh == [])
    && (forall p :: 0 <= p < |s.procs| && s.procs[p] == Asleep ==>
          s.commit.InCommit? || |s.lh| + (s.outstanding + 1) * MAXOPBLOCKS > LOGSIZE)
  }

  /** No operation has updates on both sides of the mark, and a running one has none before it. */
  ghost predicate Whole(hist: seq<Update>, mark: nat, procs: seq<Proc>, nextId: nat) {
    && mark <= |hist|
    && (forall i :: 0 <= i < |hist| ==> hist[i].op < nextId)
    && (forall p :: 0 <= p < |procs| && procs[p].Active? ==> procs[p].id < nextId)
    && (forall i, p :: 0 <= i < mark && 0 <= p < |procs| && procs[p].Active? ==> hist[i].op != procs[p].id)
    && (forall i, j :: 0 <= i < mark <= j < |hist| ==> hist[i].op != hist[j].op)
  }

  ghost predicate HistoryInv(s: State) {
    && Whole(s.hist, s.mark, s.procs, s.nextId)
    && (s.lh == [] ==> s.mark == |s.hist|)
  }

  /** The file system seen through the cache is the whole history; the one on disk, its first part. */
  ghost predicate Views(g: Area, init: Disk, base: Disk, dirty: map<nat, Block>, hist: seq<Update>, mark: nat) {
    && |init| == |base| && mark <= |hist|
    && SameHome(g, base, Apply(init, hist[..mark]))
    && (forall b: nat :: b < |base| && !InLog(g, b) ==>
          (if b in dirty then dirty[b] else base[b]) == Apply(init, hist)[b])
  }

  ghost predicate DiskInv(s: State) {
    && Wf(s) && s.g.size <= WORDS && |s.init| == |s.disk|
    && Empty(Base(s), s.g)
    && (forall b: nat :: b in s.dirty <==> b in s.lh)
    && Views(s.g, s.init, Base(s), s.dirty, s.hist, s.mark)
    && (s.commit.InCommit? ==>
          s.commit.done <= |Trace(s)|
          && s.disk == CommitPrefix(s.commit.base, s.g, s.lh, Latest(s.commit.base, s.dirty, s.lh), s.commit.done))
  }

  ghost predicate Inv(s: State) {
    HistoryInv(s) && DiskInv(s) && CountInv(s)
  }

  lemma InitialInv(s: State)
    requires Initial(s)
    ensures Inv(s)
  {
    AllOutside(s.procs);
  }

  lemma {:induction false} AllOutside(procs: seq<Proc>)
    requires forall p :: 0 <= p < |procs| ==> procs[p] == Outside
    ensures ActiveCount(procs) == 0
  {
    if procs != [] {
      AllOutside(procs[..|procs| - 1]);
    }
  }

  lemma CountStep(limit: nat, s: State, step: Step)
    requires Inv(s) && Enabled(limit, s, step)
    ensures CountInv(Do(limit, s, step))
  {
    hide Views, HistoryInv, DiskInv, ActiveCount, Wf, Trace, Log.CommitTrace;
    var t := Do(limit, s, step);
    match step
    case TryBegin(p) => ActiveCountUpdate(s.procs, p, t.procs[p]);
    case LogWrite(p, b, data) => ActiveCountUpdate(s.procs, p, t.procs[p]);
    case EndOp(p) =>
      ActiveCountUpdate(s.procs, p, Outside);
      ActiveCountWakeup(s.procs[p := Outside]);
    case DiskWrite =>
    case Finish => ActiveCountWakeup(s.procs);
  }

  lemma WholeBegin(hist: seq<Update>, mark: nat, procs: seq<Proc>, nextId: nat, p: nat)
    requires Whole(hist, mark, procs, nextId) && p < |procs|
    ensures Whole(hist, mark, procs[p := Active(nextId, {})], nextId + 1)
    ensures Whole(hist, mark, procs[p := Asleep], nextId)
    ensures Whole(hist, mark, procs[p := Outside], nextId)
  {
  }

  lemma WholeWrite(hist: seq<Update>, mark: nat, procs: seq<Proc>, nextId: nat, p: nat, u: Update, blocks: set<Word>)
    requires Whole(hist, mark, procs, nextId) && p < |procs| && procs[p].Active? && u.op == procs[p].id
    ensures Whole(hist + [u], mark, procs[p := Active(procs[p].id, blocks)], nextId)
  {
  }

  lemma WholeWakeup(hist: seq<Update>, mark: nat, procs: seq<Proc>, nextId: nat)
    requires Whole(hist, mark, procs, nextId)
    ensures Whole(hist, mark, Wakeup(procs), nextId)
  {
  }

  lemma WholeFinish(hist: seq<Update>, mark: nat, procs: seq<Proc>, nextId: nat)
    requires Whole(hist, mark, procs, nextId) && ActiveCount(procs) == 0
    ensures Whole(hist, |hist|, procs, nextId)
  {
    forall p | 0 <= p < |procs|
      ensures !procs[p].Active?
    {
      NoneActive(procs, p);
    }
  }

  lemma HistoryStep(limit: nat, s: State, step: Step)
    requires Inv(s) && Enabled(limit, s, step)
    ensures HistoryInv(Do(limit, s, step))
  {
    match step
    case TryBegin(p) => WholeBegin(s.hist, s.mark, s.procs, s.nextId, p);
    case LogWrite(p, b, data) =>
      WholeWrite(s.hist, s.mark, s.procs, s.nextId, p, Update(s.procs[p].id, b, data), s.procs[p].blocks + {b});
    case EndOp(p) =>
      WholeBegin(s.hist, s.mark, s.procs, s.nextId, p);
      WholeWakeup(s.hist, s.mark, s.procs[p := Outside], s.nextId);
    case DiskWrite =>
    case Finish =>
      WholeFinish(s.hist, s.mark, s.procs, s.nextId);
      WholeWakeup(s.hist, |s.hist|, s.procs, s.nextId);
  }

  lemma DiskStep(limit: nat, s: State, step: Step)
    requires Inv(s) && Enabled(limit, s, step)
    ensures DiskInv(Do(limit, s, step))
  {
    match step
    case TryBegin(p) =>
    case LogWrite(p, b, data) => DiskLogWrite(limit, s, step);
    case EndOp(p) => DiskEndOp(limit, s, p);
    case DiskWrite => DiskDiskWrite(limit, s);
    case Finish => DiskFinish(limit, s);
  }

  lemma DiskEndOp(limit: nat, s: State, p: nat)
    requires Inv(s) && Enabled(limit, s, EndOp(p))
    ensures DiskInv(Do(limit, s, EndOp(p)))
  {
  }

  lemma DiskDiskWrite(limit: nat, s: State)
    requires Inv(s) && Enabled(limit, s, DiskWrite)
    ensures DiskInv(Do(limit, s, DiskWrite))
  {
    hide Views, HistoryInv, CountInv;
    var t := Do(limit, s, DiskWrite);
    var cs := Latest(s.commit.base, s.dirty, s.lh);
    assert t.disk == CommitPrefix(s.commit.base, s.g, s.lh, cs, s.commit.done + 1);
    CommitPrefixSize(s.commit.base, s.g, s.lh, cs, s.commit.done + 1);
  }

  lemma CommitPrefixSize(d: Disk, g: Area, blocks: seq<Word>, contents: seq<Block>, k: nat)
    requires Loggable(d, g, blocks) && |contents| == |blocks|
    requires k <= |CommitTrace(d, g, blocks, contents)|
    ensures |CommitPrefix(d, g, blocks, contents, k)| == |d|
  {
  }

  lemma ViewsWrite(g: Area, init: Disk, base: Disk, dirty: map<nat, Block>, hist: seq<Update>, mark: nat, u: Update)
    requires Views(g, init, base, dirty, hist, mark) && u.b < |base|
    ensures Views(g, init, base, dirty[u.b as nat := u.data], hist + [u], mark)
  {
    assert (hist + [u])[..|hist|] == hist;
    assert (hist + [u])[..mark] == hist[..mark];
  }

  lemma DiskLogWrite(limit: nat, s: State, step: Step)
    requires Inv(s) && Enabled(limit, s, step) && step.LogWrite?
    ensures DiskInv(Do(limit, s, step))
  {
    ViewsWrite(s.g, s.init, Base(s), s.dirty, s.hist, s.mark, Update(s.procs[step.p].id, step.b, step.data));
  }

  /** Installing the latest contents of the logged blocks makes the disk the latest file system. */
  lemma {:induction false} AppliedLatest(d: Disk, dirty: map<nat, Block>, blocks: seq<Word>, b: nat)
    requires forall i :: 0 <= i < |blocks| ==> blocks[i] < |d|
    requires b < |d|
    ensures Applied(d, blocks, Latest(d, dirty, blocks))[b] == if b in dirty && b in blocks then dirty[b] else d[b]
    decreases |blocks|
  {
    if blocks != [] {
      var n := |blocks| - 1;
      assert Latest(d, dirty, blocks)[..n] == Latest(d, dirty, blocks[..n]);
      AppliedLatest(d, dirty, blocks[..n], b);
    }
  }

  lemma AppliedIsHistory(s: State)
    requires DiskInv(s) && s.commit.InCommit?
    ensures SameHome(s.g, Applied(s.commit.base, s.lh, Latest(s.commit.base, s.dirty, s.lh)), Apply(s.init, s.hist))
  {
    forall b: nat | b < |s.disk| && !InLog(s.g, b)
      ensures Applied(s.commit.base, s.lh, Latest(s.commit.base, s.dirty, s.lh))[b] == Apply(s.init, s.hist)[b]
    {
      AppliedLatest(s.commit.base, s.dirty, s.lh, b);
    }
  }

  lemma DiskFinish(limit: nat, s: State)
    requires Inv(s) && Enabled(limit, s, Finish)
    ensures DiskInv(Do(limit, s, Finish))
  {
    var t := Do(limit, s, Finish);
    var cs := Latest(s.commit.base, s.dirty, s.lh);
    CommitCompletes(s.commit.base, s.g, s.lh, cs);
    AppliedIsHistory(s);
    assert t.hist[..t.mark] == t.hist;
    SameHomeTransitive(s.g, s.disk, Applied(s.commit.base, s.lh, cs), Apply(s.init, s.hist));
  }

  lemma StepInv(limit: nat, s: State, step: Step)
    requires Inv(s) && Enabled(limit, s, step)
    ensures Inv(Do(limit, s, step))
  {
    CountStep(limit, s, step);
    HistoryStep(limit, s, step);
    DiskStep(limit, s, step);
  }

  lemma {:induction false} RunInv(limit: nat, s: State, steps: seq<Step>, t: State)
    requires Inv(s) && Runs(limit, s, steps, t)
    ensures Inv(t)
    decreases |steps|
  {
    if steps != [] {
      StepInv(limit, s, steps[0]);
      RunInv(limit, Do(limit, s, steps[0]), steps[1..], t);
    }
  }

  lemma RecoversDurable(t: State, ds: seq<Disk>)
    requires Inv(t) && CrashRun(t.g, ds) && ds[0] == t.disk
    ensures Durable(t) <= |t.hist|
    ensures GoodHead(ds[|ds| - 1], t.g)
    ensures SameHome(t.g, Recovered(ds[|ds| - 1], t.g), Apply(t.init, t.hist[..Durable(t)]))
  {
    if t.commit.InCommit? {
      RecoversInCommit(t, ds);
    } else {
      CrashAtomicity(t.disk, t.g, [], [], 0, ds);
      SameHomeTransitive(t.g, Recovered(ds[|ds| - 1], t.g), t.disk, Apply(t.init, t.hist[..t.mark]));
    }
  }

  lemma RecoversInCommit(t: State, ds: seq<Disk>)
    requires Inv(t) && t.commit.InCommit? && CrashRun(t.g, ds) && ds[0] == t.disk
    ensures GoodHead(ds[|ds| - 1], t.g)
    ensures SameHome(t.g, Recovered(ds[|ds| - 1], t.g), Apply(t.init, t.hist[..Durable(t)]))
  {
    hide HistoryInv, CountInv, Apply, Log.Applied, Log.CommitTrace, Log.CommitPrefix, Log.CrashRun, Log.Recovered, Log.GoodHead;
    assert t.hist[..|t.hist|] == t.hist;
    AppliedIsHistory(t);
    CrashedCommit(t.commit.base, t.g, t.lh, Latest(t.commit.base, t.dirty, t.lh), t.commit.done, ds,
                  Apply(t.init, t.hist[..t.mark]), Apply(t.init, t.hist));
  }

  lemma CrashedCommit(base: Disk, g: Area, lh: seq<Word>, cs: seq<Block>, done: nat, ds: seq<Disk>, before: Disk, after: Disk)
    requires Empty(base, g) && Loggable(base, g, lh) && |cs| == |lh|
    requires done <= |CommitTrace(base, g, lh, cs)|
    requires CrashRun(g, ds) && ds[0] == CommitPrefix(base, g, lh, cs, done)
    requires SameHome(g, base, before) && SameHome(g, Applied(base, lh, cs), after)
    ensures GoodHead(ds[|ds| - 1], g)
    ensures SameHome(g, Recovered(ds[|ds| - 1], g), if done <= |lh| then before else after)
  {
    CrashAtomicity(base, g, lh, cs, done, ds);
    var final := Recovered(ds[|ds| - 1], g);
    if done <= |lh| {
      SameHomeTransitive(g, final, base, before);
    } else {
      SameHomeTransitive(g, final, Applied(base, lh, cs), after);
    }
  }

  /**
   Whatever the interleaving, a crash at any moment, followed by any number of
   interrupted recoveries and one that completes, leaves the file system as the
   first Durable(t) updates made it, and no operation is cut by that prefix:
   none has updates on both sides of it, and none that is still running has
   any inside it.
   */
  lemma CrashKeepsWholeOperations(limit: nat, s: State, steps: seq<Step>, t: State, ds: seq<Disk>)
    requires Initial(s) && Runs(limit, s, steps, t)
    requires CrashRun(t.g, ds) && ds[0] == t.disk
    ensures Durable(t) <= |t.hist|
    ensures GoodHead(ds[|ds| - 1], t.g)
    ensures SameHome(t.g, Recovered(ds[|ds| - 1], t.g), Apply(t.init, t.hist[..Durable(t)]))
    ensures forall i, j :: 0 <= i < Durable(t) <= j < |t.hist| ==> t.hist[i].op != t.hist[j].op
    ensures forall i, p :: 0 <= i < Durable(t) && 0 <= p < |t.procs| && t.procs[p].Active? ==>
              t.hist[i].op != t.procs[p].id
  {
    InitialInv(s);
    RunInv(limit, s, steps, t);
    RecoversDurable(t, ds);
    forall p | t.commit.InCommit? && 0 <= p < |t.procs|
      ensures !t.procs[p].Active?
    {
      NoneActive(t.procs, p);
    }
  }

  /** Nothing durable is ever lost, and once the log is idle everything is durable. */
  lemma DurabilityGrows(limit: nat, s: State, steps: seq<Step>, t: State, step: Step)
    requires Initial(s) && Runs(limit, s, steps, t) && Enabled(limit, t, step)
    ensures var u := Do(limit, t, step);
            && t.hist <= u.hist && Durable(t) <= Durable(u)
            && (u.commit == NoCommit && u.outstanding == 0 ==> Durable(u) == |u.hist|)
  {
    InitialInv(s);
    RunInv(limit, s, steps, t);
    StepInv(limit, t, step);
    if step.LogWrite? && t.commit.InCommit? {
      NoneActive(t.procs, step.p);
    }
  }

  lemma LogFirst(t: State)
    requires DiskInv(t) && t.commit.InCommit? && t.commit.done <= |t.lh|
    ensures SameHome(t.g, t.disk, t.commit.base)
  {
    var cs := Latest(t.commit.base, t.dirty, t.lh);
    assert t.disk == Logged(t.commit.base, t.g, cs, t.commit.done);
    forall b: nat | b < |t.disk| && !InLog(t.g, b)
      ensures t.disk[b] == t.commit.base[b]
    {
      LoggedAt(t.commit.base, t.g, cs, t.commit.done, b);
    }
  }

  /**
   committing implies no outstanding operation, no home block is written before
   the header that names it is on disk, and whoever sleeps in begin_op would be
   refused now, and has someone left to wake it.
   */
  lemma ProtocolSafety(limit: nat, s: State, steps: seq<Step>, t: State)
    requires Initial(s) && Runs(limit, s, steps, t)
    ensures t.commit.InCommit? ==> t.outstanding == 0
    ensures t.outstanding == ActiveCount(t.procs)
    ensures t.commit.InCommit? && t.commit.done <= |t.lh| ==> SameHome(t.g, t.disk, t.commit.base)
    ensures forall p :: 0 <= p < |t.procs| && t.procs[p] == Asleep ==>
              t.commit.InCommit? || (t.outstanding > 0 && |t.lh| + 10 * (t.outstanding + 1) > 30)
  {
    InitialInv(s);
    RunInv(limit, s, steps, t);
    if t.commit.InCommit? && t.commit.done <= |t.lh| {
      LogFirst(t);
    }
  }

  /**
   After an end_op nobody sleeps in begin_op unless that end_op has started a commit, which it does
   exactly if it was the last operation; when the commit is over nobody sleeps either.
   */
  lemma EndOpWakes(limit: nat, s: State, steps: seq<Step>, t: State, step: Step)
    requires Initial(s) && Runs(limit, s, steps, t) && Enabled(limit, t, step) && (step.EndOp? || step.Finish?)
    ensures var u := Do(limit, t, step);
            && !u.panicked && |u.procs| == |t.procs|
            && (u.commit.InCommit? <==> step.EndOp? && t.outstanding == 1)
            && (u.commit == NoCommit ==> forall p :: 0 <= p < |u.procs| ==> u.procs[p] != Asleep)
            && (forall p :: 0 <= p < |u.procs| && (u.procs[p].Active? || t.procs[p].Active?) ==>
                  u.procs[p] == if step.EndOp? && p == step.p then Outside else t.procs[p])
  {
    InitialInv(s);
    RunInv(limit, s, steps, t);
    if step.EndOp? && t.commit.InCommit? {
      NoneActive(t.procs, step.p);
    }
  }

  /** begin_op admits a process exactly if no commit is under way and ten blocks are left for each operation; an idle log always does. */
  lemma BeginAdmits(limit: nat, s: State, steps: seq<Step>, t: State, p: nat)
    requires Initial(s) && Runs(limit, s, steps, t) && Enabled(limit, t, TryBegin(p))
    ensures var u := Do(limit, t, TryBegin(p));
            && u.procs[p].Active? == (t.commit == NoCommit && |t.lh| + 10 * t.outstanding <= 20)
            && (!u.procs[p].Active? ==> u == t.(procs := t.procs[p := Asleep]))
            && (u.procs[p].Active? ==> u.procs[p].blocks == {} && u.outstanding == t.outstanding + 1)
            && (t.commit == NoCommit && t.outstanding == 0 ==> u.procs[p].Active?)
  {
    InitialInv(s);
    RunInv(limit, s, steps, t);
  }
}
