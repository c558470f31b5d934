/**
 Does begin_op's reservation keep log_write from panicking?

 It reserves MAXOPBLOCKS blocks an operation against LOGSIZE, but a log of
 LOGSIZE blocks holds its header too, and log_write panics when the header
 already names size - 1 blocks.  So the reservation is enough exactly when no
 operation logs MAXOPBLOCKS distinct blocks.
 */
module LogSpace {
  import opened Machine
  import opened Blocks
  import opened Log
  import opened GroupCommit

  function Remaining(limit: nat, q: Proc): nat {
    if q.Active? && |q.blocks| <= limit then limit - |q.blocks| else 0
  }

  /** What the running operations may still add to the log. */
  function Slack(limit: nat, procs: seq<Proc>): nat {
    if procs == [] then 0
    else Slack(limit, procs[..|procs| - 1]) + Remaining(limit, procs[|procs| - 1])
  }

  lemma {:induction false} SlackUpdate(limit: nat, procs: seq<Proc>, p: nat, q: Proc)
    requires p < |procs|
    ensures Slack(limit, procs[p := q]) == Slack(limit, procs) - Remaining(limit, procs[p]) + Remaining(limit, q)
  {
    var n := |procs| - 1;
    if p < n {
      assert procs[p := q][..n] == procs[..n][p := q];
      SlackUpdate(limit, procs[..n], p, q);
    } else {
      assert procs[p := q][..n] == procs[..n];
    }
  }

  lemma {:induction false} SlackWakeup(limit: nat, procs: seq<Proc>)
    ensures Slack(limit, Wakeup(procs)) == Slack(limit, procs)
  {
    if procs != [] {
      var n := |procs| - 1;
      assert Wakeup(procs)[..n] == Wakeup(procs[..n]);
      SlackWakeup(limit, procs[..n]);
    }
  }

  lemma {:induction false} SlackBound(limit: nat, procs: seq<Proc>)
    ensures Slack(limit, procs) <= limit * ActiveCount(procs)
  {
    if procs != [] {
      var n := |procs| - 1;
      SlackBound(limit, procs[..n]);
      assert limit * (ActiveCount(procs[..n]) + 1) == limit * ActiveCount(procs[..n]) + limit;
    }
  }

  lemma {:induction false} SomeActive(procs: seq<Proc>, p: nat)
    requires p < |procs| && procs[p].Active?
    ensures ActiveCount(procs) >= 1
  {
    var n := |procs| - 1;
    if p < n {
      SomeActive(procs[..n], p);
    }
  }

  /** The most blocks the log can come to hold. */
  function Bound(limit: nat): int {
    var two := LOGSIZE - 2 * (MAXOPBLOCKS - limit);
    if limit < two then two else limit
  }

  ghost predicate SpaceInv(limit: nat, s: State) {
    && !s.panicked
    && |s.lh| + Slack(limit, s.procs) <= Bound(limit)
    && (forall p :: 0 <= p < |s.procs| && s.procs[p].Active? ==> |s.procs[p].blocks| <= limit)
    && (forall p, b :: 0 <= p < |s.procs| && s.procs[p].Active? && b in s.procs[p].blocks ==> b in s.lh)
  }

  lemma Reserved(limit: nat, n: nat, slack: nat, outstanding: nat)
    requires limit < MAXOPBLOCKS && slack <= limit * outstanding
    requires n + (outstanding + 1) * MAXOPBLOCKS <= LOGSIZE && (outstanding == 0 ==> n == 0)
    ensures n + slack + limit <= Bound(limit)
  {
    if outstanding == 0 {
    } else if outstanding == 1 {
    } else {
      assert outstanding == 2;
    }
  }

  lemma SpaceBegin(limit: nat, s: State, p: nat)
    requires Inv(s) && SpaceInv(limit, s) && Enabled(limit, s, TryBegin(p)) && limit < MAXOPBLOCKS
    ensures SpaceInv(limit, Do(limit, s, TryBegin(p)))
  {
    var t := Do(limit, s, TryBegin(p));
    SlackUpdate(limit, s.procs, p, t.procs[p]);
    SlackBound(limit, s.procs);
    if t.outstanding > s.outstanding {
      Reserved(limit, |s.lh|, Slack(limit, s.procs), s.outstanding);
    }
  }

  lemma SpaceWrite(limit: nat, s: State, step: Step)
    requires Inv(s) && SpaceInv(limit, s) && Enabled(limit, s, step) && step.LogWrite? && limit < MAXOPBLOCKS
    requires s.g.size == LOGSIZE
    ensures SpaceInv(limit, Do(limit, s, step))
  {
    var p, b := step.p, step.b;
    SomeActive(s.procs, p);
    var was := s.procs[p].blocks;
    var q := Active(s.procs[p].id, was + {b});
    assert b in was ==> was + {b} == was;
    SlackUpdate(limit, s.procs, p, q);
  }

  lemma SpaceFinish(limit: nat, s: State)
    requires Inv(s) && SpaceInv(limit, s) && Enabled(limit, s, Finish)
    ensures SpaceInv(limit, Do(limit, s, Finish))
  {
    SlackWakeup(limit, s.procs);
    forall p | 0 <= p < |s.procs|
      ensures !s.procs[p].Active?
    {
      NoneActive(s.procs, p);
    }
  }

  lemma SpaceStep(limit: nat, s: State, step: Step)
    requires Inv(s) && SpaceInv(limit, s) && Enabled(limit, s, step) && limit < MAXOPBLOCKS
    requires s.g.size == LOGSIZE
    ensures SpaceInv(limit, Do(limit, s, step))
  {
    match step
    case TryBegin(p) => SpaceBegin(limit, s, p);
    case LogWrite(p, b, data) => SpaceWrite(limit, s, step);
    case EndOp(p) =>
      SomeActive(s.procs, p);
      SlackUpdate(limit, s.procs, p, Outside);
      SlackWakeup(limit, s.procs[p := Outside]);
    case DiskWrite =>
    case Finish => SpaceFinish(limit, s);
  }

  lemma {:induction false} SpaceRun(limit: nat, s: State, steps: seq<Step>, t: State)
    requires Inv(s) && SpaceInv(limit, s) && Runs(limit, s, steps, t) && limit < MAXOPBLOCKS
    requires s.g.size == LOGSIZE
    ensures SpaceInv(limit, t)
    decreases |steps|
  {
    if steps != [] {
      StepInv(limit, s, steps[0]);
      SpaceStep(limit, s, steps[0]);
      SpaceRun(limit, Do(limit, s, steps[0]), steps[1..], t);
    }
  }

  lemma {:induction false} NoSlack(limit: nat, procs: seq<Proc>)
    requires forall p :: 0 <= p < |procs| ==> procs[p] == Outside
    ensures Slack(limit, procs) == 0
  {
    if procs != [] {
      NoSlack(limit, procs[..|procs| - 1]);
    }
  }

  /** In every run of operations that each log at most limit < MAXOPBLOCKS blocks, the header never names more than Bound(limit) blocks and nothing panics. */
  lemma LogNeverOverflows(limit: nat, s: State, steps: seq<Step>, t: State)
    requires Initial(s) && Runs(limit, s, steps, t)
    requires s.g.size == LOGSIZE && limit < MAXOPBLOCKS
    ensures |t.lh| <= Bound(limit) < LOGSIZE - 1 && !t.panicked
  {
    InitialInv(s);
    NoSlack(limit, s.procs);
    SpaceRun(limit, s, steps, t);
  }

  /** Operations of at most seven blocks, such as the chunks of filewrite, never fill more than 24 places. */
  lemma FilewritesFit(s: State, steps: seq<Step>, t: State)
    requires Initial(s) && Runs(7, s, steps, t) && s.g.size == LOGSIZE
    ensures |t.lh| <= 24 && !t.panicked
  {
    LogNeverOverflows(7, s, steps, t);
  }

  // ----- the run that overflows

  ghost predicate ThirtyHomeBlocks(s: State, home: seq<Word>) {
    && |home| == LOGSIZE
    && (forall i, j :: 0 <= i < j < |home| ==> home[i] != home[j])
    && (forall i :: 0 <= i < |home| ==> home[i] < |s.disk| && !InLog(s.g, home[i]))
  }

  /** Three operations are running and have logged the first k blocks, ten each in turn. */
  ghost predicate Filling(s: State, home: seq<Word>, k: nat) {
    && Wf(s) && !s.panicked && s.g.size == LOGSIZE && s.commit == NoCommit
    && ThirtyHomeBlocks(s, home) && k < LOGSIZE
    && s.lh == home[..k] && s.outstanding == 3 && |s.procs| >= 3
    && (forall p :: 0 <= p < 3 ==> s.procs[p].Active?)
    && (forall p :: 0 <= p < 3 ==> |s.procs[p].blocks| <= if k <= 10 * p then 0 else k - 10 * p)
  }

  lemma {:induction false} FillLog(limit: nat, s: State, home: seq<Word>, k: nat) returns (steps: seq<Step>, t: State)
    requires Filling(s, home, k) && limit >= MAXOPBLOCKS
    ensures Runs(limit, s, steps, t) && t.panicked
    decreases LOGSIZE - k
  {
    var step := LogWrite(k / 10, home[k], Zeros());
    var u := Do(limit, s, step);
    if k == LOGSIZE - 1 {
      steps, t := [step], u;
      assert Runs(limit, u, steps[1..], t);
    } else {
      assert home[k] !in home[..k];
      assert home[..k + 1] == home[..k] + [home[k]];
      var rest;
      rest, t := FillLog(limit, u, home, k + 1);
      steps := [step] + rest;
      assert steps[1..] == rest;
    }
  }

  lemma OverflowRun(limit: nat, s: State, home: seq<Word>) returns (steps: seq<Step>, t: State)
    requires Initial(s) && s.g.size == LOGSIZE && |s.procs| >= 3 && ThirtyHomeBlocks(s, home)
    requires limit >= MAXOPBLOCKS
    ensures Runs(limit, s, steps, t) && t.panicked
  {
    var s1 := Do(limit, s, TryBegin(0));
    var s2 := Do(limit, s1, TryBegin(1));
    var s3 := Do(limit, s2, TryBegin(2));
    var rest;
    rest, t := FillLog(limit, s3, home, 0);
    var r2 := [TryBegin(2)] + rest;
    assert r2[1..] == rest && Runs(limit, s2, r2, t);
    var r1 := [TryBegin(1)] + r2;
    assert r1[1..] == r2 && Runs(limit, s1, r1, t);
    steps := [TryBegin(0)] + r1;
    assert steps[1..] == r1;
  }

  /** s leads to a state in which a log_write or an end_op has panicked. */
  ghost predicate CanPanic(limit: nat, s: State) {
    exists steps, t :: Runs(limit, s, steps, t) && t.panicked
  }

  /** The reservation works exactly for operations of fewer than MAXOPBLOCKS blocks. */
  lemma ReservationSufficesIff(limit: nat, s: State, home: seq<Word>)
    requires Initial(s) && s.g.size == LOGSIZE && |s.procs| >= 3 && ThirtyHomeBlocks(s, home)
    ensures !CanPanic(limit, s) <==> limit < MAXOPBLOCKS
  {
    if limit < MAXOPBLOCKS {
      if CanPanic(limit, s) {
        var steps, t :| Runs(limit, s, steps, t) && t.panicked;
        LogNeverOverflows(limit, s, steps, t);
      }
    } else {
      var steps, t := OverflowRun(limit, s, home);
      assert Runs(limit, s, steps, t) && t.panicked;
    }
  }
}
