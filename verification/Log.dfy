/**
 The physical redo log: commit, recovery, and what a crash at any disk write leaves behind.

 A disk is a sequence of blocks, written one whole block at a time.  The device
 remembers, as a ghost, every content the medium has had, so that a contract can
 speak of a crash after any prefix of the writes a method issues.
 */
module Log {
  import opened Machine
  import opened Blocks

  const LOGSIZE: nat := 30

  type Disk = seq<Block>

  /** Where the log lives: the header at block start, logged blocks after it. */
  datatype Area = Area(start: nat, size: nat)

  predicate InLog(g: Area, b: nat) {
    g.start <= b < g.start + g.size
  }

  predicate Fits(d: Disk, g: Area) {
    1 <= g.size && g.start + g.size <= |d|
  }

  /** The list of block numbers a log of this area can hold in its header. */
  predicate Loggable(d: Disk, g: Area, blocks: seq<Word>) {
    && Fits(d, g)
    && |blocks| <= LOGSIZE
    && |blocks| < g.size
    && forall i :: 0 <= i < |blocks| ==> blocks[i] < |d| && !InLog(g, blocks[i])
  }

  // ----- the on-disk header

  /** The header block after its count and its first entries are overwritten. */
  function HeadWith(b: Block, blocks: seq<Word>): Block
    requires |blocks| < WORDS
  {
    PutWords(PutWord(b, 0, |blocks|), 1, blocks, |blocks|)
  }

  function HeadCount(b: Block): Word {
    WordAt(b, 0)
  }

  /** The block numbers that a header names. */
  function HeadBlocks(b: Block): seq<Word>
    requires HeadCount(b) < WORDS
  {
    seq(HeadCount(b), i requires 0 <= i < HeadCount(b) => WordAt(b, i + 1))
  }

  /** Reading the header back gives the list that was written, whatever the block held before. */
  lemma HeadRoundTrip(b: Block, blocks: seq<Word>)
    requires |blocks| < WORDS
    ensures HeadCount(HeadWith(b, blocks)) == |blocks|
    ensures HeadBlocks(HeadWith(b, blocks)) == blocks
  {
    var h := PutWord(b, 0, |blocks|);
    PutWordsAt(h, 1, blocks, |blocks|, 0);
    PutWordAt(b, 0, |blocks|, 0);
    forall i: nat | i < |blocks|
      ensures WordAt(HeadWith(b, blocks), i + 1) == blocks[i]
    {
      PutWordsAt(h, 1, blocks, |blocks|, i + 1);
    }
  }

  /** A disk that recovery can be run on. */
  predicate GoodHead(d: Disk, g: Area) {
    && Fits(d, g)
    && HeadCount(d[g.start]) <= LOGSIZE
    && Loggable(d, g, HeadBlocks(d[g.start]))
  }

  // ----- the disk states that the code passes through

  /** The first k of the given contents appended to the log. */
  function Logged(d: Disk, g: Area, contents: seq<Block>, k: nat): (e: Disk)
    requires Fits(d, g) && k <= |contents| < g.size
    ensures |e| == |d|
  {
    if k == 0 then d else Logged(d, g, contents, k - 1)[g.start + k := contents[k - 1]]
  }

  lemma {:induction false} LoggedAt(d: Disk, g: Area, contents: seq<Block>, k: nat, b: nat)
    requires Fits(d, g) && k <= |contents| < g.size && b < |d|
    ensures Logged(d, g, contents, k)[b] == if g.start < b <= g.start + k then contents[b - g.start - 1] else d[b]
  {
    if k > 0 {
      LoggedAt(d, g, contents, k - 1, b);
    }
  }

  /** The first k logged blocks copied to their home locations. */
  function Installed(d: Disk, g: Area, blocks: seq<Word>, k: nat): (e: Disk)
    requires Loggable(d, g, blocks) && k <= |blocks|
    ensures |e| == |d|
  {
    if k == 0 then d else Installed(d, g, blocks, k - 1)[blocks[k - 1] := d[g.start + k]]
  }

  lemma {:induction false} InstalledAt(d: Disk, g: Area, blocks: seq<Word>, k: nat, b: nat)
    requires Loggable(d, g, blocks) && k <= |blocks| && b < |d|
    ensures InLog(g, b) || b !in blocks ==> Installed(d, g, blocks, k)[b] == d[b]
  {
    if k > 0 {
      InstalledAt(d, g, blocks, k - 1, b);
    }
  }

  function WithHead(d: Disk, g: Area, blocks: seq<Word>): Disk
    requires Fits(d, g) && |blocks| < WORDS
  {
    d[g.start := HeadWith(d[g.start], blocks)]
  }

  /** What recovery makes of a disk. */
  function Recovered(d: Disk, g: Area): (e: Disk)
    requires GoodHead(d, g)
    ensures |e| == |d|
  {
    var blocks := HeadBlocks(d[g.start]);
    WithHead(Installed(d, g, blocks, |blocks|), g, [])
  }

  /** The disk after each write of the recovery. */
  function RecoveryTrace(d: Disk, g: Area): (tr: seq<Disk>)
    requires GoodHead(d, g)
    ensures |tr| == |HeadBlocks(d[g.start])| + 1
  {
    InstallTrace(d, g, HeadBlocks(d[g.start])) + [Recovered(d, g)]
  }

  function InstallTrace(d: Disk, g: Area, blocks: seq<Word>): (tr: seq<Disk>)
    requires Loggable(d, g, blocks)
    ensures |tr| == |blocks|
  {
    seq(|blocks|, k requires 0 <= k < |blocks| => Installed(d, g, blocks, k + 1))
  }

  function LogTrace(d: Disk, g: Area, contents: seq<Block>): (tr: seq<Disk>)
    requires Fits(d, g) && |contents| < g.size
    ensures |tr| == |contents|
  {
    seq(|contents|, k requires 0 <= k < |contents| => Logged(d, g, contents, k + 1))
  }

  /** The disk at the commit point: log filled and header written. */
  function Committed(d: Disk, g: Area, blocks: seq<Word>, contents: seq<Block>): (e: Disk)
    requires Loggable(d, g, blocks) && |contents| == |blocks|
    ensures Loggable(e, g, blocks)
  {
    WithHead(Logged(d, g, contents, |contents|), g, blocks)
  }

  /** The disk when a commit returns. */
  function AfterCommit(d: Disk, g: Area, blocks: seq<Word>, contents: seq<Block>): (e: Disk)
    requires Loggable(d, g, blocks) && |contents| == |blocks|
  {
    if blocks == [] then d
    else WithHead(Installed(Committed(d, g, blocks, contents), g, blocks, |blocks|), g, [])
  }

  /** The disk after each write of a commit of the given blocks. */
  function CommitTrace(d: Disk, g: Area, blocks: seq<Word>, contents: seq<Block>): (tr: seq<Disk>)
    requires Loggable(d, g, blocks) && |contents| == |blocks|
    ensures |tr| == if blocks == [] then 0 else 2 * |blocks| + 2
  {
    if blocks == [] then []
    else
      var c := Committed(d, g, blocks, contents);
      LogTrace(d, g, contents) + [c] + InstallTrace(c, g, blocks) + [AfterCommit(d, g, blocks, contents)]
  }

  // ----- what a crash leaves

  /** Equal outside the log. */
  ghost predicate SameHome(g: Area, d: Disk, e: Disk) {
    |d| == |e| && forall b: nat :: b < |d| && !InLog(g, b) ==> d[b] == e[b]
  }

  /** The disk with a transaction's updates applied in place: the meaning of a commit. */
  function Applied(d: Disk, blocks: seq<Word>, contents: seq<Block>): (e: Disk)
    requires |blocks| == |contents|
    requires forall i :: 0 <= i < |blocks| ==> blocks[i] < |d|
    ensures |e| == |d|
  {
    if blocks == [] then d
    else
      var n := |blocks| - 1;
      Applied(d, blocks[..n], contents[..n])[blocks[n] := contents[n]]
  }

  lemma {:induction false} InstalledIsApplied(d: Disk, e: Disk, g: Area, blocks: seq<Word>, contents: seq<Block>, k: nat)
    requires Loggable(e, g, blocks) && |contents| == |blocks| && k <= |blocks|
    requires SameHome(g, d, e)
    requires forall i :: 0 <= i < |blocks| ==> e[g.start + i + 1] == contents[i]
    ensures SameHome(g, Applied(d, blocks[..k], contents[..k]), Installed(e, g, blocks, k))
  {
    if k > 0 {
      InstalledIsApplied(d, e, g, blocks, contents, k - 1);
      assert blocks[..k][..k - 1] == blocks[..k - 1];
      assert contents[..k][..k - 1] == contents[..k - 1];
    }
  }

  /** A block named in the list ends up equal once installation has run, however much of it ran before. */
  lemma {:induction false} InstallForgets(d: Disk, e: Disk, g: Area, blocks: seq<Word>, k: nat)
    requires Loggable(d, g, blocks) && Loggable(e, g, blocks) && |d| == |e| && k <= |blocks|
    requires forall b: nat :: b < |d| && InLog(g, b) ==> d[b] == e[b]
    ensures forall b: nat :: b < |d| && b in blocks[..k] ==> Installed(d, g, blocks, k)[b] == Installed(e, g, blocks, k)[b]
  {
    if k > 0 {
      InstallForgets(d, e, g, blocks, k - 1);
      forall b: nat | b < |d| && b in blocks[..k]
        ensures Installed(d, g, blocks, k)[b] == Installed(e, g, blocks, k)[b]
      {
        if b != blocks[k - 1] {
          assert b in blocks[..k - 1];
        } else {
          assert InLog(g, g.start + k) && g.start + k !in blocks;
        }
      }
    }
  }

  /** Installing from the start after installing a part gives what one whole installation gives. */
  lemma InstallResumes(d: Disk, g: Area, blocks: seq<Word>, k: nat)
    requires Loggable(d, g, blocks) && k <= |blocks|
    ensures SameHome(g, Installed(Installed(d, g, blocks, k), g, blocks, |blocks|), Installed(d, g, blocks, |blocks|))
  {
    var n, e := |blocks|, Installed(d, g, blocks, k);
    forall b: nat | b < |d| && (InLog(g, b) || b !in blocks)
      ensures d[b] == e[b]
      ensures b !in blocks ==> Installed(e, g, blocks, n)[b] == Installed(d, g, blocks, n)[b]
    {
      InstalledAt(d, g, blocks, k, b);
      InstalledAt(d, g, blocks, n, b);
      InstalledAt(e, g, blocks, n, b);
    }
    InstallForgets(d, e, g, blocks, n);
    assert blocks[..n] == blocks;
  }

  lemma RecoveredAlike(d: Disk, e: Disk, g: Area, blocks: seq<Word>)
    requires GoodHead(d, g) && blocks == HeadBlocks(d[g.start])
    requires |e| == |d| && e[g.start] == d[g.start]
    requires SameHome(g, Installed(e, g, blocks, |blocks|), Installed(d, g, blocks, |blocks|))
    ensures GoodHead(e, g) && SameHome(g, Recovered(e, g), Recovered(d, g))
  {
  }

  /** One crash inside a recovery changes nothing that a later recovery would not redo. */
  lemma RecoveryStep(d: Disk, g: Area, k: nat)
    requires GoodHead(d, g) && k < |RecoveryTrace(d, g)|
    ensures GoodHead(RecoveryTrace(d, g)[k], g)
    ensures SameHome(g, Recovered(RecoveryTrace(d, g)[k], g), Recovered(d, g))
  {
    hide Installed, WordAt, PutWord, PutWords;
    var blocks := HeadBlocks(d[g.start]);
    var n := |blocks|;
    var e := RecoveryTrace(d, g)[k];
    if k < n {
      assert e == Installed(d, g, blocks, k + 1) && InLog(g, g.start);
      InstalledAt(d, g, blocks, k + 1, g.start);
      InstallResumes(d, g, blocks, k + 1);
      RecoveredAlike(d, e, g, blocks);
    } else {
      assert e == Recovered(d, g);
      HeadRoundTrip(Installed(d, g, blocks, n)[g.start], []);
      NothingInstalled(e, g);
    }
  }

  lemma NothingInstalled(d: Disk, g: Area)
    requires Fits(d, g)
    ensures Installed(d, g, [], 0) == d
  {
  }

  /** A recovery of d that is cut short, after any number of its writes, leaves e. */
  ghost predicate Interrupted(g: Area, d: Disk, e: Disk)
    requires GoodHead(d, g)
  {
    e == d || e in RecoveryTrace(d, g)
  }

  lemma InterruptedRecovers(g: Area, d: Disk, e: Disk)
    requires GoodHead(d, g) && Interrupted(g, d, e)
    ensures GoodHead(e, g) && SameHome(g, Recovered(e, g), Recovered(d, g))
  {
    if e != d {
      var k: nat :| k < |RecoveryTrace(d, g)| && RecoveryTrace(d, g)[k] == e;
      RecoveryStep(d, g, k);
    }
  }

  lemma SameHomeTransitive(g: Area, d: Disk, e: Disk, f: Disk)
    requires SameHome(g, d, e) && SameHome(g, e, f)
    ensures SameHome(g, d, f)
  {
  }

  /** Successive disks of a machine that keeps crashing during recovery. */
  ghost predicate CrashRun(g: Area, ds: seq<Disk>)
    decreases |ds|
  {
    var n := |ds| - 1;
    n == 0 || (n > 0 && CrashRun(g, ds[..n]) && GoodHead(ds[n - 1], g) && Interrupted(g, ds[n - 1], ds[n]))
  }

  /** However often recovery is itself cut short, the recovery that completes yields the same file system. */
  lemma {:induction false} RecoveryIsIdempotent(g: Area, ds: seq<Disk>)
    requires CrashRun(g, ds) && GoodHead(ds[0], g)
    ensures GoodHead(ds[|ds| - 1], g)
    ensures SameHome(g, Recovered(ds[|ds| - 1], g), Recovered(ds[0], g))
    decreases |ds|
  {
    var n := |ds| - 1;
    if n > 0 {
      RecoveryIsIdempotent(g, ds[..n]);
      InterruptedRecovers(g, ds[n - 1], ds[n]);
      SameHomeTransitive(g, Recovered(ds[n], g), Recovered(ds[n - 1], g), Recovered(ds[0], g));
    }
  }

  /** An empty log: the state between commits. */
  predicate Empty(d: Disk, g: Area) {
    Fits(d, g) && HeadCount(d[g.start]) == 0
  }

  /** The disk after the first k writes of a commit. */
  function CommitPrefix(d: Disk, g: Area, blocks: seq<Word>, contents: seq<Block>, k: nat): Disk
    requires Loggable(d, g, blocks) && |contents| == |blocks|
    requires k <= |CommitTrace(d, g, blocks, contents)|
  {
    if k == 0 then d else CommitTrace(d, g, blocks, contents)[k - 1]
  }

  /** With only log blocks written, recovery still finds the old, empty header. */
  lemma UncommittedRecovers(d: Disk, g: Area, contents: seq<Block>, k: nat)
    requires Empty(d, g) && k <= |contents| < g.size
    ensures GoodHead(Logged(d, g, contents, k), g)
    ensures SameHome(g, Recovered(Logged(d, g, contents, k), g), d)
  {
    var e := Logged(d, g, contents, k);
    forall b: nat | b < |d|
      ensures !InLog(g, b) || b == g.start ==> e[b] == d[b]
    {
      LoggedAt(d, g, contents, k, b);
    }
    assert HeadBlocks(e[g.start]) == [];
  }

  /** Once the header is written, recovery performs the transaction. */
  lemma CommittedRecovers(d: Disk, g: Area, blocks: seq<Word>, contents: seq<Block>)
    requires Empty(d, g) && Loggable(d, g, blocks) && |contents| == |blocks|
    ensures var c := Committed(d, g, blocks, contents);
            && GoodHead(c, g) && HeadBlocks(c[g.start]) == blocks
            && SameHome(g, Installed(c, g, blocks, |blocks|), Applied(d, blocks, contents))
            && SameHome(g, Recovered(c, g), Applied(d, blocks, contents))
  {
    var c, n, l := Committed(d, g, blocks, contents), |blocks|, Logged(d, g, contents, |contents|);
    LoggedAt(d, g, contents, n, g.start);
    HeadRoundTrip(l[g.start], blocks);
    forall b: nat | b < |d|
      ensures !InLog(g, b) ==> c[b] == d[b]
      ensures g.start < b <= g.start + n ==> c[b] == contents[b - g.start - 1]
    {
      LoggedAt(d, g, contents, n, b);
    }
    InstalledIsApplied(d, c, g, blocks, contents, n);
    assert blocks[..n] == blocks && contents[..n] == contents && InLog(g, g.start);
  }

  /** The writes that follow the header write are those of a recovery. */
  lemma CommitEndsAsRecovery(d: Disk, g: Area, blocks: seq<Word>, contents: seq<Block>)
    requires Empty(d, g) && Loggable(d, g, blocks) && |contents| == |blocks| > 0
    ensures var c := Committed(d, g, blocks, contents);
            && GoodHead(c, g)
            && CommitTrace(d, g, blocks, contents) == LogTrace(d, g, contents) + [c] + RecoveryTrace(c, g)
  {
    CommittedRecovers(d, g, blocks, contents);
  }

  /** Before the header write recovery restores the old file system; from the header write on, the new one. */
  lemma CommitPrefixRecovers(d: Disk, g: Area, blocks: seq<Word>, contents: seq<Block>, k: nat)
    requires Empty(d, g) && Loggable(d, g, blocks) && |contents| == |blocks|
    requires k <= |CommitTrace(d, g, blocks, contents)|
    ensures GoodHead(CommitPrefix(d, g, blocks, contents, k), g)
    ensures SameHome(g, Recovered(CommitPrefix(d, g, blocks, contents, k), g),
                     if k <= |blocks| then d else Applied(d, blocks, contents))
  {
    var n, e := |blocks|, CommitPrefix(d, g, blocks, contents, k);
    if k <= n {
      UncommittedRecovers(d, g, contents, k);
      assert e == Logged(d, g, contents, k);
    } else {
      var c := Committed(d, g, blocks, contents);
      CommittedRecovers(d, g, blocks, contents);
      CommitEndsAsRecovery(d, g, blocks, contents);
      if k > n + 1 {
        assert e == RecoveryTrace(c, g)[k - n - 2];
        RecoveryStep(c, g, k - n - 2);
        SameHomeTransitive(g, Recovered(e, g), Recovered(c, g), Applied(d, blocks, contents));
      }
    }
  }

  /**
   Crash atomicity.  Cut a commit after any number of its disk writes, then run
   recovery, itself crashed and restarted any number of times: outside the log
   the disk is exactly the one before the transaction, or exactly the one with
   all its updates, and which of the two depends only on whether the header
   write had happened.
   */
  lemma CrashAtomicity(d: Disk, g: Area, blocks: seq<Word>, contents: seq<Block>, k: nat, ds: seq<Disk>)
    requires Empty(d, g) && Loggable(d, g, blocks) && |contents| == |blocks|
    requires k <= |CommitTrace(d, g, blocks, contents)|
    requires CrashRun(g, ds)
    requires ds[0] == CommitPrefix(d, g, blocks, contents, k)
    ensures GoodHead(ds[|ds| - 1], g)
    ensures SameHome(g, Recovered(ds[|ds| - 1], g), if k <= |blocks| then d else Applied(d, blocks, contents))
  {
    CommitPrefixRecovers(d, g, blocks, contents, k);
    RecoveryIsIdempotent(g, ds);
    SameHomeTransitive(g, Recovered(ds[|ds| - 1], g), Recovered(ds[0], g),
                       if k <= |blocks| then d else Applied(d, blocks, contents));
  }

  /** A commit that runs to its end applies the transaction and leaves the log empty for the next one. */
  lemma CommitCompletes(d: Disk, g: Area, blocks: seq<Word>, contents: seq<Block>)
    requires Empty(d, g) && Loggable(d, g, blocks) && |contents| == |blocks|
    ensures var e := AfterCommit(d, g, blocks, contents);
            && e == CommitPrefix(d, g, blocks, contents, |CommitTrace(d, g, blocks, contents)|)
            && Empty(e, g) && SameHome(g, e, Applied(d, blocks, contents))
  {
    if blocks != [] {
      var c := Committed(d, g, blocks, contents);
      CommittedRecovers(d, g, blocks, contents);
      CommitEndsAsRecovery(d, g, blocks, contents);
      RecoveryCompletes(c, g);
    }
  }

  /** The same for a recovery. */
  lemma RecoveryCompletes(d: Disk, g: Area)
    requires GoodHead(d, g)
    ensures Empty(Recovered(d, g), g)
  {
    var blocks := HeadBlocks(d[g.start]);
    HeadRoundTrip(Installed(d, g, blocks, |blocks|)[g.start], []);
  }

  /** The contents bread gives for a list of blocks: the pinned one if there is one, else the disk's. */
  function Latest(d: Disk, dirty: map<nat, Block>, blocks: seq<Word>): (cs: seq<Block>)
    requires forall i :: 0 <= i < |blocks| ==> blocks[i] < |d|
    ensures |cs| == |blocks|
  {
    seq(|blocks|, i requires 0 <= i < |blocks| => if blocks[i] in dirty then dirty[blocks[i]] else d[blocks[i]])
  }

  /** The buffers still pinned once those of the listed blocks have been written home. */
  function Unpinned(dirty: map<nat, Block>, blocks: seq<Word>): map<nat, Block> {
    if blocks == [] then dirty else Unpinned(dirty, blocks[..|blocks| - 1]) - {blocks[|blocks| - 1]}
  }

  lemma {:induction false} UnpinnedKeys(dirty: map<nat, Block>, blocks: seq<Word>)
    ensures forall b :: b in Unpinned(dirty, blocks) <==> b in dirty && b !in blocks
    ensures forall b :: b in Unpinned(dirty, blocks) ==> Unpinned(dirty, blocks)[b] == dirty[b]
  {
    if blocks != [] {
      UnpinnedKeys(dirty, blocks[..|blocks| - 1]);
    }
  }

  lemma LogTraceStep(d: Disk, g: Area, contents: seq<Block>, k: nat)
    requires Fits(d, g) && k < |contents| < g.size
    ensures LogTrace(d, g, contents)[..k + 1] == LogTrace(d, g, contents)[..k] + [Logged(d, g, contents, k + 1)]
  {
  }

  lemma InstallTraceStep(d: Disk, g: Area, blocks: seq<Word>, k: nat)
    requires Loggable(d, g, blocks) && k < |blocks|
    ensures InstallTrace(d, g, blocks)[..k + 1] == InstallTrace(d, g, blocks)[..k] + [Installed(d, g, blocks, k + 1)]
  {
  }

  lemma Append(w: seq<Disk>, a: seq<Disk>, c: Disk, b: seq<Disk>, e: Disk)
    ensures w + a + [c] + b + [e] == w + (a + [c] + b + [e])
  {
  }

  // ----- the code

  /** The disk of memide.c: block-atomic synchronous writes. */
  class BlockDevice {
    var sector: Disk
    ghost var writes: seq<Disk>   // the medium after each write so far

    method Write(bno: nat, data: Block)
      requires bno < |sector|
      modifies this
      ensures sector == old(sector)[bno := data]
      ensures writes == old(writes) + [sector]
    {
      sector := sector[bno := data];
      writes := writes + [sector];
    }
  }

  class RedoLog {
    const disk: BlockDevice
    var start: nat
    var size: nat
    var outstanding: int
    var committing: bool
    var n: nat                     // lh.n
    var block: array<Word>         // lh.block
    var dirty: map<nat, Block>     // buffers pinned in the cache by B_DIRTY

    ghost function Geometry(): Area reads this {
      Area(start, size)
    }

    ghost function Blocks(): seq<Word>
      reads this, block
      requires n <= block.Length
    {
      block[..n]
    }

    ghost predicate Valid()
      reads this, disk, block
    {
      && block.Length == LOGSIZE
      && n <= LOGSIZE
      && Loggable(disk.sector, Geometry(), Blocks())
      && forall b :: b in dirty ==> b < |disk.sector| && !InLog(Geometry(), b)
    }

    /** What bread returns: the pinned contents if there are any, else the disk's. */
    function Bread(b: nat): Block
      reads this, disk
      requires b < |disk.sector|
    {
      if b in dirty then dirty[b] else disk.sector[b]
    }

    ghost function Contents(): (cs: seq<Block>)
      reads this, disk, block
      requires Valid()
      ensures |cs| == n
    {
      Latest(disk.sector, dirty, Blocks())
    }

    /** bwrite: the buffer goes to disk and is clean afterwards. */
    method Bwrite(b: nat, data: Block)
      requires b < |disk.sector|
      modifies disk, `dirty
      ensures disk.sector == old(disk.sector)[b := data]
      ensures disk.writes == old(disk.writes) + [disk.sector]
      ensures dirty == old(dirty) - {b}
    {
      dirty := dirty - {b};
      disk.Write(b, data);
    }

    constructor (disk: BlockDevice, start: nat, size: nat)
      requires GoodHead(disk.sector, Area(start, size))
      modifies disk
      ensures this.disk == disk && this.start == start && this.size == size
      ensures Valid() && n == 0 && outstanding == 0 && !committing && dirty == map[]
      ensures Empty(disk.sector, Geometry())
      ensures disk.sector == Recovered(old(disk.sector), Geometry())
      ensures disk.writes == old(disk.writes) + RecoveryTrace(old(disk.sector), Geometry())
    {
      this.disk := disk;
      this.start, this.size := start, size;
      n, outstanding, committing, dirty := 0, 0, false, map[];
      block := new Word[LOGSIZE](_ => 0);
      new;
      RecoverFromLog();
    }

    method ReadHead()
      requires Valid() && dirty == map[]
      requires GoodHead(disk.sector, Geometry())
      modifies `n, block
      ensures Valid() && Blocks() == HeadBlocks(disk.sector[start])
    {
      var buf := Bread(start);
      n := WordAt(buf, 0);
      var i := 0;
      while i < n
        invariant 0 <= i <= n == |HeadBlocks(buf)| <= LOGSIZE == block.Length
        invariant forall j :: 0 <= j < i ==> block[j] == WordAt(buf, j + 1)
      {
        block[i] := WordAt(buf, i + 1);
        i := i + 1;
      }
      assert Blocks() == HeadBlocks(buf);
    }

    method WriteHead()
      requires Valid()
      modifies disk, `dirty
      ensures disk.sector == WithHead(old(disk.sector), Geometry(), Blocks())
      ensures disk.writes == old(disk.writes) + [disk.sector]
      ensures Valid() && dirty == old(dirty)
    {
      assert InLog(Geometry(), start);
      var buf := Bread(start);
      buf := PutWord(buf, 0, n);
      ghost var head := buf;
      var i := 0;
      while i < n
        invariant 0 <= i <= n
        invariant buf == PutWords(head, 1, Blocks(), i)
      {
        buf := PutWord(buf, i + 1, block[i]);
        i := i + 1;
      }
      Bwrite(start, buf);
    }

    method WriteLog()
      requires Valid()
      modifies disk, `dirty
      ensures disk.sector == Logged(old(disk.sector), Geometry(), old(Contents()), n)
      ensures disk.writes == old(disk.writes) + LogTrace(old(disk.sector), Geometry(), old(Contents()))
      ensures Valid() && dirty == old(dirty)
    {
      ghost var d, cs, g, blocks := disk.sector, Contents(), Geometry(), Blocks();
      var tail := 0;
      while tail < n
        invariant 0 <= tail <= n && dirty == old(dirty) && |disk.sector| == |d|
        invariant disk.sector == Logged(d, g, cs, tail)
        invariant disk.writes == old(disk.writes) + LogTrace(d, g, cs)[..tail]
      {
        assert block[tail] == blocks[tail] && !InLog(g, blocks[tail]) && InLog(g, start + tail + 1);
        LoggedAt(d, g, cs, tail, block[tail]);
        var from := Bread(block[tail]);
        assert from == cs[tail];
        Bwrite(start + tail + 1, from);
        assert disk.sector == Logged(d, g, cs, tail + 1);
        LogTraceStep(d, g, cs, tail);
        tail := tail + 1;
      }
      assert LogTrace(d, g, cs)[..n] == LogTrace(d, g, cs);
    }

    method InstallTrans()
      requires Valid()
      modifies disk, `dirty
      ensures disk.sector == Installed(old(disk.sector), Geometry(), Blocks(), n)
      ensures disk.writes == old(disk.writes) + InstallTrace(old(disk.sector), Geometry(), Blocks())
      ensures Valid() && dirty == Unpinned(old(dirty), Blocks())
    {
      ghost var d, g, blocks := disk.sector, Geometry(), Blocks();
      var tail := 0;
      UnpinnedKeys(dirty, blocks[..0]);
      while tail < n
        invariant 0 <= tail <= n && |disk.sector| == |d|
        invariant dirty == Unpinned(old(dirty), blocks[..tail])
        invariant disk.sector == Installed(d, g, blocks, tail)
        invariant disk.writes == old(disk.writes) + InstallTrace(d, g, blocks)[..tail]
      {
        UnpinnedKeys(old(dirty), blocks[..tail]);
        assert block[tail] == blocks[tail] && InLog(g, start + tail + 1);
        InstalledAt(d, g, blocks, tail, start + tail + 1);
        var lbuf := Bread(start + tail + 1);
        assert lbuf == d[start + tail + 1];
        Bwrite(block[tail], lbuf);
        assert blocks[..tail + 1][..tail] == blocks[..tail];
        InstallTraceStep(d, g, blocks, tail);
        tail := tail + 1;
      }
      assert blocks[..n] == blocks && InstallTrace(d, g, blocks)[..n] == InstallTrace(d, g, blocks);
      UnpinnedKeys(old(dirty), blocks);
    }

    method RecoverFromLog()
      requires Valid() && dirty == map[] && GoodHead(disk.sector, Geometry())
      modifies disk, `dirty, `n, block
      ensures disk.sector == Recovered(old(disk.sector), Geometry())
      ensures disk.writes == old(disk.writes) + RecoveryTrace(old(disk.sector), Geometry())
      ensures Valid() && n == 0 && dirty == map[] && Empty(disk.sector, Geometry())
    {
      hide Installed, InstallTrace, HeadWith;
      ghost var d := disk.sector;
      UnpinnedKeys(dirty, HeadBlocks(d[start]));
      ReadHead();
      InstallTrans();
      n := 0;
      WriteHead();
      assert disk.sector == Recovered(d, Geometry());
      RecoveryCompletes(d, Geometry());
      assert disk.writes == old(disk.writes) + (InstallTrace(d, Geometry(), HeadBlocks(d[start])) + [disk.sector]);
    }

    /** Every disk write of a commit, in order; afterwards nothing is pinned and the log is empty. */
    method Commit()
      requires Valid() && Empty(disk.sector, Geometry())
      requires forall b :: b in dirty <==> b in Blocks()
      modifies disk, `dirty, `n
      ensures disk.writes == old(disk.writes) + CommitTrace(old(disk.sector), Geometry(), old(Blocks()), old(Contents()))
      ensures disk.sector == AfterCommit(old(disk.sector), Geometry(), old(Blocks()), old(Contents()))
      ensures SameHome(Geometry(), disk.sector, Applied(old(disk.sector), old(Blocks()), old(Contents())))
      ensures Valid() && n == 0 && dirty == map[] && Empty(disk.sector, Geometry())
    {
      ghost var d, blocks, cs, w := disk.sector, Blocks(), Contents(), disk.writes;
      ghost var g := Geometry();
      if n > 0 {
        WriteLog();
        WriteHead();
        ghost var c := disk.sector;
        InstallTrans();
        UnpinnedKeys(old(dirty), blocks);
        assert dirty == map[];
        n := 0;
        assert Blocks() == [];
        WriteHead();
        Append(w, LogTrace(d, g, cs), c, InstallTrace(c, g, blocks), disk.sector);
      }
      CommitCompletes(d, g, blocks, cs);
    }

    /** log_write: absorb or append the block number, and pin the modified buffer. */
    method LogWrite(b: Word, data: Block)
      requires Valid() && b < |disk.sector| && !InLog(Geometry(), b)
      requires n < LOGSIZE && n < size - 1 && outstanding >= 1   // otherwise it panics
      modifies `n, `dirty, block
      ensures Valid() && dirty == old(dirty)[b as nat := data]
      ensures Blocks() == if b in old(Blocks()) then old(Blocks()) else old(Blocks()) + [b]
    {
      ghost var was := Blocks();
      var i := 0;
      while i < n
        invariant 0 <= i <= n && b !in was[..i]
      {
        if block[i] == b {
          break;
        }
        i := i + 1;
      }
      block[i] := b;
      if i == n {
        n := n + 1;
        assert was[..i] == was;
        assert Blocks() == was + [b];
      } else {
        assert was[i] == b;
        assert Blocks() == was;
      }
      dirty := dirty[b as nat := data];
    }
  }
}
