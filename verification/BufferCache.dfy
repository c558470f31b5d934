/**
 The buffer cache: a doubly linked ring of buffers in the order of their last
 release, looked up by (dev, blockno), over a disk that reads and writes one
 block at a time.

 A buffer is named by its index in the array of buffers; the list head has the
 index after the last buffer.
 */
module BufferCache {
  import opened Blocks

  // ----- the ring

  /** The k-th element of the list; before the first and after the last is the head. */
  function Node(h: nat, ring: seq<nat>, k: int): nat {
    if 0 <= k < |ring| then ring[k] else h
  }

  predicate LinkedAt(next: seq<nat>, prev: seq<nat>, h: nat, ring: seq<nat>, k: int) {
    && Node(h, ring, k) < |next| && next[Node(h, ring, k)] == Node(h, ring, k + 1)
    && Node(h, ring, k + 1) < |prev| && prev[Node(h, ring, k + 1)] == Node(h, ring, k)
  }

  /** Both directions of the links describe the list. */
  ghost predicate Linked(next: seq<nat>, prev: seq<nat>, h: nat, ring: seq<nat>) {
    forall k: int {:trigger LinkedAt(next, prev, h, ring, k)} :: -1 <= k < |ring| ==> LinkedAt(next, prev, h, ring, k)
  }

  ghost predicate Distinct(ring: seq<nat>) {
    forall k, l :: 0 <= k < l < |ring| ==> ring[k] != ring[l]
  }

  /** A permutation of the first h indices, linked both ways. */
  ghost predicate Ring(next: seq<nat>, prev: seq<nat>, h: nat, ring: seq<nat>, m: nat) {
    && |next| == |prev| == h + 1 && m <= h
    && Linked(next, prev, h, ring) && Distinct(ring)
    && (forall b: nat :: b in ring <==> b < m)
  }

  function PushFront(next: seq<nat>, prev: seq<nat>, h: nat, b: nat): (s: (seq<nat>, seq<nat>))
    requires h < |next| == |prev| && b < |next| && next[h] < |prev|
    ensures |s.0| == |next| && |s.1| == |prev|
  {
    var first := next[h];
    (next[b := first][h := b], prev[b := h][first := b])
  }

  lemma PushedLinks(next: seq<nat>, prev: seq<nat>, h: nat, ring: seq<nat>, b: nat)
    requires |next| == |prev| == h + 1 && b < h && Linked(next, prev, h, ring) && Distinct(ring)
    requires b !in ring && forall c :: c in ring ==> c < h
    ensures next[h] < |prev|
    ensures var (next', prev') := PushFront(next, prev, h, b); Linked(next', prev', h, [b] + ring)
    ensures Distinct([b] + ring)
  {
    var ring' := [b] + ring;
    assert LinkedAt(next, prev, h, ring, -1);
    assert forall k :: 0 <= k < |ring| ==> ring[k] in ring;
    var (next', prev') := PushFront(next, prev, h, b);
    forall k: int | -1 <= k < |ring'|
      ensures LinkedAt(next', prev', h, ring', k)
    {
      if k >= 1 {
        assert LinkedAt(next, prev, h, ring, k - 1);
        assert Node(h, ring', k) == Node(h, ring, k - 1) && Node(h, ring', k + 1) == Node(h, ring, k);
      }
    }
  }

  function Without(ring: seq<nat>, k: nat): seq<nat>
    requires k < |ring|
  {
    ring[..k] + ring[k + 1..]
  }

  lemma UnlinkedLinks(next: seq<nat>, prev: seq<nat>, h: nat, ring: seq<nat>, k: nat)
    requires |next| == |prev| == h + 1 && Linked(next, prev, h, ring) && Distinct(ring) && k < |ring|
    requires forall c :: c in ring ==> c < h
    ensures var b := ring[k];
            && b < h && next[b] < |prev| && prev[b] < |next|
            && Linked(next[prev[b] := next[b]], prev[next[b] := prev[b]], h, Without(ring, k))
  {
    var b, ring' := ring[k], Without(ring, k);
    assert LinkedAt(next, prev, h, ring, k) && LinkedAt(next, prev, h, ring, k - 1);
    assert forall k :: 0 <= k < |ring| ==> ring[k] in ring;
    var next', prev' := next[prev[b] := next[b]], prev[next[b] := prev[b]];
    forall l: int | -1 <= l < |ring'|
      ensures LinkedAt(next', prev', h, ring', l)
    {
      if l < k - 1 {
        assert LinkedAt(next, prev, h, ring, l);
      } else if l >= k {
        assert LinkedAt(next, prev, h, ring, l + 1);
      }
    }
  }

  lemma WithoutMembers(ring: seq<nat>, k: nat)
    requires Distinct(ring) && k < |ring|
    ensures Distinct(Without(ring, k)) && ring[k] !in Without(ring, k)
    ensures forall c :: c in Without(ring, k) <==> c in ring && c != ring[k]
  {
    var b, ring' := ring[k], Without(ring, k);
    forall c
      ensures c in ring' <==> c in ring && c != b
    {
      if c in ring && c != b {
        var l :| 0 <= l < |ring| && ring[l] == c;
        assert ring'[if l < k then l else l - 1] == c;
      }
    }
  }

  // ----- buffers

  datatype Buf = Buf(valid: bool, dirty: bool, dev: nat, blockno: nat, refcnt: nat, locked: bool, pid: nat, data: Block)

  function Unused(): Buf {
    Buf(false, false, 0, 0, 0, false, 0, Zeros())
  }

  predicate HasKey(b: Buf, dev: nat, blockno: nat) {
    b.dev == dev && b.blockno == blockno
  }

  /** Not in use and not holding a block that the log has yet to commit. */
  predicate Eligible(b: Buf) {
    b.refcnt == 0 && !b.dirty
  }

  /** No block is in two buffers; the buffers never used so far all have the key (0, 0). */
  ghost predicate UniqueKeys(buf: seq<Buf>) {
    forall i, j :: 0 <= i < j < |buf| && buf[i].dev == buf[j].dev && buf[i].blockno == buf[j].blockno ==>
      buf[i].dev == 0 && buf[i].blockno == 0
  }

  /** A reference for each process between bget and brelse; the holder of a buffer's lock is one of them. */
  ghost predicate Counted(buf: seq<Buf>, users: seq<multiset<nat>>) {
    |users| == |buf| && forall i :: 0 <= i < |buf| ==>
      buf[i].refcnt == |users[i]| && (buf[i].locked ==> buf[i].pid in users[i])
  }

  /** A valid buffer holds the latest contents of its block; only the holder of its lock may have changed it. */
  ghost predicate Fresh(buf: seq<Buf>, changed: set<nat>, latest: seq<Block>) {
    && (forall i :: 0 <= i < |buf| && buf[i].valid ==>
          buf[i].dev == 1 && buf[i].blockno < |latest| && buf[i].data == latest[buf[i].blockno])
    && (forall i :: 0 <= i < |buf| && buf[i].dirty ==> buf[i].valid)
    && (forall i :: i in changed ==> i < |buf| && buf[i].valid && buf[i].locked)
  }

  /** Buffer i holds contents of the block that the disk need not have. */
  predicate Kept(buf: seq<Buf>, changed: set<nat>, i: nat, blockno: nat) {
    i < |buf| && HasKey(buf[i], 1, blockno) && (buf[i].dirty || i in changed)
  }

  ghost predicate Unwritten(buf: seq<Buf>, changed: set<nat>, blockno: nat) {
    exists i :: Kept(buf, changed, i, blockno)
  }

  /** Where no buffer must be kept, the disk has the latest contents. */
  ghost predicate DiskAgrees(buf: seq<Buf>, changed: set<nat>, disk: seq<Block>, latest: seq<Block>) {
    |disk| == |latest| && forall k: nat :: k < |disk| && !Unwritten(buf, changed, k) ==> disk[k] == latest[k]
  }

  /** The ring is in the order of the last release, latest first. */
  ghost predicate ByRelease(ring: seq<nat>, stamp: seq<nat>, clock: nat) {
    && (forall k :: 0 <= k < |ring| ==> ring[k] < |stamp| && stamp[ring[k]] < clock)
    && forall k, l :: 0 <= k < l < |ring| ==> stamp[ring[k]] > stamp[ring[l]]
  }

  ghost predicate State(nbuf: nat, buf: seq<Buf>, users: seq<multiset<nat>>, changed: set<nat>, disk: seq<Block>, latest: seq<Block>) {
    |buf| == nbuf && UniqueKeys(buf) && Counted(buf, users) && Fresh(buf, changed, latest) && DiskAgrees(buf, changed, disk, latest)
  }

  ghost predicate Cached(buf: seq<Buf>, dev: nat, blockno: nat) {
    exists i :: 0 <= i < |buf| && HasKey(buf[i], dev, blockno)
  }

  /** The key, the flags or the lock of one buffer change, but not what must be kept of it. */
  lemma SameKept(buf: seq<Buf>, changed: set<nat>, buf': seq<Buf>, changed': set<nat>, disk: seq<Block>, latest: seq<Block>, b: nat)
    requires DiskAgrees(buf, changed, disk, latest) && b < |buf| == |buf'| && buf' == buf[b := buf'[b]]
    requires changed - {b} == changed' - {b}
    requires buf[b].dirty || b in changed ==>
               buf'[b].dev == buf[b].dev && buf'[b].blockno == buf[b].blockno && (buf'[b].dirty || b in changed')
    ensures DiskAgrees(buf', changed', disk, latest)
  {
    forall k: nat | k < |disk| && !Unwritten(buf', changed', k)
      ensures disk[k] == latest[k]
    {
      forall i: nat | Kept(buf, changed, i, k)
        ensures Kept(buf', changed', i, k)
      {
        assert i != b ==> (i in changed <==> i in changed - {b}) && (i in changed' <==> i in changed' - {b});
      }
    }
  }

  /** bget's two outcomes. */
  lemma Referenced(nbuf: nat, buf: seq<Buf>, users: seq<multiset<nat>>, changed: set<nat>, disk: seq<Block>, latest: seq<Block>,
                   b: nat, p: nat)
    requires State(nbuf, buf, users, changed, disk, latest) && b < nbuf
    ensures State(nbuf, buf[b := buf[b].(refcnt := buf[b].refcnt + 1)], users[b := users[b] + multiset{p}], changed, disk, latest)
  {
    SameKept(buf, changed, buf[b := buf[b].(refcnt := buf[b].refcnt + 1)], changed, disk, latest, b);
  }

  function Recycled(buf: seq<Buf>, b: nat, dev: nat, blockno: nat): (buf': seq<Buf>)
    requires b < |buf|
    ensures |buf'| == |buf|
  {
    buf[b := buf[b].(dev := dev, blockno := blockno, valid := false, dirty := false, refcnt := 1)]
  }

  lemma RecycledIs(buf: seq<Buf>, b: nat, dev: nat, blockno: nat)
    requires b < |buf|
    ensures Recycled(buf, b, dev, blockno)
            == buf[b := buf[b].(dev := dev, blockno := blockno, valid := false, dirty := false, refcnt := 1)]
  {
  }

  lemma RecycledState(nbuf: nat, buf: seq<Buf>, users: seq<multiset<nat>>, changed: set<nat>, disk: seq<Block>, latest: seq<Block>,
                      b: nat, p: nat, dev: nat, blockno: nat)
    requires State(nbuf, buf, users, changed, disk, latest) && b < nbuf
    requires Eligible(buf[b]) && !Cached(buf, dev, blockno)
    ensures State(nbuf, Recycled(buf, b, dev, blockno), users[b := users[b] + multiset{p}], changed, disk, latest)
    ensures !buf[b].locked
  {
    assert users[b] == multiset{};
    assert b !in changed;
    var buf' := Recycled(buf, b, dev, blockno);
    forall i, j | 0 <= i < j < |buf'| && buf'[i].dev == buf'[j].dev && buf'[i].blockno == buf'[j].blockno
      ensures buf'[i].dev == 0 && buf'[i].blockno == 0
    {
      assert !HasKey(buf[i], dev, blockno) && !HasKey(buf[j], dev, blockno);
    }
    SameKept(buf, changed, buf', changed, disk, latest, b);
  }

  lemma LockedState(nbuf: nat, buf: seq<Buf>, users: seq<multiset<nat>>, changed: set<nat>, disk: seq<Block>, latest: seq<Block>,
                    b: nat, p: nat)
    requires State(nbuf, buf, users, changed, disk, latest) && b < nbuf && !buf[b].locked && p in users[b]
    ensures State(nbuf, buf[b := buf[b].(locked := true, pid := p)], users, changed, disk, latest)
  {
    SameKept(buf, changed, buf[b := buf[b].(locked := true, pid := p)], changed, disk, latest, b);
  }

  lemma ReadState(nbuf: nat, buf: seq<Buf>, users: seq<multiset<nat>>, changed: set<nat>, disk: seq<Block>, latest: seq<Block>, b: nat)
    requires State(nbuf, buf, users, changed, disk, latest) && b < nbuf
    requires !buf[b].valid && buf[b].dev == 1 && buf[b].blockno < |disk|
    ensures disk[buf[b].blockno] == latest[buf[b].blockno]
    ensures State(nbuf, buf[b := buf[b].(valid := true, data := disk[buf[b].blockno])], users, changed, disk, latest)
  {
    assert !Unwritten(buf, changed, buf[b].blockno);
    SameKept(buf, changed, buf[b := buf[b].(valid := true, data := disk[buf[b].blockno])], changed, disk, latest, b);
  }

  lemma WroteState(nbuf: nat, buf: seq<Buf>, users: seq<multiset<nat>>, changed: set<nat>, disk: seq<Block>, latest: seq<Block>, b: nat)
    requires State(nbuf, buf, users, changed, disk, latest) && b < nbuf && buf[b].valid
    ensures State(nbuf, buf[b := buf[b].(dirty := false)], users, changed - {b}, disk[buf[b].blockno := buf[b].data], latest)
  {
    var buf', disk' := buf[b := buf[b].(dirty := false)], disk[buf[b].blockno := buf[b].data];
    forall k: nat | k < |disk'| && !Unwritten(buf', changed - {b}, k)
      ensures disk'[k] == latest[k]
    {
      forall i: nat | Kept(buf, changed, i, k) && k != buf[b].blockno
        ensures Kept(buf', changed - {b}, i, k)
      {
      }
    }
  }

  lemma DirtiedState(nbuf: nat, buf: seq<Buf>, users: seq<multiset<nat>>, changed: set<nat>, disk: seq<Block>, latest: seq<Block>, b: nat)
    requires State(nbuf, buf, users, changed, disk, latest) && b < nbuf && buf[b].valid
    ensures State(nbuf, buf[b := buf[b].(dirty := true)], users, changed - {b}, disk, latest)
  {
    SameKept(buf, changed, buf[b := buf[b].(dirty := true)], changed - {b}, disk, latest, b);
  }

  lemma ModifiedState(nbuf: nat, buf: seq<Buf>, users: seq<multiset<nat>>, changed: set<nat>, disk: seq<Block>, latest: seq<Block>,
                      b: nat, data: Block)
    requires State(nbuf, buf, users, changed, disk, latest) && b < nbuf && buf[b].valid && buf[b].locked
    ensures buf[b].blockno < |latest|
    ensures State(nbuf, buf[b := buf[b].(data := data)], users, changed + {b}, disk, latest[buf[b].blockno := data])
  {
    var buf' := buf[b := buf[b].(data := data)];
    forall k: nat | k < |disk| && !Unwritten(buf', changed + {b}, k)
      ensures disk[k] == latest[k] && k != buf[b].blockno
    {
      assert Kept(buf', changed + {b}, b, buf[b].blockno);
      forall i: nat | Kept(buf, changed, i, k)
        ensures Kept(buf', changed + {b}, i, k)
      {
      }
    }
  }

  lemma UnlockedState(nbuf: nat, buf: seq<Buf>, users: seq<multiset<nat>>, changed: set<nat>, disk: seq<Block>, latest: seq<Block>, b: nat)
    requires State(nbuf, buf, users, changed, disk, latest) && b < nbuf && b !in changed
    ensures State(nbuf, buf[b := buf[b].(locked := false)], users, changed, disk, latest)
  {
    SameKept(buf, changed, buf[b := buf[b].(locked := false)], changed, disk, latest, b);
  }

  lemma DroppedState(nbuf: nat, buf: seq<Buf>, users: seq<multiset<nat>>, changed: set<nat>, disk: seq<Block>, latest: seq<Block>,
                     b: nat, p: nat)
    requires State(nbuf, buf, users, changed, disk, latest) && b < nbuf && p in users[b]
    requires !(buf[b].locked && buf[b].pid == p)
    ensures buf[b].refcnt > 0
    ensures State(nbuf, buf[b := buf[b].(refcnt := buf[b].refcnt - 1)], users[b := users[b] - multiset{p}], changed, disk, latest)
  {
    assert |users[b] - multiset{p}| == |users[b]| - 1;
    SameKept(buf, changed, buf[b := buf[b].(refcnt := buf[b].refcnt - 1)], changed, disk, latest, b);
  }

  /** The list in stamp order, and every buffer on it once. */
  ghost predicate ListState(nbuf: nat, next: seq<nat>, prev: seq<nat>, ring: seq<nat>, stamp: seq<nat>, clock: nat) {
    Ring(next, prev, nbuf, ring, nbuf) && |stamp| == nbuf && ByRelease(ring, stamp, clock)
  }

  lemma FirstAndLast(nbuf: nat, next: seq<nat>, prev: seq<nat>, ring: seq<nat>, m: nat, k: int)
    requires Ring(next, prev, nbuf, ring, m) && -1 <= k < |ring|
    ensures Node(nbuf, ring, k) <= nbuf && Node(nbuf, ring, k + 1) <= nbuf
    ensures next[Node(nbuf, ring, k)] == Node(nbuf, ring, k + 1) && prev[Node(nbuf, ring, k + 1)] == Node(nbuf, ring, k)
    ensures Node(nbuf, ring, k + 1) == nbuf <==> k + 1 == |ring|
    ensures Node(nbuf, ring, k) == nbuf <==> k == -1
  {
    assert LinkedAt(next, prev, nbuf, ring, k);
    assert forall l :: 0 <= l < |ring| ==> ring[l] in ring;
  }

  lemma WithoutAt(ring: seq<nat>, k: nat, l: nat)
    requires k < |ring| && l < |ring| - 1
    ensures |Without(ring, k)| == |ring| - 1 && Without(ring, k)[l] == ring[if l < k then l else l + 1]
  {
  }

  lemma StampedFirst(ring: seq<nat>, stamp: seq<nat>, clock: nat, k: nat)
    requires ByRelease(ring, stamp, clock) && Distinct(ring) && k < |ring|
    ensures ByRelease([ring[k]] + Without(ring, k), stamp[ring[k] := clock], clock + 1)
  {
    hide Without;
    var b, rest := ring[k], Without(ring, k);
    var moved, stamp' := [b] + rest, stamp[b := clock];
    if |ring| > 1 {
      WithoutAt(ring, k, 0);
    } else {
      assert rest == [] by {
        WithoutLength(ring, k);
      }
    }
    forall i, j | 0 <= i < j < |moved|
      ensures moved[i] < |stamp'| && moved[j] < |stamp'| && stamp'[moved[i]] > stamp'[moved[j]]
      ensures moved[j] != b
    {
      WithoutAt(ring, k, j - 1);
      if i > 0 {
        WithoutAt(ring, k, i - 1);
      }
    }
    forall i | 0 <= i < |moved|
      ensures moved[i] < |stamp'| && stamp'[moved[i]] < clock + 1
    {
      if i > 0 {
        WithoutAt(ring, k, i - 1);
      }
    }
  }

  lemma WithoutLength(ring: seq<nat>, k: nat)
    requires k < |ring|
    ensures |Without(ring, k)| == |ring| - 1
  {
  }

  /** Moved to the front with the latest stamp, a buffer keeps the list in order. */
  lemma MovedToFront(nbuf: nat, next: seq<nat>, prev: seq<nat>, ring: seq<nat>, stamp: seq<nat>, clock: nat, k: nat)
    requires ListState(nbuf, next, prev, ring, stamp, clock) && k < |ring|
    ensures var b := ring[k];
            && b < nbuf && next[b] <= nbuf && prev[b] <= nbuf
            && var (n1, p1) := (next[prev[b] := next[b]], prev[next[b] := prev[b]]);
            && n1[nbuf] <= nbuf
            && var (n2, p2) := PushFront(n1, p1, nbuf, b);
               ListState(nbuf, n2, p2, [b] + Without(ring, k), stamp[b := clock], clock + 1)
  {
    hide ByRelease, PushFront, Without, Linked, Distinct;
    var b := ring[k];
    assert b in ring;
    UnlinkedLinks(next, prev, nbuf, ring, k);
    WithoutMembers(ring, k);
    var n1, p1 := next[prev[b] := next[b]], prev[next[b] := prev[b]];
    PushedLinks(n1, p1, nbuf, Without(ring, k), b);
    StampedFirst(ring, stamp, clock, k);
    FirstAndLast(nbuf, next, prev, ring, nbuf, k);
    FirstAndLast(nbuf, next, prev, ring, nbuf, k - 1);
  }

  /** bget's panic: the block is in no buffer, and every buffer is referenced or dirty. */
  ghost predicate NoRoom(buf: seq<Buf>, dev: nat, blockno: nat) {
    forall c: nat :: c < |buf| ==> (buf[c].dev != dev || buf[c].blockno != blockno) && (buf[c].refcnt > 0 || buf[c].dirty)
  }

  ghost function Busy(buf: seq<Buf>): set<nat> {
    set c: nat | c < |buf| && (buf[c].refcnt > 0 || buf[c].dirty)
  }

  function Indices(n: nat): (s: set<nat>)
    ensures |s| == n && forall c: nat :: c in s <==> c < n
  {
    if n == 0 then {} else Indices(n - 1) + {n - 1}
  }

  /** As long as fewer buffers than there are are referenced or dirty, bget finds one. */
  lemma BusyRoom(buf: seq<Buf>, dev: nat, blockno: nat)
    ensures |Busy(buf)| <= |buf|
    ensures |Busy(buf)| < |buf| ==> !NoRoom(buf, dev, blockno)
    ensures |Busy(buf)| == |buf| <==> forall c: nat :: c < |buf| ==> buf[c].refcnt > 0 || buf[c].dirty
  {
    var all := Indices(|buf|);
    Subset(Busy(buf), all);
    if |Busy(buf)| == |buf| {
      forall c: nat | c < |buf|
        ensures buf[c].refcnt > 0 || buf[c].dirty
      {
        assert c in all;
        if c !in Busy(buf) {
          Subset(Busy(buf) + {c}, all);
        }
      }
    }
    if forall c: nat :: c < |buf| ==> buf[c].refcnt > 0 || buf[c].dirty {
      assert Busy(buf) == all;
    }
  }

  lemma {:induction false} Subset<T>(a: set<T>, b: set<T>)
    requires a <= b
    ensures |a| <= |b|
    decreases a
  {
    if a != {} {
      var x :| x in a;
      Subset(a - {x}, b - {x});
    }
  }

  /** What bread comes to. */
  datatype Fetch = Fetched | Waits | NoBuffers

  /** A block that was in a buffer is in the one that bget found, and in no other. */
  lemma OneKey(nbuf: nat, buf: seq<Buf>, users: seq<multiset<nat>>, changed: set<nat>, disk: seq<Block>, latest: seq<Block>,
               b: nat, blockno: nat, buf': seq<Buf>)
    requires State(nbuf, buf, users, changed, disk, latest) && b < nbuf == |buf'|
    requires Cached(buf, 1, blockno) ==> HasKey(buf[b], 1, blockno) && buf'[b].locked == buf[b].locked
    ensures forall c: nat :: c < nbuf && HasKey(buf[c], 1, blockno) ==> c == b && buf[c].locked == buf'[b].locked
  {
  }

  class Cache {
    const nbuf: nat
    var buf: seq<Buf>
    var next: seq<nat>
    var prev: seq<nat>
    var disk: seq<Block>
    ghost var ring: seq<nat>                    // the buffers from head.next on
    ghost var stamp: seq<nat>                   // when each buffer was last released, or set up
    ghost var clock: nat
    ghost var users: seq<multiset<nat>>         // the processes between bget and the end of brelse
    ghost var changed: set<nat>                 // modified since bread, not yet written or logged
    ghost var latest: seq<Block>                // the contents of each block of disk 1

    ghost predicate Valid()
      reads this
    {
      && ListState(nbuf, next, prev, ring, stamp, clock)
      && State(nbuf, buf, users, changed, disk, latest)
    }

    /** binit. */
    constructor (nbuf: nat, disk: seq<Block>)
      ensures Valid() && this.nbuf == nbuf && this.disk == disk && latest == disk
      ensures forall b :: 0 <= b < nbuf ==> buf[b].dev == buf[b].blockno == buf[b].refcnt == 0 && !buf[b].valid && !buf[b].dirty && !buf[b].locked
      ensures forall b :: 0 <= b < nbuf ==> stamp[b] == b
    {
      this.nbuf, this.disk, latest, changed, clock := nbuf, disk, disk, {}, nbuf;
      buf := seq(nbuf, i => Unused());
      users, stamp := seq(nbuf, i => multiset{}), seq(nbuf, i => i);
      ring := [];
      next, prev := seq(nbuf + 1, i => nbuf), seq(nbuf + 1, i => nbuf);
      new;
      hide PushFront, State, Linked;
      EmptyRing(next, prev, nbuf);
      FirstState(nbuf, buf, users, disk);
      var b := 0;
      while b < nbuf
        invariant b <= nbuf && Ring(next, prev, nbuf, ring, b)
        invariant State(nbuf, buf, users, changed, this.disk, latest) && this.disk == disk == latest && clock == nbuf
        invariant |ring| == b && forall k :: 0 <= k < b ==> ring[k] == b - 1 - k
        invariant |stamp| == nbuf && forall i :: 0 <= i < nbuf ==> stamp[i] == i
        invariant |buf| == nbuf && forall i :: 0 <= i < nbuf ==> buf[i] == Unused()
      {
        PushedLinks(next, prev, nbuf, ring, b);
        PushFirst(b);
        ring := [b] + ring;
        b := b + 1;
      }
    }

    /** Link b in after the head. */
    method PushFirst(b: nat)
      requires b < nbuf && |next| == |prev| == nbuf + 1 && next[nbuf] <= nbuf
      modifies `next, `prev
      ensures (next, prev) == PushFront(old(next), old(prev), nbuf, b)
    {
      var first := next[nbuf];
      next, prev := next[b := first], prev[b := nbuf];
      prev, next := prev[first := b], next[nbuf := b];
    }

    /**
     bget, under bcache.lock: the buffer that has the block, or the eligible one
     released longest ago, recycled.  Without either it panics.
     */
    method Bget(p: nat, dev: nat, blockno: nat) returns (b: nat, ok: bool)
      requires Valid()
      modifies `buf, `users
      ensures Valid()
      ensures !ok <==> NoRoom(old(buf), dev, blockno)
      ensures !ok ==> buf == old(buf) && users == old(users)
      ensures ok ==> b < nbuf && buf[b].dev == dev && buf[b].blockno == blockno && users == old(users)[b := old(users)[b] + multiset{p}]
      ensures ok && Cached(old(buf), dev, blockno) ==> buf == old(buf)[b := old(buf)[b].(refcnt := old(buf)[b].refcnt + 1)]
      ensures ok && !Cached(old(buf), dev, blockno) ==>
        && old(buf)[b].refcnt == 0 && !old(buf)[b].dirty && !buf[b].locked && buf == Recycled(old(buf), b, dev, blockno)
        && buf[b].refcnt == 1 && !buf[b].valid && !buf[b].dirty
        && (forall c: nat :: c < nbuf && c != b ==> buf[c] == old(buf)[c])
        && forall c: nat :: c < nbuf && old(buf)[c].refcnt == 0 && !old(buf)[c].dirty ==> stamp[b] <= stamp[c]
    {
      hide State, ListState, UniqueKeys, Recycled;
      BufferCount(nbuf, buf, users, changed, disk, latest);
      b := FindBlock(dev, blockno);
      if b != nbuf {
        Referenced(nbuf, buf, users, changed, disk, latest, b, p);
        buf := buf[b := buf[b].(refcnt := buf[b].refcnt + 1)];
        users := users[b := users[b] + multiset{p}];
        return b, true;
      }
      b := FindEligible();
      if b != nbuf {
        RecycledState(nbuf, buf, users, changed, disk, latest, b, p, dev, blockno);
        RecycledIs(buf, b, dev, blockno);
        buf := buf[b := buf[b].(dev := dev, blockno := blockno, valid := false, dirty := false, refcnt := 1)];
        users := users[b := users[b] + multiset{p}];
        return b, true;
      }
      return b, false;
    }

    /** bget's first scan, from the front; nbuf, the head, if no buffer has the block. */
    method FindBlock(dev: nat, blockno: nat) returns (b: nat)
      requires Valid()
      ensures b <= nbuf && (b == nbuf <==> !Cached(buf, dev, blockno))
      ensures b < nbuf ==> buf[b].dev == dev && buf[b].blockno == blockno
      ensures b == nbuf <==> forall c: nat :: c < nbuf ==> buf[c].dev != dev || buf[c].blockno != blockno
    {
      hide State, Linked;
      BufferCount(nbuf, buf, users, changed, disk, latest);
      ghost var k := 0;
      FirstAndLast(nbuf, next, prev, ring, nbuf, -1);
      b := next[nbuf];
      while b != nbuf
        invariant k <= |ring| && b == Node(nbuf, ring, k) && (b == nbuf <==> k == |ring|)
        invariant forall l :: 0 <= l < k ==> ring[l] < nbuf && !HasKey(buf[ring[l]], dev, blockno)
        decreases |ring| - k
      {
        if buf[b].dev == dev && buf[b].blockno == blockno {
          assert HasKey(buf[b], dev, blockno);
          return b;
        }
        FirstAndLast(nbuf, next, prev, ring, nbuf, k);
        b, k := next[b], k + 1;
      }
      NotCached(nbuf, next, prev, ring, buf, dev, blockno);
    }

    /** bget's second scan, from the back; nbuf if every buffer is in use. */
    method FindEligible() returns (b: nat)
      requires Valid()
      ensures b <= nbuf && (b == nbuf <==> forall c: nat :: c < nbuf ==> buf[c].refcnt > 0 || buf[c].dirty)
      ensures b < nbuf ==> buf[b].refcnt == 0 && !buf[b].dirty
      ensures b < nbuf ==> forall c: nat :: c < nbuf && buf[c].refcnt == 0 && !buf[c].dirty ==> stamp[b] <= stamp[c]
    {
      hide State, Linked;
      BufferCount(nbuf, buf, users, changed, disk, latest);
      ghost var k: int := |ring|;
      FirstAndLast(nbuf, next, prev, ring, nbuf, |ring| - 1);
      b := prev[nbuf];
      while b != nbuf
        invariant 0 <= k <= |ring| && b == Node(nbuf, ring, k - 1) && (b == nbuf <==> k == 0)
        invariant forall l :: k <= l < |ring| ==> ring[l] < nbuf && !Eligible(buf[ring[l]])
        decreases k
      {
        if buf[b].refcnt == 0 && !buf[b].dirty {
          OldestEligible(nbuf, next, prev, ring, stamp, clock, buf, k - 1);
          return b;
        }
        FirstAndLast(nbuf, next, prev, ring, nbuf, k - 2);
        b, k := prev[b], k - 1;
      }
      NoneEligible(nbuf, next, prev, ring, buf);
    }

    /** The end of acquiresleep on the buffer's lock, once it is free. */
    method Lock(p: nat, b: nat)
      requires Valid() && b < nbuf && !buf[b].locked && p in users[b]
      modifies `buf
      ensures Valid() && buf == old(buf)[b := old(buf)[b].(locked := true, pid := p)]
    {
      LockedState(nbuf, buf, users, changed, disk, latest, b, p);
      buf := buf[b := buf[b].(locked := true, pid := p)];
    }

    /** iderw: write the buffer if it is dirty, else read it; panics if there is nothing to do. */
    method Iderw(b: nat)
      requires Valid() && b < nbuf && buf[b].locked && (!buf[b].valid || buf[b].dirty)
      requires buf[b].dev == 1 && buf[b].blockno < |disk|
      modifies `buf, `disk, `changed
      ensures Valid()
      ensures if old(buf)[b].dirty
              then buf == old(buf)[b := old(buf)[b].(dirty := false)] && disk == old(disk)[buf[b].blockno := buf[b].data]
                   && changed == old(changed) - {b}
              else buf == old(buf)[b := old(buf)[b].(valid := true, data := old(disk)[old(buf)[b].blockno])] && disk == old(disk)
                   && changed == old(changed)
      ensures buf[b].valid && !buf[b].dirty && disk[buf[b].blockno] == buf[b].data == latest[buf[b].blockno]
    {
      if buf[b].dirty {
        WroteState(nbuf, buf, users, changed, disk, latest, b);
        disk := disk[buf[b].blockno := buf[b].data];
        buf := buf[b := buf[b].(dirty := false)];
        changed := changed - {b};
      } else {
        ReadState(nbuf, buf, users, changed, disk, latest, b);
        buf := buf[b := buf[b].(valid := true, data := disk[buf[b].blockno])];
      }
    }

    /**
     bread: the block's buffer with its latest contents, locked; or, if somebody else holds
     the buffer, a reference to it with which the caller waits; or the panic of bget.
     */
    method Bread(p: nat, blockno: nat) returns (b: nat, r: Fetch)
      requires Valid() && blockno < |disk|
      modifies `buf, `users, `disk, `changed
      ensures Valid() && disk == old(disk) && changed == old(changed)
      ensures r == NoBuffers <==> NoRoom(old(buf), 1, blockno)
      ensures |Busy(old(buf))| < nbuf ==> r != NoBuffers
      ensures r == Waits <==> exists c: nat :: c < nbuf && old(buf)[c].dev == 1 && old(buf)[c].blockno == blockno && old(buf)[c].locked
      ensures r != NoBuffers ==> b < nbuf && buf[b].dev == 1 && buf[b].blockno == blockno && users == old(users)[b := old(users)[b] + multiset{p}]
      ensures r == Waits ==> buf == old(buf)[b := old(buf)[b].(refcnt := old(buf)[b].refcnt + 1)] && buf[b].locked
      ensures r == Fetched ==> buf[b].valid && buf[b].data == latest[blockno] && buf[b].locked && buf[b].pid == p
      ensures forall c: nat :: c < nbuf && (old(buf)[c].refcnt > 0 || old(buf)[c].dirty) ==>
                buf[c].dev == old(buf)[c].dev && buf[c].blockno == old(buf)[c].blockno
    {
      hide State, ListState, Recycled, Busy;
      BufferCount(nbuf, buf, users, changed, disk, latest);
      BusyRoom(buf, 1, blockno);
      ghost var buf0, users0 := buf, users;
      BufferCount(nbuf, buf, users, changed, disk, latest);
      var ok;
      b, ok := Bget(p, 1, blockno);
      if !ok {
        return b, NoBuffers;
      }
      BufferCount(nbuf, buf, users, changed, disk, latest);
      if !Cached(buf0, 1, blockno) {
        RecycledIs(buf0, b, 1, blockno);
      }
      OneKey(nbuf, buf0, users0, changed, disk, latest, b, blockno, buf);
      assert buf[b].locked ==> HasKey(buf0[b], 1, blockno) && buf0[b].locked;
      if buf[b].locked {
        return b, Waits;
      }
      Load(p, b);
      r := Fetched;
    }

    /** The rest of bread once the buffer's lock is free, for a process with a reference: its latest contents, locked. */
    method Load(p: nat, b: nat)
      requires Valid() && b < nbuf && !buf[b].locked && p in users[b] && buf[b].dev == 1 && buf[b].blockno < |disk|
      modifies `buf, `disk, `changed
      ensures Valid() && disk == old(disk) && changed == old(changed)
      ensures buf == old(buf)[b := old(buf)[b].(locked := true, pid := p, valid := true, data := buf[b].data)]
      ensures buf[b].data == latest[buf[b].blockno]
    {
      Lock(p, b);
      if !buf[b].valid {
        Iderw(b);
      }
    }

    /** The holder changes the block in memory. */
    method Modify(p: nat, b: nat, data: Block)
      requires Valid() && b < nbuf && buf[b].locked && buf[b].pid == p && buf[b].valid
      modifies `buf, `changed, `latest
      ensures Valid() && buf == old(buf)[b := old(buf)[b].(data := data)] && changed == old(changed) + {b}
      ensures buf[b].blockno < |latest| && latest == old(latest)[buf[b].blockno := data]
    {
      ModifiedState(nbuf, buf, users, changed, disk, latest, b, data);
      latest := latest[buf[b].blockno := data];
      buf := buf[b := buf[b].(data := data)];
      changed := changed + {b};
    }

    /** The last step of log_write: B_DIRTY pins the buffer. */
    method Pin(p: nat, b: nat)
      requires Valid() && b < nbuf && buf[b].locked && buf[b].pid == p && buf[b].valid
      modifies `buf, `changed
      ensures Valid() && buf == old(buf)[b := old(buf)[b].(dirty := true)] && changed == old(changed) - {b}
    {
      DirtiedState(nbuf, buf, users, changed, disk, latest, b);
      buf := buf[b := buf[b].(dirty := true)];
      changed := changed - {b};
    }

    /** bwrite of a buffer that bread returned: the disk has its contents. */
    method Bwrite(p: nat, b: nat)
      requires Valid() && b < nbuf && buf[b].locked && buf[b].pid == p && buf[b].valid
      modifies `buf, `disk, `changed
      ensures Valid() && buf == old(buf)[b := old(buf)[b].(dirty := false)] && changed == old(changed) - {b}
      ensures buf[b].blockno < |disk| && disk == old(disk)[buf[b].blockno := latest[buf[b].blockno]]
    {
      Pin(p, b);
      Iderw(b);
    }

    /** The first half of brelse: the lock.  What was modified must have been logged or written. */
    method Unlock(p: nat, b: nat)
      requires Valid() && b < nbuf && buf[b].locked && buf[b].pid == p && b !in changed
      modifies `buf
      ensures Valid() && buf == old(buf)[b := old(buf)[b].(locked := false)]
    {
      UnlockedState(nbuf, buf, users, changed, disk, latest, b);
      buf := buf[b := buf[b].(locked := false)];
    }

    /** The second half of brelse, under bcache.lock: the last user moves the buffer to the front. */
    method Put(p: nat, b: nat)
      requires Valid() && b < nbuf && p in users[b] && !(buf[b].locked && buf[b].pid == p)
      modifies `buf, `users, `next, `prev, `ring, `stamp, `clock
      ensures Valid() && users == old(users)[b := old(users)[b] - multiset{p}]
      ensures old(buf)[b].refcnt > 0 && buf == old(buf)[b := old(buf)[b].(refcnt := old(buf)[b].refcnt - 1)]
      ensures old(buf)[b].refcnt > 1 ==> ring == old(ring) && stamp == old(stamp)
      ensures old(buf)[b].refcnt == 1 ==>
        |ring| > 0 && ring[0] == b && b < |old(stamp)| && stamp == old(stamp)[b := old(clock)] && clock == old(clock) + 1
    {
      hide ListState, State;
      BufferCount(nbuf, buf, users, changed, disk, latest);
      DroppedState(nbuf, buf, users, changed, disk, latest, b, p);
      buf := buf[b := buf[b].(refcnt := buf[b].refcnt - 1)];
      users := users[b := users[b] - multiset{p}];
      if buf[b].refcnt == 0 {
        MoveToFront(b);
      }
    }

    /** Unlink b and link it in after the head. */
    method MoveToFront(b: nat)
      requires ListState(nbuf, next, prev, ring, stamp, clock) && b < nbuf
      modifies `next, `prev, `ring, `stamp, `clock
      ensures ListState(nbuf, next, prev, ring, stamp, clock)
      ensures |ring| > 0 && ring[0] == b && b < |old(stamp)| && stamp == old(stamp)[b := old(clock)] && clock == old(clock) + 1
    {
      hide ByRelease, Linked, Distinct, PushFront, Without;
      assert b in ring;
      ghost var k :| 0 <= k < |ring| && ring[k] == b;
      MovedToFront(nbuf, next, prev, ring, stamp, clock, k);
      var after, before := next[b], prev[b];
      prev, next := prev[after := before], next[before := after];
      PushFirst(b);
      ring, stamp, clock := [b] + Without(ring, k), stamp[b := clock], clock + 1;
    }

    method Brelse(p: nat, b: nat)
      requires Valid() && b < nbuf && buf[b].locked && buf[b].pid == p && b !in changed
      modifies `buf, `users, `next, `prev, `ring, `stamp, `clock
      ensures Valid() && users == old(users)[b := old(users)[b] - multiset{p}]
      ensures old(buf)[b].refcnt > 0 && buf == old(buf)[b := old(buf)[b].(locked := false, refcnt := old(buf)[b].refcnt - 1)]
      ensures old(buf)[b].refcnt > 1 ==> ring == old(ring) && stamp == old(stamp)
      ensures old(buf)[b].refcnt == 1 ==>
        |ring| > 0 && ring[0] == b && b < |old(stamp)| && stamp == old(stamp)[b := old(clock)] && clock == old(clock) + 1
    {
      assert p in users[b];
      Unlock(p, b);
      Put(p, b);
    }
  }

  lemma FirstState(nbuf: nat, buf: seq<Buf>, users: seq<multiset<nat>>, disk: seq<Block>)
    requires |buf| == nbuf == |users| && forall i :: 0 <= i < nbuf ==> buf[i] == Unused() && users[i] == multiset{}
    ensures State(nbuf, buf, users, {}, disk, disk)
  {
  }

  lemma EmptyRing(next: seq<nat>, prev: seq<nat>, h: nat)
    requires |next| == |prev| == h + 1 && next[h] == h && prev[h] == h
    ensures Ring(next, prev, h, [], 0)
  {
    assert LinkedAt(next, prev, h, [], -1);
  }

  lemma BufferCount(nbuf: nat, buf: seq<Buf>, users: seq<multiset<nat>>, changed: set<nat>, disk: seq<Block>, latest: seq<Block>)
    requires State(nbuf, buf, users, changed, disk, latest)
    ensures |buf| == nbuf == |users|
  {
  }

  /** Every buffer is on the ring, so a whole turn of it decides. */
  lemma NotCached(nbuf: nat, next: seq<nat>, prev: seq<nat>, ring: seq<nat>, buf: seq<Buf>, dev: nat, blockno: nat)
    requires Ring(next, prev, nbuf, ring, nbuf) && |buf| == nbuf
    requires forall l :: 0 <= l < |ring| ==> ring[l] < nbuf && !HasKey(buf[ring[l]], dev, blockno)
    ensures !Cached(buf, dev, blockno)
  {
    forall i: nat | i < |buf|
      ensures !HasKey(buf[i], dev, blockno)
    {
      assert i in ring;
    }
  }

  lemma NoneEligible(nbuf: nat, next: seq<nat>, prev: seq<nat>, ring: seq<nat>, buf: seq<Buf>)
    requires Ring(next, prev, nbuf, ring, nbuf) && |buf| == nbuf
    requires forall l :: 0 <= l < |ring| ==> ring[l] < nbuf && !Eligible(buf[ring[l]])
    ensures forall i: nat :: i < nbuf ==> !Eligible(buf[i])
  {
    forall i: nat | i < |buf|
      ensures !Eligible(buf[i])
    {
      assert i in ring;
    }
  }

  /** The first eligible buffer from the tail is the eligible one released longest ago. */
  lemma OldestEligible(nbuf: nat, next: seq<nat>, prev: seq<nat>, ring: seq<nat>, stamp: seq<nat>, clock: nat, buf: seq<Buf>, k: nat)
    requires ListState(nbuf, next, prev, ring, stamp, clock) && |buf| == nbuf && k < |ring|
    requires forall l :: k < l < |ring| ==> ring[l] < nbuf && !Eligible(buf[ring[l]])
    ensures ring[k] < nbuf && forall i: nat :: i < nbuf && Eligible(buf[i]) ==> stamp[ring[k]] <= stamp[i]
  {
    assert ring[k] in ring;
    forall i: nat | i < nbuf && Eligible(buf[i])
      ensures stamp[ring[k]] <= stamp[i]
    {
      assert i in ring;
    }
  }
}
