/**
 Pipes: a ring of PIPESIZE bytes between two counters that wrap around at
 2^32, with readers and writers that sleep and are woken.

 The pipe's lock is held except while a process sleeps, so a step is what one
 process does from entering pipewrite or piperead, or from being woken, until it
 sleeps or returns.
 */
module Pipe {
  import opened Machine

  const PIPESIZE: nat := 512

  // ----- the ring

  function Count(nread: Word, nwrite: Word): (n: nat)
    ensures n < UINT && nwrite == (nread + n) % UINT
  {
    if nread <= nwrite then nwrite - nread else nwrite + UINT - nread
  }

  function Slot(n: nat): (i: nat)
    ensures i < PIPESIZE
  {
    n % PIPESIZE
  }

  /** The bytes between the counters. */
  function Contents(data: seq<Byte>, nread: Word, nwrite: Word): (s: seq<Byte>)
    requires |data| == PIPESIZE
    ensures |s| == Count(nread, nwrite)
  {
    seq(Count(nread, nwrite), k requires 0 <= k => data[Slot(nread + k)])
  }

  function Increment(n: Word): Word {
    (n + 1) % UINT
  }

  /** The test for a full pipe, in 32-bit arithmetic. */
  lemma FullIff(nread: Word, nwrite: Word)
    requires Count(nread, nwrite) <= PIPESIZE
    ensures nwrite == (nread + PIPESIZE) % UINT <==> Count(nread, nwrite) == PIPESIZE
  {
  }

  lemma EmptyIff(nread: Word, nwrite: Word)
    ensures nread == nwrite <==> Count(nread, nwrite) == 0
  {
  }

  lemma SlotPlus(n: nat, k: nat)
    ensures Slot(n + k * PIPESIZE) == Slot(n)
  {
  }

  /** PIPESIZE divides 2^32, so a slot does not depend on whether a counter has wrapped. */
  lemma SlotOfCounter(n: nat)
    requires n < 2 * UINT
    ensures Slot(n % UINT) == Slot(n)
  {
    if n >= UINT {
      assert n == n % UINT + 8388608 * PIPESIZE;
      SlotPlus(n % UINT, 8388608);
    }
  }

  lemma SlotsDiffer(n: nat, i: nat, j: nat)
    requires i < j < i + PIPESIZE
    ensures Slot(n + i) != Slot(n + j)
  {
  }

  lemma PushBack(data: seq<Byte>, nread: Word, nwrite: Word, x: Byte)
    requires |data| == PIPESIZE && Count(nread, nwrite) < PIPESIZE
    ensures Count(nread, Increment(nwrite)) == Count(nread, nwrite) + 1
    ensures Contents(data[Slot(nwrite) := x], nread, Increment(nwrite)) == Contents(data, nread, nwrite) + [x]
  {
    var n := Count(nread, nwrite);
    SlotOfCounter(nread + n);
    hide Slot;
    var got := Contents(data[Slot(nwrite) := x], nread, Increment(nwrite));
    var want := Contents(data, nread, nwrite) + [x];
    forall k: nat | k < n + 1
      ensures got[k] == want[k]
    {
      if k < n {
        SlotsDiffer(nread, k, n);
      }
    }
  }

  lemma PopFront(data: seq<Byte>, nread: Word, nwrite: Word)
    requires |data| == PIPESIZE && nread != nwrite
    ensures Count(Increment(nread), nwrite) == Count(nread, nwrite) - 1
    ensures Contents(data, nread, nwrite) == [data[Slot(nread)]] + Contents(data, Increment(nread), nwrite)
  {
    hide Slot;
    var rest := [data[Slot(nread)]] + Contents(data, Increment(nread), nwrite);
    forall k: nat | k < Count(nread, nwrite)
      ensures Contents(data, nread, nwrite)[k] == rest[k]
    {
      if k > 0 && nread == UINT - 1 {
        SlotOfCounter(nread + k);
      }
    }
  }

  // ----- processes

  /** What a process is doing on the pipe: i of the bytes of src are written; n bytes are wanted. */
  datatype Proc =
    | Away
    | Writer(src: seq<Byte>, i: nat, asleep: bool)
    | Reader(n: nat, asleep: bool)

  predicate WriterFits(q: Proc) {
    q.Writer? ==> q.i <= |q.src|
  }

  function Woken(q: Proc): Proc {
    match q
    case Away => Away
    case Writer(src, i, _) => Writer(src, i, false)
    case Reader(n, _) => Reader(n, false)
  }

  /** wakeup(&nread): every reader that sleeps becomes runnable. */
  function WakeReaders(procs: seq<Proc>): (r: seq<Proc>)
    ensures |r| == |procs|
    ensures forall p :: 0 <= p < |procs| ==> r[p] == if procs[p].Reader? then Woken(procs[p]) else procs[p]
  {
    seq(|procs|, p requires 0 <= p < |procs| => if procs[p].Reader? then Woken(procs[p]) else procs[p])
  }

  function WakeWriters(procs: seq<Proc>): (r: seq<Proc>)
    ensures |r| == |procs|
    ensures forall p :: 0 <= p < |procs| ==> r[p] == if procs[p].Writer? then Woken(procs[p]) else procs[p]
  {
    seq(|procs|, p requires 0 <= p < |procs| => if procs[p].Writer? then Woken(procs[p]) else procs[p])
  }

  /** Whoever is inside an operation has the file open at its end. */
  ghost predicate EndsOpen(procs: seq<Proc>, readopen: bool, writeopen: bool) {
    forall p :: 0 <= p < |procs| ==>
      WriterFits(procs[p]) && (procs[p].Reader? ==> readopen) && (procs[p].Writer? ==> writeopen)
  }

  predicate ReaderAsleep(q: Proc) {
    q.Reader? && q.asleep
  }

  predicate ReadersAsleep(procs: seq<Proc>) {
    exists p :: 0 <= p < |procs| && ReaderAsleep(procs[p])
  }

  /** What holds of sleepers in every run, kills or not: writers sleep on a full pipe that may be read, readers on one that may be written. */
  ghost predicate SleepersSound(procs: seq<Proc>, count: nat, readopen: bool, writeopen: bool) {
    forall p :: 0 <= p < |procs| ==>
      && (ReaderAsleep(procs[p]) ==> writeopen)
      && (procs[p].Writer? && procs[p].asleep ==> count == PIPESIZE && readopen)
  }

  /** Nobody sleeps without cause: readers on an empty pipe that may still be written, writers on a full one that may still be read. */
  ghost predicate SleepersWait(procs: seq<Proc>, count: nat, readopen: bool, writeopen: bool) {
    forall p :: 0 <= p < |procs| ==>
      && (procs[p].Reader? && procs[p].asleep ==> count == 0 && writeopen)
      && (procs[p].Writer? && procs[p].asleep ==> count == PIPESIZE && readopen)
  }

  // ----- what a whole call has put into the pipe

  /** The bytes at position from and after it that process p wrote: writer names the writer of each byte. */
  ghost function Share(put: seq<Byte>, writer: seq<nat>, from: nat, p: nat): (s: seq<Byte>)
    requires |writer| == |put|
  {
    var n := |put| - 1;
    if n < from then []
    else Share(put[..n], writer[..n], from, p) + if writer[n] == p then [put[n]] else []
  }

  /**
   A process does what it asked for when it came in, and what a writer has put into the
   pipe since then is the part of its bytes that it counts as written.
   */
  ghost predicate OnCourse(q: Proc, asked: Proc, share: seq<Byte>) {
    && (q.Writer? ==> asked.Writer? && q.src == asked.src && q.i <= |q.src| && share == q.src[..q.i])
    && (q.Reader? ==> asked.Reader? && q.n == asked.n)
  }

  ghost predicate Calls(procs: seq<Proc>, asked: seq<Proc>, since: seq<nat>, put: seq<Byte>, writer: seq<nat>) {
    && |procs| == |asked| == |since| && |writer| == |put|
    && forall p :: 0 <= p < |procs| ==> since[p] <= |put| && OnCourse(procs[p], asked[p], Share(put, writer, since[p], p))
  }

  /** Process p writes its next byte. */
  lemma OnePut(procs: seq<Proc>, asked: seq<Proc>, since: seq<nat>, put: seq<Byte>, writer: seq<nat>, p: nat)
    requires Calls(procs, asked, since, put, writer) && p < |procs| && procs[p].Writer? && procs[p].i < |procs[p].src|
    ensures var (src, i) := (procs[p].src, procs[p].i);
            Calls(procs[p := Writer(src, i + 1, false)], asked, since, put + [src[i]], writer + [p])
  {
    var src, i := procs[p].src, procs[p].i;
    var put', writer' := put + [src[i]], writer + [p];
    assert put'[..|put|] == put && writer'[..|put|] == writer;
    assert OnCourse(procs[p], asked[p], Share(put, writer, since[p], p));
    forall q | 0 <= q < |procs|
      ensures Share(put', writer', since[q], q) == Share(put, writer, since[q], q) + if q == p then [src[i]] else []
    {
    }
    assert src[..i + 1] == src[..i] + [src[i]];
    forall q | 0 <= q < |procs|
      ensures since[q] <= |put'|
              && OnCourse(procs[p := Writer(src, i + 1, false)][q], asked[q], Share(put', writer', since[q], q))
    {
      assert OnCourse(procs[q], asked[q], Share(put, writer, since[q], q));
    }
  }

  /** Process p leaves, or its sleep begins or ends. */
  lemma OneMoves(procs: seq<Proc>, asked: seq<Proc>, since: seq<nat>, put: seq<Byte>, writer: seq<nat>, p: nat, q: Proc)
    requires Calls(procs, asked, since, put, writer) && p < |procs|
    requires q == Away || Woken(q) == Woken(procs[p])
    ensures Calls(procs[p := q], asked, since, put, writer)
  {
    hide Share;
    assert OnCourse(procs[p], asked[p], Share(put, writer, since[p], p));
  }

  lemma AllMove(procs: seq<Proc>, asked: seq<Proc>, since: seq<nat>, put: seq<Byte>, writer: seq<nat>)
    requires Calls(procs, asked, since, put, writer)
    ensures Calls(WakeReaders(procs), asked, since, put, writer) && Calls(WakeWriters(procs), asked, since, put, writer)
  {
    hide Share;
  }

  class Pipe {
    const data: array<Byte>
    var nread: Word
    var nwrite: Word
    var readopen: bool
    var writeopen: bool
    var procs: seq<Proc>
    var killed: set<nat>
    ghost var put: seq<Byte>            // all bytes written so far
    ghost var got: seq<Byte>            // all bytes read so far
    ghost var writer: seq<nat>          // who wrote each of them
    ghost var asked: seq<Proc>          // what each process came in for, when it last did
    ghost var since: seq<nat>           // how many bytes had been written then
    ghost var lost: bool                // a killed writer has returned from a full pipe past a sleeping reader

    ghost predicate Valid()
      reads this, data
    {
      && RingValid()
      && EndsOpen(procs, readopen, writeopen)
      && SleepersSound(procs, Count(nread, nwrite), readopen, writeopen)
      && (Starved() ==> lost) && (lost ==> killed != {})
      && Calls(procs, asked, since, put, writer)
    }

    /** What process p has written since it last came in. */
    ghost function Sent(p: nat): (s: seq<Byte>)
      requires Valid() && p < |procs|
      reads this, data
    {
      Share(put, writer, since[p], p)
    }

    /** A reader sleeps although there is something to read. */
    ghost predicate Starved()
      reads this
    {
      nread != nwrite && ReadersAsleep(procs)
    }

    /** pipealloc. */
    constructor (processes: nat, data: array<Byte>)
      requires data.Length == PIPESIZE
      ensures Valid() && this.data == data && put == got == [] && !lost && killed == {} && readopen && writeopen
      ensures |procs| == processes && forall p :: 0 <= p < processes ==> procs[p] == Away
    {
      this.data, nread, nwrite, readopen, writeopen := data, 0, 0, true, true;
      procs, killed, put, got, lost := seq(processes, p => Away), {}, [], [], false;
      writer, asked, since := [], seq(processes, p => Away), seq(processes, p => 0);
    }

    /** A process calls pipewrite or piperead. */
    method Enter(p: nat, q: Proc)
      requires Valid() && p < |procs| && procs[p].Away?
      requires (q.Writer? && writeopen && q.i == 0 && !q.asleep) || (q.Reader? && readopen && !q.asleep)
      modifies `procs, `asked, `since
      ensures Valid() && procs == old(procs)[p := q] && Starved() == old(Starved())
      ensures asked == old(asked)[p := q] && since == old(since)[p := |put|] && Sent(p) == []
    {
      SetAwake(procs, p, q);
      procs, asked, since := procs[p := q], asked[p := q], since[p := |put|];
    }

    ghost predicate RingValid()
      reads this, data
    {
      data.Length == PIPESIZE && Count(nread, nwrite) <= PIPESIZE && put == got + Contents(data[..], nread, nwrite)
    }

    /** Process p writes its next byte. */
    method PutByte(x: Byte, ghost p: nat, ghost i: nat)
      requires RingValid() && Count(nread, nwrite) < PIPESIZE
      requires Writing(p, i) && i < |procs[p].src| && x == procs[p].src[i]
      modifies `nwrite, `put, `writer, data
      ensures RingValid() && Writing(p, i + 1) && put == old(put) + [x] && Count(nread, nwrite) == Count(nread, old(nwrite)) + 1
    {
      hide Contents, Count, Calls;
      WrittenOne(p, i);
      PushBack(data[..], nread, nwrite, x);
      ghost var before := data[..];
      data[Slot(nwrite)] := x;
      assert data[..] == before[Slot(nwrite) := x];
      nwrite := Increment(nwrite);
      put, writer := put + [x], writer + [p];
    }

    method TakeByte() returns (x: Byte)
      requires RingValid() && nread != nwrite
      modifies `nread, `got
      ensures RingValid() && got == old(got) + [x] && Count(nread, nwrite) == Count(old(nread), nwrite) - 1
    {
      hide Contents, Count;
      PopFront(data[..], nread, nwrite);
      x := data[Slot(nread)];
      got := got + [x];
      nread := Increment(nread);
    }

    /** The test in pipewrite's inner loop: p, with i bytes written, has found the pipe full, where there were count bytes at first. */
    method OnFull(p: nat, i: nat, ghost count: nat) returns (r: Option<int>)
      requires RingValid() && Count(nread, nwrite) == PIPESIZE >= count && Writing(p, i) && !procs[p].asleep
      requires EndsOpen(procs, readopen, writeopen) && SleepersSound(procs, count, readopen, writeopen)
      requires writeopen && (ReadersAsleep(procs) ==> readopen) && (lost ==> killed != {})
      modifies `procs, `lost
      ensures Valid()
      ensures if !readopen || p in killed then r == Some(-1) && procs == old(procs)[p := Away]
              else r == None && procs == WakeReaders(old(procs)[p := Writer(old(procs)[p].src, i, true)])
      ensures lost == (old(lost) || (p in killed && ReadersAsleep(old(procs))))
      ensures Starved() <==> p in killed && ReadersAsleep(old(procs))
      ensures Sent(p) == old(procs)[p].src[..i]
    {
      hide Contents, Count, EndsOpen, SleepersSound, ReadersAsleep, Calls, Share, Writing, OnCourse, Woken, WriterFits, WakeReaders;
      Leave(p, i);
      EmptyIff(nread, nwrite);
      if !readopen || p in killed {
        SetAwake(procs, p, Away);
        OneSound(procs, p, Away, count, PIPESIZE, readopen, writeopen);
        lost := lost || (p in killed && ReadersAsleep(procs));
        procs := procs[p := Away];
        return Some(-1);
      }
      var asleep := Writer(procs[p].src, i, true);
      OneSound(procs, p, asleep, count, PIPESIZE, readopen, writeopen);
      WakeSound(procs[p := asleep], PIPESIZE, readopen, writeopen);
      procs := WakeReaders(procs[p := asleep]);
      r := None;
    }

    /**
     pipewrite until it sleeps (no result) or returns: as many bytes as fit go in, in
     order.  It returns -1 from a full pipe if nobody can read it or p was killed.
     */
    method RunWriter(p: nat) returns (r: Option<int>)
      requires Valid() && p < |procs| && procs[p].Writer? && !procs[p].asleep
      modifies `nwrite, `procs, `put, `writer, `lost, data
      ensures Valid() && |procs| == |old(procs)|
      ensures var src, i, room := old(procs)[p].src, old(procs)[p].i, PIPESIZE - Count(nread, old(nwrite));
              var k := if |src| - i < room then |src| - i else room;
              && put == old(put) + src[i..i + k]
              && (i + k == |src| ==> r == Some(|src|) && procs == WakeReaders(old(procs)[p := Away]))
              && (i + k < |src| && (!readopen || p in killed) ==> r == Some(-1) && procs == old(procs)[p := Away])
              && (i + k < |src| && readopen && p !in killed ==> r == None && procs == WakeReaders(old(procs)[p := Writer(src, i + k, true)]))
              && lost == (old(lost) || (i + k < |src| && p in killed && ReadersAsleep(old(procs))))
      ensures Starved() <==> PastReader(old(procs), p, Count(nread, old(nwrite)), p in killed)
      ensures asked[p].Writer? && (r == Some(|asked[p].src|) || r == Some(-1) || r == None)
      ensures r == Some(|asked[p].src|) ==> Sent(p) == asked[p].src
      ensures r == Some(-1) ==> Sent(p) < asked[p].src
    {
      hide Contents, Count, EndsOpen, SleepersSound, ReadersAsleep, Calls, Share, Writing, OnCourse, Woken, WriterFits, WakeReaders;
      Course(p);
      WriterSound(procs, p, Count(nread, nwrite), readopen, writeopen);
      var i := FillPipe(p);
      if i < |procs[p].src| {
        r := OnFull(p, i, Count(nread, old(nwrite)));
        return;
      }
      Leave(p, i);
      OneSound(procs, p, Away, Count(nread, old(nwrite)), Count(nread, nwrite), readopen, writeopen);
      WakeSound(procs[p := Away], Count(nread, nwrite), readopen, writeopen);
      r := Some(|procs[p].src|);
      procs := WakeReaders(procs[p := Away]);
    }

    /** pipewrite's loop until all bytes are written or the pipe is full. */
    method FillPipe(p: nat) returns (i: nat)
      requires RingValid() && p < |procs| && procs[p].Writer? && Writing(p, procs[p].i)
      modifies `nwrite, `put, `writer, data
      ensures RingValid() && Writing(p, i)
      ensures var src, room := procs[p].src, PIPESIZE - Count(nread, old(nwrite));
              && procs[p].i <= i <= |src| && i - procs[p].i <= room && (i < |src| ==> i - procs[p].i == room)
              && put == old(put) + src[procs[p].i..i] && Count(nread, nwrite) == PIPESIZE - room + i - procs[p].i
    {
      hide Contents, Count, Calls;
      i := procs[p].i;
      while i < |procs[p].src|
        invariant procs[p].i <= i <= |procs[p].src| && RingValid() && Writing(p, i)
        invariant Count(nread, nwrite) == Count(nread, old(nwrite)) + (i - procs[p].i)
        invariant put == old(put) + procs[p].src[procs[p].i..i]
      {
        FullIff(nread, nwrite);
        if nwrite == (nread + PIPESIZE) % UINT {
          return;
        }
        PutByte(procs[p].src[i], p, i);
        i := i + 1;
      }
    }

    /** Process p, of whose bytes i are written, goes on. */
    ghost predicate Writing(p: nat, i: nat)
      reads `procs, `asked, `since, `put, `writer
    {
      && p < |procs| && procs[p].Writer? && i <= |procs[p].src|
      && Calls(procs[p := Writer(procs[p].src, i, false)], asked, since, put, writer)
    }

    lemma Course(p: nat)
      requires Valid() && p < |procs|
      ensures |asked| == |procs| && OnCourse(procs[p], asked[p], Sent(p))
      ensures procs[p].Writer? && !procs[p].asleep ==> Writing(p, procs[p].i)
    {
      if procs[p].Writer? && !procs[p].asleep {
        assert OnCourse(procs[p], asked[p], Sent(p));
        assert procs[p := Writer(procs[p].src, procs[p].i, false)] == procs;
      }
    }

    lemma WrittenOne(p: nat, i: nat)
      requires Writing(p, i) && i < |procs[p].src|
      ensures Calls(procs[p := Writer(procs[p].src, i + 1, false)], asked, since, put + [procs[p].src[i]], writer + [p])
    {
      hide Calls;
      var now := procs[p := Writer(procs[p].src, i, false)];
      OnePut(now, asked, since, put, writer, p);
      assert now[p := Writer(procs[p].src, i + 1, false)] == procs[p := Writer(procs[p].src, i + 1, false)];
    }

    /** Process p leaves the pipe, or sleeps. */
    lemma Leave(p: nat, i: nat)
      requires Writing(p, i)
      ensures p < |procs| && procs[p].Writer? && WriterFits(Writer(procs[p].src, i, true))
      ensures Calls(procs[p := Away], asked, since, put, writer)
      ensures Calls(WakeReaders(procs[p := Away]), asked, since, put, writer)
      ensures Calls(WakeReaders(procs[p := Writer(procs[p].src, i, true)]), asked, since, put, writer)
      ensures |since| == |procs| && |writer| == |put| && Share(put, writer, since[p], p) == procs[p].src[..i]
    {
      hide Share, WakeReaders;
      var src := procs[p].src;
      var now := procs[p := Writer(src, i, false)];
      assert OnCourse(now[p], asked[p], Share(put, writer, since[p], p));
      OneMoves(now, asked, since, put, writer, p, Away);
      OneMoves(now, asked, since, put, writer, p, Writer(src, i, true));
      assert now[p := Away] == procs[p := Away];
      assert now[p := Writer(src, i, true)] == procs[p := Writer(src, i, true)];
      AllMove(procs[p := Away], asked, since, put, writer);
      AllMove(procs[p := Writer(src, i, true)], asked, since, put, writer);
    }

    /**
     piperead until it sleeps or returns: the first bytes of the pipe, n of them or
     all there are.  It sleeps only on an empty pipe whose write end is open.
     */
    method RunReader(p: nat) returns (r: Option<int>, addr: seq<Byte>)
      requires Valid() && p < |procs| && procs[p].Reader? && !procs[p].asleep
      modifies `nread, `procs, `got
      ensures Valid() && |procs| == |old(procs)|
      ensures got == old(got) + addr
      ensures var n, count := old(procs)[p].n, Count(old(nread), nwrite);
              if count == 0 && writeopen
              then addr == [] && (if p in killed then r == Some(-1) && procs == old(procs)[p := Away]
                                  else r == None && procs == old(procs)[p := Reader(n, true)])
              else |addr| == (if n < count then n else count) && r == Some(|addr|) && procs == WakeWriters(old(procs)[p := Away])
      ensures asked[p].Reader? && asked[p].n == old(procs)[p].n
      ensures r == Some(0) && old(procs)[p].n > 0 ==> nread == nwrite && !writeopen
      ensures Starved() <==> old(Starved()) && nread != nwrite
    {
      hide Contents, Count, Calls;
      EmptyIff(nread, nwrite);
      SetAwake(procs, p, Away);
      Course(p);
      OneMoves(procs, asked, since, put, writer, p, Away);
      OneMoves(procs, asked, since, put, writer, p, Reader(procs[p].n, true));
      AllMove(procs[p := Away], asked, since, put, writer);
      addr := [];
      if nread == nwrite && writeopen {
        if p in killed {
          procs := procs[p := Away];
          return Some(-1), addr;
        }
        procs := procs[p := Reader(procs[p].n, true)];
        return None, addr;
      }
      var n, i := procs[p].n, 0;
      while i < n
        invariant i <= n && i == |addr| && procs == old(procs) && RingValid()
        invariant Count(nread, nwrite) == Count(old(nread), nwrite) - i && got == old(got) + addr
      {
        EmptyIff(nread, nwrite);
        if nread == nwrite {
          break;
        }
        var x := TakeByte();
        addr := addr + [x];
        i := i + 1;
      }
      EmptyIff(nread, nwrite);
      procs := WakeWriters(procs[p := Away]);
      r := Some(i);
    }

    /** pipeclose of one end, which nobody has open any more; the pipe is freed with its second end, when nobody is inside. */
    method Close(writable: bool) returns (freed: bool)
      requires Valid()
      requires forall p :: 0 <= p < |procs| ==> !(if writable then procs[p].Writer? else procs[p].Reader?)
      modifies `readopen, `writeopen, `procs
      ensures Valid() && readopen == (old(readopen) && writable) && writeopen == (old(writeopen) && !writable)
      ensures procs == if writable then WakeReaders(old(procs)) else WakeWriters(old(procs))
      ensures !Starved() && (freed <==> !readopen && !writeopen)
      ensures freed ==> forall p :: 0 <= p < |procs| ==> procs[p].Away?
    {
      AllMove(procs, asked, since, put, writer);
      if writable {
        writeopen := false;
        procs := WakeReaders(procs);
      } else {
        readopen := false;
        procs := WakeWriters(procs);
      }
      freed := !readopen && !writeopen;
    }

    /** kill: a sleeping process runs again, to find that it was killed. */
    method Kill(p: nat)
      requires Valid() && p < |procs|
      modifies `killed, `procs
      ensures Valid() && killed == old(killed) + {p} && procs == old(procs)[p := Woken(old(procs)[p])]
      ensures Starved() ==> old(Starved())
      ensures (procs[p].Writer? || procs[p].Reader?) ==> !procs[p].asleep
    {
      hide Contents, Count, Calls;
      OneMoves(procs, asked, since, put, writer, p, Woken(procs[p]));
      killed := killed + {p};
      procs := procs[p := Woken(procs[p])];
    }

    /** What was read is a prefix of what was written, and the pipe holds the rest. */
    lemma Fifo()
      requires Valid()
      ensures got <= put && |put| - |got| == Count(nread, nwrite) <= PIPESIZE
    {
    }

    /**
     However often a writer has slept and been woken, what it has written since it came in is
     the first i of the bytes that it came in with.
     */
    lemma WritesOnce(p: nat)
      requires Valid() && p < |procs| && procs[p].Writer?
      ensures asked[p].Writer? && procs[p].src == asked[p].src && procs[p].i <= |asked[p].src|
      ensures Sent(p) == asked[p].src[..procs[p].i]
    {
      Course(p);
    }

    /** Nobody sleeps without cause, exactly as long as no reader is starved. */
    lemma SleepersWaitIff()
      requires Valid()
      ensures SleepersWait(procs, Count(nread, nwrite), readopen, writeopen) <==> !Starved()
    {
      EmptyIff(nread, nwrite);
    }

    /** No wakeup is lost in a run without kills, nor in any run in which no killed writer has left a full pipe past a sleeping reader. */
    lemma NoLostWakeup(p: nat, q: nat)
      requires Valid() && (killed == {} || !lost) && p < |procs| && q < |procs|
      ensures ReaderAsleep(procs[p]) ==> put == got && writeopen
      ensures procs[p].Writer? && procs[p].asleep ==> |put| - |got| == PIPESIZE && readopen
      ensures !(ReaderAsleep(procs[p]) && procs[q].Writer? && procs[q].asleep)
    {
      Fifo();
      EmptyIff(nread, nwrite);
    }
  }

  /** Before pipewrite runs: p was killed, does not get all its bytes in, and a reader sleeps. */
  predicate PastReader(procs: seq<Proc>, p: nat, count: nat, killed: bool)
    requires p < |procs| && procs[p].Writer? && count <= PIPESIZE
  {
    killed && |procs[p].src| - procs[p].i > PIPESIZE - count && ReadersAsleep(procs)
  }

  /** A writer is in bounds, and while it runs there are no readers once the read end is closed. */
  lemma WriterSound(procs: seq<Proc>, p: nat, count: nat, readopen: bool, writeopen: bool)
    requires EndsOpen(procs, readopen, writeopen) && p < |procs| && procs[p].Writer?
    ensures procs[p].i <= |procs[p].src| && writeopen && (ReadersAsleep(procs) ==> readopen)
  {
    assert WriterFits(procs[p]);
  }

  /** Process p leaves, or goes to sleep on a full pipe, when there are count' bytes, no fewer than before. */
  lemma OneSound(procs: seq<Proc>, p: nat, q: Proc, count: nat, count': nat, readopen: bool, writeopen: bool)
    requires EndsOpen(procs, readopen, writeopen) && SleepersSound(procs, count, readopen, writeopen) && p < |procs|
    requires count <= count' <= PIPESIZE && WriterFits(q)
    requires q == Away || (q.Writer? && writeopen && readopen && count' == PIPESIZE)
    ensures EndsOpen(procs[p := q], readopen, writeopen) && SleepersSound(procs[p := q], count', readopen, writeopen)
  {
  }

  lemma WakeSound(procs: seq<Proc>, count: nat, readopen: bool, writeopen: bool)
    requires EndsOpen(procs, readopen, writeopen) && SleepersSound(procs, count, readopen, writeopen)
    ensures EndsOpen(WakeReaders(procs), readopen, writeopen) && SleepersSound(WakeReaders(procs), count, readopen, writeopen)
    ensures !ReadersAsleep(WakeReaders(procs))
  {
  }

  /** A process that is not a sleeping reader becomes another such. */
  lemma SetAwake(procs: seq<Proc>, p: nat, q: Proc)
    requires p < |procs| && !ReaderAsleep(procs[p]) && !ReaderAsleep(q)
    ensures ReadersAsleep(procs[p := q]) <==> ReadersAsleep(procs)
  {
    if ReadersAsleep(procs) {
      var r :| 0 <= r < |procs| && ReaderAsleep(procs[r]);
      assert procs[p := q][r] == procs[r];
    }
  }

  /** A new pipe with a reader asleep on it. */
  method ReaderWaits(data: array<Byte>) returns (pipe: Pipe)
    requires data.Length == PIPESIZE
    modifies data
    ensures pipe.Valid() && fresh(pipe) && pipe.data == data && pipe.procs == [Reader(1, true), Away]
    ensures pipe.put == pipe.got == [] && pipe.readopen && pipe.writeopen
  {
    hide Contents, Count, Calls, Share, Pipe.Sent, WriterFits;
    pipe := new Pipe(2, data);
    pipe.Fifo();
    pipe.Enter(0, Reader(1, false));
    var r, addr := pipe.RunReader(0);
  }

  /** A writer that finds it was killed once it has filled the pipe leaves the reader asleep. */
  method KilledWriterLosesWakeup(data: array<Byte>, src: seq<Byte>) returns (pipe: Pipe)
    requires data.Length == PIPESIZE && |src| == PIPESIZE + 1
    modifies data
    ensures pipe.Valid() && fresh(pipe) && pipe.procs == [Reader(1, true), Away]
    ensures Count(pipe.nread, pipe.nwrite) == PIPESIZE && pipe.readopen && pipe.writeopen && pipe.Starved()
  {
    hide Pipe.Valid, Contents, Count, WriterFits;
    pipe := ReaderWaits(data);
    pipe.Fifo();
    pipe.Enter(1, Writer(src, 0, false));
    pipe.Kill(1);
    assert ReaderAsleep(pipe.procs[0]);
    var r := pipe.RunWriter(1);
    pipe.Fifo();
  }
}
