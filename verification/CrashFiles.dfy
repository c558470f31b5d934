/**
 Files across a crash: writes of whole chunks, committed in groups.

 The log recovers a prefix of the logged updates that splits no operation; each
 chunk of filewrite is an operation that takes a sound file system to a sound
 one.  Together: after any crash and its recoveries the file system is sound,
 and its files are those after some number of whole chunks.
 */
module CrashFiles {
  import opened Machine
  import opened Blocks
  import opened Inodes
  import opened Log
  import G = GroupCommit
  import opened FileSystem

  datatype Files = Files(blk: seq<Block>, ino: seq<Inode>, owner: Owners)

  /** One transaction of filewrite, and its log_writes. */
  datatype Chunk = Chunk(i: nat, off: nat, src: seq<Byte>, ws: seq<Write>)

  /** What WriteChunk says of a chunk that was written. */
  ghost predicate ChunkWritten(sb: Super, a: Files, c: Chunk, b: Files) {
    && Sound(sb, a.blk, a.ino, a.owner) && Sound(sb, b.blk, b.ino, b.owner)
    && Replayed(a.blk, c.ws) == b.blk && InBlocks(c.ws, |a.blk|)
    && FileWritten(a.blk, a.ino, c.i, c.off, c.src, b.blk, b.ino)
  }

  predicate InBlocks(ws: seq<Write>, n: nat) {
    forall k :: 0 <= k < |ws| ==> ws[k].b < n
  }

  /** The file systems between the chunks. */
  ghost predicate ChunkRun(sb: Super, files: seq<Files>, chunks: seq<Chunk>) {
    && |files| == |chunks| + 1
    && Sound(sb, files[0].blk, files[0].ino, files[0].owner)
    && forall k: nat :: k < |chunks| ==> ChunkWritten(sb, files[k], chunks[k], files[k + 1])
  }

  /** WriteChunk's own promise is a step of such a run. */
  method WrittenChunk(fs: FileSys, i: nat, off: Word, src: seq<Byte>) returns (ghost a: Files, ghost c: Chunk, ghost b: Files, done: bool)
    requires fs.Valid() && i < |fs.ino| && |src| <= CHUNK && SizesFit(fs.ino)
    modifies fs`blk, fs`ino, fs`owner, fs`logged, fs`writes, fs`base
    ensures done ==> ChunkWritten(fs.sb, a, c, b) && (c.i, c.off, c.src) == (i, off as nat, src)
    ensures a == Files(old(fs.blk), old(fs.ino), old(fs.owner)) && b == Files(fs.blk, fs.ino, fs.owner)
  {
    hide Inodes.Sound, FileWritten, Replayed;
    a := Files(fs.blk, fs.ino, fs.owner);
    ghost var logged;
    var r, ok;
    r, ok, logged := fs.WriteChunk(i, off, src);
    b, c := Files(fs.blk, fs.ino, fs.owner), Chunk(i, off, src, fs.writes);
    done := ok && r != -1;
  }

  // ----- the history of the log

  function Tagged(id: nat, ws: seq<Write>): (us: seq<G.Update>)
    requires InBlocks(ws, UINT)
    ensures |us| == |ws| && forall k :: 0 <= k < |us| ==> us[k] == G.Update(id, ws[k].b, ws[k].data)
  {
    seq(|ws|, k requires 0 <= k < |ws| => G.Update(id, ws[k].b, ws[k].data))
  }

  predicate AllInBlocks(chunks: seq<Chunk>) {
    forall k :: 0 <= k < |chunks| ==> InBlocks(chunks[k].ws, UINT)
  }

  /** The updates of the chunks, operation by operation. */
  function Updates(ids: seq<nat>, chunks: seq<Chunk>): (us: seq<G.Update>)
    requires |ids| == |chunks| && AllInBlocks(chunks)
    ensures forall k :: 0 <= k < |us| ==> us[k].op in ids
    decreases |chunks|
  {
    if chunks == [] then []
    else
      var n := |chunks| - 1;
      Updates(ids[..n], chunks[..n]) + Tagged(ids[n], chunks[n].ws)
  }

  /** The log's history consists of the chunks, each under its own operation, and of part of one that is still running. */
  ghost predicate History(t: G.State, ids: seq<nat>, chunks: seq<Chunk>, last: nat, part: seq<Write>) {
    && |ids| == |chunks| && AllInBlocks(chunks) && InBlocks(part, UINT)
    && (forall k, l :: 0 <= k < l < |ids| ==> ids[k] != ids[l])
    && t.hist == Updates(ids, chunks) + Tagged(last, part)
    && (part != [] ==> exists p :: 0 <= p < |t.procs| && t.procs[p].Active? && t.procs[p].id == last)
  }

  lemma {:induction false} ReplayedTagged(d: Disk, us: seq<G.Update>, id: nat, ws: seq<Write>)
    requires InBlocks(ws, UINT)
    ensures G.Apply(d, us + Tagged(id, ws)) == Replayed(G.Apply(d, us), ws)
    decreases |ws|
  {
    var all := us + Tagged(id, ws);
    if ws == [] {
      assert all == us;
    } else {
      var n := |ws| - 1;
      ReplayedTagged(d, us, id, ws[..n]);
      assert all[..|all| - 1] == us + Tagged(id, ws[..n]);
    }
  }

  /** Replaying the first m chunks gives the file system between the m-th and the next. */
  lemma {:induction false} ReplayedChunks(sb: Super, files: seq<Files>, ids: seq<nat>, chunks: seq<Chunk>, m: nat)
    requires ChunkRun(sb, files, chunks) && |ids| == |chunks| && AllInBlocks(chunks) && m <= |chunks|
    ensures G.Apply(files[0].blk, Updates(ids[..m], chunks[..m])) == files[m].blk
    decreases m
  {
    hide Inodes.Sound, FileWritten, Replayed, G.Apply;
    if m == 0 {
      NoUpdates(files[0].blk);
    } else {
      ReplayedChunks(sb, files, ids, chunks, m - 1);
      assert chunks[..m][..m - 1] == chunks[..m - 1] && ids[..m][..m - 1] == ids[..m - 1];
      ReplayedTagged(files[0].blk, Updates(ids[..m - 1], chunks[..m - 1]), ids[m - 1], chunks[m - 1].ws);
      assert ChunkWritten(sb, files[m - 1], chunks[m - 1], files[m]);
    }
  }

  lemma NoUpdates(d: Disk)
    ensures G.Apply(d, []) == d
  {
  }

  /** A cut that splits no operation lies between two chunks. */
  lemma {:induction false} CutBetween(ids: seq<nat>, chunks: seq<Chunk>, cut: nat) returns (m: nat)
    requires |ids| == |chunks| && AllInBlocks(chunks) && cut <= |Updates(ids, chunks)|
    requires forall i, j :: 0 <= i < cut <= j < |Updates(ids, chunks)| ==> Updates(ids, chunks)[i].op != Updates(ids, chunks)[j].op
    ensures m <= |chunks| && Updates(ids, chunks)[..cut] == Updates(ids[..m], chunks[..m])
    ensures cut == |Updates(ids, chunks)| ==> m == |chunks|
    decreases |chunks|
  {
    var us := Updates(ids, chunks);
    if cut == |us| {
      m := |chunks|;
      assert ids[..m] == ids && chunks[..m] == chunks && us[..cut] == us;
    } else {
      var n := |chunks| - 1;
      var front := Updates(ids[..n], chunks[..n]);
      assert us == front + Tagged(ids[n], chunks[n].ws);
      assert forall k :: |front| <= k < |us| ==> us[k].op == ids[n];
      assert cut > 0 ==> us[cut - 1].op != us[cut].op;
      assert forall k :: 0 <= k < |front| ==> us[k] == front[k];
      m := CutBetween(ids[..n], chunks[..n], cut);
      assert us[..cut] == front[..cut];
      assert ids[..n][..m] == ids[..m] && chunks[..n][..m] == chunks[..m];
    }
  }

  // ----- the log's own blocks do not matter to the files

  lemma HomeSlots(g: Area, sb: Super, blk: seq<Block>, ino: seq<Inode>, owner: Owners, d: seq<Block>, j: nat, l: nat)
    requires Owned(sb, blk, ino, owner) && SameHome(g, d, blk) && g.start + g.size <= sb.inodestart && j < |ino| && l < SLOTS
    ensures Slot(d, ino[j], l) == Slot(blk, ino[j], l)
  {
    MetadataRanges(sb, blk);
    SlotRange(sb, blk, ino, owner, j, TABLE);
    assert Slot(blk, ino[j], TABLE) == ino[j].addrs[TABLE];
  }

  lemma HomeMarks(g: Area, sb: Super, blk: seq<Block>, d: seq<Block>, b: nat)
    requires Layout(sb, blk) && SameHome(g, d, blk) && g.start + g.size <= sb.inodestart && b < sb.size
    ensures Marked(sb, d, b) <==> Marked(sb, blk, b)
  {
    MetadataRanges(sb, blk);
  }

  lemma HomeInode(g: Area, sb: Super, blk: seq<Block>, ino: seq<Inode>, d: seq<Block>, j: nat)
    requires Layout(sb, blk) && SameHome(g, d, blk) && g.start + g.size <= sb.inodestart && j < |ino| <= sb.ninodes
    requires OnDisk(sb, blk, ino[j], j)
    ensures OnDisk(sb, d, ino[j], j)
  {
    MetadataRanges(sb, blk);
  }

  lemma HomeSound(g: Area, sb: Super, blk: seq<Block>, ino: seq<Inode>, owner: Owners, d: seq<Block>)
    requires Sound(sb, blk, ino, owner) && SameHome(g, d, blk) && g.start + g.size <= sb.inodestart
    ensures Sound(sb, d, ino, owner)
  {
    forall j: nat, l: nat | j < |ino| && l < SLOTS
      ensures Slot(d, ino[j], l) == Slot(blk, ino[j], l)
    {
      HomeSlots(g, sb, blk, ino, owner, d, j, l);
    }
    forall b: nat | b < sb.size
      ensures Marked(sb, d, b) <==> Marked(sb, blk, b)
    {
      HomeMarks(g, sb, blk, d, b);
    }
    hide Slot, Marked, DiskInode;
    forall j: nat | j < |ino|
      ensures NoHoles(d, ino[j]) && OnDisk(sb, d, ino[j], j)
    {
      SameSlotsNoHoles(blk, d, ino[j]);
      HomeInode(g, sb, blk, ino, d, j);
    }
  }

  lemma HomeContents(g: Area, sb: Super, blk: seq<Block>, ino: seq<Inode>, owner: Owners, d: seq<Block>, j: nat)
    requires Sound(sb, blk, ino, owner) && SameHome(g, d, blk) && g.start + g.size <= sb.inodestart && j < |ino|
    ensures ino[j].size <= MAXFILE * BSIZE && Contents(d, ino[j]) == Contents(blk, ino[j])
  {
    MetadataRanges(sb, blk);
    forall p: nat | p < ino[j].size
      ensures Inodes.ByteAt(d, ino[j], p) == Inodes.ByteAt(blk, ino[j], p)
    {
      BlocksForBytes(ino[j].size, p);
      HomeSlots(g, sb, blk, ino, owner, d, j, DataSlot(p / BSIZE));
      SlotRange(sb, blk, ino, owner, j, DataSlot(p / BSIZE));
    }
  }

  /** A file system whose files are those of f. */
  ghost predicate Shows(sb: Super, d: Disk, f: Files) {
    && Sound(sb, d, f.ino, f.owner) && SizesFit(f.ino)
    && forall j: nat :: j < |f.ino| ==> Contents(d, f.ino[j]) == Contents(f.blk, f.ino[j])
  }

  /**
   Chunks written one after the other, under a log that commits them in any groups at any
   time: after a crash at any moment, any number of interrupted recoveries and one that
   completes, the disk is a sound file system with the files as they were after the
   first m chunks, and after all of them if everything logged was durable.
   */
  lemma CrashKeepsWholeChunks(sb: Super, limit: nat, s: G.State, steps: seq<G.Step>, t: G.State, ds: seq<Disk>,
                              files: seq<Files>, ids: seq<nat>, chunks: seq<Chunk>, last: nat, part: seq<Write>) returns (m: nat)
    requires G.Initial(s) && G.Runs(limit, s, steps, t) && CrashRun(t.g, ds) && ds[0] == t.disk
    requires ChunkRun(sb, files, chunks) && t.init == files[0].blk && History(t, ids, chunks, last, part)
    requires t.g.start + t.g.size <= sb.inodestart
    ensures GoodHead(ds[|ds| - 1], t.g) && m <= |chunks| < |files|
    ensures Shows(sb, Recovered(ds[|ds| - 1], t.g), files[m])
    ensures G.Durable(t) == |t.hist| ==> m == |chunks|
  {
    hide Inodes.Sound, FileWritten, G.Apply, G.Runs, G.Initial, Recovered, GoodHead, Contents, SameHome;
    G.CrashKeepsWholeOperations(limit, s, steps, t, ds);
    var us, cut := Updates(ids, chunks), G.Durable(t);
    DurableChunks(t, ids, chunks, last, part);
    m := CutBetween(ids, chunks, cut);
    assert t.hist[..cut] == us[..cut];
    ReplayedChunks(sb, files, ids, chunks, m);
    Recovers(t.g, sb, files, chunks, m, Recovered(ds[|ds| - 1], t.g));
  }

  /** The durable updates are those of chunks, with none split. */
  lemma DurableChunks(t: G.State, ids: seq<nat>, chunks: seq<Chunk>, last: nat, part: seq<Write>)
    requires History(t, ids, chunks, last, part) && G.Durable(t) <= |t.hist|
    requires forall i, j :: 0 <= i < G.Durable(t) <= j < |t.hist| ==> t.hist[i].op != t.hist[j].op
    requires forall i, p :: 0 <= i < G.Durable(t) && 0 <= p < |t.procs| && t.procs[p].Active? ==> t.hist[i].op != t.procs[p].id
    ensures var us, cut := Updates(ids, chunks), G.Durable(t);
            && cut <= |us| <= |t.hist| && us == t.hist[..|us|]
            && (cut == |t.hist| ==> cut == |us|)
            && forall i, j :: 0 <= i < cut <= j < |us| ==> us[i].op != us[j].op
  {
    hide G.Durable, Updates;
    var us, cut := Updates(ids, chunks), G.Durable(t);
    if part != [] {
      var p :| 0 <= p < |t.procs| && t.procs[p].Active? && t.procs[p].id == last;
      assert t.hist[|us|] == Tagged(last, part)[0];
    }
    assert forall i :: 0 <= i < |us| ==> us[i] == t.hist[i];
  }

  lemma Recovers(g: Area, sb: Super, files: seq<Files>, chunks: seq<Chunk>, m: nat, d: Disk)
    requires ChunkRun(sb, files, chunks) && m <= |chunks| && SameHome(g, d, files[m].blk) && g.start + g.size <= sb.inodestart
    ensures Shows(sb, d, files[m])
  {
    hide Inodes.Sound, FileWritten, Contents, SameHome, Replayed;
    var f := files[m];
    assert Sound(sb, f.blk, f.ino, f.owner) by {
      if m > 0 {
        assert ChunkWritten(sb, files[m - 1], chunks[m - 1], files[m]);
      }
    }
    HomeSound(g, sb, f.blk, f.ino, f.owner, d);
    SoundSizes(sb, f.blk, f.ino, f.owner);
    forall j: nat | j < |f.ino|
      ensures Contents(d, f.ino[j]) == Contents(f.blk, f.ino[j])
    {
      HomeContents(g, sb, f.blk, f.ino, f.owner, d, j);
    }
  }
}
