/**
 The inode layer of the file system: block allocation, block maps, reading,
 writing and truncating files, and writing in chunks that fit a transaction.

 The buffer cache and the log appear as one list of blocks, the contents that
 bread returns; log_write also records the block's number.
 */
module FileSystem {
  import opened Machine
  import opened Blocks
  import opened Inodes

  const CHUNK: nat := (10 - 1 - 1 - 2) / 2 * 512      // filewrite's largest transaction, in bytes

  /** A block that bmap or balloc may log besides the ones they return. */
  predicate IsBitmap(sb: Super, c: nat) {
    sb.size > 0 && sb.bmapstart <= c <= sb.bmapstart + (sb.size - 1) / BITS
  }

  /** Of the blocks now logged, those not among was or also are bitmap blocks. */
  ghost predicate LoggedOnly(sb: Super, was: set<nat>, now: set<nat>, also: set<nat>) {
    forall c :: c in now ==> c in was || c in also || IsBitmap(sb, c)
  }

  lemma NothingLogged(sb: Super, was: set<nat>, also: set<nat>)
    ensures LoggedOnly(sb, was, was, also)
  {
  }

  lemma LoggedMore(sb: Super, was: set<nat>, mid: set<nat>, now: set<nat>, a: set<nat>, b: set<nat>, c: set<nat>)
    requires LoggedOnly(sb, was, mid, a) && LoggedOnly(sb, mid, now, b) && a <= c && b <= c
    ensures LoggedOnly(sb, was, now, c)
  {
  }

  predicate AllMarked(sb: Super, blk: seq<Block>) {
    forall x: nat :: x < sb.size ==> Marked(sb, blk, x)
  }

  function Max(a: nat, b: nat): nat {
    if a < b then b else a
  }

  lemma BlocksForMonotone(a: nat, b: nat)
    ensures a <= b ==> BlocksFor(a) <= BlocksFor(b)
    ensures b <= a ==> BlocksFor(b) <= BlocksFor(a)
  {
  }

  lemma CopyStart(size: nat, off: nat)
    requires off <= size
    ensures BlocksFor(off) <= BlocksFor(size) && off / BSIZE <= BlocksFor(off)
  {
  }

  /** The arithmetic of one turn of writei's loop. */
  lemma CopyStep(size: nat, off: nat, tot: nat, k: nat, n: nat, m: nat)
    requires off <= size && tot < n && off + n <= MAXFILE * BSIZE
    requires tot == 0 || (off + tot) % BSIZE == 0
    requires m == Max(BlocksFor(off + tot), BlocksFor(size))
    requires k == if n - tot < BSIZE - (off + tot) % BSIZE then n - tot else BSIZE - (off + tot) % BSIZE
    ensures var at := off + tot;
            && at / BSIZE <= m && at / BSIZE < MAXFILE && at % BSIZE + k <= BSIZE && k > 0
            && (if at / BSIZE < m then m else m + 1) == Max(BlocksFor(at + k), BlocksFor(size))
            && BlocksFor(at + k) == at / BSIZE + 1
            && (tot == 0 || BlocksFor(at) == at / BSIZE)
            && off / BSIZE <= at / BSIZE && BlocksFor(at) <= m && BlocksFor(size) <= m
            && (tot + k == n || (at + k) % BSIZE == 0)
  {
    BlocksForIndex(off + tot, k);
    BlocksForMonotone(off + tot + k, size);
  }

  /** The indirect table of a file, if it has one. */
  function TableOf(ino: seq<Inode>, i: nat): (s: set<nat>)
    requires i < |ino|
    ensures |s| <= 1
  {
    if ino[i].addrs[TABLE] == 0 then {} else {ino[i].addrs[TABLE]}
  }

  function Least(a: int, b: int): int {
    if a < b then a else b
  }

  /** As many chunks as done bytes take. */
  predicate ChunksFor(chunks: nat, done: int) {
    done <= chunks * CHUNK < done + CHUNK
  }

  /** Seven blocks at most in each transaction. */
  ghost predicate SmallOps(ops: seq<set<nat>>) {
    forall k :: 0 <= k < |ops| ==> |ops[k]| <= 7
  }

  lemma SmallNone()
    ensures SmallOps([])
  {
  }

  lemma SmallOneMore(ops: seq<set<nat>>, one: set<nat>)
    ensures SmallOps(ops) && |one| <= 7 ==> SmallOps(ops + [one])
  {
  }

  lemma NoChunks()
    ensures ChunksFor(0, 0)
  {
  }

  lemma NextChunk(chunks: nat, done: nat, n: nat)
    requires ChunksFor(chunks, done) && done % CHUNK == 0 && 0 < n <= CHUNK
    ensures ChunksFor(chunks + 1, done + n)
  {
  }

  datatype Write = Write(b: nat, data: Block)

  /** The blocks after a list of log_writes. */
  function Replayed(blk: seq<Block>, ws: seq<Write>): (r: seq<Block>)
    ensures |r| == |blk|
    decreases |ws|
  {
    if ws == [] then blk
    else
      var n := |ws| - 1;
      var r := Replayed(blk, ws[..n]);
      if ws[n].b < |blk| then r[ws[n].b := ws[n].data] else r
  }

  /** Every block that has changed is among those logged, and the log_writes alone make the change. */
  ghost predicate Traced(blk0: seq<Block>, ws: seq<Write>, logged: set<nat>, blk: seq<Block>) {
    && |blk0| == |blk| && (forall c: nat :: c < |blk| && c !in logged ==> blk[c] == blk0[c])
    && Replayed(blk0, ws) == blk
    && forall k :: 0 <= k < |ws| ==> ws[k].b < |blk| && ws[k].b in logged
  }

  class OpenFile {
    const i: nat
    var off: Word

    constructor (i: nat)
      ensures this.i == i && off == 0
    {
      this.i, off := i, 0;
    }
  }

  class FileSys {
    const sb: Super
    var blk: seq<Block>
    var ino: seq<Inode>
    ghost var owner: Owners
    ghost var logged: set<nat>        // blocks logged since begin_op
    ghost var base: seq<Block>        // the blocks at begin_op
    ghost var writes: seq<Write>      // the log_writes since begin_op

    constructor (sb: Super, blk: seq<Block>, ino: seq<Inode>, ghost owner: Owners)
      requires Sound(sb, blk, ino, owner)
      ensures Valid() && this.sb == sb && this.blk == blk && this.ino == ino && this.owner == owner && Covered()
    {
      this.sb, this.blk, this.ino, this.owner, this.logged, this.base, this.writes := sb, blk, ino, owner, {}, blk, [];
    }

    ghost predicate Valid()
      reads this
    {
      Sound(sb, blk, ino, owner)
    }

    /** The log_writes since begin_op account for all that has changed. */
    ghost predicate Covered()
      reads `base, `blk, `logged, `writes
    {
      Traced(base, writes, logged, blk)
    }

    method LogWrite(b: nat, data: Block)
      requires b < |blk|
      modifies `blk, `logged, `writes
      ensures old(Covered()) ==> Covered()
      ensures blk == old(blk)[b := data] && logged == old(logged) + {b}
    {
      blk := blk[b := data];
      logged := logged + {b};
      writes := writes + [Write(b, data)];
    }

    /** The first free block, marked and zeroed; out of blocks exactly when all are marked. */
    method Balloc() returns (b: nat, ok: bool)
      requires Layout(sb, blk) && forall x: nat :: x < sb.data ==> Marked(sb, blk, x)
      modifies `blk, `logged, `writes
      ensures old(Covered()) ==> Covered()
      ensures !ok ==> AllMarked(sb, blk) && blk == old(blk) && logged == old(logged)
      ensures ok ==> Allocated(sb, old(blk), blk, b) && forall x: nat :: x < b ==> Marked(sb, old(blk), x)
      ensures ok ==> LoggedOnly(sb, old(logged), logged, {b})
    {
      hide Covered, Inodes.Allocated, Inodes.MarksOneMore;
      MetadataRanges(sb, blk);
      var base := 0;
      while base < sb.size
        invariant old(Covered()) ==> Covered()
        invariant base % BITS == 0 && blk == old(blk) && logged == old(logged)
        invariant forall x: nat :: x < base && x < sb.size ==> Marked(sb, blk, x)
      {
        var bp := blk[BBlock(sb, base)];
        var bi := 0;
        while bi < BITS && base + bi < sb.size
          invariant old(Covered()) ==> Covered()
          invariant bi <= BITS && blk == old(blk) && logged == old(logged)
          invariant forall x: nat :: x < base + bi && x < sb.size ==> Marked(sb, blk, x)
        {
          b := base + bi;
          SameBitmapBlock(sb, base, bi);
          if !BitAt(bp, bi) {
            assert !Marked(sb, blk, b);
            TakeBlock(b);
            ok := true;
            return;
          }
          bi := bi + 1;
        }
        base := base + BITS;
      }
      b, ok := 0, false;
    }

    /** A free block is marked and zeroed. */
    method TakeBlock(b: nat)
      requires Layout(sb, blk) && sb.data <= b < sb.size && !Marked(sb, blk, b)
      modifies `blk, `logged, `writes
      ensures old(Covered()) ==> Covered()
      ensures Allocated(sb, old(blk), blk, b) && LoggedOnly(sb, old(logged), logged, {b})
    {
      hide Covered;
      MetadataRanges(sb, blk);
      TakenBlock(sb, blk, b);
      BitmapBlock(sb, b);
      LogWrite(BBlock(sb, b), SetBit(blk[BBlock(sb, b)], b % BITS));
      Bzero(b);
    }

    method Bzero(b: nat)
      requires b < |blk|
      modifies `blk, `logged, `writes
      ensures old(Covered()) ==> Covered()
      ensures blk == old(blk)[b := Zeros()] && logged == old(logged) + {b}
    {
      LogWrite(b, Zeros());
    }

    /** bfree: panics on a free block, so it is called on marked ones only. */
    method Bfree(b: nat)
      requires Layout(sb, blk) && b < sb.size && Marked(sb, blk, b)
      modifies `blk, `logged, `writes
      ensures old(Covered()) ==> Covered()
      ensures Layout(sb, blk) && MarksOneMore(sb, blk, old(blk), b)
      ensures forall c: nat :: c < sb.size && c != BBlock(sb, b) ==> blk[c] == old(blk)[c]
      ensures LoggedOnly(sb, old(logged), logged, {})
    {
      MetadataRanges(sb, blk);
      BitmapBlock(sb, b);
      UnmarkOne(sb, blk, b);
      var bp := blk[BBlock(sb, b)];
      var bi := b % BITS;
      LogWrite(BBlock(sb, b), ClearBit(bp, bi));
    }

    /** iupdate: copy the in-memory inode to disk. */
    method Iupdate(i: nat)
      requires i < |ino| && IBlock(sb, i) < |blk|
      modifies `blk, `logged, `writes
      ensures old(Covered()) ==> Covered()
      ensures blk == Updated(sb, old(blk), i, ino[i]) && logged == old(logged) + {IBlock(sb, i)}
    {
      var bp := blk[IBlock(sb, i)];
      bp := PutWord(bp, 16 * (i % IPB) + 2, ino[i].size);
      bp := PutWords(bp, 16 * (i % IPB) + 3, ino[i].addrs, NDIRECT + 1);
      LogWrite(IBlock(sb, i), bp);
    }

    /**
     The block of file i for index bn, allocated if it is the next one.  m is how
     many blocks the file holds before the call; ok is false if the disk is full.
     */
    method Bmap(i: nat, bn: nat, ghost m: nat) returns (addr: Word, ok: bool)
      requires bn < MAXFILE && bn <= m && Growing(sb, blk, ino, owner, i, m, m > NDIRECT)
      modifies `blk, `ino, `owner, `logged, `writes
      ensures old(Covered()) ==> Covered()
      ensures !ok ==> AllMarked(sb, blk)
      ensures ok ==> var m' := if bn < m then m else m + 1;
                && Growing(sb, blk, ino, owner, i, m', m' > NDIRECT)
                && addr == Slot(blk, ino[i], DataSlot(bn)) != 0
      ensures ok ==> BytesKept(old(blk), old(ino), blk, ino) && OnlyAddrs(old(ino), ino, i)
      ensures bn < m ==> ok && blk == old(blk) && ino == old(ino) && owner == old(owner) && logged == old(logged)
      ensures ok ==> LoggedOnly(sb, old(logged), logged, {addr as nat} + TableOf(ino, i))
      ensures ok && old(ino[i]).addrs[TABLE] != 0 ==> ino[i].addrs[TABLE] == old(ino[i]).addrs[TABLE]
    {
      hide Covered, Inodes.SlotsOwned, Inodes.OwnersHold, Inodes.MarksOwned, Inodes.DiskInode, Inodes.Marked;
      if bn < NDIRECT {
        addr := ino[i].addrs[bn];
        assert addr == Slot(blk, ino[i], DataSlot(bn));
        if addr == 0 {
          MetadataMarked(sb, blk, ino, owner);
          var b, found := Balloc();
          if !found {
            return 0, false;
          }
          GrowDirect(sb, old(blk), ino, owner, i, m, blk, b);
          ino, owner, addr := SetAddr(ino, i, bn, b), owner[b := (i, bn)], b;
        }
        return addr, true;
      }
      addr, ok := BmapIndirect(i, bn, m);
    }

    method BmapIndirect(i: nat, bn: nat, ghost m: nat) returns (addr: Word, ok: bool)
      requires NDIRECT <= bn < MAXFILE && bn <= m && Growing(sb, blk, ino, owner, i, m, m > NDIRECT)
      modifies `blk, `ino, `owner, `logged, `writes
      ensures old(Covered()) ==> Covered()
      ensures !ok ==> AllMarked(sb, blk)
      ensures ok ==> var m' := if bn < m then m else m + 1;
                && Growing(sb, blk, ino, owner, i, m', m' > NDIRECT)
                && addr == Slot(blk, ino[i], DataSlot(bn)) != 0
      ensures ok ==> BytesKept(old(blk), old(ino), blk, ino) && OnlyAddrs(old(ino), ino, i)
      ensures bn < m ==> ok && blk == old(blk) && ino == old(ino) && owner == old(owner) && logged == old(logged)
      ensures ok ==> LoggedOnly(sb, old(logged), logged, {addr as nat} + TableOf(ino, i))
      ensures ok && old(ino[i]).addrs[TABLE] != 0 ==> ino[i].addrs[TABLE] == old(ino[i]).addrs[TABLE]
    {
      hide Covered;
      ok := LoadTable(i, m);
      if !ok {
        return 0, false;
      }
      ghost var blk1, ino1, owner1 := blk, ino, owner;
      addr, ok := MapEntry(i, bn, m);
      if ok {
        BytesKeptTwice(sb, old(blk), old(ino), blk1, ino1, old(owner), owner1, blk, ino, i, m, m > NDIRECT, true);
      }
    }

    /** The second half: the table's entry, allocated if it is missing. */
    method MapEntry(i: nat, bn: nat, ghost m: nat) returns (addr: Word, ok: bool)
      requires NDIRECT <= bn < MAXFILE && bn <= m && Growing(sb, blk, ino, owner, i, m, true)
      modifies `blk, `owner, `logged, `writes
      ensures old(Covered()) ==> Covered()
      ensures !ok ==> AllMarked(sb, blk)
      ensures ok ==> var m' := if bn < m then m else m + 1;
                && Growing(sb, blk, ino, owner, i, m', true)
                && addr == Slot(blk, ino[i], DataSlot(bn)) != 0
      ensures ok ==> BytesKept(old(blk), ino, blk, ino)
      ensures bn < m ==> ok && blk == old(blk) && owner == old(owner) && logged == old(logged)
      ensures ok ==> LoggedOnly(sb, old(logged), logged, {addr as nat} + TableOf(ino, i))
    {
      hide Covered, Inodes.Holds, Inodes.SlotsOwned, Inodes.OwnersHold, Inodes.MarksOwned, Inodes.DiskInode, Inodes.Marked, Inodes.NoHoles,
           Inodes.BytesKept;
      BytesKeptSame(blk, ino);
      MetadataMarked(sb, blk, ino, owner);
      GrowingTable(sb, blk, ino, owner, i, m);
      var t := ino[i].addrs[TABLE];
      var bp := blk[t];
      addr, ok := WordAt(bp, bn - NDIRECT), true;
      assert addr == Slot(blk, ino[i], DataSlot(bn));
      if addr == 0 {
        var b, found := Balloc();
        if !found {
          return 0, false;
        }
        GrowEntry(sb, old(blk), ino, owner, i, m, blk, b);
        LogWrite(t, PutWord(bp, bn - NDIRECT, b));
        owner, addr := owner[b := (i, DataSlot(bn))], b;
      }
    }

    /** The first half of bmap's indirect case: the table, allocated if it is missing. */
    method LoadTable(i: nat, ghost m: nat) returns (ok: bool)
      requires NDIRECT <= m <= MAXFILE && Growing(sb, blk, ino, owner, i, m, m > NDIRECT)
      modifies `blk, `ino, `owner, `logged, `writes
      ensures old(Covered()) ==> Covered()
      ensures !ok ==> AllMarked(sb, blk)
      ensures ok ==> Growing(sb, blk, ino, owner, i, m, true)
      ensures ok ==> BytesKept(old(blk), old(ino), blk, ino) && OnlyAddrs(old(ino), ino, i)
      ensures m > NDIRECT ==> ok && blk == old(blk) && ino == old(ino) && owner == old(owner) && logged == old(logged)
      ensures ok ==> ino[i].addrs[TABLE] != 0 && LoggedOnly(sb, old(logged), logged, TableOf(ino, i))
      ensures ok && old(ino[i]).addrs[TABLE] != 0 ==> ino[i].addrs[TABLE] == old(ino[i]).addrs[TABLE]
    {
      hide Covered;
      if ino[i].addrs[TABLE] == 0 {
        var b, found := Balloc();
        if !found {
          return false;
        }
        GrowTable(sb, old(blk), ino, owner, i, blk, b);
        ino, owner := SetAddr(ino, i, TABLE, b), owner[b := (i, TABLE)];
      }
      return true;
    }

    /** readi: the bytes from off on, at most n of them; -1 beyond the end or on wrap-around of off + n. */
    method Readi(i: nat, off: Word, n: Word) returns (dst: seq<Byte>, r: int)
      requires Valid() && i < |ino|
      modifies `blk, `ino, `owner, `logged, `writes
      ensures old(Covered()) ==> Covered()
      ensures blk == old(blk) && ino == old(ino) && owner == old(owner) && logged == old(logged)
      ensures r == -1 <==> off > ino[i].size || off + n >= UINT
      ensures r != -1 ==>
        && ino[i].size <= MAXFILE * BSIZE && r == |dst|
        && dst == Contents(blk, ino[i])[off..if off + n > ino[i].size then ino[i].size else off + n]
    {
      hide Covered, Inodes.Slot, Inodes.ByteAt, Inodes.Owned, Inodes.Growing, Inodes.NoHoles, Inodes.Contents, Inodes.OnDisk, Inodes.BlocksFor;
      dst := [];
      if off > ino[i].size || (off + n) % UINT < off {
        return dst, -1;
      }
      var left := if (off + n) % UINT > ino[i].size then ino[i].size - off else n;
      SoundIsGrowing(sb, blk, ino, owner, i);
      var tot := 0;
      while tot < left
        invariant old(Covered()) ==> Covered()
        invariant blk == old(blk) && ino == old(ino) && owner == old(owner) && logged == old(logged)
        invariant tot <= left && off + left <= ino[i].size <= MAXFILE * BSIZE
        invariant dst == Contents(blk, ino[i])[off..off + tot]
      {
        var at := off + tot;
        var k := if left - tot < BSIZE - at % BSIZE then left - tot else BSIZE - at % BSIZE;
        var piece := ReadPiece(i, at, k, BlocksFor(ino[i].size));
        dst := dst + piece;
        tot := tot + k;
      }
      r := left;
    }

    /** One turn of readi's loop: k bytes from one block of the file. */
    method ReadPiece(i: nat, at: nat, k: nat, ghost m: nat) returns (piece: seq<Byte>)
      requires Growing(sb, blk, ino, owner, i, m, m > NDIRECT)
      requires ino[i].size <= MAXFILE * BSIZE && m == BlocksFor(ino[i].size)
      requires at + k <= ino[i].size && at % BSIZE + k <= BSIZE && k > 0
      modifies `blk, `ino, `owner, `logged, `writes
      ensures old(Covered()) ==> Covered()
      ensures blk == old(blk) && ino == old(ino) && owner == old(owner) && logged == old(logged)
      ensures piece == Contents(blk, ino[i])[at..at + k]
    {
      hide Covered, Inodes.Slot, Inodes.ByteAt, Inodes.Holds, Inodes.SlotsOwned, Inodes.OwnersHold, Inodes.MarksOwned,
           Inodes.Contents, Inodes.DiskInode, Inodes.BytesKept;
      BlocksForBytes(ino[i].size, at);
      var addr, ok := Bmap(i, at / BSIZE, m);
      SlotRange(sb, blk, ino, owner, i, DataSlot(at / BSIZE));
      var bp := blk[addr];
      PieceOfContents(blk, ino[i], at, k);
      piece := bp[at % BSIZE..at % BSIZE + k];
    }

    /** One turn of writei's loop: mid is the state between bmap and the copy into block addr. */
    method WritePiece(i: nat, at: nat, piece: seq<Byte>, ghost m: nat) returns (ok: bool, ghost addr: nat, ghost mid: seq<Block>)
      requires at % BSIZE + |piece| <= BSIZE && at / BSIZE < MAXFILE && at / BSIZE <= m
      requires Growing(sb, blk, ino, owner, i, m, m > NDIRECT)
      modifies `blk, `ino, `owner, `logged, `writes
      ensures old(Covered()) ==> Covered()
      ensures !ok ==> AllMarked(sb, blk)
      ensures ok ==> var m' := if at / BSIZE < m then m else m + 1; Growing(sb, blk, ino, owner, i, m', m' > NDIRECT)
      ensures ok ==> OnlyAddrs(old(ino), ino, i) && BytesKept(old(blk), old(ino), mid, ino)
      ensures ok ==> at < MAXFILE * BSIZE && addr == Home(mid, ino[i], at) < |mid|
                     && OneBlockChanged(mid, blk, ino, i, at / BSIZE, Patch(mid[addr], at % BSIZE, piece))
      ensures at / BSIZE < m ==> ok && ino == old(ino)
      ensures ok ==> LoggedOnly(sb, old(logged), logged, {addr} + TableOf(ino, i))
      ensures ok && old(ino[i]).addrs[TABLE] != 0 ==> ino[i].addrs[TABLE] == old(ino[i]).addrs[TABLE]
    {
      hide Covered, Inodes.Written, Inodes.BytesKept, Inodes.ByteAt, Inodes.OneBlockChanged, Inodes.Holds, Inodes.SlotsOwned,
           Inodes.OwnersHold, Inodes.MarksOwned, Inodes.Slot, Inodes.Patch, Inodes.DiskInode;
      addr, mid := 0, blk;
      var c;
      c, ok := Bmap(i, at / BSIZE, m);
      if ok {
        addr, mid := c, blk;
        ghost var m' := if at / BSIZE < m then m else m + 1;
        SlotRange(sb, blk, ino, owner, i, DataSlot(at / BSIZE));
        var x := Patch(blk[c], at % BSIZE, piece);
        GrowingDataWrite(sb, blk, ino, owner, i, m', m' > NDIRECT, at / BSIZE, x);
        BytesAfterWrite(sb, blk, ino, owner, i, at / BSIZE, x);
        LogWrite(c, x);
      }
    }

    /** One turn of writei's loop, from at on, when the bytes before at have been copied since the file system was as given. */
    method CopyTurn(i: nat, off: nat, src: seq<Byte>, at: nat, k: nat, ghost blk0: seq<Block>, ghost ino0: seq<Inode>, ghost owner0: Owners,
                    ghost m0: nat, ghost m: nat) returns (ok: bool, ghost addr: nat)
      requires Growing(sb, blk0, ino0, owner0, i, m0, m0 > NDIRECT) && Growing(sb, blk, ino, owner, i, m, m > NDIRECT)
      requires OnlyAddrs(ino0, ino, i) && m0 <= m && at / BSIZE <= m && (off == at || BlocksFor(at) <= m)
      requires off <= at && k > 0 && at + k <= off + |src| && at + k <= MAXFILE * BSIZE && at % BSIZE + k <= BSIZE
      requires Written(blk0, ino0, i, off, src, at, blk, ino)
      modifies `blk, `ino, `owner, `logged, `writes
      ensures old(Covered()) ==> Covered()
      ensures !ok ==> AllMarked(sb, blk)
      ensures ok ==> var m' := if at / BSIZE < m then m else m + 1; Growing(sb, blk, ino, owner, i, m', m' > NDIRECT)
      ensures ok ==> OnlyAddrs(ino0, ino, i) && Written(blk0, ino0, i, off, src, at + k, blk, ino)
      ensures ok ==> LoggedOnly(sb, old(logged), logged, {addr} + TableOf(ino, i)) && TableOf(old(ino), i) <= TableOf(ino, i)
    {
      hide Covered, LoggedOnly, IsBitmap, AllMarked, Inodes.Patch, Inodes.Sound, Inodes.Written, Inodes.Growing, Inodes.BytesKept,
           Inodes.Slot, Inodes.ByteAt, Inodes.OneBlockChanged, Inodes.BlocksFor, Inodes.Home;
      ghost var blk1, ino1, owner1 := blk, ino, owner;
      ghost var mid;
      ok, addr, mid := WritePiece(i, at, src[at - off..at - off + k], m);
      if ok {
        WrittenAfterBmap(sb, blk0, ino0, owner0, m0, i, off, src, at, blk1, ino1, owner1, m, mid, ino);
        WrittenAfterPatch(blk0, ino0, i, off, src, at, k, mid, ino, addr, blk);
      }
    }

    /** writei's loop: src copied into the file's blocks, one block at a time; the file then holds m blocks. */
    method CopyIn(i: nat, off: nat, src: seq<Byte>, ghost m0: nat) returns (ok: bool, ghost datas: set<nat>, ghost m: nat)
      requires i < |ino|
      requires Growing(sb, blk, ino, owner, i, m0, m0 > NDIRECT) && m0 == BlocksFor(ino[i].size)
      requires off <= ino[i].size && off + |src| <= MAXFILE * BSIZE
      modifies `blk, `ino, `owner, `logged, `writes
      ensures old(Covered()) ==> Covered()
      ensures !ok ==> AllMarked(sb, blk)
      ensures ok ==> Growing(sb, blk, ino, owner, i, m, m > NDIRECT) && OnlyAddrs(old(ino), ino, i)
      ensures ok ==> m == Max(BlocksFor(off + |src|), m0)
      ensures ok ==> Written(old(blk), old(ino), i, off, src, off + |src|, blk, ino)
      ensures ok ==> LoggedOnly(sb, old(logged), logged, datas + TableOf(ino, i))
      ensures ok ==> |datas| <= BlocksFor(off + |src|) - off / BSIZE
    {
      hide Covered, LoggedOnly, IsBitmap, AllMarked, TableOf, Inodes.Sound, Inodes.Written, Inodes.Growing, Inodes.BlocksFor;
      ok, datas, m := true, {}, m0;
      ghost var size := ino[i].size;
      WrittenNothing(blk, ino, i, off, src);
      CopyStart(size, off);
      NothingLogged(sb, logged, datas + TableOf(ino, i));
      var tot := 0;
      while tot < |src|
        invariant old(Covered()) ==> Covered()
        invariant tot <= |src| && ok && m == Max(BlocksFor(off + tot), m0)
        invariant tot == 0 || tot == |src| || (off + tot) % BSIZE == 0
        invariant Growing(sb, blk, ino, owner, i, m, m > NDIRECT) && OnlyAddrs(old(ino), ino, i)
        invariant Written(old(blk), old(ino), i, off, src, off + tot, blk, ino)
        invariant LoggedOnly(sb, old(logged), logged, datas + TableOf(ino, i))
        invariant tot == 0 ==> blk == old(blk) && logged == old(logged) && ino == old(ino)
        invariant |datas| <= BlocksFor(off + tot) - off / BSIZE && (tot == 0 ==> datas == {})
      {
        var at := off + tot;
        var k := if |src| - tot < BSIZE - at % BSIZE then |src| - tot else BSIZE - at % BSIZE;
        CopyStep(size, off, tot, k, |src|, m);
        ghost var ino1, logged1 := ino, logged;
        ghost var addr;
        ok, addr := CopyTurn(i, off, src, at, k, old(blk), old(ino), old(owner), m0, m);
        if !ok {
          return;
        }
        LoggedMore(sb, old(logged), logged1, logged, datas + TableOf(ino1, i), {addr} + TableOf(ino, i), datas + {addr} + TableOf(ino, i));
        m := if at / BSIZE < m then m else m + 1;
        datas := datas + {addr};
        tot := tot + k;
      }
    }

    /**
     writei: splice src into file i at off; -1 if off is beyond the end, off + n
     wraps around, or the file would be too large.  ok is false if the disk
     filled up, which panics.
     */
    method Writei(i: nat, off: Word, src: seq<Byte>) returns (r: int, ok: bool, ghost datas: set<nat>)
      requires Valid() && i < |ino| && |src| < UINT
      modifies `blk, `ino, `owner, `logged, `writes
      ensures old(Covered()) ==> Covered()
      ensures !ok ==> AllMarked(sb, blk)
      ensures ok ==> Valid() && |ino| == |old(ino)|
      ensures r == -1 <==> off > old(ino)[i].size || off + |src| > MAXFILE * BSIZE
      ensures r == -1 ==> ok && blk == old(blk) && ino == old(ino) && owner == old(owner) && logged == old(logged)
      ensures r != -1 && ok ==>
        && r == |src|
        && Contents(blk, ino[i]) == Splice(Contents(old(blk), old(ino)[i]), off, src)
        && forall j: nat :: j < |ino| && j != i ==> Contents(blk, ino[j]) == Contents(old(blk), old(ino)[j])
      ensures ok ==> LoggedOnly(sb, old(logged), logged, datas + TableOf(ino, i) + {IBlock(sb, i)})
      ensures r != -1 && ok ==> |datas| <= BlocksFor(off + |src|) - off / BSIZE
    {
      hide Covered, Inodes.Written, Inodes.Growing, Inodes.Slot, Inodes.ByteAt, Inodes.Contents, Inodes.Splice;
      datas := {};
      if off > ino[i].size || (off + |src|) % UINT < off || (off + |src|) % UINT > MAXFILE * BSIZE {
        return -1, true, {};
      }
      r := |src|;
      SoundIsGrowing(sb, blk, ino, owner, i);
      ghost var m0 := BlocksFor(ino[i].size);
      ghost var m;
      ok, datas, m := CopyIn(i, off, src, m0);
      if !ok {
        return;
      }
      UpdateSize(i, off, src, old(blk), old(ino), old(owner), m0, m);
      AllContents(old(blk), old(ino), i, off, src, blk, ino);
    }

    /** The end of writei: the size and the inode on disk change only if the file grew. */
    method UpdateSize(i: nat, off: nat, src: seq<Byte>, ghost blk0: seq<Block>, ghost ino0: seq<Inode>, ghost owner0: Owners,
                      ghost m0: nat, ghost m: nat)
      requires Growing(sb, blk0, ino0, owner0, i, m0, m0 > NDIRECT) && m0 == BlocksFor(ino0[i].size)
      requires Growing(sb, blk, ino, owner, i, m, m > NDIRECT) && OnlyAddrs(ino0, ino, i)
      requires off <= ino0[i].size && off + |src| <= MAXFILE * BSIZE
      requires m == Max(BlocksFor(off + |src|), m0)
      requires Written(blk0, ino0, i, off, src, off + |src|, blk, ino)
      modifies `blk, `ino, `logged, `writes
      ensures old(Covered()) ==> Covered()
      ensures Valid() && |ino| == |ino0| && TableOf(ino, i) == TableOf(old(ino), i)
      ensures Written(blk0, ino0, i, off, src, off + |src|, blk, ino)
      ensures ino[i].size == if off + |src| > ino0[i].size then off + |src| else ino0[i].size
      ensures forall j: nat :: j < |ino| && j != i ==> ino[j].size == ino0[j].size
      ensures LoggedOnly(sb, old(logged), logged, {IBlock(sb, i)})
    {
      hide Covered, Inodes.Written, Inodes.Slot, Inodes.ByteAt, Inodes.Growing, Inodes.Home, Inodes.BlocksFor, Inodes.Updated;
      BlocksForMonotone(ino[i].size, off + |src|);
      if |src| > 0 && off + |src| > ino[i].size {
        ghost var blk1, ino1 := blk, ino;
        GrownAfterUpdate(sb, blk, ino, owner, i, m, off + |src|);
        ino := SetSize(ino, i, off + |src|);
        Iupdate(i);
        WrittenAfterBmap(sb, blk0, ino0, owner0, m0, i, off, src, off + |src|, blk1, ino1, owner, m, blk, ino);
      } else {
        GrownIsSound(sb, blk, ino, owner, i);
      }
    }

    /** One transaction of filewrite. */
    method WriteChunk(i: nat, off: Word, src: seq<Byte>) returns (r: int, ok: bool, ghost opLogged: set<nat>)
      requires Valid() && i < |ino| && |src| <= CHUNK && SizesFit(ino)
      modifies `blk, `ino, `owner, `logged, `writes, `base
      ensures ok ==> Traced(old(blk), writes, opLogged, blk)
      ensures !ok ==> AllMarked(sb, blk)
      ensures ok ==> Valid() && |ino| == |old(ino)| && SizesFit(ino)
      ensures r == -1 <==> off > old(ino)[i].size || off + |src| > MAXFILE * BSIZE
      ensures r == -1 ==> ok && blk == old(blk) && ino == old(ino)
      ensures r != -1 && ok ==> r == |src| && FileWritten(old(blk), old(ino), i, off, src, blk, ino)
      ensures r != -1 && ok && sb.size <= BITS ==> |opLogged| <= 7
    {
      hide Inodes.Sound, Inodes.Contents, Inodes.Splice, Inodes.BlocksFor;
      logged, base, writes := {}, blk, [];
      ghost var datas;
      r, ok, datas := Writei(i, off, src);
      opLogged := logged;
      if ok && r != -1 {
        SoundSizes(sb, blk, ino, owner);
        OperationSize(sb, logged, datas, TableOf(ino, i), IBlock(sb, i), off, |src|);
      }
    }

    /**
     filewrite on an inode: chunks of at most CHUNK bytes, each a transaction of
     its own.  It returns n, or -1 if some chunk was refused; the chunks before
     that one stay written, and the file offset has moved past them.
     */
    method Filewrite(f: OpenFile, src: seq<Byte>, n: int) returns (r: int, ok: bool, ghost opLogged: seq<set<nat>>)
      requires Valid() && f.i < |ino| && n <= |src| && n < UINT
      modifies `blk, `ino, `owner, `logged, `writes, `base, f
      ensures !ok ==> AllMarked(sb, blk)
      ensures ok ==> Valid() && |ino| == |old(ino)| && f.off >= old(f.off)
      ensures ok ==> var done := f.off - old(f.off);
                && (done <= n || done == 0)
                && r == (if done == n then n else -1)
                && (done == n <==> n == 0 || (n > 0 && old(f.off) <= old(ino)[f.i].size && old(f.off) + n <= MAXFILE * BSIZE))
                && (if old(f.off) <= old(ino)[f.i].size
                    then FileWritten(old(blk), old(ino), f.i, old(f.off), src[..done], blk, ino)
                         && (done < n ==> done % CHUNK == 0 && f.off + Least(CHUNK, n - done) > MAXFILE * BSIZE)
                    else done == 0 && blk == old(blk) && ino == old(ino))
      ensures ok ==> f.off - old(f.off) <= 1536 * |opLogged| < f.off - old(f.off) + 1536
      ensures ok && sb.size <= BITS ==> SmallOps(opLogged)
    {
      hide Inodes.Sound, AllMarked, Progress, Traced, FileWritten, SizesFit;
      ghost var blk0, ino0, off0 := blk, ino, f.off;
      var done;
      done, ok, opLogged := WriteChunks(f, src, n);
      r := if done == n then n else -1;
      if ok {
        ProgressMeans(blk0, ino0, f.i, off0, src, done, blk, ino);
      }
    }

    /** filewrite's loop. */
    method WriteChunks(f: OpenFile, src: seq<Byte>, n: int) returns (done: nat, ok: bool, ghost opLogged: seq<set<nat>>)
      requires Valid() && f.i < |ino| && n <= |src| && n < UINT
      modifies `blk, `ino, `owner, `logged, `writes, `base, f
      ensures !ok ==> AllMarked(sb, blk)
      ensures ok ==> Valid() && f.off == old(f.off) + done && (done <= n || done == 0)
      ensures ok ==> Progress(old(blk), old(ino), f.i, old(f.off), src, done, blk, ino)
      ensures ok && done < n ==>
        && done % CHUNK == 0 && f.i < |ino|
        && (f.off > ino[f.i].size || f.off + Least(CHUNK, n - done) > MAXFILE * BSIZE)
      ensures ok ==> ChunksFor(|opLogged|, done)
      ensures ok && sb.size <= BITS ==> SmallOps(opLogged)
    {
      hide Inodes.Sound, AllMarked, ChunksFor, Progress, Traced, FileWritten, SizesFit, SmallOps;
      SoundSizes(sb, blk, ino, owner);
      done, ok, opLogged := 0, true, [];
      NoProgress(blk, ino, f.i, f.off, src);
      NoChunks();
      SmallNone();
      while done < n
        invariant (done <= n || done == 0) && ok && f.off == old(f.off) + done
        invariant Valid() && f.i < |ino| && SizesFit(ino) && Progress(old(blk), old(ino), f.i, old(f.off), src, done, blk, ino)
        invariant (done == n || done % CHUNK == 0) && ChunksFor(|opLogged|, done)
        invariant sb.size <= BITS ==> SmallOps(opLogged)
      {
        var n1 := if n - done > CHUNK then CHUNK else n - done;
        ghost var one, blk1, ino1 := {}, blk, ino;
        var r;
        r, ok, one := WriteChunk(f.i, f.off, src[done..done + n1]);
        if !ok || r < 0 {
          return;
        }
        MoreProgress(old(blk), old(ino), f.i, old(f.off), src, done, blk1, ino1, n1, blk, ino);
        NextChunk(|opLogged|, done, n1);
        SmallOneMore(opLogged, one);
        opLogged := opLogged + [one];
        f.off := f.off + r;
        done := done + r;
      }
    }

    /** itrunc: free exactly the blocks of file i and empty it. */
    method Itrunc(i: nat)
      requires Valid() && i < |ino|
      modifies `blk, `ino, `owner, `logged, `writes
      ensures old(Covered()) ==> Covered()
      ensures Valid() && |ino| == |old(ino)| && ino[i].size == 0
      ensures forall b: nat :: b < sb.size ==>
                (Marked(sb, blk, b) <==> Marked(sb, old(blk), b) && !(b in old(owner) && old(owner)[b].0 == i))
      ensures forall j: nat :: j < |ino| && j != i ==> ino[j] == old(ino)[j] && Contents(blk, ino[j]) == Contents(old(blk), ino[j])
    {
      hide Covered, Freed, Inodes.SlotsOwned, Inodes.OwnersHold, Inodes.MarksOwned, Inodes.DiskInode, Inodes.Contents, Inodes.Updated;
      ghost var blk0, ino0, owner0 := blk, ino, owner;
      FreeDirect(i);
      if ino[i].addrs[TABLE] != 0 {
        FreeIndirect(i, blk0, ino0);
        ino := SetAddr(ino, i, TABLE, 0);
      } else {
        EmptySlotsFreed(sb, blk0, ino0, owner, i, blk);
      }
      ino := SetSize(ino, i, 0);
      owner := Disowned(owner, i);
      AllFreed(sb, blk0, ino0, owner0, i, blk, ino, owner);
      Iupdate(i);
    }

    method FreeDirect(i: nat)
      requires Valid() && i < |ino|
      modifies `blk, `ino, `logged, `writes
      ensures old(Covered()) ==> Covered()
      ensures Freed(sb, old(blk), owner, i, blk, NDIRECT)
      ensures |ino| == |old(ino)| && ino[i].size == old(ino)[i].size && ino[i].addrs[TABLE] == old(ino)[i].addrs[TABLE]
      ensures forall l :: 0 <= l < NDIRECT ==> ino[i].addrs[l] == 0
      ensures forall j: nat :: j < |ino| && j != i ==> ino[j] == old(ino)[j]
    {
      hide Covered, Freed, Inodes.Marked, Inodes.MarksOneMore, Inodes.Owned, Inodes.Slot, Inodes.Layout;
      ghost var blk0, ino0 := blk, ino;
      NothingFreed(sb, blk, ino, owner, i);
      var k := 0;
      while k < NDIRECT
        invariant old(Covered()) ==> Covered()
        invariant k <= NDIRECT && |ino| == |ino0| && Freed(sb, blk0, owner, i, blk, k)
        invariant ino[i].size == ino0[i].size
        invariant forall l :: 0 <= l < k ==> ino[i].addrs[l] == 0
        invariant forall l :: k <= l <= TABLE ==> ino[i].addrs[l] == ino0[i].addrs[l]
        invariant forall j: nat :: j < |ino| && j != i ==> ino[j] == ino0[j]
      {
        var b := ino[i].addrs[k];
        DirectSlot(blk0, ino0[i], k);
        SlotStillMarked(sb, blk0, ino0, owner, i, blk, k);
        if b != 0 {
          ghost var blk1 := blk;
          Bfree(b);
          FreedOneMore(sb, blk0, ino0, owner, i, blk1, k, blk);
          ino := SetAddr(ino, i, k, 0);
        }
        k := k + 1;
      }
    }

    method FreeIndirect(i: nat, ghost blk0: seq<Block>, ghost ino0: seq<Inode>)
      requires Sound(sb, blk0, ino0, owner) && i < |ino| == |ino0|
      requires ino[i].addrs[TABLE] == ino0[i].addrs[TABLE] != 0
      requires Freed(sb, blk0, owner, i, blk, NDIRECT)
      modifies `blk, `logged, `writes
      ensures old(Covered()) ==> Covered()
      ensures Freed(sb, blk0, owner, i, blk, SLOTS)
    {
      hide Covered, Freed, Inodes.Marked, Inodes.MarksOneMore, Inodes.Owned, Inodes.Slot, Inodes.Layout;
      var t := ino[i].addrs[TABLE];
      TableUntouched(sb, blk0, ino0, owner, i, blk);
      var bp := blk[t];
      var e := 0;
      while e < NINDIRECT
        invariant old(Covered()) ==> Covered()
        invariant e <= NINDIRECT && Freed(sb, blk0, owner, i, blk, NDIRECT + e)
      {
        var b := WordAt(bp, e);
        EntrySlot(blk0, ino0[i], e);
        SlotStillMarked(sb, blk0, ino0, owner, i, blk, NDIRECT + e);
        if b != 0 {
          ghost var blk1 := blk;
          Bfree(b);
          FreedOneMore(sb, blk0, ino0, owner, i, blk1, NDIRECT + e, blk);
        }
        e := e + 1;
      }
      DirectSlot(blk0, ino0[i], TABLE);
      SlotStillMarked(sb, blk0, ino0, owner, i, blk, SLOTS - 1);
      ghost var blk1 := blk;
      Bfree(t);
      FreedOneMore(sb, blk0, ino0, owner, i, blk1, SLOTS - 1, blk);
    }
  }

  lemma MetadataMarked(sb: Super, blk: seq<Block>, ino: seq<Inode>, owner: Owners)
    requires Owned(sb, blk, ino, owner)
    ensures forall x: nat :: x < sb.data ==> Marked(sb, blk, x)
  {
  }

  lemma BytesKeptSame(blk: seq<Block>, ino: seq<Inode>)
    ensures BytesKept(blk, ino, blk, ino)
  {
  }

  lemma SameBitmapBlock(sb: Super, base: nat, bi: nat)
    requires base % BITS == 0 && bi < BITS
    ensures BBlock(sb, base + bi) == BBlock(sb, base) && (base + bi) % BITS == bi
  {
  }

  lemma TakenBlock(sb: Super, blk: seq<Block>, b: nat)
    requires Layout(sb, blk) && sb.data <= b < sb.size && BBlock(sb, b) < sb.size && !Marked(sb, blk, b)
    ensures Allocated(sb, blk, blk[BBlock(sb, b) := SetBit(blk[BBlock(sb, b)], b % BITS)][b := Zeros()], b)
  {
    var marked := blk[BBlock(sb, b) := SetBit(blk[BBlock(sb, b)], b % BITS)];
    MetadataRanges(sb, blk);
    MarkOne(sb, blk, b);
    DataWriteKeepsMarks(sb, marked, b, Zeros());
  }

  lemma BitmapBlock(sb: Super, b: nat)
    requires b < sb.size
    ensures IsBitmap(sb, BBlock(sb, b))
  {
    assert b / BITS <= (sb.size - 1) / BITS;
  }

  /** A piece of a file inside one block. */
  lemma PieceOfContents(blk: seq<Block>, n: Inode, at: nat, k: nat)
    requires n.size <= MAXFILE * BSIZE && at + k <= n.size && at % BSIZE + k <= BSIZE && k > 0
    requires Home(blk, n, at) < |blk|
    ensures blk[Home(blk, n, at)][at % BSIZE..at % BSIZE + k] == Contents(blk, n)[at..at + k]
  {
    var piece, want := blk[Home(blk, n, at)][at % BSIZE..at % BSIZE + k], Contents(blk, n)[at..at + k];
    forall q: nat | q < k
      ensures piece[q] == want[q]
    {
      SameBlock(at, k, at + q);
      assert want[q] == ByteAt(blk, n, at + q);
    }
  }

  lemma AllContents(blk0: seq<Block>, ino0: seq<Inode>, i: nat, start: nat, src: seq<Byte>, blk: seq<Block>, ino: seq<Inode>)
    requires i < |ino0| && |ino| == |ino0| && start <= ino0[i].size && start + |src| <= MAXFILE * BSIZE
    requires forall j: nat :: j < |ino0| ==> NoHoles(blk0, ino0[j])
    requires Written(blk0, ino0, i, start, src, start + |src|, blk, ino)
    requires ino[i].size == if start + |src| > ino0[i].size then start + |src| else ino0[i].size
    requires forall j: nat :: j < |ino0| && j != i ==> ino[j].size == ino0[j].size
    ensures ino[i].size <= MAXFILE * BSIZE && ino0[i].size <= MAXFILE * BSIZE
    ensures Contents(blk, ino[i]) == Splice(Contents(blk0, ino0[i]), start, src)
    ensures forall j: nat :: j < |ino0| && j != i ==>
              ino0[j].size <= MAXFILE * BSIZE && Contents(blk, ino[j]) == Contents(blk0, ino0[j])
  {
    WrittenContents(blk0, ino0, i, start, src, blk, ino);
    forall j: nat | j < |ino0| && j != i
      ensures ino0[j].size <= MAXFILE * BSIZE && Contents(blk, ino[j]) == Contents(blk0, ino0[j])
    {
      OtherContents(blk0, ino0, i, start, src, blk, ino, j);
    }
  }

  // ----- transactions

  ghost predicate SizesFit(ino: seq<Inode>) {
    forall j: nat :: j < |ino| ==> ino[j].size <= MAXFILE * BSIZE
  }

  lemma SoundSizes(sb: Super, blk: seq<Block>, ino: seq<Inode>, owner: Owners)
    requires Sound(sb, blk, ino, owner)
    ensures SizesFit(ino) && 0 < sb.size
  {
  }

  /** bytes have been spliced into file i at off, and no other file's contents changed. */
  ghost predicate FileWritten(blk0: seq<Block>, ino0: seq<Inode>, i: nat, off: nat, bytes: seq<Byte>, blk: seq<Block>, ino: seq<Inode>) {
    && SizesFit(ino0) && SizesFit(ino) && i < |ino0| == |ino| && off <= ino0[i].size
    && Contents(blk, ino[i]) == Splice(Contents(blk0, ino0[i]), off, bytes)
    && forall j: nat :: j < |ino| && j != i ==> Contents(blk, ino[j]) == Contents(blk0, ino0[j])
  }

  lemma NothingWritten(blk: seq<Block>, ino: seq<Inode>, i: nat, off: nat)
    requires SizesFit(ino) && i < |ino|
    ensures off <= ino[i].size ==> FileWritten(blk, ino, i, off, [], blk, ino)
  {
  }

  /** Writing two adjacent pieces one after the other is writing them at once. */
  lemma SpliceMore(s: seq<Byte>, off: nat, src: seq<Byte>, done: nat, k: nat)
    requires off <= |s| && done + k <= |src|
    ensures off + done <= |Splice(s, off, src[..done])|
    ensures Splice(Splice(s, off, src[..done]), off + done, src[done..done + k]) == Splice(s, off, src[..done + k])
    ensures off + done + k <= |Splice(s, off, src[..done + k])|
  {
    hide Inodes.Splice;
    var s1 := Splice(s, off, src[..done]);
    SpliceSize(s, off, src[..done]);
    SpliceSize(s1, off + done, src[done..done + k]);
    SpliceSize(s, off, src[..done + k]);
    var once, twice := Splice(s, off, src[..done + k]), Splice(s1, off + done, src[done..done + k]);
    forall p: nat | p < |once|
      ensures twice[p] == once[p]
    {
      SpliceAt(s, off, src[..done + k], p);
      SpliceAt(s1, off + done, src[done..done + k], p);
      if p < |s1| {
        SpliceAt(s, off, src[..done], p);
      }
    }
  }

  lemma SpliceSize(s: seq<Byte>, off: nat, src: seq<Byte>)
    requires off <= |s|
    ensures |Splice(s, off, src)| == if off + |src| > |s| then off + |src| else |s|
  {
  }

  lemma MoreWritten(blk0: seq<Block>, ino0: seq<Inode>, i: nat, off: nat, src: seq<Byte>, done: nat, blk1: seq<Block>, ino1: seq<Inode>,
                    k: nat, blk: seq<Block>, ino: seq<Inode>)
    requires done + k <= |src| && FileWritten(blk0, ino0, i, off, src[..done], blk1, ino1)
    requires FileWritten(blk1, ino1, i, off + done, src[done..done + k], blk, ino)
    ensures FileWritten(blk0, ino0, i, off, src[..done + k], blk, ino) && off + done + k <= ino[i].size
  {
    SpliceMore(Contents(blk0, ino0[i]), off, src, done, k);
  }

  /** filewrite has written the first done bytes. */
  ghost predicate Progress(blk0: seq<Block>, ino0: seq<Inode>, i: nat, off: nat, src: seq<Byte>, done: nat, blk: seq<Block>, ino: seq<Inode>) {
    && SizesFit(ino0) && SizesFit(ino) && i < |ino0| == |ino| && done <= |src|
    && (done == 0 ==> blk == blk0 && ino == ino0)
    && (done > 0 ==> off <= ino0[i].size && off + done <= MAXFILE * BSIZE)
    && (off <= ino0[i].size ==> off + done <= ino[i].size && FileWritten(blk0, ino0, i, off, src[..done], blk, ino))
  }

  lemma NoProgress(blk: seq<Block>, ino: seq<Inode>, i: nat, off: nat, src: seq<Byte>)
    requires SizesFit(ino) && i < |ino|
    ensures Progress(blk, ino, i, off, src, 0, blk, ino)
  {
    NothingWritten(blk, ino, i, off);
    assert src[..0] == [];
  }

  lemma MoreProgress(blk0: seq<Block>, ino0: seq<Inode>, i: nat, off: nat, src: seq<Byte>, done: nat, blk1: seq<Block>, ino1: seq<Inode>,
                     k: nat, blk: seq<Block>, ino: seq<Inode>)
    requires Progress(blk0, ino0, i, off, src, done, blk1, ino1) && 0 < k && done + k <= |src|
    requires off + done <= ino1[i].size && off + done + k <= MAXFILE * BSIZE
    requires FileWritten(blk1, ino1, i, off + done, src[done..done + k], blk, ino)
    ensures Progress(blk0, ino0, i, off, src, done + k, blk, ino)
  {
    MoreWritten(blk0, ino0, i, off, src, done, blk1, ino1, k, blk, ino);
  }

  lemma ProgressMeans(blk0: seq<Block>, ino0: seq<Inode>, i: nat, off: nat, src: seq<Byte>, done: nat, blk: seq<Block>, ino: seq<Inode>)
    requires Progress(blk0, ino0, i, off, src, done, blk, ino)
    ensures i < |ino0| == |ino| && done <= |src| && ino[i].size <= MAXFILE * BSIZE
    ensures done == 0 ==> blk == blk0 && ino == ino0
    ensures if off <= ino0[i].size then off + done <= ino[i].size && FileWritten(blk0, ino0, i, off, src[..done], blk, ino) else done == 0
  {
  }

  lemma SubsetSize(a: set<nat>, b: set<nat>)
    requires a <= b
    ensures |a| <= |b|
  {
    if a != {} {
      var x :| x in a;
      SubsetSize(a - {x}, b - {x});
    }
  }

  /** A chunk touches at most four data blocks; with them go a table, the inode and one bitmap block. */
  lemma OperationSize(sb: Super, logged: set<nat>, datas: set<nat>, table: set<nat>, iblock: nat, off: nat, n: nat)
    requires n <= CHUNK && |datas| <= BlocksFor(off + n) - off / BSIZE && |table| <= 1 && 0 < sb.size
    requires forall c :: c in logged ==> c in datas + table + {iblock} || IsBitmap(sb, c)
    ensures sb.size <= BITS ==> |logged| <= 7
  {
    if sb.size <= BITS {
      assert (sb.size - 1) / BITS == 0;
      SubsetSize(logged, datas + table + {iblock, sb.bmapstart});
      assert BlocksFor(off + n) - off / BSIZE <= 4;
      assert |datas + table + {iblock, sb.bmapstart}| <= |datas| + |table| + 2;
    }
  }

  // ----- truncation

  /** The slots in the order itrunc frees them: direct ones, table entries, the table last. */
  function SlotAt(p: nat): nat
    requires p < SLOTS
  {
    if p < NDIRECT then p else if p < SLOTS - 1 then p + 1 else TABLE
  }

  /** Slot k is among the first p of that order. */
  predicate Done(p: nat, k: nat) {
    if k < NDIRECT then k < p else if k == TABLE then p == SLOTS else k <= p
  }

  /** From blk0, exactly the blocks in the first p slots of file i have been freed, and only bitmap blocks have changed. */
  ghost predicate Freed(sb: Super, blk0: seq<Block>, owner: Owners, i: nat, blk: seq<Block>, p: nat) {
    && Layout(sb, blk0) && Layout(sb, blk)
    && (forall c: nat :: c < sb.size && (c < sb.bmapstart || sb.data <= c) ==> blk[c] == blk0[c])
    && (forall x: nat :: x < sb.size ==>
          (Marked(sb, blk, x) <==> Marked(sb, blk0, x) && !(x in owner && owner[x].0 == i && Done(p, owner[x].1))))
  }

  lemma NothingFreed(sb: Super, blk: seq<Block>, ino: seq<Inode>, owner: Owners, i: nat)
    requires Owned(sb, blk, ino, owner)
    ensures Freed(sb, blk, owner, i, blk, 0)
  {
  }

  lemma DirectSlot(blk: seq<Block>, n: Inode, k: nat)
    requires k <= TABLE
    ensures Slot(blk, n, k) == n.addrs[k]
  {
  }

  lemma EntrySlot(blk: seq<Block>, n: Inode, e: nat)
    requires e < NINDIRECT && 0 != n.addrs[TABLE] < |blk|
    ensures Slot(blk, n, SlotAt(NDIRECT + e)) == WordAt(blk[n.addrs[TABLE]], e)
  {
  }

  lemma TableUntouched(sb: Super, blk0: seq<Block>, ino0: seq<Inode>, owner: Owners, i: nat, blk: seq<Block>)
    requires Owned(sb, blk0, ino0, owner) && i < |ino0| && ino0[i].addrs[TABLE] != 0
    requires Freed(sb, blk0, owner, i, blk, NDIRECT)
    ensures ino0[i].addrs[TABLE] < |blk| == |blk0| && blk[ino0[i].addrs[TABLE]] == blk0[ino0[i].addrs[TABLE]]
  {
    SlotRange(sb, blk0, ino0, owner, i, TABLE);
    DirectSlot(blk0, ino0[i], TABLE);
  }

  /** The next slot holds a block that is still marked, or none: "freeing free block" cannot happen. */
  lemma SlotStillMarked(sb: Super, blk0: seq<Block>, ino0: seq<Inode>, owner: Owners, i: nat, blk: seq<Block>, p: nat)
    requires Owned(sb, blk0, ino0, owner) && i < |ino0| && p < SLOTS
    requires Freed(sb, blk0, owner, i, blk, p)
    ensures var b := Slot(blk0, ino0[i], SlotAt(p));
            if b == 0 then Freed(sb, blk0, owner, i, blk, p + 1) else b < sb.size && Marked(sb, blk, b) && Layout(sb, blk)
  {
    var k := SlotAt(p);
    var b := Slot(blk0, ino0[i], k);
    forall l: nat | l < SLOTS
      ensures Done(p + 1, l) <==> Done(p, l) || l == k
    {
    }
    if b == 0 {
      assert forall x: nat :: x in owner ==> owner[x] != (i, k);
    } else {
      assert b as nat in owner && owner[b as nat] == (i, k);
    }
  }

  lemma FreedOneMore(sb: Super, blk0: seq<Block>, ino0: seq<Inode>, owner: Owners, i: nat, blk: seq<Block>, p: nat, blk': seq<Block>)
    requires Owned(sb, blk0, ino0, owner) && i < |ino0| && p < SLOTS
    requires Freed(sb, blk0, owner, i, blk, p) && Layout(sb, blk') && Slot(blk0, ino0[i], SlotAt(p)) != 0
    requires var b := Slot(blk0, ino0[i], SlotAt(p));
             MarksOneMore(sb, blk', blk, b) && forall c: nat :: c < sb.size && c != BBlock(sb, b) ==> blk'[c] == blk[c]
    ensures Freed(sb, blk0, owner, i, blk', p + 1)
  {
    MetadataRanges(sb, blk);
    var k := SlotAt(p);
    var b := Slot(blk0, ino0[i], k);
    assert b as nat in owner && owner[b as nat] == (i, k);
    assert forall x: nat :: x in owner && owner[x] == (i, k) ==> x == b;
    forall l: nat | l < SLOTS
      ensures Done(p + 1, l) <==> Done(p, l) || l == k
    {
    }
  }

  /** Without a table, no block is owned through it. */
  lemma EmptySlotsFreed(sb: Super, blk0: seq<Block>, ino0: seq<Inode>, owner: Owners, i: nat, blk: seq<Block>)
    requires Owned(sb, blk0, ino0, owner) && i < |ino0| && ino0[i].addrs[TABLE] == 0
    requires Freed(sb, blk0, owner, i, blk, NDIRECT)
    ensures Freed(sb, blk0, owner, i, blk, SLOTS)
  {
    forall x: nat | x in owner && owner[x].0 == i
      ensures owner[x].1 < NDIRECT
    {
      assert Slot(blk0, ino0[i], owner[x].1) == x;
    }
  }

  function Disowned(owner: Owners, i: nat): Owners {
    map b | b in owner && owner[b].0 != i :: owner[b]
  }

  /** With every slot freed, ownership is exact again once the inode is emptied. */
  lemma OwnedAfterFreeing(sb: Super, blk0: seq<Block>, ino0: seq<Inode>, owner0: Owners, i: nat, blk: seq<Block>, ino: seq<Inode>)
    requires Owned(sb, blk0, ino0, owner0) && i < |ino0| == |ino|
    requires Freed(sb, blk0, owner0, i, blk, SLOTS)
    requires forall l :: 0 <= l <= TABLE ==> ino[i].addrs[l] == 0
    requires forall j: nat :: j < |ino| && j != i ==> ino[j] == ino0[j]
    ensures forall j: nat, l: nat :: j < |ino| && l < SLOTS ==> Slot(blk, ino[j], l) == if j == i then 0 else Slot(blk0, ino0[j], l)
    ensures Owned(sb, blk, ino, Disowned(owner0, i))
  {
    forall j: nat, l: nat | j < |ino| && l < SLOTS
      ensures Slot(blk, ino[j], l) == if j == i then 0 else Slot(blk0, ino0[j], l)
    {
      SlotRange(sb, blk0, ino0, owner0, j, TABLE);
      DirectSlot(blk0, ino0[j], TABLE);
    }
    forall x: nat | x < sb.size
      ensures Marked(sb, blk, x) <==> x < sb.data || x in Disowned(owner0, i)
    {
      if x in owner0 {
        assert sb.data <= x && owner0[x].1 < SLOTS;
      }
    }
  }

  /** Emptying the inode, in memory and on disk, makes the file system sound, with the other files as before. */
  lemma AllFreed(sb: Super, blk0: seq<Block>, ino0: seq<Inode>, owner0: Owners, i: nat, blk: seq<Block>, ino: seq<Inode>, owner: Owners)
    requires Sound(sb, blk0, ino0, owner0) && i < |ino0| == |ino|
    requires Freed(sb, blk0, owner0, i, blk, SLOTS)
    requires ino[i].size == 0 && forall l :: 0 <= l <= TABLE ==> ino[i].addrs[l] == 0
    requires forall j: nat :: j < |ino| && j != i ==> ino[j] == ino0[j]
    requires owner == Disowned(owner0, i)
    ensures IBlock(sb, i) < |blk|
    ensures Sound(sb, Updated(sb, blk, i, ino[i]), ino, owner)
    ensures forall x: nat :: x < sb.size ==> (Marked(sb, Updated(sb, blk, i, ino[i]), x) <==>
              Marked(sb, blk0, x) && !(x in owner0 && owner0[x].0 == i))
    ensures forall j: nat :: j < |ino| && j != i ==>
              ino[j].size <= MAXFILE * BSIZE && Contents(Updated(sb, blk, i, ino[i]), ino[j]) == Contents(blk0, ino[j])
  {
    MetadataRanges(sb, blk);
    OwnedAfterFreeing(sb, blk0, ino0, owner0, i, blk, ino);
    FreedIsGrowing(sb, blk0, ino0, owner0, i, blk, ino, owner);
    EmptiedUpdate(sb, blk, ino, owner, i);
    var blk' := Updated(sb, blk, i, ino[i]);
    forall j: nat | j < |ino| && j != i
      ensures ino[j].size <= MAXFILE * BSIZE && Contents(blk', ino[j]) == Contents(blk0, ino[j])
    {
      SameBytes(sb, blk0, ino0, owner0, i, blk, ino, owner, j);
    }
    forall x: nat | x < sb.size
      ensures Marked(sb, blk', x) <==> Marked(sb, blk0, x) && !(x in owner0 && owner0[x].0 == i)
    {
      assert blk'[BBlock(sb, x)] == blk[BBlock(sb, x)];
      assert x in owner0 ==> owner0[x].1 < SLOTS;
    }
  }

  lemma FreedIsGrowing(sb: Super, blk0: seq<Block>, ino0: seq<Inode>, owner0: Owners, i: nat, blk: seq<Block>, ino: seq<Inode>, owner: Owners)
    requires Sound(sb, blk0, ino0, owner0) && i < |ino0| == |ino|
    requires Freed(sb, blk0, owner0, i, blk, SLOTS) && Owned(sb, blk, ino, owner)
    requires forall j: nat, l: nat :: j < |ino| && l < SLOTS ==> Slot(blk, ino[j], l) == if j == i then 0 else Slot(blk0, ino0[j], l)
    requires forall j: nat :: j < |ino| && j != i ==> ino[j] == ino0[j]
    requires ino[i].size == 0
    ensures forall j: nat :: j < |ino| && j != i ==> NoHoles(blk, ino[j]) && OnDisk(sb, blk, ino[j], j)
    ensures Holds(blk, ino[i], 0, false)
  {
    MetadataRanges(sb, blk);
    DirectSlot(blk, ino[i], TABLE);
    forall j: nat | j < |ino| && j != i
      ensures NoHoles(blk, ino[j]) && OnDisk(sb, blk, ino[j], j)
    {
      SameSlotsNoHoles(blk0, blk, ino[j]);
    }
  }

  /** iupdate of an emptied inode: whatever the disk still says of it, afterwards it agrees. */
  lemma EmptiedUpdate(sb: Super, blk: seq<Block>, ino: seq<Inode>, owner: Owners, i: nat)
    requires Owned(sb, blk, ino, owner) && |ino| == sb.ninodes && i < |ino| && ino[i].size == 0 && Holds(blk, ino[i], 0, false)
    requires forall j: nat :: j < |ino| && j != i ==> NoHoles(blk, ino[j]) && OnDisk(sb, blk, ino[j], j)
    ensures IBlock(sb, i) < |blk| && Sound(sb, Updated(sb, blk, i, ino[i]), ino, owner)
  {
    MetadataRanges(sb, blk);
    UpdateFrame(sb, blk, ino, owner, i, ino[i]);
    var blk' := Updated(sb, blk, i, ino[i]);
    forall j: nat | j < |ino|
      ensures NoHoles(blk', ino[j]) && OnDisk(sb, blk', ino[j], j)
    {
      DiskInodeAfterUpdate(sb, blk, i, ino[i], j);
      SameSlotsNoHoles(blk, blk', ino[j]);
    }
  }

  lemma SameBytes(sb: Super, blk0: seq<Block>, ino0: seq<Inode>, owner0: Owners, i: nat, blk: seq<Block>, ino: seq<Inode>, owner: Owners, j: nat)
    requires Sound(sb, blk0, ino0, owner0) && i < |ino0| == |ino| && j < |ino| && j != i && ino[j] == ino0[j]
    requires Freed(sb, blk0, owner0, i, blk, SLOTS) && Owned(sb, blk, ino, owner)
    requires forall l: nat :: l < SLOTS ==> Slot(blk, ino[j], l) == Slot(blk0, ino0[j], l)
    ensures ino[j].size <= MAXFILE * BSIZE
    ensures IBlock(sb, i) < |blk| && Contents(Updated(sb, blk, i, ino[i]), ino[j]) == Contents(blk0, ino[j])
  {
    UpdateFrame(sb, blk, ino, owner, i, ino[i]);
    forall p: nat | p < ino[j].size
      ensures ByteAt(Updated(sb, blk, i, ino[i]), ino[j], p) == ByteAt(blk0, ino[j], p)
    {
      SlotRange(sb, blk0, ino0, owner0, j, DataSlot(p / BSIZE));
      BlocksForBytes(ino[j].size, p);
      BytesAfterUpdate(sb, blk, ino, owner, i, ino[i], j, p);
    }
  }
}
