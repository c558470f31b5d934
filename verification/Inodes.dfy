/**
 The on-disk structures below files: the block bitmap, inodes with direct and
 indirect block lists, and who owns which block.

 Everything is a function of the latest contents of the blocks, as bread
 returns them, and of the in-memory inodes.
 */
module Inodes {
  import opened Machine
  import opened Blocks

  const NDIRECT: nat := 12
  const NINDIRECT: nat := WORDS
  const MAXFILE: nat := NDIRECT + NINDIRECT
  const IPB: nat := 8

  /** The superblock's numbers; data is the first block after the metadata. */
  datatype Super = Super(size: nat, ninodes: nat, inodestart: nat, bmapstart: nat, data: nat)

  datatype RawInode = Inode(size: nat, addrs: seq<Word>)
  type Inode = n: RawInode | |n.addrs| == NDIRECT + 1 && n.size < UINT
    witness Inode(0, seq(NDIRECT + 1, i => 0))

  predicate Layout(sb: Super, blk: seq<Block>) {
    && 0 < sb.inodestart
    && sb.inodestart + sb.ninodes / IPB < sb.bmapstart
    && 0 < sb.size < UINT
    && sb.bmapstart + (sb.size - 1) / BITS < sb.data <= sb.size
    && |blk| == sb.size
  }

  function IBlock(sb: Super, i: nat): nat {
    i / IPB + sb.inodestart
  }

  function BBlock(sb: Super, b: nat): nat {
    b / BITS + sb.bmapstart
  }

  lemma MetadataRanges(sb: Super, blk: seq<Block>)
    requires Layout(sb, blk)
    ensures forall i: nat :: i < sb.ninodes ==> 0 < IBlock(sb, i) < sb.bmapstart
    ensures forall b: nat :: b < sb.size ==> sb.bmapstart <= BBlock(sb, b) < sb.data
  {
    forall i: nat | i < sb.ninodes
      ensures IBlock(sb, i) < sb.bmapstart
    {
      assert i / IPB <= sb.ninodes / IPB;
    }
    forall b: nat | b < sb.size
      ensures BBlock(sb, b) < sb.data
    {
      assert b / BITS <= (sb.size - 1) / BITS;
    }
  }

  // ----- dinodes in their blocks

  function InodeAt(b: Block, j: nat): Inode
    requires j < IPB
  {
    Inode(WordAt(b, 16 * j + 2), GetWords(b, 16 * j + 3, NDIRECT + 1))
  }

  function PutInode(b: Block, j: nat, n: Inode): Block
    requires j < IPB
  {
    PutWords(PutWord(b, 16 * j + 2, n.size), 16 * j + 3, n.addrs, NDIRECT + 1)
  }

  lemma PutInodeWord(b: Block, j: nat, n: Inode, w: nat)
    requires j < IPB && w < WORDS
    ensures WordAt(PutInode(b, j, n), w)
         == if w == 16 * j + 2 then n.size else if 16 * j + 3 <= w < 16 * j + 16 then n.addrs[w - 16 * j - 3] else WordAt(b, w)
  {
    PutWordAt(b, 16 * j + 2, n.size, w);
    PutWordsAt(PutWord(b, 16 * j + 2, n.size), 16 * j + 3, n.addrs, NDIRECT + 1, w);
  }

  lemma PutInodeAt(b: Block, j: nat, n: Inode, l: nat)
    requires j < IPB && l < IPB
    ensures InodeAt(PutInode(b, j, n), l) == if l == j then n else InodeAt(b, l)
  {
    var c, at, m := PutInode(b, j, n), 16 * l + 3, NDIRECT + 1;
    PutInodeWord(b, j, n, 16 * l + 2);
    forall k: nat | k < m
      ensures GetWords(c, at, m)[k] == if l == j then n.addrs[k] else GetWords(b, at, m)[k]
    {
      PutInodeWord(b, j, n, at + k);
      GetWordsAt(c, at, m, k);
      GetWordsAt(b, at, m, k);
    }
    assert GetWords(c, at, m) == if l == j then n.addrs else GetWords(b, at, m);
  }

  /** The inode as the disk has it. */
  function DiskInode(sb: Super, blk: seq<Block>, i: nat): Inode
    requires IBlock(sb, i) < |blk|
  {
    InodeAt(blk[IBlock(sb, i)], i % IPB)
  }

  // ----- the bitmap

  predicate Marked(sb: Super, blk: seq<Block>, b: nat) {
    BBlock(sb, b) < |blk| && BitAt(blk[BBlock(sb, b)], b % BITS)
  }

  /** The bitmaps agree except that b is marked in the second only. */
  ghost predicate MarksOneMore(sb: Super, blk: seq<Block>, blk': seq<Block>, b: nat) {
    && b < sb.size && !Marked(sb, blk, b)
    && forall x: nat :: x < sb.size ==> (Marked(sb, blk', x) <==> x == b || Marked(sb, blk, x))
  }

  ghost predicate SameMarks(sb: Super, blk: seq<Block>, blk': seq<Block>) {
    forall x: nat :: x < sb.size ==> (Marked(sb, blk', x) <==> Marked(sb, blk, x))
  }

  lemma MarkOne(sb: Super, blk: seq<Block>, b: nat)
    requires Layout(sb, blk) && b < sb.size && BBlock(sb, b) < sb.size && !Marked(sb, blk, b)
    ensures MarksOneMore(sb, blk, blk[BBlock(sb, b) := SetBit(blk[BBlock(sb, b)], b % BITS)], b)
  {
    MetadataRanges(sb, blk);
    var blk' := blk[BBlock(sb, b) := SetBit(blk[BBlock(sb, b)], b % BITS)];
    forall x: nat | x < sb.size
      ensures Marked(sb, blk', x) <==> x == b || Marked(sb, blk, x)
    {
      if BBlock(sb, x) == BBlock(sb, b) {
        SetBitAt(blk[BBlock(sb, b)], b % BITS, x % BITS);
      }
    }
  }

  lemma UnmarkOne(sb: Super, blk: seq<Block>, b: nat)
    requires Layout(sb, blk) && b < sb.size && BBlock(sb, b) < sb.size && Marked(sb, blk, b)
    ensures MarksOneMore(sb, blk[BBlock(sb, b) := ClearBit(blk[BBlock(sb, b)], b % BITS)], blk, b)
  {
    MetadataRanges(sb, blk);
    var blk' := blk[BBlock(sb, b) := ClearBit(blk[BBlock(sb, b)], b % BITS)];
    forall x: nat | x < sb.size
      ensures Marked(sb, blk, x) <==> x == b || Marked(sb, blk', x)
      ensures !Marked(sb, blk', b)
    {
      ClearBitAt(blk[BBlock(sb, b)], b % BITS, b % BITS);
      if BBlock(sb, x) == BBlock(sb, b) {
        ClearBitAt(blk[BBlock(sb, b)], b % BITS, x % BITS);
      }
    }
  }

  // ----- the slots of an inode

  const TABLE: nat := NDIRECT           // the slot of the indirect table
  const SLOTS: nat := MAXFILE + 1

  /** The block number in the k-th slot: direct ones, the table, then the table's entries; 0 for none. */
  function Slot(blk: seq<Block>, n: Inode, k: nat): Word
    requires k < SLOTS
  {
    if k <= TABLE then n.addrs[k]
    else if n.addrs[TABLE] == 0 || n.addrs[TABLE] >= |blk| then 0
    else WordAt(blk[n.addrs[TABLE]], k - TABLE - 1)
  }

  /** The slot of the bn-th block of a file. */
  function DataSlot(bn: nat): (k: nat)
    requires bn < MAXFILE
    ensures k < SLOTS && k != TABLE
  {
    if bn < NDIRECT then bn else bn + 1
  }

  /** Blocks 0 to m - 1 of the file are there and no others; the indirect table is there or not. */
  ghost predicate Holds(blk: seq<Block>, n: Inode, m: nat, table: bool) {
    && m <= MAXFILE
    && (forall bn: nat :: bn < MAXFILE ==> (Slot(blk, n, DataSlot(bn)) != 0 <==> bn < m))
    && (n.addrs[TABLE] != 0 <==> table)
  }

  function BlocksFor(size: nat): nat {
    (size + BSIZE - 1) / BSIZE
  }

  /** No holes: exactly the blocks that the size needs. */
  ghost predicate NoHoles(blk: seq<Block>, n: Inode) {
    n.size <= MAXFILE * BSIZE && Holds(blk, n, BlocksFor(n.size), BlocksFor(n.size) > NDIRECT)
  }

  predicate OnDisk(sb: Super, blk: seq<Block>, n: Inode, i: nat) {
    IBlock(sb, i) < |blk| && DiskInode(sb, blk, i) == n
  }

  // ----- ownership

  type Owners = map<nat, (nat, nat)>

  ghost predicate SlotsOwned(blk: seq<Block>, ino: seq<Inode>, owner: Owners) {
    forall i: nat, k: nat :: i < |ino| && k < SLOTS && Slot(blk, ino[i], k) != 0 ==>
      Slot(blk, ino[i], k) as nat in owner && owner[Slot(blk, ino[i], k) as nat] == (i, k)
  }

  ghost predicate OwnersHold(sb: Super, blk: seq<Block>, ino: seq<Inode>, owner: Owners) {
    forall b: nat :: b in owner ==>
      && sb.data <= b < sb.size
      && owner[b].0 < |ino| && owner[b].1 < SLOTS
      && Slot(blk, ino[owner[b].0], owner[b].1) == b
  }

  ghost predicate MarksOwned(sb: Super, blk: seq<Block>, owner: Owners) {
    forall b: nat :: b < sb.size ==> (Marked(sb, blk, b) <==> b < sb.data || b in owner)
  }

  /**
   Every marked data block is in exactly one slot of one inode, every slot
   holds a marked data block, and the metadata is marked.
   */
  ghost predicate Owned(sb: Super, blk: seq<Block>, ino: seq<Inode>, owner: Owners) {
    && Layout(sb, blk) && |ino| <= sb.ninodes
    && SlotsOwned(blk, ino, owner)
    && OwnersHold(sb, blk, ino, owner)
    && MarksOwned(sb, blk, owner)
  }

  /** A freshly allocated block stored in an empty slot keeps ownership exact. */
  lemma OwnedAfterGiving(sb: Super, blk: seq<Block>, ino: seq<Inode>, owner: Owners,
                         blk': seq<Block>, ino': seq<Inode>, b: nat, i: nat, k: nat)
    requires Owned(sb, blk, ino, owner) && Layout(sb, blk') && |ino'| == |ino|
    requires MarksOneMore(sb, blk, blk', b)
    requires i < |ino| && k < SLOTS && Slot(blk, ino[i], k) == 0 && b != 0
    requires forall j: nat, l: nat :: j < |ino| && l < SLOTS ==>
               Slot(blk', ino'[j], l) == if j == i && l == k then b else Slot(blk, ino[j], l)
    ensures Owned(sb, blk', ino', owner[b := (i, k)])
  {
    MetadataRanges(sb, blk);
    assert b !in owner && sb.data <= b;
  }

  /** Slots and marks unchanged, so is ownership. */
  lemma OwnedIfAlike(sb: Super, blk: seq<Block>, ino: seq<Inode>, owner: Owners, blk': seq<Block>, ino': seq<Inode>)
    requires Owned(sb, blk, ino, owner) && Layout(sb, blk') && |ino'| == |ino|
    requires SameMarks(sb, blk, blk')
    requires forall j: nat, l: nat :: j < |ino| && l < SLOTS ==> Slot(blk', ino'[j], l) == Slot(blk, ino[j], l)
    ensures Owned(sb, blk', ino', owner)
  {
  }

  /** No block is in two slots. */
  lemma SlotsDiffer(sb: Super, blk: seq<Block>, ino: seq<Inode>, owner: Owners, i: nat, k: nat, j: nat, l: nat)
    requires Owned(sb, blk, ino, owner)
    requires i < |ino| && k < SLOTS && j < |ino| && l < SLOTS && (i, k) != (j, l)
    ensures Slot(blk, ino[i], k) != 0 ==> Slot(blk, ino[i], k) != Slot(blk, ino[j], l)
  {
  }

  lemma SlotRange(sb: Super, blk: seq<Block>, ino: seq<Inode>, owner: Owners, i: nat, k: nat)
    requires Owned(sb, blk, ino, owner) && i < |ino| && k < SLOTS
    ensures Slot(blk, ino[i], k) != 0 ==> sb.data <= Slot(blk, ino[i], k) < sb.size
  {
  }

  // ----- frames: what one allocation or one write leaves alone

  /** blk' is blk after balloc returned b: marked, zeroed, and no other data or inode block changed. */
  ghost predicate Allocated(sb: Super, blk: seq<Block>, blk': seq<Block>, b: nat) {
    && Layout(sb, blk) && Layout(sb, blk')
    && MarksOneMore(sb, blk, blk', b) && blk'[b] == Zeros()
    && (forall c: nat :: sb.data <= c < sb.size && c != b ==> blk'[c] == blk[c])
    && (forall c: nat :: c < sb.bmapstart ==> blk'[c] == blk[c])
  }

  lemma SlotsAfterAlloc(sb: Super, blk: seq<Block>, ino: seq<Inode>, owner: Owners, blk': seq<Block>, b: nat, j: nat, l: nat)
    requires Owned(sb, blk, ino, owner) && Allocated(sb, blk, blk', b) && j < |ino| && l < SLOTS
    ensures sb.data <= b && Slot(blk', ino[j], l) == Slot(blk, ino[j], l)
    ensures Slot(blk, ino[j], l) != b
  {
    MetadataRanges(sb, blk);
    assert b !in owner;
    if Slot(blk, ino[j], TABLE) != 0 {
      assert Slot(blk, ino[j], TABLE) as nat in owner;
    }
    if Slot(blk, ino[j], l) != 0 {
      assert Slot(blk, ino[j], l) as nat in owner;
    }
  }

  function SetAddr(ino: seq<Inode>, i: nat, k: nat, b: Word): (ino': seq<Inode>)
    requires i < |ino| && k <= TABLE
    ensures |ino'| == |ino|
  {
    ino[i := Inode(ino[i].size, ino[i].addrs[k := b])]
  }

  /** An allocated block put into an empty direct slot or the empty table slot. */
  lemma OwnedAfterSetAddr(sb: Super, blk: seq<Block>, ino: seq<Inode>, owner: Owners, blk': seq<Block>, b: Word, i: nat, k: nat)
    requires Owned(sb, blk, ino, owner) && Allocated(sb, blk, blk', b)
    requires i < |ino| && k <= TABLE && Slot(blk, ino[i], k) == 0
    ensures Owned(sb, blk', SetAddr(ino, i, k, b), owner[b as nat := (i, k)])
    ensures forall j: nat, l: nat :: j < |ino| && l < SLOTS ==>
              Slot(blk', SetAddr(ino, i, k, b)[j], l) == if j == i && l == k then b else Slot(blk, ino[j], l)
  {
    var ino' := SetAddr(ino, i, k, b);
    SlotsAfterAlloc(sb, blk, ino, owner, blk', b, i, k);
    forall j: nat, l: nat | j < |ino| && l < SLOTS
      ensures Slot(blk', ino'[j], l) == if j == i && l == k then b else Slot(blk, ino[j], l)
    {
      SlotsAfterAlloc(sb, blk, ino, owner, blk', b, j, l);
      if j == i && k == TABLE && l > TABLE {
        ZeroWord(l - TABLE - 1);
      }
    }
    OwnedAfterGiving(sb, blk, ino, owner, blk', ino', b, i, k);
  }

  /** The block of an inode's table with one entry changed. */
  function SetEntry(blk: seq<Block>, t: nat, e: nat, b: Word): seq<Block>
    requires t < |blk| && e < NINDIRECT
  {
    blk[t := PutWord(blk[t], e, b)]
  }

  lemma SlotAfterSetEntry(sb: Super, blk: seq<Block>, ino: seq<Inode>, owner: Owners, blk': seq<Block>, b: Word,
                          i: nat, e: nat, j: nat, l: nat)
    requires Owned(sb, blk, ino, owner) && Allocated(sb, blk, blk', b)
    requires i < |ino| && e < NINDIRECT && 0 != ino[i].addrs[TABLE] && j < |ino| && l < SLOTS
    ensures sb.data <= ino[i].addrs[TABLE] < sb.size && ino[i].addrs[TABLE] != b
    ensures Slot(SetEntry(blk', ino[i].addrs[TABLE], e, b), ino[j], l)
            == if j == i && l == TABLE + 1 + e then b else Slot(blk, ino[j], l)
  {
    var t := ino[i].addrs[TABLE];
    assert t == Slot(blk, ino[i], TABLE);
    SlotRange(sb, blk, ino, owner, i, TABLE);
    SlotsAfterAlloc(sb, blk, ino, owner, blk', b, i, TABLE);
    SlotsAfterAlloc(sb, blk, ino, owner, blk', b, j, l);
    if l > TABLE {
      PutWordAt(blk'[t], e, b, l - TABLE - 1);
      if j != i {
        SlotsDiffer(sb, blk, ino, owner, i, TABLE, j, TABLE);
        assert ino[j].addrs[TABLE] == Slot(blk, ino[j], TABLE) != t;
      }
    }
  }

  /** An allocated block put into an empty entry of the table. */
  lemma OwnedAfterSetEntry(sb: Super, blk: seq<Block>, ino: seq<Inode>, owner: Owners, blk': seq<Block>, b: Word, i: nat, e: nat)
    requires Owned(sb, blk, ino, owner) && Allocated(sb, blk, blk', b)
    requires i < |ino| && e < NINDIRECT && 0 != ino[i].addrs[TABLE] < sb.size && Slot(blk, ino[i], TABLE + 1 + e) == 0
    ensures Owned(sb, SetEntry(blk', ino[i].addrs[TABLE], e, b), ino, owner[b as nat := (i, TABLE + 1 + e)])
    ensures forall j: nat, l: nat :: j < |ino| && l < SLOTS ==>
              Slot(SetEntry(blk', ino[i].addrs[TABLE], e, b), ino[j], l)
              == if j == i && l == TABLE + 1 + e then b else Slot(blk, ino[j], l)
  {
    var t := ino[i].addrs[TABLE];
    var blk'' := SetEntry(blk', t, e, b);
    forall j: nat, l: nat | j < |ino| && l < SLOTS
      ensures Slot(blk'', ino[j], l) == if j == i && l == TABLE + 1 + e then b else Slot(blk, ino[j], l)
    {
      SlotAfterSetEntry(sb, blk, ino, owner, blk', b, i, e, j, l);
    }
    SlotAfterSetEntry(sb, blk, ino, owner, blk', b, i, e, i, TABLE);
    SlotsAfterAlloc(sb, blk, ino, owner, blk', b, i, TABLE);
    DataWriteKeepsMarks(sb, blk', t, blk''[t]);
    OwnedAfterGiving(sb, blk, ino, owner, blk'', ino, b, i, TABLE + 1 + e);
  }

  lemma DataWriteKeepsMarks(sb: Super, blk: seq<Block>, c: nat, x: Block)
    requires Layout(sb, blk) && sb.data <= c < sb.size
    ensures SameMarks(sb, blk, blk[c := x])
  {
    MetadataRanges(sb, blk);
  }

  // ----- files as byte sequences

  function ByteAt(blk: seq<Block>, n: Inode, off: nat): Byte
    requires off < MAXFILE * BSIZE
  {
    var b := Slot(blk, n, DataSlot(off / BSIZE));
    if b < |blk| then blk[b][off % BSIZE] else 0
  }

  /** What a file contains. */
  function Contents(blk: seq<Block>, n: Inode): (s: seq<Byte>)
    requires n.size <= MAXFILE * BSIZE
    ensures |s| == n.size
  {
    seq(n.size, off requires 0 <= off < n.size => ByteAt(blk, n, off))
  }

  /** s after src was written over it from off on. */
  function Splice(s: seq<Byte>, off: nat, src: seq<Byte>): seq<Byte>
    requires off <= |s|
  {
    if |s| <= off + |src| then s[..off] + src else s[..off] + src + s[off + |src|..]
  }

  /** The block that holds a byte of a file, if it has one. */
  function Home(blk: seq<Block>, n: Inode, off: nat): Word
    requires off < MAXFILE * BSIZE
  {
    Slot(blk, n, DataSlot(off / BSIZE))
  }

  /** Every byte that has a block keeps its value when another block is given to some file. */
  lemma BytesAfterSetAddr(sb: Super, blk: seq<Block>, ino: seq<Inode>, owner: Owners, blk': seq<Block>, b: Word, i: nat, k: nat,
                          j: nat, off: nat)
    requires Owned(sb, blk, ino, owner) && Allocated(sb, blk, blk', b)
    requires i < |ino| && k <= TABLE && Slot(blk, ino[i], k) == 0
    requires j < |ino| && off < MAXFILE * BSIZE && Home(blk, ino[j], off) != 0
    ensures ByteAt(blk', SetAddr(ino, i, k, b)[j], off) == ByteAt(blk, ino[j], off)
  {
    OwnedAfterSetAddr(sb, blk, ino, owner, blk', b, i, k);
    SlotsAfterAlloc(sb, blk, ino, owner, blk', b, j, DataSlot(off / BSIZE));
    SlotRange(sb, blk, ino, owner, j, DataSlot(off / BSIZE));
  }

  lemma BytesAfterSetEntry(sb: Super, blk: seq<Block>, ino: seq<Inode>, owner: Owners, blk': seq<Block>, b: Word, i: nat, e: nat,
                           j: nat, off: nat)
    requires Owned(sb, blk, ino, owner) && Allocated(sb, blk, blk', b)
    requires i < |ino| && e < NINDIRECT && 0 != ino[i].addrs[TABLE] < sb.size && Slot(blk, ino[i], TABLE + 1 + e) == 0
    requires j < |ino| && off < MAXFILE * BSIZE && Home(blk, ino[j], off) != 0
    ensures ByteAt(SetEntry(blk', ino[i].addrs[TABLE], e, b), ino[j], off) == ByteAt(blk, ino[j], off)
  {
    SlotAfterSetEntry(sb, blk, ino, owner, blk', b, i, e, j, DataSlot(off / BSIZE));
    SlotsAfterAlloc(sb, blk, ino, owner, blk', b, j, DataSlot(off / BSIZE));
    SlotRange(sb, blk, ino, owner, j, DataSlot(off / BSIZE));
    SlotsDiffer(sb, blk, ino, owner, j, DataSlot(off / BSIZE), i, TABLE);
    assert Slot(blk, ino[i], TABLE) == ino[i].addrs[TABLE];
  }

  /** Writing a data block of one file changes no slot, no mark and no inode on disk. */
  lemma DataWriteFrame(sb: Super, blk: seq<Block>, ino: seq<Inode>, owner: Owners, i: nat, bn: nat, x: Block)
    requires Owned(sb, blk, ino, owner) && i < |ino| && bn < MAXFILE && Slot(blk, ino[i], DataSlot(bn)) != 0
    ensures var c := Slot(blk, ino[i], DataSlot(bn));
            && sb.data <= c < sb.size
            && Owned(sb, blk[c := x], ino, owner)
            && (forall j: nat, l: nat :: j < |ino| && l < SLOTS ==> Slot(blk[c := x], ino[j], l) == Slot(blk, ino[j], l))
            && (forall d: nat :: d < sb.bmapstart ==> blk[c := x][d] == blk[d])
  {
    var c := Slot(blk, ino[i], DataSlot(bn));
    SlotRange(sb, blk, ino, owner, i, DataSlot(bn));
    forall j: nat, l: nat | j < |ino| && l < SLOTS
      ensures Slot(blk[c := x], ino[j], l) == Slot(blk, ino[j], l)
    {
      SlotsDiffer(sb, blk, ino, owner, i, DataSlot(bn), j, TABLE);
      assert Slot(blk, ino[j], TABLE) == ino[j].addrs[TABLE];
    }
    DataWriteKeepsMarks(sb, blk, c, x);
    OwnedIfAlike(sb, blk, ino, owner, blk[c := x], ino);
  }

  lemma BytesAfterDataWrite(sb: Super, blk: seq<Block>, ino: seq<Inode>, owner: Owners, i: nat, bn: nat, x: Block, j: nat, off: nat)
    requires Owned(sb, blk, ino, owner) && i < |ino| && bn < MAXFILE && Slot(blk, ino[i], DataSlot(bn)) != 0
    requires j < |ino| && off < MAXFILE * BSIZE
    ensures var c := Slot(blk, ino[i], DataSlot(bn));
            && c < |blk|
            && ByteAt(blk[c := x], ino[j], off)
               == if j == i && off / BSIZE == bn then x[off % BSIZE] else ByteAt(blk, ino[j], off)
  {
    DataWriteFrame(sb, blk, ino, owner, i, bn, x);
    if j != i || off / BSIZE != bn {
      SlotsDiffer(sb, blk, ino, owner, i, DataSlot(bn), j, DataSlot(off / BSIZE));
    }
  }

  /** What iupdate does to the blocks. */
  function Updated(sb: Super, blk: seq<Block>, i: nat, n: Inode): (blk': seq<Block>)
    requires IBlock(sb, i) < |blk|
    ensures |blk'| == |blk|
  {
    blk[IBlock(sb, i) := PutInode(blk[IBlock(sb, i)], i % IPB, n)]
  }

  /** Writing an inode back changes that inode on disk and nothing else. */
  lemma UpdateFrame(sb: Super, blk: seq<Block>, ino: seq<Inode>, owner: Owners, i: nat, n: Inode)
    requires Owned(sb, blk, ino, owner) && i < |ino|
    ensures IBlock(sb, i) < sb.bmapstart < |blk|
    ensures var blk' := Updated(sb, blk, i, n);
            && Owned(sb, blk', ino, owner)
            && (forall c: nat :: sb.bmapstart <= c < sb.size ==> blk'[c] == blk[c])
            && (forall j: nat, l: nat :: j < |ino| && l < SLOTS ==> Slot(blk', ino[j], l) == Slot(blk, ino[j], l))
  {
    MetadataRanges(sb, blk);
    var blk' := Updated(sb, blk, i, n);
    forall j: nat, l: nat | j < |ino| && l < SLOTS
      ensures Slot(blk', ino[j], l) == Slot(blk, ino[j], l)
    {
      SlotRange(sb, blk, ino, owner, j, TABLE);
      assert Slot(blk, ino[j], TABLE) == ino[j].addrs[TABLE];
    }
    OwnedIfAlike(sb, blk, ino, owner, blk', ino);
  }

  lemma DiskInodeAfterUpdate(sb: Super, blk: seq<Block>, i: nat, n: Inode, j: nat)
    requires Layout(sb, blk) && i < sb.ninodes && j < sb.ninodes
    ensures IBlock(sb, i) < |blk| && IBlock(sb, j) < |blk|
    ensures DiskInode(sb, Updated(sb, blk, i, n), j) == if j == i then n else DiskInode(sb, blk, j)
  {
    MetadataRanges(sb, blk);
    if IBlock(sb, i) == IBlock(sb, j) {
      PutInodeAt(blk[IBlock(sb, i)], i % IPB, n, j % IPB);
    }
  }

  lemma BytesAfterUpdate(sb: Super, blk: seq<Block>, ino: seq<Inode>, owner: Owners, i: nat, n: Inode, j: nat, off: nat)
    requires Owned(sb, blk, ino, owner) && i < |ino| && j < |ino| && off < MAXFILE * BSIZE && Home(blk, ino[j], off) != 0
    ensures IBlock(sb, i) < |blk|
    ensures ByteAt(Updated(sb, blk, i, n), ino[j], off) == ByteAt(blk, ino[j], off)
  {
    UpdateFrame(sb, blk, ino, owner, i, n);
    SlotRange(sb, blk, ino, owner, j, DataSlot(off / BSIZE));
  }

  // ----- the state while one file is being extended

  /**
   File i holds m blocks, perhaps more than its size needs; all other files are
   whole and on disk as in memory, and so is file i as long as it has no extra
   block.
   */
  ghost predicate Growing(sb: Super, blk: seq<Block>, ino: seq<Inode>, owner: Owners, i: nat, m: nat, table: bool) {
    && Owned(sb, blk, ino, owner) && |ino| == sb.ninodes && i < |ino|
    && (forall j: nat :: j < |ino| && j != i ==> NoHoles(blk, ino[j]) && OnDisk(sb, blk, ino[j], j))
    && ino[i].size <= MAXFILE * BSIZE && BlocksFor(ino[i].size) <= m
    && Holds(blk, ino[i], m, table)
    && (m == BlocksFor(ino[i].size) && table == (m > NDIRECT) ==> OnDisk(sb, blk, ino[i], i))
  }

  /** Every file whole, every inode on disk as in memory, every block owned. */
  ghost predicate Sound(sb: Super, blk: seq<Block>, ino: seq<Inode>, owner: Owners) {
    && Owned(sb, blk, ino, owner) && |ino| == sb.ninodes
    && forall j: nat :: j < |ino| ==> NoHoles(blk, ino[j]) && OnDisk(sb, blk, ino[j], j)
  }

  lemma SoundIsGrowing(sb: Super, blk: seq<Block>, ino: seq<Inode>, owner: Owners, i: nat)
    requires Sound(sb, blk, ino, owner) && i < |ino|
    ensures var m := BlocksFor(ino[i].size); Growing(sb, blk, ino, owner, i, m, m > NDIRECT)
  {
  }

  lemma GrownIsSound(sb: Super, blk: seq<Block>, ino: seq<Inode>, owner: Owners, i: nat)
    requires i < |ino|
    requires var m := BlocksFor(ino[i].size); Growing(sb, blk, ino, owner, i, m, m > NDIRECT)
    ensures Sound(sb, blk, ino, owner)
  {
  }

  /** Bytes that have a block keep it and their value. */
  ghost predicate BytesKept(blk: seq<Block>, ino: seq<Inode>, blk': seq<Block>, ino': seq<Inode>) {
    && |ino'| == |ino|
    && forall j: nat, off: nat :: j < |ino| && off < MAXFILE * BSIZE && Home(blk, ino[j], off) != 0 ==>
         ByteAt(blk', ino'[j], off) == ByteAt(blk, ino[j], off)
  }

  /** Sizes and all other inodes stay. */
  ghost predicate OnlyAddrs(ino: seq<Inode>, ino': seq<Inode>, i: nat) {
    && |ino'| == |ino| && i < |ino| && ino'[i].size == ino[i].size
    && forall j: nat :: j < |ino| && j != i ==> ino'[j] == ino[j]
  }

  lemma GrowDirect(sb: Super, blk: seq<Block>, ino: seq<Inode>, owner: Owners, i: nat, m: nat, blk': seq<Block>, b: Word)
    requires Growing(sb, blk, ino, owner, i, m, false) && m < NDIRECT && Allocated(sb, blk, blk', b)
    ensures var ino' := SetAddr(ino, i, m, b);
            && Growing(sb, blk', ino', owner[b as nat := (i, m)], i, m + 1, false)
            && BytesKept(blk, ino, blk', ino') && OnlyAddrs(ino, ino', i)
            && b == Slot(blk', ino'[i], DataSlot(m)) != 0
  {
    var ino' := SetAddr(ino, i, m, b);
    assert Slot(blk, ino[i], DataSlot(m)) == 0;
    GrowByAddr(sb, blk, ino, owner, i, m, blk', b);
    assert Slot(blk', ino'[i], TABLE) == Slot(blk, ino[i], TABLE);
  }

  lemma GrowTable(sb: Super, blk: seq<Block>, ino: seq<Inode>, owner: Owners, i: nat, blk': seq<Block>, b: Word)
    requires Growing(sb, blk, ino, owner, i, NDIRECT, false) && Allocated(sb, blk, blk', b)
    ensures var ino' := SetAddr(ino, i, TABLE, b);
            && Growing(sb, blk', ino', owner[b as nat := (i, TABLE)], i, NDIRECT, true)
            && BytesKept(blk, ino, blk', ino') && OnlyAddrs(ino, ino', i)
            && b == ino'[i].addrs[TABLE]
  {
    GrowByAddr(sb, blk, ino, owner, i, TABLE, blk', b);
  }

  /** What the two cases of setting an address share. */
  lemma GrowByAddr(sb: Super, blk: seq<Block>, ino: seq<Inode>, owner: Owners, i: nat, k: nat, blk': seq<Block>, b: Word)
    requires Owned(sb, blk, ino, owner) && |ino| == sb.ninodes && i < |ino| && k <= TABLE && Slot(blk, ino[i], k) == 0
    requires forall j: nat :: j < |ino| && j != i ==> NoHoles(blk, ino[j]) && OnDisk(sb, blk, ino[j], j)
    requires Allocated(sb, blk, blk', b)
    ensures var ino' := SetAddr(ino, i, k, b);
            && Owned(sb, blk', ino', owner[b as nat := (i, k)]) && b != 0
            && BytesKept(blk, ino, blk', ino') && OnlyAddrs(ino, ino', i)
            && (forall j: nat :: j < |ino| && j != i ==> NoHoles(blk', ino'[j]) && OnDisk(sb, blk', ino'[j], j))
            && (forall l: nat :: l < SLOTS ==> Slot(blk', ino'[i], l) == if l == k then b else Slot(blk, ino[i], l))
  {
    var ino' := SetAddr(ino, i, k, b);
    OwnedAfterSetAddr(sb, blk, ino, owner, blk', b, i, k);
    SlotsAfterAlloc(sb, blk, ino, owner, blk', b, i, k);
    forall j: nat, off: nat | j < |ino| && off < MAXFILE * BSIZE && Home(blk, ino[j], off) != 0
      ensures ByteAt(blk', ino'[j], off) == ByteAt(blk, ino[j], off)
    {
      BytesAfterSetAddr(sb, blk, ino, owner, blk', b, i, k, j, off);
    }
    MetadataRanges(sb, blk);
    forall j: nat | j < |ino| && j != i
      ensures NoHoles(blk', ino'[j]) && OnDisk(sb, blk', ino'[j], j)
    {
      SameSlotsNoHoles(blk, blk', ino[j]);
    }
  }

  lemma GrowingTable(sb: Super, blk: seq<Block>, ino: seq<Inode>, owner: Owners, i: nat, m: nat)
    requires Growing(sb, blk, ino, owner, i, m, true)
    ensures 0 != ino[i].addrs[TABLE] < |blk|
    ensures forall bn: nat :: NDIRECT <= bn < MAXFILE ==>
              WordAt(blk[ino[i].addrs[TABLE]], bn - NDIRECT) == Slot(blk, ino[i], DataSlot(bn))
    ensures forall bn: nat :: NDIRECT <= bn < MAXFILE ==> (Slot(blk, ino[i], DataSlot(bn)) == 0 <==> bn >= m)
  {
    SlotRange(sb, blk, ino, owner, i, TABLE);
  }

  lemma SameSlotsNoHoles(blk: seq<Block>, blk': seq<Block>, n: Inode)
    requires NoHoles(blk, n) && forall l: nat :: l < SLOTS ==> Slot(blk', n, l) == Slot(blk, n, l)
    ensures NoHoles(blk', n)
  {
  }

  lemma GrowEntry(sb: Super, blk: seq<Block>, ino: seq<Inode>, owner: Owners, i: nat, m: nat, blk': seq<Block>, b: Word)
    requires Growing(sb, blk, ino, owner, i, m, true) && NDIRECT <= m < MAXFILE && Allocated(sb, blk, blk', b)
    ensures 0 != ino[i].addrs[TABLE] < |blk'| && blk'[ino[i].addrs[TABLE]] == blk[ino[i].addrs[TABLE]]
    ensures var blk'' := SetEntry(blk', ino[i].addrs[TABLE], m - NDIRECT, b);
            && Growing(sb, blk'', ino, owner[b as nat := (i, DataSlot(m))], i, m + 1, true)
            && BytesKept(blk, ino, blk'', ino)
            && b == Slot(blk'', ino[i], DataSlot(m)) != 0
  {
    var e := m - NDIRECT;
    assert Slot(blk, ino[i], DataSlot(m)) == 0;
    SlotAfterSetEntry(sb, blk, ino, owner, blk', b, i, e, i, TABLE);
    OwnedAfterSetEntry(sb, blk, ino, owner, blk', b, i, e);
    SlotsAfterAlloc(sb, blk, ino, owner, blk', b, i, TABLE);
    var blk'' := SetEntry(blk', ino[i].addrs[TABLE], e, b);
    forall j: nat, off: nat | j < |ino| && off < MAXFILE * BSIZE && Home(blk, ino[j], off) != 0
      ensures ByteAt(blk'', ino[j], off) == ByteAt(blk, ino[j], off)
    {
      BytesAfterSetEntry(sb, blk, ino, owner, blk', b, i, e, j, off);
    }
    MetadataRanges(sb, blk);
    forall j: nat | j < |ino| && j != i
      ensures NoHoles(blk'', ino[j]) && OnDisk(sb, blk'', ino[j], j)
    {
      SameSlotsNoHoles(blk, blk'', ino[j]);
    }
  }

  /** Writing one data block of file i keeps everything sound. */
  lemma GrowingDataWrite(sb: Super, blk: seq<Block>, ino: seq<Inode>, owner: Owners, i: nat, m: nat, table: bool, bn: nat, x: Block)
    requires Growing(sb, blk, ino, owner, i, m, table) && bn < m
    ensures var c := Slot(blk, ino[i], DataSlot(bn));
            0 != c < |blk| && Growing(sb, blk[c := x], ino, owner, i, m, table)
  {
    var c := Slot(blk, ino[i], DataSlot(bn));
    DataWriteFrame(sb, blk, ino, owner, i, bn, x);
    MetadataRanges(sb, blk);
    forall j: nat | j < |ino| && j != i
      ensures NoHoles(blk[c := x], ino[j]) && OnDisk(sb, blk[c := x], ino[j], j)
    {
      SameSlotsNoHoles(blk, blk[c := x], ino[j]);
    }
  }

  /** From blk to blk', block bn of file i became x, and no other byte of any file changed. */
  ghost predicate OneBlockChanged(blk: seq<Block>, blk': seq<Block>, ino: seq<Inode>, i: nat, bn: nat, x: Block) {
    forall j: nat, off: nat :: j < |ino| && off < MAXFILE * BSIZE ==>
      ByteAt(blk', ino[j], off) == ByteOf(blk, ino, i, bn, x, j, off)
  }

  function ByteOf(blk: seq<Block>, ino: seq<Inode>, i: nat, bn: nat, x: Block, j: nat, off: nat): Byte
    requires j < |ino| && off < MAXFILE * BSIZE
  {
    if j == i && off / BSIZE == bn then x[off % BSIZE] else ByteAt(blk, ino[j], off)
  }

  lemma BytesAfterWrite(sb: Super, blk: seq<Block>, ino: seq<Inode>, owner: Owners, i: nat, bn: nat, x: Block)
    requires Owned(sb, blk, ino, owner) && i < |ino| && bn < MAXFILE && Slot(blk, ino[i], DataSlot(bn)) != 0
    ensures var c := Slot(blk, ino[i], DataSlot(bn));
            c < |blk| && OneBlockChanged(blk, blk[c := x], ino, i, bn, x)
  {
    var c := Slot(blk, ino[i], DataSlot(bn));
    SlotRange(sb, blk, ino, owner, i, DataSlot(bn));
    var blk' := blk[c := x];
    forall j: nat, off: nat | j < |ino| && off < MAXFILE * BSIZE
      ensures ByteAt(blk', ino[j], off) == ByteOf(blk, ino, i, bn, x, j, off)
    {
      BytesAfterDataWrite(sb, blk, ino, owner, i, bn, x, j, off);
    }
  }

  function SetSize(ino: seq<Inode>, i: nat, size: nat): (ino': seq<Inode>)
    requires i < |ino| && size < UINT
    ensures |ino'| == |ino|
  {
    ino[i := Inode(size, ino[i].addrs)]
  }

  /** Setting the size that the blocks are for, and writing the inode back, makes the file system sound again. */
  lemma GrownAfterUpdate(sb: Super, blk: seq<Block>, ino: seq<Inode>, owner: Owners, i: nat, m: nat, size: nat)
    requires Growing(sb, blk, ino, owner, i, m, m > NDIRECT) && size <= MAXFILE * BSIZE && m == BlocksFor(size)
    ensures IBlock(sb, i) < |blk|
    ensures var ino' := SetSize(ino, i, size);
            var blk' := Updated(sb, blk, i, ino'[i]);
            && Sound(sb, blk', ino', owner)
            && (forall j: nat, off: nat :: j < |ino| && off < MAXFILE * BSIZE && Home(blk, ino[j], off) != 0 ==>
                  ByteAt(blk', ino'[j], off) == ByteAt(blk, ino[j], off))
  {
    MetadataRanges(sb, blk);
    var ino' := SetSize(ino, i, size);
    var blk' := Updated(sb, blk, i, ino'[i]);
    UpdateFrame(sb, blk, ino, owner, i, ino'[i]);
    assert forall j: nat, l: nat :: j < |ino| && l < SLOTS ==> Slot(blk', ino'[j], l) == Slot(blk', ino[j], l);
    assert SameMarks(sb, blk', blk');
    OwnedIfAlike(sb, blk', ino, owner, blk', ino');
    forall j: nat, off: nat | j < |ino| && off < MAXFILE * BSIZE && Home(blk, ino[j], off) != 0
      ensures ByteAt(blk', ino'[j], off) == ByteAt(blk, ino[j], off)
    {
      BytesAfterUpdate(sb, blk, ino, owner, i, ino'[i], j, off);
    }
    forall j: nat | j < |ino|
      ensures NoHoles(blk', ino'[j]) && OnDisk(sb, blk', ino'[j], j)
    {
      DiskInodeAfterUpdate(sb, blk, i, ino'[i], j);
      if j != i {
        SameSlotsNoHoles(blk, blk', ino[j]);
      }
    }
  }

  // ----- the bytes while a write is under way

  lemma HomeIff(sb: Super, blk: seq<Block>, ino: seq<Inode>, owner: Owners, i: nat, m: nat, table: bool, j: nat, off: nat)
    requires Growing(sb, blk, ino, owner, i, m, table) && j < |ino| && off < MAXFILE * BSIZE
    ensures Home(blk, ino[j], off) != 0 <==> off / BSIZE < if j == i then m else BlocksFor(ino[j].size)
  {
  }

  lemma BytesKeptTwice(sb: Super, blk: seq<Block>, ino: seq<Inode>, blk1: seq<Block>, ino1: seq<Inode>, owner: Owners, owner1: Owners,
                       blk2: seq<Block>, ino2: seq<Inode>, i: nat, m: nat, table: bool, table1: bool)
    requires Growing(sb, blk, ino, owner, i, m, table) && Growing(sb, blk1, ino1, owner1, i, m, table1)
    requires OnlyAddrs(ino, ino1, i)
    requires BytesKept(blk, ino, blk1, ino1) && BytesKept(blk1, ino1, blk2, ino2)
    ensures BytesKept(blk, ino, blk2, ino2)
  {
    forall j: nat, off: nat | j < |ino| && off < MAXFILE * BSIZE && Home(blk, ino[j], off) != 0
      ensures ByteAt(blk2, ino2[j], off) == ByteAt(blk, ino[j], off)
    {
      HomeIff(sb, blk, ino, owner, i, m, table, j, off);
      HomeIff(sb, blk1, ino1, owner1, i, m, table1, j, off);
    }
  }

  /** Byte p of file j once src has been written into file i from start up to end. */
  function Want(blk0: seq<Block>, ino0: seq<Inode>, i: nat, start: nat, src: seq<Byte>, end: nat, j: nat, p: nat): Byte
    requires j < |ino0| && p < MAXFILE * BSIZE && start <= end <= start + |src|
  {
    if j == i && start <= p < end then src[p - start] else ByteAt(blk0, ino0[j], p)
  }

  ghost predicate Written(blk0: seq<Block>, ino0: seq<Inode>, i: nat, start: nat, src: seq<Byte>, end: nat,
                          blk: seq<Block>, ino: seq<Inode>) {
    && |ino| == |ino0| && start <= end <= start + |src|
    && forall j: nat, p: nat ::
         (j < |ino0| && p < MAXFILE * BSIZE && (Home(blk0, ino0[j], p) != 0 || (j == i && start <= p < end))) ==>
           ByteAt(blk, ino[j], p) == Want(blk0, ino0, i, start, src, end, j, p)
  }

  lemma WrittenNothing(blk: seq<Block>, ino: seq<Inode>, i: nat, start: nat, src: seq<Byte>)
    ensures Written(blk, ino, i, start, src, start, blk, ino)
  {
  }

  lemma BlocksForBytes(size: nat, p: nat)
    ensures p < size ==> p / BSIZE < BlocksFor(size)
    ensures p <= size ==> p / BSIZE <= BlocksFor(size) && BlocksFor(p) <= BlocksFor(size)
    ensures BlocksFor(size) * BSIZE < size + BSIZE
  {
  }

  lemma BlocksForIndex(p: nat, n: nat)
    requires p % BSIZE + n <= BSIZE && n > 0
    ensures BlocksFor(p + n) == p / BSIZE + 1
    ensures p + n <= MAXFILE * BSIZE ==> p / BSIZE < MAXFILE
  {
  }

  /** Bytes already in place are not disturbed by bmap giving the file another block. */
  lemma WrittenAfterBmap(sb: Super, blk0: seq<Block>, ino0: seq<Inode>, owner0: Owners, m0: nat,
                         i: nat, start: nat, src: seq<Byte>, end: nat,
                         blk: seq<Block>, ino: seq<Inode>, owner: Owners, m: nat, blk1: seq<Block>, ino1: seq<Inode>)
    requires Growing(sb, blk0, ino0, owner0, i, m0, m0 > NDIRECT) && Growing(sb, blk, ino, owner, i, m, m > NDIRECT)
    requires OnlyAddrs(ino0, ino, i) && m0 <= m && (start == end || BlocksFor(end) <= m) && end <= MAXFILE * BSIZE
    requires Written(blk0, ino0, i, start, src, end, blk, ino)
    requires BytesKept(blk, ino, blk1, ino1)
    ensures Written(blk0, ino0, i, start, src, end, blk1, ino1)
  {
    forall j: nat, p: nat | j < |ino0| && p < MAXFILE * BSIZE && (Home(blk0, ino0[j], p) != 0 || (j == i && start <= p < end))
      ensures ByteAt(blk1, ino1[j], p) == Want(blk0, ino0, i, start, src, end, j, p)
    {
      HomeIff(sb, blk0, ino0, owner0, i, m0, m0 > NDIRECT, j, p);
      HomeIff(sb, blk, ino, owner, i, m, m > NDIRECT, j, p);
      BlocksForBytes(end, p);
    }
  }

  /** memmove of bytes into a block. */
  function Patch(b: Block, at: nat, bytes: seq<Byte>): (r: Block)
    requires at + |bytes| <= BSIZE
    ensures forall k :: 0 <= k < BSIZE ==> r[k] == if at <= k < at + |bytes| then bytes[k - at] else b[k]
  {
    b[..at] + bytes + b[at + |bytes|..]
  }

  /** One more piece of src copied into the block that holds its place. */
  lemma WrittenAfterPatch(blk0: seq<Block>, ino0: seq<Inode>, i: nat, start: nat, src: seq<Byte>, end: nat, n: nat,
                          blk: seq<Block>, ino: seq<Inode>, c: nat, blk': seq<Block>)
    requires i < |ino0| && Written(blk0, ino0, i, start, src, end, blk, ino) && end + n <= start + |src|
    requires n > 0 && end % BSIZE + n <= BSIZE && end + n <= MAXFILE * BSIZE
    requires c == Home(blk, ino[i], end) < |blk|
    requires OneBlockChanged(blk, blk', ino, i, end / BSIZE, Patch(blk[c], end % BSIZE, src[end - start..end - start + n]))
    ensures Written(blk0, ino0, i, start, src, end + n, blk', ino)
  {
    var x := Patch(blk[c], end % BSIZE, src[end - start..end - start + n]);
    forall j: nat, p: nat | j < |ino0| && p < MAXFILE * BSIZE && (Home(blk0, ino0[j], p) != 0 || (j == i && start <= p < end + n))
      ensures ByteAt(blk', ino[j], p) == Want(blk0, ino0, i, start, src, end + n, j, p)
    {
      assert ByteAt(blk', ino[j], p) == ByteOf(blk, ino, i, end / BSIZE, x, j, p);
      if j == i && end <= p < end + n {
        SameBlock(end, n, p);
        assert x[p % BSIZE] == src[p - start];
      } else if j == i && p / BSIZE == end / BSIZE {
        OutsidePiece(end, n, p);
        assert x[p % BSIZE] == blk[c][p % BSIZE] == ByteAt(blk, ino[i], p);
      }
    }
  }

  lemma SameBlock(end: nat, n: nat, p: nat)
    requires end % BSIZE + n <= BSIZE && end <= p < end + n
    ensures p / BSIZE == end / BSIZE && p % BSIZE == end % BSIZE + (p - end)
  {
  }

  lemma OutsidePiece(end: nat, n: nat, p: nat)
    requires end % BSIZE + n <= BSIZE && p / BSIZE == end / BSIZE && !(end <= p < end + n)
    ensures !(end % BSIZE <= p % BSIZE < end % BSIZE + n)
  {
  }

  lemma SpliceAt(s: seq<Byte>, off: nat, src: seq<Byte>, p: nat)
    requires off <= |s| && p < |Splice(s, off, src)|
    ensures |Splice(s, off, src)| == if off + |src| > |s| then off + |src| else |s|
    ensures Splice(s, off, src)[p] == if off <= p < off + |src| then src[p - off] else s[p]
  {
  }

  /** A file none of whose bytes the write should change is unchanged. */
  lemma OtherContents(blk0: seq<Block>, ino0: seq<Inode>, i: nat, start: nat, src: seq<Byte>, blk: seq<Block>, ino: seq<Inode>, j: nat)
    requires i < |ino0| && j < |ino0| && j != i && NoHoles(blk0, ino0[j])
    requires Written(blk0, ino0, i, start, src, start + |src|, blk, ino)
    requires ino[j].size == ino0[j].size
    ensures Contents(blk, ino[j]) == Contents(blk0, ino0[j])
  {
    forall p: nat | p < ino0[j].size
      ensures ByteAt(blk, ino[j], p) == ByteAt(blk0, ino0[j], p)
    {
      BlocksForBytes(ino0[j].size, p);
      assert Home(blk0, ino0[j], p) != 0;
      assert ByteAt(blk, ino[j], p) == Want(blk0, ino0, i, start, src, start + |src|, j, p);
    }
  }

  /** Once all of src is in place, the file is the old one with src spliced in. */
  lemma WrittenContents(blk0: seq<Block>, ino0: seq<Inode>, i: nat, start: nat, src: seq<Byte>, blk: seq<Block>, ino: seq<Inode>)
    requires i < |ino0| && start <= ino0[i].size && NoHoles(blk0, ino0[i])
    requires Written(blk0, ino0, i, start, src, start + |src|, blk, ino)
    requires start + |src| <= MAXFILE * BSIZE
    requires ino[i].size == if start + |src| > ino0[i].size then start + |src| else ino0[i].size
    ensures Contents(blk, ino[i]) == Splice(Contents(blk0, ino0[i]), start, src)
  {
    var got, want := Contents(blk, ino[i]), Splice(Contents(blk0, ino0[i]), start, src);
    forall p: nat | p < |got| && p < |want|
      ensures got[p] == want[p]
    {
      SpliceAt(Contents(blk0, ino0[i]), start, src, p);
      BlocksForBytes(ino0[i].size, p);
      assert Home(blk0, ino0[i], p) != 0 || start <= p < start + |src|;
      assert ByteAt(blk, ino[i], p) == Want(blk0, ino0, i, start, src, start + |src|, i, p);
    }
    assert |want| == |got|;
  }
}
