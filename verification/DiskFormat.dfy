/**
 What the file system's structures are on the disk, byte by byte: the numbers in the log's
 header, the inodes, where a file's bytes are, and the bits of the free map.
 */
module DiskFormat {
  import opened Machine
  import opened Arithmetic
  import opened Blocks
  import opened Inodes
  import Log

  /** The four bytes at offset o spell the number w, the lowest byte first. */
  predicate Number(b: Block, o: nat, w: nat)
    requires o + 4 <= 512
  {
    w == b[o] as int + 0x100 * b[o + 1] as int + 0x1_0000 * b[o + 2] as int + 0x100_0000 * b[o + 3] as int
  }

  lemma WordFormat(b: Block, i: nat)
    requires i < WORDS
    ensures Number(b, 4 * i, WordAt(b, i))
  {
  }

  /** The log's header: the number of blocks and then their numbers. */
  lemma HeadFormat(b: Block, blocks: seq<Word>, i: nat)
    requires |blocks| < WORDS && i < |blocks|
    ensures Number(Log.HeadWith(b, blocks), 0, |blocks|) && Number(Log.HeadWith(b, blocks), 4 * i + 4, blocks[i])
  {
    var h, first := Log.HeadWith(b, blocks), PutWord(b, 0, |blocks|);
    PutWordsAt(first, 1, blocks, |blocks|, 0);
    PutWordsAt(first, 1, blocks, |blocks|, i + 1);
    PutWordAt(b, 0, |blocks|, 0);
    hide WordAt, PutWord, PutWords;
    WordFormat(h, 0);
    WordFormat(h, i + 1);
  }

  /** Inode i: 64 bytes, eight inodes to a block; after eight other bytes its size, and then its thirteen block numbers. */
  lemma InodeFormat(sb: Super, blk: seq<Block>, n: Inode, i: nat, k: nat)
    requires OnDisk(sb, blk, n, i) && k < 13
    ensures sb.inodestart + i / 8 < |blk|
    ensures var (b, o) := (blk[sb.inodestart + i / 8], i % 8 * 64); Number(b, o + 8, n.size) && Number(b, o + 12 + 4 * k, n.addrs[k])
  {
    hide WordAt, GetWords;
    var b, j := blk[IBlock(sb, i)], i % IPB;
    GetWordsAt(b, 16 * j + 3, NDIRECT + 1, k);
    WordFormat(b, 16 * j + 2);
    WordFormat(b, 16 * j + 3 + k);
  }

  /**
   Byte off of file i is byte off % 512 of block a, which the inode names if off is in the first
   twelve blocks, and else the table t, which is the inode's thirteenth block.
   */
  lemma FileFormat(sb: Super, blk: seq<Block>, ino: seq<Inode>, owner: Owners, i: nat, off: nat) returns (a: nat, t: nat)
    requires Sound(sb, blk, ino, owner) && i < |ino| && off < ino[i].size <= MAXFILE * BSIZE
    ensures 0 < a < |blk| && Contents(blk, ino[i])[off] == blk[a][off % 512]
    ensures sb.inodestart + i / 8 < |blk| && off / 512 < 140
    ensures var (b, o) := (blk[sb.inodestart + i / 8], i % 8 * 64);
            if off / 512 < 12 then Number(b, o + 12 + 4 * (off / 512), a)
            else t < |blk| && Number(b, o + 60, t) && Number(blk[t], 4 * (off / 512 - 12), a)
  {
    hide SlotsOwned, OwnersHold, MarksOwned, DiskInode, WordAt;
    var bn := off / BSIZE;
    var n := ino[i];
    assert NoHoles(blk, n) && OnDisk(sb, blk, n, i);
    assert bn < BlocksFor(n.size);
    a, t := Slot(blk, n, DataSlot(bn)), n.addrs[TABLE];
    SlotInDisk(sb, blk, ino, owner, i, DataSlot(bn));
    InodeFormat(sb, blk, n, i, if bn < 12 then bn else 12);
    if bn >= 12 {
      WordFormat(blk[t], bn - 12);
    }
  }

  lemma SlotInDisk(sb: Super, blk: seq<Block>, ino: seq<Inode>, owner: Owners, i: nat, k: nat)
    requires Owned(sb, blk, ino, owner) && i < |ino| && k < SLOTS && Slot(blk, ino[i], k) != 0
    ensures Slot(blk, ino[i], k) < |blk|
  {
    hide Slot, MarksOwned;
  }

  lemma {:induction false} BitIs(x: nat, k: nat)
    ensures HasBit(x, k) <==> x / Mask(k) % 2 == 1
  {
    if k > 0 {
      BitIs(x / 2, k - 1);
      HalfQuotient(x, Mask(k - 1));
    }
  }

  lemma HalfQuotient(x: nat, m: nat)
    requires m > 0
    ensures x / (2 * m) == x / 2 / m
  {
    var q, r := x / 2 / m, x / 2 % m;
    assert x / 2 == m * q + r;
    assert x == (2 * m) * q + (2 * r + x % 2);
    Quotient(x, 2 * m, q, 2 * r + x % 2);
  }

  /** The free map: block b's bit is bit b % 8 of the byte, 4096 bits to a block. */
  lemma BitmapFormat(sb: Super, blk: seq<Block>, b: nat)
    requires Layout(sb, blk) && b < sb.size
    ensures sb.bmapstart + b / 4096 < |blk|
    ensures Marked(sb, blk, b) <==> blk[sb.bmapstart + b / 4096][b % 4096 / 8] as int / [1, 2, 4, 8, 16, 32, 64, 128][b % 8] % 2 == 1
  {
    BitIs(blk[BBlock(sb, b)][b % BITS / 8], b % BITS % 8);
    Masks();
    hide HasBit, Mask;
    assert b % 4096 % 8 == b % 8;
  }

  lemma Masks()
    ensures Mask(0) == 1 && Mask(1) == 2 && Mask(2) == 4 && Mask(3) == 8
    ensures Mask(4) == 16 && Mask(5) == 32 && Mask(6) == 64 && Mask(7) == 128
  {
    assert Mask(2) == 2 * Mask(1) && Mask(3) == 2 * Mask(2) && Mask(4) == 2 * Mask(3);
    assert Mask(5) == 2 * Mask(4) && Mask(6) == 2 * Mask(5) && Mask(7) == 2 * Mask(6);
  }
}
