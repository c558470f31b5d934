/**
 Disk blocks as byte sequences, and the little-endian words and single bits
 that the kernel reads out of them and stores into them.
 */
module Blocks {
  import opened Machine

  const BSIZE: nat := 512
  const WORDS: nat := 128        // BSIZE / sizeof(uint)
  const BITS: nat := 4096        // bits in a block

  type Block = b: seq<Byte> | |b| == BSIZE witness seq(BSIZE, i => 0)

  function Zeros(): Block {
    seq(BSIZE, i => 0)
  }

  // ----- words

  /** The i-th uint of a block. */
  function WordAt(b: Block, i: nat): Word
    requires i < WORDS
  {
    var b0: int, b1: int, b2: int, b3: int := b[4 * i], b[4 * i + 1], b[4 * i + 2], b[4 * i + 3];
    b0 + 0x100 * b1 + 0x1_0000 * b2 + 0x100_0000 * b3
  }

  /** The block after storing w as its i-th uint. */
  function PutWord(b: Block, i: nat, w: Word): Block
    requires i < WORDS
  {
    b[4 * i := w % 0x100]
     [4 * i + 1 := w / 0x100 % 0x100]
     [4 * i + 2 := w / 0x1_0000 % 0x100]
     [4 * i + 3 := w / 0x100_0000]
  }

  lemma SplitWord(w: Word)
    ensures w == w % 0x100 + 0x100 * (w / 0x100 % 0x100) + 0x1_0000 * (w / 0x1_0000 % 0x100)
                 + 0x100_0000 * (w / 0x100_0000)
  {
    assert w / 0x1_0000 == w / 0x100 / 0x100;
    assert w / 0x100_0000 == w / 0x100 / 0x100 / 0x100;
  }

  lemma PutWordAt(b: Block, i: nat, w: Word, j: nat)
    requires i < WORDS && j < WORDS
    ensures WordAt(PutWord(b, i, w), j) == if j == i then w else WordAt(b, j)
  {
    SplitWord(w);
  }

  /** The block after copying the first k words of a list to the words from at on. */
  function PutWords(b: Block, at: nat, ws: seq<Word>, k: nat): Block
    requires k <= |ws| && at + |ws| <= WORDS
  {
    if k == 0 then b else PutWord(PutWords(b, at, ws, k - 1), at + k - 1, ws[k - 1])
  }

  lemma {:induction false} PutWordsAt(b: Block, at: nat, ws: seq<Word>, k: nat, j: nat)
    requires k <= |ws| && at + |ws| <= WORDS && j < WORDS
    ensures WordAt(PutWords(b, at, ws, k), j) == if at <= j < at + k then ws[j - at] else WordAt(b, j)
  {
    if k > 0 {
      PutWordsAt(b, at, ws, k - 1, j);
      PutWordAt(PutWords(b, at, ws, k - 1), at + k - 1, ws[k - 1], j);
    }
  }

  /** n words of a block, from the one at on. */
  function GetWords(b: Block, at: nat, n: nat): (ws: seq<Word>)
    requires at + n <= WORDS
    ensures |ws| == n
  {
    if n == 0 then [] else GetWords(b, at, n - 1) + [WordAt(b, at + n - 1)]
  }

  lemma {:induction false} GetWordsAt(b: Block, at: nat, n: nat, k: nat)
    requires at + n <= WORDS && k < n
    ensures GetWords(b, at, n)[k] == WordAt(b, at + k)
  {
    if k < n - 1 {
      GetWordsAt(b, at, n - 1, k);
    }
  }

  lemma ZeroWord(i: nat)
    requires i < WORDS
    ensures WordAt(Zeros(), i) == 0
  {
  }

  // ----- bits

  /** The mask 1 << k. */
  function Mask(k: nat): (m: nat)
    ensures m > 0
  {
    if k == 0 then 1 else 2 * Mask(k - 1)
  }

  /** (x & 1 << k) != 0 */
  predicate HasBit(x: nat, k: nat) {
    if k == 0 then x % 2 == 1 else HasBit(x / 2, k - 1)
  }

  /** Adding a clear bit is the same as or-ing it in. */
  lemma {:induction false} AddMask(x: nat, k: nat, j: nat)
    requires !HasBit(x, k)
    ensures HasBit(x + Mask(k), j) <==> j == k || HasBit(x, j)
  {
    if k > 0 {
      assert (x + Mask(k)) / 2 == x / 2 + Mask(k - 1);
      if j > 0 {
        AddMask(x / 2, k - 1, j - 1);
      }
    } else {
      assert (x + 1) / 2 == x / 2;
    }
  }

  /** The sum stays below 1 << n if the number was below it. */
  lemma {:induction false} AddMaskFits(x: nat, k: nat, n: nat)
    requires k < n && x < Mask(n) && !HasBit(x, k)
    ensures x + Mask(k) < Mask(n)
  {
    assert Mask(n) == 2 * Mask(n - 1);
    if k > 0 {
      assert x == 2 * (x / 2) + x % 2;
      AddMaskFits(x / 2, k - 1, n - 1);
    } else {
      assert x % 2 == 0;
    }
  }

  /** Subtracting a bit that is set is the same as masking it out. */
  lemma {:induction false} SubtractMask(x: nat, k: nat, j: nat)
    requires HasBit(x, k)
    ensures Mask(k) <= x
    ensures HasBit(x - Mask(k), j) <==> j != k && HasBit(x, j)
  {
    if k > 0 {
      SubtractMask(x / 2, k - 1, if j > 0 then j - 1 else 0);
      assert (x - Mask(k)) / 2 == x / 2 - Mask(k - 1);
    } else {
      assert (x - 1) / 2 == x / 2;
    }
  }

  lemma ByteIsEightBits()
    ensures Mask(8) == 0x100
  {
    assert Mask(4) == 16;
  }

  /** Bit i of a bitmap block: bit i % 8 of byte i / 8. */
  predicate BitAt(b: Block, i: nat)
    requires i < BITS
  {
    HasBit(b[i / 8], i % 8)
  }

  /** data[i / 8] |= m, for a bit that is clear. */
  function SetBit(b: Block, i: nat): Block
    requires i < BITS && !BitAt(b, i)
  {
    ByteIsEightBits();
    AddMaskFits(b[i / 8], i % 8, 8);
    b[i / 8 := b[i / 8] as int + Mask(i % 8)]
  }

  /** data[i / 8] &= ~m, for a bit that is set. */
  function ClearBit(b: Block, i: nat): Block
    requires i < BITS && BitAt(b, i)
  {
    SubtractMask(b[i / 8], i % 8, 0);
    b[i / 8 := b[i / 8] as int - Mask(i % 8)]
  }

  lemma SetBitAt(b: Block, i: nat, j: nat)
    requires i < BITS && j < BITS && !BitAt(b, i)
    ensures BitAt(SetBit(b, i), j) <==> j == i || BitAt(b, j)
  {
    AddMask(b[i / 8], i % 8, j % 8);
  }

  lemma ClearBitAt(b: Block, i: nat, j: nat)
    requires i < BITS && j < BITS && BitAt(b, i)
    ensures BitAt(ClearBit(b, i), j) <==> j != i && BitAt(b, j)
  {
    SubtractMask(b[i / 8], i % 8, j % 8);
  }
}
