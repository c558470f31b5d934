/**
 Physical pages and two-level page tables: who owns which page.

 Physical memory is a sequence of pages of 1024 words.  A page number is a
 physical address divided by PGSIZE, and a virtual page number a virtual address
 divided by PGSIZE.
 */
module Paging {
  import opened Machine

  const PGSIZE: nat := 4096
  const ENTRIES: nat := 1024
  const KERNBASE: nat := 0x8000_0000
  const USER: nat := KERNBASE / PGSIZE          // virtual pages below KERNBASE
  const VPAGES: nat := ENTRIES * ENTRIES

  type Page = p: seq<Word> | |p| == ENTRIES witness seq(ENTRIES, i => 0)

  /** memset of a page, word by word. */
  function Filled(w: Word): (p: Page)
    ensures forall i :: 0 <= i < ENTRIES ==> p[i] == w
  {
    seq(ENTRIES, i => w)
  }

  // ----- entries of directories and tables

  predicate Present(e: Word) {
    e % PGSIZE % 2 == 1
  }

  /** PTE_ADDR, as a page number. */
  function Addr(e: Word): nat {
    e / PGSIZE
  }

  function Flags(e: Word): (f: nat)
    ensures f < PGSIZE
  {
    e % PGSIZE
  }

  lemma Parts(ppn: nat, f: nat)
    requires f < PGSIZE
    ensures (ppn * PGSIZE + f) / PGSIZE == ppn && (ppn * PGSIZE + f) % PGSIZE == f
  {
  }

  /** ppn | perm | PTE_P. */
  function Entry(ppn: nat, perm: nat): (e: Word)
    requires ppn < VPAGES && perm < PGSIZE
    ensures Present(e) && Addr(e) == ppn && Flags(e) == WithP(perm)
  {
    Parts(ppn, WithP(perm));
    ppn * PGSIZE + WithP(perm)
  }

  function WithP(perm: nat): (f: nat)
    requires perm < PGSIZE
    ensures f < PGSIZE && f % 2 == 1
  {
    if perm % 2 == 1 then perm else perm + 1
  }

  /** The entry for virtual page v in the address space of directory d; 0 if it has no table. */
  function PteOf(mem: seq<Page>, d: nat, v: nat): Word
    requires d < |mem| && v < VPAGES
  {
    var e := mem[d][v / ENTRIES];
    if Present(e) && Addr(e) < |mem| then mem[Addr(e)][v % ENTRIES] else 0
  }

  // ----- bytes of pages

  /** Little-endian bytes of a word. */
  function ByteOfWord(w: Word, k: nat): Byte
    requires k < 4
  {
    if k == 0 then w % 256 else if k == 1 then w / 256 % 256 else if k == 2 then w / 256 / 256 % 256 else w / 256 / 256 / 256
  }

  function Push(b: Byte, rest: nat): nat {
    b + 256 * rest
  }

  lemma PushParts(b: Byte, rest: nat)
    ensures Push(b, rest) % 256 == b && Push(b, rest) / 256 == rest
  {
  }

  function WithByte(w: Word, k: nat, x: Byte): (r: Word)
    requires k < 4
    ensures forall l: nat :: l < 4 ==> ByteOfWord(r, l) == if l == k then x else ByteOfWord(w, l)
  {
    var b0, b1 := if k == 0 then x else ByteOfWord(w, 0), if k == 1 then x else ByteOfWord(w, 1);
    var b2, b3 := if k == 2 then x else ByteOfWord(w, 2), if k == 3 then x else ByteOfWord(w, 3);
    PushParts(b2, b3);
    PushParts(b1, Push(b2, b3));
    PushParts(b0, Push(b1, Push(b2, b3)));
    Push(b0, Push(b1, Push(b2, b3)))
  }

  function ByteAt(p: Page, o: nat): Byte
    requires o < PGSIZE
  {
    ByteOfWord(p[o / 4], o % 4)
  }

  function PutByte(p: Page, o: nat, x: Byte): Page
    requires o < PGSIZE
  {
    p[o / 4 := WithByte(p[o / 4], o % 4, x)]
  }

  /** memmove of bytes into a page. */
  function PutBytes(p: Page, o: nat, bytes: seq<Byte>): Page
    requires o + |bytes| <= PGSIZE
    decreases |bytes|
  {
    if bytes == [] then p else PutByte(PutBytes(p, o, bytes[..|bytes| - 1]), o + |bytes| - 1, bytes[|bytes| - 1])
  }

  lemma PutByteAt(p: Page, o: nat, x: Byte, k: nat)
    requires o < PGSIZE && k < PGSIZE
    ensures ByteAt(PutByte(p, o, x), k) == if k == o then x else ByteAt(p, k)
  {
    hide ByteOfWord;
    assert k == 4 * (k / 4) + k % 4 && o == 4 * (o / 4) + o % 4;
  }

  lemma {:induction false} PutBytesAt(p: Page, o: nat, bytes: seq<Byte>, k: nat)
    requires o + |bytes| <= PGSIZE && k < PGSIZE
    ensures ByteAt(PutBytes(p, o, bytes), k) == if o <= k < o + |bytes| then bytes[k - o] else ByteAt(p, k)
    decreases |bytes|
  {
    if bytes != [] {
      var n := |bytes| - 1;
      PutBytesAt(p, o, bytes[..n], k);
      PutByteAt(PutBytes(p, o, bytes[..n]), o + n, bytes[n], k);
    }
  }

  // ----- ownership

  /** What a page is used for.  A loose page is in use by something else, or in the hands of the running code. */
  datatype Use = Free | Loose | Dir | Table(d: nat, i: nat) | Frame(d: nat, v: nat)

  type Owners = map<nat, Use>

  predicate IsDir(mem: seq<Page>, owner: Owners, d: nat) {
    d < |mem| && d in owner && owner[d] == Dir
  }

  predicate OwnsTable(mem: seq<Page>, owner: Owners, d: nat, i: nat)
    requires d < |mem| && i < ENTRIES
  {
    Present(mem[d][i]) ==> Addr(mem[d][i]) in owner && owner[Addr(mem[d][i])] == Table(d, i)
  }

  predicate OwnsFrame(mem: seq<Page>, owner: Owners, d: nat, v: nat)
    requires d < |mem| && v < VPAGES
  {
    Present(PteOf(mem, d, v)) ==> Addr(PteOf(mem, d, v)) in owner && owner[Addr(PteOf(mem, d, v))] == Frame(d, v)
  }

  /** The page is where its use says. */
  predicate Placed(mem: seq<Page>, owner: Owners, p: nat)
    requires p in owner
  {
    match owner[p]
    case Table(d, i) => IsDir(mem, owner, d) && i < ENTRIES && Present(mem[d][i]) && Addr(mem[d][i]) == p
    case Frame(d, v) => IsDir(mem, owner, d) && v < USER && Present(PteOf(mem, d, v)) && Addr(PteOf(mem, d, v)) == p
    case _ => true
  }

  ghost predicate InMemory(mem: seq<Page>, owner: Owners) {
    forall p :: p in owner ==> 0 < p < |mem|
  }

  ghost predicate AllPlaced(mem: seq<Page>, owner: Owners) {
    forall p :: p in owner ==> Placed(mem, owner, p)
  }

  ghost predicate TablesOwned(mem: seq<Page>, owner: Owners) {
    forall d: nat, i: nat :: IsDir(mem, owner, d) && i < ENTRIES ==> OwnsTable(mem, owner, d, i)
  }

  ghost predicate FramesOwned(mem: seq<Page>, owner: Owners) {
    forall d: nat, v: nat :: IsDir(mem, owner, d) && v < USER ==> OwnsFrame(mem, owner, d, v)
  }

  /**
   Every page has one use: a page-table page is the table of one directory entry of one
   directory, a user frame is mapped by one entry of one address space.
   */
  ghost predicate Spaces(mem: seq<Page>, owner: Owners) {
    |mem| <= VPAGES && InMemory(mem, owner) && AllPlaced(mem, owner) && TablesOwned(mem, owner) && FramesOwned(mem, owner)
  }

  ghost predicate SamePtes(mem: seq<Page>, mem': seq<Page>, owner: Owners) {
    |mem'| == |mem| && forall d: nat, v: nat :: IsDir(mem, owner, d) && v < VPAGES ==> PteOf(mem', d, v) == PteOf(mem, d, v)
  }

  lemma TableInMemory(mem: seq<Page>, owner: Owners, d: nat, i: nat)
    requires Spaces(mem, owner) && IsDir(mem, owner, d) && i < ENTRIES && Present(mem[d][i])
    ensures var t := Addr(mem[d][i]); 0 < t < |mem| && t in owner && owner[t] == Table(d, i)
  {
    assert OwnsTable(mem, owner, d, i);
  }

  /** Two address spaces, or two pages of one, never share a user frame; isolation follows. */
  lemma FramesDiffer(mem: seq<Page>, owner: Owners, d: nat, v: nat, e: nat, u: nat)
    requires Spaces(mem, owner) && IsDir(mem, owner, d) && IsDir(mem, owner, e) && v < USER && u < USER && (d, v) != (e, u)
    requires Present(PteOf(mem, d, v)) && Present(PteOf(mem, e, u))
    ensures Addr(PteOf(mem, d, v)) != Addr(PteOf(mem, e, u))
  {
    assert OwnsFrame(mem, owner, d, v) && OwnsFrame(mem, owner, e, u);
  }

  // ----- one change at a time

  /** A page that is no directory or table can hold anything. */
  lemma WriteKeeps(mem: seq<Page>, owner: Owners, p: nat, x: Page)
    requires Spaces(mem, owner) && p in owner && (owner[p].Free? || owner[p].Loose? || owner[p].Frame?)
    ensures p < |mem| && SamePtes(mem, mem[p := x], owner) && Spaces(mem[p := x], owner)
  {
    var mem' := mem[p := x];
    forall d: nat, v: nat | IsDir(mem, owner, d) && v < VPAGES
      ensures PteOf(mem', d, v) == PteOf(mem, d, v)
    {
      assert OwnsTable(mem, owner, d, v / ENTRIES);
    }
    SamePtesSpaces(mem, mem', owner);
  }

  /** Directories and entries unchanged, so is all ownership. */
  lemma SamePtesSpaces(mem: seq<Page>, mem': seq<Page>, owner: Owners)
    requires Spaces(mem, owner) && SamePtes(mem, mem', owner)
    requires forall d: nat :: IsDir(mem, owner, d) ==> mem'[d] == mem[d]
    ensures Spaces(mem', owner)
  {
    forall p | p in owner
      ensures Placed(mem', owner, p)
    {
      assert Placed(mem, owner, p);
    }
    forall d: nat, i: nat | IsDir(mem', owner, d) && i < ENTRIES
      ensures OwnsTable(mem', owner, d, i)
    {
      assert OwnsTable(mem, owner, d, i);
    }
    forall d: nat, v: nat | IsDir(mem', owner, d) && v < USER
      ensures OwnsFrame(mem', owner, d, v)
    {
      assert OwnsFrame(mem, owner, d, v);
    }
  }

  /** A free or loose page can become the other. */
  lemma ReuseKeeps(mem: seq<Page>, owner: Owners, p: nat, use: Use)
    requires Spaces(mem, owner) && p in owner && (owner[p].Free? || owner[p].Loose?) && (use.Free? || use.Loose?)
    ensures Spaces(mem, owner[p := use])
  {
    var owner' := owner[p := use];
    forall q | q in owner'
      ensures Placed(mem, owner', q)
    {
      assert Placed(mem, owner, q);
    }
    forall d: nat, i: nat | IsDir(mem, owner', d) && i < ENTRIES
      ensures OwnsTable(mem, owner', d, i)
    {
      assert OwnsTable(mem, owner, d, i);
    }
    forall d: nat, v: nat | IsDir(mem, owner', d) && v < USER
      ensures OwnsFrame(mem, owner', d, v)
    {
      assert OwnsFrame(mem, owner, d, v);
    }
  }

  /** A loose, zeroed page put into an empty directory entry. */
  lemma NewTable(mem: seq<Page>, owner: Owners, d: nat, i: nat, t: nat, e: Word)
    requires Spaces(mem, owner) && IsDir(mem, owner, d) && i < ENTRIES && !Present(mem[d][i])
    requires t in owner && owner[t] == Loose && t < |mem| && mem[t] == Filled(0)
    requires Present(e) && Addr(e) == t
    ensures var mem', owner' := mem[d := mem[d][i := e]], owner[t := Table(d, i)];
            Spaces(mem', owner') && SamePtes(mem, mem', owner)
  {
    var mem', owner' := mem[d := mem[d][i := e]], owner[t := Table(d, i)];
    forall c: nat, v: nat | IsDir(mem, owner, c) && v < VPAGES
      ensures PteOf(mem', c, v) == PteOf(mem, c, v)
    {
      assert OwnsTable(mem, owner, c, v / ENTRIES);
    }
    forall q | q in owner'
      ensures Placed(mem', owner', q)
    {
      assert Placed(mem, owner, q);
    }
    forall c: nat, j: nat | IsDir(mem', owner', c) && j < ENTRIES
      ensures OwnsTable(mem', owner', c, j)
    {
      assert OwnsTable(mem, owner, c, j);
    }
    forall c: nat, v: nat | IsDir(mem', owner', c) && v < USER
      ensures OwnsFrame(mem', owner', c, v)
    {
      assert OwnsFrame(mem, owner, c, v);
    }
  }

  /** The other entries when one is set. */
  ghost predicate OnePte(mem: seq<Page>, mem': seq<Page>, owner: Owners, d: nat, v: nat, e: Word) {
    |mem'| == |mem| && forall c: nat, u: nat :: IsDir(mem, owner, c) && u < VPAGES ==>
      PteOf(mem', c, u) == if c == d && u == v then e else PteOf(mem, c, u)
  }

  lemma SetPte(mem: seq<Page>, owner: Owners, d: nat, v: nat, e: Word)
    requires Spaces(mem, owner) && IsDir(mem, owner, d) && v < VPAGES && Present(mem[d][v / ENTRIES])
    ensures var t := Addr(mem[d][v / ENTRIES]);
            && t < |mem| && t != d && !IsDir(mem, owner, t)
            && OnePte(mem, mem[t := mem[t][v % ENTRIES := e]], owner, d, v, e)
  {
    TableInMemory(mem, owner, d, v / ENTRIES);
    var t := Addr(mem[d][v / ENTRIES]);
    var mem' := mem[t := mem[t][v % ENTRIES := e]];
    forall c: nat, u: nat | IsDir(mem, owner, c) && u < VPAGES
      ensures PteOf(mem', c, u) == if c == d && u == v then e else PteOf(mem, c, u)
    {
      assert OwnsTable(mem, owner, c, u / ENTRIES);
      SamePlace(u, v);
    }
  }

  lemma SamePlace(u: nat, v: nat)
    ensures u == v <==> u / ENTRIES == v / ENTRIES && u % ENTRIES == v % ENTRIES
  {
    assert u == u / ENTRIES * ENTRIES + u % ENTRIES && v == v / ENTRIES * ENTRIES + v % ENTRIES;
  }

  /** A kernel mapping owns nothing. */
  lemma KernelPteKeeps(mem: seq<Page>, owner: Owners, mem': seq<Page>, d: nat, v: nat, e: Word)
    requires Spaces(mem, owner) && USER <= v < VPAGES && OnePte(mem, mem', owner, d, v, e)
    requires forall c: nat :: IsDir(mem, owner, c) ==> mem'[c] == mem[c]
    ensures Spaces(mem', owner)
  {
    forall q | q in owner
      ensures Placed(mem', owner, q)
    {
      assert Placed(mem, owner, q);
    }
    forall c: nat, j: nat | IsDir(mem', owner, c) && j < ENTRIES
      ensures OwnsTable(mem', owner, c, j)
    {
      assert OwnsTable(mem, owner, c, j);
    }
    forall c: nat, u: nat | IsDir(mem', owner, c) && u < USER
      ensures OwnsFrame(mem', owner, c, u)
    {
      assert OwnsFrame(mem, owner, c, u);
    }
  }

  /** A loose page mapped at a free user page. */
  lemma UserPteKeeps(mem: seq<Page>, owner: Owners, mem': seq<Page>, d: nat, v: nat, e: Word)
    requires Spaces(mem, owner) && IsDir(mem, owner, d) && v < USER && OnePte(mem, mem', owner, d, v, e)
    requires !Present(PteOf(mem, d, v)) && Present(e) && Addr(e) in owner && owner[Addr(e)] == Loose
    requires forall c: nat :: IsDir(mem, owner, c) ==> mem'[c] == mem[c]
    ensures Spaces(mem', owner[Addr(e) := Frame(d, v)])
  {
    var owner' := owner[Addr(e) := Frame(d, v)];
    forall q | q in owner'
      ensures Placed(mem', owner', q)
    {
      assert Placed(mem, owner, q);
    }
    forall c: nat, j: nat | IsDir(mem', owner', c) && j < ENTRIES
      ensures OwnsTable(mem', owner', c, j)
    {
      assert OwnsTable(mem, owner, c, j);
    }
    forall c: nat, u: nat | IsDir(mem', owner', c) && u < USER
      ensures OwnsFrame(mem', owner', c, u)
    {
      assert OwnsFrame(mem, owner, c, u);
    }
  }

  /** A user mapping removed and its frame freed. */
  lemma ClearPteKeeps(mem: seq<Page>, owner: Owners, mem': seq<Page>, d: nat, v: nat, f: nat)
    requires Spaces(mem, owner) && v < USER && OnePte(mem, mem', owner, d, v, 0)
    requires f in owner && owner[f] == Frame(d, v)
    requires forall c: nat :: IsDir(mem, owner, c) ==> mem'[c] == mem[c]
    ensures Spaces(mem', owner[f := Free])
  {
    var owner' := owner[f := Free];
    forall q | q in owner'
      ensures Placed(mem', owner', q)
    {
      assert Placed(mem, owner, q) && Placed(mem, owner, f);
    }
    forall c: nat, j: nat | IsDir(mem', owner', c) && j < ENTRIES
      ensures OwnsTable(mem', owner', c, j)
    {
      assert OwnsTable(mem, owner, c, j);
    }
    forall c: nat, u: nat | IsDir(mem', owner', c) && u < USER
      ensures OwnsFrame(mem', owner', c, u)
    {
      assert OwnsFrame(mem, owner, c, u);
    }
  }

  /** A loose, zeroed page as a new directory. */
  lemma NewDir(mem: seq<Page>, owner: Owners, d: nat)
    requires Spaces(mem, owner) && d in owner && owner[d] == Loose && d < |mem| && mem[d] == Filled(0)
    ensures Spaces(mem, owner[d := Dir]) && forall v: nat :: v < VPAGES ==> PteOf(mem, d, v) == 0
  {
    var owner' := owner[d := Dir];
    forall q | q in owner'
      ensures Placed(mem, owner', q)
    {
      assert Placed(mem, owner, q);
    }
    forall c: nat, j: nat | IsDir(mem, owner', c) && j < ENTRIES
      ensures OwnsTable(mem, owner', c, j)
    {
      assert c != d ==> OwnsTable(mem, owner, c, j);
    }
    forall c: nat, u: nat | IsDir(mem, owner', c) && u < USER
      ensures OwnsFrame(mem, owner', c, u)
    {
      assert c != d ==> OwnsFrame(mem, owner, c, u);
    }
  }

  /** The directory d and its tables, given up. */
  function Retired(owner: Owners, d: nat): (owner': Owners)
    ensures owner'.Keys == owner.Keys
  {
    map p | p in owner :: if p == d || (owner[p].Table? && owner[p].d == d) then Loose else owner[p]
  }

  lemma RetireKeeps(mem: seq<Page>, owner: Owners, d: nat)
    requires Spaces(mem, owner) && IsDir(mem, owner, d)
    requires forall v: nat :: v < USER ==> !Present(PteOf(mem, d, v))
    ensures Spaces(mem, Retired(owner, d))
    ensures forall p :: p in owner && owner[p].Frame? ==> owner[p].d != d
  {
    var owner' := Retired(owner, d);
    forall q | q in owner'
      ensures Placed(mem, owner', q)
      ensures owner[q].Frame? ==> owner[q].d != d
    {
      assert Placed(mem, owner, q);
    }
    forall c: nat, j: nat | IsDir(mem, owner', c) && j < ENTRIES
      ensures OwnsTable(mem, owner', c, j)
    {
      assert OwnsTable(mem, owner, c, j);
    }
    forall c: nat, u: nat | IsDir(mem, owner', c) && u < USER
      ensures OwnsFrame(mem, owner', c, u)
    {
      assert OwnsFrame(mem, owner, c, u);
    }
  }
}
