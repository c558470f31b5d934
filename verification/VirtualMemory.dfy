/**
 The page allocator and the virtual memory code: every operation keeps each page in
 one place, touches one address space and leaks nothing, also when memory runs out.
 */
module VirtualMemory {
  import opened Machine
  import opened Paging

  const PHYSPAGES: nat := 0xE000
  const EXTPAGES: nat := 0x100
  const DEVPAGE: nat := 0xFE000
  const PTE_W: nat := 2
  const PTE_U: nat := 4

  // ----- the list of free pages

  /** The kernel address of the k-th free page, or null. */
  function PtrAt(free: seq<nat>, k: nat): nat {
    if k < |free| then KERNBASE + free[k] * PGSIZE else 0
  }

  predicate LinkAt(mem: seq<Page>, free: seq<nat>, k: nat)
    requires k < |free|
  {
    0 < free[k] < |mem| && mem[free[k]][0] == PtrAt(free, k + 1)
  }

  ghost predicate FreeList(mem: seq<Page>, owner: Owners, freelist: Word, free: seq<nat>) {
    && freelist == PtrAt(free, 0) && |mem| == PHYSPAGES
    && (forall k: nat {:trigger LinkAt(mem, free, k)} :: k < |free| ==> LinkAt(mem, free, k))
    && (forall k, l :: 0 <= k < l < |free| ==> free[k] != free[l])
    && (forall p :: p in owner ==> (owner[p].Free? <==> p in free))
    && (forall p :: p in free ==> p in owner)
  }

  /** What is not on the list can be written and can change its use. */
  lemma FreeListKeeps(mem: seq<Page>, owner: Owners, freelist: Word, free: seq<nat>, p: nat, x: Page, use: Use)
    requires FreeList(mem, owner, freelist, free) && p in owner && !owner[p].Free? && !use.Free? && p < |mem|
    ensures FreeList(mem[p := x], owner[p := use], freelist, free)
    ensures FreeList(mem[p := x], owner, freelist, free) && FreeList(mem, owner[p := use], freelist, free)
  {
    assert p !in free;
    forall k: nat | k < |free|
      ensures free[k] != p && LinkAt(mem[p := x], free, k)
    {
      assert LinkAt(mem, free, k) && free[k] in free;
    }
  }

  lemma PushedFree(mem: seq<Page>, owner: Owners, freelist: Word, free: seq<nat>, p: nat, x: Page)
    requires FreeList(mem, owner, freelist, free) && p in owner && !owner[p].Free? && 0 < p < |mem| && x[0] == freelist
    ensures FreeList(mem[p := x], owner[p := Free], KERNBASE + p * PGSIZE, [p] + free)
  {
    assert p !in free;
    var free', mem' := [p] + free, mem[p := x];
    forall k: nat | k < |free'|
      ensures LinkAt(mem', free', k)
    {
      if k > 0 {
        assert LinkAt(mem, free, k - 1) && free[k - 1] in free;
      }
    }
  }

  lemma PoppedFree(mem: seq<Page>, owner: Owners, freelist: Word, free: seq<nat>)
    requires FreeList(mem, owner, freelist, free) && free != []
    ensures 0 < free[0] < |mem| && free[0] in owner && owner[free[0]] == Free
    ensures freelist == KERNBASE + free[0] * PGSIZE && (freelist - KERNBASE) / PGSIZE == free[0]
    ensures FreeList(mem, owner[free[0] := Loose], mem[free[0]][0], free[1..])
  {
    var p, rest := free[0], free[1..];
    assert LinkAt(mem, free, 0) && p in free;
    forall k: nat | k < |rest|
      ensures LinkAt(mem, rest, k)
    {
      assert LinkAt(mem, free, k + 1);
    }
    forall q | q in owner
      ensures owner[p := Loose][q].Free? <==> q in rest
    {
      assert q in free <==> q == p || q in rest;
    }
  }

  lemma EmptyList(mem: seq<Page>, owner: Owners, freelist: Word, free: seq<nat>)
    requires FreeList(mem, owner, freelist, free)
    ensures freelist == 0 <==> free == []
  {
  }

  // ----- what an operation on one address space leaves alone

  /** In use, but not by d. */
  predicate Foreign(use: Use, p: nat, d: nat) {
    match use
    case Free => false
    case Loose => true
    case Dir => p != d
    case Table(e, _) => e != d
    case Frame(e, _) => e != d
  }

  /** Only free pages and pages of d have changed, and those are now free or pages of d: no other use, and no leak. */
  ghost predicate Confined(mem: seq<Page>, owner: Owners, mem': seq<Page>, owner': Owners, d: nat) {
    && |mem'| == |mem| && owner'.Keys == owner.Keys
    && forall p :: p in owner && p < |mem| ==>
         if Foreign(owner[p], p, d) then owner'[p] == owner[p] && mem'[p] == mem[p] else !Foreign(owner'[p], p, d)
  }

  /** The frames of d outside [lo, hi) keep their place and their contents. */
  ghost predicate FramesKept(mem: seq<Page>, owner: Owners, mem': seq<Page>, owner': Owners, d: nat, lo: nat, hi: nat) {
    && |mem'| == |mem| && owner'.Keys == owner.Keys
    && forall p :: p in owner && p < |mem| && owner[p].Frame? && owner[p].d == d && !(lo <= owner[p].v < hi) ==>
         owner'[p] == owner[p] && mem'[p] == mem[p]
  }

  lemma ConfinedTwice(mem: seq<Page>, owner: Owners, mem1: seq<Page>, owner1: Owners, mem2: seq<Page>, owner2: Owners, d: nat)
    requires Confined(mem, owner, mem1, owner1, d) && Confined(mem1, owner1, mem2, owner2, d)
    ensures Confined(mem, owner, mem2, owner2, d)
  {
  }

  /** Every other address space is as it was, down to the bytes of its pages. */
  lemma OthersUnchanged(mem: seq<Page>, owner: Owners, mem': seq<Page>, owner': Owners, d: nat, e: nat, v: nat)
    requires Spaces(mem, owner) && Confined(mem, owner, mem', owner', d)
    requires IsDir(mem, owner, e) && e != d && v < VPAGES
    ensures IsDir(mem', owner', e) && PteOf(mem', e, v) == PteOf(mem, e, v)
    ensures v < USER && Present(PteOf(mem, e, v)) ==> Addr(PteOf(mem, e, v)) < |mem| && mem'[Addr(PteOf(mem, e, v))] == mem[Addr(PteOf(mem, e, v))]
  {
    assert OwnsTable(mem, owner, e, v / ENTRIES);
    if v < USER {
      assert OwnsFrame(mem, owner, e, v);
    }
  }

  /** If d belonged to nobody before and to nobody after, every page has its old use. */
  lemma NothingLeaked(mem: seq<Page>, owner: Owners, mem': seq<Page>, owner': Owners, d: nat)
    requires Spaces(mem, owner) && Spaces(mem', owner') && Confined(mem, owner, mem', owner', d)
    requires !IsDir(mem, owner, d) && !IsDir(mem', owner', d)
    ensures owner' == owner
  {
    forall p | p in owner
      ensures owner'[p] == owner[p]
    {
      assert Placed(mem, owner, p) && Placed(mem', owner', p);
    }
  }

  // ----- counting page tables

  function Tables(p: Page, n: nat): (k: nat)
    requires n <= ENTRIES
    ensures k <= n
  {
    if n == 0 then 0 else Tables(p, n - 1) + if Present(p[n - 1]) then 1 else 0
  }

  lemma {:induction false} TablesSet(p: Page, i: nat, e: Word, n: nat)
    requires i < ENTRIES && n <= ENTRIES && Present(e) && !Present(p[i])
    ensures Tables(p[i := e], n) == Tables(p, n) + if i < n then 1 else 0
    ensures i < n ==> Tables(p, n) < n
  {
    if n > 0 {
      TablesSet(p, i, e, n - 1);
    }
  }

  lemma {:induction false} NoTables(n: nat)
    requires n <= ENTRIES
    ensures Tables(Filled(0), n) == 0
  {
    if n > 0 {
      NoTables(n - 1);
    }
  }

  // ----- sizes

  function PagesUpTo(size: nat): nat {
    (size + PGSIZE - 1) / PGSIZE
  }

  lemma PageInSize(v: nat, size: nat)
    ensures v * PGSIZE < size <==> v < PagesUpTo(size)
  {
  }

  function Cleared(e: Word): Word {
    if Present(e) then 0 else e
  }

  /** The processor's walk: ten bits of the address choose an entry of the directory, the next ten an entry of the table. */
  lemma Translates(mem: seq<Page>, d: nat, a: Word)
    requires d < |mem|
    ensures var (e, pde) := (PteOf(mem, d, a / 4096), mem[d][a / 0x40_0000]);
            if pde % 2 == 0 || pde / 4096 >= |mem| then e == 0
            else e == mem[pde / 4096][a / 4096 % 1024] && (Present(e) <==> e % 2 == 1) && Addr(e) == e / 4096
  {
    Quartered(a);
    EntryBits(mem[d][a / 0x40_0000]);
    EntryBits(PteOf(mem, d, a / 4096));
  }

  lemma Quartered(a: nat)
    ensures a / 0x40_0000 == a / 4096 / 1024
  {
  }

  // ----- the kernel's mappings

  datatype Kmap = Kmap(virt: nat, start: nat, end: nat, perm: nat)

  /** kmap, with addresses; data is the page of the kernel's data section. */
  function Kmaps(data: nat): (s: seq<Kmap>)
    requires GoodData(data)
    ensures |s| == 4
  {
    [ Kmap(USER * PGSIZE, 0, EXTPAGES * PGSIZE, PTE_W),
      Kmap((USER + EXTPAGES) * PGSIZE, EXTPAGES * PGSIZE, (data - USER) * PGSIZE, 0),
      Kmap(data * PGSIZE, (data - USER) * PGSIZE, PHYSPAGES * PGSIZE, PTE_W),
      Kmap(DEVPAGE * PGSIZE, DEVPAGE * PGSIZE, 0, PTE_W) ]
  }

  predicate GoodData(data: nat) {
    USER + EXTPAGES < data < USER + PHYSPAGES
  }

  /** The entry that every address space has for virtual page v of the kernel. */
  function KernelPte(data: nat, v: nat): Word
    requires GoodData(data) && v < VPAGES
  {
    if v < USER then 0
    else if v < USER + EXTPAGES then Entry(v - USER, PTE_W)
    else if v < data then Entry(v - USER, 0)
    else if v < USER + PHYSPAGES then Entry(v - USER, PTE_W)
    else if v < DEVPAGE then 0
    else Entry(v, PTE_W)
  }

  // ----- steps of the code

  /** The owners with a page that the caller hands over counted as free. */
  function Given(owner: Owners, v: nat, p: nat): Owners {
    if v < USER && p in owner then owner[p := Free] else owner
  }

  /** A page table of d, and for a user page the given frame, is all that changes. */
  lemma MapConfined(mem: seq<Page>, owner: Owners, mem1: seq<Page>, owner1: Owners, d: nat, t: nat, x: Page, v: nat, p: nat)
    requires Confined(mem, owner, mem1, owner1, d) && FramesKept(mem, owner, mem1, owner1, d, 0, 0)
    requires t in owner1 && t < |mem1| && owner1[t].Table? && owner1[t].d == d
    requires v < USER ==> p in owner && p < |mem| && owner[p] == Loose
    ensures v < USER ==> owner1[p] == Loose && mem1[p] == mem[p] && p != t
    ensures var owner2 := if v < USER then owner1[p := Frame(d, v)] else owner1;
            && Confined(mem, Given(owner, v, p), mem1[t := x], owner2, d)
            && FramesKept(mem, owner, mem1[t := x], owner2, d, 0, 0)
  {
  }

  lemma SameConfined(mem: seq<Page>, owner: Owners, d: nat)
    ensures Confined(mem, owner, mem, owner, d) && forall lo: nat, hi: nat :: FramesKept(mem, owner, mem, owner, d, lo, hi)
  {
  }

  /** walkpgdir allocating a table: a free page becomes a table of d. */
  lemma TableConfined(mem: seq<Page>, owner: Owners, d: nat, i: nat, t: nat, x: Page, y: Page)
    requires Spaces(mem, owner) && IsDir(mem, owner, d) && t in owner && owner[t] == Free
    ensures t < |mem| && t != d
    ensures Confined(mem, owner, mem[t := x][d := y], owner[t := Table(d, i)], d)
    ensures FramesKept(mem, owner, mem[t := x][d := y], owner[t := Table(d, i)], d, 0, 0)
  {
  }

  lemma LooseKept(mem: seq<Page>, owner: Owners, mem1: seq<Page>, owner1: Owners, d: nat, v: nat, p: nat)
    requires Spaces(mem, owner) && Confined(mem, owner, mem1, owner1, d)
    requires v < USER ==> p in owner && owner[p] == Loose
    ensures v < USER ==> p in owner1 && owner1[p] == Loose && p < |mem| && p < |mem1| && mem1[p] == mem[p]
  {
  }

  /** Virtual pages first to last of d map the pages from p on, and the other entries are as before. */
  ghost predicate Mapped(mem: seq<Page>, mem': seq<Page>, d: nat, first: nat, last: nat, p: nat, perm: nat) {
    && d < |mem| == |mem'| && perm < PGSIZE && first <= last && p + (last - first) < VPAGES
    && forall v: nat :: v < VPAGES ==>
         PteOf(mem', d, v) == if first <= v <= last then Entry(p + (v - first), perm) else PteOf(mem, d, v)
  }

  ghost predicate SameBelow(mem: seq<Page>, mem': seq<Page>, d: nat, first: nat) {
    d < |mem| == |mem'| && forall v: nat :: v < first && v < VPAGES ==> PteOf(mem', d, v) == PteOf(mem, d, v)
  }

  /** The page handed over is now the frame, with its contents; or nothing has happened. */
  ghost predicate FrameGiven(mem: seq<Page>, owner: Owners, mem': seq<Page>, owner': Owners, d: nat, v: nat, p: nat, ok: bool) {
    if ok then p in owner' && p < |mem| == |mem'| && owner'[p] == Frame(d, v) && mem'[p] == mem[p]
    else mem' == mem && owner' == owner
  }

  /** Page tables of d have been made only for pages from first to last, if at all. */
  ghost predicate TablesBetween(mem: seq<Page>, mem': seq<Page>, d: nat, first: nat, last: nat) {
    && d < |mem| == |mem'|
    && forall i: nat :: i < ENTRIES && !(first / ENTRIES <= i <= last / ENTRIES) ==> mem'[d][i] == mem[d][i]
  }

  lemma NoTablesMade(mem: seq<Page>, d: nat, first: nat, last: nat)
    requires d < |mem|
    ensures TablesBetween(mem, mem, d, first, last)
  {
  }

  lemma TablesMore(mem0: seq<Page>, mem: seq<Page>, mem': seq<Page>, d: nat, first: nat, last: nat, a: nat)
    requires TablesBetween(mem0, mem, d, first, last) && TablesBetween(mem, mem', d, a, a) && first <= a <= last
    ensures TablesBetween(mem0, mem', d, first, last)
  {
  }

  /** The directory entries that kmap needs a table for. */
  predicate KernelTable(i: nat) {
    USER / ENTRIES <= i < (USER + PHYSPAGES) / ENTRIES || DEVPAGE / ENTRIES <= i < ENTRIES
  }

  /** In the kernel's half, d has exactly the tables that kmap needs. */
  ghost predicate KernelTables(mem: seq<Page>, d: nat) {
    d < |mem| && forall i: nat :: USER / ENTRIES <= i < ENTRIES ==> (Present(mem[d][i]) <==> KernelTable(i))
  }

  ghost predicate NoOtherTables(mem: seq<Page>, d: nat) {
    d < |mem| && forall i: nat :: i < ENTRIES && Present(mem[d][i]) ==> KernelTable(i)
  }

  lemma EmptyDirectory(mem: seq<Page>, d: nat)
    requires d < |mem| && mem[d] == Filled(0)
    ensures NoOtherTables(mem, d)
  {
  }

  /** A line of kmap needs no table but those. */
  lemma KmapTables(data: nat, k: nat, mem: seq<Page>, mem': seq<Page>, d: nat)
    requires GoodData(data) && k < 4 && NoOtherTables(mem, d) && Kmaps(data)[k].start < UINT && 1 <= SizeOfKmap(Kmaps(data)[k])
    requires var m := Kmaps(data)[k]; TablesBetween(mem, mem', d, m.virt / PGSIZE, (m.virt + SizeOfKmap(m) - 1) / PGSIZE)
    ensures NoOtherTables(mem', d)
  {
    KmapRange(data, k);
  }

  lemma KmapRange(data: nat, k: nat)
    requires GoodData(data) && k < 4 && Kmaps(data)[k].start < UINT && 1 <= SizeOfKmap(Kmaps(data)[k])
    ensures var m := Kmaps(data)[k];
            forall i: nat :: m.virt / PGSIZE / ENTRIES <= i <= (m.virt + SizeOfKmap(m) - 1) / PGSIZE / ENTRIES ==> KernelTable(i)
  {
    var m := Kmaps(data)[k];
    if k == 1 {
      assert SizeOfKmap(m) == (data - USER - EXTPAGES) * PGSIZE;
    } else if k == 2 {
      assert SizeOfKmap(m) == (PHYSPAGES - (data - USER)) * PGSIZE;
    }
  }

  lemma SetupTables(mem: seq<Page>, d: nat, data: nat)
    requires NoOtherTables(mem, d) && GoodData(data) && forall v: nat :: v < VPAGES ==> PteOf(mem, d, v) == KernelPte(data, v)
    ensures KernelTables(mem, d)
  {
    forall i: nat | i < ENTRIES && KernelTable(i)
      ensures Present(mem[d][i])
    {
      assert PteOf(mem, d, i * ENTRIES) == KernelPte(data, i * ENTRIES) != 0;
    }
  }

  lemma DirectoryKept(mem: seq<Page>, mem': seq<Page>, d: nat)
    requires d < |mem| && d < |mem'| && mem'[d] == mem[d]
    ensures KernelTables(mem', d) <==> KernelTables(mem, d)
  {
  }

  /** A table for a user page is none of the kernel's. */
  lemma UserTables(mem: seq<Page>, mem': seq<Page>, d: nat, a: nat)
    requires TablesBetween(mem, mem', d, a, a) && a < USER
    ensures KernelTables(mem', d) <==> KernelTables(mem, d)
  {
  }

  predicate Managed(start: nat, p: nat) {
    start <= p < PHYSPAGES
  }

  class Vm {
    const data: nat                     // the page of the kernel's data section
    var mem: seq<Page>
    var freelist: Word
    ghost var free: seq<nat>
    ghost var owner: Owners             // the pages that the allocator was given

    ghost predicate Valid()
      reads this
    {
      Spaces(mem, owner) && FreeList(mem, owner, freelist, free) && GoodData(data)
    }

    /** kinit: the pages from start on, in use by nobody, are freed. */
    constructor (data: nat, start: nat, memory: seq<Page>)
      requires GoodData(data) && 0 < start <= PHYSPAGES == |memory|
      ensures Valid() && this.data == data
      ensures forall p: nat :: p in owner <==> Managed(start, p)
      ensures (forall p :: p in owner ==> owner[p] == Free) && |free| == PHYSPAGES - start
    {
      this.data, mem, freelist, free := data, memory, 0, [];
      owner := map p: nat | p < PHYSPAGES && Managed(start, p) :: Loose;
      new;
      Freerange(start * PGSIZE, PHYSPAGES * PGSIZE);
    }

    /** freerange of physical addresses: every whole page between them is freed. */
    method Freerange(pstart: nat, pend: nat)
      requires Valid() && pend <= PHYSPAGES * PGSIZE
      requires forall p: nat :: PagesUpTo(pstart) <= p && (p + 1) * PGSIZE <= pend ==> p in owner && owner[p] == Loose
      modifies `mem, `freelist, `free, `owner
      ensures Valid() && owner.Keys == old(owner).Keys
      ensures forall p :: p in owner ==>
                owner[p] == if PagesUpTo(pstart) <= p && (p + 1) * PGSIZE <= pend then Free else old(owner)[p]
      ensures |free| == |old(free)| + if PagesUpTo(pstart) <= pend / PGSIZE then pend / PGSIZE - PagesUpTo(pstart) else 0
    {
      hide Spaces, FreeList, SamePtes;
      var p := PagesUpTo(pstart);
      while (p + 1) * PGSIZE <= pend
        invariant p >= PagesUpTo(pstart) && Valid() && owner.Keys == old(owner).Keys
        invariant forall q :: q in owner ==>
                    owner[q] == if PagesUpTo(pstart) <= q && (q + 1) * PGSIZE <= pend && q < p then Free else old(owner)[q]
        invariant |free| == |old(free)| + p - PagesUpTo(pstart) && (p == PagesUpTo(pstart) || p * PGSIZE <= pend)
        decreases pend - p * PGSIZE
      {
        KfreeLoose(p);
        p := p + 1;
      }
    }

    /** kalloc: the first free page, or 0 if there is none. */
    method Kalloc() returns (p: nat)
      requires Valid()
      modifies `freelist, `free, `owner
      ensures Valid()
      ensures p == 0 <==> old(free) == []
      ensures p == 0 ==> free == old(free) && owner == old(owner) && freelist == old(freelist)
      ensures p != 0 ==> p < |mem| == PHYSPAGES && p == old(free)[0] && free == old(free)[1..]
                         && p in old(owner) && old(owner)[p] == Free && owner == old(owner)[p := Loose]
    {
      hide Spaces, FreeList;
      SizeOf(mem, owner, freelist, free);
      EmptyList(mem, owner, freelist, free);
      var r := freelist;
      if r == 0 {
        return 0;
      }
      PoppedFree(mem, owner, freelist, free);
      p := (r - KERNBASE) / PGSIZE;
      ReuseKeeps(mem, owner, p, Loose);
      freelist := mem[p][0];
      free, owner := free[1..], owner[p := Loose];
    }

    /** kfree: the page is junk but for the link, and first on the list; the address spaces are the caller's concern. */
    method Kfree(p: nat)
      requires FreeList(mem, owner, freelist, free) && p in owner && !owner[p].Free? && 0 < p < |mem|
      modifies `mem, `freelist, `free, `owner
      ensures FreeList(mem, owner, freelist, free) && free == [p] + old(free) && owner == old(owner)[p := Free]
      ensures mem == old(mem)[p := Filled(0x01010101)[0 := old(freelist)]]
    {
      hide FreeList;
      var junk := Filled(0x01010101);
      mem := mem[p := junk];
      var r := mem[p][0 := freelist];
      mem := mem[p := r];
      assert mem == old(mem)[p := r];
      PushedFree(old(mem), owner, freelist, free, p, r);
      SizeOf(old(mem), owner, freelist, free);
      freelist := KERNBASE + p * PGSIZE;
      free, owner := [p] + free, owner[p := Free];
    }

    /** kfree of a page that is in nobody's address space. */
    method KfreeLoose(p: nat)
      requires Valid() && p in owner && owner[p] == Loose
      modifies `mem, `freelist, `free, `owner
      ensures Valid() && free == [p] + old(free) && owner == old(owner)[p := Free]
      ensures p < |old(mem)| && |mem| == |old(mem)| && mem == old(mem)[p := mem[p]] && SamePtes(old(mem), mem, old(owner))
    {
      hide FreeList;
      Kfree(p);
      WriteKeeps(old(mem), old(owner), p, mem[p]);
      ReuseKeeps(mem, old(owner), p, Free);
    }

    /** memset or memmove of a whole page. */
    method Fill(p: nat, x: Page)
      requires Valid() && p in owner && owner[p] == Loose
      modifies `mem
      ensures Valid() && p < |old(mem)| && mem == old(mem)[p := x] && SamePtes(old(mem), mem, owner)
    {
      hide FreeList;
      WriteKeeps(mem, owner, p, x);
      FreeListKeeps(mem, owner, freelist, free, p, x, Loose);
      mem := mem[p := x];
    }

    /** walkpgdir: the table page for virtual page v, allocated on request; not ok if there is none. */
    method Walkpgdir(d: nat, v: nat, alloc: bool) returns (t: nat, ok: bool)
      requires Valid() && IsDir(mem, owner, d) && v < VPAGES
      modifies `mem, `freelist, `free, `owner
      ensures Valid() && IsDir(mem, owner, d)
      ensures SamePtes(old(mem), mem, old(owner))
      ensures Confined(old(mem), old(owner), mem, owner, d) && FramesKept(old(mem), old(owner), mem, owner, d, 0, 0)
      ensures ok ==> Present(mem[d][v / ENTRIES]) && t == Addr(mem[d][v / ENTRIES])
      ensures !alloc || !ok ==> mem == old(mem) && owner == old(owner) && free == old(free) && freelist == old(freelist)
      ensures !ok ==> !Present(mem[d][v / ENTRIES]) && (alloc ==> free == [])
      ensures TablesBetween(old(mem), mem, d, v, v)
      ensures |free| + Tables(mem[d], ENTRIES) == |old(free)| + Tables(old(mem)[d], ENTRIES)
    {
      hide Spaces, FreeList, Confined, FramesKept, SamePtes;
      SameConfined(mem, owner, d);
      SameOneself(mem, owner);
      var pde := mem[d][v / ENTRIES];
      if Present(pde) {
        return Addr(pde), true;
      }
      if !alloc {
        return 0, false;
      }
      t := Kalloc();
      if t == 0 {
        return 0, false;
      }
      Fill(t, Filled(0));
      ghost var mem1, owner1 := mem, owner;
      SameAfterWrite(old(mem), old(owner), owner1, t, Filled(0));
      MemorySize(mem, owner, freelist, free);
      mem := mem[d := mem[d][v / ENTRIES := Entry(t, PTE_W + PTE_U)]];
      NewTable(mem1, owner1, d, v / ENTRIES, t, Entry(t, PTE_W + PTE_U));
      FreeListKeeps(mem1, owner1, freelist, free, d, mem[d], Dir);
      FreeListKeeps(mem, owner1, freelist, free, t, mem[t], Table(d, v / ENTRIES));
      assert mem == mem[t := mem[t]];
      owner := owner[t := Table(d, v / ENTRIES)];
      assert owner == old(owner)[t := Table(d, v / ENTRIES)];
      TablesSet(mem1[d], v / ENTRIES, Entry(t, PTE_W + PTE_U), ENTRIES);
      SameTwice(old(mem), mem1, mem, old(owner), owner1);
      TableConfined(old(mem), old(owner), d, v / ENTRIES, t, Filled(0), mem[d]);
      assert mem == old(mem)[t := Filled(0)][d := mem[d]];
      ok := true;
    }

    /** One turn of mappages: v must not be mapped yet, or the kernel panics. */
    method MapPage(d: nat, v: nat, p: nat, perm: nat) returns (ok: bool)
      requires Valid() && IsDir(mem, owner, d) && v < VPAGES && !Present(PteOf(mem, d, v))
      requires p < VPAGES && perm < PGSIZE && (v < USER ==> p in owner && owner[p] == Loose)
      modifies `mem, `freelist, `free, `owner
      ensures Valid() && IsDir(mem, owner, d)
      ensures forall u: nat :: u < VPAGES ==> PteOf(mem, d, u) == if ok && u == v then Entry(p, perm) else PteOf(old(mem), d, u)
      ensures ok ==> Confined(old(mem), Given(old(owner), v, p), mem, owner, d)
      ensures ok && v < USER ==> p < |mem| && p < |old(mem)| && owner[p] == Frame(d, v) && mem[p] == old(mem)[p]
      ensures ok ==> FramesKept(old(mem), old(owner), mem, owner, d, 0, 0)
      ensures !ok ==> mem == old(mem) && owner == old(owner) && free == old(free) == [] && !Present(mem[d][v / ENTRIES])
      ensures TablesBetween(old(mem), mem, d, v, v)
      ensures |free| + Tables(mem[d], ENTRIES) == |old(free)| + Tables(old(mem)[d], ENTRIES)
    {
      hide Spaces, FreeList, Confined, FramesKept, SamePtes, OnePte;
      MemorySize(mem, owner, freelist, free);
      var t;
      t, ok := Walkpgdir(d, v, true);
      SamePtesOf(old(mem), mem, old(owner), d);
      if !ok {
        return;
      }
      ghost var mem1, owner1 := mem, owner;
      LooseKept(old(mem), old(owner), mem1, owner1, d, v, p);
      TableInMemory(mem, owner, d, v / ENTRIES);
      SetPte(mem, owner, d, v, Entry(p, perm));
      SetTable(mem, owner, freelist, free, d, v, p, Entry(p, perm));
      mem := mem[t := mem[t][v % ENTRIES := Entry(p, perm)]];
      MapConfined(old(mem), old(owner), mem1, owner1, d, t, mem[t], v, p);
      if v < USER {
        owner := owner[p := Frame(d, v)];
      }
      OnePteOf(mem1, mem, owner1, d, v, Entry(p, perm));
    }

    /** mappages: size bytes from va, not mapped yet, to pa; not ok if a table cannot be allocated. */
    method Mappages(d: nat, va: nat, size: nat, pa: nat, perm: nat) returns (ok: bool)
      requires Valid() && IsDir(mem, owner, d) && perm < PGSIZE
      requires 1 <= size && va + size <= UINT && pa + size <= UINT && va % PGSIZE == 0 && pa % PGSIZE == 0
      requires forall v: nat :: va / PGSIZE <= v <= (va + size - 1) / PGSIZE && v < VPAGES ==> !Present(PteOf(mem, d, v))
      requires va / PGSIZE >= USER || (size == PGSIZE && pa / PGSIZE in owner && owner[pa / PGSIZE] == Loose)
      modifies `mem, `freelist, `free, `owner
      ensures Valid() && IsDir(mem, owner, d)
      ensures ok ==> Mapped(old(mem), mem, d, va / PGSIZE, (va + size - 1) / PGSIZE, pa / PGSIZE, perm)
      ensures !ok ==> free == [] && Tables(mem[d], ENTRIES) < ENTRIES && SameBelow(old(mem), mem, d, va / PGSIZE)
      ensures Confined(old(mem), if ok then Given(old(owner), va / PGSIZE, pa / PGSIZE) else old(owner), mem, owner, d)
      ensures FramesKept(old(mem), old(owner), mem, owner, d, 0, 0)
      ensures va / PGSIZE < USER ==> FrameGiven(old(mem), old(owner), mem, owner, d, va / PGSIZE, pa / PGSIZE, ok)
      ensures TablesBetween(old(mem), mem, d, va / PGSIZE, (va + size - 1) / PGSIZE)
      ensures |free| + Tables(mem[d], ENTRIES) == |old(free)| + Tables(old(mem)[d], ENTRIES)
    {
      hide Spaces, FreeList, Confined, FramesKept, Entry, Mapped, SameBelow, FrameGiven, TablesBetween;
      Range(va, size, pa);
      ok := MapRange(d, va / PGSIZE, (va + size - 1) / PGSIZE, pa / PGSIZE, perm);
    }

    /** mappages' loop. */
    method MapRange(d: nat, first: nat, last: nat, p: nat, perm: nat) returns (ok: bool)
      requires Valid() && IsDir(mem, owner, d) && perm < PGSIZE
      requires first <= last < VPAGES && p + (last - first) < VPAGES
      requires forall v: nat :: first <= v <= last ==> !Present(PteOf(mem, d, v))
      requires first >= USER || (first == last && p in owner && owner[p] == Loose)
      modifies `mem, `freelist, `free, `owner
      ensures Valid() && IsDir(mem, owner, d)
      ensures ok ==> Mapped(old(mem), mem, d, first, last, p, perm)
      ensures !ok ==> free == [] && Tables(mem[d], ENTRIES) < ENTRIES && SameBelow(old(mem), mem, d, first)
      ensures Confined(old(mem), if ok then Given(old(owner), first, p) else old(owner), mem, owner, d)
      ensures FramesKept(old(mem), old(owner), mem, owner, d, 0, 0)
      ensures first < USER ==> FrameGiven(old(mem), old(owner), mem, owner, d, first, p, ok)
      ensures TablesBetween(old(mem), mem, d, first, last)
      ensures |free| + Tables(mem[d], ENTRIES) == |old(free)| + Tables(old(mem)[d], ENTRIES)
    {
      hide Spaces, FreeList, Confined, FramesKept, Entry, TablesBetween;
      SameConfined(mem, owner, d);
      NoTablesMade(mem, d, first, last);
      var a, pa := first, p;
      while true
        invariant Valid() && IsDir(mem, owner, d) && first <= a <= last && pa == p + (a - first) && |mem| == |old(mem)|
        invariant a == first ==> mem == old(mem) && owner == old(owner) && free == old(free)
        invariant a > first ==> first >= USER
        invariant TablesBetween(old(mem), mem, d, first, last)
        invariant a > first ==> Mapped(old(mem), mem, d, first, a - 1, p, perm)
        invariant Confined(old(mem), old(owner), mem, owner, d) && FramesKept(old(mem), old(owner), mem, owner, d, 0, 0)
        invariant |free| + Tables(mem[d], ENTRIES) == |old(free)| + Tables(old(mem)[d], ENTRIES)
        decreases last - a
      {
        ghost var mem1, owner1 := mem, owner;
        ok := MapPage(d, a, pa, perm);
        TablesMore(old(mem), mem1, mem, d, first, last, a);
        if !ok {
          MissingTable(mem[d], a / ENTRIES);
          return;
        }
        KeptTwice(old(mem), old(owner), mem1, owner1, mem, owner, d, 0, 0, 0, 0);
        if a > first {
          ConfinedTwice(old(mem), old(owner), mem1, owner1, mem, owner, d);
        }
        if a == last {
          return;
        }
        a, pa := a + 1, pa + 1;
      }
    }

    /** deallocuvm: the pages from newsz up to oldsz are unmapped and their frames freed. */
    method Deallocuvm(d: nat, oldsz: nat, newsz: nat) returns (r: nat)
      requires Valid() && IsDir(mem, owner, d) && oldsz <= KERNBASE
      modifies `mem, `freelist, `free, `owner
      ensures Valid() && IsDir(mem, owner, d) && mem[d] == old(mem)[d]
      ensures r == if newsz >= oldsz then oldsz else newsz
      ensures forall v: nat :: v < VPAGES ==>
                PteOf(mem, d, v) == if PagesUpTo(newsz) <= v < PagesUpTo(oldsz) && Present(PteOf(old(mem), d, v)) then 0 else PteOf(old(mem), d, v)
      ensures Confined(old(mem), old(owner), mem, owner, d)
      ensures FramesKept(old(mem), old(owner), mem, owner, d, PagesUpTo(newsz), PagesUpTo(oldsz))
      ensures old(KernelHidden(mem, d)) ==> KernelHidden(mem, d)
      ensures |free| >= |old(free)|
    {
      hide Spaces, FreeList, Confined, FramesKept;
      SameConfined(mem, owner, d);
      NoPages(newsz, oldsz);
      if newsz >= oldsz {
        return oldsz;
      }
      var a := PagesUpTo(newsz);
      ghost var lo, hi := a, PagesUpTo(oldsz);
      while a * PGSIZE < oldsz
        invariant Valid() && IsDir(mem, owner, d) && mem[d] == old(mem)[d] && lo <= a
        invariant forall v: nat :: v < VPAGES ==>
                    PteOf(mem, d, v) == if lo <= v < hi && v < a then Cleared(PteOf(old(mem), d, v)) else PteOf(old(mem), d, v)
        invariant Confined(old(mem), old(owner), mem, owner, d) && FramesKept(old(mem), old(owner), mem, owner, d, lo, hi)
        invariant |free| >= |old(free)|
        decreases oldsz - a * PGSIZE
      {
        PageInSize(a, oldsz);
        var t, ok := Walkpgdir(d, a, false);
        if ok {
          TableInMemory(mem, owner, d, a / ENTRIES);
        }
        if !ok {
          Unmapped(mem, d, a);
          a := (a / ENTRIES + 1) * ENTRIES - 1;
        } else if Present(mem[t][a % ENTRIES]) {
          ghost var mem1, owner1 := mem, owner;
          Unmap(d, a, t);
          ConfinedTwice(old(mem), old(owner), mem1, owner1, mem, owner, d);
          KeptTwice(old(mem), old(owner), mem1, owner1, mem, owner, d, lo, hi, a, a + 1);
        }
        a := a + 1;
        PageInSize(a, oldsz);
      }
      PageInSize(a, oldsz);
      HiddenKept(old(mem), mem, d);
      r := newsz;
    }

    /** The frame of a mapped user page is freed, and its entry cleared. */
    method Unmap(d: nat, v: nat, t: nat)
      requires Valid() && IsDir(mem, owner, d) && v < USER && Present(mem[d][v / ENTRIES]) && t == Addr(mem[d][v / ENTRIES])
      requires Present(PteOf(mem, d, v))
      modifies `mem, `freelist, `free, `owner
      ensures Valid() && IsDir(mem, owner, d) && mem[d] == old(mem)[d]
      ensures forall u: nat :: u < VPAGES ==> PteOf(mem, d, u) == if u == v then 0 else PteOf(old(mem), d, u)
      ensures Confined(old(mem), old(owner), mem, owner, d) && FramesKept(old(mem), old(owner), mem, owner, d, v, v + 1)
      ensures |free| == |old(free)| + 1
    {
      hide FreeList, Confined, FramesKept, OnePte, Spaces;
      TableInMemory(mem, owner, d, v / ENTRIES);
      UserFrame(mem, owner, d, v);
      var pa := Addr(mem[t][v % ENTRIES]);
      WriteKeeps(mem, owner, pa, Filled(0x01010101)[0 := freelist]);
      SamePtesOf(mem, mem[pa := Filled(0x01010101)[0 := freelist]], owner, d);
      Kfree(pa);
      ghost var mem1 := mem;
      SetPte(mem, old(owner), d, v, 0);
      mem := mem[t := mem[t][v % ENTRIES := 0]];
      UnmapConfined(old(mem), old(owner), d, v, pa, mem1[pa], t, mem[t]);
      OnePteOf(mem1, mem, old(owner), d, v, 0);
      ClearPteKeeps(mem1, old(owner), mem, d, v, pa);
      FreeListKeeps(mem1, owner, freelist, free, t, mem[t], owner[t]);
    }

    /** freevm: the user frames, the page tables and the directory of d, all freed. */
    method Freevm(d: nat)
      requires Valid() && IsDir(mem, owner, d)
      modifies `mem, `freelist, `free, `owner
      ensures Valid() && d in owner && owner[d] == Free
      ensures Confined(old(mem), old(owner), mem, owner, d)
    {
      hide Spaces, FreeList, Confined, FramesKept, SamePtes, PteOf, Freeing, ForeignKept;
      var r := Deallocuvm(d, KERNBASE, 0);
      AllUnmapped(old(mem), mem, d);
      ghost var mem1, owner1 := mem, owner;
      RetireKeeps(mem, owner, d);
      RetiredList(mem, owner, freelist, free, d);
      FreeingStart(mem, owner, d);
      owner := Retired(owner, d);
      var i := 0;
      while i < ENTRIES
        invariant i <= ENTRIES && Valid() && |mem| == |mem1| && d < |mem| && mem[d] == mem1[d]
        invariant Freeing(owner1, owner, d, i) && ForeignKept(mem1, owner1, mem, d)
      {
        FreeTable(d, i, mem1, owner1);
        i := i + 1;
      }
      FreeDirectory(d, mem1, owner1);
      ConfinedTwice(old(mem), old(owner), mem1, owner1, mem, owner, d);
    }

    /** One turn of freevm's loop. */
    method FreeTable(d: nat, i: nat, ghost mem1: seq<Page>, ghost owner1: Owners)
      requires Valid() && Spaces(mem1, owner1) && IsDir(mem1, owner1, d) && i < ENTRIES
      requires |mem| == |mem1| && d < |mem| && mem[d] == mem1[d]
      requires Freeing(owner1, owner, d, i) && ForeignKept(mem1, owner1, mem, d)
      modifies `mem, `freelist, `free, `owner
      ensures Valid() && |mem| == |mem1| && mem[d] == mem1[d]
      ensures Freeing(owner1, owner, d, i + 1) && ForeignKept(mem1, owner1, mem, d)
    {
      hide Spaces, FreeList, SamePtes, PteOf;
      if Present(mem[d][i]) {
        var v := Addr(mem[d][i]);
        TableInMemory(mem1, owner1, d, i);
        FreeingStep(mem1, owner1, owner, d, i, v);
        KfreeLoose(v);
      } else {
        NoTableAt(mem1, owner1, owner, d, i);
      }
    }

    /** The end of freevm. */
    method FreeDirectory(d: nat, ghost mem1: seq<Page>, ghost owner1: Owners)
      requires Valid() && Spaces(mem1, owner1) && IsDir(mem1, owner1, d) && |mem| == |mem1|
      requires Freeing(owner1, owner, d, ENTRIES) && ForeignKept(mem1, owner1, mem, d)
      requires forall p :: p in owner1 && owner1[p].Frame? ==> owner1[p].d != d
      modifies `mem, `freelist, `free, `owner
      ensures Valid() && d in owner && owner[d] == Free && Confined(mem1, owner1, mem, owner, d)
    {
      hide Spaces, FreeList, SamePtes, PteOf, Confined;
      ghost var owner2 := owner;
      KfreeLoose(d);
      assert owner[d := Loose] == owner2;
      ConfinedFreed(mem1, owner1, mem, owner, d);
    }

    /**
     setupkvm: a new address space with the kernel's mappings and no user pages; 0 if
     memory runs out, and then nothing is lost.
     */
    method Setupkvm() returns (d: nat)
      requires Valid()
      modifies `mem, `freelist, `free, `owner
      ensures Valid()
      ensures d != 0 ==> IsDir(mem, owner, d) && d in old(owner) && old(owner)[d] == Free
                         && KernelHidden(mem, d) && forall v: nat :: v < VPAGES ==> PteOf(mem, d, v) == KernelPte(data, v)
      ensures d != 0 ==> KernelTables(mem, d) && KernelMapped(mem, d, data)
      ensures d != 0 ==> Confined(old(mem), old(owner), mem, owner, d) && |free| + 1 + Tables(mem[d], ENTRIES) == |old(free)|
      ensures d == 0 ==> owner == old(owner) && UsedKept(old(mem), old(owner), mem) && |old(free)| <= ENTRIES
    {
      hide Spaces, FreeList, Confined, FramesKept, SamePtes, Kmaps, KernelPte, UsedKept, Mapped, SameBelow, TablesBetween, NoOtherTables, KernelMapped, KernelHidden, KernelTables;
      SameConfined(mem, owner, 0);
      UsedKeptAlways(mem, owner);
      d := Kalloc();
      if d == 0 {
        return 0;
      }
      Fill(d, Filled(0));
      NewDir(mem, owner, d);
      FreeListKeeps(mem, owner, freelist, free, d, mem[d], Dir);
      owner := owner[d := Dir];
      NewDirConfined(old(mem), old(owner), mem, owner, d);
      NoTables(ENTRIES);
      EmptyDirectory(mem, d);
      KernelBelow(data);
      var kmap := Kmaps(data);
      var k := 0;
      while k < |kmap|
        invariant k <= |kmap| && Valid() && IsDir(mem, owner, d) && Confined(old(mem), old(owner), mem, owner, d)
        invariant forall v: nat :: v < VPAGES ==> PteOf(mem, d, v) == if v < Below(data, k) then KernelPte(data, v) else 0
        invariant |free| + 1 + Tables(mem[d], ENTRIES) == |old(free)| && NoOtherTables(mem, d)
      {
        KmapFits(data, k);
        ghost var mem1, owner1 := mem, owner;
        var size := (kmap[k].end + UINT - kmap[k].start) % UINT;
        var ok := Mappages(d, kmap[k].virt, size, kmap[k].start, kmap[k].perm);
        ConfinedTwice(old(mem), old(owner), mem1, owner1, mem, owner, d);
        if !ok {
          GiveUp(d, old(mem), old(owner));
          return 0;
        }
        KmapDone(data, k, mem1, mem, d);
        KmapTables(data, k, mem1, mem, d);
        k := k + 1;
      }
      SetupHidden(mem, d, data);
      SetupTables(mem, d, data);
    }

    /** kalloc, filling the page, and mappages, as allocuvm and copyuvm do for one page; without success f is 0 or still in hand. */
    method TryPage(d: nat, a: nat, x: Page, perm: nat) returns (f: nat, ok: bool)
      requires Valid() && IsDir(mem, owner, d) && a < USER && perm < PGSIZE && !Present(PteOf(mem, d, a))
      modifies `mem, `freelist, `free, `owner
      ensures Valid() && IsDir(mem, owner, d) && |mem| == |old(mem)|
      ensures f == 0 ==> !ok && free == old(free) == [] && mem == old(mem) && owner == old(owner)
      ensures f != 0 ==> f < |mem| < VPAGES && f in old(owner) && old(owner)[f] == Free && mem[f] == x
      ensures f != 0 && !ok ==> mem == old(mem)[f := x] && owner == old(owner)[f := Loose] && SamePtes(old(mem), mem, owner)
                                && free == [] && |old(free)| == 1 && Tables(mem[d], ENTRIES) < ENTRIES && mem[d] == old(mem)[d]
      ensures ok ==> f != 0 && Confined(old(mem), old(owner), mem, owner, d) && FramesKept(old(mem), old(owner), mem, owner, d, 0, 0)
      ensures ok ==> forall v: nat :: v < VPAGES ==> PteOf(mem, d, v) == if v == a then Entry(f, perm) else PteOf(old(mem), d, v)
      ensures ok ==> |free| + Tables(mem[d], ENTRIES) + 1 == |old(free)| + Tables(old(mem)[d], ENTRIES)
      ensures old(KernelTables(mem, d)) ==> KernelTables(mem, d)
    {
      hide Spaces, FreeList, Confined, FramesKept, SamePtes, Mapped, SameBelow, FrameGiven, TablesBetween, KernelTables;
      MemorySize(mem, owner, freelist, free);
      ok := false;
      f := Kalloc();
      if f == 0 {
        return;
      }
      Fill(f, x);
      ghost var memZ, ownerZ := mem, owner;
      SamePtesOf(old(mem), memZ, ownerZ, d);
      DirectoryKept(old(mem), memZ, d);
      ok := Mappages(d, a * PGSIZE, PGSIZE, f * PGSIZE, perm);
      UserTables(memZ, mem, d, a);
      FrameResult(memZ, ownerZ, mem, owner, d, a, f, ok);
      if ok {
        FreshConfined(old(mem), old(owner), memZ, ownerZ, mem, owner, d, a, f);
        MappedOne(memZ, mem, d, a, f, perm);
      }
    }

    /**
     allocuvm: zeroed pages from oldsz up to newsz, which must not be mapped yet.  It fails if
     newsz is in the kernel, or if memory runs out, and then the space maps what it did.
     */
    method Allocuvm(d: nat, oldsz: nat, newsz: nat) returns (r: nat, ghost failed: bool)
      requires Valid() && IsDir(mem, owner, d)
      requires newsz < KERNBASE ==> Unused(mem, d, PagesUpTo(oldsz), PagesUpTo(newsz))
      modifies `mem, `freelist, `free, `owner
      ensures Valid() && IsDir(mem, owner, d)
      ensures r == if newsz >= KERNBASE || failed then 0 else if newsz < oldsz then oldsz else newsz
      ensures newsz >= KERNBASE || newsz < oldsz ==> !failed && mem == old(mem) && owner == old(owner)
      ensures newsz < KERNBASE && !failed ==> Grown(old(mem), mem, d, PagesUpTo(oldsz), PagesUpTo(newsz))
      ensures failed ==>
        && (forall v: nat :: v < VPAGES ==> PteOf(mem, d, v) == PteOf(old(mem), d, v) || !(Present(PteOf(mem, d, v)) || Present(PteOf(old(mem), d, v))))
        && |old(free)| + Tables(old(mem)[d], ENTRIES) < PagesUpTo(newsz) - PagesUpTo(oldsz) + ENTRIES
      ensures Confined(old(mem), old(owner), mem, owner, d)
      ensures FramesKept(old(mem), old(owner), mem, owner, d, PagesUpTo(oldsz), PagesUpTo(newsz))
      ensures old(KernelHidden(mem, d)) ==> KernelHidden(mem, d)
      ensures old(KernelTables(mem, d)) ==> KernelTables(mem, d)
    {
      hide Spaces, FreeList, Confined, FramesKept, SamePtes, Mapped, SameBelow, FrameGiven, Grown, Unused, KernelTables;
      failed := false;
      SameConfined(mem, owner, d);
      if newsz >= KERNBASE {
        return 0, false;
      }
      ghost var lo, hi := PagesUpTo(oldsz), PagesUpTo(newsz);
      NothingGrown(mem, d, lo, hi);
      if newsz < oldsz {
        NoPages(oldsz, newsz);
        return oldsz, false;
      }
      var a := PagesUpTo(oldsz);
      PageInSize(a, newsz);
      SizesOrdered(oldsz, newsz);
      while a * PGSIZE < newsz
        invariant Valid() && IsDir(mem, owner, d) && lo <= a <= hi <= USER && |mem| == |old(mem)|
        invariant Grown(old(mem), mem, d, lo, a) && Unused(mem, d, a, hi) && (old(KernelTables(mem, d)) ==> KernelTables(mem, d))
        invariant Confined(old(mem), old(owner), mem, owner, d) && FramesKept(old(mem), old(owner), mem, owner, d, lo, hi)
        invariant |free| + Tables(mem[d], ENTRIES) + (a - lo) == |old(free)| + Tables(old(mem)[d], ENTRIES)
        decreases newsz - a * PGSIZE
      {
        PageInSize(a, newsz);
        UnusedPage(mem, d, a, hi);
        ghost var mem1, owner1 := mem, owner;
        var f, ok := TryPage(d, a, Filled(0), PTE_W + PTE_U);
        if !ok {
          ghost var memZ, ownerZ := mem, owner;
          r := Deallocuvm(d, newsz, oldsz);
          if f != 0 {
            BorrowedKept(mem1, owner1, memZ, ownerZ, mem, owner, d, lo, hi, f);
            ghost var mem3, owner3 := mem, owner;
            SamePtesOf(mem1, memZ, ownerZ, d);
            KfreeLoose(f);
            BorrowedConfined(mem1, owner1, mem3, owner3, mem, owner, d, lo, hi, f);
            SamePtesOf(mem3, mem, owner3, d);
          }
          ConfinedTwice(old(mem), old(owner), mem1, owner1, mem, owner, d);
          KeptTwice(old(mem), old(owner), mem1, owner1, mem, owner, d, lo, hi, lo, hi);
          ShrunkAgain(old(mem), mem1, mem, d, lo, a, hi);
          HiddenKept(old(mem), mem, d);
          DirectoryKept(mem1, mem, d);
          return 0, true;
        }
        ConfinedTwice(old(mem), old(owner), mem1, owner1, mem, owner, d);
        KeptTwice(old(mem), old(owner), mem1, owner1, mem, owner, d, lo, hi, 0, 0);
        GrownOneMore(old(mem), mem1, owner1, mem, owner, d, lo, a, hi, f);
        a := a + 1;
        PageInSize(a, newsz);
      }
      GrownHidden(old(mem), mem, d, lo, hi);
      r := newsz;
    }

    /**
     copyuvm: a new address space whose user pages below sz hold what src's hold, with the
     same flags, in frames of their own; 0 if memory runs out, and then nothing is lost.
     A page of src below sz that is not present panics.
     */
    method Copyuvm(src: nat, sz: nat) returns (d: nat)
      requires Valid() && IsDir(mem, owner, src) && sz <= KERNBASE
      requires forall v: nat :: v < PagesUpTo(sz) ==> v < VPAGES && Present(PteOf(mem, src, v))
      modifies `mem, `freelist, `free, `owner
      ensures Valid()
      ensures d == 0 ==> owner == old(owner) && UsedKept(old(mem), old(owner), mem) && |old(free)| <= PagesUpTo(sz) + ENTRIES
      ensures d != 0 ==> IsDir(mem, owner, d) && d in old(owner) && old(owner)[d] == Free && Confined(old(mem), old(owner), mem, owner, d)
      ensures d != 0 ==> Copied(old(mem), src, mem, d, data, PagesUpTo(sz)) && KernelHidden(mem, d) && KernelTables(mem, d)
    {
      hide Spaces, FreeList, Confined, FramesKept, SamePtes, Mapped, SameBelow, FrameGiven, UsedKept, KernelPte, Copied, KernelTables;
      MemorySize(mem, owner, freelist, free);
      d := Setupkvm();
      if d == 0 {
        return 0;
      }
      MemorySize(mem, owner, freelist, free);
      SizesOrdered(0, sz);
      NothingCopied(old(mem), src, mem, d, data);
      var i := 0;
      while i * PGSIZE < sz
        invariant i <= PagesUpTo(sz) <= USER && Valid() && |mem| == |old(mem)|
        invariant IsDir(mem, owner, d) && d in old(owner) && old(owner)[d] == Free
        invariant Confined(old(mem), old(owner), mem, owner, d) && Copied(old(mem), src, mem, d, data, i)
        invariant KernelTables(mem, d)
        invariant |free| + 1 + Tables(mem[d], ENTRIES) + i == |old(free)|
        decreases sz - i * PGSIZE
      {
        PageInSize(i, sz);
        OthersUnchanged(old(mem), old(owner), mem, owner, d, src, i);
        ghost var mem1, owner1 := mem, owner;
        var t, found := Walkpgdir(src, i, false);
        TableInMemory(mem, owner, src, i / ENTRIES);
        var pte := mem[t][i % ENTRIES];
        var pa, flags := Addr(pte), Flags(pte);
        UserFrame(mem, owner, src, i);
        NotCopiedYet(old(mem), src, mem, d, data, i);
        var f, ok := TryPage(d, i, mem[pa], flags);
        if !ok {
          if f != 0 {
            ghost var mem3, owner3 := mem, owner;
            SameConfined(mem3, owner3, d);
            BorrowedKept(mem1, owner1, mem3, owner3, mem3, owner3, d, 0, 0, f);
            KfreeLoose(f);
            BorrowedConfined(mem1, owner1, mem3, owner3, mem, owner, d, 0, 0, f);
            ConfinedTwice(old(mem), old(owner), mem1, owner1, mem, owner, d);
          }
          GiveUp(d, old(mem), old(owner));
          return 0;
        }
        ConfinedTwice(old(mem), old(owner), mem1, owner1, mem, owner, d);
        CopiedOneMore(old(mem), src, mem1, owner1, mem, owner, d, data, i, f);
        i := i + 1;
        PageInSize(i, sz);
      }
      PageInSize(i, sz);
      CopyHidden(old(mem), src, mem, d, data, i);
    }

    /** Out of memory: freevm of the half-made space d leaves every page as it was. */
    method GiveUp(d: nat, ghost mem0: seq<Page>, ghost owner0: Owners)
      requires Valid() && IsDir(mem, owner, d) && Spaces(mem0, owner0) && Confined(mem0, owner0, mem, owner, d) && !IsDir(mem0, owner0, d)
      modifies `mem, `freelist, `free, `owner
      ensures Valid() && owner == owner0 && UsedKept(mem0, owner0, mem)
    {
      hide Spaces, FreeList, Confined, UsedKept;
      ghost var mem1, owner1 := mem, owner;
      Freevm(d);
      ConfinedTwice(mem0, owner0, mem1, owner1, mem, owner, d);
      NothingLeaked(mem0, owner0, mem, owner, d);
      UsedKeptBy(mem0, owner0, mem, owner, d);
    }

    /**
     uva2ka: the page that a user address maps to, or 0 if it is not present or not the
     user's; no result if its table is missing, when the code reads through a null pointer.
     */
    method Uva2ka(d: nat, v: nat) returns (p: Option<nat>)
      requires Valid() && IsDir(mem, owner, d) && v < VPAGES && KernelHidden(mem, d)
      modifies `mem, `freelist, `free, `owner
      ensures mem == old(mem) && owner == old(owner) && free == old(free) && freelist == old(freelist)
      ensures p == None <==> !Present(mem[d][v / ENTRIES])
      ensures p.Some? ==>
        if UserPage(PteOf(mem, d, v))
        then p.value == Addr(PteOf(mem, d, v)) && 0 < p.value < |mem| && p.value in owner && owner[p.value] == Frame(d, v)
        else p.value == 0
    {
      hide Spaces, FreeList, Confined, FramesKept, SamePtes;
      var t, found := Walkpgdir(d, v, false);
      if !found {
        return None;
      }
      TableInMemory(mem, owner, d, v / ENTRIES);
      var pte := mem[t][v % ENTRIES];
      if !Present(pte) {
        return Some(0);
      }
      if Flags(pte) / PTE_U % 2 == 0 {
        return Some(0);
      }
      NotKernel(mem, d, v);
      UserFrame(mem, owner, d, v);
      p := Some(Addr(pte));
    }

    /**
     copyout: the bytes written at user address va, page by page, up to the first page that
     is not the user's, or whose table is missing.
     */
    method Copyout(d: nat, va: nat, bytes: seq<Byte>) returns (r: CopyResult, ghost done: nat)
      requires Valid() && IsDir(mem, owner, d) && KernelHidden(mem, d) && va < UINT && |bytes| < UINT
      modifies `mem, `freelist, `free, `owner
      ensures Valid() && owner == old(owner) && SamePtes(old(mem), mem, owner) && KernelHidden(mem, d)
      ensures Confined(old(mem), old(owner), mem, owner, d)
      ensures done <= |bytes| && CopiedOut(old(mem), mem, d, va, bytes[..done])
      ensures va + done < UINT && (done > 0 ==> va + done <= KERNBASE) && mem[d] == old(mem)[d]
      ensures forall a: nat :: va <= a < va + done ==> UserPage(PteOf(old(mem), d, a / PGSIZE))
      ensures done < |bytes| ==> !UserPage(PteOf(old(mem), d, (va + done) / PGSIZE))
      ensures r == if done == |bytes| then Success
                   else if Present(old(mem)[d][(va + done) / PGSIZE / ENTRIES]) then NotUser else NullTable
    {
      hide Spaces, FreeList, Confined, CopiedOut, SamePtes, PteOf, UserPage, FramesKept, KernelHidden, PutBytes;
      SameConfined(mem, owner, d);
      SameOneself(mem, owner);
      NothingCopiedOut(mem, d, va);
      assert bytes[..0] == [];
      done := 0;
      var at, buf := va, bytes;
      while buf != []
        invariant done <= |bytes| && at == va + done && buf == bytes[done..] && (done > 0 ==> at <= KERNBASE)
        invariant Valid() && owner == old(owner) && SamePtes(old(mem), mem, owner) && |mem| == |old(mem)| && mem[d] == old(mem)[d]
        invariant IsDir(mem, owner, d) && KernelHidden(mem, d) && Confined(old(mem), old(owner), mem, owner, d)
        invariant CopiedOut(old(mem), mem, d, va, bytes[..done])
        invariant forall a: nat :: va <= a < va + done ==> UserPage(PteOf(old(mem), d, a / PGSIZE))
        decreases |buf|
      {
        var v, o := at / PGSIZE, at % PGSIZE;
        var pa0 := Uva2ka(d, v);
        SamePtesOf(old(mem), mem, owner, d);
        if pa0 == None {
          NoTableNoPage(mem, d, v);
          return NullTable, done;
        }
        var pa := pa0.value;
        if pa == 0 {
          return NotUser, done;
        }
        var n := PGSIZE - o;
        if n > |buf| {
          n := |buf|;
        }
        NotKernel(mem, d, v);
        BelowKernel(at, n);
        OnePage(at, n);
        ghost var mem1 := mem;
        WriteKeeps(mem, owner, pa, PutBytes(mem[pa], o, buf[..n]));
        FreeListKeeps(mem, owner, freelist, free, pa, PutBytes(mem[pa], o, buf[..n]), owner[pa]);
        mem := mem[pa := PutBytes(mem[pa], o, buf[..n])];
        CopiedPiece(old(mem), mem1, owner, mem, d, va, bytes, done, n, pa);
        FrameConfined(mem1, owner, pa, mem[pa], d, v);
        ConfinedTwice(old(mem), old(owner), mem1, owner, mem, owner, d);
        SameTwice(old(mem), mem1, mem, owner, owner);
        StillHidden(mem1, mem, owner, d);
        done, at, buf := done + n, at + n, buf[n..];
      }
      assert bytes[..done] == bytes;
      r := Success;
    }

    /**
     exec's step for one argument string of its caller's, with its NUL: below the stack
     pointer, aligned, in 32-bit arithmetic.  A table is missing exactly if the stack
     pointer wraps around into the gap between the kernel's memory and its devices.
     */
    method PushArgument(d: nat, sz: nat, sp: nat, arg: seq<Byte>) returns (sp': nat, r: CopyResult)
      requires Valid() && IsDir(mem, owner, d) && KernelHidden(mem, d) && UserSpace(mem, d, sz)
      requires sp <= sz && 0 < |arg| <= KERNBASE
      modifies `mem, `freelist, `free, `owner
      ensures Valid() && IsDir(mem, owner, d) && KernelHidden(mem, d) && UserSpace(mem, d, sz) && owner == old(owner)
      ensures sp' == Pushed(sp, |arg|) && sp' % 4 == 0
      ensures |arg| <= sp ==> sp - |arg| - 4 < sp' <= sp - |arg|
      ensures |arg| > sp ==> sp - |arg| - 4 < sp' - UINT <= sp - |arg|
      ensures r == NullTable <==> |arg| > sp && KERNBASE + PHYSPAGES * PGSIZE <= sp' < DEVPAGE * PGSIZE
      ensures r == Success ==> sp' + |arg| <= sp && CopiedOut(old(mem), mem, d, sp', arg)
    {
      PushedIs(sp, |arg|);
      hide Spaces, FreeList, Confined, CopiedOut, SamePtes, PteOf, UserPage, KernelHidden, UserSpace;
      sp' := (sp + UINT - |arg|) % UINT;
      sp' := sp' - sp' % 4;
      ghost var done;
      r, done := Copyout(d, sp', arg);
      assert done == |arg| ==> arg[..done] == arg;
      SamePtesOf(old(mem), mem, owner, d);
      StillUserSpace(old(mem), mem, d, sz);
      PushStops(old(mem), d, sz, sp, |arg|, done);
    }
  }

  /** The stack pointer after an argument of n bytes. */
  function Pushed(sp: nat, n: nat): nat
    requires sp < UINT && n <= UINT
  {
    (sp + UINT - n) % UINT / 4 * 4
  }

  /** It is the next lower multiple of four, after a wrap-around if there is no room. */
  lemma PushedIs(sp: nat, n: nat)
    requires sp < UINT && 0 < n <= KERNBASE
    ensures Pushed(sp, n) % 4 == 0
    ensures var p := if n <= sp then Pushed(sp, n) else Pushed(sp, n) - UINT; sp - n - 4 < p <= sp - n
  {
    assert (sp + UINT - n) % UINT == if n <= sp then sp - n else sp + UINT - n;
  }

  /** An address space of exec's: every page below sz is mapped, and the kernel's tables are there. */
  ghost predicate UserSpace(mem: seq<Page>, d: nat, sz: nat) {
    sz <= KERNBASE && KernelTables(mem, d) && forall v: nat :: v < PagesUpTo(sz) && v < VPAGES ==> Present(PteOf(mem, d, v))
  }

  lemma StillUserSpace(mem: seq<Page>, mem': seq<Page>, d: nat, sz: nat)
    requires UserSpace(mem, d, sz) && d < |mem'| && mem'[d] == mem[d]
    requires forall v: nat :: v < VPAGES ==> PteOf(mem', d, v) == PteOf(mem, d, v)
    ensures UserSpace(mem', d, sz)
  {
    hide PteOf;
  }

  lemma TableOfPte(mem: seq<Page>, d: nat, v: nat)
    requires d < |mem| && v < VPAGES && Present(PteOf(mem, d, v))
    ensures Present(mem[d][v / ENTRIES])
  {
  }

  /** Where copyout stops, a table is missing exactly after a wrap-around into the gap. */
  lemma PushStops(mem: seq<Page>, d: nat, sz: nat, sp: nat, n: nat, done: nat)
    requires UserSpace(mem, d, sz) && KernelHidden(mem, d) && sp <= sz && 0 < n <= KERNBASE && done <= n
    requires var va := Pushed(sp, n);
             && va + done < UINT
             && (forall a: nat :: va <= a < va + done ==> UserPage(PteOf(mem, d, a / PGSIZE)))
             && (done < n ==> !UserPage(PteOf(mem, d, (va + done) / PGSIZE)))
    ensures var va := Pushed(sp, n);
            && (done == n ==> va + n <= sp)
            && (done < n && !Present(mem[d][(va + done) / PGSIZE / ENTRIES]) <==>
                  n > sp && KERNBASE + PHYSPAGES * PGSIZE <= va < DEVPAGE * PGSIZE)
  {
    var va := Pushed(sp, n);
    hide PteOf, UserPage;
    if n <= sp {
      assert va + n <= sp;
      if done < n {
        PageInSize((va + done) / PGSIZE, sz);
        TableOfPte(mem, d, (va + done) / PGSIZE);
      }
    } else {
      assert va >= KERNBASE;
      if done > 0 {
        NotKernel(mem, d, va / PGSIZE);
      }
      GapTables(va);
    }
  }

  /** A kernel address has no table exactly in the gap. */
  lemma GapTables(va: nat)
    requires KERNBASE <= va < UINT
    ensures USER / ENTRIES <= va / PGSIZE / ENTRIES < ENTRIES
    ensures !KernelTable(va / PGSIZE / ENTRIES) <==> KERNBASE + PHYSPAGES * PGSIZE <= va < DEVPAGE * PGSIZE
  {
  }

  /** An argument of 34 megabytes for a program of two pages reaches the gap. */
  method ArgumentInGap(memory: seq<Page>) returns (vm: Vm, d: nat, r: CopyResult)
    requires |memory| == PHYSPAGES
    ensures fresh(vm) && vm.Valid() && IsDir(vm.mem, vm.owner, d) && UserSpace(vm.mem, d, 2 * PGSIZE) && r == NullTable
  {
    hide Spaces, FreeList, Confined, FramesKept, PteOf, KernelPte, KernelTables, KernelHidden, UserPage, Grown, Unused, UserSpace;
    vm := new Vm(USER + EXTPAGES + 1, 1024, memory);
    d := vm.Setupkvm();
    NewSpaceUnused(vm.mem, d, vm.data);
    ghost var mem1 := vm.mem;
    var sz, failed := vm.Allocuvm(d, 0, 2 * PGSIZE);
    GrownUserSpace(mem1, vm.mem, d);
    var arg: seq<Byte> := seq(0x220_0000, i => 65);
    var sp;
    sp, r := vm.PushArgument(d, sz, sz, arg);
  }

  lemma NewSpaceUnused(mem: seq<Page>, d: nat, data: nat)
    requires d < |mem| && GoodData(data) && forall v: nat :: v < VPAGES ==> PteOf(mem, d, v) == KernelPte(data, v)
    ensures Unused(mem, d, PagesUpTo(0), PagesUpTo(2 * PGSIZE))
  {
    hide PteOf;
  }

  lemma GrownUserSpace(mem: seq<Page>, mem': seq<Page>, d: nat)
    requires Grown(mem, mem', d, PagesUpTo(0), PagesUpTo(2 * PGSIZE)) && KernelTables(mem', d)
    ensures UserSpace(mem', d, 2 * PGSIZE)
  {
    hide PteOf;
  }

  lemma SizeOf(mem: seq<Page>, owner: Owners, freelist: Word, free: seq<nat>)
    requires FreeList(mem, owner, freelist, free)
    ensures |mem| == PHYSPAGES
  {
  }

  lemma MemorySize(mem: seq<Page>, owner: Owners, freelist: Word, free: seq<nat>)
    requires Spaces(mem, owner) && FreeList(mem, owner, freelist, free)
    ensures |mem| == PHYSPAGES && forall p :: p in owner ==> 0 < p < |mem|
  {
  }

  lemma SameOneself(mem: seq<Page>, owner: Owners)
    ensures SamePtes(mem, mem, owner)
  {
  }

  lemma SameAfterWrite(mem: seq<Page>, owner: Owners, owner1: Owners, t: nat, x: Page)
    requires Spaces(mem, owner) && t in owner && owner[t] == Free && owner1 == owner[t := Loose]
    ensures t < |mem| && SamePtes(mem, mem[t := x], owner)
  {
    WriteKeeps(mem, owner, t, x);
  }

  lemma SameTwice(mem: seq<Page>, mem1: seq<Page>, mem2: seq<Page>, owner: Owners, owner1: Owners)
    requires SamePtes(mem, mem1, owner) && SamePtes(mem1, mem2, owner1)
    requires forall d: nat :: d in owner && owner[d] == Dir ==> d in owner1 && owner1[d] == Dir
    ensures SamePtes(mem, mem2, owner)
  {
  }

  lemma SamePtesOf(mem: seq<Page>, mem': seq<Page>, owner: Owners, d: nat)
    requires SamePtes(mem, mem', owner) && IsDir(mem, owner, d)
    ensures |mem'| == |mem| && forall v: nat :: v < VPAGES ==> PteOf(mem', d, v) == PteOf(mem, d, v)
  {
  }

  lemma OnePteOf(mem: seq<Page>, mem': seq<Page>, owner: Owners, d: nat, v: nat, e: Word)
    requires OnePte(mem, mem', owner, d, v, e) && IsDir(mem, owner, d)
    ensures |mem'| == |mem| && forall u: nat :: u < VPAGES ==> PteOf(mem', d, u) == if u == v then e else PteOf(mem, d, u)
  {
  }

  lemma UserFrame(mem: seq<Page>, owner: Owners, d: nat, v: nat)
    requires Spaces(mem, owner) && IsDir(mem, owner, d) && v < USER && Present(PteOf(mem, d, v))
    ensures var f := Addr(PteOf(mem, d, v)); 0 < f < |mem| && f in owner && owner[f] == Frame(d, v)
  {
    assert OwnsFrame(mem, owner, d, v);
  }

  /** Setting an entry of a table of d keeps everything in its place. */
  lemma SetTable(mem: seq<Page>, owner: Owners, freelist: Word, free: seq<nat>, d: nat, v: nat, p: nat, e: Word)
    requires Spaces(mem, owner) && FreeList(mem, owner, freelist, free) && IsDir(mem, owner, d) && v < VPAGES
    requires Present(mem[d][v / ENTRIES]) && !Present(PteOf(mem, d, v)) && Present(e) && Addr(e) == p
    requires v < USER ==> p in owner && owner[p] == Loose
    ensures var t := Addr(mem[d][v / ENTRIES]);
            && t < |mem| && t in owner && owner[t] == Table(d, v / ENTRIES)
            && var mem' := mem[t := mem[t][v % ENTRIES := e]];
               var owner' := if v < USER then owner[p := Frame(d, v)] else owner;
               && Spaces(mem', owner') && FreeList(mem', owner', freelist, free) && mem'[d] == mem[d]
               && IsDir(mem', owner', d)
  {
    TableInMemory(mem, owner, d, v / ENTRIES);
    SetPte(mem, owner, d, v, e);
    var t := Addr(mem[d][v / ENTRIES]);
    var mem' := mem[t := mem[t][v % ENTRIES := e]];
    assert forall c: nat :: IsDir(mem, owner, c) ==> mem'[c] == mem[c];
    hide Spaces, FreeList, OnePte;
    FreeListKeeps(mem, owner, freelist, free, t, mem'[t], owner[t]);
    if v < USER {
      UserPteKeeps(mem, owner, mem', d, v, e);
      MemorySize(mem, owner, freelist, free);
      FreeListKeeps(mem', owner, freelist, free, p, mem'[p], Frame(d, v));
    } else {
      KernelPteKeeps(mem, owner, mem', d, v, e);
    }
  }

  lemma KeptTwice(mem: seq<Page>, owner: Owners, mem1: seq<Page>, owner1: Owners, mem2: seq<Page>, owner2: Owners, d: nat,
                  lo: nat, hi: nat, a: nat, b: nat)
    requires FramesKept(mem, owner, mem1, owner1, d, lo, hi) && FramesKept(mem1, owner1, mem2, owner2, d, a, b)
    requires a >= b || lo <= a <= b <= hi
    ensures FramesKept(mem, owner, mem2, owner2, d, lo, hi)
  {
  }

  lemma UnmapConfined(mem: seq<Page>, owner: Owners, d: nat, v: nat, f: nat, x: Page, t: nat, y: Page)
    requires f in owner && owner[f] == Frame(d, v) && t in owner && owner[t].Table? && owner[t].d == d && f < |mem| && t < |mem|
    ensures Confined(mem, owner, mem[f := x][t := y], owner[f := Free], d)
    ensures FramesKept(mem, owner, mem[f := x][t := y], owner[f := Free], d, v, v + 1)
  {
  }

  lemma Unmapped(mem: seq<Page>, d: nat, a: nat)
    requires d < |mem| && a < VPAGES && !Present(mem[d][a / ENTRIES])
    ensures forall v: nat :: a <= v < (a / ENTRIES + 1) * ENTRIES && v < VPAGES ==> PteOf(mem, d, v) == 0
    ensures a < (a / ENTRIES + 1) * ENTRIES <= VPAGES
  {
    forall v: nat | a <= v < (a / ENTRIES + 1) * ENTRIES && v < VPAGES
      ensures v / ENTRIES == a / ENTRIES
    {
    }
  }

  lemma NoPages(newsz: nat, oldsz: nat)
    ensures newsz >= oldsz ==> PagesUpTo(newsz) >= PagesUpTo(oldsz)
  {
  }

  lemma MissingTable(p: Page, i: nat)
    requires i < ENTRIES && !Present(p[i])
    ensures Tables(p, ENTRIES) < ENTRIES
  {
    TablesSet(p, i, 1, ENTRIES);
  }

  lemma Range(va: nat, size: nat, pa: nat)
    requires 1 <= size && va + size <= UINT && pa % PGSIZE == 0 && va % PGSIZE == 0 && pa + size <= UINT
    ensures var first, last := va / PGSIZE, (va + size - 1) / PGSIZE;
            && first <= last < VPAGES && pa / PGSIZE + (last - first) < VPAGES
            && (size == PGSIZE ==> first == last)
  {
  }

  lemma AllUnmapped(mem: seq<Page>, mem': seq<Page>, d: nat)
    requires d < |mem| && d < |mem'|
    requires forall v: nat :: v < VPAGES ==>
               PteOf(mem', d, v) == if PagesUpTo(0) <= v < PagesUpTo(KERNBASE) then Cleared(PteOf(mem, d, v)) else PteOf(mem, d, v)
    ensures forall v: nat :: v < USER ==> !Present(PteOf(mem', d, v))
  {
  }

  lemma RetiredList(mem: seq<Page>, owner: Owners, freelist: Word, free: seq<nat>, d: nat)
    requires FreeList(mem, owner, freelist, free) && d in owner && owner[d] == Dir
    ensures FreeList(mem, Retired(owner, d), freelist, free)
  {
    forall k: nat | k < |free|
      ensures LinkAt(mem, free, k)
    {
      assert LinkAt(mem, free, k);
    }
  }

  /** freevm has given up d, and freed its first i tables. */
  ghost predicate Freeing(owner1: Owners, owner: Owners, d: nat, i: nat) {
    && owner.Keys == owner1.Keys && d in owner
    && forall p :: p in owner1 ==>
         owner[p] == if owner1[p].Table? && owner1[p].d == d && owner1[p].i < i then Free else Retired(owner1, d)[p]
  }

  ghost predicate ForeignKept(mem: seq<Page>, owner: Owners, mem': seq<Page>, d: nat) {
    |mem'| == |mem| && forall p :: p in owner && p < |mem| && Foreign(owner[p], p, d) ==> mem'[p] == mem[p]
  }

  lemma FreeingStart(mem: seq<Page>, owner: Owners, d: nat)
    requires IsDir(mem, owner, d)
    ensures Freeing(owner, Retired(owner, d), d, 0) && ForeignKept(mem, owner, mem, d)
  {
  }

  lemma FreeingStep(mem: seq<Page>, owner1: Owners, owner: Owners, d: nat, i: nat, t: nat)
    requires Spaces(mem, owner1) && IsDir(mem, owner1, d) && Freeing(owner1, owner, d, i)
    requires t in owner1 && owner1[t] == Table(d, i)
    ensures owner[t] == Loose && t != d && Freeing(owner1, owner[t := Free], d, i + 1)
    ensures !Foreign(owner1[t], t, d)
  {
    forall p | p in owner1 && owner1[p] == Table(d, i)
      ensures p == t
    {
      assert Placed(mem, owner1, p) && Placed(mem, owner1, t);
    }
  }

  lemma NoTableAt(mem: seq<Page>, owner1: Owners, owner: Owners, d: nat, i: nat)
    requires Spaces(mem, owner1) && IsDir(mem, owner1, d) && i < ENTRIES && !Present(mem[d][i]) && Freeing(owner1, owner, d, i)
    ensures Freeing(owner1, owner, d, i + 1)
  {
    forall p | p in owner1
      ensures owner1[p] != Table(d, i)
    {
      assert Placed(mem, owner1, p);
    }
  }

  lemma ConfinedFreed(mem: seq<Page>, owner1: Owners, mem': seq<Page>, owner': Owners, d: nat)
    requires Spaces(mem, owner1) && IsDir(mem, owner1, d) && |mem'| == |mem| && owner'.Keys == owner1.Keys && owner'[d] == Free
    requires Freeing(owner1, owner'[d := Loose], d, ENTRIES) && ForeignKept(mem, owner1, mem', d)
    requires forall p :: p in owner1 && owner1[p].Frame? ==> owner1[p].d != d
    ensures Confined(mem, owner1, mem', owner', d)
  {
    forall p | p in owner1 && p < |mem|
      ensures if Foreign(owner1[p], p, d) then owner'[p] == owner1[p] && mem'[p] == mem[p] else !Foreign(owner'[p], p, d)
    {
      assert Placed(mem, owner1, p);
    }
  }

  /** Pages in use keep their contents. */
  ghost predicate UsedKept(mem: seq<Page>, owner: Owners, mem': seq<Page>) {
    |mem'| == |mem| && forall p :: p in owner && p < |mem| && !owner[p].Free? ==> mem'[p] == mem[p]
  }

  lemma UsedKeptAlways(mem: seq<Page>, owner: Owners)
    ensures UsedKept(mem, owner, mem)
  {
  }

  lemma UsedKeptBy(mem: seq<Page>, owner: Owners, mem': seq<Page>, owner': Owners, d: nat)
    requires Spaces(mem, owner) && Confined(mem, owner, mem', owner', d) && !IsDir(mem, owner, d)
    ensures UsedKept(mem, owner, mem')
  {
    forall p | p in owner && p < |mem| && !owner[p].Free?
      ensures mem'[p] == mem[p]
    {
      assert Placed(mem, owner, p);
    }
  }

  lemma NewDirConfined(mem: seq<Page>, owner: Owners, mem': seq<Page>, owner': Owners, d: nat)
    requires d in owner && owner[d] == Free && d < |mem| == |mem'| && mem' == mem[d := mem'[d]] && owner' == owner[d := Dir]
    ensures Confined(mem, owner, mem', owner', d)
  {
  }

  /** After k of kmap's lines, the kernel's mappings below this page are complete. */
  function Below(data: nat, k: nat): nat {
    if k == 0 then USER else if k == 1 then USER + EXTPAGES else if k == 2 then data else if k == 3 then DEVPAGE else VPAGES
  }

  lemma KernelBelow(data: nat)
    requires GoodData(data)
    ensures forall v: nat :: v < USER ==> KernelPte(data, v) == 0
    ensures |Kmaps(data)| == 4
  {
  }

  function SizeOfKmap(m: Kmap): nat
    requires m.start < UINT
  {
    (m.end + UINT - m.start) % UINT
  }

  lemma KmapFits(data: nat, k: nat)
    requires GoodData(data) && k < 4
    ensures var m := Kmaps(data)[k];
            && m.start < UINT && m.perm < PGSIZE && m.virt % PGSIZE == 0 && m.start % PGSIZE == 0
            && 1 <= SizeOfKmap(m) && m.virt + SizeOfKmap(m) <= UINT && m.start + SizeOfKmap(m) <= UINT
            && USER <= Below(data, k) <= m.virt / PGSIZE
            && (m.virt + SizeOfKmap(m) - 1) / PGSIZE < Below(data, k + 1) <= VPAGES
  {
    if k == 1 {
      assert SizeOfKmap(Kmaps(data)[1]) == (data - USER - EXTPAGES) * PGSIZE;
    } else if k == 2 {
      assert SizeOfKmap(Kmaps(data)[2]) == (PHYSPAGES - (data - USER)) * PGSIZE;
    }
  }

  /** The first and the last page of a line of kmap, and the page that the first is mapped to. */
  lemma KmapPages(data: nat, k: nat)
    requires GoodData(data) && k < 4 && Kmaps(data)[k].start < UINT && 1 <= SizeOfKmap(Kmaps(data)[k])
    ensures var m := Kmaps(data)[k];
            var (first, last, p) := (m.virt / PGSIZE, (m.virt + SizeOfKmap(m) - 1) / PGSIZE, m.start / PGSIZE);
            && first == (if k == 0 then USER else if k == 1 then USER + EXTPAGES else if k == 2 then data else DEVPAGE)
            && last == (if k == 0 then USER + EXTPAGES else if k == 1 then data else if k == 2 then USER + PHYSPAGES else VPAGES) - 1
            && p == (if k < 3 then first - USER else first) && m.perm == if k == 1 then 0 else PTE_W
  {
    var m := Kmaps(data)[k];
    if k == 1 {
      assert SizeOfKmap(m) == (data - USER - EXTPAGES) * PGSIZE;
    } else if k == 2 {
      assert SizeOfKmap(m) == (PHYSPAGES - (data - USER)) * PGSIZE;
    }
  }

  lemma KmapDone(data: nat, k: nat, mem: seq<Page>, mem': seq<Page>, d: nat)
    requires GoodData(data) && k < 4 && d < |mem|
    requires forall v: nat :: v < VPAGES ==> PteOf(mem, d, v) == if v < Below(data, k) then KernelPte(data, v) else 0
    requires var m := Kmaps(data)[k];
             && m.start < UINT && 1 <= SizeOfKmap(m)
             && Mapped(mem, mem', d, m.virt / PGSIZE, (m.virt + SizeOfKmap(m) - 1) / PGSIZE, m.start / PGSIZE, m.perm)
    ensures forall v: nat :: v < VPAGES ==> PteOf(mem', d, v) == if v < Below(data, k + 1) then KernelPte(data, v) else 0
  {
    hide Entry, PteOf, Kmaps, SizeOfKmap;
    KmapPages(data, k);
    forall v: nat | v < VPAGES
      ensures PteOf(mem', d, v) == if v < Below(data, k + 1) then KernelPte(data, v) else 0
    {
    }
  }

  // ----- growing a space

  /** No page from lo up to hi is mapped. */
  ghost predicate Unused(mem: seq<Page>, d: nat, lo: nat, hi: nat) {
    d < |mem| && forall v: nat :: lo <= v < hi && v < VPAGES ==> !Present(PteOf(mem, d, v))
  }

  /** A present, writable, user-accessible page of zeros. */
  predicate ZeroPage(mem: seq<Page>, e: Word) {
    Present(e) && Flags(e) == 1 + PTE_W + PTE_U && Addr(e) < |mem| && mem[Addr(e)] == Filled(0)
  }

  /** Pages lo up to hi of d are new pages of zeros, and the other entries are as before. */
  ghost predicate Grown(mem: seq<Page>, mem': seq<Page>, d: nat, lo: nat, hi: nat) {
    && d < |mem| == |mem'|
    && forall v: nat :: v < VPAGES ==>
         if lo <= v < hi then ZeroPage(mem', PteOf(mem', d, v)) else PteOf(mem', d, v) == PteOf(mem, d, v)
  }

  lemma NothingGrown(mem: seq<Page>, d: nat, lo: nat, hi: nat)
    requires d < |mem|
    ensures Grown(mem, mem, d, lo, lo) && (lo >= hi ==> Grown(mem, mem, d, lo, hi))
  {
  }

  lemma SizesOrdered(oldsz: nat, newsz: nat)
    requires oldsz <= newsz <= KERNBASE
    ensures PagesUpTo(oldsz) <= PagesUpTo(newsz) <= USER
  {
  }

  /** Giving up in the middle: the pages grown so far are unmapped again. */
  lemma ShrunkAgain(mem: seq<Page>, mem1: seq<Page>, mem2: seq<Page>, d: nat, lo: nat, a: nat, hi: nat)
    requires Grown(mem, mem1, d, lo, a) && Unused(mem, d, lo, hi) && lo <= a <= hi && d < |mem2|
    requires forall v: nat :: v < VPAGES ==>
               PteOf(mem2, d, v) == if lo <= v < hi then Cleared(PteOf(mem1, d, v)) else PteOf(mem1, d, v)
    ensures forall v: nat :: v < VPAGES ==>
              PteOf(mem2, d, v) == PteOf(mem, d, v) || !(Present(PteOf(mem2, d, v)) || Present(PteOf(mem, d, v)))
  {
  }

  lemma UnusedPage(mem: seq<Page>, d: nat, a: nat, hi: nat)
    requires Unused(mem, d, a, hi) && a < hi && a < VPAGES
    ensures !Present(PteOf(mem, d, a))
  {
  }

  lemma MappedOne(mem: seq<Page>, mem': seq<Page>, d: nat, a: nat, f: nat, perm: nat)
    requires Mapped(mem, mem', d, a * PGSIZE / PGSIZE, (a * PGSIZE + PGSIZE - 1) / PGSIZE, f * PGSIZE / PGSIZE, perm)
    requires f < VPAGES
    ensures perm < PGSIZE && d < |mem| && d < |mem'|
    ensures forall v: nat :: v < VPAGES ==> PteOf(mem', d, v) == if v == a then Entry(f, perm) else PteOf(mem, d, v)
  {
  }

  lemma FrameResult(memZ: seq<Page>, ownerZ: Owners, mem: seq<Page>, owner: Owners, d: nat, v: nat, f: nat, ok: bool)
    requires FrameGiven(memZ, ownerZ, mem, owner, d, v, f, ok)
    ensures if ok then f in owner && f < |memZ| == |mem| && owner[f] == Frame(d, v) && mem[f] == memZ[f]
            else mem == memZ && owner == ownerZ
  {
  }

  /** A page taken from the free list and mapped into d: only d has changed. */
  lemma FreshConfined(mem: seq<Page>, owner: Owners, memZ: seq<Page>, ownerZ: Owners, mem': seq<Page>, owner': Owners, d: nat, v: nat, f: nat)
    requires v < USER && f in owner && owner[f] == Free && f < |mem| == |memZ|
    requires memZ == mem[f := memZ[f]] && ownerZ == owner[f := Loose]
    requires Confined(memZ, Given(ownerZ, v, f), mem', owner', d) && FramesKept(memZ, ownerZ, mem', owner', d, 0, 0)
    ensures Confined(mem, owner, mem', owner', d) && FramesKept(mem, owner, mem', owner', d, 0, 0)
  {
  }

  /** A page taken from the free list and still in hand. */
  lemma BorrowedKept(mem: seq<Page>, owner: Owners, memZ: seq<Page>, ownerZ: Owners, mem': seq<Page>, owner': Owners, d: nat,
                     lo: nat, hi: nat, f: nat)
    requires f in owner && owner[f] == Free && f < |mem| == |memZ|
    requires memZ == mem[f := memZ[f]] && ownerZ == owner[f := Loose]
    requires Confined(memZ, ownerZ, mem', owner', d) && FramesKept(memZ, ownerZ, mem', owner', d, lo, hi)
    ensures f in owner' && owner'[f] == Loose
    ensures Confined(mem, owner, mem', owner'[f := Free], d) && FramesKept(mem, owner, mem', owner'[f := Free], d, lo, hi)
  {
  }

  lemma BorrowedConfined(mem: seq<Page>, owner: Owners, mem3: seq<Page>, owner3: Owners, mem': seq<Page>, owner': Owners, d: nat,
                         lo: nat, hi: nat, f: nat)
    requires f in owner3 && owner3[f] == Loose && f in owner && owner[f] == Free && f < |mem3| == |mem'|
    requires mem' == mem3[f := mem'[f]] && owner' == owner3[f := Free]
    requires Confined(mem, owner, mem3, owner3[f := Free], d) && FramesKept(mem, owner, mem3, owner3[f := Free], d, lo, hi)
    ensures Confined(mem, owner, mem', owner', d) && FramesKept(mem, owner, mem', owner', d, lo, hi)
  {
  }

  lemma GrownOneMore(mem0: seq<Page>, mem: seq<Page>, owner: Owners, mem': seq<Page>, owner': Owners,
                     d: nat, lo: nat, a: nat, hi: nat, f: nat)
    requires Spaces(mem, owner) && IsDir(mem, owner, d) && Grown(mem0, mem, d, lo, a) && Unused(mem, d, a, hi) && lo <= a < hi <= USER
    requires FramesKept(mem, owner, mem', owner', d, 0, 0) && f < |mem'| && f < VPAGES && mem'[f] == Filled(0)
    requires forall v: nat :: v < VPAGES ==> PteOf(mem', d, v) == if v == a then Entry(f, PTE_W + PTE_U) else PteOf(mem, d, v)
    ensures Grown(mem0, mem', d, lo, a + 1) && Unused(mem', d, a + 1, hi)
  {
    forall v: nat | v < VPAGES
      ensures if lo <= v < a + 1 then ZeroPage(mem', PteOf(mem', d, v)) else PteOf(mem', d, v) == PteOf(mem0, d, v)
      ensures a + 1 <= v < hi ==> !Present(PteOf(mem', d, v))
    {
      if lo <= v < a {
        UserFrame(mem, owner, d, v);
      }
    }
  }

  // ----- copying a space

  /** The entry copies src's: same flags, and the same contents in the frame. */
  ghost predicate CopyOf(mem0: seq<Page>, e0: Word, mem: seq<Page>, e: Word) {
    Present(e0) && Present(e) && Flags(e) == Flags(e0) && Addr(e0) < |mem0| && Addr(e) < |mem| && mem[Addr(e)] == mem0[Addr(e0)]
  }

  /** The first n user pages of d copy src's, there are no others, and the kernel is mapped. */
  ghost predicate Copied(mem0: seq<Page>, src: nat, mem: seq<Page>, d: nat, data: nat, n: nat) {
    && src < |mem0| && d < |mem| && GoodData(data)
    && forall v: nat :: v < VPAGES ==>
         if v < n then CopyOf(mem0, PteOf(mem0, src, v), mem, PteOf(mem, d, v)) else PteOf(mem, d, v) == KernelPte(data, v)
  }

  lemma NothingCopied(mem0: seq<Page>, src: nat, mem: seq<Page>, d: nat, data: nat)
    requires src < |mem0| && d < |mem| && GoodData(data)
    requires forall v: nat :: v < VPAGES ==> PteOf(mem, d, v) == KernelPte(data, v)
    ensures Copied(mem0, src, mem, d, data, 0)
  {
  }

  lemma NotCopiedYet(mem0: seq<Page>, src: nat, mem: seq<Page>, d: nat, data: nat, i: nat)
    requires Copied(mem0, src, mem, d, data, i) && i < USER
    ensures d < |mem| && !Present(PteOf(mem, d, i))
  {
  }

  lemma CopiedOneMore(mem0: seq<Page>, src: nat, mem: seq<Page>, owner: Owners, mem': seq<Page>, owner': Owners,
                      d: nat, data: nat, i: nat, f: nat)
    requires Spaces(mem, owner) && IsDir(mem, owner, d) && Copied(mem0, src, mem, d, data, i) && i < USER
    requires FramesKept(mem, owner, mem', owner', d, 0, 0) && f < |mem'| && f < VPAGES
    requires var e := PteOf(mem0, src, i);
             && Present(e) && Addr(e) < |mem0| && mem'[f] == mem0[Addr(e)]
             && forall v: nat :: v < VPAGES ==> PteOf(mem', d, v) == if v == i then Entry(f, Flags(e)) else PteOf(mem, d, v)
    ensures Copied(mem0, src, mem', d, data, i + 1)
  {
    forall v: nat | v < VPAGES
      ensures if v < i + 1 then CopyOf(mem0, PteOf(mem0, src, v), mem', PteOf(mem', d, v)) else PteOf(mem', d, v) == KernelPte(data, v)
    {
      if v < i {
        UserFrame(mem, owner, d, v);
      }
    }
  }

  // ----- copying to user addresses

  /** copyout's 0, its -1, and its read of a table that is not there. */
  datatype CopyResult = Success | NotUser | NullTable

  lemma NoTableNoPage(mem: seq<Page>, d: nat, v: nat)
    requires d < |mem| && v < VPAGES && !Present(mem[d][v / ENTRIES])
    ensures !UserPage(PteOf(mem, d, v))
  {
  }

  predicate UserPage(e: Word) {
    Present(e) && Flags(e) / PTE_U % 2 == 1
  }

  /** No page of the kernel is the user's; so it is in every space that setupkvm made. */
  ghost predicate KernelHidden(mem: seq<Page>, d: nat) {
    d < |mem| && forall v: nat :: USER <= v < VPAGES ==> !UserPage(PteOf(mem, d, v))
  }

  lemma NotKernel(mem: seq<Page>, d: nat, v: nat)
    requires KernelHidden(mem, d) && v < VPAGES && UserPage(PteOf(mem, d, v))
    ensures v < USER
  {
  }

  lemma KernelIsHidden(data: nat, v: nat)
    requires GoodData(data) && USER <= v < VPAGES
    ensures !UserPage(KernelPte(data, v))
  {
  }

  /**
   The entry of the page at a fixed address: memory below PHYSTOP at KERNBASE, devices at their own
   addresses; all writable but the kernel's text, which ends where its data begins; none the user's.
   */
  predicate KernelPage(data: nat, v: nat, e: Word) {
    var a := 4096 * v;
    && (e % 2 == 1 <==> 0x8000_0000 <= a < 0x8E00_0000 || 0xFE00_0000 <= a)
    && (e % 2 == 1 ==>
          && e / 4096 * 4096 == (if a < 0x8E00_0000 then a - 0x8000_0000 else a)
          && (e / 2 % 2 == 1 <==> !(0x8010_0000 <= a < 4096 * data))
          && e / 4 % 2 == 0)
  }

  ghost predicate KernelMapped(mem: seq<Page>, d: nat, data: nat) {
    d < |mem| && forall v: nat :: v < VPAGES ==> KernelPage(data, v, PteOf(mem, d, v))
  }

  lemma KernelPages(data: nat, v: nat)
    requires GoodData(data) && v < VPAGES
    ensures KernelPage(data, v, KernelPte(data, v))
  {
    EntryBits(KernelPte(data, v));
  }

  /** The low bits of an entry are in its flags. */
  lemma EntryBits(e: Word)
    ensures e == PGSIZE * (e / PGSIZE) + Flags(e) && Flags(e) < PGSIZE
    ensures e % 2 == Flags(e) % 2 && e / 2 % 2 == Flags(e) / 2 % 2 && e / 4 % 2 == Flags(e) / 4 % 2
  {
    LowBits(e / PGSIZE, Flags(e));
  }

  lemma LowBits(q: nat, f: nat)
    ensures var e := PGSIZE * q + f; e % 2 == f % 2 && e / 2 % 2 == f / 2 % 2 && e / 4 % 2 == f / 4 % 2
  {
    Halves(2048 * q, f);
    Halves(1024 * q, f / 2);
    Halves(512 * q, f / 4);
    Quarters(PGSIZE * q + f);
    Quarters(f);
  }

  lemma Halves(k: nat, f: nat)
    ensures (2 * k + f) / 2 == k + f / 2 && (2 * k + f) % 2 == f % 2
  {
  }

  lemma Quarters(x: nat)
    ensures x / 4 == x / 2 / 2
  {
  }

  lemma SetupHidden(mem: seq<Page>, d: nat, data: nat)
    requires d < |mem| && GoodData(data) && forall v: nat :: v < VPAGES ==> PteOf(mem, d, v) == KernelPte(data, v)
    ensures KernelHidden(mem, d) && KernelMapped(mem, d, data)
  {
    hide KernelPte, PteOf, UserPage, KernelPage;
    forall v: nat | v < VPAGES
      ensures KernelPage(data, v, PteOf(mem, d, v))
    {
      KernelPages(data, v);
    }
    forall v: nat | USER <= v < VPAGES
      ensures !UserPage(PteOf(mem, d, v))
    {
      KernelIsHidden(data, v);
    }
  }

  lemma CopyHidden(mem0: seq<Page>, src: nat, mem: seq<Page>, d: nat, data: nat, n: nat)
    requires Copied(mem0, src, mem, d, data, n) && n <= USER
    ensures KernelHidden(mem, d)
  {
    hide KernelPte, PteOf, UserPage, CopyOf;
    forall v: nat | USER <= v < VPAGES
      ensures !UserPage(PteOf(mem, d, v))
    {
      KernelIsHidden(data, v);
    }
  }

  /** An entry that is cleared, not present, or as before hides what it did. */
  lemma HiddenKept(mem: seq<Page>, mem': seq<Page>, d: nat)
    requires d < |mem| && d < |mem'|
    requires forall v: nat :: v < VPAGES ==>
               PteOf(mem', d, v) in {PteOf(mem, d, v), Cleared(PteOf(mem, d, v))} || !Present(PteOf(mem', d, v))
    ensures KernelHidden(mem, d) ==> KernelHidden(mem', d)
  {
    hide PteOf;
  }

  lemma GrownHidden(mem: seq<Page>, mem': seq<Page>, d: nat, lo: nat, hi: nat)
    requires Grown(mem, mem', d, lo, hi) && hi <= USER
    ensures KernelHidden(mem, d) ==> KernelHidden(mem', d)
  {
    hide PteOf;
  }

  /** What happens to one space reveals nothing of the kernel in the others. */
  lemma OthersHidden(mem: seq<Page>, owner: Owners, mem': seq<Page>, owner': Owners, d: nat, e: nat)
    requires Spaces(mem, owner) && Confined(mem, owner, mem', owner', d) && IsDir(mem, owner, e) && e != d && KernelHidden(mem, e)
    ensures IsDir(mem', owner', e) && KernelHidden(mem', e)
  {
    OthersUnchanged(mem, owner, mem', owner', d, e, 0);
    forall v: nat | USER <= v < VPAGES
      ensures !UserPage(PteOf(mem', e, v))
    {
      OthersUnchanged(mem, owner, mem', owner', d, e, v);
    }
  }

  /** The byte at a user address. */
  function UserByte(mem: seq<Page>, d: nat, a: nat): Byte
    requires d < |mem| && a < KERNBASE
  {
    var p := Addr(PteOf(mem, d, a / PGSIZE));
    if p < |mem| then ByteAt(mem[p], a % PGSIZE) else 0
  }

  /** The bytes at user addresses va and on are the given ones, those at other mapped addresses as before. */
  ghost predicate CopiedOut(mem: seq<Page>, mem': seq<Page>, d: nat, va: nat, bytes: seq<Byte>) {
    && d < |mem| == |mem'|
    && forall a: nat :: a < KERNBASE && Present(PteOf(mem, d, a / PGSIZE)) ==>
         UserByte(mem', d, a) == if va <= a < va + |bytes| then bytes[a - va] else UserByte(mem, d, a)
  }

  lemma NothingCopiedOut(mem: seq<Page>, d: nat, va: nat)
    requires d < |mem|
    ensures CopiedOut(mem, mem, d, va, [])
  {
  }

  /** A piece of a page of the user's ends at the kernel's addresses at the latest. */
  lemma BelowKernel(at: nat, n: nat)
    requires at / PGSIZE < USER && at % PGSIZE + n <= PGSIZE
    ensures at + n <= KERNBASE
  {
    assert at == at / PGSIZE * PGSIZE + at % PGSIZE;
  }

  lemma OnePage(at: nat, n: nat)
    requires at % PGSIZE + n <= PGSIZE && at + n <= UINT
    ensures forall a: nat :: at <= a < at + n ==> a / PGSIZE == at / PGSIZE && a % PGSIZE == at % PGSIZE + (a - at)
    ensures forall a: nat :: a / PGSIZE == at / PGSIZE && !(at <= a < at + n) ==> !(at % PGSIZE <= a % PGSIZE < at % PGSIZE + n)
    ensures at < UINT ==> at / PGSIZE < VPAGES
  {
  }

  lemma CopiedPiece(mem0: seq<Page>, mem: seq<Page>, owner: Owners, mem': seq<Page>, d: nat, va: nat, bytes: seq<Byte>,
                    done: nat, n: nat, f: nat)
    requires Spaces(mem, owner) && IsDir(mem, owner, d) && done + n <= |bytes| && va + done + n <= UINT && 0 < n
    requires (va + done) % PGSIZE + n <= PGSIZE && (va + done) / PGSIZE < VPAGES
    requires CopiedOut(mem0, mem, d, va, bytes[..done])
    requires forall v: nat :: v < VPAGES ==> PteOf(mem, d, v) == PteOf(mem0, d, v)
    requires UserPage(PteOf(mem, d, (va + done) / PGSIZE)) && f == Addr(PteOf(mem, d, (va + done) / PGSIZE))
    requires f in owner && owner[f] == Frame(d, (va + done) / PGSIZE) && f < |mem|
    requires mem' == mem[f := PutBytes(mem[f], (va + done) % PGSIZE, bytes[done..][..n])]
    ensures CopiedOut(mem0, mem', d, va, bytes[..done + n])
    ensures forall a: nat :: va + done <= a < va + done + n ==> UserPage(PteOf(mem0, d, a / PGSIZE))
  {
    hide PteOf, PutBytes, ByteAt, Spaces, UserPage, UserByte, SamePtes;
    OnePage(va + done, n);
    WriteKeeps(mem, owner, f, mem'[f]);
    SamePtesOf(mem, mem', owner, d);
    forall a: nat | a < KERNBASE && Present(PteOf(mem, d, a / PGSIZE))
      ensures UserByte(mem', d, a) == if va + done <= a < va + done + n then bytes[done..][..n][a - va - done] else UserByte(mem, d, a)
    {
      PieceByte(mem, owner, mem', d, va + done, bytes[done..][..n], f, a);
    }
    PieceMore(mem0, mem, mem', d, va, bytes, done, n);
  }

  /** A piece appended to those copied before. */
  lemma PieceMore(mem0: seq<Page>, mem: seq<Page>, mem': seq<Page>, d: nat, va: nat, bytes: seq<Byte>, done: nat, n: nat)
    requires done + n <= |bytes| && |mem'| == |mem| && CopiedOut(mem0, mem, d, va, bytes[..done])
    requires forall v: nat :: v < VPAGES ==> PteOf(mem, d, v) == PteOf(mem0, d, v)
    requires forall a: nat :: a < KERNBASE && Present(PteOf(mem, d, a / PGSIZE)) ==>
               UserByte(mem', d, a) == if va + done <= a < va + done + n then bytes[done..][..n][a - va - done] else UserByte(mem, d, a)
    ensures CopiedOut(mem0, mem', d, va, bytes[..done + n])
  {
    hide PteOf, UserByte, Present;
    forall a: nat | a < KERNBASE && Present(PteOf(mem0, d, a / PGSIZE))
      ensures UserByte(mem', d, a) == if va <= a < va + done + n then bytes[..done + n][a - va] else UserByte(mem0, d, a)
    {
      assert PteOf(mem, d, a / PGSIZE) == PteOf(mem0, d, a / PGSIZE);
    }
  }

  /** One byte after one piece was written. */
  lemma PieceByte(mem: seq<Page>, owner: Owners, mem': seq<Page>, d: nat, at: nat, piece: seq<Byte>, f: nat, a: nat)
    requires Spaces(mem, owner) && IsDir(mem, owner, d) && at % PGSIZE + |piece| <= PGSIZE && at / PGSIZE < VPAGES && |piece| > 0
    requires a < KERNBASE && Present(PteOf(mem, d, a / PGSIZE)) && f < |mem| && f in owner && owner[f] == Frame(d, at / PGSIZE)
    requires f == Addr(PteOf(mem, d, at / PGSIZE)) && mem' == mem[f := PutBytes(mem[f], at % PGSIZE, piece)]
    requires forall v: nat :: v < VPAGES ==> PteOf(mem', d, v) == PteOf(mem, d, v)
    ensures UserByte(mem', d, a) == if at <= a < at + |piece| then piece[a - at] else UserByte(mem, d, a)
  {
    PutBytesAt(mem[f], at % PGSIZE, piece, a % PGSIZE);
    UserFrame(mem, owner, d, a / PGSIZE);
    InPiece(at, |piece|, a);
    hide PteOf, PutBytes, ByteAt, Spaces;
  }

  lemma InPiece(at: nat, n: nat, a: nat)
    requires at % PGSIZE + n <= PGSIZE
    ensures at <= a < at + n <==> a / PGSIZE == at / PGSIZE && at % PGSIZE <= a % PGSIZE < at % PGSIZE + n
    ensures at <= a < at + n ==> a % PGSIZE - at % PGSIZE == a - at
  {
    assert a == a / PGSIZE * PGSIZE + a % PGSIZE && at == at / PGSIZE * PGSIZE + at % PGSIZE;
  }

  lemma FrameConfined(mem: seq<Page>, owner: Owners, f: nat, x: Page, d: nat, v: nat)
    requires f in owner && owner[f] == Frame(d, v) && f < |mem|
    ensures Confined(mem, owner, mem[f := x], owner, d)
  {
  }

  lemma StillHidden(mem: seq<Page>, mem': seq<Page>, owner: Owners, d: nat)
    requires KernelHidden(mem, d) && SamePtes(mem, mem', owner) && IsDir(mem, owner, d)
    ensures KernelHidden(mem', d)
  {
  }
}
