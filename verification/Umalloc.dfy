/**
 The user memory allocator: a circular list of free blocks in address order.

 Addresses and sizes are in units of one header (8 bytes); a block of n units
 is its header and n - 1 units for the user.
 */
module Umalloc {
  import opened Machine

  const KERNBASE: int := 0x8000_0000    // user memory ends below this byte
  const LIMIT: nat := 0x1000_0000       // the same in units
  const UNITS: nat := 0x2000_0000       // pointers wrap around here
  const MORE: nat := 4096               // morecore's least request

  datatype Header = Header(ptr: nat, size: nat)

  datatype Piece = Piece(at: nat, size: nat)

  predicate Within(b: Piece, u: nat) {
    b.at <= u < b.at + b.size
  }

  predicate Apart(b: Piece, c: Piece) {
    b.at + b.size <= c.at || c.at + c.size <= b.at
  }

  /** Unit u lies in one of the pieces. */
  ghost predicate HoldsUnit(s: seq<Piece>, u: nat) {
    exists k :: 0 <= k < |s| && Within(s[k], u)
  }

  type Live = map<nat, nat>             // blocks handed out: address of the header to size

  ghost predicate HoldsLive(live: Live, u: nat) {
    exists a :: a in live && Within(Piece(a, live[a]), u)
  }

  // ----- requests in 32-bit arithmetic

  /** A header and ceil(nbytes / 8) units. */
  function UnitsFor(nbytes: nat): nat {
    (nbytes + 7) % UINT / 8 + 1
  }

  /** The units have room for the request exactly when the rounding up does not wrap around. */
  lemma UnitsSufficeIff(nbytes: nat)
    requires nbytes < UINT
    ensures 8 * (UnitsFor(nbytes) - 1) >= nbytes <==> nbytes <= 0xFFFF_FFF8
    ensures nbytes <= 0xFFFF_FFF8 ==> 8 * (UnitsFor(nbytes) - 1) < nbytes + 8
    ensures nbytes > 0xFFFF_FFF8 ==> UnitsFor(nbytes) == 1
  {
  }

  /** An unsigned word read as a signed one. */
  function Signed(w: nat): (n: int)
    requires w < UINT
    ensures -KERNBASE <= n < KERNBASE && n % UINT == w
  {
    if w < KERNBASE then w else w - UINT
  }

  /** The bytes that morecore asks sbrk for. */
  function Request(nu: nat): (n: int)
    ensures -KERNBASE <= n < KERNBASE
  {
    Signed(8 * nu % UINT)
  }

  const MAXREQUEST: nat := 0x7FFF_FFF0

  /** malloc asks sbrk for more than it has exactly up to the greatest request, and again when the rounding up has wrapped around. */
  lemma RequestIff(nbytes: nat)
    requires nbytes < UINT
    ensures Request(Most(UnitsFor(nbytes), MORE)) > 0 <==> nbytes <= MAXREQUEST || nbytes > 0xFFFF_FFF8
    ensures UnitsFor(nbytes) <= UNITS
    ensures MAXREQUEST < nbytes <= 0xFFFF_FFF8 ==> LIMIT <= UnitsFor(nbytes)
  {
    UnitsSufficeIff(nbytes);
  }

  /** sbrk's answer, and where the program's memory ends afterwards. */
  datatype Brk = Brk(answer: Option<nat>, end: nat)

  /**
   sbrk(n) when memory ends at brk; pages says whether there are pages enough.  A
   negative n shrinks the memory unless brk + n wraps around; a shrink to nothing
   frees all pages and then reports failure.
   */
  function Sbrk(brk: nat, n: int, pages: bool): Brk
    requires 0 < brk < KERNBASE && -KERNBASE <= n < KERNBASE
  {
    var newsz := (brk + n) % UINT;
    if n > 0 then
      if newsz >= KERNBASE || !pages then Brk(None, brk) else Brk(Some(brk), newsz)
    else if n < 0 && newsz < brk then
      if newsz == 0 then Brk(None, 0) else Brk(Some(brk), newsz)
    else
      Brk(Some(brk), brk)
  }

  /** The nu units at sbrk's answer belong to the program exactly if the request was positive as a signed number. */
  lemma SbrkOwnsIff(brk: nat, nu: nat, pages: bool)
    requires 0 < brk < KERNBASE && 1 <= nu <= UNITS
    ensures var s := Sbrk(brk, Request(nu), pages);
            && (s.answer.Some? ==> s.answer.value == brk && (brk + 8 * nu <= s.end <==> Request(nu) > 0))
            && (s.answer.None? ==> (s.end == brk <==> Request(nu) > 0) && (Request(nu) <= 0 ==> s.end == 0))
            && (Request(nu) > 0 ==> s.end >= brk)
            && (s.answer.Some? && s.end >= brk ==> brk + 8 * nu < 8 * UNITS || nu == UNITS)
  {
  }

  /** What malloc or morecore comes to; Gone if sbrk took away memory of the program's. */
  datatype Outcome = Null | Block(ap: nat) | Gone

  /** The caller has lost nothing, and gets null or a block with room for its bytes in memory that is the program's. */
  predicate Served(nbytes: nat, r: Outcome, live: Live, brk: nat, end: nat) {
    && brk <= end && !r.Gone?
    && (r.Block? ==> r.ap > 0 && r.ap - 1 in live
                     && 8 * (live[(r.ap - 1) as nat] - 1) >= nbytes && 8 * (r.ap - 1 + live[(r.ap - 1) as nat]) <= end)
  }

  // ----- the free list as a sequence

  /** Address order with a gap after every block: sorted, disjoint, and no two neighbours that could be one. */
  ghost predicate Gaps(free: seq<Piece>) {
    forall k, l :: 0 <= k < l < |free| ==> free[k].at + free[k].size < free[l].at
  }

  ghost predicate Sizes(free: seq<Piece>) {
    forall k :: 1 <= k < |free| ==> 1 <= free[k].size
  }

  /** The list starts with base, which is below the heap and has no units. */
  ghost predicate Listed(base: nat, free: seq<Piece>) {
    |free| > 0 && free[0] == Piece(base, 0) && Gaps(free) && Sizes(free)
  }

  function Next(n: nat, k: nat): (l: nat)
    requires k < n
    ensures l < n
  {
    if k + 1 == n then 0 else k + 1
  }

  predicate LinkedAt(mem: map<nat, Header>, free: seq<Piece>, k: nat)
    requires k < |free|
  {
    free[k].at in mem && mem[free[k].at] == Header(free[Next(|free|, k)].at, free[k].size)
  }

  /** The headers in memory form a ring in the order of the list. */
  ghost predicate Linked(mem: map<nat, Header>, free: seq<Piece>) {
    forall k: nat {:trigger LinkedAt(mem, free, k)} :: k < |free| ==> LinkedAt(mem, free, k)
  }

  ghost predicate LiveHeaders(mem: map<nat, Header>, base: nat, live: Live) {
    forall a :: a in live ==> base < a && 1 <= live[a] && a in mem && mem[a].size == live[a]
  }

  ghost predicate LiveApart(live: Live) {
    forall a, c :: a in live && c in live && a != c ==> Apart(Piece(a, live[a]), Piece(c, live[c]))
  }

  ghost predicate FreeApart(free: seq<Piece>, live: Live) {
    forall k, a :: 0 <= k < |free| && a in live ==> Apart(free[k], Piece(a, live[a]))
  }

  /** Every unit obtained from the system is in a free or in a live block, and no other unit is. */
  ghost predicate Conserved(heap: seq<Piece>, free: seq<Piece>, live: Live) {
    forall u: nat :: HoldsUnit(heap, u) <==> HoldsUnit(free, u) || HoldsLive(live, u)
  }

  ghost predicate Sound(base: nat, mem: map<nat, Header>, free: seq<Piece>, live: Live, heap: seq<Piece>) {
    && Listed(base, free) && Linked(mem, free)
    && LiveHeaders(mem, base, live) && LiveApart(live) && FreeApart(free, live)
    && Conserved(heap, free, live)
  }

  /** All memory from the system is below unit n. */
  ghost predicate HeldBelow(heap: seq<Piece>, n: nat) {
    forall u: nat :: HoldsUnit(heap, u) ==> u < n
  }

  lemma FreeBelow(heap: seq<Piece>, free: seq<Piece>, live: Live, n: nat, k: nat)
    requires Conserved(heap, free, live) && HeldBelow(heap, n) && k < |free| && free[k].size > 0
    ensures free[k].at + free[k].size <= n
  {
    var u := free[k].at + free[k].size - 1;
    assert Within(free[k], u);
    assert HoldsUnit(free, u);
  }

  lemma LiveBelow(heap: seq<Piece>, free: seq<Piece>, live: Live, n: nat, a: nat)
    requires Conserved(heap, free, live) && HeldBelow(heap, n) && a in live && live[a] > 0
    ensures a + live[a] <= n
  {
    var u := a + live[a] - 1;
    assert Within(Piece(a, live[a]), u);
    assert HoldsLive(live, u);
  }

  /** p + n of pointers to headers. */
  function Plus(p: nat, n: nat): nat {
    (p + n) % UNITS
  }

  /** The ends of the free blocks and of b are pointers, or b goes once around all addresses. */
  ghost predicate Addressable(free: seq<Piece>, b: Piece) {
    && (forall k :: 0 <= k < |free| ==> free[k].at + free[k].size <= LIMIT)
    && b.at <= LIMIT && (b.at + b.size < UNITS || b.size == UNITS)
  }

  // ----- giving a block back

  /** The place of b: after free[j], before the next. */
  predicate Place(free: seq<Piece>, j: nat, b: Piece) {
    j < |free| && free[j].at + free[j].size <= b.at && (j + 1 < |free| ==> b.at + b.size <= free[j + 1].at)
  }

  predicate MergesUp(free: seq<Piece>, j: nat, b: Piece) {
    j + 1 < |free| && b.at + b.size == free[j + 1].at
  }

  predicate MergesDown(free: seq<Piece>, j: nat, b: Piece)
    requires j < |free|
  {
    free[j].at + free[j].size == b.at
  }

  /** b put in its place and joined with the neighbours it touches. */
  function Insert(free: seq<Piece>, j: nat, b: Piece): seq<Piece>
    requires j < |free|
  {
    var size := if MergesUp(free, j, b) then b.size + free[j + 1].size else b.size;
    var tail := if MergesUp(free, j, b) then free[j + 2..] else free[j + 1..];
    if MergesDown(free, j, b) then free[..j] + [Piece(free[j].at, free[j].size + size)] + tail
    else free[..j + 1] + [Piece(b.at, size)] + tail
  }

  /** The joined block. */
  function Joined(free: seq<Piece>, j: nat, b: Piece): Piece
    requires j < |free|
  {
    var size := if MergesUp(free, j, b) then b.size + free[j + 1].size else b.size;
    if MergesDown(free, j, b) then Piece(free[j].at, free[j].size + size) else Piece(b.at, size)
  }

  /** Insert, place by place: the joined block at j or j + 1, the others moved up or down by one or not at all. */
  lemma InsertAt(free: seq<Piece>, j: nat, b: Piece, k: nat)
    requires j < |free|
    ensures var down, up := if MergesDown(free, j, b) then 1 else 0, if MergesUp(free, j, b) then 1 else 0;
            && |Insert(free, j, b)| == |free| + 1 - down - up
            && (k < |Insert(free, j, b)| ==>
                  Insert(free, j, b)[k] == if k < j + 1 - down then free[k]
                                           else if k == j + 1 - down then Joined(free, j, b) else free[k - 1 + down + up])
  {
  }

  lemma InsertListed(base: nat, free: seq<Piece>, j: nat, b: Piece)
    requires Listed(base, free) && Place(free, j, b) && base < b.at && 1 <= b.size
    ensures Listed(base, Insert(free, j, b))
  {
    hide Insert;
    var free' := Insert(free, j, b);
    forall k, l | 0 <= k < l < |free'|
      ensures free'[k].at + free'[k].size < free'[l].at
    {
      InsertAt(free, j, b, k);
      InsertAt(free, j, b, l);
    }
    forall k | 0 <= k < |free'|
      ensures k == 0 ==> free'[k] == Piece(base, 0)
      ensures 1 <= k ==> 1 <= free'[k].size
    {
      InsertAt(free, j, b, k);
    }
    InsertAt(free, j, b, 0);
  }

  lemma InsertUnits(free: seq<Piece>, j: nat, b: Piece, u: nat)
    requires Place(free, j, b)
    ensures HoldsUnit(Insert(free, j, b), u) <==> HoldsUnit(free, u) || Within(b, u)
  {
    var free' := Insert(free, j, b);
    var d := if MergesDown(free, j, b) then 0 else 1;
    var up := if MergesUp(free, j, b) then 1 else 0;
    assert Within(free'[j + d], u) <==> Within(b, u) || (d == 0 && Within(free[j], u)) || (up == 1 && Within(free[j + 1], u));
    assert forall k :: 0 <= k < j + d ==> free'[k] == free[k];
    assert forall k :: j + d < k < |free'| ==> free'[k] == free[k - d + up];
    if HoldsUnit(free, u) {
      var k :| 0 <= k < |free| && Within(free[k], u);
      if k < j + d {
        assert Within(free'[k], u);
      } else if k > j + up {
        assert Within(free'[k + d - up], u);
      }
    }
  }

  lemma InsertApart(free: seq<Piece>, j: nat, b: Piece, live: Live)
    requires Place(free, j, b) && FreeApart(free, live)
    requires forall a :: a in live ==> live[a] >= 1 && Apart(b, Piece(a, live[a]))
    ensures FreeApart(Insert(free, j, b), live)
  {
  }

  /** The address after the joined block. */
  function After(free: seq<Piece>, j: nat, b: Piece): nat
    requires j < |free|
  {
    if MergesUp(free, j, b) then free[Next(|free|, j + 1)].at else free[Next(|free|, j)].at
  }

  lemma PlaceDistinct(base: nat, free: seq<Piece>, j: nat, b: Piece)
    requires Listed(base, free) && Place(free, j, b) && base < b.at && 1 <= b.size
    ensures forall k :: 0 <= k < |free| ==> free[k].at != b.at && (k != j ==> free[k].at != free[j].at)
  {
  }

  /** The headers as free() leaves them link the new list. */
  lemma InsertLinked(base: nat, mem: map<nat, Header>, free: seq<Piece>, j: nat, b: Piece, mem': map<nat, Header>)
    requires Listed(base, free) && Linked(mem, free) && Place(free, j, b) && base < b.at && 1 <= b.size
    requires b.at in mem'
    requires forall a :: a in mem && a != b.at && a != free[j].at ==> a in mem' && mem'[a] == mem[a]
    requires free[j].at in mem' && mem'[free[j].at]
             == if MergesDown(free, j, b) then Header(After(free, j, b), Joined(free, j, b).size) else Header(b.at, free[j].size)
    requires !MergesDown(free, j, b) ==> mem'[b.at] == Header(After(free, j, b), Joined(free, j, b).size)
    ensures Linked(mem', Insert(free, j, b))
  {
    hide Insert, Gaps, Sizes, MergesDown, Joined;
    var free' := Insert(free, j, b);
    var down, up := if MergesDown(free, j, b) then 1 else 0, if MergesUp(free, j, b) then 1 else 0;
    PlaceDistinct(base, free, j, b);
    JoinedAt(free, j, b);
    forall k: nat | k < |free'|
      ensures LinkedAt(mem', free', k)
    {
      InsertAt(free, j, b, k);
      InsertAt(free, j, b, Next(|free'|, k));
      InsertAt(free, j, b, 0);
      if k < j + 1 - down {
        assert LinkedAt(mem, free, k);
      } else if k > j + 1 - down {
        assert LinkedAt(mem, free, k - 1 + down + up);
      }
    }
  }

  /** The joined block is where the code leaves freep or b. */
  lemma JoinedAt(free: seq<Piece>, j: nat, b: Piece)
    requires j < |free|
    ensures Joined(free, j, b).at == if MergesDown(free, j, b) then free[j].at else b.at
  {
  }

  /** Giving the live block b back keeps the units conserved. */
  lemma InsertConserved(heap: seq<Piece>, free: seq<Piece>, j: nat, b: Piece, live: Live)
    requires Conserved(heap, free, live) && Place(free, j, b) && b.at in live && live[b.at] == b.size
    ensures Conserved(heap, Insert(free, j, b), live - {b.at})
  {
    hide Insert;
    forall u: nat
      ensures HoldsUnit(heap, u) <==> HoldsUnit(Insert(free, j, b), u) || HoldsLive(live - {b.at}, u)
    {
      InsertUnits(free, j, b, u);
      if HoldsLive(live, u) {
        var a :| a in live && Within(Piece(a, live[a]), u);
        assert a != b.at ==> a in live - {b.at};
      }
      if HoldsLive(live - {b.at}, u) {
        var a :| a in live - {b.at} && Within(Piece(a, live[a]), u);
        assert a in live;
      }
    }
  }

  /** What the two comparisons of free() see. */
  lemma Neighbours(base: nat, mem: map<nat, Header>, free: seq<Piece>, j: nat, b: Piece)
    requires Listed(base, free) && Linked(mem, free) && Place(free, j, b) && base < b.at && 1 <= b.size && Addressable(free, b)
    ensures var p, n := free[j].at, free[Next(|free|, j)].at;
            && base <= p && p in mem && mem[p] == Header(n, free[j].size)
            && n in mem && mem[n].size == free[Next(|free|, j)].size
            && p != b.at && n != b.at
            && (Plus(b.at, b.size) == n <==> MergesUp(free, j, b))
            && (Plus(p, free[j].size) == b.at <==> MergesDown(free, j, b))
            && (MergesUp(free, j, b) ==> mem[n].ptr == After(free, j, b))
            && (!MergesUp(free, j, b) ==> n == After(free, j, b))
  {
    assert LinkedAt(mem, free, j);
    assert LinkedAt(mem, free, Next(|free|, j));
  }

  lemma FreedSound(base: nat, mem: map<nat, Header>, free: seq<Piece>, live: Live, heap: seq<Piece>, j: nat, b: Piece,
                   mem': map<nat, Header>)
    requires Sound(base, mem, free, live, heap) && Place(free, j, b) && b.at in live && live[b.at] == b.size
    requires b.at in mem'
    requires forall a :: a in mem && a != b.at && a != free[j].at ==> a in mem' && mem'[a] == mem[a]
    requires free[j].at in mem' && mem'[free[j].at]
             == if MergesDown(free, j, b) then Header(After(free, j, b), Joined(free, j, b).size) else Header(b.at, free[j].size)
    requires !MergesDown(free, j, b) ==> mem'[b.at] == Header(After(free, j, b), Joined(free, j, b).size)
    ensures Sound(base, mem', Insert(free, j, b), live - {b.at}, heap)
    ensures j < |Insert(free, j, b)| && Insert(free, j, b)[j] == if MergesDown(free, j, b) then Joined(free, j, b) else free[j]
  {
    InsertListed(base, free, j, b);
    InsertLinked(base, mem, free, j, b, mem');
    InsertConserved(heap, free, j, b, live);
    assert forall a :: a in live && a != b.at ==> a != free[j].at by {
      assert forall a :: a in live ==> Apart(free[j], Piece(a, live[a]));
    }
    InsertApart(free, j, b, live - {b.at});
    InsertAt(free, j, b, j);
  }

  lemma LiveBlock(base: nat, mem: map<nat, Header>, free: seq<Piece>, live: Live, heap: seq<Piece>, a: nat)
    requires Sound(base, mem, free, live, heap) && a in live
    ensures base < a && 1 <= live[a] && a in mem && mem[a].size == live[a]
    ensures forall k :: 0 <= k < |free| ==> Apart(free[k], Piece(a, live[a]))
  {
  }

  lemma HomeIsPlace(base: nat, free: seq<Piece>, b: Piece)
    requires Listed(base, free) && base < b.at && 1 <= b.size
    requires forall k :: 0 <= k < |free| ==> Apart(free[k], b)
    ensures Place(free, HomeOf(free, b), b)
  {
  }

  /** What one look at p and its successor tells: b is between them, or p is the last and b beyond it, exactly at b's place. */
  lemma RingStep(base: nat, mem: map<nat, Header>, free: seq<Piece>, j: nat, b: Piece)
    requires Listed(base, free) && Linked(mem, free) && j < |free| && base < b.at && 1 <= b.size
    requires forall k :: 0 <= k < |free| ==> Apart(free[k], b)
    ensures free[j].at in mem && mem[free[j].at] == Header(free[Next(|free|, j)].at, free[j].size)
    ensures var p, next := free[j].at, free[Next(|free|, j)].at;
            && ((p < b.at < next || (p >= next && (b.at > p || b.at < next))) <==> j == HomeOf(free, b))
  {
    assert LinkedAt(mem, free, j);
    var home := HomeOf(free, b);
    assert j < home ==> free[j + 1].at <= free[home].at;
    assert j > home ==> free[home + 1].at <= free[j].at;
  }

  // ----- taking a block

  /** The last n units of free[k] taken off the list. */
  function Take(free: seq<Piece>, k: nat, n: nat): seq<Piece>
    requires k < |free| && n <= free[k].size
  {
    if free[k].size == n then free[..k] + free[k + 1..] else free[k := Piece(free[k].at, free[k].size - n)]
  }

  function Taken(free: seq<Piece>, k: nat, n: nat): Piece
    requires k < |free| && n <= free[k].size
  {
    Piece(free[k].at + free[k].size - n, n)
  }

  lemma TakeUnits(free: seq<Piece>, k: nat, n: nat, u: nat)
    requires k < |free| && n <= free[k].size
    ensures HoldsUnit(free, u) <==> HoldsUnit(Take(free, k, n), u) || Within(Taken(free, k, n), u)
  {
    var free' := Take(free, k, n);
    var d := if free[k].size == n then 1 else 0;
    assert Within(free[k], u) <==> Within(Taken(free, k, n), u) || (d == 0 && Within(free'[k], u));
    if HoldsUnit(free, u) {
      var l :| 0 <= l < |free| && Within(free[l], u);
      if l < k {
        assert Within(free'[l], u);
      } else if l > k {
        assert Within(free'[l - d], u);
      }
    }
    if HoldsUnit(free', u) {
      var l :| 0 <= l < |free'| && Within(free'[l], u);
      if l < k {
        assert Within(free[l], u);
      } else if l + d > k {
        assert Within(free[l + d], u);
      }
    }
  }

  lemma TakeConserved(heap: seq<Piece>, free: seq<Piece>, k: nat, n: nat, live: Live)
    requires Conserved(heap, free, live) && k < |free| && n <= free[k].size && Taken(free, k, n).at !in live
    ensures Conserved(heap, Take(free, k, n), live[Taken(free, k, n).at := n])
  {
    hide Take, Taken;
    var b := Taken(free, k, n);
    assert b.size == n by {
      TakenSize(free, k, n);
    }
    forall u: nat
      ensures HoldsUnit(heap, u) <==> HoldsUnit(Take(free, k, n), u) || HoldsLive(live[b.at := n], u)
    {
      TakeUnits(free, k, n, u);
      LiveMore(live, b, u);
    }
  }

  lemma TakenSize(free: seq<Piece>, k: nat, n: nat)
    requires k < |free| && n <= free[k].size
    ensures Taken(free, k, n).size == n
  {
  }

  lemma LiveMore(live: Live, b: Piece, u: nat)
    requires b.at !in live
    ensures HoldsLive(live[b.at := b.size], u) <==> HoldsLive(live, u) || Within(b, u)
  {
    var live' := live[b.at := b.size];
    if HoldsLive(live, u) {
      var a :| a in live && Within(Piece(a, live[a]), u);
      assert a in live' && Within(Piece(a, live'[a]), u);
    }
    if Within(b, u) {
      assert b.at in live' && Within(Piece(b.at, live'[b.at]), u);
    }
    if HoldsLive(live', u) {
      var a :| a in live' && Within(Piece(a, live'[a]), u);
      assert a != b.at ==> a in live && Within(Piece(a, live[a]), u);
    }
  }

  lemma TakeListed(base: nat, free: seq<Piece>, k: nat, n: nat)
    requires Listed(base, free) && 1 <= k < |free| && 1 <= n <= free[k].size
    ensures Listed(base, Take(free, k, n))
  {
  }

  lemma TakeApart(base: nat, free: seq<Piece>, k: nat, n: nat, live: Live)
    requires Listed(base, free) && 1 <= k < |free| && 1 <= n <= free[k].size && FreeApart(free, live)
    ensures FreeApart(Take(free, k, n), live)
    ensures forall l :: 0 <= l < |Take(free, k, n)| ==> Apart(Take(free, k, n)[l], Taken(free, k, n))
    ensures forall a :: a in live ==> Apart(Taken(free, k, n), Piece(a, live[a]))
  {
    forall a | a in live
      ensures Apart(Taken(free, k, n), Piece(a, live[a]))
    {
      assert Apart(free[k], Piece(a, live[a]));
    }
  }

  /** The headers that malloc rewrites. */
  function Touched(free: seq<Piece>, k: nat, n: nat): set<nat>
    requires 1 <= k < |free| && n <= free[k].size
  {
    if free[k].size == n then {free[k - 1].at} else {free[k].at, Taken(free, k, n).at}
  }

  lemma TakeDistinct(base: nat, free: seq<Piece>, k: nat, n: nat)
    requires Listed(base, free) && 1 <= k < |free| && 1 <= n <= free[k].size
    ensures free[k].size == n ==> forall l :: 0 <= l < |free| && l != k - 1 ==> free[l].at !in Touched(free, k, n)
    ensures free[k].size != n ==> forall l :: 0 <= l < |free| && l != k ==> free[l].at !in Touched(free, k, n)
  {
  }

  predicate SameHeader(mem: map<nat, Header>, mem': map<nat, Header>, a: nat) {
    a in mem ==> a in mem' && mem'[a] == mem[a]
  }

  /** free[k] is unlinked. */
  lemma UnlinkedList(mem: map<nat, Header>, free: seq<Piece>, k: nat, mem': map<nat, Header>)
    requires Linked(mem, free) && 1 <= k < |free|
    requires forall l :: 0 <= l < |free| && l != k - 1 ==> SameHeader(mem, mem', free[l].at)
    requires free[k - 1].at in mem' && mem'[free[k - 1].at] == Header(free[Next(|free|, k)].at, free[k - 1].size)
    ensures Linked(mem', free[..k] + free[k + 1..])
  {
    var free' := free[..k] + free[k + 1..];
    hide SameHeader;
    forall l: nat | l < |free'|
      ensures LinkedAt(mem', free', l)
    {
      var x := if l < k then l else l + 1;
      assert free'[l] == free[x] && (l != k - 1 ==> free'[Next(|free'|, l)].at == free[Next(|free|, x)].at);
      assert LinkedAt(mem, free, x);
      if l != k - 1 {
        SameHeaderIs(mem, mem', free[x].at);
      }
    }
  }

  lemma SameHeaderIs(mem: map<nat, Header>, mem': map<nat, Header>, a: nat)
    requires SameHeader(mem, mem', a) && a in mem
    ensures a in mem' && mem'[a] == mem[a]
  {
  }

  /** free[k] loses units at its end. */
  lemma ShortenedList(mem: map<nat, Header>, free: seq<Piece>, k: nat, n: nat, mem': map<nat, Header>)
    requires Linked(mem, free) && 1 <= k < |free| && n < free[k].size
    requires forall l :: 0 <= l < |free| && l != k ==> SameHeader(mem, mem', free[l].at)
    requires free[k].at in mem' && mem'[free[k].at] == Header(free[Next(|free|, k)].at, free[k].size - n)
    ensures Linked(mem', free[k := Piece(free[k].at, free[k].size - n)])
  {
    var free' := free[k := Piece(free[k].at, free[k].size - n)];
    hide SameHeader;
    forall l: nat | l < |free'|
      ensures LinkedAt(mem', free', l)
    {
      assert free'[Next(|free'|, l)].at == free[Next(|free|, l)].at;
      assert LinkedAt(mem, free, l);
      if l != k {
        SameHeaderIs(mem, mem', free[l].at);
      }
    }
  }

  /** The headers after malloc took from free[k] link the new list. */
  lemma TakeLinked(base: nat, mem: map<nat, Header>, free: seq<Piece>, k: nat, n: nat, mem': map<nat, Header>)
    requires Listed(base, free) && Linked(mem, free) && 1 <= k < |free| && 1 <= n <= free[k].size
    requires forall a :: a in mem && a !in Touched(free, k, n) ==> a in mem' && mem'[a] == mem[a]
    requires free[k].size == n ==>
               free[k - 1].at in mem' && mem'[free[k - 1].at] == Header(free[Next(|free|, k)].at, free[k - 1].size)
    requires free[k].size != n ==>
               free[k].at in mem' && mem'[free[k].at] == Header(free[Next(|free|, k)].at, free[k].size - n)
    ensures Linked(mem', Take(free, k, n))
  {
    TakeDistinct(base, free, k, n);
    hide Gaps, Sizes, Touched, Linked;
    if free[k].size == n {
      UnlinkedList(mem, free, k, mem');
    } else {
      ShortenedList(mem, free, k, n, mem');
    }
  }

  // ----- the search of malloc

  /** How many steps lead from free[k] to free[cur]. */
  function Dist(n: nat, k: nat, cur: nat): int {
    if k <= cur then cur - k else cur + n - k
  }

  /** free[k] is the first block, going round from the one after free[cur], that has n units. */
  ghost predicate FirstFit(free: seq<Piece>, cur: nat, n: nat, k: nat) {
    && k < |free| && free[k].size >= n
    && forall x :: 0 <= x < |free| && (if cur < k then cur < x < k else x > cur || x < k) ==> free[x].size < n
  }

  ghost predicate TooSmallBefore(free: seq<Piece>, cur: nat, n: nat, k: nat) {
    forall x :: 0 <= x < |free| && Dist(|free|, x, cur) > Dist(|free|, k, cur) ==> free[x].size < n
  }

  ghost predicate Fits(free: seq<Piece>, n: nat) {
    exists k :: 0 <= k < |free| && free[k].size >= n
  }

  lemma Neighbouring(n: nat, k: nat)
    requires k < n
    ensures Prev(n, Next(n, k)) == k && (k >= 1 ==> Prev(n, k) == k - 1)
  {
  }

  lemma NothingSeen(free: seq<Piece>, cur: nat, n: nat)
    requires cur < |free|
    ensures TooSmallBefore(free, cur, n, Next(|free|, cur))
  {
  }

  lemma SeenOneMore(free: seq<Piece>, cur: nat, n: nat, k: nat)
    requires k < |free| && cur < |free| && k != cur && TooSmallBefore(free, cur, n, k) && free[k].size < n
    ensures TooSmallBefore(free, cur, n, Next(|free|, k))
    ensures 0 <= Dist(|free|, Next(|free|, k), cur) < Dist(|free|, k, cur)
  {
  }

  lemma NoneFits(free: seq<Piece>, cur: nat, n: nat)
    requires cur < |free| && TooSmallBefore(free, cur, n, cur) && free[cur].size < n
    ensures !Fits(free, n) && !Fits([], n)
  {
  }

  lemma FitsAt(free: seq<Piece>, k: nat, n: nat)
    requires k < |free| && free[k].size >= n
    ensures Fits(free, n)
  {
  }

  lemma FirstAt(free: seq<Piece>, cur: nat, k: nat, n: nat)
    requires k < |free| && free[k].size >= n && cur < |free| && TooSmallBefore(free, cur, n, k)
    ensures Fits(free, n) && FirstFit(free, cur, n, k)
  {
  }

  function Prev(n: nat, k: nat): (l: nat)
    requires k < n
    ensures l < n
  {
    if k == 0 then n - 1 else k - 1
  }

  /** The header of free[k]. */
  lemma NextOf(base: nat, mem: map<nat, Header>, free: seq<Piece>, live: Live, heap: seq<Piece>, k: nat)
    requires Sound(base, mem, free, live, heap) && k < |free|
    ensures free[k].at in mem && mem[free[k].at] == Header(free[Next(|free|, k)].at, free[k].size)
    ensures base <= free[k].at && (free[k].size > 0 ==> k >= 1)
    ensures forall l :: 0 <= l < |free| && free[l].at == free[k].at ==> l == k
  {
    assert LinkedAt(mem, free, k);
  }

  lemma StartSound(base: nat, mem: map<nat, Header>)
    requires base in mem && mem[base] == Header(base, 0)
    ensures Sound(base, mem, [Piece(base, 0)], map[], [])
  {
  }

  /** Memory is sound again when malloc has taken from free[k] and rewritten its headers. */
  lemma TakeSound(base: nat, mem: map<nat, Header>, free: seq<Piece>, live: Live, heap: seq<Piece>, k: nat, n: nat,
                  mem': map<nat, Header>)
    requires Sound(base, mem, free, live, heap) && 1 <= k < |free| && 1 <= n <= free[k].size
    requires forall a :: a in mem && a !in Touched(free, k, n) ==> a in mem' && mem'[a] == mem[a]
    requires free[k].size == n ==>
               free[k - 1].at in mem' && mem'[free[k - 1].at] == Header(free[Next(|free|, k)].at, free[k - 1].size)
    requires free[k].size != n ==>
               free[k].at in mem' && mem'[free[k].at] == Header(free[Next(|free|, k)].at, free[k].size - n)
    requires free[k].size != n ==> Taken(free, k, n).at in mem' && mem'[Taken(free, k, n).at].size == n
    ensures Taken(free, k, n).at !in live && base < Taken(free, k, n).at
    ensures Sound(base, mem', Take(free, k, n), live[Taken(free, k, n).at := n], heap)
    ensures k - 1 < |Take(free, k, n)| && Take(free, k, n)[k - 1] == free[k - 1]
  {
    var b := Taken(free, k, n);
    TakeApart(base, free, k, n, live);
    assert b.at !in live by {
      assert forall a :: a in live ==> Apart(b, Piece(a, live[a]));
    }
    TakeListed(base, free, k, n);
    TakeLinked(base, mem, free, k, n, mem');
    TakeConserved(heap, free, k, n, live);
    TakeDistinct(base, free, k, n);
    assert LinkedAt(mem, free, k);
    forall a | a in live
      ensures a !in Touched(free, k, n) && a != b.at
    {
      assert Apart(free[k], Piece(a, live[a])) && Apart(free[k - 1], Piece(a, live[a]));
    }
  }

  lemma StoreSound(base: nat, mem: map<nat, Header>, free: seq<Piece>, live: Live, heap: seq<Piece>, a: nat, u: nat, h: Header)
    requires Sound(base, mem, free, live, heap) && a in live && a < u < a + live[a]
    ensures Sound(base, mem[u := h], free, live, heap)
  {
    var mem' := mem[u := h];
    forall k: nat | k < |free|
      ensures LinkedAt(mem', free, k)
    {
      assert LinkedAt(mem, free, k);
      assert Apart(free[k], Piece(a, live[a]));
    }
    forall c | c in live
      ensures c != u
    {
      assert c != a ==> Apart(Piece(a, live[a]), Piece(c, live[c]));
    }
  }

  /** Fresh memory set up as a live block. */
  lemma RegionSound(base: nat, mem: map<nat, Header>, free: seq<Piece>, live: Live, heap: seq<Piece>, b: Piece)
    requires Sound(base, mem, free, live, heap) && base < b.at && 1 <= b.size
    requires forall u: nat :: HoldsUnit(heap, u) ==> !Within(b, u)
    ensures b.at !in live
    ensures Sound(base, mem[b.at := Header(0, b.size)], free, live[b.at := b.size], heap + [b])
  {
    var mem', live' := mem[b.at := Header(0, b.size)], live[b.at := b.size];
    forall k: nat | k < |free|
      ensures Apart(free[k], b) && free[k].at != b.at
    {
      var u := if free[k].at < b.at then b.at else free[k].at;
      assert Within(free[k], u) ==> HoldsUnit(free, u);
    }
    forall a | a in live
      ensures Apart(b, Piece(a, live[a])) && a != b.at
    {
      var u := if a < b.at then b.at else a;
      assert Within(Piece(a, live[a]), u) ==> HoldsLive(live, u);
    }
    forall k: nat | k < |free|
      ensures LinkedAt(mem', free, k)
    {
      assert LinkedAt(mem, free, k);
    }
    forall u: nat
      ensures HoldsUnit(heap + [b], u) <==> HoldsUnit(free, u) || HoldsLive(live', u)
    {
      LiveMore(live, b, u);
      HoldsMore(heap, b, u);
    }
  }

  lemma HoldsMore(s: seq<Piece>, b: Piece, u: nat)
    ensures HoldsUnit(s + [b], u) <==> HoldsUnit(s, u) || Within(b, u)
  {
    assert (s + [b])[|s|] == b;
    if HoldsUnit(s, u) {
      var k :| 0 <= k < |s| && Within(s[k], u);
      assert Within((s + [b])[k], u);
    }
  }

  lemma InsertFits(free: seq<Piece>, j: nat, b: Piece)
    requires j < |free|
    ensures forall n: nat :: n <= b.size ==> Fits(Insert(free, j, b), n)
  {
    InsertAt(free, j, b, if MergesDown(free, j, b) then j else j + 1);
    FitsAt(Insert(free, j, b), if MergesDown(free, j, b) then j else j + 1, b.size);
    assert Joined(free, j, b).size >= b.size;
  }

  lemma HeldMonotone(heap: seq<Piece>, m: nat, n: nat)
    ensures m <= n && HeldBelow(heap, m) ==> HeldBelow(heap, n)
  {
  }

  /** What sbrk added is below the new end, if it was asked for more; and never beyond the units that malloc wanted. */
  lemma RegionHeld(heap: seq<Piece>, brk: nat, nu: nat, pages: bool)
    requires HeldBelow(heap, brk / 8) && 0 < brk < KERNBASE && brk % 8 == 0 && 1 <= nu <= UNITS
    requires var s := Sbrk(brk, Request(Most(nu, MORE)), pages); s.answer.Some? && s.end >= brk
    ensures var heap' := heap + [Piece(brk / 8, Most(nu, MORE))];
            var end := Sbrk(brk, Request(Most(nu, MORE)), pages).end;
            && HeldBelow(heap', LIMIT + nu) && end < KERNBASE
            && (Request(Most(nu, MORE)) > 0 ==> HeldBelow(heap', end / 8))
  {
    var b := Piece(brk / 8, Most(nu, MORE));
    SbrkOwnsIff(brk, b.size, pages);
    forall u: nat | HoldsUnit(heap + [b], u)
      ensures u < brk / 8 || Within(b, u)
    {
      HoldsMore(heap, b, u);
    }
  }

  /** Without a block, the caller is well served exactly if memory was asked for and refused. */
  lemma ServedNullIff(nbytes: nat, r: Outcome, live: Live, brk: nat, pages: bool)
    requires nbytes < UINT && 0 < brk < KERNBASE && !r.Block?
    requires var s := Sbrk(brk, Request(Most(UnitsFor(nbytes), MORE)), pages);
             if r.Null? then s.answer.None? else s.answer.Some? && s.end < brk
    ensures var end := Sbrk(brk, Request(Most(UnitsFor(nbytes), MORE)), pages).end;
            && (Served(nbytes, r, live, brk, end) <==> nbytes <= MAXREQUEST || (nbytes > 0xFFFF_FFF8 && r.Null?))
            && (nbytes <= MAXREQUEST || nbytes > 0xFFFF_FFF8 ==> brk <= end)
  {
    RequestIff(nbytes);
    UnitsSufficeIff(nbytes);
    SbrkOwnsIff(brk, Most(UnitsFor(nbytes), MORE), pages);
  }

  class Heap {
    const base: nat
    var mem: map<nat, Header>
    var freep: nat                      // 0 before the first malloc
    ghost var free: seq<Piece>
    ghost var cur: nat                  // freep's place in the list
    ghost var live: Live
    ghost var heap: seq<Piece>          // what sbrk has returned

    ghost predicate Valid()
      reads this
    {
      && 0 < base < LIMIT && HeldBelow(heap, LIMIT)
      && if freep == 0 then free == [] && live == map[] && heap == [] else Ready()
    }

    ghost predicate Ready()
      reads this
    {
      0 < base < LIMIT && Sound(base, mem, free, live, heap) && cur < |free| && free[cur].at == freep
    }

    constructor (base: nat)
      requires 0 < base < LIMIT
      ensures Valid() && this.base == base && freep == 0 && live == map[] && heap == []
    {
      this.base, mem, freep := base, map[], 0;
      free, cur, live, heap := [], 0, map[], [];
    }

    /** The search of free(): the list element after which bp belongs. */
    method Search(bp: nat, ghost b: Piece) returns (p: nat, ghost j: nat)
      requires Ready() && b.at == bp && base < bp && 1 <= b.size
      requires forall k :: 0 <= k < |free| ==> Apart(free[k], b)
      ensures Place(free, j, b) && p == free[j].at
    {
      hide Gaps, Sizes, LinkedAt;
      p, j := freep, cur;
      RingStep(base, mem, free, j, b);
      ghost var home: nat := HomeOf(free, b);
      HomeIsPlace(base, free, b);
      while !(bp > p && bp < mem[p].ptr)
        invariant j < |free| && p == free[j].at && p in mem && mem[p].ptr == free[Next(|free|, j)].at
        decreases if j <= home then home - j else home + |free| - j
      {
        RingStep(base, mem, free, j, b);
        if p >= mem[p].ptr && (bp > p || bp < mem[p].ptr) {
          break;
        }
        p, j := mem[p].ptr, Next(|free|, j);
        RingStep(base, mem, free, j, b);
      }
      RingStep(base, mem, free, j, b);
    }

    /** free() of the block whose header is at ap - 1. */
    method Free(ap: nat) returns (ghost j: nat)
      requires Ready() && ap > 0 && ap - 1 in live && Addressable(free, Piece(ap - 1, live[(ap - 1) as nat]))
      modifies this
      ensures Ready() && live == old(live) - {(ap - 1) as nat} && heap == old(heap)
      ensures old(Valid()) ==> Valid()
      ensures j < |old(free)| && freep == old(free)[j].at == free[cur].at
      ensures var b := Piece(ap - 1, old(live)[(ap - 1) as nat]); Place(old(free), j, b) && free == Insert(old(free), j, b)
    {
      hide Insert, Listed, Linked, Conserved, MergesUp, LiveApart, FreeApart, LiveHeaders;
      var bp: nat := ap - 1;
      ghost var b := Piece(bp, live[bp]);
      ghost var mem0 := mem;
      LiveBlock(base, mem, free, live, heap, bp);
      var p;
      p, j := Search(bp, b);
      Neighbours(base, mem, free, j, b);
      var next := mem[p].ptr;
      if Plus(bp, mem[bp].size) == next {
        mem := mem[bp := Header(mem[next].ptr, mem[bp].size + mem[next].size)];
      } else {
        mem := mem[bp := Header(next, mem[bp].size)];
      }
      if Plus(p, mem[p].size) == bp {
        mem := mem[p := Header(mem[bp].ptr, mem[p].size + mem[bp].size)];
      } else {
        mem := mem[p := Header(bp, mem[p].size)];
      }
      freep, cur := p, j;
      JoinedAt(free, j, b);
      FreedSound(base, mem0, free, live, heap, j, b, mem);
      free, live := Insert(free, j, b), live - {bp};
    }

    /** The program writes anything it likes into a block it holds. */
    method Store(a: nat, u: nat, h: Header)
      requires Valid() && a in live && a < u < a + live[a]
      modifies `mem
      ensures Valid()
    {
      ghost var mem0 := mem;
      mem := mem[u := h];
      StoreSound(base, mem0, free, live, heap, a, u, h);
    }

    /** free() may be called for every block that a caller holds. */
    lemma FreeRequires(a: nat)
      requires Valid() && a in live
      ensures Ready() && Addressable(free, Piece(a, live[a]))
    {
      LiveBlock(base, mem, free, live, heap, a);
      LiveBelow(heap, free, live, LIMIT, a);
      FreeEnds(LIMIT);
    }

    lemma FreeEnds(n: nat)
      requires Ready() && HeldBelow(heap, n) && base <= n
      ensures forall k :: 0 <= k < |free| ==> free[k].at + free[k].size <= n
    {
      forall k | 0 <= k < |free|
        ensures free[k].at + free[k].size <= n
      {
        if free[k].size > 0 {
          FreeBelow(heap, free, live, n, k);
        }
      }
    }

    /** The caller of malloc is well served with a block exactly up to the greatest request. */
    lemma ServedBlockIff(nbytes: nat, p: nat, brk: nat, end: nat)
      requires Ready() && p in live && nbytes < UINT && live[p] == UnitsFor(nbytes) && brk <= end < KERNBASE
      requires HeldBelow(heap, end / 8) || LIMIT <= UnitsFor(nbytes)
      ensures Served(nbytes, Block(p + 1), live, brk, end) <==> nbytes <= MAXREQUEST
    {
      RequestIff(nbytes);
      UnitsSufficeIff(nbytes);
      if HeldBelow(heap, end / 8) {
        LiveBelow(heap, free, live, end / 8, p);
      }
    }

    /** morecore: nu units or more from sbrk, put on the list by free(). */
    method Morecore(nu: nat, brk: nat, pages: bool) returns (p: Outcome, end: nat)
      requires Ready() && 1 <= nu <= UNITS && HeldBelow(heap, brk / 8) && 8 * base < brk < KERNBASE && brk % 8 == 0
      modifies this
      ensures var n := Most(nu, MORE);
              var s := Sbrk(brk, Request(n), pages);
              && end == s.end
              && (s.answer.None? ==> p == Null)
              && (s.answer.Some? && end < brk ==> p == Gone)
              && (s.answer.Some? && end >= brk ==> Ready() && p == Block(freep) && Fits(free, nu) && live == old(live)
                                                   && heap == old(heap) + [Piece(brk / 8, n)])
      ensures p.Block? ==> var added := heap[|old(heap)|..];
                |added| == 1 && added[0].at == brk / 8 && added[0].size == if nu < 4096 then 4096 else nu
      ensures !p.Block? ==> Ready() && free == old(free) && cur == old(cur) && heap == old(heap) && live == old(live) && freep == old(freep)
    {
      hide Sound, Insert, Fits, Sbrk, Request;
      var n := Most(nu, MORE);
      SbrkOwnsIff(brk, n, pages);
      var s := Sbrk(brk, Request(n), pages);
      end := s.end;
      if s.answer.None? {
        return Null, end;
      }
      if end < brk {
        return Gone, end;
      }
      var hp := s.answer.value / 8;
      ghost var b := Piece(hp, n);
      FreeEnds(hp);
      RegionSound(base, mem, free, live, heap, b);
      mem := mem[hp := Header(0, n)];
      ghost var free0, live0 := free, live;
      live, heap := live[hp := n], heap + [b];
      ghost var j := Free(hp + 1);
      assert live == live0;
      InsertFits(free0, j, b);
      return Block(freep), end;
    }

    /** Morecore for a request of malloc's: where everything held then is, and what a failure amounts to. */
    method Grow(nbytes: nat, nu: nat, brk: nat, pages: bool) returns (p: Outcome, end: nat)
      requires Ready() && nbytes < UINT && nu == UnitsFor(nbytes) && 1 <= nu <= UNITS
      requires HeldBelow(heap, brk / 8) && 8 * base < brk < KERNBASE && brk % 8 == 0
      modifies this
      ensures Ready() && live == old(live)
      ensures var s := Sbrk(brk, Request(Most(nu, MORE)), pages);
              end == s.end && (p == Null <==> s.answer.None?) && (p == Gone <==> s.answer.Some? && end < brk)
      ensures p.Block? ==> p == Block(freep) && Fits(free, nu) && heap == old(heap) + [Piece(brk / 8, Most(nu, MORE))]
      ensures p.Block? ==> HeldBelow(heap, LIMIT + nu) && brk <= end < KERNBASE
                           && (Request(Most(nu, MORE)) > 0 ==> HeldBelow(heap, end / 8))
      ensures !p.Block? ==> free == old(free) && cur == old(cur) && heap == old(heap) && freep == old(freep)
      ensures !p.Block? ==> (Served(nbytes, p, live, brk, end) <==> nbytes <= MAXREQUEST || (nbytes > 0xFFFF_FFF8 && p == Null))
      ensures !p.Block? && (nbytes <= MAXREQUEST || nbytes > 0xFFFF_FFF8) ==> HeldBelow(heap, end / 8)
    {
      hide Sound, Fits, Sbrk, Request, UnitsFor, HeldBelow, Served, Most;
      p, end := Morecore(nu, brk, pages);
      if p.Block? {
        RegionHeld(old(heap), brk, nu, pages);
      } else {
        ServedNullIff(nbytes, p, live, brk, pages);
        HeldMonotone(heap, brk / 8, end / 8);
      }
    }

    /** The list of base alone, before the first malloc. */
    method Start()
      requires Valid()
      modifies this
      ensures Ready() && live == old(live) && heap == old(heap)
      ensures if old(freep) == 0 then free == [Piece(base, 0)] else free == old(free) && cur == old(cur)
    {
      if freep == 0 {
        mem, freep := mem[base := Header(base, 0)], base;
        free, cur := [Piece(base, 0)], 0;
        StartSound(base, mem);
      }
    }

    lemma TakenBelow(k: nat, n: nat)
      requires Ready() && HeldBelow(heap, LIMIT + n) && k < |free| && 1 <= n <= free[k].size
      ensures Taken(free, k, n).at <= LIMIT && Plus(free[k].at, free[k].size - n) == Taken(free, k, n).at
    {
      FreeBelow(heap, free, live, LIMIT + n, k);
    }

    /** malloc's taking of nunits units from p, whose predecessor on the list is prevp. */
    method Cut(prevp: nat, p0: nat, nunits: nat, ghost k: nat) returns (p: nat)
      requires Ready() && 1 <= k < |free| && p0 == free[k].at && prevp == free[k - 1].at && 1 <= nunits <= free[k].size
      requires HeldBelow(heap, LIMIT + nunits)
      modifies this
      ensures Ready() && freep == prevp != 0 && heap == old(heap)
      ensures p == old(free)[k].at + old(free)[k].size - nunits == Taken(old(free), k, nunits).at && free == Take(old(free), k, nunits)
      ensures base < p && p !in old(live) && live == old(live)[p := nunits]
    {
      hide Sound, Take;
      p := p0;
      NextOf(base, mem, free, live, heap, k);
      NextOf(base, mem, free, live, heap, k - 1);
      TakenBelow(k, nunits);
      ghost var b, mem0 := Taken(free, k, nunits), mem;
      if mem[p].size == nunits {
        mem := mem[prevp := Header(mem[p].ptr, mem[prevp].size)];
      } else {
        mem := mem[p := Header(mem[p].ptr, mem[p].size - nunits)];
        p := Plus(p, mem[p].size);
        mem := mem[p := Header(if p in mem then mem[p].ptr else 0, nunits)];
      }
      freep := prevp;
      TakeSound(base, mem0, free, live, heap, k, nunits, mem);
      free, live, cur := Take(free, k, nunits), live[b.at := nunits], k - 1;
    }

    /**
     malloc when the program's memory ends at brk: the first block that is large enough,
     going round from freep, or more memory from sbrk.
     */
    method Malloc(nbytes: nat, brk: nat, pages: bool) returns (r: Outcome, end: nat, ghost k: nat, ghost grown: bool)
      requires Valid() && nbytes < UINT
      requires HeldBelow(heap, brk / 8) && 8 * base < brk < KERNBASE && brk % 8 == 0
      modifies this
      ensures Ready()
      ensures var n := UnitsFor(nbytes);
              var fits, s := Fits(old(free), n), Sbrk(brk, Request(Most(n, MORE)), pages);
              && end == (if fits then brk else s.end)
              && (r == Null <==> !fits && s.answer.None?)
              && (r == Gone <==> !fits && s.answer.Some? && end < brk)
              && (grown <==> !fits && r.Block?)
              && heap == (if grown then old(heap) + [Piece(brk / 8, Most(n, MORE))] else old(heap))
              && (r.Block? ==> base < r.ap - 1 && (r.ap - 1) as nat !in old(live) && live == old(live)[(r.ap - 1) as nat := n])
              && (r.Block? && fits ==> FirstFit(old(free), old(cur), n, k) && free == Take(old(free), k, n)
                                       && r.ap - 1 == old(free)[k].at + old(free)[k].size - n)
      ensures r.Block? && !grown ==> 1 <= k < |old(free)| && freep == old(free)[k - 1].at
      ensures !r.Block? ==> live == old(live)
      ensures nbytes <= MAXREQUEST || nbytes > 0xFFFF_FFF8 ==> Valid() && HeldBelow(heap, end / 8)
      ensures Served(nbytes, r, live, brk, end) <==> nbytes <= MAXREQUEST || (nbytes > 0xFFFF_FFF8 && r == Null)
    {
      hide Sound, Take, Taken, TooSmallBefore, FirstFit, Fits, Dist, Sbrk, Request, UnitsFor, HeldBelow, Served, Most, Next, Prev;
      grown, k, end := false, 0, brk;
      var nunits := UnitsFor(nbytes);
      RequestIff(nbytes);
      UnitsSufficeIff(nbytes);
      Start();
      var prevp := freep;
      NextOf(base, mem, free, live, heap, cur);
      var p := mem[prevp].ptr;
      k := Next(|free|, cur);
      NothingSeen(free, cur, nunits);
      Neighbouring(|free|, cur);
      HeldMonotone(heap, brk / 8, LIMIT + nunits);
      while true
        invariant Ready() && k < |free| && p == free[k].at && prevp == free[Prev(|free|, k)].at
        invariant TooSmallBefore(free, cur, nunits, k)
        invariant HeldBelow(heap, LIMIT + nunits) && brk <= end < KERNBASE
        invariant if !grown || Request(Most(nunits, MORE)) > 0 then HeldBelow(heap, end / 8) else LIMIT <= nunits
        invariant grown ==> Fits(free, nunits) && !Fits(old(free), nunits)
        invariant grown ==> Sbrk(brk, Request(Most(nunits, MORE)), pages).answer.Some? && Sbrk(brk, Request(Most(nunits, MORE)), pages).end == end
        invariant live == old(live) && heap == if grown then old(heap) + [Piece(brk / 8, Most(nunits, MORE))] else old(heap)
        invariant !grown && old(freep) != 0 ==> free == old(free) && cur == old(cur)
        invariant old(freep) == 0 && !grown ==> free == [Piece(base, 0)]
        invariant !grown ==> end == brk
        decreases if grown then 0 else 1, Dist(|free|, k, cur)
      {
        NextOf(base, mem, free, live, heap, k);
        Neighbouring(|free|, k);
        if mem[p].size >= nunits {
          FirstAt(free, cur, k, nunits);
          assert !grown ==> Fits(old(free), nunits);
          p := Cut(prevp, p, nunits, k);
          ServedBlockIff(nbytes, p, brk, end);
          HeldMonotone(heap, end / 8, LIMIT);
          return Block(p + 1), end, k, grown;
        }
        if p == freep {
          NoneFits(free, cur, nunits);
          ghost var free0 := free;
          var more;
          more, end := Grow(nbytes, nunits, brk, pages);
          if !more.Block? {
            HeldMonotone(heap, brk / 8, LIMIT);
            return more, end, k, grown;
          }
          p := more.ap;
          grown, k := true, cur;
          NothingSeen(free, cur, nunits);
          Neighbouring(|free|, k);
          NextOf(base, mem, free, live, heap, k);
        } else {
          SeenOneMore(free, cur, nunits, k);
        }
        prevp, p, k := p, mem[p].ptr, Next(|free|, k);
      }
    }
  }

  /** A program of five pages asks for 2^31 bytes and gets a block of memory that it does not have. */
  method UnownedBlock() returns (heap: Heap, r: Outcome, end: nat)
    ensures fresh(heap) && end == 0x5000 && r.Block? && r.ap > 0 && r.ap - 1 in heap.live
    ensures 8 * (r.ap - 1 + heap.live[(r.ap - 1) as nat]) > end
  {
    heap := new Heap(512);
    ghost var k, grown;
    r, end, k, grown := heap.Malloc(0x8000_0000, 0x5000, true);
  }

  /** The last list element below b. */
  ghost function HomeOf(free: seq<Piece>, b: Piece): (j: nat)
    requires |free| > 0 && free[0].at < b.at
    ensures j < |free| && free[j].at < b.at
    ensures j + 1 < |free| ==> b.at <= free[j + 1].at
  {
    if free[|free| - 1].at < b.at then |free| - 1 else HomeOf(free[..|free| - 1], b)
  }

  function Most(a: nat, b: nat): nat {
    if a < b then b else a
  }
}
