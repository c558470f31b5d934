/**
 Directories as files of 16-byte entries, the inode cache's reference counts, and
 path names.

 A C string is the bytes before its NUL; a name counts up to DIRSIZ bytes.
 */
module Directories {
  import opened Machine
  import opened Blocks
  import opened Inodes
  import opened FileSystem

  const DIRSIZ: nat := 14
  const DIRENT: nat := 16
  const SLASH: Byte := 47
  const ROOTINO: nat := 1

  type Bytes = seq<Byte>

  // ----- names

  /** The part of a name that counts. */
  function Trunc(name: Bytes): (n: Bytes)
    ensures |n| <= DIRSIZ
  {
    if |name| <= DIRSIZ then name else name[..DIRSIZ]
  }

  predicate CString(s: Bytes) {
    forall k :: 0 <= k < |s| ==> s[k] != 0
  }

  /** The string that a name field holds. */
  function UpToNul(field: Bytes): (s: Bytes)
    ensures |s| <= |field| && CString(s)
  {
    if field == [] || field[0] == 0 then [] else [field[0]] + UpToNul(field[1..])
  }

  /** strncmp of a C string with a field of n bytes: 0 or the difference of the first bytes that differ. */
  function Strncmp(p: Bytes, q: Bytes, n: nat): int
    requires |q| == n
    decreases n
  {
    if n == 0 then 0
    else
      var a: int := if p == [] then 0 else p[0];
      if a != 0 && a == q[0] then Strncmp(p[1..], q[1..], n - 1) else a - q[0]
  }

  /** namecmp is 0 exactly for names that agree up to DIRSIZ bytes. */
  lemma {:induction false} StrncmpIff(p: Bytes, q: Bytes, n: nat)
    requires |q| == n && CString(p)
    ensures Strncmp(p, q, n) == 0 <==> (if |p| <= n then p else p[..n]) == UpToNul(q)
    decreases n
  {
    if n > 0 && p != [] && p[0] == q[0] {
      StrncmpIff(p[1..], q[1..], n - 1);
      assert p == [p[0]] + p[1..];
      assert |p| > n ==> p[..n] == [p[0]] + p[1..][..n - 1];
      assert UpToNul(q) == [q[0]] + UpToNul(q[1..]);
      assert UpToNul(q)[1..] == UpToNul(q[1..]);
      if |p| <= n {
        assert p[1..] == UpToNul(q[1..]) <==> p == UpToNul(q);
      } else {
        assert p[..n][1..] == p[1..][..n - 1];
      }
    } else if n > 0 && p != [] {
      assert p[0] != 0;
      assert (if |p| <= n then p else p[..n])[0] == p[0];
    }
  }

  /** strncpy into a field of n bytes: padded with NULs, and without one if the string is long. */
  function Padded(s: Bytes, n: nat): (field: Bytes)
    ensures |field| == n
  {
    seq(n, k requires 0 <= k => if k < |s| then s[k] else 0)
  }

  lemma {:induction false} PaddedReads(s: Bytes, n: nat)
    requires CString(s)
    ensures UpToNul(Padded(s, n)) == if |s| <= n then s else s[..n]
    decreases n
  {
    if n > 0 && s != [] {
      PaddedReads(s[1..], n - 1);
      assert Padded(s, n)[1..] == Padded(s[1..], n - 1);
      assert |s| > n ==> s[..n] == [s[0]] + s[1..][..n - 1];
      assert s == [s[0]] + s[1..];
    }
  }

  // ----- a directory as bytes

  predicate IsDirectory(d: Bytes) {
    |d| % DIRENT == 0
  }

  function Inum(e: Bytes): nat
    requires |e| == DIRENT
  {
    var low: int, high: int := e[0], e[1];
    low + 256 * high
  }

  function NameOf(e: Bytes): Bytes
    requires |e| == DIRENT
  {
    UpToNul(e[2..])
  }

  /** The k-th entry. */
  function EntryAt(d: Bytes, k: nat): (e: Bytes)
    requires (k + 1) * DIRENT <= |d|
    ensures |e| == DIRENT
  {
    d[k * DIRENT..(k + 1) * DIRENT]
  }

  /** An entry in use for this name. */
  predicate Names(d: Bytes, k: nat, name: Bytes) {
    (k + 1) * DIRENT <= |d| && Inum(EntryAt(d, k)) != 0 && NameOf(EntryAt(d, k)) == name
  }

  /** The directory's meaning: which names lead to which inodes. */
  ghost predicate Binds(d: Bytes, name: Bytes, inum: nat) {
    exists k: nat :: Names(d, k, name) && Inum(EntryAt(d, k)) == inum
  }

  /** No two entries in use have the same name. */
  ghost predicate UniqueNames(d: Bytes) {
    forall k: nat, l: nat, name :: Names(d, k, name) && Names(d, l, name) ==> k == l
  }

  /** The first entry in use for the name, or 0. */
  function Lookup(d: Bytes, name: Bytes, from: nat): nat
    decreases |d| - from * DIRENT
  {
    if (from + 1) * DIRENT > |d| then 0
    else if Names(d, from, name) then Inum(EntryAt(d, from))
    else Lookup(d, name, from + 1)
  }

  /** Lookup finds a binding if there is one. */
  lemma {:induction false} LookupFrom(d: Bytes, name: Bytes, from: nat)
    ensures Lookup(d, name, from) == 0 <==> forall k: nat :: k >= from ==> !Names(d, k, name)
    ensures Lookup(d, name, from) != 0 ==> exists k: nat :: k >= from && Names(d, k, name) && Inum(EntryAt(d, k)) == Lookup(d, name, from)
    decreases |d| - from * DIRENT
  {
    if (from + 1) * DIRENT <= |d| {
      if Names(d, from, name) {
        assert Names(d, from, name) && Inum(EntryAt(d, from)) == Lookup(d, name, from);
      } else {
        LookupFrom(d, name, from + 1);
      }
    } else {
      forall k: nat | k >= from
        ensures !Names(d, k, name)
      {
      }
    }
  }

  /** In a directory without duplicates, dirlookup's scan is the map from names to inodes. */
  lemma LookupIff(d: Bytes, name: Bytes, inum: nat)
    requires UniqueNames(d)
    ensures inum != 0 ==> (Lookup(d, name, 0) == inum <==> Binds(d, name, inum))
    ensures Lookup(d, name, 0) == 0 <==> forall i :: !Binds(d, name, i)
  {
    LookupFrom(d, name, 0);
    if Lookup(d, name, 0) != 0 {
      assert Binds(d, name, Lookup(d, name, 0));
    }
  }

  /** A new entry. */
  function NewEntry(name: Bytes, inum: nat): (e: Bytes)
    ensures |e| == DIRENT
  {
    [inum % 256, inum / 256 % 256] + Padded(name, DIRSIZ)
  }

  lemma NewEntryReads(name: Bytes, inum: nat)
    requires CString(name)
    ensures Inum(NewEntry(name, inum)) == inum % 0x1_0000 && NameOf(NewEntry(name, inum)) == Trunc(name)
  {
    PaddedReads(name, DIRSIZ);
    assert NewEntry(name, inum)[2..] == Padded(name, DIRSIZ);
  }

  /** The entries after writing one at a free place, or at the end. */
  lemma EntriesAfter(d: Bytes, k: nat, e: Bytes, l: nat)
    requires IsDirectory(d) && k * DIRENT <= |d| && |e| == DIRENT
    ensures var d' := Splice(d, k * DIRENT, e);
            && IsDirectory(d') && |d'| == (if k * DIRENT == |d| then |d| + DIRENT else |d|)
            && ((l + 1) * DIRENT <= |d'| ==>
                  EntryAt(d', l) == if l == k then e else if (l + 1) * DIRENT <= |d| then EntryAt(d, l) else e)
            && ((l + 1) * DIRENT <= |d'| && l != k ==> (l + 1) * DIRENT <= |d|)
  {
    var d' := Splice(d, k * DIRENT, e);
    if (l + 1) * DIRENT <= |d'| {
      if l == k {
        assert EntryAt(d', l) == e;
      } else {
        assert (l + 1) * DIRENT <= k * DIRENT || (k + 1) * DIRENT <= l * DIRENT;
        forall x | 0 <= x < DIRENT
          ensures EntryAt(d', l)[x] == EntryAt(d, l)[x]
        {
          assert d'[l * DIRENT + x] == d[l * DIRENT + x];
        }
        assert EntryAt(d', l) == EntryAt(d, l);
      }
    }
  }

  lemma NamesAfter(d: Bytes, k: nat, name: Bytes, inum: nat, l: nat, n: Bytes)
    requires IsDirectory(d) && CString(name) && 0 < inum < 0x1_0000
    requires k * DIRENT <= |d| && (k * DIRENT < |d| ==> Inum(EntryAt(d, k)) == 0)
    ensures var d' := Splice(d, k * DIRENT, NewEntry(name, inum));
            && (Names(d', l, n) <==> if l == k then n == Trunc(name) else Names(d, l, n))
            && (Names(d', l, n) ==> Inum(EntryAt(d', l)) == if l == k then inum else Inum(EntryAt(d, l)))
  {
    NewEntryReads(name, inum);
    EntriesAfter(d, k, NewEntry(name, inum), k);
    EntriesAfter(d, k, NewEntry(name, inum), l);
    hide NewEntry, EntryAt, Inodes.Splice, NameOf, Inum;
  }

  /**
   dirlink adds exactly one binding, that of the name as far as it counts, and keeps the
   names unique; dirlookup reads it back.  Inode numbers that are multiples of 65536
   would be lost in the entry's 16 bits.
   */
  lemma LinkBinds(d: Bytes, k: nat, name: Bytes, inum: nat)
    requires IsDirectory(d) && UniqueNames(d) && CString(name) && 0 < inum < 0x1_0000
    requires k * DIRENT <= |d| && (k * DIRENT < |d| ==> Inum(EntryAt(d, k)) == 0)
    requires Lookup(d, Trunc(name), 0) == 0
    ensures var d' := Splice(d, k * DIRENT, NewEntry(name, inum));
            && IsDirectory(d') && UniqueNames(d')
            && (forall n, i :: Binds(d', n, i) <==> Binds(d, n, i) || (n == Trunc(name) && i == inum))
            && Lookup(d', Trunc(name), 0) == inum
  {
    hide Names, NewEntry, EntryAt, Inodes.Splice, Inum, Trunc;
    var d' := Splice(d, k * DIRENT, NewEntry(name, inum));
    LookupFrom(d, Trunc(name), 0);
    EntriesAfter(d, k, NewEntry(name, inum), k);
    forall l: nat, n
      ensures Names(d', l, n) <==> if l == k then n == Trunc(name) else Names(d, l, n)
      ensures Names(d', l, n) ==> (l + 1) * DIRENT <= |d'| && Inum(EntryAt(d', l)) == if l == k then inum else Inum(EntryAt(d, l))
    {
      NamesInside(d', l, n);
      NamesInside(d, l, n);
      NamesAfter(d, k, name, inum, l, n);
    }
    forall n, i
      ensures Binds(d', n, i) <==> Binds(d, n, i) || (n == Trunc(name) && i == inum)
    {
      if Binds(d, n, i) {
        NotAt(d, k, n);
        var l: nat :| Names(d, l, n) && Inum(EntryAt(d, l)) == i;
        assert Names(d', l, n);
      }
      assert Names(d', k, Trunc(name));
    }
    LookupIff(d', Trunc(name), inum);
  }

  lemma NamesInside(d: Bytes, l: nat, n: Bytes)
    ensures Names(d, l, n) ==> (l + 1) * DIRENT <= |d| && Inum(EntryAt(d, l)) != 0
  {
  }

  /** A free entry names nothing. */
  lemma NotAt(d: Bytes, k: nat, n: Bytes)
    requires k * DIRENT <= |d| && IsDirectory(d) && (k * DIRENT < |d| ==> Inum(EntryAt(d, k)) == 0)
    ensures !Names(d, k, n)
  {
  }

  // ----- the inode cache

  /** An in-memory inode: nlink is only good once ilock has read it. */
  datatype Slot = Slot(inum: nat, ref: nat, valid: bool, nlink: nat)

  class InodeCache {
    var slot: seq<Slot>
    ghost var at: map<nat, nat>         // the slot of each inode that is referenced

    ghost predicate Valid()
      reads this
    {
      && (forall i :: i in at ==> at[i] < |slot| && slot[at[i]].inum == i && slot[at[i]].ref > 0)
      && forall ip :: 0 <= ip < |slot| && slot[ip].ref > 0 ==> slot[ip].inum in at && at[slot[ip].inum] == ip
    }

    /** How many references to inode i are out. */
    ghost function Refs(i: nat): nat
      reads this
      requires Valid()
    {
      if i in at then slot[at[i]].ref else 0
    }

    /** The references to the first n inodes. */
    ghost function Counts(n: nat): (m: map<nat, nat>)
      reads this
      requires Valid()
      ensures forall i: nat :: i < n ==> i in m && m[i] == Refs(i)
    {
      map i: nat | i < n :: Refs(i)
    }

    /** What ilock has read is what the disk says. */
    ghost predicate LinksRead(links: seq<nat>)
      reads this
    {
      forall ip :: 0 <= ip < |slot| && slot[ip].ref > 0 && slot[ip].valid ==>
        slot[ip].inum < |links| && slot[ip].nlink == links[slot[ip].inum]
    }

    /** An inode that stays if somebody who holds so many references gives them back. */
    ghost predicate Stays(links: seq<nat>, i: nat, held: nat)
      reads this
      requires Valid()
    {
      i < |links| && (links[i] > 0 || Refs(i) > held)
    }

    /** A reference to inode i that somebody holds. */
    predicate Held(ip: nat, i: nat)
      reads this
    {
      ip < |slot| && slot[ip].ref > 0 && slot[ip].inum == i
    }

    constructor (ninode: nat)
      ensures Valid() && |slot| == ninode && forall i: nat :: Refs(i) == 0
    {
      slot, at := seq(ninode, k => Slot(0, 0, false, 0)), map[];
    }

    /** iget: the slot of the inode, or a free one; without either it panics. */
    method Iget(i: nat) returns (ip: nat, ok: bool)
      requires Valid()
      modifies this
      ensures Valid()
      ensures ok <==> old(Refs(i)) > 0 || exists q :: 0 <= q < |old(slot)| && old(slot)[q].ref == 0
      ensures !ok ==> slot == old(slot)
      ensures ok ==> Held(ip, i) && Refs(i) == old(Refs(i)) + 1 && forall j: nat :: j != i ==> Refs(j) == old(Refs(j))
      ensures ok ==> forall q: nat, j: nat :: old(Held(q, j)) ==> Held(q, j)
      ensures forall links :: old(LinksRead(links)) ==> LinksRead(links)
    {
      hide Valid, LinksRead;
      var hit, empty;
      ip, hit, empty, ok := Scan(i);
      if hit {
        HeldRefs(ip, i);
        Idup(ip);
        return ip, true;
      }
      if !ok {
        NoRefs(i);
        return 0, false;
      }
      ip := empty;
      Recycle(ip, i);
    }

    /** iget's loop. */
    method Scan(i: nat) returns (ip: nat, hit: bool, empty: nat, found: bool)
      requires Valid()
      ensures hit ==> Held(ip, i) && i in at && at[i] == ip && found
      ensures !hit ==> i !in at && (found <==> exists q :: 0 <= q < |slot| && slot[q].ref == 0)
      ensures !hit && found ==> empty < |slot| && slot[empty].ref == 0
    {
      ip, hit, empty, found := 0, false, 0, false;
      while ip < |slot|
        invariant ip <= |slot|
        invariant forall q :: 0 <= q < ip ==> !(slot[q].ref > 0 && slot[q].inum == i)
        invariant if found then empty < ip && slot[empty].ref == 0 else forall q :: 0 <= q < ip ==> slot[q].ref > 0
      {
        if slot[ip].ref > 0 && slot[ip].inum == i {
          return ip, true, empty, true;
        }
        if !found && slot[ip].ref == 0 {
          empty, found := ip, true;
        }
        ip := ip + 1;
      }
    }

    /** A free slot for an inode that has none. */
    method Recycle(ip: nat, i: nat)
      requires Valid() && ip < |slot| && slot[ip].ref == 0 && i !in at
      modifies this
      ensures Valid() && old(Refs(i)) == 0
      ensures Held(ip, i) && Refs(i) == 1 && forall j: nat :: j != i ==> Refs(j) == old(Refs(j))
      ensures forall q: nat, j: nat :: old(Held(q, j)) ==> Held(q, j)
      ensures forall links :: old(LinksRead(links)) ==> LinksRead(links)
    {
      slot := slot[ip := slot[ip].(inum := i, ref := 1, valid := false)];
      at := at[i := ip];
    }

    lemma NoRefs(i: nat)
      requires Valid() && i !in at
      ensures Refs(i) == 0
    {
    }

    lemma HeldRefs(ip: nat, i: nat)
      requires Valid() && Held(ip, i)
      ensures Refs(i) == slot[ip].ref > 0 && slot[ip].inum == i
    {
    }

    method Idup(ip: nat)
      requires Valid() && ip < |slot| && slot[ip].ref > 0
      modifies this
      ensures Valid() && Held(ip, old(slot)[ip].inum)
      ensures forall j: nat :: Refs(j) == old(Refs(j)) + if j == old(slot)[ip].inum then 1 else 0
      ensures forall q: nat, j: nat :: old(Held(q, j)) ==> Held(q, j)
      ensures forall links :: old(LinksRead(links)) ==> LinksRead(links)
    {
      slot := slot[ip := slot[ip].(ref := slot[ip].ref + 1)];
    }

    /** ilock of an unlocked inode: what the disk says of it is read once. */
    method Ilock(ip: nat, onDisk: nat)
      requires Valid() && ip < |slot| && slot[ip].ref > 0
      modifies this
      ensures Valid() && forall j: nat :: Refs(j) == old(Refs(j))
      ensures slot == old(slot)[ip := old(slot)[ip].(valid := true, nlink := if old(slot)[ip].valid then old(slot)[ip].nlink else onDisk)]
      ensures forall q: nat, j: nat :: old(Held(q, j)) ==> Held(q, j)
      ensures forall links :: old(LinksRead(links)) && old(slot)[ip].inum < |links| && onDisk == links[old(slot)[ip].inum] ==> LinksRead(links)
    {
      if !slot[ip].valid {
        slot := slot[ip := slot[ip].(valid := true, nlink := onDisk)];
      }
    }

    /** The end of iput: one reference less. */
    method Drop(ip: nat)
      requires Valid() && ip < |slot| && slot[ip].ref > 0
      modifies this
      ensures Valid()
      ensures forall j: nat :: Refs(j) == old(Refs(j)) - if j == old(slot)[ip].inum then 1 else 0
      ensures forall q: nat, j: nat :: old(Held(q, j)) && (q != ip || old(slot)[ip].ref > 1) ==> Held(q, j)
      ensures slot == old(slot)[ip := old(slot)[ip].(ref := old(slot)[ip].ref - 1)]
      ensures forall links :: old(LinksRead(links)) ==> LinksRead(links)
    {
      var i := slot[ip].inum;
      slot := slot[ip := slot[ip].(ref := slot[ip].ref - 1)];
      if slot[ip].ref == 0 {
        at := map j | j in at && j != i :: at[j];
      }
    }

    /** A slot becomes invalid, to be read from the disk again. */
    method Invalidate(ip: nat)
      requires Valid() && ip < |slot|
      modifies this
      ensures Valid() && slot == old(slot)[ip := old(slot)[ip].(valid := false)]
      ensures forall j: nat :: Refs(j) == old(Refs(j))
      ensures forall links :: old(LinksRead(links)) ==> LinksRead(links)
    {
      slot := slot[ip := slot[ip].(valid := false)];
    }

    /**
     iput: one reference less, and the file is truncated, with all its blocks freed,
     exactly if that was the last reference to an inode that is known to have no links.
     */
    method Iput(fs: FileSys, ip: nat) returns (freed: bool)
      requires Valid() && fs.Valid() && ip < |slot| && slot[ip].ref > 0 && slot[ip].inum < |fs.ino|
      modifies this, fs`blk, fs`ino, fs`owner, fs`logged, fs`writes
      ensures Valid() && fs.Valid() && |fs.ino| == |old(fs.ino)|
      ensures var i := old(slot)[ip].inum;
              && (freed <==> old(Refs(i)) == 1 && old(slot)[ip].valid && old(slot)[ip].nlink == 0)
              && (forall j: nat :: Refs(j) == old(Refs(j)) - if j == i then 1 else 0)
              && (!freed ==> fs.blk == old(fs.blk) && fs.ino == old(fs.ino) && fs.owner == old(fs.owner) && fs.logged == old(fs.logged))
              && (freed ==> Truncated(fs.sb, old(fs.blk), old(fs.ino), old(fs.owner), fs.blk, fs.ino, i))
      ensures forall q: nat, j: nat :: old(Held(q, j)) && (q != ip || old(slot)[ip].ref > 1) ==> Held(q, j)
      ensures forall links :: old(LinksRead(links)) ==> LinksRead(links)
    {
      hide Inodes.Sound, Inodes.Contents, Inodes.Marked, Valid, Truncated, LinksRead;
      HeldRefs(ip, slot[ip].inum);
      freed := slot[ip].valid && slot[ip].nlink == 0 && slot[ip].ref == 1;
      if freed {
        ghost var blk0, ino0, owner0 := fs.blk, fs.ino, fs.owner;
        SoundSizes(fs.sb, fs.blk, fs.ino, fs.owner);
        fs.Itrunc(slot[ip].inum);
        SoundSizes(fs.sb, fs.blk, fs.ino, fs.owner);
        TruncatedBy(fs.sb, blk0, ino0, owner0, fs.blk, fs.ino, slot[ip].inum);
        Invalidate(ip);
      }
      Drop(ip);
    }
  }

  /** File i is empty, exactly its blocks are free, and every other file is as it was. */
  ghost predicate Truncated(sb: Super, blk: seq<Block>, ino: seq<Inode>, owner: Owners, blk': seq<Block>, ino': seq<Inode>, i: nat) {
    && SizesFit(ino) && SizesFit(ino') && i < |ino| == |ino'| && ino'[i].size == 0
    && (forall b: nat :: b < sb.size ==> (Marked(sb, blk', b) <==> Marked(sb, blk, b) && !(b in owner && owner[b].0 == i)))
    && (forall j: nat :: j < |ino| && j != i ==> ino'[j] == ino[j] && Contents(blk', ino'[j]) == Contents(blk, ino[j]))
  }

  lemma TruncatedBy(sb: Super, blk: seq<Block>, ino: seq<Inode>, owner: Owners, blk': seq<Block>, ino': seq<Inode>, i: nat)
    requires SizesFit(ino) && SizesFit(ino') && i < |ino| == |ino'| && ino'[i].size == 0
    requires forall b: nat :: b < sb.size ==> (Marked(sb, blk', b) <==> Marked(sb, blk, b) && !(b in owner && owner[b].0 == i))
    requires forall j: nat :: j < |ino| && j != i ==> ino'[j] == ino[j] && Contents(blk', ino'[j]) == Contents(blk, ino[j])
    ensures Truncated(sb, blk, ino, owner, blk', ino', i)
  {
  }

  // ----- dirlookup and dirlink

  /** dirlookup: the inode number and the offset of the entry; 0 if there is none. */
  method DirLookup(fs: FileSys, dp: nat, name: Bytes) returns (inum: nat, off: nat)
    requires fs.Valid() && dp < |fs.ino| && fs.ino[dp].size <= MAXFILE * BSIZE && fs.ino[dp].size % DIRENT == 0 && CString(name)
    modifies fs`blk, fs`ino, fs`owner, fs`logged, fs`writes
    ensures fs.blk == old(fs.blk) && fs.ino == old(fs.ino) && fs.owner == old(fs.owner) && fs.logged == old(fs.logged)
    ensures inum == Lookup(Contents(fs.blk, fs.ino[dp]), Trunc(name), 0)
    ensures inum != 0 ==> Names(Contents(fs.blk, fs.ino[dp]), off / DIRENT, Trunc(name)) && off % DIRENT == 0
  {
    hide Inodes.Sound, Inodes.Contents, Trunc, NameOf, Inum;
    ghost var d := Contents(fs.blk, fs.ino[dp]);
    off := 0;
    ghost var k := 0;
    while off < fs.ino[dp].size
      invariant fs.blk == old(fs.blk) && fs.ino == old(fs.ino) && fs.owner == old(fs.owner) && fs.logged == old(fs.logged)
      invariant off == k * DIRENT && off <= fs.ino[dp].size && Lookup(d, Trunc(name), k) == Lookup(d, Trunc(name), 0)
    {
      var de := ReadEntry(fs, dp, off);
      NameMatches(name, de);
      if Inum(de) != 0 && Strncmp(name, de[2..], DIRSIZ) == 0 {
        return Inum(de), off;
      }
      off, k := off + DIRENT, k + 1;
    }
    inum := 0;
  }

  lemma NameMatches(name: Bytes, e: Bytes)
    requires CString(name) && |e| == DIRENT
    ensures Strncmp(name, e[2..], DIRSIZ) == 0 <==> Trunc(name) == NameOf(e)
  {
    StrncmpIff(name, e[2..], DIRSIZ);
  }

  /** One directory entry. */
  method ReadEntry(fs: FileSys, dp: nat, off: nat) returns (de: Bytes)
    requires fs.Valid() && dp < |fs.ino| && fs.ino[dp].size <= MAXFILE * BSIZE && off + DIRENT <= fs.ino[dp].size && off % DIRENT == 0
    modifies fs`blk, fs`ino, fs`owner, fs`logged, fs`writes
    ensures fs.blk == old(fs.blk) && fs.ino == old(fs.ino) && fs.owner == old(fs.owner) && fs.logged == old(fs.logged)
    ensures |de| == DIRENT && de == EntryAt(Contents(fs.blk, fs.ino[dp]), off / DIRENT)
  {
    hide Inodes.Sound, Inodes.Contents;
    var r;
    de, r := fs.Readi(dp, off, DIRENT);
  }

  /**
   dirlink: -1 if the name is taken; otherwise the new entry goes to the first free place.
   ok is false where the source panics: no room for the entry, or no block on the disk.
   */
  method DirLink(fs: FileSys, dp: nat, name: Bytes, inum: nat) returns (r: int, ok: bool)
    requires fs.Valid() && dp < |fs.ino| && SizesFit(fs.ino) && fs.ino[dp].size % DIRENT == 0 && CString(name)
    requires 0 < inum < 0x1_0000 && UniqueNames(Contents(fs.blk, fs.ino[dp]))
    modifies fs`blk, fs`ino, fs`owner, fs`logged, fs`writes
    ensures r == -1 <==> Lookup(Contents(old(fs.blk), old(fs.ino)[dp]), Trunc(name), 0) != 0
    ensures r == -1 ==> ok && fs.blk == old(fs.blk) && fs.ino == old(fs.ino) && fs.owner == old(fs.owner)
    ensures !ok ==> AllMarked(fs.sb, fs.blk) || old(fs.ino)[dp].size == MAXFILE * BSIZE
    ensures ok && r != -1 ==> SizesFit(fs.ino) && |fs.ino| == |old(fs.ino)|
                              && EntryPlaced(Contents(old(fs.blk), old(fs.ino)[dp]), Contents(fs.blk, fs.ino[dp]), name, inum)
    ensures ok && r != -1 ==> fs.Valid() && |fs.ino| == |old(fs.ino)| && SizesFit(fs.ino) && Linked(old(fs.blk), old(fs.ino), fs.blk, fs.ino, dp, Trunc(name), inum)
  {
    hide Inodes.Sound, Inodes.Contents, Inodes.Splice, Trunc, Inum, EntryAt, UniqueNames, NewEntry, Linked, EntryPlaced, Used;
    ghost var d := Contents(fs.blk, fs.ino[dp]);
    var found, foundOff := DirLookup(fs, dp, name);
    if found != 0 {
      return -1, true;
    }
    var off := 0;
    NoneUsed(d);
    while off < fs.ino[dp].size
      invariant fs.blk == old(fs.blk) && fs.ino == old(fs.ino) && fs.owner == old(fs.owner) && fs.logged == old(fs.logged)
      invariant off % DIRENT == 0 && off <= fs.ino[dp].size && Used(d, off / DIRENT)
    {
      var de := ReadEntry(fs, dp, off);
      if Inum(de) == 0 {
        break;
      }
      OneMoreUsed(d, off / DIRENT);
      off := off + DIRENT;
    }
    LinkBinds(d, off / DIRENT, name, inum);
    ghost var datas;
    r, ok, datas := fs.Writei(dp, off, NewEntry(name, inum));
    if !ok || r != DIRENT {
      return 0, false;
    }
    SoundSizes(fs.sb, fs.blk, fs.ino, fs.owner);
    LinkedBy(old(fs.blk), old(fs.ino), fs.blk, fs.ino, dp, off, name, inum);
    PlacedBy(d, Contents(fs.blk, fs.ino[dp]), off / DIRENT, name, inum);
    return 0, true;
  }

  /** The first k entries of d are in use. */
  ghost predicate Used(d: Bytes, k: nat) {
    k * DIRENT <= |d| && forall l: nat :: l < k && (l + 1) * DIRENT <= |d| ==> Inum(EntryAt(d, l)) != 0
  }

  lemma NoneUsed(d: Bytes)
    ensures Used(d, 0)
  {
  }

  lemma OneMoreUsed(d: Bytes, k: nat)
    requires Used(d, k) && (k + 1) * DIRENT <= |d| && Inum(EntryAt(d, k)) != 0
    ensures Used(d, k + 1)
  {
    hide Inum, EntryAt;
  }

  /** The new entry, two bytes of inode number and fourteen of name, is in the first place whose number is 0, or else behind the others; no other byte has changed. */
  ghost predicate EntryAtPlace(d: Bytes, d': Bytes, k: nat, name: Bytes, inum: nat) {
    && 16 * k <= |d| && |d'| == (if 16 * k < |d| then |d| else |d| + 16) && 16 * (k + 1) <= |d'|
    && (forall l: nat :: l < k && 16 * (l + 1) <= |d| ==> !(d[16 * l] == 0 && d[16 * l + 1] == 0))
    && (16 * k < |d| ==> d[16 * k] == 0 && d[16 * k + 1] == 0)
    && d'[16 * k] as int + 256 * d'[16 * k + 1] as int == inum
    && (forall p :: 16 * k + 2 <= p < 16 * k + 16 ==> d'[p] == if p - 16 * k - 2 < |name| then name[p - 16 * k - 2] else 0)
    && forall p :: 0 <= p < |d'| && !(16 * k <= p < 16 * k + 16) ==> p < |d| && d'[p] == d[p]
  }

  ghost predicate EntryPlaced(d: Bytes, d': Bytes, name: Bytes, inum: nat) {
    exists k: nat :: EntryAtPlace(d, d', k, name, inum)
  }

  lemma InumBytes(d: Bytes, k: nat)
    requires 16 * (k + 1) <= |d|
    ensures Inum(EntryAt(d, k)) == d[16 * k] as int + 256 * d[16 * k + 1] as int
    ensures Inum(EntryAt(d, k)) == 0 <==> d[16 * k] == 0 && d[16 * k + 1] == 0
  {
  }

  lemma NewEntryBytes(name: Bytes, inum: nat)
    requires inum < 0x1_0000
    ensures var e := NewEntry(name, inum);
            && e[0] as int + 256 * e[1] as int == inum
            && forall j :: 2 <= j < 16 ==> e[j] == if j - 2 < |name| then name[j - 2] else 0
  {
  }

  lemma PlacedBy(d: Bytes, d': Bytes, k: nat, name: Bytes, inum: nat)
    requires IsDirectory(d) && Used(d, k) && (16 * k < |d| ==> 16 * (k + 1) <= |d| && Inum(EntryAt(d, k)) == 0) && inum < 0x1_0000
    requires 16 * k <= |d| && d' == Splice(d, 16 * k, NewEntry(name, inum))
    ensures EntryPlaced(d, d', name, inum)
  {
    hide Inum, EntryAt, Inodes.Splice, NewEntry;
    var e := NewEntry(name, inum);
    NewEntryBytes(name, inum);
    SpliceSize(d, 16 * k, e);
    forall p: nat | p < |d'|
      ensures d'[p] == if 16 * k <= p < 16 * k + 16 then e[p - 16 * k] else d[p]
    {
      SpliceAt(d, 16 * k, e, p);
    }
    forall l: nat | l <= k && 16 * (l + 1) <= |d|
      ensures Inum(EntryAt(d, l)) == 0 <==> d[16 * l] == 0 && d[16 * l + 1] == 0
    {
      InumBytes(d, l);
    }
    assert d'[16 * k] == e[0] && d'[16 * k + 1] == e[1];
    assert EntryAtPlace(d, d', k, name, inum);
  }

  /** The directory has one binding more, each name still at most one, and every other file is as it was. */
  ghost predicate Linked(blk: seq<Block>, ino: seq<Inode>, blk': seq<Block>, ino': seq<Inode>, dp: nat, name: Bytes, inum: nat) {
    && SizesFit(ino) && SizesFit(ino') && dp < |ino| == |ino'|
    && var d, d' := Contents(blk, ino[dp]), Contents(blk', ino'[dp]);
    && IsDirectory(d') && UniqueNames(d') && Lookup(d', name, 0) == inum
    && (forall n, i :: Binds(d', n, i) <==> Binds(d, n, i) || (n == name && i == inum))
    && (forall j: nat :: j < |ino| && j != dp ==> Contents(blk', ino'[j]) == Contents(blk, ino[j]))
  }

  lemma LinkedBy(blk: seq<Block>, ino: seq<Inode>, blk': seq<Block>, ino': seq<Inode>, dp: nat, off: nat, name: Bytes, inum: nat)
    requires SizesFit(ino) && SizesFit(ino') && dp < |ino| == |ino'| && off <= ino[dp].size && off % DIRENT == 0
    requires IsDirectory(Contents(blk, ino[dp])) && UniqueNames(Contents(blk, ino[dp])) && CString(name) && 0 < inum < 0x1_0000
    requires off < ino[dp].size ==> Inum(EntryAt(Contents(blk, ino[dp]), off / DIRENT)) == 0
    requires Lookup(Contents(blk, ino[dp]), Trunc(name), 0) == 0
    requires Contents(blk', ino'[dp]) == Splice(Contents(blk, ino[dp]), off, NewEntry(name, inum))
    requires forall j: nat :: j < |ino| && j != dp ==> Contents(blk', ino'[j]) == Contents(blk, ino[j])
    ensures Linked(blk, ino, blk', ino', dp, Trunc(name), inum)
  {
    hide Inodes.Contents, Inodes.Splice, EntryAt, Inum, UniqueNames, Binds, Lookup;
    LinkBinds(Contents(blk, ino[dp]), off / DIRENT, name, inum);
  }

  // ----- paths

  function SkipSlashes(p: Bytes): (q: Bytes)
    ensures |q| <= |p| && (q != [] ==> q[0] != SLASH)
  {
    if p != [] && p[0] == SLASH then SkipSlashes(p[1..]) else p
  }

  /** The length of the first element of a path that starts with one. */
  function ElemEnd(p: Bytes): (n: nat)
    ensures n <= |p| && (p != [] && p[0] != SLASH ==> n > 0)
  {
    if p == [] || p[0] == SLASH then 0 else 1 + ElemEnd(p[1..])
  }

  /** The names that a path consists of. */
  function Elements(path: Bytes): seq<Bytes>
    decreases |path|
  {
    var p := SkipSlashes(path);
    if p == [] then [] else [Trunc(p[..ElemEnd(p)])] + Elements(p[ElemEnd(p)..])
  }

  lemma {:induction false} LeadingSlashes(slashes: Bytes, p: Bytes)
    requires forall k :: 0 <= k < |slashes| ==> slashes[k] == SLASH
    ensures Elements(slashes + p) == Elements(p)
    decreases |slashes|
  {
    hide Elements;
    var path := slashes + p;
    if slashes != [] {
      LeadingSlashes(slashes[1..], p);
      assert path[1..] == slashes[1..] + p;
      SlashFirst(path);
    } else {
      assert path == p;
    }
  }

  /** Slashes, one or many, only separate. */
  lemma ElementsIs(slashes: Bytes, name: Bytes, rest: Bytes)
    requires (forall k :: 0 <= k < |slashes| ==> slashes[k] == SLASH)
    requires (forall k :: 0 <= k < |name| ==> name[k] != SLASH) && (rest == [] || rest[0] == SLASH)
    ensures Elements(slashes + (name + rest)) == if name == [] then Elements(rest) else [Trunc(name)] + Elements(rest)
  {
    hide Elements, Trunc;
    LeadingSlashes(slashes, name + rest);
    FirstElement(name, rest);
  }

  lemma FirstElement(name: Bytes, rest: Bytes)
    requires (forall k :: 0 <= k < |name| ==> name[k] != SLASH) && (rest == [] || rest[0] == SLASH)
    ensures Elements(name + rest) == if name == [] then Elements(rest) else [Trunc(name)] + Elements(rest)
  {
    hide Trunc;
    var path := name + rest;
    if name != [] {
      ElemEndIs(name, rest);
      assert path[..|name|] == name && path[|name|..] == rest;
    } else {
      assert path == rest;
    }
  }

  lemma SlashFirst(path: Bytes)
    requires path != [] && path[0] == SLASH
    ensures Elements(path) == Elements(path[1..])
  {
  }

  lemma {:induction false} ElemEndIs(name: Bytes, rest: Bytes)
    requires (forall k :: 0 <= k < |name| ==> name[k] != SLASH) && (rest == [] || rest[0] == SLASH)
    ensures ElemEnd(name + rest) == |name|
  {
    if name != [] {
      assert (name + rest)[1..] == name[1..] + rest;
      ElemEndIs(name[1..], rest);
    } else {
      assert name + rest == rest;
    }
  }

  /** skipelem: the first name and the rest of the path, without leading slashes; None if there is no name. */
  method SkipElem(path: Bytes) returns (r: Option<(Bytes, Bytes)>)
    ensures r == None <==> Elements(path) == []
    ensures r.Some? ==> var (rest, name) := r.value;
              && |rest| < |path| && Elements(path) == [name] + Elements(rest)
              && (rest == [] <==> Elements(rest) == []) && rest == path[|path| - |rest|..]
  {
    hide Elements, SkipSlashes, ElemEnd, Trunc;
    var p := DropSlashes(path);
    SlashesSkipped(path);
    if p == [] {
      return None;
    }
    var len := ElemLength(p);
    var name := if len >= DIRSIZ then p[..DIRSIZ] else p[..len];
    TruncIs(p, len);
    SlashesSkipped(p[len..]);
    ElementsUnfold(p);
    var rest := DropSlashes(p[len..]);
    SuffixOfSuffix(path, p, len, rest);
    r := Some((rest, name));
  }

  method ElemLength(p: Bytes) returns (len: nat)
    ensures len == ElemEnd(p)
  {
    len := 0;
    while len < |p| && p[len] != SLASH
      invariant len <= |p| && ElemEnd(p) == len + ElemEnd(p[len..])
    {
      len := len + 1;
    }
  }

  lemma TruncIs(p: Bytes, len: nat)
    requires len <= |p|
    ensures Trunc(p[..len]) == if len >= DIRSIZ then p[..DIRSIZ] else p[..len]
  {
    if len >= DIRSIZ {
      assert p[..len][..DIRSIZ] == p[..DIRSIZ];
    }
  }

  lemma ElementsUnfold(p: Bytes)
    requires p != [] && SkipSlashes(p) == p
    ensures Elements(p) == [Trunc(p[..ElemEnd(p)])] + Elements(p[ElemEnd(p)..]) && ElemEnd(p) > 0
  {
  }

  lemma SuffixOfSuffix(path: Bytes, p: Bytes, len: nat, rest: Bytes)
    requires |p| <= |path| && p == path[|path| - |p|..] && len <= |p| && |rest| <= |p| - len && rest == p[len..][|p| - len - |rest|..]
    ensures rest == path[|path| - |rest|..]
  {
  }

  lemma {:induction false} SuffixOf(p: Bytes)
    ensures SkipSlashes(p) == p[|p| - |SkipSlashes(p)|..]
  {
    if p != [] && p[0] == SLASH {
      SuffixOf(p[1..]);
    }
  }

  method DropSlashes(path: Bytes) returns (q: Bytes)
    ensures q == SkipSlashes(path) && q == path[|path| - |q|..]
  {
    var i := 0;
    while i < |path| && path[i] == SLASH
      invariant i <= |path| && SkipSlashes(path[i..]) == SkipSlashes(path)
    {
      i := i + 1;
    }
    q := path[i..];
  }

  lemma SlashesSkipped(p: Bytes)
    ensures Elements(SkipSlashes(p)) == Elements(p) && SkipSlashes(SkipSlashes(p)) == SkipSlashes(p) && (SkipSlashes(p) == [] <==> Elements(p) == [])
  {
  }

  // ----- namex

  datatype Disk = Disk(blk: seq<Block>, ino: seq<Inode>, isDir: seq<bool>)

  /** Directories are whole entries, and lead to inodes. */
  ghost predicate GoodDirectories(s: Disk) {
    && |s.isDir| == |s.ino| > ROOTINO && SizesFit(s.ino)
    && (forall i: nat :: i < |s.ino| && s.isDir[i] ==> s.ino[i].size % DIRENT == 0)
    && forall i: nat, n :: i < |s.ino| && s.isDir[i] ==> Lookup(Contents(s.blk, s.ino[i]), n, 0) < |s.ino|
  }

  /** One step down, if i is a directory that has the name. */
  function Child(s: Disk, i: nat, name: Bytes): Option<nat>
    requires i < |s.ino| && SizesFit(s.ino) && |s.isDir| == |s.ino|
  {
    if !s.isDir[i] || Lookup(Contents(s.blk, s.ino[i]), name, 0) == 0 then None
    else Some(Lookup(Contents(s.blk, s.ino[i]), name, 0))
  }

  /** The inode that a list of names leads to. */
  ghost function Walk(s: Disk, i: nat, names: seq<Bytes>): (r: Option<nat>)
    requires GoodDirectories(s) && i < |s.ino|
    ensures r.Some? ==> r.value < |s.ino|
    decreases |names|
  {
    if names == [] then Some(i)
    else
      var c := Child(s, i, names[0]);
      if c.None? then None else Walk(s, c.value, names[1..])
  }

  /** What namex looks up: all names of the path, or all but the last. */
  ghost function Target(s: Disk, i: nat, path: Bytes, parent: bool): (r: Option<nat>)
    requires GoodDirectories(s) && i < |s.ino|
    ensures r.Some? ==> r.value < |s.ino|
  {
    var names := Elements(path);
    if !parent then Walk(s, i, names)
    else if names == [] then None
    else
      var p := Walk(s, i, names[..|names| - 1]);
      if p.Some? && !s.isDir[p.value] then None else p
  }

  /** The k-th step of a way along names: in a directory, whose next name leads to the next inode. */
  ghost predicate StepDown(s: Disk, names: seq<Bytes>, trail: seq<nat>, k: nat)
    requires |trail| == |names| + 1 && k < |names| && |s.isDir| == |s.ino| && SizesFit(s.ino)
  {
    trail[k] < |s.ino| && s.isDir[trail[k]] && Lookup(Contents(s.blk, s.ino[trail[k]]), names[k], 0) == trail[k + 1] != 0
  }

  ghost predicate Trail(s: Disk, names: seq<Bytes>, trail: seq<nat>)
    requires |s.isDir| == |s.ino| && SizesFit(s.ino)
  {
    |trail| == |names| + 1 && forall k: nat :: k < |names| ==> StepDown(s, names, trail, k)
  }

  ghost predicate Leads(s: Disk, i: nat, names: seq<Bytes>, r: nat)
    requires |s.isDir| == |s.ino| && SizesFit(s.ino)
  {
    exists trail: seq<nat> :: |trail| == |names| + 1 && Trail(s, names, trail) && trail[0] == i && trail[|names|] == r
  }

  lemma TrailFirst(s: Disk, names: seq<Bytes>, trail: seq<nat>)
    requires |s.isDir| == |s.ino| && SizesFit(s.ino) && names != [] && |trail| == |names| + 1
    ensures Trail(s, names, trail) <==>
            trail[0] < |s.ino| && Child(s, trail[0], names[0]) == Some(trail[1]) && Trail(s, names[1..], trail[1..])
  {
    hide Lookup, Inodes.Contents;
    forall k: nat | k < |names| - 1
      ensures StepDown(s, names[1..], trail[1..], k) <==> StepDown(s, names, trail, k + 1)
    {
    }
    if Trail(s, names, trail) {
      assert StepDown(s, names, trail, 0);
      forall k: nat | k < |names| - 1
        ensures StepDown(s, names[1..], trail[1..], k)
      {
        assert StepDown(s, names, trail, k + 1);
      }
    }
    if trail[0] < |s.ino| && Child(s, trail[0], names[0]) == Some(trail[1]) && Trail(s, names[1..], trail[1..]) {
      forall k: nat | k < |names|
        ensures StepDown(s, names, trail, k)
      {
        assert k > 0 ==> StepDown(s, names[1..], trail[1..], k - 1);
      }
    }
  }

  lemma {:induction false} WalkIff(s: Disk, i: nat, names: seq<Bytes>, r: nat)
    requires GoodDirectories(s) && i < |s.ino|
    ensures |s.isDir| == |s.ino| && SizesFit(s.ino) && (Walk(s, i, names) == Some(r) <==> Leads(s, i, names, r))
    decreases |names|
  {
    hide Lookup, Inodes.Contents, Child, Trail;
    if names == [] {
      NoTrail(s, i);
      if i == r {
        assert Trail(s, names, [i]);
      }
    } else {
      var c := Child(s, i, names[0]);
      if c.Some? {
        ChildExists(s, i, names[0]);
        WalkIff(s, c.value, names[1..], r);
        if Walk(s, i, names) == Some(r) {
          var rest: seq<nat> :| |rest| == |names| && Trail(s, names[1..], rest) && rest[0] == c.value && rest[|names| - 1] == r;
          TrailFirst(s, names, [i] + rest);
        }
      }
      if Leads(s, i, names, r) {
        var trail: seq<nat> :| |trail| == |names| + 1 && Trail(s, names, trail) && trail[0] == i && trail[|names|] == r;
        TrailFirst(s, names, trail);
        assert Leads(s, c.value, names[1..], r);
      }
    }
  }

  lemma NoTrail(s: Disk, i: nat)
    requires |s.isDir| == |s.ino| && SizesFit(s.ino)
    ensures Trail(s, [], [i])
  {
  }

  lemma ChildExists(s: Disk, i: nat, name: Bytes)
    requires GoodDirectories(s) && i < |s.ino| && Child(s, i, name).Some?
    ensures Child(s, i, name).value < |s.ino|
  {
  }

  lemma GoodSize(s: Disk)
    requires GoodDirectories(s)
    ensures |s.isDir| == |s.ino| && SizesFit(s.ino)
    ensures forall i: nat, n :: i < |s.ino| && s.isDir[i] ==> Lookup(Contents(s.blk, s.ino[i]), n, 0) < |s.ino|
  {
  }

  /** namex finds r exactly if the path's names lead there through directories; asked for the parent, if all but the last name do and r is a directory. */
  lemma TargetIff(s: Disk, i: nat, path: Bytes, r: nat)
    requires GoodDirectories(s) && i < |s.ino|
    ensures |s.isDir| == |s.ino| && SizesFit(s.ino)
    ensures Target(s, i, path, false) == Some(r) <==> Leads(s, i, Elements(path), r)
    ensures Target(s, i, path, true) == Some(r) <==>
            var names := Elements(path);
            names != [] && Leads(s, i, names[..|names| - 1], r) && r < |s.isDir| && s.isDir[r]
  {
    hide Leads, GoodDirectories, Walk, Elements;
    var names := Elements(path);
    GoodSize(s);
    WalkIff(s, i, names, r);
    if names != [] {
      WalkIff(s, i, names[..|names| - 1], r);
    }
  }

  lemma TargetStep(s: Disk, i: nat, path: Bytes, parent: bool, name: Bytes, rest: Bytes)
    requires GoodDirectories(s) && i < |s.ino| && Elements(path) == [name] + Elements(rest)
    ensures !s.isDir[i] ==> Target(s, i, path, parent) == None
    ensures parent && Elements(rest) == [] ==> Target(s, i, path, parent) == if s.isDir[i] then Some(i) else None
    ensures !(parent && Elements(rest) == []) ==>
              var c := Child(s, i, name);
              Target(s, i, path, parent) == if c.None? then None else Target(s, c.value, rest, parent)
  {
    var names, more := Elements(path), Elements(rest);
    assert names[1..] == more;
    if parent && more != [] {
      assert names[..|names| - 1][1..] == more[..|more| - 1];
    }
  }

  /** What the directories name has a link or a reference of somebody else's; own is what the caller itself holds of start. */
  ghost predicate NamedStay(s: Disk, cache: InodeCache, links: seq<nat>, start: nat, own: nat)
    reads cache
    requires cache.Valid() && SizesFit(s.ino) && |s.isDir| == |s.ino|
  {
    forall i: nat, n :: i < |s.ino| && Child(s, i, n).Some? ==>
      cache.Stays(links, Child(s, i, n).value, if Child(s, i, n).value == start then own else 0)
  }

  /** i stays, by the references counted in refs, when one of start's is given back. */
  predicate Remains(links: seq<nat>, refs: map<nat, nat>, i: nat, start: nat) {
    i < |links| && i in refs && (links[i] > 0 || refs[i] > if i == start then 1 else 0)
  }

  ghost predicate NamedRemain(s: Disk, links: seq<nat>, refs: map<nat, nat>, start: nat)
    requires SizesFit(s.ino) && |s.isDir| == |s.ino|
  {
    forall i: nat, n :: i < |s.ino| && Child(s, i, n).Some? ==> Remains(links, refs, Child(s, i, n).value, start)
  }

  lemma NamedCounted(s: Disk, cache: InodeCache, links: seq<nat>, start: nat, refs: map<nat, nat>)
    requires cache.Valid() && SizesFit(s.ino) && |s.isDir| == |s.ino| && NamedStay(s, cache, links, start, 1)
    requires forall i: nat :: i < |links| ==> i in refs && refs[i] == cache.Refs(i)
    ensures NamedRemain(s, links, refs, start)
  {
    hide Child, InodeCache.Valid;
  }

  lemma ChildRemains(s: Disk, links: seq<nat>, refs: map<nat, nat>, start: nat, i: nat, name: Bytes)
    requires SizesFit(s.ino) && |s.isDir| == |s.ino| && NamedRemain(s, links, refs, start) && i < |s.ino|
    ensures Child(s, i, name).Some? ==> Remains(links, refs, Child(s, i, name).value, start)
  {
  }

  /**
   namex from the current directory cwd: the path's inode, or its parent's and the last
   name.  Whatever way it returns, references are balanced: one more to the result, and
   otherwise as before, and iput frees nothing on the way.  ok is false if the inode cache
   is full, which panics.  links is what the disk says of the inodes' links.
   */
  method Namex(fs: FileSys, cache: InodeCache, isDir: seq<bool>, links: seq<nat>, path: Bytes, parent: bool, cwd: nat)
    returns (r: Option<nat>, name: Bytes, ok: bool)
    requires fs.Valid() && cache.Valid() && CString(path)
    requires GoodDirectories(Disk(fs.blk, fs.ino, isDir))
    requires |links| == |fs.ino| && cache.LinksRead(links)
    requires NamedStay(Disk(fs.blk, fs.ino, isDir), cache, links, ROOTINO, 0) && cache.Stays(links, ROOTINO, 0)
    requires cwd < |cache.slot| && cache.slot[cwd].ref > 0 && cache.slot[cwd].inum < |fs.ino|
    modifies cache, fs`blk, fs`ino, fs`owner, fs`logged, fs`writes
    ensures fs.blk == old(fs.blk) && fs.ino == old(fs.ino) && fs.owner == old(fs.owner) && fs.logged == old(fs.logged)
    ensures ok ==> cache.Valid()
    ensures ok ==>
      var start := if path != [] && path[0] == SLASH then ROOTINO else old(cache.slot[cwd].inum);
      var target := Target(Disk(fs.blk, fs.ino, isDir), start, path, parent);
      && (r.Some? <==> target.Some?) && (r.Some? ==> cache.Held(r.value, target.value))
      && (r.Some? && parent ==> Elements(path) != [] && name == Elements(path)[|Elements(path)| - 1])
      && forall i: nat :: cache.Refs(i) == old(cache.Refs(i)) + if target == Some(i) then 1 else 0
  {
    hide Target, Child, Inodes.Sound, GoodDirectories, Elements, InodeCache.Valid, InodeCache.LinksRead;
    ghost var s := Disk(fs.blk, fs.ino, isDir);
    SoundPlaces(s);
    var ip;
    if path != [] && path[0] == SLASH {
      ip, ok := cache.Iget(ROOTINO);
      if !ok {
        return None, [], false;
      }
      RootExists(Disk(fs.blk, fs.ino, isDir));
    } else {
      ip, ok := cwd, true;
      cache.HeldRefs(cwd, cache.slot[cwd].inum);
      cache.Idup(ip);
    }
    r, name, ok := Follow(fs, cache, isDir, links, path, parent, ip);
  }

  lemma RootExists(s: Disk)
    requires GoodDirectories(s)
    ensures ROOTINO < |s.ino|
  {
  }

  /** iput of an inode that stays. */
  method GiveBack(fs: FileSys, cache: InodeCache, ghost links: seq<nat>, ip: nat, ghost i: nat)
    requires fs.Valid() && cache.Valid() && cache.LinksRead(links) && cache.Held(ip, i) && i < |fs.ino| && cache.Stays(links, i, 1)
    modifies cache, fs`blk, fs`ino, fs`owner, fs`logged, fs`writes
    ensures fs.blk == old(fs.blk) && fs.ino == old(fs.ino) && fs.owner == old(fs.owner) && fs.logged == old(fs.logged)
    ensures cache.Valid() && cache.LinksRead(links)
    ensures forall j: nat :: cache.Refs(j) == old(cache.Refs(j)) - if j == i then 1 else 0
    ensures forall q: nat, j: nat :: old(cache.Held(q, j)) && (q != ip || old(cache.slot)[ip].ref > 1) ==> cache.Held(q, j)
  {
    hide Inodes.Sound, InodeCache.LinksRead, InodeCache.Valid;
    StaysWhole(cache, links, ip, i);
    var freed := cache.Iput(fs, ip);
  }

  /** What one turn of namex's loop comes to: stop here, go on at the next inode, find nothing, or find the inode cache full. */
  datatype Turn = Here | Down(ip: nat) | Nowhere | Full

  /** One turn of namex's loop, at the referenced inode cur, for a name that is the last one wanted or not. */
  method TakeTurn(fs: FileSys, cache: InodeCache, isDir: seq<bool>, links: seq<nat>, ip: nat, ghost cur: nat, name: Bytes, last: bool)
    returns (r: Turn)
    requires fs.Valid() && cache.Valid() && CString(name) && Trunc(name) == name
    requires GoodDirectories(Disk(fs.blk, fs.ino, isDir)) && cur < |fs.ino| && cache.Held(ip, cur)
    requires cache.LinksRead(links) && cache.Stays(links, cur, 1)
    modifies cache, fs`blk, fs`ino, fs`owner, fs`logged, fs`writes
    ensures fs.blk == old(fs.blk) && fs.ino == old(fs.ino) && fs.owner == old(fs.owner) && fs.logged == old(fs.logged)
    ensures r != Full ==> cache.Valid() && cache.LinksRead(links)
    ensures r != Full ==>
      var c := Child(Disk(fs.blk, fs.ino, isDir), cur, name);
      && (r == Here <==> isDir[cur] && last)
      && (r.Down? <==> !last && c.Some?)
      && (r == Here ==> cache.Held(ip, cur))
      && (r.Down? ==> c.value < |fs.ino| && cache.Held(r.ip, c.value))
      && forall i: nat :: cache.Refs(i) == old(cache.Refs(i)) + (if r.Down? && c == Some(i) then 1 else 0) - if r != Here && i == cur then 1 else 0
  {
    hide Child, Inodes.Sound, InodeCache.LinksRead, InodeCache.Valid, Inodes.Contents;
    cache.Ilock(ip, links[cache.slot[ip].inum]);
    NoChild(Disk(fs.blk, fs.ino, isDir), cur, name);
    if !isDir[cache.slot[ip].inum] {
      GiveBack(fs, cache, links, ip, cur);
      return Nowhere;
    }
    if last {
      return Here;
    }
    var next, ok := Descend(fs, cache, isDir, links, ip, cur, name);
    r := if !ok then Full else if next == None then Nowhere else Down(next.value);
  }

  lemma NoChild(s: Disk, i: nat, name: Bytes)
    requires i < |s.ino| && SizesFit(s.ino) && |s.isDir| == |s.ino|
    ensures !s.isDir[i] ==> Child(s, i, name) == None
  {
  }

  /** namex's loop, from the inode that ip refers to; that reference is used up. */
  method Follow(fs: FileSys, cache: InodeCache, isDir: seq<bool>, links: seq<nat>, path: Bytes, parent: bool, from: nat)
    returns (r: Option<nat>, name: Bytes, ok: bool)
    requires fs.Valid() && cache.Valid() && CString(path)
    requires GoodDirectories(Disk(fs.blk, fs.ino, isDir))
    requires from < |cache.slot| && cache.slot[from].ref > 0 && cache.slot[from].inum < |fs.ino|
    requires |links| == |fs.ino| && cache.LinksRead(links) && cache.Stays(links, cache.slot[from].inum, 1)
    requires NamedStay(Disk(fs.blk, fs.ino, isDir), cache, links, cache.slot[from].inum, 1)
    modifies cache, fs`blk, fs`ino, fs`owner, fs`logged, fs`writes
    ensures fs.blk == old(fs.blk) && fs.ino == old(fs.ino) && fs.owner == old(fs.owner) && fs.logged == old(fs.logged)
    ensures ok ==> cache.Valid()
    ensures ok ==>
      var start := old(cache.slot[from].inum);
      var target := Target(Disk(fs.blk, fs.ino, isDir), start, path, parent);
      && (r.Some? <==> target.Some?) && (r.Some? ==> cache.Held(r.value, target.value))
      && (r.Some? && parent ==> Elements(path) != [] && name == Elements(path)[|Elements(path)| - 1])
      && forall i: nat :: cache.Refs(i) == old(cache.Refs(i)) + (if target == Some(i) then 1 else 0) - if i == start then 1 else 0
  {
    hide Target, Child, Inodes.Sound, GoodDirectories, Elements, CString, Trunc, InodeCache.Valid, Inodes.Contents, Lookup, Walk,
         InodeCache.LinksRead, NamedStay, NamedRemain, InodeCache.Refs, InodeCache.Counts;
    ghost var s := Disk(fs.blk, fs.ino, isDir);
    ghost var start := cache.slot[from].inum;
    SoundPlaces(s);
    ghost var refs := cache.Counts(|links|);
    NamedCounted(s, cache, links, start, refs);
    name := [];
    var ip := from;
    ghost var cur: nat := start;
    var p := path;
    while true
      invariant fs.blk == s.blk && fs.ino == s.ino && fs.owner == old(fs.owner) && fs.logged == old(fs.logged)
      invariant cache.Valid() && cur < |s.ino| && cache.Held(ip, cur) && cache.LinksRead(links)
      invariant Remains(links, refs, cur, start)
      invariant Target(s, cur, p, parent) == Target(s, start, path, parent)
      invariant forall i: nat :: cache.Refs(i) == old(cache.Refs(i)) + (if i == cur then 1 else 0) - if i == start then 1 else 0
      invariant CString(p) && |Elements(p)| <= |Elements(path)| && Elements(p) == Elements(path)[|Elements(path)| - |Elements(p)|..]
      decreases |p|
    {
      var e := SkipElem(p);
      if e == None {
        break;
      }
      var rest := e.value.0;
      name := e.value.1;
      TargetStep(s, cur, p, parent, name, rest);
      NameIsGood(p, name, rest);
      SuffixCString(p, rest);
      ChildRemains(s, links, refs, start, cur, name);
      var turn := TakeTurn(fs, cache, isDir, links, ip, cur, name, parent && rest == []);
      match turn {
        case Here => return Some(ip), name, true;
        case Nowhere => return None, name, true;
        case Full => return None, name, false;
        case Down(next) =>
          RestOfElements(path, p, name, rest);
          ip, p := next, rest;
          cur := Child(s, cur, name).value;
      }
    }
    TargetEnd(s, cur, p, parent);
    ok := true;
    if parent {
      GiveBack(fs, cache, links, ip, cur);
      return None, name, true;
    }
    r := Some(ip);
  }

  lemma SoundPlaces(s: Disk)
    requires GoodDirectories(s)
    ensures |s.isDir| == |s.ino| && SizesFit(s.ino)
  {
  }

  lemma SuffixCString(p: Bytes, rest: Bytes)
    requires CString(p) && |rest| <= |p| && rest == p[|p| - |rest|..]
    ensures CString(rest)
  {
  }

  lemma NameIsGood(p: Bytes, name: Bytes, rest: Bytes)
    requires CString(p) && Elements(p) == [name] + Elements(rest)
    ensures Trunc(name) == name && CString(name)
  {
    NamesTrunc(p);
    assert Elements(p)[0] == name;
  }

  lemma RestOfElements(path: Bytes, p: Bytes, name: Bytes, rest: Bytes)
    requires Elements(p) == [name] + Elements(rest) && |Elements(p)| <= |Elements(path)|
    requires Elements(p) == Elements(path)[|Elements(path)| - |Elements(p)|..]
    ensures Elements(rest) == Elements(path)[|Elements(path)| - |Elements(rest)|..]
  {
    assert Elements(rest) == Elements(p)[1..];
  }

  /** One turn of namex's loop: from the referenced directory cur to the name in it, or to nothing; the old reference is given back. */
  method Descend(fs: FileSys, cache: InodeCache, isDir: seq<bool>, ghost links: seq<nat>, ip: nat, ghost cur: nat, name: Bytes)
    returns (r: Option<nat>, ok: bool)
    requires fs.Valid() && cache.Valid() && CString(name) && Trunc(name) == name
    requires GoodDirectories(Disk(fs.blk, fs.ino, isDir)) && cur < |fs.ino| && isDir[cur] && cache.Held(ip, cur)
    requires cache.LinksRead(links) && cache.Stays(links, cur, 1)
    modifies cache, fs`blk, fs`ino, fs`owner, fs`logged, fs`writes
    ensures fs.blk == old(fs.blk) && fs.ino == old(fs.ino) && fs.owner == old(fs.owner) && fs.logged == old(fs.logged)
    ensures ok ==> cache.Valid() && cache.LinksRead(links)
    ensures ok ==>
      var c := Child(Disk(fs.blk, fs.ino, isDir), cur, name);
      && (r.Some? <==> c.Some?) && (r.Some? ==> c.value < |fs.ino| && cache.Held(r.value, c.value))
      && forall i: nat :: cache.Refs(i) == old(cache.Refs(i)) + (if c == Some(i) then 1 else 0) - if i == cur then 1 else 0
  {
    hide Child, Inodes.Sound, Inodes.Contents, Lookup, InodeCache.LinksRead, InodeCache.Valid;
    ghost var s := Disk(fs.blk, fs.ino, isDir);
    var next, off := DirLookup(fs, cache.slot[ip].inum, name);
    ChildIs(s, cur, name);
    cache.HeldRefs(ip, cur);
    if next == 0 {
      GiveBack(fs, cache, links, ip, cur);
      return None, true;
    }
    var nextIp;
    nextIp, ok := cache.Iget(next);
    if !ok {
      return None, false;
    }
    StillHeld(cache, nextIp, next, ip, cur);
    GiveBack(fs, cache, links, ip, cur);
    r := Some(nextIp);
  }

  lemma TargetEnd(s: Disk, i: nat, path: Bytes, parent: bool)
    requires GoodDirectories(s) && i < |s.ino| && Elements(path) == []
    ensures Target(s, i, path, parent) == if parent then None else Some(i)
  {
  }

  lemma ChildIs(s: Disk, i: nat, name: Bytes)
    requires i < |s.ino| && SizesFit(s.ino) && |s.isDir| == |s.ino| && s.isDir[i]
    ensures var n := Lookup(Contents(s.blk, s.ino[i]), name, 0); Child(s, i, name) == if n == 0 then None else Some(n)
  {
  }

  /** The names of a path without NULs have none, and are not too long. */
  lemma {:induction false} NamesTrunc(p: Bytes)
    requires CString(p)
    ensures forall k :: 0 <= k < |Elements(p)| ==> Trunc(Elements(p)[k]) == Elements(p)[k] && CString(Elements(p)[k])
    decreases |p|
  {
    hide Elements, ElemEnd, Trunc, SkipSlashes;
    var q := SkipSlashes(p);
    SuffixOf(p);
    SlashesSkipped(p);
    SuffixCString(p, q);
    if q != [] {
      ElementsUnfold(q);
      var n := ElemEnd(q);
      SuffixCString(q, q[n..]);
      NamesTrunc(q[n..]);
      FirstTrunc(q, n);
      assert forall k :: 0 < k < |Elements(p)| ==> Elements(p)[k] == Elements(q[n..])[k - 1];
    }
  }

  lemma FirstTrunc(q: Bytes, n: nat)
    requires CString(q) && n <= |q|
    ensures Trunc(Trunc(q[..n])) == Trunc(q[..n]) && CString(Trunc(q[..n]))
  {
  }

  /** An inode that stays is not what iput truncates. */
  lemma StaysWhole(cache: InodeCache, links: seq<nat>, ip: nat, i: nat)
    requires cache.Valid() && cache.LinksRead(links) && cache.Held(ip, i) && cache.Stays(links, i, 1)
    ensures !(cache.Refs(i) == 1 && cache.slot[ip].valid && cache.slot[ip].nlink == 0)
  {
  }

  /** If two inodes differ, so do their slots; if they are the same, the slot has two references. */
  lemma StillHeld(cache: InodeCache, a: nat, i: nat, b: nat, j: nat)
    requires cache.Valid() && cache.Held(a, i) && cache.Held(b, j)
    ensures a == b <==> i == j
    ensures cache.Refs(i) == cache.slot[a].ref && cache.Refs(j) == cache.slot[b].ref
  {
  }
}
