/**
 The file system as its users see it: numbered files and folders, each with its extent of
 sectors, and the entries of the folders. The disk represents it, and creating a file or a folder
 on the disk (fs/mk.c) is creating it here.
 */
module FsImage {
  import opened FsBytes
  import opened FsSpec
  import opened Words

  datatype Node = Node(inode: Inode, folder: bool, entries: seq<Entry>)

  /** Node `id` belongs to inode `id`. Inode 0 is never handed out: node 0 stands for the metadata. */
  type Files = seq<Node>

  const ROOT := 1

  function EndOf(n: Node): nat {
    var a: nat, b: nat := n.inode.start, n.inode.count;
    a + b
  }

  /** The first sector that no extent has reached yet. */
  function Top(f: Files): nat
    requires |f| > 0
  {
    EndOf(f[|f|-1])
  }

  /** The disk is laid out as `mkfs` computes it. */
  ghost predicate Formatted(g: Super, d: Disk) {
    && |d| == g.sectNum < WORD
    && g.imapSects == 1 && g.inodeSects == 256 && g.smapSects == g.sectNum / SECTOR_BITS + 1
    && g.firstData == 1 + 1 + g.imapSects + g.smapSects + g.inodeSects <= g.sectNum
    && g.root == ROOT
  }

  /** The metadata and then the extents follow one another: none overlaps another. */
  ghost predicate Laid(g: Super, f: Files) {
    && 1 <= |f| <= INODE_MAX
    && f[0].inode.start == 0 && f[0].inode.count == g.firstData && !f[0].folder
    && (forall i, j | 0 <= i && j == i + 1 < |f| :: f[j].inode.start == EndOf(f[i]))
    && (forall id | 0 <= id < |f| :: f[id].inode.count > 0)
    && Top(f) <= g.sectNum
  }

  /** The entries of a folder are the first records of its extent, and the rest are empty. */
  ghost predicate Holds(d: Disk, n: Node) {
    && EndOf(n) <= |d| && |n.entries| <= PER_SECTOR * n.inode.count
    && (forall k | 0 <= k < |n.entries| :: EntryAt(d, n.inode.start, k) == n.entries[k] && n.entries[k].inode != 0)
    && (forall k | |n.entries| <= k < PER_SECTOR * n.inode.count :: EntryAt(d, n.inode.start, k).inode == 0)
  }

  ghost predicate ImapIs(d: Disk, n: nat)
    requires IMAP < |d|
  {
    forall id | 0 <= id < SECTOR_BITS :: SectorBit(d[IMAP], id) <==> id < n
  }

  ghost predicate SmapIs(d: Disk, n: nat, top: nat)
    requires HasMap(d, n)
  {
    forall i: nat | i < SECTOR_BITS * n :: MapBit(d, i) <==> i < top
  }

  ghost predicate InodesAre(g: Super, d: Disk, f: Files)
    requires InodeSector(g, INODE_MAX - 1) < |d|
  {
    forall id | ROOT <= id < |f| && id < INODE_MAX :: InodeAt(g, d, id) == f[id].inode
  }

  ghost predicate FoldersHold(d: Disk, f: Files) {
    forall id | ROOT <= id < |f| && f[id].folder :: Holds(d, f[id])
  }

  /** The disk `d` represents `f`. The set bits of the sector map are the metadata and the extents. */
  ghost predicate Represents(g: Super, d: Disk, f: Files) {
    && Formatted(g, d) && Laid(g, f)
    && ImapIs(d, |f|) && SmapIs(d, g.smapSects, Top(f))
    && InodesAre(g, d, f) && FoldersHold(d, f)
  }

  lemma {:induction false} ExtentOrder(g: Super, f: Files, i: nat, j: nat)
    requires Laid(g, f) && i <= j < |f|
    ensures f[i].inode.start <= f[j].inode.start
    ensures i < j ==> EndOf(f[i]) <= f[j].inode.start
  {
    if i < j {
      ExtentOrder(g, f, i, j - 1);
      assert f[j].inode.start == EndOf(f[j-1]);
    }
  }

  /** Every extent of a file lies behind the metadata and before the top. */
  lemma ExtentInData(g: Super, f: Files, i: nat)
    requires Laid(g, f) && ROOT <= i < |f|
    ensures g.firstData <= f[i].inode.start <= EndOf(f[i]) <= Top(f)
  {
    ExtentOrder(g, f, 0, i);
    ExtentOrder(g, f, i, |f| - 1);
  }

  /** Different files have no sector in common, and none lies in the metadata. */
  lemma ExtentsDisjoint(g: Super, f: Files, i: nat, j: nat, x: nat)
    requires Laid(g, f) && ROOT <= i < |f| && ROOT <= j < |f|
    requires f[i].inode.start <= x < EndOf(f[i]) && f[j].inode.start <= x < EndOf(f[j])
    ensures i == j && g.firstData <= x
  {
    ExtentInData(g, f, i);
    if i < j { ExtentOrder(g, f, i, j); }
    if j < i { ExtentOrder(g, f, j, i); }
  }

  /** The sectors below the top are the metadata and the extents, and nothing else. */
  lemma {:induction false} BelowTop(g: Super, f: Files, n: nat, x: nat)
    requires Laid(g, f) && ROOT <= n <= |f| && x < EndOf(f[n-1])
    ensures x < g.firstData || exists id | ROOT <= id < n :: f[id].inode.start <= x < EndOf(f[id])
  {
    if n > ROOT {
      assert f[n-1].inode.start == EndOf(f[n-2]);
      if x < f[n-1].inode.start { BelowTop(g, f, n - 1, x); }
    }
  }

  /** So the set bits of the sector map are exactly the metadata and the extents. */
  lemma SetBitsAreUse(g: Super, d: Disk, f: Files, x: nat)
    requires Represents(g, d, f) && x < SECTOR_BITS * g.smapSects
    ensures HasMap(d, g.smapSects)
    ensures MapBit(d, x) <==> x < g.firstData || exists id | ROOT <= id < |f| :: f[id].inode.start <= x < EndOf(f[id])
  {
    hide MapBit, FoldersHold, InodesAre, ImapIs;
    LayoutOf(g, d, f);
    assert MapBit(d, x) <==> x < Top(f);
    if x < Top(f) {
      BelowTop(g, f, |f|, x);
    } else {
      forall id | ROOT <= id < |f| ensures !(f[id].inode.start <= x < EndOf(f[id])) { ExtentInData(g, f, id); }
    }
  }

  // ------------------------------------------------------------------ creating, abstractly

  function NewInode(f: Files, size: word, mode: word, v: Reserved): Inode
    requires |f| > 0 && Top(f) < WORD
  {
    Inode(mode, size, Top(f), size / SECTOR_SIZE, v)
  }

  function Created(f: Files, n: Inode, folder: bool): Files {
    f + [Node(n, folder, [])]
  }

  /** A full folder silently stays as it is. */
  function Extended(f: Files, dir: nat, e: Entry): Files
    requires dir < |f|
  {
    if |f[dir].entries| < PER_SECTOR * f[dir].inode.count then f[dir := f[dir].(entries := f[dir].entries + [e])] else f
  }

  /** An inode and enough sectors are left, and the sectors lie within one sector of the map. */
  ghost predicate HasRoom(g: Super, f: Files, size: nat) {
    var c := size / SECTOR_SIZE;
    && 0 < |f| < INODE_MAX && c > 0 && Top(f) + c <= g.sectNum < WORD && !Crosses(Top(f), c)
  }

  function DOT(): seq<byte> { [46] }

  function DOTDOT(): seq<byte> { [46, 46] }

  /** `stack` is what the name field of the entry on the stack holds at first. */
  function MkFile(f: Files, name: seq<byte>, size: word, mode: word, dir: nat, v: Reserved, stack: Name): Files
    requires 0 < |f| < INODE_MAX && Top(f) < WORD && |name| < NAME_SIZE && dir < |f|
  {
    Extended(Created(f, NewInode(f, size, mode, v), false), dir, Entry(|f|, Named(stack, name), FS_TYPE_FILE))
  }

  function MkDir(f: Files, name: seq<byte>, mode: word, dir: nat, v: Reserved, stack: Name): Files
    requires 0 < |f| < INODE_MAX && Top(f) < WORD && |name| < NAME_SIZE && dir < |f|
  {
    var id := |f|;
    var n1 := Named(stack, name);
    var n2 := Named(n1, DOT());
    var f1 := Created(f, NewInode(f, FOLDER_SIZE, mode, v), true);
    var f2 := Extended(f1, dir, Entry(id, n1, FS_TYPE_FOLDER));
    var f3 := Extended(f2, id, Entry(id, n2, FS_TYPE_FOLDER));
    Extended(f3, id, Entry(dir, Named(n2, DOTDOT()), FS_TYPE_FOLDER))
  }

  // ------------------------------------------------------------- allocation is appending

  /** The lowest free run starts right behind the last extent. */
  lemma TopIsFirstRun(g: Super, d: Disk, f: Files, c: nat)
    requires Represents(g, d, f) && 0 < c && Top(f) + c <= g.sectNum
    ensures HasMap(d, g.smapSects) && IsFirstRun(d, g.smapSects, c, Top(f)) && HasRun(d, g.smapSects, c)
  {
    hide MapBit, Holds;
    var top, n := Top(f), g.smapSects;
    assert top + c <= SECTOR_BITS * n;
    assert ClearRun(d, n, top, c);
    forall t: nat | t < top ensures !ClearRun(d, n, t, c) {
      assert MapBit(d, t);
    }
  }

  lemma FirstFreeId(g: Super, d: Disk, f: Files)
    requires Represents(g, d, f)
    ensures NewId(d) == |f|
  {
    assert NewId(d) < SECTOR_BITS ==> !SectorBit(d[IMAP], NewId(d));
    assert |f| < SECTOR_BITS ==> !SectorBit(d[IMAP], |f|);
  }

  // ---------------------------------------------------------------------- making an inode

  /** Which sectors `mk_inode` changes, and to what. */
  lemma MakeInodeSectors(g: Super, d: Disk, f: Files, n: Inode, x: nat)
    requires Represents(g, d, f) && |f| < INODE_MAX && n.count > 0 && n.start == Top(f) && Top(f) + n.count <= g.sectNum
    requires !Crosses(n.start, n.count) && x < |d|
    ensures InodeSector(g, |f|) < |d| && SMAP + n.start / SECTOR_BITS + Rounds(n.count) <= |d|
    ensures var id, r := |f|, MakeInode(g, d, |f|, n);
            r[x] == if n.start <= x < n.start + n.count then Blank()
                    else if x == InodeSector(g, id) then PutSlot(d[x], id % PER_SECTOR, InodeBytes(n))
                    else if x == SMAP + n.start / SECTOR_BITS then UpdateMap(d, n.start, n.count)[x]
                    else if x == IMAP then SetSectorBit(d[x], id)
                    else d[x]
  {
    hide Represents, PutSlot, InodeBytes, SetBits, SetSectorBit, Blank;
    LayoutOf(g, d, f);
    RoundsFit(d, g.smapSects, n.start, n.count);
    WithinOneSector(d, n.start, n.count);
    WithinOneSector(MarkInode(d, |f|), n.start, n.count);
  }

  lemma LayoutOf(g: Super, d: Disk, f: Files)
    requires Represents(g, d, f)
    ensures Formatted(g, d) && HasMap(d, g.smapSects) && g.firstData <= Top(f) <= |d| < SECTOR_BITS * g.smapSects
    ensures forall id: nat | id < INODE_MAX :: SMAP + g.smapSects <= InodeSector(g, id) < g.firstData
  {
    ExtentOrder(g, f, 0, |f| - 1);
  }

  lemma MakeInodeImap(g: Super, d: Disk, f: Files, n: Inode)
    requires Represents(g, d, f) && |f| < INODE_MAX && n.count > 0 && n.start == Top(f) && Top(f) + n.count <= g.sectNum
    requires !Crosses(n.start, n.count)
    ensures InodeSector(g, |f|) < |d| && SMAP + n.start / SECTOR_BITS + Rounds(n.count) <= |d|
    ensures ImapIs(MakeInode(g, d, |f|, n), |f| + 1)
  {
    hide MakeInode, SectorBit, SetSectorBit, MapBit;
    LayoutOf(g, d, f);
    MakeInodeSectors(g, d, f, n, IMAP);
    forall id | 0 <= id < SECTOR_BITS
      ensures SectorBit(MakeInode(g, d, |f|, n)[IMAP], id) <==> id < |f| + 1
    {
      SetSectorBitAt(d[IMAP], |f|, id);
    }
  }

  lemma MakeInodeSmap(g: Super, d: Disk, f: Files, n: Inode)
    requires Represents(g, d, f) && |f| < INODE_MAX && n.count > 0 && n.start == Top(f) && Top(f) + n.count <= g.sectNum
    requires !Crosses(n.start, n.count)
    ensures InodeSector(g, |f|) < |d| && SMAP + n.start / SECTOR_BITS + Rounds(n.count) <= |d|
    ensures SmapIs(MakeInode(g, d, |f|, n), g.smapSects, n.start + n.count)
  {
    hide MakeInode, UpdateMap, MapBit, Represents;
    LayoutOf(g, d, f);
    RoundsFit(d, g.smapSects, n.start, n.count);
    forall i: nat | i < SECTOR_BITS * g.smapSects
      ensures MapBit(MakeInode(g, d, |f|, n), i) <==> i < n.start + n.count
    {
      MakeInodeMapBit(g, d, f, n, i);
    }
  }

  lemma MakeInodeMapBit(g: Super, d: Disk, f: Files, n: Inode, i: nat)
    requires Represents(g, d, f) && |f| < INODE_MAX && n.count > 0 && n.start == Top(f) && Top(f) + n.count <= g.sectNum
    requires !Crosses(n.start, n.count) && i < SECTOR_BITS * g.smapSects
    ensures InodeSector(g, |f|) < |d| && SMAP + n.start / SECTOR_BITS + Rounds(n.count) <= |d|
    ensures SMAP + i / SECTOR_BITS < |d| && (MapBit(MakeInode(g, d, |f|, n), i) <==> i < n.start + n.count)
  {
    hide MakeInode, SectorBit, UpdateMap, Holds;
    LayoutOf(g, d, f);
    var x := SMAP + i / SECTOR_BITS;
    MakeInodeSectors(g, d, f, n, x);
    UpdateMapAt(d, g.smapSects, n.start, n.count, i);
    WithinOneSector(d, n.start, n.count);
    assert MakeInode(g, d, |f|, n)[x] == UpdateMap(d, n.start, n.count)[x];
    assert MapBit(d, i) <==> i < Top(f);
  }

  lemma MakeInodeInodes(g: Super, d: Disk, f: Files, n: Inode, folder: bool)
    requires Represents(g, d, f) && |f| < INODE_MAX && n.count > 0 && n.start == Top(f) && Top(f) + n.count <= g.sectNum
    requires !Crosses(n.start, n.count)
    ensures InodeSector(g, |f|) < |d| && SMAP + n.start / SECTOR_BITS + Rounds(n.count) <= |d|
    ensures InodesAre(g, MakeInode(g, d, |f|, n), Created(f, n, folder))
  {
    hide MakeInode, SectorBit, UpdateMap, Holds, InodeOf, InodeBytes, Slot, PutSlot, MapBit;
    LayoutOf(g, d, f);
    var f', id := Created(f, n, folder), |f|;
    MakeInodeSectors(g, d, f, n, 0);
    var r := MakeInode(g, d, id, n);
    forall j | ROOT <= j < |f'| && j < INODE_MAX ensures InodeAt(g, r, j) == f'[j].inode {
      var x := InodeSector(g, j);
      MakeInodeSectors(g, d, f, n, x);
      PutInodeAt(g, d, id, n, j);
      assert r[x] == PutInode(g, d, id, n)[x];
      assert j < |f| ==> InodeAt(g, d, j) == f[j].inode;
    }
  }

  lemma HoldsDepends(d: Disk, r: Disk, n: Node)
    requires Holds(d, n) && |r| == |d| && forall x | n.inode.start <= x < EndOf(n) :: r[x] == d[x]
    ensures Holds(r, n)
  {
    hide EntryOf, Slot;
    forall k: nat | k < PER_SECTOR * n.inode.count
      ensures EntryAt(r, n.inode.start, k) == EntryAt(d, n.inode.start, k)
    {}
  }

  lemma BlankHoldsNothing(r: Disk, n: Node)
    requires EndOf(n) <= |r| && n.entries == [] && forall x | n.inode.start <= x < EndOf(n) :: r[x] == Blank()
    ensures Holds(r, n)
  {
    hide EntryOf, Slot, Blank;
    forall k: nat | k < PER_SECTOR * n.inode.count ensures EntryAt(r, n.inode.start, k).inode == 0 {
      BlankIsEmpty(0, k % PER_SECTOR);
    }
  }

  lemma MakeInodeFolders(g: Super, d: Disk, f: Files, n: Inode, folder: bool)
    requires Represents(g, d, f) && |f| < INODE_MAX && n.count > 0 && n.start == Top(f) && Top(f) + n.count <= g.sectNum
    requires !Crosses(n.start, n.count)
    ensures InodeSector(g, |f|) < |d| && SMAP + n.start / SECTOR_BITS + Rounds(n.count) <= |d|
    ensures FoldersHold(MakeInode(g, d, |f|, n), Created(f, n, folder))
  {
    hide MakeInode, SectorBit, UpdateMap, Holds, InodeAt, MapBit, Blank, PutSlot, SetSectorBit;
    LayoutOf(g, d, f);
    MakeInodeSectors(g, d, f, n, 0);
    var r, f' := MakeInode(g, d, |f|, n), Created(f, n, folder);
    forall j | ROOT <= j < |f'| && f'[j].folder ensures Holds(r, f'[j]) {
      if j == |f| {
        forall x | n.start <= x < n.start + n.count ensures r[x] == Blank() { MakeInodeSectors(g, d, f, n, x); }
        BlankHoldsNothing(r, f'[j]);
      } else {
        MakeInodeSpares(g, d, f, n, j);
        HoldsDepends(d, r, f[j]);
      }
    }
  }

  /** No sector of an existing extent changes when an inode is made. */
  lemma MakeInodeSpares(g: Super, d: Disk, f: Files, n: Inode, j: nat)
    requires Represents(g, d, f) && |f| < INODE_MAX && n.count > 0 && n.start == Top(f) && Top(f) + n.count <= g.sectNum
    requires !Crosses(n.start, n.count) && ROOT <= j < |f|
    ensures InodeSector(g, |f|) < |d| && SMAP + n.start / SECTOR_BITS + Rounds(n.count) <= |d|
    ensures forall x | f[j].inode.start <= x < EndOf(f[j]) :: x < |d| && MakeInode(g, d, |f|, n)[x] == d[x]
  {
    hide MakeInode, SectorBit, UpdateMap, Holds, InodeAt, MapBit, Blank, PutSlot, SetSectorBit;
    LayoutOf(g, d, f);
    ExtentInData(g, f, j);
    MakeInodeSectors(g, d, f, n, 0);
    forall x | f[j].inode.start <= x < EndOf(f[j]) ensures x < |d| && MakeInode(g, d, |f|, n)[x] == d[x] {
      MakeInodeSectors(g, d, f, n, x);
    }
  }

  lemma CreatedLaid(g: Super, f: Files, n: Inode, folder: bool)
    requires Laid(g, f) && |f| < INODE_MAX && n.count > 0 && n.start == Top(f) && Top(f) + n.count <= g.sectNum
    ensures Laid(g, Created(f, n, folder)) && Top(Created(f, n, folder)) == n.start + n.count
  {
    var f' := Created(f, n, folder);
    forall i, j | 0 <= i && j == i + 1 < |f'| ensures f'[j].inode.start == EndOf(f'[i]) {
      if j < |f| { assert f[j].inode.start == EndOf(f[i]); }
    }
  }

  /** Making an inode on the disk is creating an empty node. */
  lemma MakeInodeRefines(g: Super, d: Disk, f: Files, n: Inode, folder: bool)
    requires Represents(g, d, f) && |f| < INODE_MAX && n.count > 0 && n.start == Top(f) && Top(f) + n.count <= g.sectNum
    requires !Crosses(n.start, n.count)
    ensures InodeSector(g, |f|) < |d| && SMAP + n.start / SECTOR_BITS + Rounds(n.count) <= |d|
    ensures Represents(g, MakeInode(g, d, |f|, n), Created(f, n, folder))
  {
    hide MakeInode, ImapIs, SmapIs, InodesAre, FoldersHold;
    MakeInodeImap(g, d, f, n);
    MakeInodeSmap(g, d, f, n);
    MakeInodeInodes(g, d, f, n, folder);
    MakeInodeFolders(g, d, f, n, folder);
    CreatedLaid(g, f, n, folder);
  }

  /**
   Making an inode does what it should, marks and all, if and only if its extent lies within one
   sector of the sector map.
   */
  lemma MakeInodeRefinesIff(g: Super, d: Disk, f: Files, n: Inode, folder: bool)
    requires Represents(g, d, f) && |f| < INODE_MAX && n.count > 0 && n.start == Top(f) && Top(f) + n.count <= g.sectNum
    ensures InodeSector(g, |f|) < |d| && SMAP + n.start / SECTOR_BITS + Rounds(n.count) <= |d|
    ensures Represents(g, MakeInode(g, d, |f|, n), Created(f, n, folder)) <==> !Crosses(n.start, n.count)
  {
    LayoutOf(g, d, f);
    RoundsFit(d, g.smapSects, n.start, n.count);
    if Crosses(n.start, n.count) {
      CrossingUnmarked(g, d, f, n);
      TopMarked(g, MakeInode(g, d, |f|, n), Created(f, n, folder), n.start);
    } else {
      MakeInodeRefines(g, d, f, n, folder);
    }
  }

  lemma TopMarked(g: Super, d: Disk, f: Files, x: nat)
    requires |f| > 0 && x < Top(f) && x < SECTOR_BITS * g.smapSects
    ensures Represents(g, d, f) ==> HasMap(d, g.smapSects) && MapBit(d, x)
  {
    hide MapBit, InodesAre, ImapIs, FoldersHold;
    if Represents(g, d, f) { LayoutOf(g, d, f); }
  }

  /** The first sector of a crossing extent stays free in the map. */
  lemma CrossingUnmarked(g: Super, d: Disk, f: Files, n: Inode)
    requires Represents(g, d, f) && |f| < INODE_MAX && n.count > 0 && n.start == Top(f) && Top(f) + n.count <= g.sectNum
    requires Crosses(n.start, n.count)
    ensures InodeSector(g, |f|) < |d| && SMAP + n.start / SECTOR_BITS + Rounds(n.count) <= |d|
    ensures SMAP + n.start / SECTOR_BITS < |d| && !MapBit(MakeInode(g, d, |f|, n), n.start)
  {
    hide SectorBit, UpdateMap, PutSlot, InodeBytes, Holds, SetSectorBit;
    LayoutOf(g, d, f);
    var d1, x := MarkInode(d, |f|), SMAP + n.start / SECTOR_BITS;
    CrossingLeavesStart(d1, g.smapSects, n.start, n.count);
    assert d1[x] == d[x];
    assert !MapBit(d, n.start);
    var d2 := UpdateMap(d1, n.start, n.count);
    assert MakeInode(g, d, |f|, n)[x] == d2[x];
  }

  // ---------------------------------------------------------------------- adding an entry

  /** A folder's first empty record is the one behind its entries. */
  lemma FreeEntryIs(d: Disk, n: Node)
    requires Holds(d, n)
    ensures FreeEntry(d, n.inode.start, n.inode.count, 0) == |n.entries|
  {
    hide EntryAt;
    FreeEntryUnique(d, n.inode.start, n.inode.count, |n.entries|);
  }

  lemma PutEntryHolds(d: Disk, n: Node, e: Entry)
    requires Holds(d, n) && e.inode != 0 && |n.entries| < PER_SECTOR * n.inode.count
    ensures Holds(PutEntry(d, n.inode.start, |n.entries|, e), n.(entries := n.entries + [e]))
  {
    hide EntryAt, PutEntry;
    var n', m := n.(entries := n.entries + [e]), |n.entries|;
    forall k: nat | k < PER_SECTOR * n.inode.count
      ensures EntryAt(PutEntry(d, n.inode.start, m, e), n.inode.start, k)
           == if k == m then e else EntryAt(d, n.inode.start, k)
    {
      PutEntryAt(d, n.inode.start, m, e, k);
    }
  }

  /** What `add_dir_entry` does to a represented disk. */
  lemma AddEntryIs(g: Super, d: Disk, f: Files, dir: nat, e: Entry)
    requires Represents(g, d, f) && ROOT <= dir < |f| && f[dir].folder
    ensures HasExtent(g, d, dir) && Holds(d, f[dir])
    ensures AddEntry(g, d, dir, e) ==
            if |f[dir].entries| < PER_SECTOR * f[dir].inode.count
            then PutEntry(d, f[dir].inode.start, |f[dir].entries|, e) else d
  {
    hide Holds, PutEntry, FreeEntry, SectorBit, MapBit;
    LayoutOf(g, d, f);
    assert InodeAt(g, d, dir) == f[dir].inode;
    ExtentInData(g, f, dir);
    assert Holds(d, f[dir]);
    FreeEntryIs(d, f[dir]);
  }

  /** It changes no sector outside the extent of its folder. */
  lemma AddEntrySpares(g: Super, d: Disk, f: Files, dir: nat, e: Entry, x: nat)
    requires Represents(g, d, f) && ROOT <= dir < |f| && f[dir].folder
    requires x < |d| && !(f[dir].inode.start <= x < EndOf(f[dir]))
    ensures HasExtent(g, d, dir) && AddEntry(g, d, dir, e)[x] == d[x]
  {
    hide Represents, AddEntry;
    AddEntryIs(g, d, f, dir, e);
  }

  lemma AddEntryMetadata(g: Super, d: Disk, f: Files, dir: nat, e: Entry)
    requires Represents(g, d, f) && ROOT <= dir < |f| && f[dir].folder
    ensures HasExtent(g, d, dir) && Formatted(g, d) && Formatted(g, AddEntry(g, d, dir, e))
    ensures forall x | 0 <= x < g.firstData :: AddEntry(g, d, dir, e)[x] == d[x]
  {
    hide AddEntry, Holds, ImapIs, SmapIs, InodesAre, FoldersHold;
    AddEntryIs(g, d, f, dir, e);
    LayoutOf(g, d, f);
    ExtentInData(g, f, dir);
    forall x | 0 <= x < g.firstData ensures AddEntry(g, d, dir, e)[x] == d[x] {
      AddEntrySpares(g, d, f, dir, e, x);
    }
  }

  lemma AddEntryFolders(g: Super, d: Disk, f: Files, dir: nat, e: Entry)
    requires Represents(g, d, f) && ROOT <= dir < |f| && f[dir].folder && e.inode != 0
    ensures HasExtent(g, d, dir) && FoldersHold(AddEntry(g, d, dir, e), Extended(f, dir, e))
  {
    hide AddEntry, PutEntry, Holds, ImapIs, SmapIs, InodesAre;
    AddEntryIs(g, d, f, dir, e);
    var r, f' := AddEntry(g, d, dir, e), Extended(f, dir, e);
    forall j | ROOT <= j < |f'| && f'[j].folder ensures Holds(r, f'[j]) {
      assert Holds(d, f[j]);
      if j == dir {
        if |f[dir].entries| < PER_SECTOR * f[dir].inode.count { PutEntryHolds(d, f[dir], e); }
      } else {
        AddEntryOther(g, d, f, dir, e, j);
      }
    }
  }

  lemma AddEntryOther(g: Super, d: Disk, f: Files, dir: nat, e: Entry, j: nat)
    requires Represents(g, d, f) && ROOT <= dir < |f| && f[dir].folder && ROOT <= j < |f| && j != dir && Holds(d, f[j])
    ensures HasExtent(g, d, dir) && Holds(AddEntry(g, d, dir, e), f[j])
    ensures forall x | f[j].inode.start <= x < EndOf(f[j]) :: x < |d| && AddEntry(g, d, dir, e)[x] == d[x]
  {
    hide AddEntry, Holds, ImapIs, SmapIs, InodesAre, FoldersHold;
    AddEntryIs(g, d, f, dir, e);
    LayoutOf(g, d, f);
    ExtentInData(g, f, j);
    forall x | f[j].inode.start <= x < EndOf(f[j]) ensures x < |d| && AddEntry(g, d, dir, e)[x] == d[x] {
      if f[dir].inode.start <= x < EndOf(f[dir]) { ExtentsDisjoint(g, f, j, dir, x); }
      AddEntrySpares(g, d, f, dir, e, x);
    }
    HoldsDepends(d, AddEntry(g, d, dir, e), f[j]);
  }

  lemma MetadataDepends(g: Super, d: Disk, r: Disk, f: Files, n: nat)
    requires Formatted(g, d) && Formatted(g, r) && |f| <= INODE_MAX && forall x | 0 <= x < g.firstData :: r[x] == d[x]
    ensures ImapIs(r, n) <==> ImapIs(d, n)
    ensures forall top: nat :: SmapIs(r, g.smapSects, top) <==> SmapIs(d, g.smapSects, top)
    ensures InodesAre(g, r, f) <==> InodesAre(g, d, f)
  {
    hide SectorBit, InodeOf, Slot;
    forall i: nat | i < SECTOR_BITS * g.smapSects ensures MapBit(r, i) <==> MapBit(d, i) {
      assert SMAP + i / SECTOR_BITS < g.firstData;
    }
    forall id: nat | id < INODE_MAX
      ensures InodeSector(g, id) < g.firstData && InodeAt(g, r, id) == InodeAt(g, d, id)
    {}
  }

  lemma ExtendedLaid(g: Super, f: Files, dir: nat, e: Entry)
    requires Laid(g, f) && dir < |f|
    ensures Laid(g, Extended(f, dir, e)) && Top(Extended(f, dir, e)) == Top(f)
    ensures forall id | 0 <= id < |f| :: Extended(f, dir, e)[id].inode == f[id].inode
  {
    var f' := Extended(f, dir, e);
    forall i, j | 0 <= i && j == i + 1 < |f'| ensures f'[j].inode.start == EndOf(f'[i]) {
      assert f[j].inode.start == EndOf(f[i]);
    }
  }

  /** Adding an entry on the disk is adding it to the folder. */
  lemma AddEntryRefines(g: Super, d: Disk, f: Files, dir: nat, e: Entry)
    requires Represents(g, d, f) && ROOT <= dir < |f| && f[dir].folder && e.inode != 0
    ensures HasExtent(g, d, dir) && Represents(g, AddEntry(g, d, dir, e), Extended(f, dir, e))
  {
    hide AddEntry, ImapIs, SmapIs, FoldersHold, Extended, Laid, InodeAt;
    AddEntryMetadata(g, d, f, dir, e);
    AddEntryFolders(g, d, f, dir, e);
    ExtendedLaid(g, f, dir, e);
    LaidBound(g, f);
    MetadataDepends(g, d, AddEntry(g, d, dir, e), f, |f|);
    ExtendedSize(f, dir, e);
  }

  lemma LaidBound(g: Super, f: Files)
    requires Laid(g, f)
    ensures 1 <= |f| <= INODE_MAX
  {
  }

  lemma ExtendedSize(f: Files, dir: nat, e: Entry)
    requires dir < |f|
    ensures |Extended(f, dir, e)| == |f|
  {
  }

  // ------------------------------------------------------------- what nobody else notices

  /** The extent of `n` has the same sectors in `r` as in `d`. */
  ghost predicate Spared(d: Disk, r: Disk, n: Inode) {
    var a: nat, c: nat := n.start, n.count;
    |r| == |d| && a + c <= |d| && forall x: nat | a <= x < a + c :: r[x] == d[x]
  }

  /** No extent but that of `dir` changes between `d` and `r`. */
  ghost predicate OthersSpared(d: Disk, r: Disk, f: Files, dir: nat) {
    forall j | ROOT <= j < |f| && j != dir :: Spared(d, r, f[j].inode)
  }

  lemma MakeInodeSparesAll(g: Super, d: Disk, f: Files, n: Inode)
    requires Represents(g, d, f) && |f| < INODE_MAX && n.count > 0 && n.start == Top(f) && Top(f) + n.count <= g.sectNum
    requires !Crosses(n.start, n.count)
    ensures InodeSector(g, |f|) < |d| && SMAP + n.start / SECTOR_BITS + Rounds(n.count) <= |d|
    ensures OthersSpared(d, MakeInode(g, d, |f|, n), f, 0)
  {
    hide ImapIs, SmapIs, InodesAre, FoldersHold;
    LayoutOf(g, d, f);
    MakeInodeSectors(g, d, f, n, 0);
    forall j | ROOT <= j < |f| ensures Spared(d, MakeInode(g, d, |f|, n), f[j].inode) {
      MakeInodeSpares(g, d, f, n, j);
      ExtentInData(g, f, j);
    }
  }

  lemma AddEntrySparesAll(g: Super, d: Disk, f: Files, dir: nat, e: Entry)
    requires Represents(g, d, f) && ROOT <= dir < |f| && f[dir].folder
    ensures HasExtent(g, d, dir) && OthersSpared(d, AddEntry(g, d, dir, e), f, dir)
  {
    hide Holds, ImapIs, SmapIs, InodesAre, FoldersHold, PutEntry, FreeEntry, InodeAt;
    LayoutOf(g, d, f);
    AddEntryIs(g, d, f, dir, e);
    var r := AddEntry(g, d, dir, e);
    forall j | ROOT <= j < |f| && j != dir ensures Spared(d, r, f[j].inode) {
      ExtentInData(g, f, j);
      forall x: nat | f[j].inode.start <= x < EndOf(f[j]) ensures r[x] == d[x] {
        if f[dir].inode.start <= x < EndOf(f[dir]) { ExtentsDisjoint(g, f, j, dir, x); }
        AddEntrySpares(g, d, f, dir, e, x);
      }
    }
  }

  lemma SparedTwice(d0: Disk, d1: Disk, d2: Disk, f: Files, dir: nat, f1: Files, dir1: nat)
    requires OthersSpared(d0, d1, f, dir) && OthersSpared(d1, d2, f1, dir1) && |f| <= |f1|
    requires dir1 == dir || dir1 >= |f| || dir1 == 0
    requires forall j | ROOT <= j < |f| :: f1[j].inode == f[j].inode
    ensures OthersSpared(d0, d2, f, dir)
  {
    hide Spared;
    forall j | ROOT <= j < |f| && j != dir ensures Spared(d0, d2, f[j].inode) {
      assert Spared(d0, d1, f[j].inode) && Spared(d1, d2, f1[j].inode);
      SparedChain(d0, d1, d2, f[j].inode);
    }
  }

  lemma SparedChain(d0: Disk, d1: Disk, d2: Disk, n: Inode)
    requires Spared(d0, d1, n) && Spared(d1, d2, n)
    ensures Spared(d0, d2, n)
  {
    var a: nat, c: nat := n.start, n.count;
    forall x: nat | a <= x < a + c ensures d2[x] == d0[x] {
      assert d1[x] == d0[x] && d2[x] == d1[x];
    }
  }

  // ------------------------------------------------------------------------- the tree

  /** Folder `id` starts with itself and its parent, a folder with a smaller number. */
  ghost predicate HasParent(f: Files, id: nat)
    requires id < |f|
  {
    var es := f[id].entries;
    && |es| >= 2 && es[0].inode == id && ROOT <= es[1].inode < id && f[es[1].inode].folder
  }

  ghost predicate EntriesExist(f: Files, n: Node) {
    forall k | 0 <= k < |n.entries| :: ROOT <= n.entries[k].inode < |f|
  }

  ghost predicate Tree(f: Files) {
    && |f| >= 2 && f[ROOT].folder && f[ROOT].entries != [] && f[ROOT].entries[0].inode == ROOT
    && (forall id | ROOT < id < |f| && f[id].folder :: HasParent(f, id))
    && (forall id | ROOT <= id < |f| :: EntriesExist(f, f[id]))
  }

  /** The folders met by following ".." from `id`. */
  function PathUp(f: Files, id: nat): (path: seq<nat>)
    requires Tree(f) && ROOT <= id < |f| && f[id].folder
    decreases id
  {
    if id == ROOT then [id]
    else
      assert HasParent(f, id);
      [id] + PathUp(f, f[id].entries[1].inode)
  }

  /** Following ".." leads from every folder to the root, through folders with ever smaller numbers. */
  lemma {:induction false} PathEndsAtRoot(f: Files, id: nat)
    requires Tree(f) && ROOT <= id < |f| && f[id].folder
    ensures var path := PathUp(f, id);
            && 1 <= |path| <= id && path[0] == id && path[|path|-1] == ROOT
            && (forall k | 0 <= k < |path| :: path[k] < |f| && f[path[k]].folder)
            && (forall i, j | 0 <= i && j == i + 1 < |path| :: path[j] < path[i])
    decreases id
  {
    if id != ROOT {
      assert HasParent(f, id);
      PathEndsAtRoot(f, f[id].entries[1].inode);
    }
  }

  lemma ExtendedTree(f: Files, dir: nat, e: Entry)
    requires Tree(f) && ROOT <= dir < |f| && f[dir].folder && ROOT <= e.inode < |f|
    ensures Tree(Extended(f, dir, e))
  {
    var f' := Extended(f, dir, e);
    forall id | ROOT < id < |f'| && f'[id].folder ensures HasParent(f', id) { assert HasParent(f, id); }
    forall id | ROOT <= id < |f'| ensures EntriesExist(f', f'[id]) { assert EntriesExist(f, f[id]); }
  }

  lemma MkFileKeepsTree(f: Files, name: seq<byte>, size: word, mode: word, dir: nat, v: Reserved, stack: Name)
    requires Tree(f) && |f| < INODE_MAX && Top(f) < WORD && |name| < NAME_SIZE && ROOT <= dir < |f| && f[dir].folder
    ensures Tree(MkFile(f, name, size, mode, dir, v, stack))
  {
    var f1 := Created(f, NewInode(f, size, mode, v), false);
    forall id | ROOT < id < |f1| && f1[id].folder ensures HasParent(f1, id) { assert HasParent(f, id); }
    forall id | ROOT <= id < |f1| ensures EntriesExist(f1, f1[id]) {
      if id < |f| { assert EntriesExist(f, f[id]); }
    }
    ExtendedTree(f1, dir, Entry(|f|, Named(stack, name), FS_TYPE_FILE));
  }

  /** A new folder has room for its two entries, whether or not its parent had room for it. */
  lemma MkDirIs(f: Files, name: seq<byte>, mode: word, dir: nat, v: Reserved, stack: Name)
    requires 0 < |f| < INODE_MAX && Top(f) < WORD && |name| < NAME_SIZE && dir < |f|
    ensures var id, n1 := |f|, Named(stack, name);
            var n2 := Named(n1, DOT());
            MkDir(f, name, mode, dir, v, stack)
              == Extended(f, dir, Entry(id, n1, FS_TYPE_FOLDER))
                 + [Node(NewInode(f, FOLDER_SIZE, mode, v), true,
                         [Entry(id, n2, FS_TYPE_FOLDER), Entry(dir, Named(n2, DOTDOT()), FS_TYPE_FOLDER)])]
  {
    hide Named, Top;
    var id, n1 := |f|, Named(stack, name);
    var n2 := Named(n1, DOT());
    var inode := NewInode(f, FOLDER_SIZE, mode, v);
    var e1, e2 := Entry(id, n1, FS_TYPE_FOLDER), Entry(id, n2, FS_TYPE_FOLDER);
    var e3 := Entry(dir, Named(n2, DOTDOT()), FS_TYPE_FOLDER);
    assert inode.count == 2;
    var g := Extended(f, dir, e1);
    assert Extended(Created(f, inode, true), dir, e1) == g + [Node(inode, true, [])];
    ExtendLast(g, inode, [], e2);
    ExtendLast(g, inode, [e2], e3);
    assert [] + [e2] == [e2] && [e2] + [e3] == [e2, e3];
  }

  lemma ExtendLast(g: Files, n: Inode, es: seq<Entry>, e: Entry)
    requires |es| < PER_SECTOR * n.count
    ensures Extended(g + [Node(n, true, es)], |g|, e) == g + [Node(n, true, es + [e])]
  {
  }

  lemma MkDirKeepsTree(f: Files, name: seq<byte>, mode: word, dir: nat, v: Reserved, stack: Name)
    requires Tree(f) && |f| < INODE_MAX && Top(f) < WORD && |name| < NAME_SIZE && ROOT <= dir < |f| && f[dir].folder
    ensures Tree(MkDir(f, name, mode, dir, v, stack))
  {
    hide Named, Top, MkDir;
    MkDirIs(f, name, mode, dir, v, stack);
    var r, g := MkDir(f, name, mode, dir, v, stack), Extended(f, dir, Entry(|f|, Named(stack, name), FS_TYPE_FOLDER));
    assert |r| == |g| + 1 == |f| + 1 && forall id | 0 <= id < |f| :: r[id] == g[id];
    forall id | ROOT < id < |r| && r[id].folder ensures HasParent(r, id) {
      if id < |f| { assert HasParent(f, id); }
    }
    forall id | ROOT <= id < |r| ensures EntriesExist(r, r[id]) {
      if id < |f| { assert EntriesExist(f, f[id]); }
    }
  }

  // ------------------------------------------------------------ what is made, and its name

  ghost predicate HasPlace(f: Files, dir: nat)
    requires dir < |f|
  {
    |f[dir].entries| < PER_SECTOR * f[dir].inode.count
  }

  /** Making a file: the node, the entry that names it, and nothing else. */
  lemma MkFileIs(f: Files, name: seq<byte>, size: word, mode: word, dir: nat, v: Reserved, stack: Name)
    requires 0 < |f| < INODE_MAX && Top(f) < WORD && |name| < NAME_SIZE && dir < |f|
    ensures var r, id, es := MkFile(f, name, size, mode, dir, v, stack), |f|, f[dir].entries;
            && |r| == id + 1 && !r[id].folder && r[id].entries == []
            && r[id].inode.size == size && r[id].inode.mode == mode
            && r[id].inode.start == EndOf(f[id-1]) && r[id].inode.count == size / 512
            && (forall i | 0 <= i < id && i != dir :: r[i] == f[i])
            && (!HasPlace(f, dir) ==> r[dir] == f[dir])
            && (HasPlace(f, dir) ==>
                  && |r[dir].entries| == |es| + 1 && r[dir] == f[dir].(entries := es + [r[dir].entries[|es|]])
                  && r[dir].entries[|es|].inode == id && r[dir].entries[|es|].kind == FS_TYPE_FILE
                  && HoldsName(r[dir].entries[|es|].name, name))
  {
    hide Named;
    NamedIs(stack, name);
  }

  /** Making a folder: the same, and the two entries that the folder itself starts with. */
  lemma MkDirMeans(f: Files, name: seq<byte>, mode: word, dir: nat, v: Reserved, stack: Name)
    requires 0 < |f| < INODE_MAX && Top(f) < WORD && |name| < NAME_SIZE && dir < |f|
    ensures var r, id, es := MkDir(f, name, mode, dir, v, stack), |f|, f[dir].entries;
            && |r| == id + 1 && r[id].folder && |r[id].entries| == 2
            && r[id].inode.size == 1024 && r[id].inode.mode == mode
            && r[id].inode.start == EndOf(f[id-1]) && r[id].inode.count == 2
            && r[id].entries[0].inode == id && HoldsName(r[id].entries[0].name, ['.' as byte])
            && r[id].entries[1].inode == dir && HoldsName(r[id].entries[1].name, ['.' as byte, '.' as byte])
            && r[id].entries[0].kind == r[id].entries[1].kind == FS_TYPE_FOLDER
            && (forall i | 0 <= i < id && i != dir :: r[i] == f[i])
            && (!HasPlace(f, dir) ==> r[dir] == f[dir])
            && (HasPlace(f, dir) ==>
                  && |r[dir].entries| == |es| + 1 && r[dir] == f[dir].(entries := es + [r[dir].entries[|es|]])
                  && r[dir].entries[|es|].inode == id && r[dir].entries[|es|].kind == FS_TYPE_FOLDER
                  && HoldsName(r[dir].entries[|es|].name, name))
  {
    hide Named, MkDir, HoldsName;
    MkDirIs(f, name, mode, dir, v, stack);
    Names(stack, name);
    Names(Named(stack, name), DOT());
    Names(Named(Named(stack, name), DOT()), DOTDOT());
  }

  lemma Names(before: Name, name: seq<byte>)
    requires |name| < NAME_SIZE
    ensures HoldsName(Named(before, name), name)
  {
    NamedIs(before, name);
  }

  /** On the disk: the inode of a new file, and the record of its folder that names it. */
  lemma MadeFileOnDisk(g: Super, d: Disk, f: Files, name: seq<byte>, size: word, mode: word, dir: nat,
                       v: Reserved, stack: Name)
    requires 0 < |f| < INODE_MAX && Top(f) < WORD && |name| < NAME_SIZE && ROOT <= dir < |f| && f[dir].folder
    requires Represents(g, d, MkFile(f, name, size, mode, dir, v, stack))
    ensures InodeSector(g, |f|) < |d|
    ensures var n := InodeAt(g, d, |f|);
            n.size == size && n.mode == mode && n.count == size / 512 && n.start == Top(f)
    ensures HasPlace(f, dir) ==>
              && f[dir].inode.start + |f[dir].entries| / PER_SECTOR < |d|
              && var e := EntryAt(d, f[dir].inode.start, |f[dir].entries|);
                 e.inode == |f| && e.kind == FS_TYPE_FILE && HoldsName(e.name, name)
  {
    hide MkFile, HoldsName, InodeAt, EntryAt, ImapIs, SmapIs;
    var r := MkFile(f, name, size, mode, dir, v, stack);
    MkFileIs(f, name, size, mode, dir, v, stack);
    InodeOnDisk(g, d, r, |f|);
    if HasPlace(f, dir) { EntryOnDisk(g, d, r, dir, |f[dir].entries|); }
  }

  /** Of a new folder too, and its own two records. */
  lemma MadeFolderOnDisk(g: Super, d: Disk, f: Files, name: seq<byte>, mode: word, dir: nat, v: Reserved, stack: Name)
    requires 0 < |f| < INODE_MAX && Top(f) < WORD && |name| < NAME_SIZE && ROOT <= dir < |f| && f[dir].folder
    requires Represents(g, d, MkDir(f, name, mode, dir, v, stack))
    ensures InodeSector(g, |f|) < |d| && Top(f) < |d|
    ensures var n := InodeAt(g, d, |f|);
            n.size == 1024 && n.mode == mode && n.count == 2 && n.start == Top(f)
    ensures var e := EntryAt(d, Top(f), 0);
            e.inode == |f| && e.kind == FS_TYPE_FOLDER && HoldsName(e.name, ['.' as byte])
    ensures var e := EntryAt(d, Top(f), 1);
            e.inode == dir && e.kind == FS_TYPE_FOLDER && HoldsName(e.name, ['.' as byte, '.' as byte])
    ensures HasPlace(f, dir) ==>
              && f[dir].inode.start + |f[dir].entries| / PER_SECTOR < |d|
              && var e := EntryAt(d, f[dir].inode.start, |f[dir].entries|);
                 e.inode == |f| && e.kind == FS_TYPE_FOLDER && HoldsName(e.name, name)
  {
    hide MkDir, HoldsName, InodeAt, EntryAt, ImapIs, SmapIs;
    var r := MkDir(f, name, mode, dir, v, stack);
    MkDirMeans(f, name, mode, dir, v, stack);
    InodeOnDisk(g, d, r, |f|);
    EntryOnDisk(g, d, r, |f|, 0);
    EntryOnDisk(g, d, r, |f|, 1);
    if HasPlace(f, dir) { EntryOnDisk(g, d, r, dir, |f[dir].entries|); }
  }

  lemma InodeOnDisk(g: Super, d: Disk, f: Files, id: nat)
    requires Represents(g, d, f) && ROOT <= id < |f|
    ensures InodeSector(g, id) < |d| && InodeAt(g, d, id) == f[id].inode
  {
    hide InodeAt, ImapIs, SmapIs, FoldersHold;
    LayoutOf(g, d, f);
  }

  lemma EntryOnDisk(g: Super, d: Disk, f: Files, id: nat, k: nat)
    requires Represents(g, d, f) && ROOT <= id < |f| && f[id].folder && k < |f[id].entries|
    ensures f[id].inode.start + k / PER_SECTOR < |d| && EntryAt(d, f[id].inode.start, k) == f[id].entries[k]
  {
    hide EntryAt, ImapIs, SmapIs, InodesAre;
    assert Holds(d, f[id]);
  }

  // ------------------------------------------------------------------------- histories

  datatype FsOp =
    | DoMkFile(name: seq<byte>, size: word, mode: word, dir: nat, v: Reserved, stack: Name)
    | DoMkDir(name: seq<byte>, mode: word, dir: nat, v: Reserved, stack: Name)

  /** There is room, the name fits, and the entry goes into a folder. */
  ghost predicate Possible(g: Super, f: Files, op: FsOp) {
    && HasRoom(g, f, if op.DoMkFile? then op.size else FOLDER_SIZE)
    && |op.name| < NAME_SIZE && ROOT <= op.dir < |f| && f[op.dir].folder
  }

  ghost function Do(g: Super, f: Files, op: FsOp): Files
    requires Possible(g, f, op)
  {
    match op
    case DoMkFile(name, size, mode, dir, v, stack) => MkFile(f, name, size, mode, dir, v, stack)
    case DoMkDir(name, mode, dir, v, stack) => MkDir(f, name, mode, dir, v, stack)
  }

  /** Nothing that was there moves or changes; folders only get entries behind those they had. */
  ghost predicate Grown(f: Files, f': Files) {
    |f| <= |f'| && forall id | 0 <= id < |f| :: NodeGrown(f[id], f'[id])
  }

  ghost predicate NodeGrown(n: Node, n': Node) {
    n'.inode == n.inode && n'.folder == n.folder && n.entries <= n'.entries
  }

  lemma DoKeeps(g: Super, f: Files, op: FsOp)
    requires Tree(f) && Laid(g, f) && Possible(g, f, op)
    ensures Tree(Do(g, f, op)) && Laid(g, Do(g, f, op)) && Grown(f, Do(g, f, op))
  {
    hide Tree, Laid, Extended, MkFile, MkDir;
    match op {
      case DoMkFile(name, size, mode, dir, v, stack) =>
        MkFileKeepsTree(f, name, size, mode, dir, v, stack);
        MkFileLaid(g, f, name, size, mode, dir, v, stack);
      case DoMkDir(name, mode, dir, v, stack) =>
        MkDirKeepsTree(f, name, mode, dir, v, stack);
        MkDirLaid(g, f, name, mode, dir, v, stack);
    }
  }

  lemma MkFileLaid(g: Super, f: Files, name: seq<byte>, size: word, mode: word, dir: nat, v: Reserved, stack: Name)
    requires Laid(g, f) && HasRoom(g, f, size) && |name| < NAME_SIZE && dir < |f|
    ensures var r := MkFile(f, name, size, mode, dir, v, stack); Laid(g, r) && Grown(f, r)
  {
    hide Laid, Named, Top;
    var n := NewInode(f, size, mode, v);
    CreatedLaid(g, f, n, false);
    ExtendedLaid(g, Created(f, n, false), dir, Entry(|f|, Named(stack, name), FS_TYPE_FILE));
  }

  lemma MkDirLaid(g: Super, f: Files, name: seq<byte>, mode: word, dir: nat, v: Reserved, stack: Name)
    requires Laid(g, f) && HasRoom(g, f, FOLDER_SIZE) && |name| < NAME_SIZE && dir < |f|
    ensures var r := MkDir(f, name, mode, dir, v, stack); Laid(g, r) && Grown(f, r)
  {
    hide Laid, Named, Top, MkDir, Extended;
    var n, id, n1 := NewInode(f, FOLDER_SIZE, mode, v), |f|, Named(stack, name);
    var n2 := Named(n1, DOT());
    var f1 := Created(f, n, true);
    CreatedLaid(g, f, n, true);
    var e1, e2 := Entry(id, n1, FS_TYPE_FOLDER), Entry(id, n2, FS_TYPE_FOLDER);
    var e3 := Entry(dir, Named(n2, DOTDOT()), FS_TYPE_FOLDER);
    ExtendedSize(f1, dir, e1);
    ExtendedLaid(g, f1, dir, e1);
    var f2 := Extended(f1, dir, e1);
    ExtendedSize(f2, id, e2);
    ExtendedLaid(g, f2, id, e2);
    ExtendedLaid(g, Extended(f2, id, e2), id, e3);
    MkDirSteps(f, name, mode, dir, v, stack);
    MkDirIs(f, name, mode, dir, v, stack);
    ExtendedGrows(f, dir, e1);
  }

  /** The steps of `MkDir` in order, as the code takes them. */
  lemma MkDirSteps(f: Files, name: seq<byte>, mode: word, dir: nat, v: Reserved, stack: Name)
    requires 0 < |f| < INODE_MAX && Top(f) < WORD && |name| < NAME_SIZE && dir < |f|
    ensures var id, n1 := |f|, Named(stack, name);
            var n2 := Named(n1, DOT());
            var f1 := Created(f, NewInode(f, FOLDER_SIZE, mode, v), true);
            var f2 := Extended(f1, dir, Entry(id, n1, FS_TYPE_FOLDER));
            id < |f2| &&
            var f3 := Extended(f2, id, Entry(id, n2, FS_TYPE_FOLDER));
            id < |f3| &&
            MkDir(f, name, mode, dir, v, stack) == Extended(f3, id, Entry(dir, Named(n2, DOTDOT()), FS_TYPE_FOLDER))
  {
  }

  lemma ExtendedGrows(f: Files, dir: nat, e: Entry)
    requires dir < |f|
    ensures Grown(f, Extended(f, dir, e))
  {
  }

  lemma GrownTransitive(a: Files, b: Files, c: Files)
    requires Grown(a, b) && Grown(b, c)
    ensures Grown(a, c)
  {
    forall id | 0 <= id < |a| ensures NodeGrown(a[id], c[id]) {
      assert NodeGrown(a[id], b[id]) && NodeGrown(b[id], c[id]);
    }
  }

  ghost predicate IsHistory(g: Super, states: seq<Files>, ops: seq<FsOp>) {
    && |states| == |ops| + 1 && Tree(states[0]) && Laid(g, states[0])
    && (forall k | 0 <= k < |ops| :: Possible(g, states[k], ops[k]) && states[k+1] == Do(g, states[k], ops[k]))
  }

  /** After any sequence of operations the folders are a tree and the extents do not overlap. */
  lemma {:induction false} HistoryKeeps(g: Super, states: seq<Files>, ops: seq<FsOp>, k: nat)
    requires IsHistory(g, states, ops) && k <= |ops|
    ensures Tree(states[k]) && Laid(g, states[k])
  {
    if k > 0 {
      HistoryKeeps(g, states, ops, k - 1);
      DoKeeps(g, states[k-1], ops[k-1]);
    }
  }

  /** No operation ever changes an inode or an entry made before it. */
  lemma {:induction false} HistoryGrows(g: Super, states: seq<Files>, ops: seq<FsOp>, i: nat, j: nat)
    requires IsHistory(g, states, ops) && i <= j <= |ops|
    ensures Grown(states[i], states[j])
  {
    hide Tree, Laid, Possible, Do;
    if i < j {
      HistoryGrows(g, states, ops, i, j - 1);
      HistoryStep(g, states, ops, j - 1);
      GrownTransitive(states[i], states[j-1], states[j]);
    }
  }

  lemma HistoryStep(g: Super, states: seq<Files>, ops: seq<FsOp>, k: nat)
    requires IsHistory(g, states, ops) && k < |ops|
    ensures Grown(states[k], states[k+1])
  {
    HistoryKeeps(g, states, ops, k);
    DoKeeps(g, states[k], ops[k]);
  }

  /**
   What the operation `op` on `f` leaves, as found in a later state `r`: the new inode as asked for
   and, if its folder had room, the entry there that names it.
   */
  ghost predicate Provides(f: Files, r: Files, op: FsOp) {
    var id := |f|;
    && id < |r| && op.dir < |f|
    && r[id].folder == op.DoMkDir? && r[id].inode.mode == op.mode
    && r[id].inode.size == (if op.DoMkFile? then op.size else 1024)
    && r[id].inode.count == r[id].inode.size / 512
    && (HasPlace(f, op.dir) ==>
          var k := |f[op.dir].entries|;
          && k < |r[op.dir].entries| && r[op.dir].entries[k].inode == id
          && HoldsName(r[op.dir].entries[k].name, op.name)
          && r[op.dir].entries[k].kind == if op.DoMkFile? then FS_TYPE_FILE else FS_TYPE_FOLDER)
  }

  lemma DoProvides(g: Super, f: Files, op: FsOp)
    requires Possible(g, f, op)
    ensures |Do(g, f, op)| == |f| + 1 && Provides(f, Do(g, f, op), op)
  {
    hide MkFile, MkDir, HoldsName;
    match op {
      case DoMkFile(name, size, mode, dir, v, stack) => MkFileIs(f, name, size, mode, dir, v, stack);
      case DoMkDir(name, mode, dir, v, stack) => MkDirMeans(f, name, mode, dir, v, stack);
    }
  }

  lemma ProvidesStays(f: Files, r: Files, r': Files, op: FsOp)
    requires Provides(f, r, op) && Grown(r, r')
    ensures Provides(f, r', op)
  {
    hide HoldsName;
    assert NodeGrown(r[|f|], r'[|f|]) && NodeGrown(r[op.dir], r'[op.dir]);
  }

  /** Whatever was made in the course of a history is still there, under the name it was given. */
  lemma HistoryProvides(g: Super, states: seq<Files>, ops: seq<FsOp>, k: nat, j: nat)
    requires IsHistory(g, states, ops) && k < j <= |ops|
    ensures Provides(states[k], states[j], ops[k])
  {
    hide Provides, Grown, Do, Possible, Tree, Laid;
    DoProvides(g, states[k], ops[k]);
    HistoryGrows(g, states, ops, k + 1, j);
    ProvidesStays(states[k], states[k+1], states[j], ops[k]);
  }

  lemma {:induction false} HistorySize(g: Super, states: seq<Files>, ops: seq<FsOp>, j: nat)
    requires IsHistory(g, states, ops) && j <= |ops|
    ensures |states[j]| == |states[0]| + j
  {
    hide Provides, Do, Possible, Tree, Laid;
    if j > 0 {
      HistorySize(g, states, ops, j - 1);
      DoProvides(g, states[j-1], ops[j-1]);
    }
  }

  /**
   Every inode made after the start was asked for by one operation, and is named by an entry of the
   folder that it named, if that folder had room.
   */
  lemma EveryInodeNamed(g: Super, states: seq<Files>, ops: seq<FsOp>, j: nat, id: nat)
    requires IsHistory(g, states, ops) && j <= |ops| && |states[0]| <= id < |states[j]|
    ensures exists k :: 0 <= k < j && |states[k]| == id && Provides(states[k], states[j], ops[k])
  {
    hide Provides, Do, Possible, Tree, Laid;
    var k := id - |states[0]|;
    HistorySize(g, states, ops, j);
    HistorySize(g, states, ops, k);
    HistoryProvides(g, states, ops, k, j);
  }

  // ----------------------------------------------------------------------- a fresh disk

  function Metadata(g: Super): Node
    requires g.firstData < WORD
  {
    Node(Inode(0, 0, 0, g.firstData, Reserved(0, 0, 0, 0)), false, [])
  }

  /** The disk after all steps of `mkfs` but the root, from the disk `d` with its inode map `imap`. */
  function Wiped(g: Super, d: Disk): (r: Disk)
    requires IMAP < |d| && 0 < g.firstData && SMAP + Rounds(g.firstData) <= |d|
    ensures |r| == |d|
  {
    var d1 := d[IMAP := SetSectorBit(Blank(), 0)];
    ClearSectors(UpdateMap(ClearSectors(d1, SMAP, g.smapSects), 0, g.firstData), SMAP + g.smapSects, g.inodeSects)
  }

  lemma WipedRepresents(g: Super, d: Disk)
    requires Formatted(g, d) && g.firstData <= SECTOR_BITS
    ensures IMAP < |d| && 0 < g.firstData && SMAP + Rounds(g.firstData) <= |d|
    ensures Represents(g, Wiped(g, d), [Metadata(g)])
  {
    hide SectorBit, UpdateMap, SetSectorBit, Blank, MapBit;
    var d1, f := d[IMAP := SetSectorBit(Blank(), 0)], [Metadata(g)];
    var d2, n := ClearSectors(d1, SMAP, g.smapSects), g.smapSects;
    WithinOneSector(d2, 0, g.firstData);
    var r := Wiped(g, d);
    assert r[IMAP] == SetSectorBit(Blank(), 0);
    forall id | 0 <= id < SECTOR_BITS ensures SectorBit(r[IMAP], id) <==> id < 1 {
      SetSectorBitAt(Blank(), 0, id);
      BlankIsEmpty(id, 0);
    }
    forall i: nat | i < SECTOR_BITS * n ensures MapBit(r, i) <==> i < Top(f) {
      WipedMapBit(g, d, i);
    }
  }

  lemma WipedMapBit(g: Super, d: Disk, i: nat)
    requires Formatted(g, d) && IMAP < |d| && 0 < g.firstData && SMAP + Rounds(g.firstData) <= |d|
    requires i < SECTOR_BITS * g.smapSects && g.firstData <= SECTOR_BITS
    ensures SMAP + i / SECTOR_BITS < |d| && (MapBit(Wiped(g, d), i) <==> i < g.firstData)
  {
    hide SectorBit, UpdateMap, SetSectorBit, Blank;
    var d1 := d[IMAP := SetSectorBit(Blank(), 0)];
    var d2 := ClearSectors(d1, SMAP, g.smapSects);
    UpdateMapAt(d2, g.smapSects, 0, g.firstData, i);
    assert d2[SMAP + i / SECTOR_BITS] == Blank();
    BlankIsEmpty(i % SECTOR_BITS, 0);
    assert Wiped(g, d)[SMAP + i / SECTOR_BITS] == UpdateMap(d2, 0, g.firstData)[SMAP + i / SECTOR_BITS];
  }

  /** Metadata that reaches beyond the first sector of the map are not marked. */
  lemma WipedUnmarked(g: Super, d: Disk)
    requires Formatted(g, d) && g.firstData > SECTOR_BITS
    ensures IMAP < |d| && SMAP + Rounds(g.firstData) <= |d|
    ensures !MapBit(Wiped(g, d), 0)
  {
    hide SectorBit, UpdateMap, SetSectorBit, Blank;
    var d1 := d[IMAP := SetSectorBit(Blank(), 0)];
    var d2 := ClearSectors(d1, SMAP, g.smapSects);
    CrossingLeavesStart(d2, g.smapSects, 0, g.firstData);
    assert d2[SMAP] == Blank();
    BlankIsEmpty(0, 0);
    assert Wiped(g, d)[SMAP] == UpdateMap(d2, 0, g.firstData)[SMAP];
  }

  /**
   Installation gives a disk without files and then one with just a root folder if and only if the
   metadata end within the first sector of the map and the root does not cross out of it.
   */
  lemma InstallIff(g: Super, d: Disk, v: Reserved)
    requires Formatted(g, d) && g.firstData + 2 <= g.sectNum
    ensures IMAP < |d| && 0 < g.firstData && SMAP + Rounds(g.firstData) <= |d|
    ensures InodeSector(g, ROOT) < |d| && SMAP + g.firstData / SECTOR_BITS + Rounds(2) <= |d|
    ensures var f, root := [Metadata(g)], Inode(0, FOLDER_SIZE, g.firstData, 2, v);
            (&& Represents(g, Wiped(g, d), f)
             && Represents(g, MakeInode(g, Wiped(g, d), ROOT, root), Created(f, root, true)))
            <==> g.firstData <= SECTOR_BITS && g.firstData != SECTOR_BITS - 1
  {
    hide Represents, MakeInode, Wiped, MapBit;
    var f, root := [Metadata(g)], Inode(0, FOLDER_SIZE, g.firstData, 2, v);
    RoundsFit(d, g.smapSects, g.firstData, 2);
    if g.firstData <= SECTOR_BITS {
      WipedRepresents(g, d);
      MakeInodeRefinesIff(g, Wiped(g, d), f, root, true);
    } else {
      RoundsFit(d, g.smapSects, 0, g.firstData);
      WipedUnmarked(g, d);
      TopMarked(g, Wiped(g, d), f, 0);
    }
  }

  /** What `mkfs` leaves: a root folder whose one entry is itself. */
  function Fresh(g: Super, v: Reserved, stack: Name): Files
    requires g.firstData < WORD
  {
    [Metadata(g), Node(Inode(0, FOLDER_SIZE, g.firstData, FOLDER_SIZE / SECTOR_SIZE, v), true,
                       [Entry(ROOT, Named(stack, DOT()), FS_TYPE_FOLDER)])]
  }

  lemma FreshIsTree(g: Super, v: Reserved, stack: Name)
    requires g.firstData < WORD
    ensures Tree(Fresh(g, v, stack))
    ensures Fresh(g, v, stack) ==
            Extended(Created([Metadata(g)], NewInode([Metadata(g)], FOLDER_SIZE, 0, v), true), ROOT,
                     Entry(ROOT, Named(stack, DOT()), FS_TYPE_FOLDER))
  {
    hide Named;
    var f, e := Fresh(g, v, stack), Entry(ROOT, Named(stack, DOT()), FS_TYPE_FOLDER);
    assert EntriesExist(f, f[ROOT]);
    ExtendLast([Metadata(g)], f[ROOT].inode, [], e);
    assert [] + [e] == [e];
  }

  /** On the disk: the root, of two sectors behind the metadata, and its entry ".". */
  lemma RootOnDisk(g: Super, d: Disk, v: Reserved, stack: Name)
    requires g.firstData < WORD && Represents(g, d, Fresh(g, v, stack))
    ensures InodeSector(g, 1) < |d| && g.firstData < |d|
    ensures var n := InodeAt(g, d, 1); n.size == 1024 && n.mode == 0 && n.count == 2 && n.start == g.firstData
    ensures var e := EntryAt(d, g.firstData, 0);
            e.inode == 1 && e.kind == FS_TYPE_FOLDER && HoldsName(e.name, ['.' as byte])
  {
    hide InodeAt, EntryAt, ImapIs, SmapIs, HoldsName;
    var f := Fresh(g, v, stack);
    InodeOnDisk(g, d, f, ROOT);
    EntryOnDisk(g, d, f, ROOT, 0);
    Names(stack, DOT());
  }

  // ------------------------------------------------------- a crossing extent is reachable

  /** A disk of 8192 sectors: 262 of metadata, the root folder, then a file of 3831 sectors. */
  function SmallDisk(): Super {
    Super(8192, 1, 3, 256, 262, ROOT)
  }

  function BigFile(v: Reserved, stack: Name): FsOp {
    DoMkFile([65], 3831 * SECTOR_SIZE, 0, ROOT, v, stack)
  }

  /**
   After that file, which lies within one sector of the map, the next folder gets sectors 4095
   and 4096, which do not: they stay free in the map and are given away again.
   */
  lemma CrossingIsReachable(v: Reserved, stack: Name)
    ensures var g := SmallDisk();
            var f0 := Fresh(g, v, stack);
            Possible(g, f0, BigFile(v, stack)) &&
            var f1 := Do(g, f0, BigFile(v, stack));
            && IsHistory(g, [f0, f1], [BigFile(v, stack)]) && Top(f1) == 4095
            && !HasRoom(g, f1, FOLDER_SIZE) && Crosses(4095, 2)
            && forall d | Represents(g, d, f1) ::
                 HasMap(d, 3) && IsFirstRun(d, 3, 2, 4095) && UpdateMap(d, 4095, 2) == d
  {
    hide Represents, IsFirstRun, UpdateMap;
    var g, op := SmallDisk(), BigFile(v, stack);
    var f0 := Fresh(g, v, stack);
    FreshIsTree(g, v, stack);
    FreshIsLaid(g, v, stack);
    var f1 := Do(g, f0, op);
    assert f1 == Extended(Created(f0, NewInode(f0, 3831 * SECTOR_SIZE, 0, v), false), ROOT,
                          Entry(2, Named(stack, [65]), FS_TYPE_FILE));
    assert f1[2] == Node(Inode(0, 3831 * SECTOR_SIZE, 264, 3831, v), false, []);
    forall d | Represents(g, d, f1)
      ensures HasMap(d, 3) && IsFirstRun(d, 3, 2, 4095) && UpdateMap(d, 4095, 2) == d
    {
      TopIsFirstRun(g, d, f1, 2);
      CrossingRunGivenTwice(d, 3, 4095, 2);
    }
  }

  lemma FreshIsLaid(g: Super, v: Reserved, stack: Name)
    requires 0 < g.firstData && g.firstData + 2 <= g.sectNum < WORD
    ensures Laid(g, Fresh(g, v, stack)) && Top(Fresh(g, v, stack)) == g.firstData + 2
  {
  }
}
