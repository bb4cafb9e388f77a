/**
 The routines of fs/mk.c and the installation in fs/fs.c, working through one 512-byte buffer.
 Every method is proved to do to the disk what module FsSpec says.
 */
module FsDisk {
  import opened FsBytes
  import opened FsSpec
  import opened FsImage
  import opened Words

  class FileSystem {
    var disk: Disk
    const mkBuf: array<byte>
    const fsBuf: array<byte>
    var sb: Super

    ghost predicate Ready()
      reads this
    {
      mkBuf.Length == SECTOR_SIZE && fsBuf.Length == SECTOR_SIZE && mkBuf != fsBuf && |disk| < WORD
    }

    constructor (disk: Disk, sb: Super)
      requires |disk| < WORD
      ensures Ready() && fresh(mkBuf) && fresh(fsBuf) && this.disk == disk && this.sb == sb
    {
      this.disk, this.sb := disk, sb;
      mkBuf := new byte[SECTOR_SIZE](_ => 0);
      fsBuf := new byte[SECTOR_SIZE](_ => 0);
    }

    /** The buffer as a sector. */
    ghost function Buffer(): Sector
      requires Ready()
      reads this, mkBuf
    {
      mkBuf[..]
    }

    // ------------------------------------------------------------------- disk access

    /** One of the two sector buffers. */
    ghost predicate IsBuffer(buf: array<byte>)
      reads this
    {
      (buf == mkBuf || buf == fsBuf) && buf.Length == SECTOR_SIZE
    }

    method FsRead(x: nat, buf: array<byte>)
      requires Ready() && x < |disk| && IsBuffer(buf)
      modifies buf
      ensures Ready() && buf[..] == disk[x]
    {
      forall i | 0 <= i < SECTOR_SIZE { buf[i] := disk[x][i]; }
    }

    method FsWrite(x: nat, buf: array<byte>)
      requires Ready() && x < |disk| && IsBuffer(buf)
      modifies this`disk
      ensures Ready() && disk == old(disk)[x := buf[..]]
    {
      disk := disk[x := buf[..]];
    }

    /** `memcpy` of a record into the buffer. */
    method PutRecord(k: nat, b: Record)
      requires Ready() && k < PER_SECTOR
      modifies mkBuf
      ensures Ready() && Buffer() == PutSlot(old(Buffer()), k, b)
    {
      forall i | 0 <= i < RECORD { mkBuf[k * RECORD + i] := b[i]; }
    }

    // --------------------------------------------------------------- the sector map

    method UpdateSectorMap(start: nat, count: nat) returns (done: bool)
      requires Ready() && count > 0 && SMAP + start / SECTOR_BITS + Rounds(count) <= |disk|
      modifies this`disk, mkBuf
      ensures Ready() && disk == UpdateMap(old(disk), start, count)
      ensures done <==> (start % SECTOR_BITS + count - 1) / SECTOR_BITS < Rounds(count)
    {
      hide SetBits;
      var pos, cnt := 0, count;
      var sectorId, sectorNum, sectorStart := SMAP + start / SECTOR_BITS, Rounds(count), start % SECTOR_BITS;
      for i := 0 to sectorNum
        invariant Ready() && disk == old(disk)
        invariant pos == SECTOR_BITS * i && sectorId == SMAP + start / SECTOR_BITS + i
        invariant cnt == count - (if i == 0 then 0 else pos - sectorStart) && cnt > 0
      {
        FsRead(sectorId, mkBuf);
        done, pos, cnt := MarkSector(pos, cnt, sectorStart);
        if done {
          assert (sectorStart + count - 1) / SECTOR_BITS == i;
          FsWrite(sectorId, mkBuf);
          return;
        }
        sectorId := sectorId + 1;
      }
      assert (sectorStart + count - 1) / SECTOR_BITS >= sectorNum;
      done := false;
    }

    /** The pass over one sector of the map. */
    method MarkSector(pos0: nat, cnt0: nat, sectorStart: nat) returns (done: bool, pos: nat, cnt: nat)
      requires Ready() && cnt0 > 0 && sectorStart < SECTOR_BITS && pos0 % SECTOR_BITS == 0
      modifies mkBuf
      ensures Ready()
      ensures var lo := if pos0 == 0 then sectorStart else 0;
              && (done <==> lo + cnt0 <= SECTOR_BITS)
              && (done ==> Buffer() == SetBits(old(Buffer()), lo, lo + cnt0))
              && (!done ==> pos == pos0 + SECTOR_BITS && cnt == cnt0 - (SECTOR_BITS - lo))
    {
      hide SetBits;
      pos, cnt, done := pos0, cnt0, false;
      ghost var lo := if pos0 == 0 then sectorStart else 0;
      NoBits(Buffer(), lo, 0);
      for j := 0 to SECTOR_SIZE
        invariant Ready() && pos == pos0 + 8 * j && !done
        invariant cnt == Left(cnt0, lo, 8 * j) && cnt > 0
        invariant Buffer() == SetBits(old(Buffer()), lo, 8 * j)
      {
        done, pos, cnt := MarkByte(j, pos, cnt, sectorStart, lo, cnt0, old(Buffer()));
        if done { return; }
      }
    }

    /** The pass over one byte of it. */
    method MarkByte(j: nat, pos0: nat, cntIn: nat, sectorStart: nat, ghost lo: nat, ghost cnt0: nat, ghost s: Sector)
      returns (done: bool, pos: nat, cnt: nat)
      requires Ready() && j < SECTOR_SIZE && lo < SECTOR_BITS
      requires if lo == 0 then pos0 >= sectorStart else pos0 == 8 * j && lo == sectorStart
      requires cntIn == Left(cnt0, lo, 8 * j) && cntIn > 0 && Buffer() == SetBits(s, lo, 8 * j)
      modifies mkBuf
      ensures Ready()
      ensures done <==> lo + cnt0 <= 8 * j + 8
      ensures done ==> Buffer() == SetBits(s, lo, lo + cnt0)
      ensures !done ==> pos == pos0 + 8 && cnt == Left(cnt0, lo, 8 * j + 8) && cnt > 0
      ensures !done ==> Buffer() == SetBits(s, lo, 8 * j + 8)
    {
      hide SetBits;
      var tmp := mkBuf[j];
      pos, cnt := pos0, cntIn;
      for k := 0 to 8
        invariant Ready() && pos == pos0 + k && tmp == mkBuf[j]
        invariant cnt == Left(cnt0, lo, 8 * j + k) && cnt > 0
        invariant Buffer() == SetBits(s, lo, 8 * j + k)
      {
        OneMoreBit(s, lo, j, k);
        if pos >= sectorStart {
          tmp := SetByteBit(tmp, k);
          cnt := cnt - 1;
        }
        ghost var before := Buffer();
        mkBuf[j] := tmp;
        assert Buffer() == before[j := tmp];
        if cnt == 0 { return true, pos, cnt; }
        pos := pos + 1;
      }
      done := false;
    }

    /** `inode_alloc_sector`: finds and marks the lowest free run of `sectNum` sectors. */
    method InodeAllocSector(sectNum: nat) returns (found: bool, start: nat)
      requires Ready() && HasMap(disk, sb.smapSects) && sectNum > 0
      modifies this`disk, mkBuf
      ensures Ready()
      ensures found <==> old(HasRun(disk, sb.smapSects, sectNum))
      ensures found ==> old(IsFirstRun(disk, sb.smapSects, sectNum, start))
      ensures found ==> SMAP + start / SECTOR_BITS + Rounds(sectNum) <= |old(disk)|
      ensures disk == if found then UpdateMap(old(disk), start, sectNum) else old(disk)
    {
      hide IsFirstRun, HasRun, Scanned, UpdateMap;
      var num, cnt := 0, 0;
      start := 0;
      ghost var n := sb.smapSects;
      ScanNothing(disk, n, sectNum);
      for i := SMAP to SMAP + sb.smapSects
        invariant Ready() && disk == old(disk) && HasMap(disk, n) && num == SECTOR_BITS * (i - SMAP)
        invariant Scanned(disk, n, sectNum, num, cnt, start)
      {
        FsRead(i, mkBuf);
        found, num, cnt, start := SearchSector(i, num, cnt, start, sectNum);
        if found {
          RunFits(disk, n, sectNum, start);
          var _ := UpdateSectorMap(start, cnt);
          return;
        }
      }
      ScanNone(disk, n, sectNum, cnt, start);
      found := false;
    }

    /** The search through one sector of the map, which is in the buffer. */
    method SearchSector(i: nat, num0: nat, cnt0: nat, start0: nat, need: nat)
      returns (found: bool, num: nat, cnt: nat, start: nat)
      requires Ready() && HasMap(disk, sb.smapSects) && SMAP <= i < SMAP + sb.smapSects
      requires Buffer() == disk[i] && num0 == SECTOR_BITS * (i - SMAP) && need > 0
      requires Scanned(disk, sb.smapSects, need, num0, cnt0, start0)
      ensures found ==> IsFirstRun(disk, sb.smapSects, need, start) && cnt == need
      ensures !found ==> num == num0 + SECTOR_BITS && Scanned(disk, sb.smapSects, need, num, cnt, start)
    {
      hide Scanned, IsFirstRun, Bit;
      num, cnt, start, found := num0, cnt0, start0, false;
      for j := 0 to SECTOR_SIZE
        invariant num == num0 + 8 * j && !found && Scanned(disk, sb.smapSects, need, num, cnt, start)
      {
        var tmp := mkBuf[j];
        for k := 0 to 8
          invariant num == num0 + 8 * j + k && !found && Scanned(disk, sb.smapSects, need, num, cnt, start)
        {
          MapBitAt(disk, i, j, k);
          ScanBound(disk, sb.smapSects, need, num, cnt, start);
          if Bit(tmp, k) {
            ScanSetBit(disk, sb.smapSects, need, num, cnt, start);
            cnt := 0;
          } else {
            ScanClearBit(disk, sb.smapSects, need, num, cnt, start);
            if cnt == 0 {
              start := num;
              cnt := 1;
            } else {
              cnt := cnt + 1;
            }
          }
          if cnt == need { return true, num, cnt, start; }
          num := num + 1;
        }
      }
    }

    // -------------------------------------------------------------------- the inodes

    method GetNewInode() returns (id: int)
      requires Ready() && IMAP < |disk|
      modifies this`disk, mkBuf
      ensures Ready()
      ensures var first := old(NewId(disk));
              if first < SECTOR_BITS then id == first && disk == MarkInode(old(disk), first)
              else id == -1 && disk == old(disk)
    {
      hide Bit;
      FsRead(IMAP, mkBuf);
      var num := 0;
      for i := 0 to SECTOR_SIZE
        invariant Ready() && disk == old(disk) && Buffer() == disk[IMAP] && num == 8 * i
        invariant forall m | 0 <= m < num :: SectorBit(disk[IMAP], m)
      {
        var tmp := mkBuf[i];
        for j := 0 to 8
          invariant Ready() && disk == old(disk) && Buffer() == disk[IMAP] && num == 8 * i + j && tmp == mkBuf[i]
          invariant forall m | 0 <= m < num :: SectorBit(disk[IMAP], m)
        {
          BufferBit(disk[IMAP], i, j);
          if !Bit(tmp, j) {
            tmp := SetByteBit(tmp, j);
            mkBuf[i] := tmp;
            FirstClearUnique(old(disk)[IMAP], num);
            assert Buffer() == SetSectorBit(old(disk)[IMAP], num);
            FsWrite(IMAP, mkBuf);
            return num;
          }
          num := num + 1;
        }
      }
      FirstClearUnique(disk[IMAP], num);
      id := -1;
    }

    /** Repaired: the offset is the record's place in its sector; see OffsetAsWrittenIff. */
    method UpdateInode(id: nat, n: Inode)
      requires Ready() && InodeSector(sb, id) < |disk|
      modifies this`disk, mkBuf
      ensures Ready() && disk == PutInode(sb, old(disk), id, n)
    {
      var sectorId := 1 + 1 + sb.imapSects + sb.smapSects + id / PER_SECTOR;
      FsRead(sectorId, mkBuf);
      PutRecord(id % PER_SECTOR, InodeBytes(n));
      FsWrite(sectorId, mkBuf);
    }

    /** Repaired in the same way. */
    method FindInode(id: nat) returns (n: Inode)
      requires Ready() && InodeSector(sb, id) < |disk|
      modifies mkBuf
      ensures Ready() && n == InodeAt(sb, disk, id)
    {
      var sectorId := 1 + 1 + sb.imapSects + sb.smapSects + id / PER_SECTOR;
      FsRead(sectorId, mkBuf);
      n := InodeOf(Slot(mkBuf[..], id % PER_SECTOR));
    }

    method ClearSector(start: nat, count: nat)
      requires Ready() && start + count <= |disk|
      modifies this`disk, mkBuf
      ensures Ready() && disk == ClearSectors(old(disk), start, count)
    {
      forall i | 0 <= i < SECTOR_SIZE { mkBuf[i] := 0; }
      assert Buffer() == Blank();
      for i := start to start + count
        invariant Ready() && Buffer() == Blank() && disk == ClearSectors(old(disk), start, i - start)
      {
        FsWrite(i, mkBuf);
      }
    }

    /** What `mk_inode` takes for granted: an inode and enough free sectors are left. */
    ghost predicate Room(size: nat)
      requires Ready()
      reads this
    {
      var c := size / SECTOR_SIZE;
      && IMAP < |disk| && HasMap(disk, sb.smapSects) && c > 0
      && NewId(disk) < SECTOR_BITS && InodeSector(sb, NewId(disk)) < |disk|
      && HasRun(disk, sb.smapSects, c)
      && FirstRun(disk, sb.smapSects, c) + c <= |disk|
    }

    /** The inode that `mk_inode` makes. */
    ghost function Made(size: word, mode: word, v: Reserved): Inode
      requires Ready() && Room(size)
      reads this
    {
      var c := size / SECTOR_SIZE;
      Inode(mode, size, FirstRun(disk, sb.smapSects, c), c, v)
    }

    /** `v` is what the stack holds where the source leaves fields unset. */
    method MkInode(size: word, mode: word, v: Reserved) returns (id: nat)
      requires Ready() && Room(size)
      modifies this`disk, mkBuf
      ensures Ready() && id == old(NewId(disk)) && id < SECTOR_BITS
      ensures var n := old(Made(size, mode, v));
              && n.count > 0 && SMAP + n.start / SECTOR_BITS + Rounds(n.count) <= |old(disk)|
              && disk == MakeInode(sb, old(disk), id, n)
    {
      hide IsFirstRun, UpdateMap, PutInode, ClearSectors;
      ghost var d0, n := disk, sb.smapSects;
      var newId := GetNewInode();
      id := newId;
      var sectNum := size / SECTOR_SIZE;
      FirstRunAfterMark(d0, id, n, sectNum);
      var found, start := InodeAllocSector(sectNum);
      FirstRunUnique(d0, n, sectNum, start, FirstRun(d0, n, sectNum));
      var inode := Inode(mode, size, start, sectNum, v);
      UpdateInode(id, inode);
      ClearSector(start, sectNum);
    }

    // --------------------------------------------------------------- the directories

    method AddDirEntry(dir: nat, e: Entry)
      requires Ready() && HasExtent(sb, disk, dir)
      modifies this`disk, mkBuf
      ensures Ready() && disk == AddEntry(sb, old(disk), dir, e)
    {
      hide EntryOf, Slot, PutSlot, EntryBytes, InodeAt;
      var inode := FindInode(dir);
      for i := 0 to inode.count
        invariant Ready() && disk == old(disk)
        invariant forall m | 0 <= m < PER_SECTOR * i :: EntryAt(disk, inode.start, m).inode != 0
      {
        FsRead(inode.start + i, mkBuf);
        for j := 0 to PER_SECTOR
          invariant Ready() && disk == old(disk) && Buffer() == disk[inode.start + i]
          invariant forall m | 0 <= m < PER_SECTOR * i + j :: EntryAt(disk, inode.start, m).inode != 0
        {
          EntryInBuffer(disk, inode.start, i, j);
          if EntryOf(Slot(mkBuf[..], j)).inode == 0 {
            FreeEntryUnique(disk, inode.start, inode.count, PER_SECTOR * i + j);
            PutRecord(j, EntryBytes(e));
            FsWrite(inode.start + i, mkBuf);
            return;
          }
        }
      }
      FreeEntryUnique(disk, inode.start, inode.count, PER_SECTOR * inode.count);
    }

    // -------------------------------------------------- files, folders, installation

    /** `mk_inode` on a disk that represents `f`. */
    method NewNode(size: word, mode: word, v: Reserved, ghost f: Files, ghost folder: bool) returns (id: nat)
      requires Ready() && Represents(sb, disk, f) && HasRoom(sb, f, size)
      modifies this`disk, mkBuf
      ensures Ready() && id == |f| && Represents(sb, disk, Created(f, NewInode(f, size, mode, v), folder))
      ensures OthersSpared(old(disk), disk, f, 0)
      ensures Top(f) + size / 512 <= |disk| && forall x | Top(f) <= x < Top(f) + size / 512 :: disk[x] == Blank()
    {
      hide Represents, HasRoom, MakeInode, IsFirstRun;
      ghost var d := disk;
      RoomInFiles(sb, d, f, size);
      FirstFreeId(sb, d, f);
      FirstRunUnique(d, sb.smapSects, size / SECTOR_SIZE, Top(f), FirstRun(d, sb.smapSects, size / SECTOR_SIZE));
      ghost var n := NewInode(f, size, mode, v);
      assert Made(size, mode, v) == n;
      id := MkInode(size, mode, v);
      MakeInodeRefines(sb, d, f, n, folder);
      MakeInodeSparesAll(sb, d, f, n);
      forall x | Top(f) <= x < Top(f) + size / 512 ensures disk[x] == Blank() { MakeInodeSectors(sb, d, f, n, x); }
    }

    /** `add_dir_entry` on a disk that represents `f`. */
    method AddTo(dir: nat, e: Entry, ghost f: Files)
      requires Ready() && Represents(sb, disk, f) && ROOT <= dir < |f| && f[dir].folder && e.inode != 0
      modifies this`disk, mkBuf
      ensures Ready() && Represents(sb, disk, Extended(f, dir, e)) && OthersSpared(old(disk), disk, f, dir)
    {
      hide Represents, AddEntry;
      ghost var d := disk;
      AddEntryRefines(sb, d, f, dir, e);
      AddDirEntry(dir, e);
      AddEntrySparesAll(sb, d, f, dir, e);
    }

    /** `stack` is what the name field of the entry on the stack holds. */
    method MkFile(name: seq<byte>, size: word, mode: word, dir: nat, v: Reserved, stack: Name, ghost f: Files)
      requires Ready() && Represents(sb, disk, f) && HasRoom(sb, f, size)
      requires |name| < NAME_SIZE && ROOT <= dir < |f| && f[dir].folder
      modifies this`disk, mkBuf
      ensures Ready() && Top(f) < WORD && Represents(sb, disk, FsImage.MkFile(f, name, size, mode, dir, v, stack))
      ensures OthersSpared(old(disk), disk, f, dir)
      ensures InodeSector(sb, |f|) < |disk|
      ensures var n := InodeAt(sb, disk, |f|);
              n.size == size && n.mode == mode && n.count == size / 512 && n.start == Top(f)
      ensures HasPlace(f, dir) ==>
                && f[dir].inode.start + |f[dir].entries| / PER_SECTOR < |disk|
                && var e := EntryAt(disk, f[dir].inode.start, |f[dir].entries|);
                   e.inode == |f| && e.kind == FS_TYPE_FILE && HoldsName(e.name, name)
      ensures Top(f) + size / 512 <= |disk| && forall x | Top(f) <= x < Top(f) + size / 512 :: disk[x] == Blank()
    {
      hide Represents, Extended, OthersSpared, InodeAt, EntryAt, HoldsName;
      RoomInFiles(sb, disk, f, size);
      ghost var n, d := NewInode(f, size, mode, v), disk;
      var id := NewNode(size, mode, v, f, false);
      ghost var d1 := disk;
      AddTo(dir, Entry(id, Named(stack, name), FS_TYPE_FILE), Created(f, n, false));
      SparedBut(d, d1, f, dir);
      SparedTwice(d, d1, disk, f, dir, Created(f, n, false), dir);
      MadeFileOnDisk(sb, disk, f, name, size, mode, dir, v, stack);
      NewSpared(d1, disk, Created(f, n, false), dir, |f|);
    }

    method MkDir(name: seq<byte>, mode: word, dir: nat, v: Reserved, stack: Name, ghost f: Files)
      requires Ready() && Represents(sb, disk, f) && HasRoom(sb, f, FOLDER_SIZE)
      requires |name| < NAME_SIZE && ROOT <= dir < |f| && f[dir].folder
      modifies this`disk, mkBuf
      ensures Ready() && Top(f) < WORD && Represents(sb, disk, FsImage.MkDir(f, name, mode, dir, v, stack))
      ensures OthersSpared(old(disk), disk, f, dir)
      ensures InodeSector(sb, |f|) < |disk| && Top(f) < |disk|
      ensures var n := InodeAt(sb, disk, |f|);
              n.size == 1024 && n.mode == mode && n.count == 2 && n.start == Top(f)
      ensures var e := EntryAt(disk, Top(f), 0);
              e.inode == |f| && e.kind == FS_TYPE_FOLDER && HoldsName(e.name, ['.' as byte])
      ensures var e := EntryAt(disk, Top(f), 1);
              e.inode == dir && e.kind == FS_TYPE_FOLDER && HoldsName(e.name, ['.' as byte, '.' as byte])
      ensures HasPlace(f, dir) ==>
                && f[dir].inode.start + |f[dir].entries| / PER_SECTOR < |disk|
                && var e := EntryAt(disk, f[dir].inode.start, |f[dir].entries|);
                   e.inode == |f| && e.kind == FS_TYPE_FOLDER && HoldsName(e.name, name)
    {
      hide Represents, Extended, Named, OthersSpared, InodeAt, EntryAt, HoldsName;
      RoomInFiles(sb, disk, f, FOLDER_SIZE);
      ghost var f1, d := Created(f, NewInode(f, FOLDER_SIZE, mode, v), true), disk;
      var id := NewNode(FOLDER_SIZE, mode, v, f, true);
      var entry := Entry(id, Named(stack, name), FS_TYPE_FOLDER);
      ghost var d1 := disk;
      AddTo(dir, entry, f1);
      SparedBut(d, d1, f, dir);
      SparedTwice(d, d1, disk, f, dir, f1, dir);
      ghost var f2, d2 := Extended(f1, dir, entry), disk;
      ExtendedKeeps(f1, dir, entry);
      entry := entry.(name := Named(entry.name, DOT()));
      AddTo(id, entry, f2);
      SparedTwice(d, d2, disk, f, dir, f2, id);
      ghost var f3, d3 := Extended(f2, id, entry), disk;
      ExtendedKeeps(f2, id, entry);
      entry := entry.(name := Named(entry.name, DOTDOT()), inode := dir);
      AddTo(id, entry, f3);
      SparedTwice(d, d3, disk, f, dir, f3, id);
      MadeFolderOnDisk(sb, disk, f, name, mode, dir, v, stack);
    }

    /** `mkfs` where it works, see InstallIff; `super` is what its first write puts into sector 1. */
    method Mkfs(super: Sector, v: Reserved, stack: Name)
      requires Ready()
      requires var first := 1 + 1 + 1 + (|disk| / SECTOR_BITS + 1) + 256;
               first + 2 <= |disk| && first <= SECTOR_BITS && first != SECTOR_BITS - 1
      modifies this, mkBuf, fsBuf
      ensures Ready() && Formatted(sb, disk) && Represents(sb, disk, Fresh(sb, v, stack)) && |disk| == |old(disk)|
      ensures InodeSector(sb, 1) < |disk| && sb.firstData < |disk|
      ensures var n := InodeAt(sb, disk, 1); n.size == 1024 && n.mode == 0 && n.count == 2 && n.start == sb.firstData
      ensures var e := EntryAt(disk, sb.firstData, 0);
              e.inode == 1 && e.kind == FS_TYPE_FOLDER && HoldsName(e.name, ['.' as byte])
    {
      hide Represents, HasRoom, IsFirstRun, UpdateMap, SetSectorBit, InodeAt, EntryAt, HoldsName;
      var smap := |disk| / SECTOR_BITS + 1;
      sb := Super(|disk|, 1, smap, INODE_MAX * RECORD / SECTOR_SIZE, 1 + 1 + 1 + smap + 256, ROOT);
      disk := disk[1 := super];
      ghost var d := disk;
      BlankBuffer();
      fsBuf[0] := SetByteBit(fsBuf[0], 0);
      assert fsBuf[..] == SetSectorBit(Blank(), 0) by { FirstBit(); }
      FsWrite(IMAP, fsBuf);
      assert disk == d[IMAP := SetSectorBit(Blank(), 0)];
      BlankBuffer();
      WriteBlank(SMAP, smap);
      assert disk == ClearSectors(d[IMAP := SetSectorBit(Blank(), 0)], SMAP, sb.smapSects);
      var _ := UpdateSectorMap(0, sb.firstData);
      BlankBuffer();
      WriteBlank(SMAP + smap, sb.inodeSects);
      assert disk == Wiped(sb, d);
      WipedRepresents(sb, d);
      ghost var f0 := [Metadata(sb)];
      FreshRoom(sb);
      var id := NewNode(FOLDER_SIZE, 0, v, f0, true);
      ghost var f1 := Created(f0, NewInode(f0, FOLDER_SIZE, 0, v), true);
      FreshIsTree(sb, v, stack);
      AddTo(id, Entry(id, Named(stack, DOT()), FS_TYPE_FOLDER), f1);
      LayoutOf(sb, disk, Fresh(sb, v, stack));
      RootOnDisk(sb, disk, v, stack);
    }

    /** `memset` of the buffer of fs/fs.c. */
    method BlankBuffer()
      requires Ready()
      modifies fsBuf
      ensures Ready() && fsBuf[..] == Blank()
    {
      forall i | 0 <= i < SECTOR_SIZE { fsBuf[i] := 0; }
    }

    method WriteBlank(start: nat, count: nat)
      requires Ready() && start + count <= |disk| && fsBuf[..] == Blank()
      modifies this`disk
      ensures Ready() && disk == ClearSectors(old(disk), start, count)
    {
      for i := start to start + count
        invariant Ready() && disk == ClearSectors(old(disk), start, i - start)
      {
        FsWrite(i, fsBuf);
      }
    }

    /** `get_dir_entries`: the sectors of a folder, which is what its reader gets. */
    method GetDirEntries(dir: nat) returns (out: seq<Sector>)
      requires Ready() && HasExtent(sb, disk, dir)
      modifies mkBuf
      ensures Ready()
      ensures var n := InodeAt(sb, disk, dir);
              |out| == n.count && forall i | 0 <= i < |out| :: out[i] == disk[n.start + i]
    {
      hide InodeAt;
      var inode := FindInode(dir);
      out := [];
      for i := 0 to inode.count
        invariant Ready() && |out| == i && forall k | 0 <= k < i :: out[k] == disk[inode.start + k]
      {
        FsRead(inode.start + i, mkBuf);
        out := out + [mkBuf[..]];
      }
    }
  }

  // -------------------------------------------------------------------------- helpers

  /** How much of a count is left when marking from bit `lo` has come to bit `q`. */
  function Left(cnt0: nat, lo: nat, q: nat): int {
    cnt0 - if q > lo then q - lo else 0
  }

  lemma NoBits(s: Sector, lo: nat, hi: nat)
    requires hi <= lo && hi <= SECTOR_BITS
    ensures SetBits(s, lo, hi) == s
  {
  }

  lemma OneMoreBit(s: Sector, lo: nat, j: nat, k: nat)
    requires j < SECTOR_SIZE && k < 8
    ensures SetBits(s, lo, 8 * j + k + 1) ==
            if 8 * j + k < lo then SetBits(s, lo, 8 * j + k)
            else var b := SetBits(s, lo, 8 * j + k); b[j := SetByteBit(b[j], k)]
  {
    assert (8 * j + k) / 8 == j && (8 * j + k) % 8 == k;
    if 8 * j + k < lo {
      NoBits(s, lo, 8 * j + k + 1);
      NoBits(s, lo, 8 * j + k);
    }
  }

  lemma MapBitAt(d: Disk, i: nat, j: nat, k: nat)
    requires SMAP <= i < |d| && j < SECTOR_SIZE && k < 8
    ensures var num := SECTOR_BITS * (i - SMAP) + 8 * j + k;
            SMAP + num / SECTOR_BITS == i && (MapBit(d, num) <==> Bit(d[i][j], k))
  {
    var q := 8 * j + k;
    assert q / 8 == j && q % 8 == k;
    var num := SECTOR_BITS * (i - SMAP) + q;
    assert num / SECTOR_BITS == i - SMAP && num % SECTOR_BITS == q;
  }

  lemma ScanNothing(d: Disk, n: nat, need: nat)
    requires HasMap(d, n) && need > 0
    ensures Scanned(d, n, need, 0, 0, 0)
  {
  }

  lemma ScanBound(d: Disk, n: nat, need: nat, num: nat, cnt: nat, start: nat)
    requires HasMap(d, n) && Scanned(d, n, need, num, cnt, start)
    ensures cnt <= num <= SECTOR_BITS * n && cnt < need && (cnt > 0 ==> start == num - cnt)
  {
  }

  lemma RunFits(d: Disk, n: nat, c: nat, s: nat)
    requires HasMap(d, n) && c > 0 && IsFirstRun(d, n, c, s)
    ensures SMAP + s / SECTOR_BITS + Rounds(c) <= |d| && HasRun(d, n, c)
  {
    RoundsFit(d, n, s, c);
  }

  lemma BufferBit(s: Sector, i: nat, j: nat)
    requires i < SECTOR_SIZE && j < 8
    ensures SectorBit(s, 8 * i + j) <==> Bit(s[i], j)
    ensures (8 * i + j) / 8 == i && (8 * i + j) % 8 == j
  {
  }

  lemma FirstClearUnique(s: Sector, i: nat)
    requires i <= SECTOR_BITS && (i < SECTOR_BITS ==> !SectorBit(s, i)) && forall j | 0 <= j < i :: SectorBit(s, j)
    ensures i == FirstClear(s, 0)
  {
  }

  lemma FirstRunAfterMark(d: Disk, id: nat, n: nat, c: nat)
    requires IMAP < |d| && id < SECTOR_BITS && HasMap(d, n) && HasRun(d, n, c)
    ensures HasMap(MarkInode(d, id), n) && HasRun(MarkInode(d, id), n, c)
    ensures forall s: nat :: IsFirstRun(MarkInode(d, id), n, c, s) ==> IsFirstRun(d, n, c, s)
  {
    var s := FirstRun(d, n, c);
    MarkInodeKeepsRuns(d, id, n, c, s);
    assert ClearRun(MarkInode(d, id), n, s, c);
    forall t: nat ensures IsFirstRun(MarkInode(d, id), n, c, t) ==> IsFirstRun(d, n, c, t) {
      MarkInodeKeepsRuns(d, id, n, c, t);
    }
  }

  lemma EntryInBuffer(d: Disk, start: nat, i: nat, j: nat)
    requires start + i < |d| && j < PER_SECTOR
    ensures var k := PER_SECTOR * i + j;
            && start + k / PER_SECTOR == start + i && k % PER_SECTOR == j
            && EntryAt(d, start, k) == EntryOf(Slot(d[start + i], j))
  {
  }

  lemma RoomInFiles(g: Super, d: Disk, f: Files, size: nat)
    requires Represents(g, d, f) && HasRoom(g, f, size)
    ensures var c := size / SECTOR_SIZE;
            && IMAP < |d| && HasMap(d, g.smapSects) && c > 0
            && 0 < |f| && NewId(d) == |f| < SECTOR_BITS && InodeSector(g, |f|) < |d|
            && HasRun(d, g.smapSects, c) && IsFirstRun(d, g.smapSects, c, Top(f)) && Top(f) + c <= |d|
            && !Crosses(Top(f), c) && |d| == g.sectNum < WORD
  {
    LayoutOf(g, d, f);
    FirstFreeId(g, d, f);
    TopIsFirstRun(g, d, f, size / SECTOR_SIZE);
  }

  /** The extent of another node is as it was. */
  lemma NewSpared(d: Disk, r: Disk, f: Files, dir: nat, id: nat)
    requires OthersSpared(d, r, f, dir) && ROOT <= id < |f| && id != dir
    ensures |r| == |d| && EndOf(f[id]) <= |d| && forall x | f[id].inode.start <= x < EndOf(f[id]) :: r[x] == d[x]
  {
    assert Spared(d, r, f[id].inode);
  }

  lemma SparedBut(d: Disk, r: Disk, f: Files, dir: nat)
    requires OthersSpared(d, r, f, 0)
    ensures OthersSpared(d, r, f, dir)
  {
    forall j | ROOT <= j < |f| ensures Spared(d, r, f[j].inode) {}
  }

  lemma ExtendedKeeps(f: Files, dir: nat, e: Entry)
    requires dir < |f|
    ensures |Extended(f, dir, e)| == |f|
    ensures forall id | 0 <= id < |f| ::
              Extended(f, dir, e)[id].folder == f[id].folder && Extended(f, dir, e)[id].inode == f[id].inode
  {
  }

  lemma FirstBit()
    ensures SetSectorBit(Blank(), 0) == Blank()[0 := SetByteBit(0, 0)]
  {
  }

  lemma FreshRoom(g: Super)
    requires g.firstData + 2 <= g.sectNum < WORD && 0 < g.firstData <= SECTOR_BITS && g.firstData != SECTOR_BITS - 1
    ensures HasRoom(g, [Metadata(g)], FOLDER_SIZE)
  {
  }

  /** What a listing of a folder shows: its entries in order, and then only empty records. */
  lemma ListingShows(g: Super, d: Disk, f: Files, dir: nat, out: seq<Sector>, k: nat)
    requires Represents(g, d, f) && ROOT <= dir < |f| && f[dir].folder
    requires |out| == f[dir].inode.count && k < PER_SECTOR * |out|
    requires EndOf(f[dir]) <= |d| && forall i | 0 <= i < |out| :: out[i] == d[f[dir].inode.start + i]
    ensures InodeSector(g, dir) < |d| && InodeAt(g, d, dir) == f[dir].inode
    ensures var e := EntryOf(Slot(out[k / PER_SECTOR], k % PER_SECTOR));
            if k < |f[dir].entries| then e == f[dir].entries[k] && e.inode != 0 else e.inode == 0
  {
    hide EntryOf, Slot, InodeAt, MapBit, SectorBit;
    LayoutOf(g, d, f);
    assert Holds(d, f[dir]);
    assert InodeAt(g, d, dir) == f[dir].inode;
    assert out[k / PER_SECTOR] == d[f[dir].inode.start + k / PER_SECTOR];
    assert EntryAt(d, f[dir].inode.start, k) == EntryOf(Slot(out[k / PER_SECTOR], k % PER_SECTOR));
  }
}
