/**
 What the routines of fs/mk.c do to the disk, as functions from disk to disk, and what that means
 bit by bit and record by record.
 */
module FsSpec {
  import opened FsBytes
  import opened Words

  type Disk = seq<Sector>

  const IMAP := 2            // the sector of the inode map
  const SMAP := 3            // the first sector of the sector map
  const FOLDER_SIZE := 1024
  const INODE_MAX := 4096
  const FS_TYPE_FILE := 1
  const FS_TYPE_FOLDER := 2

  /** The fields of super_block_t that the routines use. */
  datatype Super = Super(sectNum: nat, imapSects: nat, smapSects: nat, inodeSects: nat, firstData: nat, root: nat)

  // ------------------------------------------------------------------- the sector map

  /** The disk holds a sector map of `n` sectors. */
  predicate HasMap(d: Disk, n: nat) {
    SMAP + n <= |d|
  }

  predicate MapBit(d: Disk, i: nat)
    requires SMAP + i / SECTOR_BITS < |d|
  {
    SectorBit(d[SMAP + i / SECTOR_BITS], i % SECTOR_BITS)
  }

  /** Where the bit of a sector lies on the disk: eight to a byte, 4096 to a sector, from sector 3 on. */
  lemma MapBitPlace(d: Disk, i: nat)
    requires SMAP + i / SECTOR_BITS < |d|
    ensures Pow2(i % 8) > 0 && 3 + i / 4096 < |d|
    ensures MapBit(d, i) <==> d[3 + i / 4096][i % 4096 / 8] / Pow2(i % 8) % 2 == 1
  {
    hide SectorBit, Pow2;
    SectorBitIs(d[SMAP + i / SECTOR_BITS], i % SECTOR_BITS);
    BitInByte(i);
  }

  lemma RemainderOf8(i: nat, q: nat, r: nat)
    requires i == 8 * q + r && r < 8
    ensures i % 8 == r
  {
  }

  lemma BitInByte(i: nat)
    ensures i % SECTOR_BITS % 8 == i % 8
  {
    var x, y := i / SECTOR_BITS, i % SECTOR_BITS;
    RemainderOf8(i, 512 * x + y / 8, y % 8);
  }

  /** Sectors s..s+c are free. */
  ghost predicate ClearRun(d: Disk, n: nat, s: nat, c: nat)
    requires HasMap(d, n) && s + c <= SECTOR_BITS * n
  {
    forall i | s <= i < s + c :: !MapBit(d, i)
  }

  /** `s` starts the lowest free run of `c` sectors. */
  ghost predicate IsFirstRun(d: Disk, n: nat, c: nat, s: nat)
    requires HasMap(d, n)
  {
    s + c <= SECTOR_BITS * n && ClearRun(d, n, s, c) && forall t: nat | t < s :: !ClearRun(d, n, t, c)
  }

  ghost predicate HasRun(d: Disk, n: nat, c: nat)
    requires HasMap(d, n)
  {
    exists s: nat | s + c <= SECTOR_BITS * n :: ClearRun(d, n, s, c)
  }

  ghost function FirstRun(d: Disk, n: nat, c: nat): (s: nat)
    requires HasMap(d, n) && HasRun(d, n, c)
    ensures IsFirstRun(d, n, c, s)
  {
    var s: nat :| s + c <= SECTOR_BITS * n && ClearRun(d, n, s, c);
    FirstRunFrom(d, n, c, 0, s)
  }

  ghost function FirstRunFrom(d: Disk, n: nat, c: nat, lo: nat, hi: nat): (s: nat)
    requires HasMap(d, n) && lo <= hi && hi + c <= SECTOR_BITS * n && ClearRun(d, n, hi, c)
    requires forall t: nat | t < lo :: !ClearRun(d, n, t, c)
    ensures IsFirstRun(d, n, c, s)
    decreases hi - lo
  {
    if ClearRun(d, n, lo, c) then lo else FirstRunFrom(d, n, c, lo + 1, hi)
  }

  lemma FirstRunUnique(d: Disk, n: nat, c: nat, s: nat, t: nat)
    requires HasMap(d, n) && IsFirstRun(d, n, c, s) && IsFirstRun(d, n, c, t)
    ensures s == t
  {
  }

  /** The run does not lie within one sector of the map. */
  predicate Crosses(start: nat, count: nat) {
    start % SECTOR_BITS + count > SECTOR_BITS
  }

  /** How many sectors of the map `update_sector_map` goes through, as it computes it. */
  function Rounds(count: nat): nat
    requires count > 0
  {
    (count - 1) / SECTOR_BITS + 1
  }

  /**
   `update_sector_map`: it writes back only the sector in which its count runs out, and no sector
   at all when that lies beyond the sectors it goes through.
   */
  function UpdateMap(d: Disk, start: nat, count: nat): (r: Disk)
    requires count > 0 && SMAP + start / SECTOR_BITS + Rounds(count) <= |d|
    ensures |r| == |d|
  {
    var first, lo := SMAP + start / SECTOR_BITS, start % SECTOR_BITS;
    var last := (lo + count - 1) / SECTOR_BITS;
    if last < Rounds(count) then
      d[first + last := SetBits(d[first + last], if last == 0 then lo else 0, (lo + count - 1) % SECTOR_BITS + 1)]
    else d
  }

  /** `r` is `d` with exactly the map bits of the run set and nothing else changed on the disk. */
  ghost predicate MapMarked(d: Disk, r: Disk, n: nat, start: nat, count: nat)
    requires HasMap(d, n)
  {
    && |r| == |d|
    && (forall i: nat | i < SECTOR_BITS * n :: MapBit(r, i) <==> MapBit(d, i) || start <= i < start + count)
    && (forall x | 0 <= x < |d| && !(SMAP <= x < SMAP + n) :: r[x] == d[x])
  }

  lemma RoundsFit(d: Disk, n: nat, start: nat, count: nat)
    requires HasMap(d, n) && count > 0 && start + count <= SECTOR_BITS * n
    ensures SMAP + start / SECTOR_BITS + Rounds(count) <= |d|
  {
  }

  lemma WithinOneSector(d: Disk, start: nat, count: nat)
    requires count > 0 && SMAP + start / SECTOR_BITS + Rounds(count) <= |d| && !Crosses(start, count)
    ensures var x, lo := SMAP + start / SECTOR_BITS, start % SECTOR_BITS;
            UpdateMap(d, start, count) == d[x := SetBits(d[x], lo, lo + count)]
  {
  }

  lemma UpdateMapAt(d: Disk, n: nat, start: nat, count: nat, i: nat)
    requires HasMap(d, n) && count > 0 && start + count <= SECTOR_BITS * n && !Crosses(start, count)
    requires i < SECTOR_BITS * n
    ensures SMAP + start / SECTOR_BITS + Rounds(count) <= |d|
    ensures MapBit(UpdateMap(d, start, count), i) <==> MapBit(d, i) || start <= i < start + count
  {
    hide SectorBit, UpdateMap;
    RoundsFit(d, n, start, count);
    WithinOneSector(d, start, count);
    var x, lo := SMAP + start / SECTOR_BITS, start % SECTOR_BITS;
    SetBitsAt(d[x], lo, lo + count, i % SECTOR_BITS);
  }

  /** A run that crosses into another sector of the map leaves the bit of its first sector alone. */
  lemma CrossingLeavesStart(d: Disk, n: nat, start: nat, count: nat)
    requires HasMap(d, n) && count > 0 && start + count <= SECTOR_BITS * n && Crosses(start, count)
    ensures SMAP + start / SECTOR_BITS + Rounds(count) <= |d|
    ensures MapBit(UpdateMap(d, start, count), start) <==> MapBit(d, start)
  {
    RoundsFit(d, n, start, count);
    assert (start % SECTOR_BITS + count - 1) / SECTOR_BITS >= 1;
  }

  /** Marking a free run is exact if and only if it lies within one sector of the map. */
  lemma UpdateMapExactIff(d: Disk, n: nat, start: nat, count: nat)
    requires HasMap(d, n) && count > 0 && start + count <= SECTOR_BITS * n && ClearRun(d, n, start, count)
    ensures SMAP + start / SECTOR_BITS + Rounds(count) <= |d|
    ensures MapMarked(d, UpdateMap(d, start, count), n, start, count) <==> !Crosses(start, count)
  {
    hide MapBit;
    RoundsFit(d, n, start, count);
    if Crosses(start, count) {
      CrossingLeavesStart(d, n, start, count);
      assert !MapBit(d, start);
    } else {
      WithinOneSector(d, start, count);
      forall i: nat | i < SECTOR_BITS * n
        ensures MapBit(UpdateMap(d, start, count), i) <==> MapBit(d, i) || start <= i < start + count
      {
        UpdateMapAt(d, n, start, count, i);
      }
    }
  }

  /**
   A crossing run of at most 4096 sectors is not marked at all, so the next request of the same
   size is given the same sectors again.
   */
  lemma CrossingRunGivenTwice(d: Disk, n: nat, start: nat, count: nat)
    requires HasMap(d, n) && 0 < count <= SECTOR_BITS && Crosses(start, count) && IsFirstRun(d, n, count, start)
    ensures SMAP + start / SECTOR_BITS + Rounds(count) <= |d|
    ensures UpdateMap(d, start, count) == d
    ensures IsFirstRun(UpdateMap(d, start, count), n, count, start)
  {
    RoundsFit(d, n, start, count);
    assert (start % SECTOR_BITS + count - 1) / SECTOR_BITS >= 1;
  }

  // ------------------------------------------------------------------------ the inodes

  function InodeBase(g: Super): nat {
    1 + 1 + g.imapSects + g.smapSects
  }

  function InodeSector(g: Super, id: nat): nat {
    InodeBase(g) + id / PER_SECTOR
  }

  /** `find_inode` */
  function InodeAt(g: Super, d: Disk, id: nat): Inode
    requires InodeSector(g, id) < |d|
  {
    InodeOf(Slot(d[InodeSector(g, id)], id % PER_SECTOR))
  }

  /** `update_inode` */
  function PutInode(g: Super, d: Disk, id: nat, n: Inode): (r: Disk)
    requires InodeSector(g, id) < |d|
    ensures |r| == |d|
  {
    var x := InodeSector(g, id);
    d[x := PutSlot(d[x], id % PER_SECTOR, InodeBytes(n))]
  }

  /** Where inode `id` lies on the disk: 16 to a sector, behind the maps, 32 bytes each. */
  lemma InodePlace(g: Super, d: Disk, id: nat)
    requires InodeSector(g, id) < |d|
    ensures 1 + 1 + g.imapSects + g.smapSects + id / 16 < |d|
    ensures var s, o := d[1 + 1 + g.imapSects + g.smapSects + id / 16], 32 * (id % 16);
            && InodeAt(g, d, id).mode == WordAt(s, o) && InodeAt(g, d, id).size == WordAt(s, o + 4)
            && InodeAt(g, d, id).start == WordAt(s, o + 8) && InodeAt(g, d, id).count == WordAt(s, o + 12)
  {
  }

  /** Storing an inode changes what is read of that inode and of no other. */
  lemma PutInodeAt(g: Super, d: Disk, id: nat, n: Inode, j: nat)
    requires InodeSector(g, id) < |d| && InodeSector(g, j) < |d|
    ensures InodeAt(g, PutInode(g, d, id, n), j) == if j == id then n else InodeAt(g, d, j)
  {
    hide InodeOf, InodeBytes, Slot, PutSlot;
    var x := InodeSector(g, id);
    if InodeSector(g, j) == x {
      SlotOfPut(d[x], id % PER_SECTOR, InodeBytes(n), j % PER_SECTOR);
      InodeRoundTrip(n);
      assert j % PER_SECTOR == id % PER_SECTOR ==> j == id;
    }
  }

  /** The offset in its sector that `update_inode` and `find_inode` compute for an inode. */
  function OffsetAsWritten(id: nat): int {
    (id - id / PER_SECTOR * RECORD) * RECORD
  }

  /** It is the place of the inode exactly for the first 16 inodes; all others lie before the buffer. */
  lemma OffsetAsWrittenIff(id: nat)
    ensures OffsetAsWritten(id) == id % PER_SECTOR * RECORD <==> id < PER_SECTOR
    ensures OffsetAsWritten(id) < 0 <==> id >= PER_SECTOR
  {
    assert id == id / PER_SECTOR * PER_SECTOR + id % PER_SECTOR;
  }

  // --------------------------------------------------------------------- the directories

  /** Entry `k` of the directory that starts at sector `start`. */
  function EntryAt(d: Disk, start: nat, k: nat): Entry
    requires start + k / PER_SECTOR < |d|
  {
    EntryOf(Slot(d[start + k / PER_SECTOR], k % PER_SECTOR))
  }

  /** Where entry `k` lies on the disk: 16 to a sector, 32 bytes each. */
  lemma EntryPlace(d: Disk, start: nat, k: nat)
    requires start + k / PER_SECTOR < |d|
    ensures var s, o := d[start + k / 16], 32 * (k % 16);
            && EntryAt(d, start, k).inode == WordAt(s, o)
            && EntryAt(d, start, k).name == s[o + 4..o + 28]
            && EntryAt(d, start, k).kind == WordAt(s, o + 28)
  {
  }

  /** The first entry at or after `from` whose inode is 0, or the number of entries. */
  function FreeEntry(d: Disk, start: nat, count: nat, from: nat): (k: nat)
    requires start + count <= |d| && from <= PER_SECTOR * count
    ensures from <= k <= PER_SECTOR * count
    ensures k < PER_SECTOR * count ==> EntryAt(d, start, k).inode == 0
    ensures forall j | from <= j < k :: EntryAt(d, start, j).inode != 0
    decreases PER_SECTOR * count - from
  {
    if from == PER_SECTOR * count || EntryAt(d, start, from).inode == 0 then from
    else FreeEntry(d, start, count, from + 1)
  }

  lemma FreeEntryUnique(d: Disk, start: nat, count: nat, k: nat)
    requires start + count <= |d| && k <= PER_SECTOR * count
    requires k < PER_SECTOR * count ==> EntryAt(d, start, k).inode == 0
    requires forall j | 0 <= j < k :: EntryAt(d, start, j).inode != 0
    ensures k == FreeEntry(d, start, count, 0)
  {
  }

  function PutEntry(d: Disk, start: nat, k: nat, e: Entry): (r: Disk)
    requires start + k / PER_SECTOR < |d|
    ensures |r| == |d|
  {
    var x := start + k / PER_SECTOR;
    d[x := PutSlot(d[x], k % PER_SECTOR, EntryBytes(e))]
  }

  lemma PutEntryAt(d: Disk, start: nat, k: nat, e: Entry, j: nat)
    requires start + k / PER_SECTOR < |d| && start + j / PER_SECTOR < |d|
    ensures EntryAt(PutEntry(d, start, k, e), start, j) == if j == k then e else EntryAt(d, start, j)
  {
    hide EntryOf, EntryBytes, Slot, PutSlot;
    var x := start + k / PER_SECTOR;
    if start + j / PER_SECTOR == x {
      SlotOfPut(d[x], k % PER_SECTOR, EntryBytes(e), j % PER_SECTOR);
      EntryRoundTrip(e);
      assert j % PER_SECTOR == k % PER_SECTOR ==> j == k;
    }
  }

  predicate HasExtent(g: Super, d: Disk, id: nat) {
    InodeSector(g, id) < |d| && InodeAt(g, d, id).start + InodeAt(g, d, id).count <= |d|
  }

  /** `add_dir_entry`: into the first empty entry; a full directory is silently left as it is. */
  function AddEntry(g: Super, d: Disk, dir: nat, e: Entry): (r: Disk)
    requires HasExtent(g, d, dir)
    ensures |r| == |d|
  {
    var n := InodeAt(g, d, dir);
    var k := FreeEntry(d, n.start, n.count, 0);
    if k < PER_SECTOR * n.count then PutEntry(d, n.start, k, e) else d
  }

  // ------------------------------------------------------------------------- new inodes

  /** `clear_sector` */
  function ClearSectors(d: Disk, start: nat, count: nat): (r: Disk)
    ensures |r| == |d|
    ensures forall x | 0 <= x < |d| :: r[x] == if start <= x < start + count then Blank() else d[x]
  {
    seq<Sector>(|d|, x requires 0 <= x < |d| => Cleared(d[x], start <= x < start + count))
  }

  function Cleared(s: Sector, clear: bool): Sector {
    if clear then Blank() else s
  }

  /** `get_new_inode`, when an inode is free. */
  function MarkInode(d: Disk, id: nat): (r: Disk)
    requires IMAP < |d| && id < SECTOR_BITS
    ensures |r| == |d|
  {
    d[IMAP := SetSectorBit(d[IMAP], id)]
  }

  function NewId(d: Disk): (id: nat)
    requires IMAP < |d|
    ensures id <= SECTOR_BITS
  {
    FirstClear(d[IMAP], 0)
  }

  /** `mk_inode` of `count` sectors at `start`; `v` is what the stack holds. */
  function MakeInode(g: Super, d: Disk, id: nat, n: Inode): (r: Disk)
    requires IMAP < |d| && id < SECTOR_BITS && InodeSector(g, id) < |d|
    requires n.count > 0 && SMAP + n.start / SECTOR_BITS + Rounds(n.count) <= |d|
    ensures |r| == |d|
  {
    ClearSectors(PutInode(g, UpdateMap(MarkInode(d, id), n.start, n.count), id, n), n.start, n.count)
  }

  /** Taking an inode does not touch the sector map. */
  lemma MarkInodeKeepsRuns(d: Disk, id: nat, n: nat, c: nat, s: nat)
    requires IMAP < |d| && id < SECTOR_BITS && HasMap(d, n)
    ensures IsFirstRun(MarkInode(d, id), n, c, s) <==> IsFirstRun(d, n, c, s)
  {
    var r := MarkInode(d, id);
    forall t: nat | t + c <= SECTOR_BITS * n ensures ClearRun(r, n, t, c) <==> ClearRun(d, n, t, c) {
      ClearRunDepends(d, r, n, t, c);
    }
  }

  lemma ClearRunDepends(d: Disk, r: Disk, n: nat, s: nat, c: nat)
    requires HasMap(d, n) && HasMap(r, n) && s + c <= SECTOR_BITS * n
    requires forall x | SMAP <= x < SMAP + n :: r[x] == d[x]
    ensures ClearRun(r, n, s, c) <==> ClearRun(d, n, s, c)
  {
    hide SectorBit;
    forall i | s <= i < s + c ensures MapBit(r, i) <==> MapBit(d, i) {}
  }

  // --------------------------------------------------------------- the search, bit by bit

  /**
   What the search for a run of `need` sectors knows after `num` bits: the last `cnt` of them are
   clear and the bit before those is set, and no run of `need` sectors ends among them.
   */
  ghost predicate Scanned(d: Disk, n: nat, need: nat, num: nat, cnt: nat, start: nat)
    requires HasMap(d, n)
  {
    && cnt <= num <= SECTOR_BITS * n && cnt < need
    && (cnt > 0 ==> start == num - cnt)
    && ClearRun(d, n, num - cnt, cnt)
    && (num > cnt ==> MapBit(d, num - cnt - 1))
    && (forall t: nat | t + need <= num :: !ClearRun(d, n, t, need))
  }

  lemma ScanSetBit(d: Disk, n: nat, need: nat, num: nat, cnt: nat, start: nat)
    requires HasMap(d, n) && num < SECTOR_BITS * n && Scanned(d, n, need, num, cnt, start) && MapBit(d, num)
    ensures Scanned(d, n, need, num + 1, 0, start)
  {
    hide MapBit;
    forall t: nat | t + need <= num + 1 ensures !ClearRun(d, n, t, need) {
      if t + need == num + 1 { assert t <= num < t + need; }
    }
  }

  lemma ScanClearBit(d: Disk, n: nat, need: nat, num: nat, cnt: nat, start: nat)
    requires HasMap(d, n) && num < SECTOR_BITS * n && Scanned(d, n, need, num, cnt, start) && !MapBit(d, num)
    ensures cnt + 1 < need ==> Scanned(d, n, need, num + 1, cnt + 1, num - cnt)
    ensures cnt + 1 == need ==> IsFirstRun(d, n, need, num - cnt)
  {
    hide MapBit;
    assert ClearRun(d, n, num - cnt, cnt + 1);
    if cnt + 1 < need {
      forall t: nat | t + need <= num + 1 ensures !ClearRun(d, n, t, need) {
        if t + need == num + 1 { assert t <= num - cnt - 1 < t + need && MapBit(d, num - cnt - 1); }
      }
    }
  }

  lemma ScanNone(d: Disk, n: nat, need: nat, cnt: nat, start: nat)
    requires HasMap(d, n) && Scanned(d, n, need, SECTOR_BITS * n, cnt, start)
    ensures !HasRun(d, n, need)
  {
  }
}
