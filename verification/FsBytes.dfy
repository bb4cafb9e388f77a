/**
 What lies in one sector of the disk (include/fs.h): bitmaps, and 32-byte records that are either
 inodes or directory entries. Bytes are numbers below 256; words are little-endian.
 */
module FsBytes {
  import opened Words

  const SECTOR_SIZE := 512
  const SECTOR_BITS := 4096
  const RECORD := 32        // sizeof(inode_t), sizeof(dir_entry_t)
  const PER_SECTOR := 16    // records in a sector
  const NAME_SIZE := 24     // MAX_FILENAME

  type byte = x: nat | x < 256
  type Sector = s: seq<byte> | |s| == SECTOR_SIZE witness seq(SECTOR_SIZE, _ => 0)
  type Record = s: seq<byte> | |s| == RECORD witness seq(RECORD, _ => 0)

  // ------------------------------------------------------------------------------- bits

  /** `b & (1 << k)` */
  predicate Bit(b: nat, k: nat)
    decreases k
  {
    if k == 0 then b % 2 == 1 else Bit(b / 2, k - 1)
  }

  /** `b | (1 << k)` */
  function WithBit(b: nat, k: nat): nat
    decreases k
  {
    if k == 0 then b / 2 * 2 + 1 else WithBit(b / 2, k - 1) * 2 + b % 2
  }

  /** Bit `k` is the digit of weight 2^k. */
  lemma {:induction false} BitIs(b: nat, k: nat)
    ensures Pow2(k) > 0 && (Bit(b, k) <==> b / Pow2(k) % 2 == 1)
    decreases k
  {
    if k > 0 {
      BitIs(b / 2, k - 1);
      DivideTwice(b, Pow2(k - 1));
    }
  }

  lemma DivideTwice(b: nat, p: nat)
    requires p > 0
    ensures b / 2 / p == b / (2 * p)
  {
    var q, r := b / 2 / p, b / 2 % p;
    assert b / 2 == q * p + r;
    assert b == q * (2 * p) + (2 * r + b % 2);
    QuotientIs(b, 2 * p, q, 2 * r + b % 2);
  }

  lemma QuotientIs(b: nat, m: nat, q: nat, r: nat)
    requires b == q * m + r && r < m
    ensures b / m == q
  {
    assert (q - b / m) * m == b % m - r;
    NoMultiple(q - b / m, m);
  }

  lemma NoMultiple(k: int, m: nat)
    requires k * m < m && (0 - k) * m < m
    ensures k == 0
  {
    if k > 0 { Scales(1, k, m); }
    if k < 0 { Scales(k, -1, m); }
  }

  lemma Scales(a: int, b: int, m: nat)
    requires a <= b
    ensures a * m <= b * m
  {
  }

  lemma {:induction false} WithBitAt(b: nat, k: nat, j: nat)
    ensures Bit(WithBit(b, k), j) <==> j == k || Bit(b, j)
    decreases k
  {
    if k > 0 && j > 0 { WithBitAt(b / 2, k - 1, j - 1); }
  }

  lemma {:induction false} WithBitBound(b: nat, k: nat, n: nat)
    requires k < n && b < Pow2(n)
    ensures WithBit(b, k) < Pow2(n)
    decreases k
  {
    if k > 0 { WithBitBound(b / 2, k - 1, n - 1); }
  }

  function SetByteBit(b: byte, k: nat): byte
    requires k < 8
  {
    WithBitBound(b, k, 8);
    Pow2Of8();
    WithBit(b, k)
  }

  predicate SectorBit(s: Sector, i: nat)
    requires i < SECTOR_BITS
  {
    Bit(s[i/8], i % 8)
  }

  /** Bit `i` of a sector is bit i % 8, counted from the lowest, of byte i / 8. */
  lemma SectorBitIs(s: Sector, i: nat)
    requires i < SECTOR_BITS
    ensures Pow2(i % 8) > 0 && (SectorBit(s, i) <==> s[i/8] / Pow2(i % 8) % 2 == 1)
  {
    BitIs(s[i/8], i % 8);
  }

  function SetSectorBit(s: Sector, i: nat): Sector
    requires i < SECTOR_BITS
  {
    s[i/8 := SetByteBit(s[i/8], i % 8)]
  }

  lemma SetSectorBitAt(s: Sector, i: nat, j: nat)
    requires i < SECTOR_BITS && j < SECTOR_BITS
    ensures SectorBit(SetSectorBit(s, i), j) <==> j == i || SectorBit(s, j)
  {
    WithBitAt(s[i/8], i % 8, j % 8);
  }

  /** `s` with the bits lo..hi set. */
  function SetBits(s: Sector, lo: nat, hi: nat): Sector
    requires hi <= SECTOR_BITS
  {
    if hi <= lo then s else SetSectorBit(SetBits(s, lo, hi - 1), hi - 1)
  }

  lemma {:induction false} SetBitsAt(s: Sector, lo: nat, hi: nat, j: nat)
    requires hi <= SECTOR_BITS && j < SECTOR_BITS
    ensures SectorBit(SetBits(s, lo, hi), j) <==> lo <= j < hi || SectorBit(s, j)
    decreases hi
  {
    if lo < hi {
      SetBitsAt(s, lo, hi - 1, j);
      SetSectorBitAt(SetBits(s, lo, hi - 1), hi - 1, j);
    }
  }

  /** The lowest clear bit at or after `from`, or 4096. */
  function FirstClear(s: Sector, from: nat): (i: nat)
    requires from <= SECTOR_BITS
    ensures from <= i <= SECTOR_BITS
    ensures i < SECTOR_BITS ==> !SectorBit(s, i)
    ensures forall j | from <= j < i :: SectorBit(s, j)
    decreases SECTOR_BITS - from
  {
    if from == SECTOR_BITS || !SectorBit(s, from) then from else FirstClear(s, from + 1)
  }

  // ----------------------------------------------------------------------------- records

  /** Byte `d` of a word. */
  function Digit(x: word, d: nat): byte
    requires d < 4
  {
    if d == 0 then x % 0x100 else if d == 1 then x / 0x100 % 0x100
    else if d == 2 then x / 0x1_0000 % 0x100 else x / 0x100_0000
  }

  function WordAt(s: seq<byte>, off: nat): (x: word)
    requires off + 4 <= |s|
  {
    var b0: nat, b1: nat, b2: nat, b3: nat := s[off], s[off+1], s[off+2], s[off+3];
    b0 + 0x100 * b1 + 0x1_0000 * b2 + 0x100_0000 * b3
  }

  lemma DigitsOfWord(x: word)
    ensures var b0: nat, b1: nat, b2: nat, b3: nat := Digit(x, 0), Digit(x, 1), Digit(x, 2), Digit(x, 3);
            b0 + 0x100 * b1 + 0x1_0000 * b2 + 0x100_0000 * b3 == x
  {
    assert x / 0x1_0000 == x / 0x100 / 0x100;
    assert x / 0x100_0000 == x / 0x1_0000 / 0x100;
  }

  /** inode_t; the four reserved words are never set. */
  datatype Inode = Inode(mode: word, size: word, start: word, count: word, reserved: Reserved)

  datatype Reserved = Reserved(v0: word, v1: word, v2: word, v3: word)

  function Field(n: Inode, f: nat): word
    requires f < 8
  {
    if f == 0 then n.mode else if f == 1 then n.size else if f == 2 then n.start else if f == 3 then n.count
    else if f == 4 then n.reserved.v0 else if f == 5 then n.reserved.v1
    else if f == 6 then n.reserved.v2 else n.reserved.v3
  }

  function InodeBytes(n: Inode): Record {
    seq(RECORD, i requires 0 <= i < RECORD => Digit(Field(n, i / 4), i % 4))
  }

  function InodeOf(b: Record): Inode {
    Inode(WordAt(b, 0), WordAt(b, 4), WordAt(b, 8), WordAt(b, 12),
          Reserved(WordAt(b, 16), WordAt(b, 20), WordAt(b, 24), WordAt(b, 28)))
  }

  lemma FieldRoundTrip(n: Inode, f: nat)
    requires f < 8
    ensures WordAt(InodeBytes(n), 4 * f) == Field(n, f)
  {
    DigitsOfWord(Field(n, f));
    var b := InodeBytes(n);
    assert b[4*f] == Digit(Field(n, f), 0) && b[4*f+1] == Digit(Field(n, f), 1);
    assert b[4*f+2] == Digit(Field(n, f), 2) && b[4*f+3] == Digit(Field(n, f), 3);
  }

  /** What `update_inode` stores, `find_inode` reads back. */
  lemma InodeRoundTrip(n: Inode)
    ensures InodeOf(InodeBytes(n)) == n
  {
    hide InodeBytes, WordAt;
    FieldRoundTrip(n, 0); FieldRoundTrip(n, 1); FieldRoundTrip(n, 2); FieldRoundTrip(n, 3);
    FieldRoundTrip(n, 4); FieldRoundTrip(n, 5); FieldRoundTrip(n, 6); FieldRoundTrip(n, 7);
  }

  /** Where the fields of an inode lie: mode, size, start and count, each lowest byte first. */
  lemma InodeLayout(n: Inode)
    ensures var b: seq<nat> := InodeBytes(n);
            && b[0] + 0x100 * b[1] + 0x1_0000 * b[2] + 0x100_0000 * b[3] == n.mode
            && b[4] + 0x100 * b[5] + 0x1_0000 * b[6] + 0x100_0000 * b[7] == n.size
            && b[8] + 0x100 * b[9] + 0x1_0000 * b[10] + 0x100_0000 * b[11] == n.start
            && b[12] + 0x100 * b[13] + 0x1_0000 * b[14] + 0x100_0000 * b[15] == n.count
  {
    FieldRoundTrip(n, 0);
    FieldRoundTrip(n, 1);
    FieldRoundTrip(n, 2);
    FieldRoundTrip(n, 3);
  }

  type Name = s: seq<byte> | |s| == NAME_SIZE witness seq(NAME_SIZE, _ => 0)

  /** dir_entry_t; `kind` is FS_TYPE_FILE or FS_TYPE_FOLDER. */
  datatype Entry = Entry(inode: word, name: Name, kind: word)

  function EntryBytes(e: Entry): Record {
    seq(RECORD, i requires 0 <= i < RECORD =>
      if i < 4 then Digit(e.inode, i) else if i < 28 then e.name[i-4] else Digit(e.kind, i - 28))
  }

  function EntryOf(b: Record): Entry {
    Entry(WordAt(b, 0), seq(NAME_SIZE, i requires 0 <= i < NAME_SIZE => b[i+4]), WordAt(b, 28))
  }

  lemma EntryRoundTrip(e: Entry)
    ensures EntryOf(EntryBytes(e)) == e
  {
    var b := EntryBytes(e);
    DigitsOfWord(e.inode);
    DigitsOfWord(e.kind);
    assert forall i | 0 <= i < NAME_SIZE :: EntryOf(b).name[i] == e.name[i];
  }

  /** Where the fields of an entry lie: the inode's number, the name, the kind. */
  lemma EntryLayout(e: Entry)
    ensures var b: seq<nat> := EntryBytes(e);
            && b[0] + 0x100 * b[1] + 0x1_0000 * b[2] + 0x100_0000 * b[3] == e.inode
            && b[4..28] == e.name
            && b[28] + 0x100 * b[29] + 0x1_0000 * b[30] + 0x100_0000 * b[31] == e.kind
  {
    DigitsOfWord(e.inode);
    DigitsOfWord(e.kind);
  }

  /** A C string copied over the start of a name field, its final zero included. */
  function Named(before: Name, name: seq<byte>): Name
    requires |name| < NAME_SIZE
  {
    seq(NAME_SIZE, i requires 0 <= i < NAME_SIZE =>
      if i < |name| then name[i] else if i == |name| then 0 else before[i])
  }

  /** The field then holds the name, its final zero, and behind that what it held before. */
  lemma NamedIs(before: Name, name: seq<byte>)
    requires |name| < NAME_SIZE
    ensures var r := Named(before, name);
            r[..|name|] == name && r[|name|] == 0 && r[|name|+1..] == before[|name|+1..]
  {
  }

  /** The field holds the C string `name`. */
  predicate HoldsName(field: Name, name: seq<byte>) {
    |name| < NAME_SIZE && field[..|name|] == name && field[|name|] == 0
  }

  // ------------------------------------------------------------------------------ slots

  /** Record `k` of a sector. */
  function Slot(s: Sector, k: nat): Record
    requires k < PER_SECTOR
  {
    seq(RECORD, i requires 0 <= i < RECORD => s[k * RECORD + i])
  }

  function PutSlot(s: Sector, k: nat, b: Record): Sector
    requires k < PER_SECTOR
  {
    seq(SECTOR_SIZE, i requires 0 <= i < SECTOR_SIZE =>
      if k * RECORD <= i < k * RECORD + RECORD then b[i - k * RECORD] else s[i])
  }

  lemma SlotOfPut(s: Sector, k: nat, b: Record, j: nat)
    requires k < PER_SECTOR && j < PER_SECTOR
    ensures Slot(PutSlot(s, k, b), j) == if j == k then b else Slot(s, j)
  {
    var r := Slot(PutSlot(s, k, b), j);
    forall i | 0 <= i < RECORD ensures r[i] == if j == k then b[i] else Slot(s, j)[i] {}
  }

  function Blank(): Sector {
    seq(SECTOR_SIZE, _ => 0)
  }

  lemma BlankIsEmpty(j: nat, k: nat)
    requires j < SECTOR_BITS && k < PER_SECTOR
    ensures !SectorBit(Blank(), j)
    ensures EntryOf(Slot(Blank(), k)).inode == 0
  {
    ZeroHasNoBit(j % 8);
  }

  lemma {:induction false} ZeroHasNoBit(k: nat)
    ensures !Bit(0, k)
  {
    if k > 0 { ZeroHasNoBit(k - 1); }
  }
}
