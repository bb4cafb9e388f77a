/**
 Two-level page tables (mm/vmm.c). The page directory is an array of 1024 words; a page table
 is a frame of 1024 words that the kernel reaches through its linear mapping. A word holds a
 frame address in its upper 20 bits and flags in its lower 12 (Intel SDM Volume 3A, section 4.3).
 */
module PageTables {
  import opened Pmm

  const ENTRIES := 1024
  const PAGES := ENTRIES * ENTRIES
  const PTE_PRESENT := 1
  const PTE_WRITE := 2
  const PTE_USER := 4

  type Tables = map<nat, seq<nat>>

  /** The page that address `va` lies in. */
  function PageOf(va: nat): (vpn: nat)
    requires va < PAGES * PAGE_SIZE
    ensures vpn < PAGES && vpn * PAGE_SIZE <= va < (vpn + 1) * PAGE_SIZE
  {
    assert PAGES * PAGE_SIZE == 0x1_0000_0000;
    va / PAGE_SIZE
  }

  /** `x & PAGE_MASK` */
  function FrameOf(x: nat): (f: nat)
    ensures f <= x < f + PAGE_SIZE && f % PAGE_SIZE == 0
  {
    x - x % PAGE_SIZE
  }

  /** PGD_INDEX of an address in page `vpn`. */
  function PgdIndex(vpn: nat): (i: nat)
    requires vpn < PAGES
    ensures i < ENTRIES
  {
    vpn / ENTRIES
  }

  /** PTE_INDEX of an address in page `vpn`. */
  function PteIndex(vpn: nat): (i: nat)
    ensures i < ENTRIES
  {
    vpn % ENTRIES
  }

  function PageAt(pgdIdx: nat, pteIdx: nat): (vpn: nat)
    requires pgdIdx < ENTRIES && pteIdx < ENTRIES
    ensures vpn < PAGES && PgdIndex(vpn) == pgdIdx && PteIndex(vpn) == pteIdx
  {
    pgdIdx * ENTRIES + pteIdx
  }

  lemma IndicesDetermine(u: nat, v: nat)
    requires u < PAGES && v < PAGES && PgdIndex(u) == PgdIndex(v) && PteIndex(u) == PteIndex(v)
    ensures u == v
  {
  }

  /** The table that directory entry `i` points to, 0 when there is none. */
  function TableOf(dir: seq<nat>, i: nat): nat
    requires i < |dir|
  {
    FrameOf(dir[i])
  }

  /** Every present table is there, whole, and belongs to one directory entry. */
  ghost predicate WellFormed(dir: seq<nat>, tables: Tables) {
    && |dir| == ENTRIES
    && (forall i | 0 <= i < ENTRIES :: TableOf(dir, i) != 0 ==> HasTable(tables, TableOf(dir, i)))
    && (forall i, j | 0 <= i < j < ENTRIES :: TableOf(dir, i) != 0 ==> TableOf(dir, i) != TableOf(dir, j))
  }

  ghost predicate HasTable(tables: Tables, f: nat) {
    f in tables && |tables[f]| == ENTRIES
  }

  /** The flat map that the two levels implement: the entry of page `vpn`, 0 when unmapped. */
  ghost function Entry(dir: seq<nat>, tables: Tables, vpn: nat): nat
    requires WellFormed(dir, tables) && vpn < PAGES
  {
    var f := TableOf(dir, PgdIndex(vpn));
    if f == 0 then 0
    else
      assert HasTable(tables, f);
      tables[f][PteIndex(vpn)]
  }

  function SetWord(t: seq<nat>, i: nat, word: nat): (r: seq<nat>)
    requires i < |t|
    ensures |r| == |t| && forall j | 0 <= j < |t| :: r[j] == if j == i then word else t[j]
  {
    t[i := word]
  }

  /** Writing word `pte` of table `pgd` changes the entry of that page and of no other. */
  lemma WriteEntry(dir: seq<nat>, tables: Tables, vpn: nat, word: nat, u: nat)
    requires WellFormed(dir, tables) && vpn < PAGES && u < PAGES && TableOf(dir, PgdIndex(vpn)) != 0
    ensures HasTable(tables, TableOf(dir, PgdIndex(vpn)))
    ensures var f := TableOf(dir, PgdIndex(vpn));
            var tables' := tables[f := SetWord(tables[f], PteIndex(vpn), word)];
            && WellFormed(dir, tables')
            && Entry(dir, tables', u) == if u == vpn then word else Entry(dir, tables, u)
  {
    var f := TableOf(dir, PgdIndex(vpn));
    assert HasTable(tables, f);
    var tables' := tables[f := SetWord(tables[f], PteIndex(vpn), word)];
    forall i | 0 <= i < ENTRIES && TableOf(dir, i) != 0 ensures HasTable(tables', TableOf(dir, i)) {
      assert HasTable(tables, TableOf(dir, i));
    }
    var g := TableOf(dir, PgdIndex(u));
    if u != vpn && g == f {
      assert PgdIndex(u) == PgdIndex(vpn);
      if PteIndex(u) == PteIndex(vpn) { IndicesDetermine(u, vpn); }
    }
    if g != 0 { assert HasTable(tables, g) && HasTable(tables', g); }
  }

  /** A new zeroed table in an absent directory entry changes no entry of the flat map. */
  lemma AddTable(dir: seq<nat>, tables: Tables, i: nat, f: nat, flags: nat, u: nat)
    requires WellFormed(dir, tables) && i < ENTRIES && TableOf(dir, i) == 0 && u < PAGES
    requires f != 0 && f % PAGE_SIZE == 0 && flags < PAGE_SIZE
    requires forall j | 0 <= j < ENTRIES :: TableOf(dir, j) != f
    ensures var dir', tables' := dir[i := f + flags], tables[f := seq(ENTRIES, _ => 0)];
            && WellFormed(dir', tables') && TableOf(dir', i) == f
            && Entry(dir', tables', u) == Entry(dir, tables, u)
  {
    var dir', tables' := dir[i := f + flags], tables[f := seq(ENTRIES, _ => 0)];
    assert TableOf(dir', i) == f;
    assert HasTable(tables', f);
    forall j | 0 <= j < ENTRIES && TableOf(dir', j) != 0 ensures HasTable(tables', TableOf(dir', j)) {
      if j != i { assert HasTable(tables, TableOf(dir, j)); }
    }
    forall j | 0 <= j < ENTRIES ensures TableOf(dir', j) == if j == i then f else TableOf(dir, j) {}
    forall j, k | 0 <= j < k < ENTRIES && TableOf(dir', j) != 0 ensures TableOf(dir', j) != TableOf(dir', k) {
      assert TableOf(dir, j) != f && TableOf(dir, k) != f;
    }
    var g := TableOf(dir, PgdIndex(u));
    if g != 0 {
      assert HasTable(tables, g) && PgdIndex(u) != i && TableOf(dir', PgdIndex(u)) == g;
    }
  }

  class AddressSpace {
    const pmm: Allocator
    const pgd: array<nat>
    var tables: Tables

    ghost predicate Valid()
      reads this, pgd
    {
      pgd.Length == ENTRIES && WellFormed(pgd[..], tables)
    }

    constructor (pmm: Allocator)
      ensures this.pmm == pmm && fresh(pgd) && Valid() && tables == map[]
      ensures forall i | 0 <= i < ENTRIES :: pgd[i] == 0
    {
      this.pmm := pmm;
      pgd := new nat[ENTRIES](_ => 0);
      tables := map[];
    }

    /** The directory entry of `vpn` has no table yet, so `Map` takes one more frame. */
    ghost predicate NeedsTable(vpn: nat)
      requires Valid() && vpn < PAGES
      reads this, pgd
    {
      TableOf(pgd[..], PgdIndex(vpn)) == 0
    }

    /** Frames that `Map` may take must not already be in use as tables. */
    ghost predicate FreshFrame(f: nat)
      requires Valid()
      reads this, pgd
    {
      f != 0 && f % PAGE_SIZE == 0 && forall i | 0 <= i < ENTRIES :: TableOf(pgd[..], i) != f
    }

    method Map(va: nat, pa: nat, flags: nat)
      requires Valid() && pmm.Valid() && pgd != pmm.stack
      requires va < PAGES * PAGE_SIZE && flags < PAGE_SIZE
      requires NeedsTable(PageOf(va)) ==> pmm.Free() != [] && FreshFrame(pmm.Free()[|pmm.Free()|-1])
      modifies this, pgd, pmm
      ensures Valid() && pmm.Valid()
      ensures forall u: nat | u < PAGES :: Entry(pgd[..], tables, u) ==
                if u == PageOf(va) then FrameOf(pa) + flags else old(Entry(pgd[..], tables, u))
      ensures if old(NeedsTable(PageOf(va))) then
                var free := old(pmm.Free());
                && pmm.Free() == free[..|free|-1]
                && pgd[..] == old(pgd[..])[PgdIndex(PageOf(va)) := free[|free|-1] + PTE_PRESENT + PTE_WRITE]
              else pmm.Free() == old(pmm.Free()) && pgd[..] == old(pgd[..])
    {
      var vpn := PageOf(va);
      var pgdIdx, pteIdx := PgdIndex(vpn), PteIndex(vpn);
      ghost var dir0: seq<nat>, tables0: Tables := pgd[..], tables;
      var pte := FrameOf(pgd[pgdIdx]);
      if pte == 0 {
        pte := pmm.AllocPage();
        pgd[pgdIdx] := pte + PTE_PRESENT + PTE_WRITE;
        tables := tables[pte := seq(ENTRIES, _ => 0)];
        ghost var dir1: seq<nat> := pgd[..];
        assert dir1 == dir0[pgdIdx := pte + PTE_PRESENT + PTE_WRITE];
        AddTable(dir0, tables0, pgdIdx, pte, PTE_PRESENT + PTE_WRITE, 0);
        forall u: nat | u < PAGES ensures Entry(dir1, tables, u) == Entry(dir0, tables0, u) {
          AddTable(dir0, tables0, pgdIdx, pte, PTE_PRESENT + PTE_WRITE, u);
        }
      }
      SetEntry(vpn, pte, pteIdx, FrameOf(pa) + flags);
    }

    method SetEntry(ghost vpn: nat, pte: nat, pteIdx: nat, word: nat)
      requires Valid() && vpn < PAGES && pte != 0 && pte == TableOf(pgd[..], PgdIndex(vpn)) && pteIdx == PteIndex(vpn)
      modifies this`tables
      ensures Valid()
      ensures forall u: nat | u < PAGES :: Entry(pgd[..], tables, u) ==
                if u == vpn then word else old(Entry(pgd[..], tables, u))
    {
      ghost var dir: seq<nat>, before: Tables := pgd[..], tables;
      WriteEntry(dir, before, vpn, word, vpn);
      tables := tables[pte := SetWord(tables[pte], pteIdx, word)];
      forall u: nat | u < PAGES ensures Entry(dir, tables, u) == if u == vpn then word else Entry(dir, before, u) {
        WriteEntry(dir, before, vpn, word, u);
      }
    }

    /** Repaired: the page-table index is PTE_INDEX, where the source has PGD_INDEX. */
    method Unmap(va: nat)
      requires Valid() && va < PAGES * PAGE_SIZE
      modifies this`tables
      ensures Valid()
      ensures forall u: nat | u < PAGES :: Entry(pgd[..], tables, u) ==
                if u == PageOf(va) then 0 else old(Entry(pgd[..], tables, u))
    {
      var vpn := PageOf(va);
      var pte := FrameOf(pgd[PgdIndex(vpn)]);
      assert TableOf(pgd[..], PgdIndex(vpn)) == pte;
      if pte == 0 { return; }
      SetEntry(vpn, pte, PteIndex(vpn), 0);
    }

    /** As written: both indices are PGD_INDEX. */
    method UnmapAsWritten(va: nat)
      requires Valid() && va < PAGES * PAGE_SIZE
      modifies this`tables
      ensures Valid()
      ensures forall u: nat | u < PAGES :: Entry(pgd[..], tables, u) ==
                if u == Struck(PageOf(va)) then 0 else old(Entry(pgd[..], tables, u))
    {
      var vpn := PageOf(va);
      var pgdIdx := PgdIndex(vpn);
      var pte := FrameOf(pgd[pgdIdx]);
      assert TableOf(pgd[..], pgdIdx) == pte;
      if pte == 0 { return; }
      SetEntry(Struck(vpn), pte, pgdIdx, 0);
    }

    method GetMapping(va: nat) returns (found: bool, pa: nat)
      requires Valid() && va < PAGES * PAGE_SIZE
      ensures found <==> Entry(pgd[..], tables, PageOf(va)) != 0
      ensures found ==> pa == FrameOf(Entry(pgd[..], tables, PageOf(va)))
    {
      var vpn := PageOf(va);
      var pte := FrameOf(pgd[PgdIndex(vpn)]);
      pa := 0;
      if pte == 0 { return false, 0; }
      assert TableOf(pgd[..], PgdIndex(vpn)) == pte && HasTable(tables, pte);
      found := tables[pte][PteIndex(vpn)] != 0;
      if found { pa := FrameOf(tables[pte][PteIndex(vpn)]); }
    }
  }

  /** The page whose entry `unmap` clears as written. */
  function Struck(vpn: nat): (u: nat)
    requires vpn < PAGES
    ensures u < PAGES
  {
    PageAt(PgdIndex(vpn), PgdIndex(vpn))
  }

  /**
   As written, unmapping `vpn` has the intended effect on the flat map `e` if and only if the two
   indices of the page agree, or neither page was mapped in the first place.
   */
  lemma UnmapAsWrittenIff(e: nat -> nat, vpn: nat)
    requires vpn < PAGES
    ensures (forall u: nat | u < PAGES :: (if u == Struck(vpn) then 0 else e(u)) == (if u == vpn then 0 else e(u)))
       <==> PgdIndex(vpn) == PteIndex(vpn) || (e(vpn) == 0 && e(Struck(vpn)) == 0)
  {
    if PgdIndex(vpn) == PteIndex(vpn) {
      IndicesDetermine(vpn, Struck(vpn));
    } else {
      assert vpn != Struck(vpn);
      if forall u: nat | u < PAGES :: (if u == Struck(vpn) then 0 else e(u)) == (if u == vpn then 0 else e(u)) {
        assert (if vpn == Struck(vpn) then 0 else e(vpn)) == (if vpn == vpn then 0 else e(vpn));
        var s := Struck(vpn);
        assert (if s == Struck(vpn) then 0 else e(s)) == (if s == vpn then 0 else e(s));
      }
    }
  }

  /** So a mapped first page of the kernel heap, at 0xE0000000, stays mapped. */
  lemma HeapPageMissed(e: nat -> nat)
    requires e(0xE0000) != 0
    ensures Struck(0xE0000) != 0xE0000
    ensures !(forall u: nat | u < PAGES ::
                (if u == Struck(0xE0000) then 0 else e(u)) == (if u == 0xE0000 then 0 else e(u)))
  {
    UnmapAsWrittenIff(e, 0xE0000);
    assert PgdIndex(0xE0000) == 896 && PteIndex(0xE0000) == 0;
  }

  /**
   Every page of the first four megabytes of the heap strikes the same page, 0xE0380000: as
   written, unmapping any other of them clears that one while it may be in use, and leaves its own.
   */
  lemma HeapPagesStrikeOne(e: nat -> nat, vpn: nat)
    requires 0xE0000 <= vpn < 0xE0400
    ensures Struck(vpn) == 0xE0380
    ensures vpn != 0xE0380 && e(vpn) != 0 && e(0xE0380) != 0 ==>
              var after := (u: nat) => if u == Struck(vpn) then 0 else e(u);
              after(0xE0380) == 0 && after(vpn) == e(vpn) != 0
  {
    assert PgdIndex(vpn) == 896;
  }
}
