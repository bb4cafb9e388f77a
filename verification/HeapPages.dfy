/**
 The pages under the kernel heap: the growing loop of `alloc_chunk` and the releasing loop of
 `free_chunk` (mm/heap.c), over the frame allocator and the page tables.
 */
module HeapPages {
  import opened Pmm
  import opened PageTables
  import opened HeapSpec

  const HEAP_VPN := 0xE0000          // HEAP_START / PAGE_SIZE
  const MAX_FRAMES := 0x1_FFFF       // what fits between HEAP_START and the last page

  function RoundUp(a: nat): (r: nat)
    ensures a <= r < a + PAGE_SIZE && r % PAGE_SIZE == 0
  {
    (a + PAGE_SIZE - 1) / PAGE_SIZE * PAGE_SIZE
  }

  /** How many pages must be added at `max` to reach address `target`. */
  function PagesTo(max: nat, target: nat): (n: nat)
    ensures target <= max + n * PAGE_SIZE
    ensures n > 0 ==> max + (n - 1) * PAGE_SIZE < target
  {
    if target <= max then 0 else (target - max + PAGE_SIZE - 1) / PAGE_SIZE
  }

  // ------------------------------------------------------------- conservation of frames

  ghost predicate IsTable(dir: seq<nat>, f: nat) {
    exists i | 0 <= i < |dir| :: TableOf(dir, i) == f
  }

  ghost predicate TableKnown(dir: seq<nat>, i: nat, tf: seq<nat>, all: multiset<nat>)
    requires i < |dir|
  {
    TableOf(dir, i) == 0 || TableOf(dir, i) in tf || TableOf(dir, i) !in all
  }

  /**
   The free frames, the heap's frames `hf` and the page-table frames `tf` are distinct and
   together are all the frames there ever were.
   */
  ghost predicate Conserved(free: seq<nat>, hf: seq<nat>, tf: seq<nat>, all: multiset<nat>, dir: seq<nat>) {
    && multiset(free) + multiset(hf) + multiset(tf) == all
    && (forall f | f in all :: all[f] == 1 && f != 0 && f % PAGE_SIZE == 0)
    && |all| <= MAX_FRAMES
    && (forall i | 0 <= i < |dir| :: TableKnown(dir, i, tf, all))
    && (forall f | f in tf :: IsTable(dir, f))
  }

  lemma FreeFrameIsUnused(free: seq<nat>, hf: seq<nat>, tf: seq<nat>, all: multiset<nat>, dir: seq<nat>, f: nat)
    requires Conserved(free, hf, tf, all, dir) && f in free
    ensures f !in hf && f !in tf && f != 0 && f % PAGE_SIZE == 0
    ensures forall i | 0 <= i < |dir| :: TableOf(dir, i) != f
  {
    assert f in multiset(free) && f in all;
    assert all[f] == multiset(free)[f] + multiset(hf)[f] + multiset(tf)[f];
    assert f !in multiset(hf) && f !in multiset(tf);
    forall i | 0 <= i < |dir| ensures TableOf(dir, i) != f { assert TableKnown(dir, i, tf, all); }
  }

  lemma TakeForHeap(free: seq<nat>, hf: seq<nat>, tf: seq<nat>, all: multiset<nat>, dir: seq<nat>)
    requires Conserved(free, hf, tf, all, dir) && free != []
    ensures Conserved(free[..|free|-1], hf + [free[|free|-1]], tf, all, dir)
  {
    assert free == free[..|free|-1] + [free[|free|-1]];
  }

  lemma TakeForTable(free: seq<nat>, hf: seq<nat>, tf: seq<nat>, all: multiset<nat>, dir: seq<nat>, i: nat, flags: nat)
    requires Conserved(free, hf, tf, all, dir) && free != [] && i < |dir| && TableOf(dir, i) == 0 && flags < PAGE_SIZE
    ensures var f := free[|free|-1];
            Conserved(free[..|free|-1], hf, tf + [f], all, dir[i := f + flags]) && TableOf(dir[i := f + flags], i) == f
  {
    var f := free[|free|-1];
    var dir', tf' := dir[i := f + flags], tf + [f];
    FreeFrameIsUnused(free, hf, tf, all, dir, f);
    assert free == free[..|free|-1] + [f];
    assert TableOf(dir', i) == f;
    forall j | 0 <= j < |dir| ensures TableKnown(dir', j, tf', all) { assert TableKnown(dir, j, tf, all); }
    forall g | g in tf' ensures IsTable(dir', g) {
      if g != f {
        var j :| 0 <= j < |dir| && TableOf(dir, j) == g;
        assert g in all && j != i;
        assert TableOf(dir', j) == g;
      }
    }
  }

  lemma GiveBack(free: seq<nat>, hf: seq<nat>, tf: seq<nat>, all: multiset<nat>, dir: seq<nat>)
    requires Conserved(free, hf, tf, all, dir) && hf != []
    ensures Conserved(free + [hf[|hf|-1]], hf[..|hf|-1], tf, all, dir)
  {
    assert hf == hf[..|hf|-1] + [hf[|hf|-1]];
  }

  lemma LastHeapFrame(free: seq<nat>, hf: seq<nat>, tf: seq<nat>, all: multiset<nat>, dir: seq<nat>)
    requires Conserved(free, hf, tf, all, dir) && hf != []
    ensures hf[|hf|-1] % PAGE_SIZE == 0 && hf[|hf|-1] != 0
  {
    assert hf[|hf|-1] in multiset(hf) && hf[|hf|-1] in all;
  }

  // --------------------------------------------------------------- the cost of growing

  predicate Absent(dir: seq<nat>, i: nat)
    requires i < |dir|
  {
    TableOf(dir, i) == 0
  }

  /** Frames taken by mapping `n` pages from page `v` on: the pages, and tables not yet there. */
  ghost function Cost(dir: seq<nat>, v: nat, n: nat): (c: nat)
    requires |dir| == ENTRIES && v + n <= PAGES
    ensures c >= n
    decreases n
  {
    if n == 0 then 0
    else
      var i := PgdIndex(v);
      1 + (if Absent(dir, i) then 1 else 0) + Cost(dir[i := PAGE_SIZE], v + 1, n - 1)
  }

  ghost predicate SameAbsent(d1: seq<nat>, d2: seq<nat>) {
    |d1| == |d2| && forall i | 0 <= i < |d1| :: Absent(d1, i) <==> Absent(d2, i)
  }

  lemma {:induction false} CostDependsOnAbsent(d1: seq<nat>, d2: seq<nat>, v: nat, n: nat)
    requires |d1| == ENTRIES && v + n <= PAGES && SameAbsent(d1, d2)
    ensures Cost(d1, v, n) == Cost(d2, v, n)
    decreases n
  {
    if n > 0 {
      var i := PgdIndex(v);
      assert Absent(d1, i) <==> Absent(d2, i);
      var e1: seq<nat>, e2: seq<nat> := d1[i := PAGE_SIZE], d2[i := PAGE_SIZE];
      forall j | 0 <= j < |e1| ensures Absent(e1, j) <==> Absent(e2, j) {
        assert Absent(d1, j) <==> Absent(d2, j);
      }
      CostDependsOnAbsent(e1, e2, v + 1, n - 1);
    }
  }

  // ------------------------------------------------------------------------- the pages

  /** The heap's pages are mapped in order to `hf`, and the pages after them not at all. */
  ghost predicate Mapped(dir: seq<nat>, tables: Tables, hf: seq<nat>)
    requires WellFormed(dir, tables)
  {
    forall u: nat | HEAP_VPN <= u < PAGES ::
      Entry(dir, tables, u) ==
        if u - HEAP_VPN < |hf| then FrameOf(hf[u - HEAP_VPN]) + PTE_PRESENT + PTE_WRITE + PTE_USER else 0
  }

  /** A round that needs a table has a second free frame for it, and that frame is in no use. */
  lemma SecondFrame(dir: seq<nat>, free: seq<nat>, hf: seq<nat>, tf: seq<nat>, all: multiset<nat>, v: nat, n: nat)
    requires |dir| == ENTRIES && n > 0 && v + n <= PAGES && Conserved(free, hf, tf, all, dir)
    requires Cost(dir, v, n) <= |free| && Absent(dir, PgdIndex(v))
    ensures |free| >= 2 && free[|free|-2] != 0 && free[|free|-2] % PAGE_SIZE == 0
    ensures forall j | 0 <= j < ENTRIES :: TableOf(dir, j) != free[|free|-2]
  {
    FreeFrameIsUnused(free, hf, tf, all, dir, free[|free|-2]);
  }

  /** The frames after a round that needed no table. */
  lemma GrownPlain(dir: seq<nat>, free: seq<nat>, hf: seq<nat>, tf: seq<nat>, all: multiset<nat>, v: nat, n: nat,
                   free': seq<nat>, hf': seq<nat>)
    requires |dir| == ENTRIES && n > 0 && v + n <= PAGES && Conserved(free, hf, tf, all, dir)
    requires Cost(dir, v, n) <= |free| && !Absent(dir, PgdIndex(v))
    requires free' == free[..|free|-1] && hf' == hf + [free[|free|-1]]
    ensures Conserved(free', hf', tf, all, dir) && Cost(dir, v + 1, n - 1) <= |free'|
  {
    TakeForHeap(free, hf, tf, all, dir);
    var marked: seq<nat> := dir[PgdIndex(v) := PAGE_SIZE];
    forall j | 0 <= j < |dir| ensures Absent(dir, j) <==> Absent(marked, j) {}
    CostDependsOnAbsent(dir, marked, v + 1, n - 1);
  }

  /** The frames after a round that needed a table. */
  lemma GrownWithTable(dir: seq<nat>, free: seq<nat>, hf: seq<nat>, tf: seq<nat>, all: multiset<nat>, v: nat, n: nat,
                       dir': seq<nat>, free': seq<nat>, hf': seq<nat>, tf': seq<nat>)
    requires |dir| == ENTRIES && n > 0 && v + n <= PAGES && Conserved(free, hf, tf, all, dir)
    requires Cost(dir, v, n) <= |free| && Absent(dir, PgdIndex(v)) && |free| >= 2
    requires free' == free[..|free|-2] && hf' == hf + [free[|free|-1]] && tf' == tf + [free[|free|-2]]
    requires dir' == dir[PgdIndex(v) := free[|free|-2] + PTE_PRESENT + PTE_WRITE]
    ensures Conserved(free', hf', tf', all, dir') && Cost(dir', v + 1, n - 1) <= |free'|
  {
    var i := PgdIndex(v);
    var free1 := free[..|free|-1];
    TakeForHeap(free, hf, tf, all, dir);
    TakeForTable(free1, hf', tf, all, dir, i, PTE_PRESENT + PTE_WRITE);
    SecondFrame(dir, free, hf, tf, all, v, n);
    assert free1[..|free1|-1] == free';
    var marked: seq<nat> := dir[i := PAGE_SIZE];
    forall j | 0 <= j < |dir'| ensures Absent(dir', j) <==> Absent(marked, j) {}
    CostDependsOnAbsent(dir', marked, v + 1, n - 1);
  }

  /** The frames after a round. */
  lemma Grown(dir: seq<nat>, free: seq<nat>, hf: seq<nat>, tf: seq<nat>, all: multiset<nat>, v: nat, n: nat,
              dir': seq<nat>, free': seq<nat>, hf': seq<nat>, tf': seq<nat>)
    requires |dir| == ENTRIES && n > 0 && v + n <= PAGES && Conserved(free, hf, tf, all, dir)
    requires Cost(dir, v, n) <= |free| && hf' == hf + [free[|free|-1]]
    requires if Absent(dir, PgdIndex(v)) then
               && |free| >= 2 && free' == free[..|free|-2] && tf' == tf + [free[|free|-2]]
               && dir' == dir[PgdIndex(v) := free[|free|-2] + PTE_PRESENT + PTE_WRITE]
             else free' == free[..|free|-1] && tf' == tf && dir' == dir
    ensures Conserved(free', hf', tf', all, dir') && Cost(dir', v + 1, n - 1) <= |free'|
  {
    if Absent(dir, PgdIndex(v)) {
      GrownWithTable(dir, free, hf, tf, all, v, n, dir', free', hf', tf');
    } else {
      GrownPlain(dir, free, hf, tf, all, v, n, free', hf');
    }
  }

  lemma MappedAfterMap(dir0: seq<nat>, t0: Tables, dir1: seq<nat>, t1: Tables, hf: seq<nat>, page: nat)
    requires WellFormed(dir0, t0) && WellFormed(dir1, t1) && Mapped(dir0, t0, hf) && HEAP_VPN + |hf| < PAGES
    requires forall u: nat | u < PAGES :: Entry(dir1, t1, u) ==
               if u == HEAP_VPN + |hf| then FrameOf(page) + (PTE_PRESENT + PTE_WRITE + PTE_USER) else Entry(dir0, t0, u)
    ensures Mapped(dir1, t1, hf + [page])
  {
  }

  /** An ascending run of pages above the kernel is a set of frames to start from. */
  lemma RegionConserved(free: seq<nat>, start: nat, dir: seq<nat>)
    requires 0x10_0000 <= start && start % PAGE_SIZE == 0
    requires forall i | 0 <= i < |free| :: free[i] == start + i * PAGE_SIZE && free[i] <= PMM_MAX_SIZE
    requires forall i | 0 <= i < |dir| :: dir[i] == 0
    ensures Conserved(free, [], [], multiset(free), dir)
  {
    var all := multiset(free);
    forall f | f in all ensures all[f] == 1 && f != 0 && f % PAGE_SIZE == 0 {
      var i :| 0 <= i < |free| && free[i] == f;
      OnceInRegion(free, start, i);
    }
    if |free| > 0 { assert free[|free|-1] == start + (|free| - 1) * PAGE_SIZE <= PMM_MAX_SIZE; }
    assert |all| == |free|;
    forall i | 0 <= i < |dir| ensures TableKnown(dir, i, [], all) { assert TableOf(dir, i) == 0; }
  }

  lemma OnceInRegion(free: seq<nat>, start: nat, i: nat)
    requires i < |free| && forall j | 0 <= j < |free| :: free[j] == start + j * PAGE_SIZE
    ensures multiset(free)[free[i]] == 1
  {
    var f := free[i];
    assert free == free[..i] + [f] + free[i+1..];
    assert f !in free[..i] && f !in free[i+1..];
    assert f !in multiset(free[..i]) && f !in multiset(free[i+1..]);
    assert multiset(free) == multiset(free[..i]) + multiset{f} + multiset(free[i+1..]);
  }

  lemma NothingMapped(dir: seq<nat>, tables: Tables)
    requires WellFormed(dir, tables) && forall i | 0 <= i < |dir| :: dir[i] == 0
    ensures Mapped(dir, tables, [])
  {
  }

  lemma TopTwo(free: seq<nat>)
    requires |free| >= 2
    ensures var rest := free[..|free|-1]; rest[|rest|-1] == free[|free|-2] && rest[..|rest|-1] == free[..|free|-2]
  {
  }

  lemma PageOfHeap(max: nat, k: nat)
    requires max == HEAP_START + k * PAGE_SIZE && HEAP_VPN + k < PAGES
    ensures max < PAGES * PAGE_SIZE && PageOf(max) == HEAP_VPN + k
  {
  }

  class Pages {
    const pmm: Allocator
    const space: AddressSpace
    var heapMax: nat
    ghost var heapFrames: seq<nat>
    ghost var tableFrames: seq<nat>
    ghost const all: multiset<nat>

    /** `heap_max` and the page tables agree with the frames under the heap. */
    ghost predicate Wired()
      reads this, pmm, space, space.pgd
    {
      && pmm.Valid() && space.Valid() && space.pmm == pmm && space.pgd != pmm.stack
      && heapMax == HEAP_START + |heapFrames| * PAGE_SIZE
      && Mapped(space.pgd[..], space.tables, heapFrames)
    }

    ghost predicate Valid()
      reads this, pmm, pmm.stack, space, space.pgd
    {
      Wired() && Conserved(pmm.Free(), heapFrames, tableFrames, all, space.pgd[..])
    }

    /** A heap without pages over a given allocator and address space. */
    constructor (space: AddressSpace)
      requires space.Valid() && space.pmm.Valid() && space.pgd != space.pmm.stack
      requires Conserved(space.pmm.Free(), [], [], multiset(space.pmm.Free()), space.pgd[..])
      requires Mapped(space.pgd[..], space.tables, [])
      ensures Valid() && this.space == space && this.pmm == space.pmm && heapFrames == [] && tableFrames == []
      ensures all == multiset(space.pmm.Free())
    {
      this.space := space;
      this.pmm := space.pmm;
      heapMax := HEAP_START;
      heapFrames := [];
      tableFrames := [];
      all := multiset(space.pmm.Free());
    }

    lemma FramesBound()
      requires Valid()
      ensures |pmm.Free()| + |heapFrames| <= MAX_FRAMES
    {
      assert |all| == |multiset(pmm.Free())| + |multiset(heapFrames)| + |multiset(tableFrames)|;
    }

    /** The free frames suffice for `n` more pages and the tables they need. */
    ghost predicate Affordable(n: nat)
      requires Valid()
      reads this, pmm, pmm.stack, space, space.pgd
    {
      HEAP_VPN + |heapFrames| + n <= PAGES && Cost(space.pgd[..], HEAP_VPN + |heapFrames|, n) <= |pmm.Free()|
    }

    /** The heap cannot run past the end of the address space: there are too few frames for that. */
    lemma RoomForFrames(n: nat)
      requires Valid() && n <= |pmm.Free()|
      ensures HEAP_VPN + |heapFrames| + n < PAGES
    {
      FramesBound();
    }

    /** Pages that can be paid for end below the last page of the address space. */
    lemma AffordableFits(n: nat)
      requires Valid() && Affordable(n)
      ensures HEAP_VPN + |heapFrames| + n < PAGES
    {
      RoomForFrames(n);
    }

    /** `alloc_chunk`: grows until [start, start+len) is mapped, page by page. */
    method AllocChunk(start: nat, len: nat)
      requires Valid() && Affordable(PagesTo(heapMax, start + len))
      modifies this`heapMax, this`heapFrames, this`tableFrames, pmm, space, space.pgd
      ensures Valid()
      ensures heapMax == old(heapMax) + PagesTo(old(heapMax), start + len) * PAGE_SIZE
      ensures old(heapFrames) <= heapFrames
    {
      hide Conserved, Mapped, Cost;
      ghost var n, max0 := PagesTo(heapMax, start + len), heapMax;
      while start + len > heapMax
        invariant Valid() && 0 <= n && Affordable(n)
        invariant heapMax + n * PAGE_SIZE == max0 + PagesTo(max0, start + len) * PAGE_SIZE
        invariant n == 0 <==> start + len <= heapMax
        invariant old(heapFrames) <= heapFrames
        decreases n
      {
        GrowAccounted(n);
        n := n - 1;
        assert n == 0 <==> start + len <= heapMax;
      }
    }

    /** What one round needs is there when `n` rounds can be paid for. */
    lemma ReadyToGrow(n: nat)
      requires Valid() && n > 0 && Affordable(n)
      ensures HEAP_VPN + |heapFrames| < PAGES && pmm.Free() != []
      ensures Absent(space.pgd[..], PgdIndex(HEAP_VPN + |heapFrames|)) ==>
                |pmm.Free()| >= 2 && space.FreshFrame(pmm.Free()[|pmm.Free()|-2])
    {
      hide Conserved, Mapped, WellFormed;
      ghost var v := HEAP_VPN + |heapFrames|;
      if Absent(space.pgd[..], PgdIndex(v)) {
        SecondFrame(space.pgd[..], pmm.Free(), heapFrames, tableFrames, all, v, n);
      }
    }

    /** A round of the growing loop with its bookkeeping. */
    method GrowAccounted(ghost n: nat)
      requires Valid() && n > 0 && Affordable(n)
      modifies this`heapMax, this`heapFrames, this`tableFrames, pmm, space, space.pgd
      ensures Valid() && heapMax == old(heapMax) + PAGE_SIZE
      ensures old(heapFrames) <= heapFrames && Affordable(n - 1)
    {
      hide Conserved, Mapped, Cost, WellFormed, TableOf, Absent, AddressSpace.FreshFrame;
      ghost var dir0: seq<nat>, free0: seq<nat>, hf0, tf0 := space.pgd[..], pmm.Free(), heapFrames, tableFrames;
      ReadyToGrow(n);
      GrowOne();
      Grown(dir0, free0, hf0, tf0, all, HEAP_VPN + |hf0|, n, space.pgd[..], pmm.Free(), heapFrames, tableFrames);
    }

    /** One round of the growing loop: a frame, its mapping, and perhaps a frame for a new table. */
    method GrowOne()
      requires Wired() && HEAP_VPN + |heapFrames| < PAGES && pmm.Free() != []
      requires Absent(space.pgd[..], PgdIndex(HEAP_VPN + |heapFrames|)) ==>
                 |pmm.Free()| >= 2 && space.FreshFrame(pmm.Free()[|pmm.Free()|-2])
      modifies this`heapMax, this`heapFrames, this`tableFrames, pmm, space, space.pgd
      ensures Wired() && heapMax == old(heapMax) + PAGE_SIZE
      ensures heapFrames == old(heapFrames) + [old(pmm.Free())[|old(pmm.Free())|-1]]
      ensures var free, i := old(pmm.Free()), PgdIndex(HEAP_VPN + |old(heapFrames)|);
              if old(Absent(space.pgd[..], i)) then
                && pmm.Free() == free[..|free|-2]
                && tableFrames == old(tableFrames) + [free[|free|-2]]
                && space.pgd[..] == old(space.pgd[..])[i := free[|free|-2] + PTE_PRESENT + PTE_WRITE]
              else
                && pmm.Free() == free[..|free|-1]
                && tableFrames == old(tableFrames)
                && space.pgd[..] == old(space.pgd[..])
    {
      hide Mapped, WellFormed, TableOf;
      ghost var free0: seq<nat>, hf0, tf0 := pmm.Free(), heapFrames, tableFrames;
      ghost var needs := Absent(space.pgd[..], PgdIndex(HEAP_VPN + |hf0|));
      if |free0| >= 2 { TopTwo(free0); }
      PageOfHeap(heapMax, |hf0|);
      var page := pmm.AllocPage();
      MapNext(page);
      heapMax := heapMax + PAGE_SIZE;
      heapFrames := hf0 + [page];
      tableFrames := if needs then tf0 + [free0[|free0|-2]] else tf0;
    }

    /** The mapping of the page at `heap_max`. */
    method MapNext(page: nat)
      requires Wired() && HEAP_VPN + |heapFrames| < PAGES
      requires heapMax < PAGES * PAGE_SIZE && PageOf(heapMax) == HEAP_VPN + |heapFrames|
      requires Absent(space.pgd[..], PgdIndex(HEAP_VPN + |heapFrames|)) ==>
                 pmm.Free() != [] && space.FreshFrame(pmm.Free()[|pmm.Free()|-1])
      modifies pmm, space, space.pgd
      ensures pmm.Valid() && space.Valid() && Mapped(space.pgd[..], space.tables, heapFrames + [page])
      ensures var free, i := old(pmm.Free()), PgdIndex(HEAP_VPN + |heapFrames|);
              if old(Absent(space.pgd[..], i)) then
                && pmm.Free() == free[..|free|-1]
                && space.pgd[..] == old(space.pgd[..])[i := free[|free|-1] + PTE_PRESENT + PTE_WRITE]
              else pmm.Free() == free && space.pgd[..] == old(space.pgd[..])
    {
      hide Mapped, WellFormed;
      ghost var dir0: seq<nat>, tables0: Tables := space.pgd[..], space.tables;
      space.Map(heapMax, page, PTE_PRESENT + PTE_WRITE + PTE_USER);
      MappedAfterMap(dir0, tables0, space.pgd[..], space.tables, heapFrames, page);
    }

    /** The loop of `free_chunk`: gives back the pages that lie wholly at or after `chunk`. */
    method ShrinkTo(chunk: nat)
      requires Valid() && HEAP_START <= chunk <= heapMax
      modifies this`heapMax, this`heapFrames, pmm, pmm.stack, space`tables
      ensures Valid() && heapMax == RoundUp(chunk)
      ensures heapFrames <= old(heapFrames) && tableFrames == old(tableFrames)
    {
      hide Conserved, Mapped;
      while heapMax - PAGE_SIZE >= chunk
        invariant Valid() && HEAP_START <= chunk <= heapMax
        invariant heapFrames <= old(heapFrames) && tableFrames == old(tableFrames)
        decreases heapMax
      {
        ShrinkAccounted();
      }
    }

    /** A round of the releasing loop with its bookkeeping. */
    method ShrinkAccounted()
      requires Valid() && heapFrames != []
      modifies this`heapMax, this`heapFrames, pmm, pmm.stack, space`tables
      ensures Valid() && heapMax == old(heapMax) - PAGE_SIZE
      ensures heapFrames <= old(heapFrames)
    {
      hide Conserved, Mapped;
      ghost var dir0: seq<nat>, free0: seq<nat>, hf0, tf0 := space.pgd[..], pmm.Free(), heapFrames, tableFrames;
      FramesBound();
      LastHeapFrame(free0, hf0, tf0, all, dir0);
      ShrinkOne();
      GiveBack(free0, hf0, tf0, all, dir0);
    }

    method ShrinkOne()
      requires Wired() && heapFrames != [] && |heapFrames| <= MAX_FRAMES
      requires heapFrames[|heapFrames|-1] % PAGE_SIZE == 0 && |pmm.Free()| < PAGE_MAX_SIZE
      modifies this`heapMax, this`heapFrames, pmm, pmm.stack, space`tables
      ensures Wired() && heapMax == old(heapMax) - PAGE_SIZE
      ensures heapFrames == old(heapFrames)[..|old(heapFrames)|-1]
      ensures pmm.Free() == old(pmm.Free()) + [old(heapFrames)[|old(heapFrames)|-1]]
    {
      ghost var hf0 := heapFrames;
      heapMax := heapMax - PAGE_SIZE;
      ghost var u := HEAP_VPN + |hf0| - 1;
      assert PageOf(heapMax) == u;
      assert Entry(space.pgd[..], space.tables, u) == FrameOf(hf0[|hf0|-1]) + PTE_PRESENT + PTE_WRITE + PTE_USER;
      var _, page := space.GetMapping(heapMax);
      assert page == hf0[|hf0|-1];
      space.Unmap(heapMax);
      pmm.FreePage(page);
      heapFrames := heapFrames[..|heapFrames|-1];
    }
  }
}
