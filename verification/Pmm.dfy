/**
 The physical page allocator (mm/pmm.c): a stack of free frames in `pmm_stack[1..top]`.
 */
module Pmm {
  import opened Counting
  import opened Words

  const PAGE_SIZE := 4096
  const PMM_MAX_SIZE := 0x2000_0000
  const PAGE_MAX_SIZE := PMM_MAX_SIZE / PAGE_SIZE

  /** How many pages `size` bytes need. */
  function PagesFor(size: int): (k: nat)
    ensures size <= 0 ==> k == 0
    ensures size > 0 ==> (k - 1) * PAGE_SIZE < size <= k * PAGE_SIZE
  {
    if size <= 0 then 0 else (size + PAGE_SIZE - 1) / PAGE_SIZE
  }

  lemma PagesForIs(size: int, k: nat)
    requires size <= k * PAGE_SIZE && (k > 0 ==> (k - 1) * PAGE_SIZE < size)
    ensures k == PagesFor(size)
  {
  }

  /** The frames of `s` in order are `PAGE_SIZE` apart. */
  ghost predicate Consecutive(s: seq<nat>) {
    forall i, j | 0 <= i && j == i + 1 < |s| :: s[j] == s[i] + PAGE_SIZE
  }

  class Allocator {
    const stack: array<nat>
    var top: nat
    var count: nat

    ghost predicate Valid()
      reads this
    {
      stack.Length == PAGE_MAX_SIZE + 1 && top < stack.Length && count == top
    }

    /** The free frames, the next one to be handed out last. */
    ghost function Free(): seq<nat>
      requires Valid()
      reads this, stack
    {
      stack[1..top+1]
    }

    constructor ()
      ensures Valid() && fresh(stack) && Free() == []
    {
      stack := new nat[PAGE_MAX_SIZE + 1];
      top, count := 0, 0;
    }

    /** The caller must know that a frame is free: the source does not check. */
    method AllocPage() returns (page: nat)
      requires Valid() && Free() != []
      modifies this
      ensures Valid()
      ensures page == old(Free())[|old(Free())|-1] && Free() == old(Free())[..|old(Free())|-1]
    {
      page := stack[top];
      top := top - 1;
      count := count - 1;
    }

    /**
     As written, with the stack possibly empty: then the slot below the stack is handed out, the
     32-bit stack top wraps, and the next access is outside the stack.
     */
    method AllocPageAsWritten() returns (page: nat)
      requires Valid()
      modifies this
      ensures page == stack[old(top)]
      ensures top == count == if old(top) > 0 then old(top) - 1 else WORD - 1
      ensures Valid() <==> old(Free()) != []
    {
      page := stack[top];
      top := (top + WORD - 1) % WORD;
      count := (count + WORD - 1) % WORD;
    }

    method FreePage(p: nat)
      requires Valid() && |Free()| < PAGE_MAX_SIZE
      modifies this, stack
      ensures Valid() && Free() == old(Free()) + [p]
    {
      top := top + 1;
      stack[top] := p;
      count := count + 1;
    }

    /**
     Takes the frames for `size` bytes off the stack and returns the last one taken, or takes
     none and returns 0 when they do not suffice.
     */
    method AllocPmm(size: int) returns (addr: nat)
      requires Valid()
      modifies this
      ensures Valid()
      ensures var k, free := PagesFor(size), old(Free());
              if k <= |free| then
                Free() == free[..|free|-k] && addr == if k == 0 then 0 else free[|free|-k]
              else
                top == old(top) && Free() == free && addr == 0
    {
      addr := 0;
      var mark, cnt, left := top, count, size;
      ghost var k := 0;
      while left > 0
        invariant top < stack.Length && count == top && 0 <= k <= old(top) && top == old(top) - k
        invariant left == size - k * PAGE_SIZE && k <= PagesFor(size)
        invariant k > 0 ==> addr == stack[top+1]
        invariant k == 0 ==> addr == 0
        invariant k > 0 ==> left > -PAGE_SIZE
      {
        if count == 0 {
          top := mark;
          count := cnt;
          return 0;
        }
        addr := stack[top];
        top := top - 1;
        left := left - PAGE_SIZE;
        count := count - 1;
        k := k + 1;
      }
      PagesForIs(size, k);
      assert Free() == old(Free())[..|old(Free())|-k];
    }

    /**
     The push loop of `init_pmm` over one memory region: frees every page from `start` below
     `length`, up to and including PMM_MAX_SIZE.
     */
    method PushRegion(start: nat, length: nat) returns (end: nat)
      requires Valid() && Free() == []
      requires 0 < start && start % PAGE_SIZE == 0
      modifies this, stack
      ensures Valid() && Consecutive(Free())
      ensures forall f: nat :: f in Free() <==>
                start <= f && f % PAGE_SIZE == 0 && f < length && f <= PMM_MAX_SIZE
      ensures forall i | 0 <= i < |Free()| :: Free()[i] == start + i * PAGE_SIZE
      ensures end == start + |Free()| * PAGE_SIZE
    {
      var page := start;
      while page < length && page <= PMM_MAX_SIZE
        invariant Valid() && page == start + |Free()| * PAGE_SIZE
        invariant forall i | 0 <= i < |Free()| :: Free()[i] < length && Free()[i] <= PMM_MAX_SIZE
        invariant forall i | 0 <= i < |Free()| :: Free()[i] == start + i * PAGE_SIZE
        decreases PMM_MAX_SIZE + PAGE_SIZE - page
      {
        assert page >= (|Free()| + 1) * PAGE_SIZE;
        FreePage(page);
        page := page + PAGE_SIZE;
      }
      end := page;
      forall f: nat
        ensures f in Free() <==> start <= f && f % PAGE_SIZE == 0 && f < length && f <= PMM_MAX_SIZE
      {
        RegionMembers(Free(), start, length, f);
      }
    }
  }

  /** The pages from `start` on up to the end of the region or of the managed memory. */
  lemma RegionMembers(s: seq<nat>, start: nat, length: nat, f: nat)
    requires start % PAGE_SIZE == 0 && forall i | 0 <= i < |s| :: s[i] == start + i * PAGE_SIZE
    requires forall i | 0 <= i < |s| :: s[i] < length && s[i] <= PMM_MAX_SIZE
    requires start + |s| * PAGE_SIZE >= length || start + |s| * PAGE_SIZE > PMM_MAX_SIZE
    ensures f in s <==> start <= f && f % PAGE_SIZE == 0 && f < length && f <= PMM_MAX_SIZE
  {
    if start <= f && f % PAGE_SIZE == 0 && f < length && f <= PMM_MAX_SIZE {
      var i := (f - start) / PAGE_SIZE;
      assert f == start + i * PAGE_SIZE;
      assert s[i] == f;
    }
  }

  // --------------------------------------------------- when a block really is a block

  /** The frames of the block of `k` pages at `addr`. */
  ghost predicate InBlock(f: nat, addr: nat, k: nat) {
    addr <= f < addr + k * PAGE_SIZE && (f - addr) % PAGE_SIZE == 0
  }

  /** A consecutive ascending stack top makes the result the base of a contiguous block. */
  lemma ConsecutiveIsBlock(popped: seq<nat>, f: nat)
    requires popped != [] && Consecutive(popped)
    ensures f in popped <==> InBlock(f, popped[0], |popped|)
  {
    forall i | 0 <= i < |popped| ensures popped[i] == popped[0] + i * PAGE_SIZE {
      ConsecutiveAt(popped, i);
    }
    if InBlock(f, popped[0], |popped|) {
      var i := (f - popped[0]) / PAGE_SIZE;
      assert f == popped[0] + i * PAGE_SIZE;
      assert popped[i] == f;
    }
  }

  lemma {:induction false} ConsecutiveAt(s: seq<nat>, i: nat)
    requires i < |s| && Consecutive(s)
    ensures s[i] == s[0] + i * PAGE_SIZE
  {
    if i > 0 {
      ConsecutiveAt(s, i - 1);
      assert s[i] == s[i-1] + PAGE_SIZE;
    }
  }

  ghost predicate AllInside(popped: seq<nat>, base: nat) {
    forall i | 0 <= i < |popped| :: base <= popped[i] < base + |popped| * PAGE_SIZE
  }

  ghost predicate Covered(popped: seq<nat>, base: nat) {
    forall f: nat | InBlock(f, base, |popped|) :: f in popped
  }

  ghost predicate DistinctFrames(s: seq<nat>) {
    && (forall i | 0 <= i < |s| :: s[i] % PAGE_SIZE == 0)
    && (forall i, j | 0 <= i < j < |s| :: s[i] != s[j])
  }

  lemma InsideCovers(popped: seq<nat>, base: nat, f: nat)
    requires DistinctFrames(popped) && AllInside(popped, base) && base % PAGE_SIZE == 0
    requires InBlock(f, base, |popped|)
    ensures f in popped
  {
    var k := |popped|;
    var places := seq(k, i requires 0 <= i < k => PlaceIn(popped[i], base, k));
    forall a, b | 0 <= a < b < k ensures places[a] != places[b] {
      assert popped[a] == base + places[a] * PAGE_SIZE && popped[b] == base + places[b] * PAGE_SIZE;
    }
    Pigeonhole(places, k, PlaceIn(f, base, k));
    var i :| 0 <= i < k && places[i] == PlaceIn(f, base, k);
    assert popped[i] == base + places[i] * PAGE_SIZE == f;
  }

  function PlaceIn(f: nat, base: nat, k: nat): (i: nat)
    requires base % PAGE_SIZE == 0 && f % PAGE_SIZE == 0 && base <= f < base + k * PAGE_SIZE
    ensures i < k && f == base + i * PAGE_SIZE
  {
    (f - base) / PAGE_SIZE
  }

  lemma CoveredInside(popped: seq<nat>, base: nat, j: nat)
    requires DistinctFrames(popped) && Covered(popped, base) && j < |popped|
    ensures base <= popped[j] < base + |popped| * PAGE_SIZE
  {
    var k := |popped|;
    var block := seq(k, i requires 0 <= i < k => base + i * PAGE_SIZE);
    forall i | 0 <= i < k ensures block[i] in popped { assert InBlock(block[i], base, k); }
    if popped[j] !in block {
      ElementsSize(block);
      ElementsSize(popped);
      assert Elements(block) <= Elements(popped) - {popped[j]};
      SubsetSize(Elements(block), Elements(popped) - {popped[j]});
    }
  }

  /**
   In general, for distinct page-aligned frames: the block at the returned address consists of
   frames just taken if and only if every frame taken lies inside it.
   */
  lemma IsBlockIff(popped: seq<nat>)
    requires popped != [] && DistinctFrames(popped)
    ensures Covered(popped, popped[0]) <==> AllInside(popped, popped[0])
  {
    if AllInside(popped, popped[0]) {
      forall f: nat | InBlock(f, popped[0], |popped|) ensures f in popped { InsideCovers(popped, popped[0], f); }
    }
    if Covered(popped, popped[0]) {
      forall i | 0 <= i < |popped| ensures popped[0] <= popped[i] < popped[0] + |popped| * PAGE_SIZE {
        CoveredInside(popped, popped[0], i);
      }
    }
  }

  /** The `k` frames on top of the stack, the last one to be taken first. */
  function Top(free: seq<nat>, k: nat): (top: seq<nat>)
    requires k <= |free|
    ensures |top| == k
  {
    free[|free|-k..]
  }

  lemma TopDistinct(free: seq<nat>, k: nat)
    requires k <= |free| && DistinctFrames(free)
    ensures DistinctFrames(Top(free, k))
  {
  }

  /**
   What a caller can check on the stack before the call: the block that `alloc_pmm` will return
   consists of frames taken by it if and only if the frames on top of the stack all lie within as
   many pages as they are, from the deepest of them on.
   */
  lemma AllocIsBlockIff(free: seq<nat>, size: int)
    requires DistinctFrames(free) && 0 < PagesFor(size) <= |free|
    ensures var k := PagesFor(size);
            var addr := free[|free|-k];
            ((forall f: nat | InBlock(f, addr, k) :: f in Top(free, k)) <==>
             (forall i | |free| - k <= i < |free| :: addr <= free[i] < addr + k * PAGE_SIZE))
  {
    var k := PagesFor(size);
    var addr, top := free[|free|-k], Top(free, k);
    TopDistinct(free, k);
    IsBlockIff(top);
    assert top[0] == addr;
    assert AllInside(top, addr) <==> forall i | |free| - k <= i < |free| :: addr <= free[i] < addr + k * PAGE_SIZE by {
      if AllInside(top, addr) {
        forall i | |free| - k <= i < |free| ensures addr <= free[i] < addr + k * PAGE_SIZE {
          assert top[i - (|free| - k)] == free[i];
        }
      }
    }
  }

  /**
   Two neighbouring frames freed with the higher one first: the next call for two pages succeeds,
   takes both, and returns an address whose second page it did not take.
   */
  method FreedInOtherOrder(a: Allocator, f: nat) returns (addr: nat)
    requires a.Valid() && |a.Free()| + 2 <= PAGE_MAX_SIZE && PAGE_SIZE < f && f % PAGE_SIZE == 0
    modifies a, a.stack
    ensures a.Valid() && a.Free() == old(a.Free())
    ensures addr == f && InBlock(f + PAGE_SIZE, addr, 2) && f + PAGE_SIZE !in [f, f - PAGE_SIZE]
  {
    ghost var free0 := a.Free();
    a.FreePage(f);
    a.FreePage(f - PAGE_SIZE);
    assert a.Free() == free0 + [f, f - PAGE_SIZE];
    PagesForIs(2 * PAGE_SIZE, 2);
    addr := a.AllocPmm(2 * PAGE_SIZE);
    assert a.Free() == (free0 + [f, f - PAGE_SIZE])[..|free0|] == free0;
  }
}
