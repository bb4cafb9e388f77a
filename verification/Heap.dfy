/**
 The kernel heap as the code keeps it (mm/heap.c): headers in memory linked both ways, a pointer
 to the first, and whole pages under them. Every method is proved to do to the list of chunks
 what module HeapSpec says.
 */
module Heap {
  import opened Sequences
  import opened HeapSpec
  import opened HeapLinks
  import opened HeapPages
  import opened Words
  import opened Pmm
  import opened PageTables
  import W = HeapAsWritten

  lemma RoundUpIs(a: nat, r: nat)
    requires a <= r < a + PAGE_SIZE && r % PAGE_SIZE == 0
    ensures r == RoundUp(a)
  {
  }

  /** Growing to a new end page by page lands on the first page boundary at or after it. */
  lemma GrownIsRoundUp(end: nat, max: nat, end': nat)
    requires max == RoundUp(end) && end <= end'
    ensures max + PagesTo(max, end') * PAGE_SIZE == RoundUp(end')
  {
    RoundUpIs(end', max + PagesTo(max, end') * PAGE_SIZE);
  }

  class Heap {
    const pages: Pages
    var heapFirst: nat
    var mem: Memory
    ghost var chunks: Chunks

    ghost predicate Linked()
      reads this
    {
      Tiled(chunks) && Stored(mem, heapFirst, chunks)
    }

    ghost predicate Valid()
      reads this, pages, pages.pmm, pages.pmm.stack, pages.space, pages.space.pgd
    {
      && HeapSpec.Valid(chunks) && Linked() && pages.Valid()
      // the fewest pages that cover the live chunks
      && pages.heapMax == RoundUp(End(chunks))
    }

    constructor (pages: Pages)
      requires pages.Valid() && pages.heapMax == HEAP_START
      ensures Valid() && this.pages == pages && chunks == []
    {
      this.pages := pages;
      heapFirst := 0;
      mem := map[];
      chunks := [];
    }

    /** Chunk lengths fit the 31-bit field of the header, and no address in the heap wraps around. */
    lemma LengthFitsField(i: nat)
      requires Valid() && i < |chunks|
      ensures chunks[i].len < 0x8000_0000 && EndOf(chunks[i]) < WORD
    {
      pages.FramesBound();
      TiledOrder(chunks, 0, i);
      TiledOrder(chunks, i, |chunks| - 1);
    }

    /** The frames that a request needs are free; the source does not check this. */
    ghost predicate Affordable(len: nat)
      requires Valid()
      reads this, pages, pages.pmm, pages.pmm.stack, pages.space, pages.space.pgd
    {
      FirstFit(chunks, len + HEADER) == |chunks| ==>
        pages.Affordable(PagesTo(pages.heapMax, End(chunks) + len + HEADER))
    }

    /** What `Kmalloc` requires makes its request one that the source serves as written. */
    lemma AffordableIsServed(len: nat)
      requires Valid() && Affordable(len) && len + HEADER < WORD
      ensures RoundUp(End(chunks)) < WORD && W.Served(chunks, len)
    {
      hide Conserved, Mapped, Cost, W.Served;
      pages.RoomForFrames(0);
      if FirstFit(chunks, len + HEADER) == |chunks| {
        var n := PagesTo(pages.heapMax, End(chunks) + len + HEADER);
        pages.AffordableFits(n);
      }
      W.ServedIff(chunks, len);
    }

    /** `len` plus a header must not wrap around; then nothing else in `kmalloc` does. */
    method Kmalloc(len: nat) returns (p: nat)
      requires Valid() && Affordable(len) && len + HEADER < WORD
      modifies this, pages`heapMax, pages`heapFrames, pages`tableFrames, pages.pmm, pages.space, pages.space.pgd
      ensures Valid() && chunks == Malloc(old(chunks), len)
      ensures Placed(old(chunks), len) < |chunks| && p == chunks[Placed(old(chunks), len)].start + HEADER
    {
      hide HeapSpec.Valid, Tiled, Stored, Carve, FirstFitFrom, Malloc, Replace, End, Conserved, Mapped, Cost;
      MallocKeepsValid(chunks, len);
      MallocPlace(chunks, len);
      var n := len + HEADER;
      var found, cur, prev, k := FindFit(n);
      if found {
        Take(cur, n, len, k);
        return cur + HEADER;
      }
      p := Append(prev, n, len);
    }

    /** The walk of `kmalloc`: the first free chunk that is long enough, or the last chunk. */
    method FindFit(n: nat) returns (found: bool, cur: nat, prev: nat, ghost k: nat)
      requires Linked()
      ensures k == FirstFit(chunks, n)
      ensures found <==> k < |chunks|
      ensures found ==> cur == chunks[k].start
      ensures !found ==> prev == if chunks == [] then 0 else chunks[|chunks|-1].start
    {
      hide Tiled, Stored, FirstFitFrom;
      cur, prev, k := heapFirst, 0, 0;
      FirstLink(mem, heapFirst, chunks);
      while cur != 0
        invariant 0 <= k <= |chunks|
        invariant cur == if k < |chunks| then chunks[k].start else 0
        invariant prev == if k == 0 then 0 else chunks[k-1].start
        invariant forall j | 0 <= j < k :: !Suits(chunks[j], n)
        decreases |chunks| - k
      {
        HeaderAt(mem, heapFirst, chunks, k);
        if !mem[cur].inUse && mem[cur].length >= n {
          FirstFitUnique(chunks, n, k);
          return true, cur, prev, k;
        }
        prev := cur;
        cur := mem[cur].next;
        k := k + 1;
      }
      if k < |chunks| { StartsDiffer(chunks, k, k); }
      FirstFitUnique(chunks, n, k);
      found := false;
    }

    /** The free chunk `k` is split if it is long enough and marked. */
    method Take(cur: nat, n: nat, ghost req: nat, ghost k: nat)
      requires Linked() && n == req + HEADER && k < |chunks| && cur == chunks[k].start && n <= chunks[k].len
      modifies this
      ensures Linked() && chunks == Replace(old(chunks), k, k + 1, Carve(old(chunks)[k], n, req))
    {
      hide Tiled, Stored, Carve, Split;
      SplitThenMark(chunks, k, n, req);
      SplitChunk(cur, n, k);
      MarkStores(mem, heapFirst, chunks, k, true, req);
      mem := mem[cur := mem[cur].(inUse := true)];
      chunks := chunks[k := chunks[k].(used := true, req := req)];
    }

    /** Repaired: the back link of the chunk behind is set, which the source forgets. */
    method SplitChunk(chunk: nat, len: nat, ghost k: nat)
      requires Linked() && k < |chunks| && chunk == chunks[k].start && HEADER <= len <= chunks[k].len
      modifies this
      ensures Linked() && chunks == Split(old(chunks), k, len)
      ensures k < |chunks| && chunks[k].start == chunk
    {
      hide Tiled, Stored;
      HeaderAt(mem, heapFirst, chunks, k);
      StartsDiffer(chunks, k, k);
      SplitTiled(chunks, k, len);
      if mem[chunk].length - len > HEADER {
        ghost var m0 := mem;
        SplitStores(m0, heapFirst, chunks, k, len);
        SplitAt(chunks, k, len);
        var newchunk, next := chunk + len, mem[chunk].next;
        mem := mem[newchunk := Header(chunk, next, false, mem[chunk].length - len)];
        if next != 0 {
          HeaderAt(m0, heapFirst, chunks, k + 1);
          StartsDiffer(chunks, k + 1, k);
          SplitPlace(chunks, k, len, k + 1);
          mem := mem[next := mem[next].(prev := newchunk)];
        }
        mem := mem[chunk := mem[chunk].(next := newchunk, length := len)];
        assert mem == SplitMemory(m0, chunk, len);
      }
      chunks := Split(chunks, k, len);
    }

    /** The tail of `kmalloc`: a new chunk behind the last one. */
    method Append(prev: nat, n: nat, ghost req: nat) returns (p: nat)
      requires Valid() && n == req + HEADER && FirstFit(chunks, n) == |chunks|
      requires prev == if chunks == [] then 0 else chunks[|chunks|-1].start
      requires pages.Affordable(PagesTo(pages.heapMax, End(chunks) + n))
      modifies this, pages`heapMax, pages`heapFrames, pages`tableFrames, pages.pmm, pages.space, pages.space.pgd
      ensures Valid() && chunks == old(chunks) + [Chunk(End(old(chunks)), n, true, req)]
      ensures p == End(old(chunks)) + HEADER
    {
      hide HeapSpec.Valid, Tiled, Stored, Conserved, Mapped, Cost, WellFormed;
      ghost var c, first0 := Chunk(End(chunks), n, true, req), heapFirst;
      AppendTiles(chunks, c);
      AppendSound(chunks, c);
      FirstLink(mem, heapFirst, chunks);
      if chunks != [] {
        LastInHeap(chunks);
        HeaderAt(mem, heapFirst, chunks, |chunks| - 1);
      }
      var start;
      if prev != 0 {
        start := prev + mem[prev].length;
      } else {
        start := HEAP_START;
        heapFirst := start;
      }
      Reach(start, n);
      WriteLast(start, prev, n, first0, req);
      p := start + HEADER;
    }

    /** The pages up to the end of the new last chunk. */
    method Reach(start: nat, n: nat)
      requires pages.Valid() && start == End(chunks) && pages.heapMax == RoundUp(start)
      requires pages.Affordable(PagesTo(pages.heapMax, start + n))
      modifies pages`heapMax, pages`heapFrames, pages`tableFrames, pages.pmm, pages.space, pages.space.pgd
      ensures pages.Valid() && pages.heapMax == RoundUp(start + n)
    {
      hide Conserved, Mapped, Cost, WellFormed;
      GrownIsRoundUp(start, pages.heapMax, start + n);
      pages.AllocChunk(start, n);
    }

    /** The header of the new last chunk, and the link to it. */
    method WriteLast(start: nat, prev: nat, n: nat, ghost first0: nat, ghost req: nat)
      requires Tiled(chunks) && Stored(mem, first0, chunks) && start == End(chunks) && HEADER <= n
      requires prev == if chunks == [] then 0 else chunks[|chunks|-1].start
      requires heapFirst == if chunks == [] then start else first0
      modifies this`mem, this`chunks
      ensures Linked() && chunks == old(chunks) + [Chunk(start, n, true, req)]
    {
      hide Tiled, Stored;
      ghost var m0, cs, c := mem, chunks, Chunk(start, n, true, req);
      AppendTiles(cs, c);
      FirstLink(m0, first0, cs);
      if cs != [] {
        LastInHeap(cs);
        HeaderAt(m0, first0, cs, |cs| - 1);
      }
      mem := mem[start := Header(prev, 0, true, n)];
      if prev != 0 { mem := mem[prev := mem[prev].(next := start)]; }
      AppendStores(m0, first0, cs, c, mem);
      chunks := cs + [c];
    }

    /** `p` is the payload of the live chunk `k`. */
    method Kfree(p: nat, ghost k: nat)
      requires Valid() && k < |chunks| && chunks[k].used && p == chunks[k].start + HEADER
      modifies this, pages`heapMax, pages`heapFrames, pages.pmm, pages.pmm.stack, pages.space`tables
      ensures Valid() && chunks == Release(old(chunks), k)
    {
      hide HeapSpec.Valid, Tiled, Stored, Release, GluedNext, GluedPrev, TailCut, Conserved, Mapped, End;
      FreedEnd(chunks, k);
      ReleaseKeepsValid(chunks, k);
      ReleaseSteps(chunks, k);
      var header := p - HEADER;
      MarkStores(mem, heapFirst, chunks, k, false, 0);
      mem := mem[header := mem[header].(inUse := false)];
      chunks := Freed(chunks, k);
      GlueChunk(header, k);
    }

    method GlueChunk(freed: nat, ghost k: nat)
      requires Linked() && pages.Valid() && pages.heapMax == RoundUp(End(chunks))
      requires k < |chunks| && freed == chunks[k].start
      modifies this, pages`heapMax, pages`heapFrames, pages.pmm, pages.pmm.stack, pages.space`tables
      ensures Linked() && pages.Valid() && pages.heapMax == RoundUp(End(chunks))
      ensures k < |GluedNext(old(chunks), k)|
      ensures var c3 := GluedPrev(GluedNext(old(chunks), k), k);
              Low(old(chunks), k) < |c3| && chunks == TailCut(c3, Low(old(chunks), k))
    {
      hide Tiled, Stored, GluedNext, GluedPrev, End, Conserved, Mapped;
      GlueNext(freed, k);
      var chunk := GluePrev(freed, k);
      ghost var j := Low(old(chunks), k);
      HeaderAt(mem, heapFirst, chunks, j);
      if j + 1 < |chunks| { StartsDiffer(chunks, j + 1, j); }
      if mem[chunk].next == 0 { FreeChunk(chunk); }
    }

    /** Glues the chunk behind to chunk `k` if it is free. */
    method GlueNext(chunk: nat, ghost k: nat)
      requires Linked() && k < |chunks| && chunk == chunks[k].start
      modifies this
      ensures Linked() && chunks == GluedNext(old(chunks), k) && End(chunks) == End(old(chunks))
      ensures k < |chunks| && chunks[k].start == chunk
      ensures k > 0 ==> chunks[k-1] == old(chunks)[k-1]
    {
      hide Tiled, Stored, JoinMemory, Join, End;
      ghost var m0, cs := mem, chunks;
      HeaderAt(m0, heapFirst, cs, k);
      if k + 1 < |cs| { HeaderAt(m0, heapFirst, cs, k + 1); StartsDiffer(cs, k + 1, k); }
      var next := mem[chunk].next;
      if next != 0 && !mem[next].inUse {
        JoinTiled(cs, k);
        JoinHeaders(cs, k, k);
        JoinAt(cs, k);
        JoinStores(m0, heapFirst, cs, k);
        mem := mem[chunk := mem[chunk].(length := mem[chunk].length + mem[next].length)];
        if mem[next].next != 0 {
          HeaderAt(m0, heapFirst, cs, k + 2);
          StartsDiffer(cs, k + 2, k);
          StartsDiffer(cs, k + 2, k + 1);
          mem := mem[mem[next].next := mem[mem[next].next].(prev := chunk)];
        }
        mem := mem[chunk := mem[chunk].(next := mem[next].next)];
        NextWrites(m0, chunk);
        chunks := Join(cs, k);
      }
    }

    /** Glues chunk `k` to the chunk before it if that is free; returns the chunk it is now in. */
    method GluePrev(freed: nat, ghost k: nat) returns (chunk: nat)
      requires Linked() && k < |chunks| && freed == chunks[k].start
      modifies this
      ensures Linked() && chunks == GluedPrev(old(chunks), k) && End(chunks) == End(old(chunks))
      ensures Low(old(chunks), k) < |chunks| && chunk == chunks[Low(old(chunks), k)].start
    {
      hide Tiled, Stored, JoinMemory, Join, End;
      ghost var m0, cs := mem, chunks;
      chunk := freed;
      HeaderAt(m0, heapFirst, cs, k);
      if k > 0 { HeaderAt(m0, heapFirst, cs, k - 1); StartsDiffer(cs, k - 1, k); }
      var prev := mem[chunk].prev;
      if prev != 0 && !mem[prev].inUse {
        JoinTiled(cs, k - 1);
        JoinHeaders(cs, k - 1, k - 1);
        JoinStores(m0, heapFirst, cs, k - 1);
        mem := mem[prev := mem[prev].(length := mem[prev].length + mem[chunk].length)];
        mem := mem[prev := mem[prev].(next := mem[chunk].next)];
        if mem[chunk].next != 0 {
          HeaderAt(m0, heapFirst, cs, k + 1);
          StartsDiffer(cs, k + 1, k);
          StartsDiffer(cs, k + 1, k - 1);
          mem := mem[mem[chunk].next := mem[mem[chunk].next].(prev := prev)];
        }
        PrevWrites(m0, prev, chunk);
        chunks := Join(cs, k - 1);
        chunk := prev;
      }
    }

    /** Takes the last chunk off the list and gives back the pages it no longer needs. */
    method FreeChunk(chunk: nat)
      requires Linked() && pages.Valid() && pages.heapMax == RoundUp(End(chunks))
      requires chunks != [] && chunk == chunks[|chunks|-1].start
      modifies this, pages`heapMax, pages`heapFrames, pages.pmm, pages.pmm.stack, pages.space`tables
      ensures Linked() && pages.Valid() && pages.heapMax == RoundUp(End(chunks))
      ensures chunks == old(chunks)[..|old(chunks)|-1]
    {
      hide Tiled, Stored, Conserved, Mapped;
      ghost var m0, cs, first0 := mem, chunks, heapFirst;
      ghost var k := |cs| - 1;
      FirstLink(m0, first0, cs);
      HeaderAt(m0, heapFirst, cs, k);
      if k > 0 { HeaderAt(m0, heapFirst, cs, k - 1); StartsDiffer(cs, k - 1, k); }
      if mem[chunk].prev == 0 {
        heapFirst := 0;
      } else {
        mem := mem[mem[chunk].prev := mem[mem[chunk].prev].(next := 0)];
      }
      CutStores(m0, first0, cs, mem);
      LastInHeap(cs);
      pages.ShrinkTo(chunk);
      chunks := cs[..k];
    }
  }

  /** `init_pmm`: the pages of the one memory region that is used. */
  method BootFrames(start: nat, length: nat) returns (pmm: Allocator)
    requires 0 < start && start % PAGE_SIZE == 0
    ensures fresh(pmm) && fresh(pmm.stack) && pmm.Valid()
    ensures forall f: nat :: f in pmm.Free() <==>
              start <= f && f % PAGE_SIZE == 0 && f < length && f <= PMM_MAX_SIZE
    ensures forall i | 0 <= i < |pmm.Free()| :: pmm.Free()[i] == start + i * PAGE_SIZE && pmm.Free()[i] <= PMM_MAX_SIZE
  {
    pmm := new Allocator();
    var _ := pmm.PushRegion(start, length);
    forall i | 0 <= i < |pmm.Free()| ensures pmm.Free()[i] <= PMM_MAX_SIZE {
      assert pmm.Free()[i] in pmm.Free();
    }
  }

  /** An empty page directory and no heap pages over them. */
  method BootPages(pmm: Allocator, ghost start: nat) returns (pages: Pages)
    requires pmm.Valid() && 0x10_0000 <= start && start % PAGE_SIZE == 0
    requires forall i | 0 <= i < |pmm.Free()| :: pmm.Free()[i] == start + i * PAGE_SIZE && pmm.Free()[i] <= PMM_MAX_SIZE
    ensures fresh(pages) && pages.Valid() && pages.heapMax == HEAP_START && pages.pmm == pmm
    ensures pages.all == multiset(pmm.Free()) && unchanged(pmm) && unchanged(pmm.stack)
  {
    var space := new AddressSpace(pmm);
    hide Conserved, Mapped, WellFormed;
    RegionConserved(pmm.Free(), start, space.pgd[..]);
    NothingMapped(space.pgd[..], space.tables);
    pages := new Pages(space);
  }

  /**
   The start-up in order: frames, page directory, and a heap without chunks. Everything the heap's
   methods require of them then holds.
   */
  method Boot(start: nat, length: nat) returns (heap: Heap)
    requires 0x10_0000 <= start && start % PAGE_SIZE == 0
    ensures fresh(heap) && heap.Valid() && heap.chunks == []
    ensures forall f: nat :: f in heap.pages.pmm.Free() <==>
              start <= f && f % PAGE_SIZE == 0 && f < length && f <= PMM_MAX_SIZE
    ensures heap.pages.all == multiset(heap.pages.pmm.Free())
  {
    hide Conserved, Mapped, WellFormed;
    var pmm := BootFrames(start, length);
    var pages := BootPages(pmm, start);
    heap := new Heap(pages);
  }
}
