/**
 `split_chunk` as the source has it (mm/heap.c:118-131), without the back link of the chunk
 behind: exactly when it leaves the list well linked, and how it loses a live chunk. Then `kmalloc`
 in the machine's widths (mm/heap.c:28-98): exactly which requests it serves.
 */
module HeapAsWritten {
  import opened Sequences
  import opened HeapSpec
  import opened HeapLinks
  import opened Words
  import opened Pmm
  import opened HeapPages

  function SplitAsWritten(m: Memory, chunk: nat, n: nat): Memory
    requires chunk in m && n <= m[chunk].length
  {
    var h := m[chunk];
    if h.length - n > HEADER then
      m[chunk + n := Header(chunk, h.next, false, h.length - n)][chunk := h.(next := chunk + n, length := n)]
    else m
  }

  /** A free chunk that a request takes: split as written, and marked. */
  function TakeAsWritten(m: Memory, chunk: nat, n: nat): Memory
    requires chunk in m && n <= m[chunk].length
  {
    var s := SplitAsWritten(m, chunk, n);
    s[chunk := s[chunk].(inUse := true)]
  }

  /**
   As written, a request that fits a free chunk leaves the links of the list it should leave if
   and only if the chunk is not split.
   */
  lemma LinkedIffNotSplit(m: Memory, first: nat, cs: Chunks, req: nat)
    requires HeapSpec.Valid(cs) && Stored(m, first, cs) && Placed(cs, req) < |cs|
    ensures cs[Placed(cs, req)].start in m && m[cs[Placed(cs, req)].start].length == cs[Placed(cs, req)].len
    ensures var k, n := Placed(cs, req), req + HEADER;
            Stored(TakeAsWritten(m, cs[k].start, n), first, Malloc(cs, req)) <==> cs[k].len - n <= HEADER
  {
    hide Tiled, Stored, Split;
    var k, n := Placed(cs, req), req + HEADER;
    HeaderAt(m, first, cs, k);
    MallocPlace(cs, req);
    SplitThenMark(cs, k, n, req);
    if cs[k].len - n <= HEADER {
      MarkStores(m, first, cs, k, true, req);
      NotSplit(cs, k, n);
    } else {
      StaleLink(m, first, cs, k, n, req);
    }
  }

  lemma NotSplit(cs: Chunks, k: nat, n: nat)
    requires k < |cs| && n <= cs[k].len && cs[k].len - n <= HEADER
    ensures Split(cs, k, n) == cs
  {
  }

  /** After a split the chunk behind still points back at the first half. */
  lemma StaleLink(m: Memory, first: nat, cs: Chunks, k: nat, n: nat, req: nat)
    requires HeapSpec.Valid(cs) && Stored(m, first, cs) && k < |cs| && !cs[k].used
    requires HEADER <= n && cs[k].len - n > HEADER
    requires cs[k].start in m && m[cs[k].start].length == cs[k].len
    ensures !Stored(TakeAsWritten(m, cs[k].start, n), first, Replace(cs, k, k + 1, Carve(cs[k], n, req)))
  {
    hide Tiled, Split;
    FreeHasNext(cs, k);
    var r := Replace(cs, k, k + 1, Carve(cs[k], n, req));
    SplitThenMark(cs, k, n, req);
    SplitAt(cs, k, n);
    HeaderAt(m, first, cs, k + 1);
    StartsDiffer(cs, k + 1, k);
    SplitPlace(cs, k, n, k + 1);
    assert r[k+2] == cs[k+1] && r[k+1].start == cs[k].start + n;
    assert TakeAsWritten(m, cs[k].start, n)[r[k+2].start].prev == cs[k].start;
    assert !StoredAt(TakeAsWritten(m, cs[k].start, n), r, k + 2);
  }

  // ------------------------------------------------------------------- a chunk is lost

  function Address(a: nat, m: Memory): bool {
    a != 0 && a in m
  }

  /** `kfree` on memory: unmark, glue behind, glue before, cut off the tail. */
  function FreeMemory(first: nat, m: Memory, chunk: nat): (nat, Memory)
    requires chunk in m
  {
    var m1 := m[chunk := m[chunk].(inUse := false)];
    var next := m1[chunk].next;
    var m2 := if Address(next, m1) && !m1[next].inUse then JoinMemory(m1, chunk) else m1;
    var prev := m2[chunk].prev;
    var glue := Address(prev, m2) && !m2[prev].inUse;
    var m3 := if glue then GlueBefore(m2, prev, chunk) else m2;
    var last := if glue then prev else chunk;
    if m3[last].next != 0 then (first, m3)
    else if !Address(m3[last].prev, m3) then (0, m3)
    else (first, m3[m3[last].prev := m3[m3[last].prev].(next := 0)])
  }

  /** The second half of `glue_chunk`, which trusts `prev`: nothing says that `prev.next` is `chunk`. */
  function GlueBefore(m: Memory, prev: nat, chunk: nat): (r: Memory)
    requires prev in m && chunk in m
    ensures prev in r
  {
    var p := m[prev].(length := m[prev].length + m[chunk].length, next := m[chunk].next);
    var m1 := m[prev := p];
    if Address(m1[chunk].next, m1) then m1[m1[chunk].next := m1[m1[chunk].next].(prev := prev)] else m1
  }

  const A := HEAP_START
  const N := HEAP_START + 52
  const B := HEAP_START + 112

  /**
   Allocate A and B, free A, allocate part of it and then exactly its rest N, free the part and
   free B: `heap_first` is NULL and N, still allocated, is on no list. With the back link that
   cannot happen: HeapSpec.ReleaseTakesOne.
   */
  lemma LiveChunkIsLost()
    ensures var cs0 := Malloc(Malloc([], 100), 12);
            var m0: Memory := map[A := Header(0, B, true, 112), B := Header(A, 0, true, 24)];
            Stored(m0, A, cs0) && Valid(cs0) && |cs0| == 2 &&
            var (f1, m1) := FreeMemory(A, m0, A);
            A in m1 && m1[A].length >= 52 &&
            var m2 := TakeAsWritten(m1, A, 52);
            N in m2 && m2[N].length == 60 &&
            var m3 := TakeAsWritten(m2, N, 60);
            A in m3 &&
            var (f4, m4) := FreeMemory(f1, m3, A);
            B in m4 &&
            var (f5, m5) := FreeMemory(f4, m4, B);
            f5 == 0 && N in m5 && m5[N].inUse
  {
    var cs0 := Malloc(Malloc([], 100), 12);
    assert Malloc([], 100) == [Chunk(A, 112, true, 100)];
    assert cs0 == [Chunk(A, 112, true, 100), Chunk(B, 24, true, 12)];
    var m0: Memory := map[A := Header(0, B, true, 112), B := Header(A, 0, true, 24)];
    assert StoredAt(m0, cs0, 0) && StoredAt(m0, cs0, 1);
    var m1 := m0[A := Header(0, B, false, 112)];
    assert FreeMemory(A, m0, A) == (A, m1);
    var m2 := TakeAsWritten(m1, A, 52);
    assert m2[A] == Header(0, N, true, 52) && m2[N] == Header(A, B, false, 60) && m2[B] == Header(A, 0, true, 24);
    var m3 := TakeAsWritten(m2, N, 60);
    assert m3[A] == m2[A] && m3[N] == Header(A, B, true, 60) && m3[B] == m2[B];
    var m4 := m3[A := Header(0, N, false, 52)];
    assert FreeMemory(A, m3, A) == (A, m4);
    var m5 := FreeMemory(A, m4, B).1;
    assert m5[N] == m4[N];
  }

  // ------------------------------------------------------- which requests are served

  const LENGTH_LIMIT := 0x8000_0000   // `length` has 31 bits
  const LAST_PAGE := WORD - PAGE_SIZE

  /** The amount that `kmalloc` looks for, in 32-bit arithmetic. */
  function Sought(len: nat): nat {
    (len + HEADER) % WORD
  }

  /** `heap_max` after `m` rounds of the growing loop, in 32-bit arithmetic. */
  function MaxAfter(max: nat, m: nat): nat {
    (max + m * PAGE_SIZE) % WORD
  }

  /** The loop stops after `m` rounds. */
  ghost predicate StopsAfter(max: nat, target: nat, m: nat) {
    target <= MaxAfter(max, m) && forall j: nat | j < m :: MaxAfter(max, j) < target
  }

  /** The length that the header of a new chunk holds. */
  function StoredLength(n: nat): nat {
    n % LENGTH_LIMIT
  }

  /** A free chunk is taken that holds the request and its header. */
  predicate TakesFitting(cs: Chunks, len: nat) {
    var n := Sought(len);
    var k := FirstFit(cs, n);
    k < |cs| && Carve(cs[k], n, len)[0].len >= len + HEADER
  }

  /** A new chunk is made: the loop stops, and header and pages hold the request. */
  ghost predicate MakesFitting(cs: Chunks, len: nat) {
    var n, max := Sought(len), RoundUp(End(cs));
    && FirstFit(cs, n) == |cs|
    && StoredLength(n) >= len + HEADER
    && var target := (End(cs) + n) % WORD;
       exists m: nat :: StopsAfter(max, target, m) && End(cs) + StoredLength(n) <= MaxAfter(max, m)
  }

  /** As written, the pointer returned designates as many bytes as were asked for. */
  ghost predicate Served(cs: Chunks, len: nat) {
    TakesFitting(cs, len) || MakesFitting(cs, len)
  }

  /** What a caller can check: no wrap, and a new chunk stays below the last page of the address space. */
  predicate Servable(cs: Chunks, len: nat) {
    len + HEADER < WORD && (FirstFit(cs, len + HEADER) < |cs| || End(cs) + len + HEADER <= LAST_PAGE)
  }

  /**
   On any heap of 32-bit addresses, and with frames enough, a 32-bit request is served if and only
   if it is servable: its header does not make it wrap, and unless a free chunk fits, the heap can
   grow to hold it without `heap_max` wrapping.
   */
  lemma ServedIff(cs: Chunks, len: nat)
    requires HeapSpec.Valid(cs) && len < WORD && RoundUp(End(cs)) < WORD
    ensures Served(cs, len) <==> Servable(cs, len)
  {
    hide FirstFitFrom, HeapSpec.Valid, Carve;
    if len + HEADER >= WORD {
      WrappedNotServed(cs, len);
    } else {
      SoughtIs(len);
      if FirstFit(cs, len + HEADER) < |cs| {
        CarveHolds(cs[FirstFit(cs, len + HEADER)], len + HEADER, len);
      } else {
        NewServedIff(cs, len);
      }
    }
  }

  lemma SoughtIs(len: nat)
    requires len + HEADER < WORD
    ensures Sought(len) == len + HEADER
  {
  }

  lemma CarveHolds(c: Chunk, n: nat, req: nat)
    requires n <= c.len
    ensures Carve(c, n, req) != [] && n <= Carve(c, n, req)[0].len <= c.len
  {
  }

  lemma ChunkBelowWord(cs: Chunks, k: nat)
    requires HeapSpec.Valid(cs) && k < |cs| && End(cs) < WORD
    ensures cs[k].len < WORD
  {
    TiledOrder(cs, k, |cs| - 1);
  }

  lemma WrappedNotServed(cs: Chunks, len: nat)
    requires HeapSpec.Valid(cs) && len < WORD <= len + HEADER && RoundUp(End(cs)) < WORD
    ensures !Served(cs, len)
  {
    hide FirstFitFrom, HeapSpec.Valid, Carve;
    var n := Sought(len);
    assert n == len + HEADER - WORD;
    assert StoredLength(n) == n;
    var k := FirstFit(cs, n);
    if k < |cs| {
      ChunkBelowWord(cs, k);
      CarveHolds(cs[k], n, len);
    }
  }

  lemma EndAboveStart(cs: Chunks)
    requires HeapSpec.Valid(cs)
    ensures HEAP_START <= End(cs) <= RoundUp(End(cs)) && RoundUp(End(cs)) % PAGE_SIZE == 0
  {
    if cs != [] { LastInHeap(cs); }
  }

  lemma NewServedIff(cs: Chunks, len: nat)
    requires HeapSpec.Valid(cs) && len + HEADER < WORD && RoundUp(End(cs)) < WORD
    requires FirstFit(cs, len + HEADER) == |cs|
    ensures MakesFitting(cs, len) <==> End(cs) + len + HEADER <= LAST_PAGE
  {
    hide FirstFitFrom, HeapSpec.Valid, MakesFitting;
    if End(cs) + len + HEADER <= LAST_PAGE {
      GrowsToFit(cs, len);
    } else if MakesFitting(cs, len) {
      FitsBelow(cs, len);
      assert false;
    }
  }

  lemma GrowsToFit(cs: Chunks, len: nat)
    requires HeapSpec.Valid(cs) && RoundUp(End(cs)) < WORD && FirstFit(cs, len + HEADER) == |cs|
    requires End(cs) + len + HEADER <= LAST_PAGE
    ensures MakesFitting(cs, len)
  {
    hide FirstFitFrom, HeapSpec.Valid, MaxAfter, StopsAfter, RoundUp;
    SoughtIs(len);
    EndAboveStart(cs);
    GrowthStops(RoundUp(End(cs)), End(cs) + len + HEADER);
    ReachesTarget(RoundUp(End(cs)), End(cs) + len + HEADER);
  }

  lemma ReachesTarget(max: nat, target: nat)
    requires StopsAfter(max, target, PagesTo(max, target))
    ensures target <= MaxAfter(max, PagesTo(max, target))
  {
  }

  lemma FitsBelow(cs: Chunks, len: nat)
    requires HeapSpec.Valid(cs) && len + HEADER < WORD && MakesFitting(cs, len)
    ensures End(cs) + len + HEADER <= LAST_PAGE
  {
    hide FirstFitFrom, HeapSpec.Valid, MaxAfter, RoundUp;
    var n, max := len + HEADER, RoundUp(End(cs));
    SoughtIs(len);
    EndAboveStart(cs);
    var m: nat :| StopsAfter(max, (End(cs) + n) % WORD, m) && End(cs) + StoredLength(n) <= MaxAfter(max, m);
    NeverBeyond(max, m);
  }

  /** `heap_max` is a multiple of the page size below 2^32, so it never exceeds the last page. */
  lemma NeverBeyond(max: nat, m: nat)
    requires max % PAGE_SIZE == 0
    ensures MaxAfter(max, m) <= LAST_PAGE
  {
    var pages := max / PAGE_SIZE + m;
    var q, r := pages / 0x10_0000, pages % 0x10_0000;
    assert max + m * PAGE_SIZE == q * WORD + r * PAGE_SIZE;
    assert (q * WORD + r * PAGE_SIZE) % WORD == r * PAGE_SIZE;
  }

  /** A target up to the last page is reached without a wrap, by the fewest pages. */
  lemma GrowthStops(max: nat, target: nat)
    requires max % PAGE_SIZE == 0 && max < WORD && target <= LAST_PAGE
    ensures var m := PagesTo(max, target);
            StopsAfter(max, target, m) && MaxAfter(max, m) == max + m * PAGE_SIZE
  {
    var m := PagesTo(max, target);
    if m > 0 {
      assert (max + m * PAGE_SIZE) % PAGE_SIZE == 0;
      assert max + (m - 1) * PAGE_SIZE < target <= LAST_PAGE;
    }
    forall j: nat | j < m ensures MaxAfter(max, j) < target {
      assert max + j * PAGE_SIZE <= max + (m - 1) * PAGE_SIZE;
    }
  }

  /** A servable request leaves the chunk list of the specification: the intended heap. */
  lemma ServableAsIntended(cs: Chunks, len: nat)
    requires HeapSpec.Valid(cs) && RoundUp(End(cs)) < WORD && Servable(cs, len) && FirstFit(cs, len + HEADER) == |cs|
    ensures Malloc(cs, len) == cs + [Chunk(End(cs), StoredLength(Sought(len)), true, len)]
  {
    SoughtIs(len);
    EndAboveStart(cs);
  }

  /** Two requests that do not wrap by themselves and are not served on an empty heap. */
  lemma LargeRequestsNotServed()
    ensures 0x2000_0000 + HEADER < WORD && !Served([], 0x2000_0000)
    ensures 0x8000_0000 + HEADER < WORD && !Served([], 0x8000_0000)
  {
    ServedIff([], 0x2000_0000);
    ServedIff([], 0x8000_0000);
  }
}
