/**
 The meaning of the kernel heap (mm/heap.c): a list of chunks that tile the heap from
 HEAP_START, each free or allocated. `Malloc` and `Release` say what `kmalloc` and `kfree` do
 to the list; the theorems are about every list that any sequence of them can produce.
 */
module HeapSpec {
  import opened Sequences

  const HEAP_START := 0xE000_0000
  const HEADER := 12   // sizeof(header_t)

  /** `req` is the number of bytes asked for, 0 in a free chunk. */
  datatype Chunk = Chunk(start: nat, len: nat, used: bool, req: nat)

  type Chunks = seq<Chunk>

  function EndOf(c: Chunk): nat {
    c.start + c.len
  }

  /** The address after the last chunk. */
  function End(cs: Chunks): nat {
    if cs == [] then HEAP_START else EndOf(cs[|cs|-1])
  }

  // ----------------------------------------------------------------- the invariant

  /** The chunks tile [HEAP_START, End) with no gap or overlap. */
  ghost predicate Tiled(cs: Chunks) {
    && (cs != [] ==> cs[0].start == HEAP_START)
    && (forall i, j | 0 <= i && j == i + 1 < |cs| :: cs[j].start == EndOf(cs[i]))
    && (forall i | 0 <= i < |cs| :: HEADER <= cs[i].len)
  }

  /** An allocated chunk holds its request with at most one header spare. */
  predicate Fits(c: Chunk) {
    if c.used then c.req + HEADER <= c.len <= c.req + 2 * HEADER else c.req == 0
  }

  ghost predicate Valid(cs: Chunks) {
    && Tiled(cs)
    && (forall i | 0 <= i < |cs| :: Fits(cs[i]))
    && (forall i, j | 0 <= i && j == i + 1 < |cs| :: cs[i].used || cs[j].used)   // no two free neighbours
    && (cs != [] ==> cs[|cs|-1].used)
  }

  // ---------------------------------------------------------------- the operations

  predicate Suits(c: Chunk, n: nat) {
    !c.used && n <= c.len
  }

  /** The first free chunk of at least `n` bytes, or |cs|. */
  function FirstFit(cs: Chunks, n: nat): (k: nat)
    ensures k <= |cs|
    ensures k < |cs| ==> Suits(cs[k], n)
    ensures forall j | 0 <= j < k :: !Suits(cs[j], n)
  {
    FirstFitFrom(cs, n, 0)
  }

  function FirstFitFrom(cs: Chunks, n: nat, from: nat): (k: nat)
    requires from <= |cs|
    ensures from <= k <= |cs|
    ensures k < |cs| ==> Suits(cs[k], n)
    ensures forall j | from <= j < k :: !Suits(cs[j], n)
    decreases |cs| - from
  {
    if from == |cs| || Suits(cs[from], n) then from else FirstFitFrom(cs, n, from + 1)
  }

  lemma FirstFitUnique(cs: Chunks, n: nat, k: nat)
    requires k <= |cs| && (k < |cs| ==> Suits(cs[k], n)) && forall j | 0 <= j < k :: !Suits(cs[j], n)
    ensures k == FirstFit(cs, n)
  {
  }

  /** A free chunk cut to `n` bytes, and what remains of it when that can hold more than a header. */
  function Carve(c: Chunk, n: nat, req: nat): Chunks
    requires n <= c.len
  {
    if c.len - n > HEADER then [Chunk(c.start, n, true, req), Chunk(c.start + n, c.len - n, false, 0)]
    else [Chunk(c.start, c.len, true, req)]
  }

  /** The list after a request for `req` bytes. */
  function Malloc(cs: Chunks, req: nat): Chunks {
    var n := req + HEADER;
    var k := FirstFit(cs, n);
    if k < |cs| then Replace(cs, k, k + 1, Carve(cs[k], n, req))
    else cs + [Chunk(End(cs), n, true, req)]
  }

  /** The index of the chunk that the request gets. */
  function Placed(cs: Chunks, req: nat): nat {
    FirstFit(cs, req + HEADER)
  }

  /** First and one past last chunk of the run of free space around chunk `k`. */
  function Low(cs: Chunks, k: nat): (lo: nat)
    requires k < |cs|
    ensures lo <= k
  {
    if k > 0 && !cs[k-1].used then k - 1 else k
  }

  function High(cs: Chunks, k: nat): (hi: nat)
    requires k < |cs|
    ensures k < hi <= |cs|
  {
    if k + 1 < |cs| && !cs[k+1].used then k + 2 else k + 1
  }

  /** The free chunk that results when chunk `k` is freed. */
  function Merged(cs: Chunks, k: nat): Chunk
    requires k < |cs| && Tiled(cs)
  {
    var lo, hi := Low(cs, k), High(cs, k);
    TiledOrder(cs, lo, hi - 1);
    Chunk(cs[lo].start, EndOf(cs[hi-1]) - cs[lo].start, false, 0)
  }

  /** The list after chunk `k` is freed: merged with its free neighbours, and cut off at the tail. */
  function Release(cs: Chunks, k: nat): Chunks
    requires k < |cs| && Tiled(cs)
  {
    var lo, hi := Low(cs, k), High(cs, k);
    Replace(cs, lo, hi, if hi == |cs| then [] else [Merged(cs, k)])
  }

  lemma {:induction false} TiledOrder(cs: Chunks, i: nat, j: nat)
    requires Tiled(cs) && i <= j < |cs|
    ensures cs[i].start <= cs[j].start
    ensures i < j ==> EndOf(cs[i]) <= cs[j].start
  {
    if i < j {
      TiledOrder(cs, i, j - 1);
      assert cs[j].start == EndOf(cs[j-1]);
    }
  }

  // -------------------------------------------------------------------- preservation

  lemma CarveFits(c: Chunk, n: nat, req: nat)
    requires Suits(c, n) && n == req + HEADER
    ensures var p := Carve(c, n, req);
            && Tiles(p, c.start, EndOf(c))
            && p[0].start == c.start && p[0].used && p[0].req == req
            && forall i | 0 <= i < |p| :: Fits(p[i])
  {
  }

  /** A non-empty list of chunks that covers exactly [from, to). */
  ghost predicate Tiles(p: Chunks, from: nat, to: nat) {
    && p != [] && p[0].start == from && EndOf(p[|p|-1]) == to
    && (forall i, j | 0 <= i && j == i + 1 < |p| :: p[j].start == EndOf(p[i]))
    && (forall i | 0 <= i < |p| :: HEADER <= p[i].len)
  }

  /** Replacing chunks lo..hi by others that cover the same bytes keeps the tiling. */
  lemma ReplaceTiled(cs: Chunks, lo: nat, hi: nat, p: Chunks)
    requires Tiled(cs) && lo < hi <= |cs| && Tiles(p, cs[lo].start, EndOf(cs[hi-1]))
    ensures Tiled(Replace(cs, lo, hi, p))
  {
    hide FirstFitFrom;
    var r := Replace(cs, lo, hi, p);
    forall i, j | 0 <= i && j == i + 1 < |r| ensures r[j].start == EndOf(r[i]) {
      if i + 1 < lo {
        assert cs[i+1].start == EndOf(cs[i]);
      } else if i + 1 == lo {
        assert cs[lo].start == EndOf(cs[lo-1]);
      } else if i + 1 < lo + |p| {
        assert p[i-lo+1].start == EndOf(p[i-lo]);
      } else {
        var k := hi + (i + 1 - lo - |p|);
        assert cs[k].start == EndOf(cs[k-1]);
      }
    }
  }

  /** The conditions on single chunks and on neighbours survive a replacement that meets them. */
  lemma ReplaceSound(cs: Chunks, lo: nat, hi: nat, p: Chunks)
    requires Valid(cs) && lo < hi < |cs| && Tiles(p, cs[lo].start, EndOf(cs[hi-1]))
    requires forall i | 0 <= i < |p| :: Fits(p[i])
    requires forall i, j | 0 <= i && j == i + 1 < |p| :: p[i].used || p[j].used
    requires lo > 0 ==> cs[lo-1].used || p[0].used
    requires p[|p|-1].used || cs[hi].used
    ensures Valid(Replace(cs, lo, hi, p))
  {
    hide Tiled, Fits;
    var r := Replace(cs, lo, hi, p);
    ReplaceTiled(cs, lo, hi, p);
    forall i, j | 0 <= i && j == i + 1 < |r| ensures r[i].used || r[j].used {
      if i + 1 < lo { NotBothFree(cs, i); }
      else if i >= lo + |p| { NotBothFree(cs, i - lo - |p| + hi); }
      else if lo <= i && i + 1 < lo + |p| { assert p[i-lo].used || p[i-lo+1].used; }
    }
  }

  lemma NotBothFree(cs: Chunks, i: nat)
    requires Valid(cs) && i + 1 < |cs|
    ensures cs[i].used || cs[i+1].used
  {
  }

  /** A free chunk is never the last, so it has a used successor. */
  lemma FreeHasNext(cs: Chunks, k: nat)
    requires Valid(cs) && k < |cs| && !cs[k].used
    ensures k + 1 < |cs| && cs[k+1].used && (k > 0 ==> cs[k-1].used)
  {
    NotBothFree(cs, k);
    if k > 0 { NotBothFree(cs, k - 1); }
  }

  lemma MallocKeepsValid(cs: Chunks, req: nat)
    requires Valid(cs)
    ensures Valid(Malloc(cs, req))
  {
    var n, k := req + HEADER, FirstFit(cs, req + HEADER);
    if k < |cs| {
      CarveFits(cs[k], n, req);
      FreeHasNext(cs, k);
      ReplaceSound(cs, k, k + 1, Carve(cs[k], n, req));
    } else {
      AppendSound(cs, Chunk(End(cs), n, true, req));
    }
  }

  lemma AppendSound(cs: Chunks, c: Chunk)
    requires Valid(cs) && c.start == End(cs) && c.used && Fits(c)
    ensures Valid(cs + [c])
  {
    var r := cs + [c];
    forall i, j | 0 <= i && j == i + 1 < |r| ensures r[i].used || r[j].used {
      if i + 1 < |cs| { NotBothFree(cs, i); }
    }
  }

  lemma MergedCovers(cs: Chunks, k: nat)
    requires Valid(cs) && k < |cs|
    ensures var lo, hi := Low(cs, k), High(cs, k);
            Tiles([Merged(cs, k)], cs[lo].start, EndOf(cs[hi-1]))
  {
    TiledOrder(cs, Low(cs, k), High(cs, k) - 1);
  }

  /** The chunks around the merged run are used. */
  lemma RunIsMaximal(cs: Chunks, k: nat)
    requires Valid(cs) && k < |cs| && cs[k].used
    ensures Low(cs, k) > 0 ==> cs[Low(cs, k) - 1].used
    ensures High(cs, k) < |cs| ==> cs[High(cs, k)].used
  {
    if k > 0 && !cs[k-1].used { FreeHasNext(cs, k - 1); }
    if k + 1 < |cs| && !cs[k+1].used { FreeHasNext(cs, k + 1); }
  }

  lemma ReleaseKeepsValid(cs: Chunks, k: nat)
    requires Valid(cs) && k < |cs| && cs[k].used
    ensures Valid(Release(cs, k))
  {
    var lo, hi := Low(cs, k), High(cs, k);
    RunIsMaximal(cs, k);
    if hi < |cs| {
      MergedCovers(cs, k);
      ReplaceSound(cs, lo, hi, [Merged(cs, k)]);
    } else {
      var r := Release(cs, k);
      assert |r| == lo && forall i | 0 <= i < lo :: r[i] == cs[i];
      forall i, j | 0 <= i && j == i + 1 < |r| ensures r[i].used || r[j].used { NotBothFree(cs, i); }
      forall i, j | 0 <= i && j == i + 1 < |r| ensures r[j].start == EndOf(r[i]) {
        assert cs[i+1].start == EndOf(cs[i]);
      }
    }
  }

  /** Where the request is placed, and that only a new chunk moves the end of the heap. */
  lemma MallocPlace(cs: Chunks, req: nat)
    requires Valid(cs)
    ensures var k, r := Placed(cs, req), Malloc(cs, req);
            && k < |r|
            && r == (if k < |cs| then Replace(cs, k, k + 1, Carve(cs[k], req + HEADER, req))
                     else cs + [Chunk(End(cs), req + HEADER, true, req)])
            && (k < |cs| ==> r[k].start == cs[k].start && End(r) == End(cs))
            && (k == |cs| ==> r[k].start == End(cs))
  {
    hide FirstFitFrom, Fits, Carve, Replace, Tiled, Tiles;
    var k := Placed(cs, req);
    if k < |cs| {
      FreeHasNext(cs, k);
      CarveFits(cs[k], req + HEADER, req);
      TilesNonEmpty(Carve(cs[k], req + HEADER, req), cs[k].start, EndOf(cs[k]));
      ReplaceEnds(cs, k, Carve(cs[k], req + HEADER, req));
    }
  }

  lemma TilesNonEmpty(p: Chunks, from: nat, to: nat)
    requires Tiles(p, from, to)
    ensures p != []
  {
  }

  lemma ReplaceEnds(cs: Chunks, k: nat, p: Chunks)
    requires k + 1 < |cs| && p != []
    ensures var r := Replace(cs, k, k + 1, p); k < |r| && r[k] == p[0] && r[|r|-1] == cs[|cs|-1]
  {
  }

  // -------------------------------------------------------- what callers see of the heap

  /** A payload: what a successful request may use. */
  ghost predicate InPayload(a: nat, c: Chunk) {
    c.used && c.start + HEADER <= a < EndOf(c)
  }

  /** No address lies in two live payloads. */
  lemma PayloadsDisjoint(cs: Chunks, i: nat, j: nat, a: nat)
    requires Valid(cs) && i < j < |cs| && InPayload(a, cs[i])
    ensures !InPayload(a, cs[j])
  {
    TiledOrder(cs, i, j);
  }

  /** Carving a free chunk keeps every used chunk and adds just one. */
  lemma CarveKeepsLive(cs: Chunks, k: nat, p: Chunks, c: Chunk)
    requires k < |cs| && !cs[k].used && 1 <= |p| <= 2 && (|p| == 2 ==> !p[1].used) && c.used
    ensures c in Replace(cs, k, k + 1, p) <==> c == p[0] || c in cs
  {
    hide Replace;
    MemberOfReplace(cs, k, k + 1, p, c);
    MemberOfParts(cs, k, k + 1, c);
    assert cs[k..k+1] == [cs[k]];
  }

  /** A chunk at the place of a free chunk, or after the last, is none of the old ones. */
  lemma NewChunkIsNew(cs: Chunks, k: nat, c: Chunk)
    requires Tiled(cs) && c.used
    requires if k < |cs| then !cs[k].used && c.start == cs[k].start else c.start == End(cs)
    ensures c !in cs
  {
    forall i | 0 <= i < |cs| ensures cs[i] != c {
      if i < k { TiledOrder(cs, i, if k < |cs| then k else |cs| - 1); }
      else if i > k { TiledOrder(cs, k, i); }
    }
  }

  /** The chunk that the request gets, and no live chunk lost or changed. */
  lemma MallocKeepsLive(cs: Chunks, req: nat)
    requires Valid(cs)
    ensures var k, r := Placed(cs, req), Malloc(cs, req);
            && k < |r| && r[k].used && r[k].req == req && req <= r[k].len - HEADER && r[k] !in cs
            && forall c: Chunk | c.used :: c in r <==> c == r[k] || c in cs
  {
    hide FirstFitFrom, Fits;
    var n, k, r := req + HEADER, Placed(cs, req), Malloc(cs, req);
    if k < |cs| {
      var p := Carve(cs[k], n, req);
      assert r[k] == p[0];
      NewChunkIsNew(cs, k, r[k]);
      forall c: Chunk | c.used ensures c in r <==> c == r[k] || c in cs { CarveKeepsLive(cs, k, p, c); }
    } else {
      assert r[k] == Chunk(End(cs), n, true, req);
      NewChunkIsNew(cs, k, r[k]);
    }
  }

  /** First fit is lowest fit: no free chunk that is big enough starts below the one given. */
  lemma MallocIsLowest(cs: Chunks, req: nat, c: Chunk)
    requires Valid(cs) && c in cs && Suits(c, req + HEADER)
    ensures Placed(cs, req) < |Malloc(cs, req)| && Malloc(cs, req)[Placed(cs, req)].start <= c.start
  {
    hide FirstFitFrom, Fits, Tiles;
    var k := Placed(cs, req);
    var i :| 0 <= i < |cs| && cs[i] == c;
    TiledOrder(cs, k, i);
  }

  /** `kfree` takes away just its own chunk: every other live chunk stays where it is. */
  lemma ReleaseTakesOne(cs: Chunks, k: nat)
    requires Valid(cs) && k < |cs| && cs[k].used
    ensures forall c: Chunk | c.used :: c in Release(cs, k) <==> c in cs && c != cs[k]
  {
    hide Replace;
    var lo, hi := Low(cs, k), High(cs, k);
    OnlyOnce(cs, k);
    forall c: Chunk | c.used ensures c in Release(cs, k) <==> c in cs && c != cs[k] {
      MemberOfReplace(cs, lo, hi, if hi == |cs| then [] else [Merged(cs, k)], c);
      MemberOfParts(cs, lo, hi, c);
      RunMembers(cs, k, c);
    }
  }

  /** The chunks of the merged run: `k` and free ones. */
  lemma RunMembers(cs: Chunks, k: nat, c: Chunk)
    requires k < |cs| && c.used
    ensures c in cs[Low(cs, k)..High(cs, k)] <==> c == cs[k] && cs[k].used
  {
    var lo, hi := Low(cs, k), High(cs, k);
    assert cs[lo..hi][k - lo] == cs[k];
  }

  lemma OnlyOnce(cs: Chunks, k: nat)
    requires Tiled(cs) && k < |cs|
    ensures forall i | 0 <= i < |cs| && i != k :: cs[i] != cs[k]
  {
    forall i | 0 <= i < |cs| && i != k ensures cs[i] != cs[k] {
      if i < k { TiledOrder(cs, i, k); } else { TiledOrder(cs, k, i); }
    }
  }

  lemma ReleaseUndoesCarve(cs: Chunks, k: nat, n: nat, req: nat)
    requires Valid(cs) && k < |cs| && Suits(cs[k], n) && n == req + HEADER
    ensures var r := Replace(cs, k, k + 1, Carve(cs[k], n, req)); k < |r| && Tiled(r) && Release(r, k) == cs
  {
    hide FirstFitFrom, Replace;
    assert Fits(cs[k]);
    var p := Carve(cs[k], n, req);
    var r := Replace(cs, k, k + 1, p);
    FreeHasNext(cs, k);
    CarveFits(cs[k], n, req);
    ReplaceTiled(cs, k, k + 1, p);
    CarvedNeighbours(cs, k, p, r);
    assert Merged(r, k) == cs[k];
    ReplaceBack(cs, k, p);
  }

  /** The free run around a carved chunk is the chunk it was carved from. */
  lemma CarvedNeighbours(cs: Chunks, k: nat, p: Chunks, r: Chunks)
    requires k + 1 < |cs| && cs[k+1].used && (k > 0 ==> cs[k-1].used)
    requires 1 <= |p| <= 2 && p[0].used && (|p| == 2 ==> !p[1].used)
    requires r == Replace(cs, k, k + 1, p)
    ensures k < |r| && Low(r, k) == k && High(r, k) == k + |p| < |r|
    ensures r[k] == p[0] && r[k + |p| - 1] == p[|p|-1]
  {
    assert r[k] == p[0] && r[k + |p|] == cs[k+1] && r[k + |p| - 1] == p[|p|-1];
    assert k > 0 ==> r[k-1] == cs[k-1];
  }

  lemma ReleaseUndoesAppend(cs: Chunks, c: Chunk)
    requires Valid(cs) && Tiled(cs + [c])
    ensures Release(cs + [c], |cs|) == cs
  {
    var r, k := cs + [c], |cs|;
    assert k > 0 ==> r[k-1] == cs[k-1] && cs[k-1].used;
    assert Low(r, k) == k && High(r, k) == |r|;
    var back := Release(r, k);
    assert |back| == |cs| && forall i | 0 <= i < |cs| :: back[i] == cs[i];
  }

  /** Freeing what was just allocated restores the heap exactly. */
  lemma ReleaseUndoesMalloc(cs: Chunks, req: nat)
    requires Valid(cs)
    ensures Valid(Malloc(cs, req)) && Placed(cs, req) < |Malloc(cs, req)|
    ensures Release(Malloc(cs, req), Placed(cs, req)) == cs
  {
    hide Release, Replace, Carve;
    MallocKeepsValid(cs, req);
    var n, k := req + HEADER, Placed(cs, req);
    if k < |cs| {
      ReleaseUndoesCarve(cs, k, n, req);
    } else {
      ReleaseUndoesAppend(cs, Chunk(End(cs), n, true, req));
    }
  }

  // ------------------------------------------------------------------- any history

  datatype Op = DoMalloc(req: nat) | DoFree(k: nat)

  /** `kfree` is called with the pointer of a live chunk. */
  ghost predicate Legal(cs: Chunks, op: Op) {
    op.DoFree? ==> op.k < |cs| && cs[op.k].used
  }

  ghost function Apply(cs: Chunks, op: Op): Chunks
    requires Valid(cs) && Legal(cs, op)
  {
    match op
    case DoMalloc(req) => Malloc(cs, req)
    case DoFree(k) => Release(cs, k)
  }

  /** `states` are the heaps before, between and after the operations. */
  ghost predicate IsHistory(states: seq<Chunks>, ops: seq<Op>) {
    && |states| == |ops| + 1 && states[0] == []
    && (forall k | 0 <= k < |ops| :: Valid(states[k]) ==>
         Legal(states[k], ops[k]) && states[k+1] == Apply(states[k], ops[k]))
  }

  /** After any sequence of requests and releases of live pointers, the heap is well formed. */
  lemma {:induction false} AnyHistoryIsValid(states: seq<Chunks>, ops: seq<Op>, k: nat)
    requires IsHistory(states, ops) && k <= |ops|
    ensures Valid(states[k])
  {
    if k > 0 {
      AnyHistoryIsValid(states, ops, k - 1);
      match ops[k-1]
      case DoMalloc(req) => MallocKeepsValid(states[k-1], req);
      case DoFree(j) => ReleaseKeepsValid(states[k-1], j);
    }
  }
}
