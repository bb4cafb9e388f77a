/**
 How the chunk list of mm/heap.c lies in memory: a header at the start of every chunk, linked
 both ways. The lemmas say which writes turn the links of one list into those of another.
 */
module HeapLinks {
  import opened HeapSpec
  import opened Sequences

  /** `header_t`; a link is the address of a header, 0 for NULL. */
  datatype Header = Header(prev: nat, next: nat, inUse: bool, length: nat)

  type Memory = map<nat, Header>

  function PrevOf(cs: Chunks, i: nat): nat
    requires i < |cs|
  {
    if i == 0 then 0 else cs[i-1].start
  }

  function NextOf(cs: Chunks, i: nat): nat
    requires i < |cs|
  {
    if i + 1 < |cs| then cs[i+1].start else 0
  }

  function HeaderOf(cs: Chunks, i: nat): Header
    requires i < |cs|
  {
    Header(PrevOf(cs, i), NextOf(cs, i), cs[i].used, cs[i].len)
  }

  ghost predicate StoredAt(m: Memory, cs: Chunks, i: nat)
    requires i < |cs|
  {
    cs[i].start in m && m[cs[i].start] == HeaderOf(cs, i)
  }

  function FirstOf(cs: Chunks): nat {
    if cs == [] then 0 else cs[0].start
  }

  /** `next` and `prev` of the headers in memory are those of the list `cs`. */
  ghost predicate Stored(m: Memory, first: nat, cs: Chunks) {
    first == FirstOf(cs) && forall i | 0 <= i < |cs| :: StoredAt(m, cs, i)
  }

  lemma FirstLink(m: Memory, first: nat, cs: Chunks)
    requires Stored(m, first, cs)
    ensures first == FirstOf(cs)
  {
  }

  lemma HeaderAt(m: Memory, first: nat, cs: Chunks, k: nat)
    requires Stored(m, first, cs) && k < |cs|
    ensures cs[k].start in m && m[cs[k].start] == Header(PrevOf(cs, k), NextOf(cs, k), cs[k].used, cs[k].len)
  {
    assert StoredAt(m, cs, k);
  }

  /** The last chunk lies in the heap and ends where the heap ends. */
  lemma LastInHeap(cs: Chunks)
    requires Tiled(cs) && cs != []
    ensures HEAP_START <= cs[|cs|-1].start == End(cs) - cs[|cs|-1].len <= End(cs) - HEADER
  {
    TiledOrder(cs, 0, |cs| - 1);
  }

  lemma AppendTiles(cs: Chunks, c: Chunk)
    requires Tiled(cs) && c.start == End(cs) && HEADER <= c.len
    ensures Tiled(cs + [c]) && End(cs + [c]) == EndOf(c)
  {
    var r := cs + [c];
    forall i, j | 0 <= i && j == i + 1 < |r| ensures r[j].start == EndOf(r[i]) {
      if j < |cs| { assert cs[j].start == EndOf(cs[i]); }
    }
  }

  /** Following links comes to address 0 only at the ends of the list. */
  lemma StartsDiffer(cs: Chunks, i: nat, j: nat)
    requires Tiled(cs) && i < |cs| && j < |cs|
    ensures 0 < cs[i].start
    ensures cs[i].start == cs[j].start ==> i == j
  {
    TiledOrder(cs, 0, i);
    if i < j { TiledOrder(cs, i, j); }
    if j < i { TiledOrder(cs, j, i); }
  }

  // ------------------------------------------------------------------ cutting in two

  /** `split_chunk`: chunk `k` cut to `n` bytes when the rest can hold more than a header. */
  function Split(cs: Chunks, k: nat, n: nat): Chunks
    requires k < |cs| && n <= cs[k].len
  {
    if cs[k].len - n > HEADER then Replace(cs, k, k + 1, Halves(cs[k], n)) else cs
  }

  /** The two parts of chunk `c` cut at `n` bytes. */
  function Halves(c: Chunk, n: nat): Chunks
    requires n <= c.len
  {
    [c.(len := n), Chunk(c.start + n, c.len - n, false, 0)]
  }

  lemma HalvesTile(c: Chunk, n: nat)
    requires HEADER <= n && HEADER + n <= c.len
    ensures Tiles(Halves(c, n), c.start, EndOf(c))
  {
  }

  lemma SplitTiled(cs: Chunks, k: nat, n: nat)
    requires Tiled(cs) && k < |cs| && HEADER <= n <= cs[k].len
    ensures Tiled(Split(cs, k, n))
  {
    hide Tiled, Tiles, Halves;
    if cs[k].len - n > HEADER {
      HalvesTile(cs[k], n);
      ReplaceTiled(cs, k, k + 1, Halves(cs[k], n));
    }
  }

  /** Splitting and then marking the first part is what the specification calls carving. */
  lemma SplitThenMark(cs: Chunks, k: nat, n: nat, req: nat)
    requires k < |cs| && n <= cs[k].len
    ensures k < |Split(cs, k, n)|
    ensures Replace(cs, k, k + 1, Carve(cs[k], n, req))
         == Split(cs, k, n)[k := Split(cs, k, n)[k].(used := true, req := req)]
  {
    var c, p := cs[k], Carve(cs[k], n, req);
    var a := Replace(cs, k, k + 1, p);
    var b := Split(cs, k, n)[k := Split(cs, k, n)[k].(used := true, req := req)];
    if c.len - n > HEADER {
      assert p == Halves(c, n)[0 := Halves(c, n)[0].(used := true, req := req)];
    }
    forall i | 0 <= i < |a| ensures a[i] == b[i] {}
  }

  /** The writes of the split, back link included. */
  function SplitMemory(m: Memory, chunk: nat, n: nat): Memory
    requires chunk in m && n <= m[chunk].length
  {
    var h, rest := m[chunk], chunk + n;
    var cut := m[rest := Header(chunk, h.next, false, h.length - n)];
    var linked := if h.next != 0 && h.next in cut then cut[h.next := cut[h.next].(prev := rest)] else cut;
    linked[chunk := Header(h.prev, rest, h.inUse, n)]
  }

  lemma SplitMemoryAt(m: Memory, chunk: nat, n: nat, a: nat)
    requires chunk in m && 0 < n <= m[chunk].length && m[chunk].next != chunk && m[chunk].next != chunk + n
    ensures var h, m' := m[chunk], SplitMemory(m, chunk, n);
            && chunk in m' && m'[chunk] == Header(h.prev, chunk + n, h.inUse, n)
            && chunk + n in m' && m'[chunk + n] == Header(chunk, h.next, false, h.length - n)
            && (h.next != 0 && h.next in m ==> h.next in m' && m'[h.next] == m[h.next].(prev := chunk + n))
            && (a in m && a != chunk && a != chunk + n && a != h.next ==> a in m' && m'[a] == m[a])
  {
  }

  lemma SplitAt(cs: Chunks, k: nat, n: nat)
    requires k < |cs| && n <= cs[k].len && cs[k].len - n > HEADER
    ensures var r, c := Split(cs, k, n), cs[k];
            && |r| == |cs| + 1 && r[k] == c.(len := n) && r[k+1] == Chunk(c.start + n, c.len - n, false, 0)
            && (forall i | 0 <= i < k :: r[i] == cs[i])
            && (forall i | k + 1 < i < |r| :: r[i] == cs[i-1])
  {
    var r, p := Split(cs, k, n), Halves(cs[k], n);
    assert |p| == 2 && r == Replace(cs, k, k + 1, p);
    assert r[k] == p[0] && r[k+1] == p[1];
    forall i | k + 1 < i < |r| ensures r[i] == cs[i-1] {}
  }

  /** The headers that the list needs after a split, from those that it needed before. */
  lemma SplitHeaders(cs: Chunks, k: nat, n: nat, i: nat)
    requires k < |cs| && n <= cs[k].len && cs[k].len - n > HEADER && i <= |cs|
    ensures var r, c := Split(cs, k, n), cs[k];
            && |r| == |cs| + 1
            && r[i].start == (if i <= k then cs[i].start else if i == k + 1 then c.start + n else cs[i-1].start)
            && HeaderOf(r, i) == (if i < k then HeaderOf(cs, i)
                                  else if i == k then Header(PrevOf(cs, k), c.start + n, c.used, n)
                                  else if i == k + 1 then Header(c.start, NextOf(cs, k), false, c.len - n)
                                  else if i == k + 2 then HeaderOf(cs, k + 1).(prev := c.start + n)
                                  else HeaderOf(cs, i - 1))
  {
    hide Split;
    SplitAt(cs, k, n);
  }

  lemma SplitStores(m: Memory, first: nat, cs: Chunks, k: nat, n: nat)
    requires Tiled(cs) && Stored(m, first, cs) && k < |cs| && HEADER <= n && cs[k].len - n > HEADER
    ensures cs[k].start in m && m[cs[k].start].length == cs[k].len
    ensures Stored(SplitMemory(m, cs[k].start, n), first, Split(cs, k, n))
  {
    hide Tiled, HeaderOf, Split, SplitMemory;
    StoredHeader(m, cs, k);
    var m', r := SplitMemory(m, cs[k].start, n), Split(cs, k, n);
    SplitHeaders(cs, k, n, 0);
    forall i | 0 <= i < |r| ensures StoredAt(m', r, i) {
      SplitStoresAt(m, cs, k, n, i);
    }
  }

  lemma StoredHeader(m: Memory, cs: Chunks, k: nat)
    requires k < |cs| && StoredAt(m, cs, k)
    ensures cs[k].start in m && m[cs[k].start] == Header(PrevOf(cs, k), NextOf(cs, k), cs[k].used, cs[k].len)
  {
  }

  /** No header lies where a split puts the new one. */
  lemma SplitPlace(cs: Chunks, k: nat, n: nat, i: nat)
    requires Tiled(cs) && k < |cs| && HEADER <= n && cs[k].len - n > HEADER && i < |cs|
    ensures cs[i].start != cs[k].start + n
  {
    if i < k { TiledOrder(cs, i, k); }
    if k < i { TiledOrder(cs, k, i); }
  }

  lemma SplitStoresAt(m: Memory, cs: Chunks, k: nat, n: nat, i: nat)
    requires Tiled(cs) && k < |cs| && HEADER <= n && cs[k].len - n > HEADER
    requires forall j | 0 <= j < |cs| :: StoredAt(m, cs, j)
    requires cs[k].start in m && m[cs[k].start].length == cs[k].len
    requires i <= |cs|
    ensures |Split(cs, k, n)| == |cs| + 1
    ensures StoredAt(SplitMemory(m, cs[k].start, n), Split(cs, k, n), i)
  {
    hide Tiled, Split, SplitMemory;
    var r := Split(cs, k, n);
    SplitHeaders(cs, k, n, i);
    assert StoredAt(m, cs, k);
    StartsDiffer(cs, k, k);
    if k + 1 < |cs| {
      assert StoredAt(m, cs, k + 1);
      StartsDiffer(cs, k, k + 1);
      SplitPlace(cs, k, n, k + 1);
    }
    SplitMemoryAt(m, cs[k].start, n, r[i].start);
    if i != k && i != k + 1 {
      var j := if i < k then i else i - 1;
      assert StoredAt(m, cs, j);
      StartsDiffer(cs, j, k);
      SplitPlace(cs, k, n, j);
      if k + 1 < |cs| { StartsDiffer(cs, j, k + 1); }
    }
  }

  // --------------------------------------------------------------- marking and growing

  lemma MarkStores(m: Memory, first: nat, cs: Chunks, k: nat, used: bool, req: nat)
    requires Tiled(cs) && Stored(m, first, cs) && k < |cs|
    ensures cs[k].start in m
    ensures var cs' := cs[k := cs[k].(used := used, req := req)];
            Tiled(cs') && Stored(m[cs[k].start := m[cs[k].start].(inUse := used)], first, cs')
  {
    var cs' := cs[k := cs[k].(used := used, req := req)];
    assert StoredAt(m, cs, k);
    var m' := m[cs[k].start := m[cs[k].start].(inUse := used)];
    forall i | 0 <= i < |cs'| ensures StoredAt(m', cs', i) {
      assert StoredAt(m, cs, i);
      StartsDiffer(cs, i, k);
    }
    forall i, j | 0 <= i && j == i + 1 < |cs'| ensures cs'[j].start == EndOf(cs'[i]) {
      assert cs[j].start == EndOf(cs[i]);
    }
  }

  /** A header written behind the last one and linked to it. */
  lemma AppendStores(m: Memory, first: nat, cs: Chunks, c: Chunk, m': Memory)
    requires Tiled(cs) && Stored(m, first, cs) && Tiled(cs + [c]) && c.used
    requires var last := if cs == [] then 0 else cs[|cs|-1].start;
             && (last != 0 ==> last in m)
             && m' == (var n := m[c.start := Header(last, 0, true, c.len)];
                       if last != 0 then n[last := n[last].(next := c.start)] else n)
    ensures Stored(m', FirstOf(cs + [c]), cs + [c])
  {
    var r := cs + [c];
    forall i | 0 <= i < |r| ensures StoredAt(m', r, i) {
      StartsDiffer(r, i, |cs|);
      if cs != [] { StartsDiffer(r, |cs| - 1, i); StartsDiffer(r, |cs| - 1, |cs|); }
      if i < |cs| { assert StoredAt(m, cs, i); }
    }
  }

  // ---------------------------------------------------------------------------- gluing

  /** Chunks `k` and `k+1` as one. */
  function Join(cs: Chunks, k: nat): Chunks
    requires k + 1 < |cs|
  {
    Replace(cs, k, k + 2, [cs[k].(len := cs[k].len + cs[k+1].len)])
  }

  lemma JoinTiled(cs: Chunks, k: nat)
    requires Tiled(cs) && k + 1 < |cs|
    ensures Tiled(Join(cs, k)) && |Join(cs, k)| == |cs| - 1 && End(Join(cs, k)) == End(cs)
  {
    assert cs[k+1].start == EndOf(cs[k]);
    ReplaceTiled(cs, k, k + 2, [cs[k].(len := cs[k].len + cs[k+1].len)]);
  }

  /** The writes that glue the chunk behind `chunk` to it. */
  function JoinMemory(m: Memory, chunk: nat): Memory
    requires chunk in m && m[chunk].next in m
  {
    var h, next := m[chunk], m[m[chunk].next];
    var linked := if next.next != 0 && next.next in m then m[next.next := m[next.next].(prev := chunk)] else m;
    linked[chunk := Header(h.prev, next.next, h.inUse, h.length + next.length)]
  }

  lemma JoinMemoryAt(m: Memory, chunk: nat, a: nat)
    requires chunk in m && m[chunk].next in m && m[m[chunk].next].next != chunk
    ensures var h, next, m' := m[chunk], m[m[chunk].next], JoinMemory(m, chunk);
            && chunk in m' && m'[chunk] == Header(h.prev, next.next, h.inUse, h.length + next.length)
            && (next.next != 0 && next.next in m ==> next.next in m' && m'[next.next] == m[next.next].(prev := chunk))
            && (a in m && a != chunk && a != next.next ==> a in m' && m'[a] == m[a])
  {
  }

  /** `r` is `cs` but for its element `k`, which stands for elements k..k+gap of `cs`. */
  ghost predicate Closes(r: Chunks, cs: Chunks, k: nat, gap: nat) {
    && |r| == |cs| - gap && k < |r|
    && (forall i | 0 <= i < k :: r[i] == cs[i])
    && (forall i, j | k < i < |r| && j == i + gap :: r[i] == cs[j])
  }

  lemma ClosesTwice(a: Chunks, b: Chunks, c: Chunks, j: nat, k: nat, g: nat, h: nat)
    requires Closes(b, a, k, g) && Closes(c, b, j, h) && (j == k || (j + 1 == k && h == 1))
    ensures Closes(c, a, j, g + h)
  {
    forall i, l | j < i < |c| && l == i + g + h ensures c[i] == a[l] {
      assert c[i] == b[i+h];
      assert i + h > k ==> b[i+h] == a[i+h+g];
    }
  }

  lemma JoinAt(cs: Chunks, k: nat)
    requires k + 1 < |cs|
    ensures Closes(Join(cs, k), cs, k, 1) && Join(cs, k)[k] == cs[k].(len := cs[k].len + cs[k+1].len)
  {
  }

  lemma JoinHeaders(cs: Chunks, k: nat, i: nat)
    requires k + 1 < |cs| && i < |cs| - 1
    ensures var r, c := Join(cs, k), cs[k];
            && |r| == |cs| - 1
            && r[i].start == (if i <= k then cs[i].start else cs[i+1].start)
            && HeaderOf(r, i) == (if i < k then HeaderOf(cs, i)
                                  else if i == k then
                                    Header(PrevOf(cs, k), NextOf(cs, k + 1), c.used, c.len + cs[k+1].len)
                                  else if i == k + 1 then HeaderOf(cs, k + 2).(prev := c.start)
                                  else HeaderOf(cs, i + 1))
  {
    hide Join;
    JoinAt(cs, k);
  }

  lemma JoinStores(m: Memory, first: nat, cs: Chunks, k: nat)
    requires Tiled(cs) && Stored(m, first, cs) && k + 1 < |cs|
    ensures cs[k].start in m && m[cs[k].start].next in m
    ensures Stored(JoinMemory(m, cs[k].start), first, Join(cs, k))
  {
    hide Tiled, HeaderOf, Join, JoinMemory;
    StoredHeader(m, cs, k);
    StoredHeader(m, cs, k + 1);
    var m', r := JoinMemory(m, cs[k].start), Join(cs, k);
    JoinHeaders(cs, k, 0);
    forall i | 0 <= i < |r| ensures StoredAt(m', r, i) {
      JoinStoresAt(m, cs, k, i);
    }
  }

  lemma JoinStoresAt(m: Memory, cs: Chunks, k: nat, i: nat)
    requires Tiled(cs) && k + 1 < |cs|
    requires forall j | 0 <= j < |cs| :: StoredAt(m, cs, j)
    requires cs[k].start in m && m[cs[k].start].next in m
    requires i < |cs| - 1
    ensures |Join(cs, k)| == |cs| - 1
    ensures StoredAt(JoinMemory(m, cs[k].start), Join(cs, k), i)
  {
    hide Tiled, Join, JoinMemory;
    var r := Join(cs, k);
    JoinHeaders(cs, k, i);
    assert StoredAt(m, cs, k) && StoredAt(m, cs, k + 1);
    StartsDiffer(cs, k, k);
    if k + 2 < |cs| {
      assert StoredAt(m, cs, k + 2);
      StartsDiffer(cs, k, k + 2);
    }
    JoinMemoryAt(m, cs[k].start, r[i].start);
    if i != k {
      var j := if i < k then i else i + 1;
      assert StoredAt(m, cs, j);
      StartsDiffer(cs, j, k);
      if k + 2 < |cs| { StartsDiffer(cs, j, k + 2); }
    }
  }

  /** The writes of the first half of `glue_chunk`, in its order. */
  lemma NextWrites(m: Memory, chunk: nat)
    requires chunk in m && m[chunk].next in m && m[chunk].next != chunk
    requires var nn := m[m[chunk].next].next; nn != 0 ==> nn in m && nn != chunk && nn != m[chunk].next
    ensures var next := m[chunk].next;
            var m1 := m[chunk := m[chunk].(length := m[chunk].length + m[next].length)];
            var m2 := if m[next].next != 0 then m1[m[next].next := m1[m[next].next].(prev := chunk)] else m1;
            m2[chunk := m2[chunk].(next := m2[next].next)] == JoinMemory(m, chunk)
  {
  }

  /** The writes of its second half. */
  lemma PrevWrites(m: Memory, prev: nat, chunk: nat)
    requires chunk in m && prev in m && m[prev].next == chunk && prev != chunk
    requires m[chunk].next != 0 ==> m[chunk].next in m && m[chunk].next != chunk && m[chunk].next != prev
    ensures var m1 := m[prev := m[prev].(length := m[prev].length + m[chunk].length)];
            var m2 := m1[prev := m1[prev].(next := m1[chunk].next)];
            (if m2[chunk].next != 0 then m2[m2[chunk].next := m2[m2[chunk].next].(prev := prev)] else m2)
              == JoinMemory(m, prev)
  {
  }

  /** Cutting the last chunk off needs one write, to the chunk before it. */
  lemma CutStores(m: Memory, first: nat, cs: Chunks, m': Memory)
    requires Tiled(cs) && Stored(m, first, cs) && cs != []
    requires var k := |cs| - 1;
             if k == 0 then m' == m
             else cs[k-1].start in m && m' == m[cs[k-1].start := m[cs[k-1].start].(next := 0)]
    ensures Tiled(cs[..|cs|-1]) && End(cs[..|cs|-1]) == cs[|cs|-1].start
    ensures Stored(m', FirstOf(cs[..|cs|-1]), cs[..|cs|-1])
  {
    var k, r := |cs| - 1, cs[..|cs|-1];
    if k > 0 { assert cs[k].start == EndOf(cs[k-1]); }
    forall i | 0 <= i < |r| ensures StoredAt(m', r, i) {
      assert StoredAt(m, cs, i);
      StartsDiffer(cs, i, k - 1);
    }
  }

  // ---------------------------------------------------- what `kfree` does, link by link

  /** The list after each stage of `kfree`, and the place of the freed chunk in it. */
  function Freed(cs: Chunks, k: nat): Chunks
    requires k < |cs|
  {
    cs[k := cs[k].(used := false, req := 0)]
  }

  function GluedNext(cs: Chunks, k: nat): Chunks
    requires k < |cs|
  {
    if k + 1 < |cs| && !cs[k+1].used then Join(cs, k) else cs
  }

  function GluedPrev(cs: Chunks, k: nat): Chunks
    requires k < |cs|
  {
    if k > 0 && !cs[k-1].used then Join(cs, k - 1) else cs
  }

  function TailCut(cs: Chunks, k: nat): Chunks
    requires k < |cs|
  {
    if k + 1 == |cs| then cs[..k] else cs
  }

  /** The list after the first gluing stage. */
  lemma GluedNextAt(cs: Chunks, k: nat)
    requires k < |cs|
    ensures var c2, gap := GluedNext(Freed(cs, k), k), High(cs, k) - k - 1;
            && Closes(c2, cs, k, gap)
            && c2[k] == Chunk(cs[k].start, cs[k].len + (if gap == 1 then cs[k+1].len else 0), false, 0)
  {
    hide Join, Closes;
    var f := Freed(cs, k);
    FreedAt(cs, k);
    if k + 1 < |cs| && !cs[k+1].used {
      JoinAt(f, k);
      ClosesTwice(cs, f, Join(f, k), k, k, 0, 1);
    }
  }

  lemma FreedEnd(cs: Chunks, k: nat)
    requires k < |cs|
    ensures End(Freed(cs, k)) == End(cs) && |Freed(cs, k)| == |cs| && Freed(cs, k)[k].start == cs[k].start
    ensures Low(Freed(cs, k), k) == Low(cs, k)
  {
  }

  lemma FreedAt(cs: Chunks, k: nat)
    requires k < |cs|
    ensures Closes(Freed(cs, k), cs, k, 0)
    ensures k + 1 < |cs| ==> Freed(cs, k)[k+1] == cs[k+1]
  {
  }

  /** The list after both: the free run around `k` has become one chunk. */
  lemma GluedList(cs: Chunks, k: nat)
    requires HeapSpec.Valid(cs) && k < |cs| && cs[k].used
    ensures k < |GluedNext(Freed(cs, k), k)|
    ensures var lo, hi, c3 := Low(cs, k), High(cs, k), GluedPrev(GluedNext(Freed(cs, k), k), k);
            Closes(c3, cs, lo, hi - lo - 1) && c3[lo] == Merged(cs, k)
  {
    hide GluedNext, Join, Fits;
    GluedNextAt(cs, k);
    assert k < |GluedNext(Freed(cs, k), k)|;
    var c2 := GluedNext(Freed(cs, k), k);
    Abut(cs, k);
    if k > 0 && !cs[k-1].used {
      FreeRequestsNothing(cs, k - 1);
      JoinPrev(cs, c2, k, High(cs, k) - k - 1);
    }
  }

  lemma JoinPrev(cs: Chunks, c2: Chunks, k: nat, gap: nat)
    requires 0 < k < |cs| && Closes(c2, cs, k, gap)
    ensures c2[k-1] == cs[k-1]
    ensures Closes(Join(c2, k - 1), cs, k - 1, gap + 1)
    ensures Join(c2, k - 1)[k-1] == cs[k-1].(len := cs[k-1].len + c2[k].len)
  {
    hide Join;
    JoinAt(c2, k - 1);
    ClosesTwice(cs, c2, Join(c2, k - 1), k - 1, k, gap, 1);
  }

  lemma Abut(cs: Chunks, k: nat)
    requires Tiled(cs) && k < |cs|
    ensures k > 0 ==> cs[k].start == EndOf(cs[k-1])
    ensures k + 1 < |cs| ==> cs[k+1].start == EndOf(cs[k])
  {
  }

  lemma FreeRequestsNothing(cs: Chunks, k: nat)
    requires HeapSpec.Valid(cs) && k < |cs| && !cs[k].used
    ensures cs[k].req == 0
  {
    assert Fits(cs[k]);
  }

  /** The stages together are the release of the specification. */
  lemma ReleaseSteps(cs: Chunks, k: nat)
    requires HeapSpec.Valid(cs) && k < |cs| && cs[k].used
    ensures var c2 := GluedNext(Freed(cs, k), k);
            k < |c2| && Low(cs, k) < |GluedPrev(c2, k)| && TailCut(GluedPrev(c2, k), Low(cs, k)) == Release(cs, k)
  {
    hide Fits, GluedNext, GluedPrev, Merged;
    GluedList(cs, k);
    var lo, hi := Low(cs, k), High(cs, k);
    var c3 := GluedPrev(GluedNext(Freed(cs, k), k), k);
    var r, out := Release(cs, k), TailCut(c3, lo);
    assert |out| == |r|;
    forall i | 0 <= i < |out| ensures out[i] == r[i] {}
  }
}
