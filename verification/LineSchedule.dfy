/**
 What one call of `proc_line_schedule` (proc/sched.c) decides, and the fairness of any
 sequence of such calls. The table may change arbitrarily between two calls.
 */
module LineSchedule {
  import opened ProcTable

  /** The slot `d` places after `ptr` in a ring of `n` slots. */
  function At(ptr: nat, d: nat, n: nat): (i: nat)
    requires ptr < n && d < n
    ensures i < n
  {
    if ptr + d < n then ptr + d else ptr + d - n
  }

  /** How many places after `ptr` the slot `i` lies. */
  function Ahead(ptr: nat, i: nat, n: nat): (d: nat)
    requires ptr < n && i < n
    ensures d < n && At(ptr, d, n) == i
    ensures forall e: nat | e < n && At(ptr, e, n) == i :: e == d
  {
    if ptr <= i then i - ptr else i - ptr + n
  }

  /** Places ahead are counted around the ring. */
  lemma AheadIsModulo(ptr: nat, i: nat, n: nat)
    requires ptr < n && i < n
    ensures (ptr + Ahead(ptr, i, n)) % n == i
  {
    var d := Ahead(ptr, i, n);
    if ptr + d >= n { assert (ptr + d) % n == ptr + d - n; }
  }

  lemma RingNext(i: nat, n: nat)
    requires i < n
    ensures (i + 1) % n == if i + 1 < n then i + 1 else 0
  {
    if i + 1 == n { assert (i + 1) % n == 0; }
  }

  ghost predicate SomeRunnable(t: Table) {
    exists i | 0 <= i < |t| :: Runnable(t[i])
  }

  /** Slot `ptr + d` can run and no slot between `ptr` and it can. */
  ghost predicate FirstRunnable(t: Table, ptr: nat, d: nat)
    requires ptr < |t|
  {
    && d < |t|
    && Runnable(t[At(ptr, d, |t|)])
    && forall e: nat | e < d :: !Runnable(t[At(ptr, e, |t|)])
  }

  ghost function Distance(t: Table, ptr: nat): (d: nat)
    requires ptr < |t| && SomeRunnable(t)
    ensures FirstRunnable(t, ptr, d)
  {
    var i: nat :| i < |t| && Runnable(t[i]);
    DistanceFrom(t, ptr, 0, Ahead(ptr, i, |t|))
  }

  ghost function DistanceFrom(t: Table, ptr: nat, lo: nat, hi: nat): (d: nat)
    requires ptr < |t| && lo <= hi < |t| && Runnable(t[At(ptr, hi, |t|)])
    requires forall e: nat | e < lo :: !Runnable(t[At(ptr, e, |t|)])
    ensures FirstRunnable(t, ptr, d)
    decreases hi - lo
  {
    if Runnable(t[At(ptr, lo, |t|)]) then lo else DistanceFrom(t, ptr, lo + 1, hi)
  }

  ghost function Chosen(t: Table, ptr: nat): (i: nat)
    requires ptr < |t| && SomeRunnable(t)
    ensures i < |t| && Runnable(t[i])
  {
    At(ptr, Distance(t, ptr), |t|)
  }

  ghost function NextPtr(t: Table, ptr: nat): (i: nat)
    requires ptr < |t| && SomeRunnable(t)
    ensures i < |t|
  {
    At(Chosen(t, ptr), if |t| == 1 then 0 else 1, |t|)
  }

  /** The slot after one visit of the search: the chosen one runs, a skipped blocked one is marked. */
  function Visited(p: Proc): Proc {
    if Runnable(p) then p.(status := ProcRunning)
    else if p.msgBlock then p.(status := ProcBlock)
    else p
  }

  /** The table after the search has visited the `d` slots that start at `ptr`. */
  function VisitedTable(t: Table, ptr: nat, d: nat): (r: Table)
    requires ptr < |t| && d <= |t|
    ensures |r| == |t|
    ensures forall i: nat | i < |t| :: r[i] == if Ahead(ptr, i, |t|) < d then Visited(t[i]) else t[i]
  {
    seq(|t|, i requires 0 <= i < |t| => if Ahead(ptr, i, |t|) < d then Visited(t[i]) else t[i])
  }

  lemma VisitNext(t: Table, ptr: nat, d: nat)
    requires ptr < |t| && d < |t|
    ensures At(ptr, d, |t|) < |t|
    ensures VisitedTable(t, ptr, d)[At(ptr, d, |t|)] == t[At(ptr, d, |t|)]
    ensures VisitedTable(t, ptr, d + 1) == VisitedTable(t, ptr, d)[At(ptr, d, |t|) := Visited(t[At(ptr, d, |t|)])]
  {
    var i := At(ptr, d, |t|);
    assert Ahead(ptr, i, |t|) == d;
    var now, next := VisitedTable(t, ptr, d)[i := Visited(t[i])], VisitedTable(t, ptr, d + 1);
    forall j | 0 <= j < |t| ensures next[j] == now[j] {}
  }

  lemma NothingVisited(t: Table, ptr: nat)
    requires ptr < |t|
    ensures VisitedTable(t, ptr, 0) == t
  {
  }

  lemma DistanceBound(t: Table, ptr: nat)
    requires ptr < |t| && SomeRunnable(t)
    ensures Distance(t, ptr) < |t|
  {
  }

  /** The search stops at the slot it visits exactly when that is the one to choose. */
  lemma VisitStops(t: Table, ptr: nat, d: nat)
    requires ptr < |t| && SomeRunnable(t) && d <= Distance(t, ptr)
    ensures Distance(t, ptr) < |t|
    ensures Runnable(t[At(ptr, d, |t|)]) <==> d == Distance(t, ptr)
  {
  }

  /**
   What a whole search leaves: it stops at the first slot from `ptr` on that can run, which runs
   now; every slot before it cannot, and is marked if it is blocked; no other slot changes, and no
   slot changes in anything but `status`.
   */
  lemma SearchMeans(t: Table, ptr: nat, t': Table)
    requires ptr < |t| && SomeRunnable(t) && Distance(t, ptr) < |t|
    requires t' == VisitedTable(t, ptr, Distance(t, ptr) + 1)
    ensures var c := Chosen(t, ptr);
            && c < |t| == |t'| && Runnable(t[c]) && t'[c].status == ProcRunning && NextPtr(t, ptr) == (c + 1) % |t|
            && (forall i | 0 <= i < |t| :: t'[i] == t[i].(status := t'[i].status))
            && (forall i | 0 <= i < |t| && Ahead(ptr, i, |t|) < Ahead(ptr, c, |t|) ::
                  !Runnable(t[i]) && t'[i].status == if t[i].msgBlock then ProcBlock else t[i].status)
            && (forall i | 0 <= i < |t| && Ahead(ptr, i, |t|) > Ahead(ptr, c, |t|) :: t'[i] == t[i])
  {
    var c, d := Chosen(t, ptr), Distance(t, ptr);
    RingNext(c, |t|);
    forall i | 0 <= i < |t| ensures t'[i] == if Ahead(ptr, i, |t|) <= d then Visited(t[i]) else t[i] {}
    assert Ahead(ptr, c, |t|) == d;
    forall i | 0 <= i < |t| && Ahead(ptr, i, |t|) < d ensures !Runnable(t[i]) {
      assert At(ptr, Ahead(ptr, i, |t|), |t|) == i;
    }
  }

  // ------------------------------------------------------------------- runs of calls

  ghost predicate IsRun(tables: seq<Table>, n: nat) {
    forall k | 0 <= k < |tables| :: |tables[k]| == n && SomeRunnable(tables[k])
  }

  /** `proc_ptr` before call number `k` when the calls find the tables of `tables`. */
  ghost function PtrAt(tables: seq<Table>, n: nat, ptr: nat, k: nat): (r: nat)
    requires ptr < n && IsRun(tables, n) && k <= |tables|
    ensures r < n
  {
    if k == 0 then ptr else NextPtr(tables[k-1], PtrAt(tables, n, ptr, k - 1))
  }

  ghost function ChosenAt(tables: seq<Table>, n: nat, ptr: nat, k: nat): nat
    requires ptr < n && IsRun(tables, n) && k < |tables|
  {
    Chosen(tables[k], PtrAt(tables, n, ptr, k))
  }

  /** One call either chooses a runnable `p` or brings `proc_ptr` strictly closer to it. */
  lemma CallApproaches(t: Table, ptr: nat, p: nat)
    requires ptr < |t| && p < |t| && Runnable(t[p])
    ensures SomeRunnable(t)
    ensures Chosen(t, ptr) == p || Ahead(NextPtr(t, ptr), p, |t|) < Ahead(ptr, p, |t|)
  {
    var d := Distance(t, ptr);
    assert d <= Ahead(ptr, p, |t|);
  }

  lemma {:induction false} ApproachesUntilChosen(tables: seq<Table>, n: nat, ptr: nat, p: nat, from: nat, k: nat)
    requires ptr < n && p < n && IsRun(tables, n) && from <= k <= |tables|
    requires forall j | from <= j < k :: Runnable(tables[j][p]) && ChosenAt(tables, n, ptr, j) != p
    ensures Ahead(PtrAt(tables, n, ptr, k), p, n) + (k - from) <= Ahead(PtrAt(tables, n, ptr, from), p, n)
  {
    hide ChosenAt, Chosen, NextPtr, Distance, Runnable, SomeRunnable, PtrAt;
    if k > from {
      ApproachesUntilChosen(tables, n, ptr, p, from, k - 1);
      OneCallCloser(tables, n, ptr, p, k - 1);
    }
  }

  lemma OneCallCloser(tables: seq<Table>, n: nat, ptr: nat, p: nat, k: nat)
    requires ptr < n && p < n && IsRun(tables, n) && k < |tables|
    requires Runnable(tables[k][p]) && ChosenAt(tables, n, ptr, k) != p
    ensures Ahead(PtrAt(tables, n, ptr, k + 1), p, n) < Ahead(PtrAt(tables, n, ptr, k), p, n)
  {
    hide Ahead, Runnable, Distance;
    assert PtrAt(tables, n, ptr, k + 1) == NextPtr(tables[k], PtrAt(tables, n, ptr, k));
    CallApproaches(tables[k], PtrAt(tables, n, ptr, k), p);
  }

  /** A process that can run at every one of `n` consecutive calls, from any call on, is chosen by one of them. */
  lemma RoundRobinFair(tables: seq<Table>, n: nat, ptr: nat, p: nat, from: nat)
    requires ptr < n && p < n && IsRun(tables, n) && from + n <= |tables|
    requires forall k | from <= k < from + n :: Runnable(tables[k][p])
    ensures exists k | from <= k < from + n :: ChosenAt(tables, n, ptr, k) == p
  {
    if forall k | from <= k < from + n :: ChosenAt(tables, n, ptr, k) != p {
      ApproachesUntilChosen(tables, n, ptr, p, from, from + n);
      assert false;
    }
  }
}
