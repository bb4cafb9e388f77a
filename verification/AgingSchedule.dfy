/**
 What one call of `proc_priority_schedule` (proc/sched.c) decides, and the bounds it
 guarantees over any sequence of calls. The `waiting` counters are 32-bit, and the levels
 waiting/priority are compared exactly, by cross-multiplication.
 */
module AgingSchedule {
  import opened ProcTable
  import opened Counting
  import opened Words

  type Waits = seq<nat>
  type Flags = seq<bool>

  function WaitsOf(t: Table): (w: Waits)
    ensures |w| == |t| && forall i | 0 <= i < |t| :: w[i] == t[i].waiting
  {
    seq(|t|, i requires 0 <= i < |t| => t[i].waiting)
  }

  function PrioritiesOf(t: Table): (p: seq<nat>)
    ensures |p| == |t| && forall i | 0 <= i < |t| :: p[i] == t[i].priority
  {
    seq(|t|, i requires 0 <= i < |t| => t[i].priority)
  }

  function RunnableOf(t: Table): (r: Flags)
    ensures |r| == |t| && forall i | 0 <= i < |t| :: r[i] == Runnable(t[i])
  {
    seq(|t|, i requires 0 <= i < |t| => Runnable(t[i]))
  }

  /** Every process that can run has a positive priority; a free slot has priority 0. */
  ghost predicate RunnersPositive(pri: seq<nat>, r: Flags) {
    |r| == |pri| && forall i | 0 <= i < |pri| && r[i] :: 0 < pri[i]
  }

  ghost predicate Positive(pri: seq<nat>) {
    forall i | 0 <= i < |pri| :: 0 < pri[i]
  }

  /** The counters after every runnable process has aged by one. */
  function Aged(w: Waits, r: Flags): (b: Waits)
    requires |r| == |w|
    ensures |b| == |w|
    ensures forall i | 0 <= i < |w| :: b[i] == if r[i] then (w[i] + 1) % WORD else w[i]
  {
    seq(|w|, i requires 0 <= i < |w| => if r[i] then (w[i] + 1) % WORD else w[i])
  }

  /** The level w1/p1 is at most the level w2/p2. */
  predicate LevelLe(w1: nat, p1: nat, w2: nat, p2: nat) {
    w1 * p2 <= w2 * p1
  }

  /** `i` would be the choice if the table had only its first `n` slots. */
  ghost predicate IsPickBelow(b: Waits, pri: seq<nat>, r: Flags, n: nat, i: nat)
    requires n <= |b| == |pri| == |r|
  {
    && i < n && r[i] && 0 < b[i]
    && (forall j | 0 <= j < n && r[j] :: LevelLe(b[j], pri[j], b[i], pri[i]))
    && (forall j | 0 <= j < i && r[j] :: !LevelLe(b[i], pri[i], b[j], pri[j]))
  }

  /** `i` is the first runnable process of the largest level, which is not zero. */
  ghost predicate IsPick(b: Waits, pri: seq<nat>, r: Flags, i: nat)
    requires |b| == |pri| == |r|
  {
    IsPickBelow(b, pri, r, |b|, i)
  }

  lemma PickUnique(b: Waits, pri: seq<nat>, r: Flags, i: nat, j: nat)
    requires |b| == |pri| == |r| && IsPick(b, pri, r, i) && IsPick(b, pri, r, j)
    ensures i == j
  {
    // Each of the two has a level at most the other's, so neither can come first.
    assert LevelLe(b[i], pri[i], b[j], pri[j]) && LevelLe(b[j], pri[j], b[i], pri[i]);
  }

  lemma LevelTransitive(w1: nat, p1: nat, w2: nat, p2: nat, w3: nat, p3: nat)
    requires 0 < p1 && 0 < p2 && 0 < p3
    requires LevelLe(w1, p1, w2, p2) && LevelLe(w2, p2, w3, p3)
    ensures LevelLe(w1, p1, w3, p3)
    ensures !LevelLe(w3, p3, w2, p2) ==> !LevelLe(w3, p3, w1, p1)
  {
    Scale(w1 * p2, w2 * p1, p3);
    Scale(w2 * p3, w3 * p2, p1);
    assert (w1 * p3) * p2 == (w1 * p2) * p3 <= (w2 * p1) * p3 == (w2 * p3) * p1 <= (w3 * p2) * p1 == (w3 * p1) * p2;
    Cancel(w1 * p3, w3 * p1, p2);
    if w2 * p3 < w3 * p2 {
      ScaleStrict(w2 * p3, w3 * p2, p1);
      assert (w1 * p3) * p2 < (w3 * p1) * p2;
    }
  }

  lemma Scale(a: nat, b: nat, c: nat)
    requires a <= b
    ensures a * c <= b * c
  {
  }

  lemma ScaleStrict(a: nat, b: nat, c: nat)
    requires a < b && 0 < c
    ensures a * c < b * c
  {
  }

  lemma Cancel(a: nat, b: nat, c: nat)
    requires 0 < c && a * c <= b * c
    ensures a <= b
  {
    if b < a { ScaleStrict(b, a, c); }
  }

  /** Some process can run and its counter does not wrap to zero at this call. */
  ghost predicate HasLevel(w: Waits, r: Flags)
    requires |r| == |w|
  {
    exists i | 0 <= i < |w| :: r[i] && w[i] % WORD != WORD - 1
  }

  /** Ageing leaves a runnable process without a level exactly when its counter wraps. */
  lemma LevelAfterAgeing(w: Waits, r: Flags, i: nat)
    requires |r| == |w| && i < |w| && r[i]
    ensures 0 < Aged(w, r)[i] <==> w[i] % WORD != WORD - 1
  {
    assert w[i] == w[i] / WORD * WORD + w[i] % WORD;
    if w[i] % WORD == WORD - 1 {
      assert w[i] + 1 == (w[i] / WORD + 1) * WORD;
    }
  }

  lemma PickExists(w: Waits, pri: seq<nat>, r: Flags)
    requires |w| == |pri| == |r| && RunnersPositive(pri, r) && HasLevel(w, r)
    ensures exists i: nat :: IsPick(Aged(w, r), pri, r, i)
  {
    var j: nat :| j < |w| && r[j] && w[j] % WORD != WORD - 1;
    LevelAfterAgeing(w, r, j);
    PickExistsBelow(Aged(w, r), pri, r, |w|);
    var i: nat :| IsPickBelow(Aged(w, r), pri, r, |w|, i);
    assert IsPick(Aged(w, r), pri, r, i);
  }

  lemma {:induction false} PickExistsBelow(b: Waits, pri: seq<nat>, r: Flags, n: nat)
    requires n <= |b| == |pri| == |r| && RunnersPositive(pri, r)
    requires exists i | 0 <= i < n :: r[i] && 0 < b[i]
    ensures exists i: nat :: IsPickBelow(b, pri, r, n, i)
  {
    if exists i | 0 <= i < n - 1 :: r[i] && 0 < b[i] {
      PickExistsBelow(b, pri, r, n - 1);
      var i: nat :| IsPickBelow(b, pri, r, n - 1, i);
      if !r[n-1] || LevelLe(b[n-1], pri[n-1], b[i], pri[i]) {
        NextIsNotPick(b, pri, r, n - 1, i);
      } else {
        NextIsPick(b, pri, r, n - 1, i);
      }
    } else {
      assert IsPickBelow(b, pri, r, n, n - 1);
    }
  }

  lemma NextIsNotPick(b: Waits, pri: seq<nat>, r: Flags, n: nat, i: nat)
    requires n < |b| == |pri| == |r| && IsPickBelow(b, pri, r, n, i)
    requires !r[n] || LevelLe(b[n], pri[n], b[i], pri[i])
    ensures IsPickBelow(b, pri, r, n + 1, i)
  {
  }

  /** The loop's test `tmp > max_level`: a strictly larger level beats everything seen before. */
  lemma NextIsPick(b: Waits, pri: seq<nat>, r: Flags, n: nat, i: nat)
    requires n < |b| == |pri| == |r| && RunnersPositive(pri, r) && IsPickBelow(b, pri, r, n, i)
    requires r[n] && !LevelLe(b[n], pri[n], b[i], pri[i])
    ensures IsPickBelow(b, pri, r, n + 1, n)
  {
    forall j | 0 <= j < n && r[j]
      ensures LevelLe(b[j], pri[j], b[n], pri[n]) && !LevelLe(b[n], pri[n], b[j], pri[j])
    {
      LevelTransitive(b[j], pri[j], b[i], pri[i], b[n], pri[n]);
    }
  }

  /**
   What the scan knows after `i` slots: `mark` is the choice among them and `level` its level,
   or all their levels are zero.
   */
  ghost predicate Scanned(b: Waits, pri: seq<nat>, r: Flags, i: nat, found: bool, mark: nat,
                          levelWait: nat, levelPri: nat)
    requires i <= |b| == |pri| == |r|
  {
    if found then IsPickBelow(b, pri, r, i, mark) && levelWait == b[mark] && levelPri == pri[mark]
    else levelWait == 0 && levelPri == 1 && forall j | 0 <= j < i :: !(r[j] && 0 < b[j])
  }

  lemma ScanKeeps(b: Waits, pri: seq<nat>, r: Flags, i: nat, found: bool, mark: nat, levelWait: nat, levelPri: nat)
    requires i < |b| == |pri| == |r| && RunnersPositive(pri, r)
    requires Scanned(b, pri, r, i, found, mark, levelWait, levelPri)
    requires !r[i] || b[i] * levelPri <= levelWait * pri[i]
    ensures Scanned(b, pri, r, i + 1, found, mark, levelWait, levelPri)
  {
    if found { NextIsNotPick(b, pri, r, i, mark); }
  }

  lemma ScanMoves(b: Waits, pri: seq<nat>, r: Flags, i: nat, found: bool, mark: nat, levelWait: nat, levelPri: nat)
    requires i < |b| == |pri| == |r| && RunnersPositive(pri, r)
    requires Scanned(b, pri, r, i, found, mark, levelWait, levelPri)
    requires r[i] && levelWait * pri[i] < b[i] * levelPri
    ensures Scanned(b, pri, r, i + 1, true, i, b[i], pri[i])
  {
    if found {
      NextIsPick(b, pri, r, i, mark);
    } else {
      forall j | 0 <= j < i && r[j]
        ensures LevelLe(b[j], pri[j], b[i], pri[i]) && !LevelLe(b[i], pri[i], b[j], pri[j])
      {
        ScaleStrict(0, b[i], pri[j]);
      }
    }
  }

  lemma ScanStart(b: Waits, pri: seq<nat>, r: Flags)
    requires |b| == |pri| == |r|
    ensures Scanned(b, pri, r, 0, false, 0, 0, 1)
  {
  }

  /** What the whole scan finds: the choice, or that no runnable process has a level. */
  ghost predicate FoundPick(b: Waits, pri: seq<nat>, r: Flags, found: bool, mark: nat)
    requires |b| == |pri| == |r|
  {
    if found then IsPick(b, pri, r, mark) else forall j | 0 <= j < |b| :: !(r[j] && 0 < b[j])
  }

  lemma ScanEnd(b: Waits, pri: seq<nat>, r: Flags, found: bool, mark: nat, levelWait: nat, levelPri: nat)
    requires |b| == |pri| == |r| && Scanned(b, pri, r, |b|, found, mark, levelWait, levelPri)
    ensures FoundPick(b, pri, r, found, mark)
  {
  }

  /** When some runnable counter does not wrap, the scan does set its mark. */
  lemma ScanFinds(w: Waits, pri: seq<nat>, r: Flags, found: bool, mark: nat)
    requires |w| == |pri| == |r| && HasLevel(w, r) && FoundPick(Aged(w, r), pri, r, found, mark)
    ensures found && mark < |w| && IsPick(Aged(w, r), pri, r, mark)
  {
    var j: nat :| j < |w| && r[j] && w[j] % WORD != WORD - 1;
    LevelAfterAgeing(w, r, j);
  }

  /** The slot after the scan has passed it, with counter `wait`. */
  function ScannedSlot(p: Proc, wait: nat): Proc {
    p.(waiting := wait, status := if Runnable(p) then ProcRunning else ProcBlock)
  }

  // ------------------------------------------------------------------- runs of calls

  /** One call: it ages the processes of `r`, chooses `c` and clears its counter. */
  ghost predicate IsCall(w: Waits, pri: seq<nat>, r: Flags, c: nat, w': Waits)
    requires |w| == |pri| == |r|
  {
    IsPick(Aged(w, r), pri, r, c) && w' == Aged(w, r)[c := 0]
  }

  /**
   A run: call number `k` finds the counters `waits[k]`, can choose among `ready[k]` (between
   calls any process may block or wake) and chooses `chosen[k]`.
   */
  datatype Run = Run(waits: seq<Waits>, ready: seq<Flags>, chosen: seq<nat>)

  ghost predicate IsRun(run: Run, pri: seq<nat>, calls: nat) {
    && |run.waits| == calls + 1 && |run.ready| == calls && |run.chosen| == calls
    && (forall k | 0 <= k <= calls :: |run.waits[k]| == |pri|)
    && (forall k | 0 <= k < calls :: IsRunCall(run, pri, k))
  }

  ghost predicate IsRunCall(run: Run, pri: seq<nat>, k: nat)
    requires k < |run.ready| && k < |run.chosen| && k + 1 < |run.waits|
    requires |run.waits[k]| == |pri|
  {
    && |run.ready[k]| == |pri|
    && IsCall(run.waits[k], pri, run.ready[k], run.chosen[k], run.waits[k+1])
  }

  /** At every call of the run, every process that can run has a positive priority. */
  ghost predicate PositiveIn(run: Run, pri: seq<nat>) {
    forall k | 0 <= k < |run.ready| :: |run.ready[k]| == |pri| ==> RunnersPositive(pri, run.ready[k])
  }

  /**
   A call depends on the priorities of those that can run only: those of free slots may be
   anything, and may still become something else when the slots are taken.
   */
  lemma CallDependsOnRunners(w: Waits, pri: seq<nat>, pri': seq<nat>, r: Flags, c: nat, w': Waits)
    requires |w| == |pri| == |pri'| == |r| && forall i | 0 <= i < |r| && r[i] :: pri[i] == pri'[i]
    ensures IsCall(w, pri, r, c, w') <==> IsCall(w, pri', r, c, w')
  {
    PickDependsOnRunners(Aged(w, r), pri, pri', r, c);
    PickDependsOnRunners(Aged(w, r), pri', pri, r, c);
  }

  lemma PickDependsOnRunners(b: Waits, pri: seq<nat>, pri': seq<nat>, r: Flags, c: nat)
    requires |b| == |pri| == |pri'| == |r| && forall i | 0 <= i < |r| && r[i] :: pri[i] == pri'[i]
    ensures IsPick(b, pri, r, c) ==> IsPick(b, pri', r, c)
  {
    hide LevelLe;
  }

  /** A counter grows by at most one a call. */
  lemma {:induction false} GrowsSlowly(run: Run, pri: seq<nat>, calls: nat, from: nat, k: nat, i: nat)
    requires IsRun(run, pri, calls) && from <= k <= calls && i < |pri|
    ensures run.waits[k][i] <= run.waits[from][i] + (k - from)
  {
    if from < k {
      GrowsSlowly(run, pri, calls, from, k - 1, i);
      assert IsRunCall(run, pri, k - 1);
    }
  }

  /** A process that can run and is not chosen ages by one at every call. */
  lemma {:induction false} AgesWhileIgnored(run: Run, pri: seq<nat>, calls: nat, p: nat, k: nat)
    requires IsRun(run, pri, calls) && k <= calls && p < |pri| && run.waits[0][p] + calls < WORD
    requires forall j | 0 <= j < k :: run.chosen[j] != p
    requires forall j | 0 <= j < k :: |run.ready[j]| == |pri| && run.ready[j][p]
    ensures run.waits[k][p] == run.waits[0][p] + k
  {
    if k > 0 {
      AgesWhileIgnored(run, pri, calls, p, k - 1);
      assert IsRunCall(run, pri, k - 1);
    }
  }

  /** While `p` is ignored, calls `a` and `b` choose the same process only if they are far apart. */
  lemma ChosenTwice(run: Run, pri: seq<nat>, calls: nat, p: nat, a: nat, b: nat)
    requires IsRun(run, pri, calls) && PositiveIn(run, pri) && p < |pri| && run.waits[0][p] + calls < WORD
    requires a < b < calls && run.chosen[a] == run.chosen[b]
    requires forall j | 0 <= j <= b :: run.chosen[j] != p
    requires forall j | 0 <= j <= b :: |run.ready[j]| == |pri| && run.ready[j][p]
    ensures b + 1 <= (b - a) * pri[p]
  {
    var j := run.chosen[b];
    assert IsRunCall(run, pri, a) && IsRunCall(run, pri, b);
    assert RunnersPositive(pri, run.ready[b]);
    assert run.waits[a+1][j] == 0;
    GrowsSlowly(run, pri, calls, a + 1, b, j);
    AgesWhileIgnored(run, pri, calls, p, b);
    var aged := Aged(run.waits[b], run.ready[b]);
    assert aged[p] == run.waits[0][p] + b + 1 && aged[j] <= b - a;
    assert LevelLe(aged[p], pri[p], aged[j], pri[j]);
    Scale(b + 1, aged[p], pri[j]);
    Scale(1, pri[j], b + 1);
    Scale(aged[j], b - a, pri[p]);
  }

  /**
   With any positive priorities of those that can run and any starting counters, a process of priority `q` that can
   run throughout (q+1)*n calls is chosen by one of them, provided its own counter does not wrap
   meanwhile. The other counters may.
   */
  lemma AgingFair(run: Run, pri: seq<nat>, p: nat)
    requires PositiveIn(run, pri) && p < |pri| && IsRun(run, pri, (pri[p] + 1) * |pri|)
    requires run.waits[0][p] + (pri[p] + 1) * |pri| < WORD
    requires forall k | 0 <= k < |run.ready| :: |run.ready[k]| == |pri| && run.ready[k][p]
    ensures p in run.chosen
  {
    var n, first, calls := |pri|, pri[p] * |pri|, (pri[p] + 1) * |pri|;
    assert calls == first + n && n * pri[p] == first;
    if p !in run.chosen {
      forall a, b | first <= a < b < first + n ensures run.chosen[a] != run.chosen[b] {
        if run.chosen[a] == run.chosen[b] {
          ChosenTwice(run, pri, calls, p, a, b);
          Scale(b - a, n, pri[p]);
        }
      }
      WindowReaches(run, pri, calls, p, first);
    }
  }

  /** A process of priority 1, which every constructor sets, is chosen within `n` calls. */
  lemma AgingFairPriorityOne(run: Run, pri: seq<nat>, p: nat)
    requires PositiveIn(run, pri) && p < |pri| && pri[p] == 1 && IsRun(run, pri, |pri|)
    requires run.waits[0][p] + |pri| < WORD
    requires forall k | 0 <= k < |run.ready| :: |run.ready[k]| == |pri| && run.ready[k][p]
    ensures p in run.chosen
  {
    if p !in run.chosen {
      forall a, b | 0 <= a < b < |pri| ensures run.chosen[a] != run.chosen[b] {
        if run.chosen[a] == run.chosen[b] {
          ChosenTwice(run, pri, |pri|, p, a, b);
        }
      }
      WindowReaches(run, pri, |pri|, p, 0);
    }
  }

  /** Among `n` calls that choose `n` different processes, one chooses `p`. */
  lemma WindowReaches(run: Run, pri: seq<nat>, calls: nat, p: nat, first: nat)
    requires IsRun(run, pri, calls) && first + |pri| <= calls && p < |pri|
    requires forall a, b | first <= a < b < first + |pri| :: run.chosen[a] != run.chosen[b]
    ensures p in run.chosen
  {
    var f := run.chosen[first..first + |pri|];
    forall k | 0 <= k < |pri| ensures f[k] < |pri| {
      assert IsRunCall(run, pri, first + k);
    }
    Pigeonhole(f, |pri|, p);
  }

  /** The calls k..k+n of a run are a run. */
  lemma Stretch(run: Run, pri: seq<nat>, calls: nat, k: nat, n: nat) returns (part: Run)
    requires IsRun(run, pri, calls) && k + n <= calls
    ensures part == Run(run.waits[k..k+n+1], run.ready[k..k+n], run.chosen[k..k+n])
    ensures IsRun(part, pri, n) && (PositiveIn(run, pri) ==> PositiveIn(part, pri))
  {
    part := Run(run.waits[k..k+n+1], run.ready[k..k+n], run.chosen[k..k+n]);
    forall j | 0 <= j < n ensures IsRunCall(part, pri, j) {
      assert IsRunCall(run, pri, k + j);
    }
  }

  /** At most one wrap, and then a counter from 0 on: twice the bound holds whatever the counters are. */
  lemma AgingFairAlways(run: Run, pri: seq<nat>, p: nat)
    requires PositiveIn(run, pri) && p < |pri| && IsRun(run, pri, 2 * ((pri[p] + 1) * |pri|) + 1)
    requires 2 * ((pri[p] + 1) * |pri|) + 1 < WORD && run.waits[0][p] < WORD
    requires forall k | 0 <= k < |run.ready| :: |run.ready[k]| == |pri| && run.ready[k][p]
    ensures p in run.chosen
  {
    var m := (pri[p] + 1) * |pri|;
    var calls := 2 * m + 1;
    if run.waits[0][p] + m < WORD {
      var part := Stretch(run, pri, calls, 0, m);
      AgingFair(part, pri, p);
    } else if p !in run.chosen {
      var t := WORD - 1 - run.waits[0][p];
      var before := Stretch(run, pri, calls, 0, t);
      AgesWhileIgnored(before, pri, t, p, t);
      assert IsRunCall(run, pri, t);
      assert run.waits[t][p] == WORD - 1 && run.waits[t+1][p] == 0;
      var after := Stretch(run, pri, calls, t + 1, m);
      AgingFair(after, pri, p);
    }
  }

  // ------------------------------------------------- no level ever reaches n from a fresh table

  /** The priorities with those of free slots put at 1. */
  function Lifted(pri: seq<nat>): (p: seq<nat>)
    ensures |p| == |pri| && Positive(p)
    ensures forall i | 0 <= i < |pri| :: p[i] == if pri[i] == 0 then 1 else pri[i]
  {
    seq(|pri|, i requires 0 <= i < |pri| => if pri[i] == 0 then 1 else pri[i])
  }

  lemma LiftedRun(run: Run, pri: seq<nat>, calls: nat)
    requires IsRun(run, pri, calls) && PositiveIn(run, pri)
    ensures IsRun(run, Lifted(pri), calls)
  {
    forall k | 0 <= k < calls ensures IsRunCall(run, Lifted(pri), k) {
      assert IsRunCall(run, pri, k) && RunnersPositive(pri, run.ready[k]);
      CallDependsOnRunners(run.waits[k], pri, Lifted(pri), run.ready[k], run.chosen[k], run.waits[k+1]);
    }
  }

  /** The processes whose level has reached `k`. */
  function AtLevel(w: Waits, pri: seq<nat>, k: nat): set<nat>
    requires |pri| == |w|
  {
    set i | i in Below(|w|) && k * pri[i] <= w[i]
  }

  /** At most n-k levels have reached k. */
  ghost predicate Spread(w: Waits, pri: seq<nat>)
    requires |pri| == |w|
  {
    forall k: nat | k <= |w| :: |AtLevel(w, pri, k)| + k <= |w|
  }

  /** So no level has reached n. */
  lemma SpreadBound(w: Waits, pri: seq<nat>, i: nat)
    requires |pri| == |w| && Spread(w, pri) && i < |w|
    ensures w[i] < |w| * pri[i]
  {
    assert |AtLevel(w, pri, |w|)| == 0;
    assert i in Below(|w|) && i !in AtLevel(w, pri, |w|);
  }

  lemma FreshSpread(w: Waits, pri: seq<nat>)
    requires |pri| == |w| && Positive(pri) && forall i | 0 <= i < |w| :: w[i] == 0
    ensures Spread(w, pri)
  {
    forall k: nat | k <= |w| ensures |AtLevel(w, pri, k)| + k <= |w| {
      if k == 0 {
        SubsetSize(AtLevel(w, pri, 0), Below(|w|));
      } else {
        forall i | i in AtLevel(w, pri, k) ensures false { ScaleStrict(0, k, pri[i]); }
        assert AtLevel(w, pri, k) == {};
      }
    }
  }

  /** The counters of n processes of these priorities cannot wrap: no level reaches n. */
  ghost predicate NoWraps(pri: seq<nat>) {
    forall i | 0 <= i < |pri| :: |pri| * pri[i] < WORD
  }

  lemma AgedExactly(w: Waits, pri: seq<nat>, r: Flags, i: nat)
    requires |w| == |pri| == |r| && Spread(w, pri) && NoWraps(pri) && i < |w|
    ensures Aged(w, r)[i] == if r[i] then w[i] + 1 else w[i]
  {
    SpreadBound(w, pri, i);
  }

  /** A process that has reached level k after a call had reached level k-1 before it. */
  lemma OneLevelLess(w: nat, p: nat, k: nat)
    requires 0 < k && 0 < p && k * p <= w + 1
    ensures (k - 1) * p <= w
  {
    assert (k - 1) * p == k * p - p;
  }

  /** When the choice has not reached level k, no runnable process has. */
  lemma ChoiceIsHighest(b: Waits, pri: seq<nat>, r: Flags, c: nat, i: nat, k: nat)
    requires |b| == |pri| == |r| && Positive(pri) && IsPick(b, pri, r, c) && i < |b| && r[i]
    requires b[c] < k * pri[c]
    ensures b[i] < k * pri[i]
  {
    assert LevelLe(b[i], pri[i], b[c], pri[c]);
    ScaleStrict(b[c], k * pri[c], pri[i]);
    assert (k * pri[i]) * pri[c] == (k * pri[c]) * pri[i];
    CancelStrict(b[i], k * pri[i], pri[c]);
  }

  lemma CancelStrict(a: nat, b: nat, c: nat)
    requires a * c < b * c
    ensures a < b
  {
    if b <= a { Scale(b, a, c); }
  }

  /** One call keeps the spread, whoever can run: the level that is cleared had come furthest. */
  lemma CallSpread(w: Waits, pri: seq<nat>, r: Flags, c: nat, w': Waits)
    requires |w| == |pri| == |r| && Positive(pri) && NoWraps(pri) && IsCall(w, pri, r, c, w')
    requires Spread(w, pri)
    ensures Spread(w', pri)
  {
    forall k: nat | k <= |w| ensures |AtLevel(w', pri, k)| + k <= |w| {
      if k == 0 {
        SubsetSize(AtLevel(w', pri, 0), Below(|w|));
      } else if k * pri[c] <= Aged(w, r)[c] {
        SpreadReached(w, pri, r, c, w', k);
      } else {
        SpreadNotReached(w, pri, r, c, w', k);
      }
    }
  }

  /** The choice had reached level k: it leaves the processes at level k-1, and the rest of them remain. */
  lemma SpreadReached(w: Waits, pri: seq<nat>, r: Flags, c: nat, w': Waits, k: nat)
    requires |w| == |pri| == |r| && Positive(pri) && NoWraps(pri) && IsCall(w, pri, r, c, w')
    requires Spread(w, pri) && 0 < k <= |w| && k * pri[c] <= Aged(w, r)[c]
    ensures |AtLevel(w', pri, k)| + k <= |w|
  {
    var before := AtLevel(w, pri, k - 1);
    AgedExactly(w, pri, r, c);
    OneLevelLess(w[c], pri[c], k);
    assert c in before;
    forall i | i in AtLevel(w', pri, k) ensures i in before - {c} {
      AgedExactly(w, pri, r, i);
      ScaleStrict(0, k, pri[i]);
      OneLevelLess(w[i], pri[i], k);
    }
    SubsetSize(AtLevel(w', pri, k), before - {c});
    assert |before| + (k - 1) <= |w|;
  }

  /** Nobody new has reached level k. */
  lemma SpreadNotReached(w: Waits, pri: seq<nat>, r: Flags, c: nat, w': Waits, k: nat)
    requires |w| == |pri| == |r| && Positive(pri) && NoWraps(pri) && IsCall(w, pri, r, c, w')
    requires Spread(w, pri) && 0 < k <= |w| && Aged(w, r)[c] < k * pri[c]
    ensures |AtLevel(w', pri, k)| + k <= |w|
  {
    forall i | i in AtLevel(w', pri, k) ensures i in AtLevel(w, pri, k) {
      AgedExactly(w, pri, r, i);
      ScaleStrict(0, k, pri[i]);
      if r[i] { ChoiceIsHighest(Aged(w, r), pri, r, c, i, k); }
    }
    SubsetSize(AtLevel(w', pri, k), AtLevel(w, pri, k));
  }

  lemma {:induction false} RunSpread(run: Run, pri: seq<nat>, calls: nat, k: nat)
    requires IsRun(run, pri, calls) && k <= calls && Positive(pri) && NoWraps(pri)
    requires forall j | 0 <= j < |pri| :: run.waits[0][j] == 0
    ensures Spread(run.waits[k], pri)
  {
    if k == 0 {
      FreshSpread(run.waits[0], pri);
    } else {
      RunSpread(run, pri, calls, k - 1);
      assert IsRunCall(run, pri, k - 1);
      CallSpread(run.waits[k-1], pri, run.ready[k-1], run.chosen[k-1], run.waits[k]);
    }
  }

  lemma {:induction false} NeverAges(run: Run, pri: seq<nat>, calls: nat, k: nat, i: nat)
    requires IsRun(run, pri, calls) && k <= calls && PositiveIn(run, pri) && i < |pri| && pri[i] == 0
    ensures run.waits[k][i] == run.waits[0][i]
  {
    if k > 0 {
      NeverAges(run, pri, calls, k - 1, i);
      assert IsRunCall(run, pri, k - 1) && RunnersPositive(pri, run.ready[k-1]);
    }
  }

  /**
   From a fresh table, with any positive priorities of those that can run and whatever blocks and
   wakes, at most n-k levels ever reach k, where free slots count with priority 1. So no counter
   reaches n times its priority, and none ever wraps; with all priorities 1 none exceeds n-1.
   */
  lemma WaitingBounded(run: Run, pri: seq<nat>, calls: nat, k: nat)
    requires IsRun(run, pri, calls) && k <= calls && PositiveIn(run, pri) && NoWraps(Lifted(pri))
    requires forall j | 0 <= j < |pri| :: run.waits[0][j] == 0
    ensures Spread(run.waits[k], Lifted(pri))
    ensures forall i | 0 <= i < |pri| ::
              if pri[i] == 0 then run.waits[k][i] == 0 else run.waits[k][i] < |pri| * pri[i]
  {
    LiftedRun(run, pri, calls);
    RunSpread(run, Lifted(pri), calls, k);
    forall i | 0 <= i < |pri|
      ensures if pri[i] == 0 then run.waits[k][i] == 0 else run.waits[k][i] < |pri| * pri[i]
    {
      SpreadBound(run.waits[k], Lifted(pri), i);
      if pri[i] == 0 { NeverAges(run, pri, calls, k, i); }
    }
  }

  /** So from a fresh table every call has somebody to choose as long as somebody can run. */
  lemma FreshTableChooses(run: Run, pri: seq<nat>, calls: nat, k: nat, r: Flags)
    requires IsRun(run, pri, calls) && k <= calls && PositiveIn(run, pri) && NoWraps(Lifted(pri))
    requires forall j | 0 <= j < |pri| :: run.waits[0][j] == 0
    requires RunnersPositive(pri, r) && exists i | 0 <= i < |r| :: r[i]
    ensures HasLevel(run.waits[k], r)
    ensures exists c: nat, w' :: IsCall(run.waits[k], pri, r, c, w')
  {
    WaitingBounded(run, pri, calls, k);
    var i: nat :| i < |r| && r[i];
    assert |pri| * Lifted(pri)[i] < WORD && Lifted(pri)[i] == pri[i];
    assert run.waits[k][i] % WORD == run.waits[k][i];
    CallChoosesIff(run.waits[k], pri, r);
  }

  lemma {:induction false} AgesFrom(run: Run, pri: seq<nat>, calls: nat, p: nat, from: nat, k: nat)
    requires IsRun(run, pri, calls) && from <= k <= calls && p < |pri| && Positive(pri) && NoWraps(pri)
    requires forall j | 0 <= j < |pri| :: run.waits[0][j] == 0
    requires forall j | from <= j < k :: |run.ready[j]| == |pri| && run.ready[j][p] && run.chosen[j] != p
    ensures run.waits[k][p] == run.waits[from][p] + (k - from)
  {
    if from < k {
      AgesFrom(run, pri, calls, p, from, k - 1);
      RunSpread(run, pri, calls, k - 1);
      assert IsRunCall(run, pri, k - 1);
      AgedExactly(run.waits[k-1], pri, run.ready[k-1], p);
    }
  }

  /**
   So from a fresh table fairness needs no assumption on the counters: a process of priority q > 0
   that can run at q*n consecutive calls, after any history, is chosen by one of them. Of the
   others only those that ever can run need a positive priority.
   */
  lemma FreshTableFair(run: Run, pri: seq<nat>, calls: nat, k: nat, p: nat)
    requires IsRun(run, pri, calls) && p < |pri| && pri[p] > 0 && PositiveIn(run, pri) && NoWraps(Lifted(pri))
    requires k + |pri| * pri[p] <= calls
    requires forall j | 0 <= j < |pri| :: run.waits[0][j] == 0
    requires forall j | k <= j < k + |pri| * pri[p] :: |run.ready[j]| == |pri| && run.ready[j][p]
    ensures p in run.chosen[k..k + |pri| * pri[p]]
  {
    var n := |pri| * pri[p];
    if p !in run.chosen[k..k+n] {
      forall j | k <= j < k + n ensures run.chosen[j] != p { assert run.chosen[k..k+n][j-k] == run.chosen[j]; }
      LiftedRun(run, pri, calls);
      AgesFrom(run, Lifted(pri), calls, p, k, k + n);
      WaitingBounded(run, pri, calls, k + n);
    }
  }

  /**
   A call has somebody to choose if and only if some process can run whose counter does not wrap
   at this call; otherwise no `mark` is ever set.
   */
  lemma CallChoosesIff(w: Waits, pri: seq<nat>, r: Flags)
    requires |w| == |pri| == |r| && RunnersPositive(pri, r)
    ensures (exists c: nat, w' :: IsCall(w, pri, r, c, w')) <==> HasLevel(w, r)
  {
    if HasLevel(w, r) {
      PickExists(w, pri, r);
      var c: nat :| IsPick(Aged(w, r), pri, r, c);
      assert IsCall(w, pri, r, c, Aged(w, r)[c := 0]);
    }
    forall c: nat, w' | IsCall(w, pri, r, c, w') ensures HasLevel(w, r) {
      LevelAfterAgeing(w, r, c);
    }
  }

  /** So a lone process whose counter has come to 2^32-1 is not chosen at its next call. */
  lemma WrappedCounterChoosesNobody(c: nat, w': Waits)
    ensures !IsCall([WORD - 1], [1], [true], c, w')
  {
    CallChoosesIff([WORD - 1], [1], [true]);
    assert !HasLevel([WORD - 1], [true]);
  }
}
