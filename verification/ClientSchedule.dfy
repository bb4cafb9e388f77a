/**
 How long a reply takes: the clients of message passing under the round-robin scheduler. Between
 two scheduler calls the process chosen, if it is a client, takes at least one step; interrupts
 and further steps may fall anywhere.
 */
module ClientSchedule {
  import opened ProcTable
  import opened Messages
  import opened Clients
  import L = LineSchedule

  /** The process that takes an action, -1 for an interrupt and the scheduler itself. */
  function ActorOf(c: Pids, a: Action): int {
    match a
    case TtyAsk(_, _) => c.tty
    case TtyAwait(_, _) => c.tty
    case TtyDone => c.tty
    case FsFetch(_, _) => c.fs
    case FsTake => c.fs
    case FsCall(_) => c.fs
    case FsCollect(_, _) => c.fs
    case FsReply(_) => c.fs
    case HdFetch(_, _) => c.hd
    case HdTake => c.hd
    case HdWait => c.hd
    case HdReply(_) => c.hd
    case Interrupt => -1
    case Reschedule => -1
  }

  predicate IsClient(c: Pids, p: int) {
    p == c.tty || p == c.fs || p == c.hd
  }

  /**
   The scheduler calls in a run, on a table of `n` slots: call number `k` comes at place `at[k]` of
   the run and finds `tables[k]`; `ptr` is `proc_ptr` before the first.
   */
  datatype Calls = Calls(at: seq<nat>, tables: seq<Table>, n: nat, ptr: nat)

  /** The clients' slots are taken. */
  ghost predicate InUse(c: Pids, t: Table, n: nat) {
    |t| == n && c.tty < n && c.fs < n && c.hd < n && t[c.tty].takeUp && t[c.fs].takeUp && t[c.hd].takeUp
  }

  ghost predicate AtPlaces(ws: seq<World>, q: Calls) {
    && |q.tables| == |q.at|
    && (forall k | 0 <= k < |q.at| :: q.at[k] < |ws| && q.tables[k] == ws[q.at[k]].s.t)
    && (forall k, l | 0 <= k <= l < |q.at| :: q.at[k] <= q.at[l])
  }

  ghost predicate ActsIn(c: Pids, acts: seq<Action>, from: nat, to: nat, p: int) {
    exists j | from <= j < to <= |acts| :: ActorOf(c, acts[j]) == p
  }

  /** The process chosen by call number `k`, if it is a client, steps before the next call. */
  ghost predicate ChosenActs(c: Pids, acts: seq<Action>, q: Calls, k: nat)
    requires q.ptr < q.n && L.IsRun(q.tables, q.n) && |q.tables| == |q.at| && k + 1 < |q.at|
  {
    var p := L.ChosenAt(q.tables, q.n, q.ptr, k);
    IsClient(c, p) ==> ActsIn(c, acts, q.at[k], q.at[k+1], p)
  }

  ghost predicate IsScheduled(c: Pids, ws: seq<World>, acts: seq<Action>, q: Calls) {
    && IsWorldRun(c, ws, acts) && InUse(c, ws[0].s.t, q.n) && AtPlaces(ws, q)
    && q.ptr < q.n && L.IsRun(q.tables, q.n)
    && (forall k: nat | k + 1 < |q.at| :: ChosenActs(c, acts, q, k))
  }

  lemma ActorIsClient(c: Pids, a: Action)
    ensures IsClientStep(a) <==> ActorOf(c, a) >= 0
  {
  }

  ghost predicate RunsNow(c: Pids, w: World, p: nat) {
    IsClient(c, p) && p < |w.s.role| && w.s.role[p] == Running
  }

  /** Interrupts and scheduling block nobody. */
  lemma IdleStepKeepsRunning(c: Pids, w: World, a: Action, w': World, p: nat)
    requires Inv(c, w) && WorldStep(c, w, a, w') && !IsClientStep(a) && RunsNow(c, w, p)
    ensures Inv(c, w') && RunsNow(c, w', p)
  {
    hide Valid, ViewInv, Step, Legal;
    WorldStepKeepsInv(c, w, a, w');
  }

  lemma {:induction false} StaysRunning(c: Pids, ws: seq<World>, acts: seq<Action>, from: nat, to: nat, p: nat)
    requires IsWorldRun(c, ws, acts) && from <= to <= |acts|
    requires ClientSteps(acts, from, to) == 0
    requires Inv(c, ws[from]) && RunsNow(c, ws[from], p)
    ensures Inv(c, ws[to]) && RunsNow(c, ws[to], p)
  {
    hide Inv, WorldStep, Start, RunsNow;
    if from < to {
      StaysRunning(c, ws, acts, from, to - 1, p);
      assert WorldStep(c, ws[to-1], acts[to-1], ws[to]);
      IdleStepKeepsRunning(c, ws[to-1], acts[to-1], ws[to], p);
    }
  }

  lemma {:induction false} StepsSplit(acts: seq<Action>, a: nat, b: nat, d: nat)
    requires a <= b <= d <= |acts|
    ensures ClientSteps(acts, a, d) == ClientSteps(acts, a, b) + ClientSteps(acts, b, d)
  {
    if b < d { StepsSplit(acts, a, b, d - 1); }
  }

  lemma {:induction false} StepIsCounted(acts: seq<Action>, a: nat, b: nat, j: nat)
    requires a <= j < b <= |acts| && IsClientStep(acts[j])
    ensures ClientSteps(acts, a, b) >= 1
  {
    if j < b - 1 { StepIsCounted(acts, a, b - 1, j); }
  }

  lemma RunnableWhenRunning(c: Pids, w: World, p: nat, n: nat)
    requires Inv(c, w) && RunsNow(c, w, p) && InUse(c, w.s.t, n)
    ensures p < n == |w.s.t| && Runnable(w.s.t[p])
  {
    assert RoleHolds(w.s, p);
  }

  /** No step of the clients, no interrupt and no scheduling takes or frees a slot. */
  lemma {:induction false} RunKeepsTaken(c: Pids, ws: seq<World>, acts: seq<Action>, k: nat, i: nat)
    requires IsWorldRun(c, ws, acts) && k <= |acts| && i < |ws[0].s.t|
    ensures |ws[k].s.t| == |ws[0].s.t| && ws[k].s.t[i].takeUp == ws[0].s.t[i].takeUp
  {
    hide WorldStep, Start, Legal, Step, CallOf;
    if k > 0 {
      RunKeepsTaken(c, ws, acts, k - 1, i);
      NoMisfireInAnyRun(c, ws, acts, k - 1);
      var e := CallOf(c, ws[k-1].l, acts[k-1]);
      if e.Some? {
        StepFrame(ws[k-1].s, e.value, ws[k].s, i);
      } else {
        assert WorldStep(c, ws[k-1], acts[k-1], ws[k]);
        NoCallNoChange(c, ws[k-1], acts[k-1], ws[k]);
      }
    }
  }

  lemma NoCallNoChange(c: Pids, w: World, a: Action, w': World)
    requires WorldStep(c, w, a, w') && CallOf(c, w.l, a) == None
    ensures w'.s == w.s
  {
  }

  /** So the clients' slots stay theirs. */
  lemma StaysInUse(c: Pids, ws: seq<World>, acts: seq<Action>, k: nat, n: nat)
    requires IsWorldRun(c, ws, acts) && k <= |acts| && InUse(c, ws[0].s.t, n)
    ensures InUse(c, ws[k].s.t, n)
  {
    hide IsWorldRun;
    RunKeepsTaken(c, ws, acts, k, c.tty);
    RunKeepsTaken(c, ws, acts, k, c.fs);
    RunKeepsTaken(c, ws, acts, k, c.hd);
  }

  lemma Between(c: Pids, ws: seq<World>, acts: seq<Action>, q: Calls, k: nat, l: nat)
    requires IsWorldRun(c, ws, acts) && AtPlaces(ws, q) && k <= l < |q.at|
    ensures q.at[k] <= q.at[l] <= |acts| && |ws| == |acts| + 1 && |q.tables| == |q.at|
    ensures q.tables[l] == ws[q.at[l]].s.t
  {
    hide WorldStep, Start;
  }

  /** A client that runs at one call runs at a later one, unless a client has stepped in between. */
  lemma StillRunnable(c: Pids, ws: seq<World>, acts: seq<Action>, q: Calls, k: nat, l: nat, p: nat)
    requires IsWorldRun(c, ws, acts) && AtPlaces(ws, q) && k <= l < |q.at| && q.at[k] <= q.at[l] <= |acts|
    requires InUse(c, ws[0].s.t, q.n) && ClientSteps(acts, q.at[k], q.at[l]) == 0
    requires Inv(c, ws[q.at[k]]) && RunsNow(c, ws[q.at[k]], p)
    ensures |q.tables| == |q.at| && p < |q.tables[l]| == q.n && Runnable(q.tables[l][p])
  {
    hide Inv, RunsNow, WorldStep, Start, AtPlaces, ClientSteps, Runnable, InUse;
    Between(c, ws, acts, q, k, l);
    StaysRunning(c, ws, acts, q.at[k], q.at[l], p);
    StaysInUse(c, ws, acts, q.at[l], q.n);
    RunnableWhenRunning(c, ws[q.at[l]], p, q.n);
  }

  lemma ChosenSteps(c: Pids, acts: seq<Action>, q: Calls, l: nat)
    requires q.ptr < q.n && L.IsRun(q.tables, q.n) && |q.tables| == |q.at| && l + 1 < |q.at|
    requires ChosenActs(c, acts, q, l) && IsClient(c, L.ChosenAt(q.tables, q.n, q.ptr, l))
    requires q.at[l] <= q.at[l+1] <= |acts|
    ensures ClientSteps(acts, q.at[l], q.at[l+1]) >= 1
  {
    hide L.IsRun, L.ChosenAt, ClientSteps, ActorOf;
    var p := L.ChosenAt(q.tables, q.n, q.ptr, l);
    var j :| q.at[l] <= j < q.at[l+1] && ActorOf(c, acts[j]) == p;
    ActorIsClient(c, acts[j]);
    StepIsCounted(acts, q.at[l], q.at[l+1], j);
  }

  /** `n` scheduler calls that begin with a client running contain a client's step. */
  lemma RoundHasStep(c: Pids, ws: seq<World>, acts: seq<Action>, q: Calls, k: nat, p: nat)
    requires IsScheduled(c, ws, acts, q) && k + q.n < |q.at|
    requires q.at[k] < |ws| && Inv(c, ws[q.at[k]]) && RunsNow(c, ws[q.at[k]], p)
    ensures q.at[k] <= q.at[k + q.n] <= |acts| && ClientSteps(acts, q.at[k], q.at[k + q.n]) >= 1
  {
    hide Inv, RunsNow, IsWorldRun, AtPlaces, ClientSteps, L.IsRun, L.ChosenAt, Runnable, ChosenActs;
    Between(c, ws, acts, q, k, k + q.n);
    if ClientSteps(acts, q.at[k], q.at[k + q.n]) == 0 {
      forall l | k <= l < k + q.n ensures p < |q.tables[l]| == q.n && Runnable(q.tables[l][p]) {
        NoneBefore(c, ws, acts, q, k, l);
        StillRunnable(c, ws, acts, q, k, l, p);
      }
      assert p < |q.tables[k]| == q.n;
      L.RoundRobinFair(q.tables, q.n, q.ptr, p, k);
      var l :| k <= l < k + q.n && L.ChosenAt(q.tables, q.n, q.ptr, l) == p;
      NoneBefore(c, ws, acts, q, k, l + 1);
      RunnerIsClient(c, ws[q.at[k]], p);
      NotChosen(c, ws, acts, q, k, l);
    }
  }

  lemma RunnerIsClient(c: Pids, w: World, p: nat)
    requires RunsNow(c, w, p)
    ensures IsClient(c, p)
  {
  }

  lemma NoneBefore(c: Pids, ws: seq<World>, acts: seq<Action>, q: Calls, k: nat, l: nat)
    requires IsWorldRun(c, ws, acts) && AtPlaces(ws, q) && k <= l <= k + q.n < |q.at|
    requires q.at[k] <= q.at[k + q.n] <= |acts| && ClientSteps(acts, q.at[k], q.at[k + q.n]) == 0
    ensures q.at[k] <= q.at[l] <= |acts| && ClientSteps(acts, q.at[k], q.at[l]) == 0
  {
    hide IsWorldRun, AtPlaces, ClientSteps;
    Between(c, ws, acts, q, k, l);
    Between(c, ws, acts, q, l, k + q.n);
    StepsSplit(acts, q.at[k], q.at[l], q.at[k + q.n]);
  }

  /** A client chosen without stepping would go against `IsScheduled`. */
  lemma NotChosen(c: Pids, ws: seq<World>, acts: seq<Action>, q: Calls, k: nat, l: nat)
    requires IsScheduled(c, ws, acts, q) && k <= l && l + 1 < |q.at|
    requires q.at[k] <= q.at[l+1] <= |acts| && ClientSteps(acts, q.at[k], q.at[l+1]) == 0
    ensures !IsClient(c, L.ChosenAt(q.tables, q.n, q.ptr, l))
  {
    hide IsWorldRun, AtPlaces, ClientSteps, L.IsRun, L.ChosenAt, ChosenActs, IsClient;
    Between(c, ws, acts, q, k, l);
    Between(c, ws, acts, q, l, l + 1);
    StepsSplit(acts, q.at[k], q.at[l], q.at[l+1]);
    if IsClient(c, L.ChosenAt(q.tables, q.n, q.ptr, l)) { ChosenSteps(c, acts, q, l); }
  }

  /** Not everything waits for the disk interrupt. */
  ghost predicate Awake(c: Pids, w: World) {
    c.hd < |w.s.role| && w.s.role[c.hd] != WaitingInt
  }

  /** Then one of the clients runs. */
  lemma SomebodyRuns(c: Pids, w: World) returns (p: nat)
    requires Inv(c, w) && Awake(c, w)
    ensures RunsNow(c, w, p)
  {
    var v := ViewOf(c, w);
    var a := Due(v);
    p := if v.rt == Running then c.tty else if v.rf == Running then c.fs else c.hd;
  }

  /** Of the rounds of `n` calls that fit between call `k` and call `to`, how many begin awake. */
  ghost function AwakeRounds(c: Pids, ws: seq<World>, q: Calls, k: nat, to: nat): nat
    requires q.n > 0 && k <= to < |q.at| && AtPlaces(ws, q)
    decreases |q.at| - k
  {
    if to < k + q.n then 0
    else AwakeRounds(c, ws, q, k + q.n, to) + if Awake(c, ws[q.at[k]]) then 1 else 0
  }

  /** Each of them contributes a client's step. */
  lemma {:induction false} AwakeRoundsStep(c: Pids, ws: seq<World>, acts: seq<Action>, q: Calls, k: nat, to: nat)
    requires IsScheduled(c, ws, acts, q) && k <= to < |q.at|
    ensures q.at[k] <= q.at[to] <= |acts|
    ensures AwakeRounds(c, ws, q, k, to) <= ClientSteps(acts, q.at[k], q.at[to])
    decreases |q.at| - k
  {
    hide Inv, RunsNow, IsWorldRun, ClientSteps, L.IsRun, ChosenActs, Awake, InUse;
    Between(c, ws, acts, q, k, to);
    if k + q.n <= to {
      AwakeRoundsStep(c, ws, acts, q, k + q.n, to);
      Between(c, ws, acts, q, k, k + q.n);
      StepsSplit(acts, q.at[k], q.at[k + q.n], q.at[to]);
      if Awake(c, ws[q.at[k]]) { AwakeRoundSteps(c, ws, acts, q, k); }
    }
  }

  lemma AwakeRoundSteps(c: Pids, ws: seq<World>, acts: seq<Action>, q: Calls, k: nat)
    requires IsScheduled(c, ws, acts, q) && k + q.n < |q.at| && q.at[k] < |ws| && Awake(c, ws[q.at[k]])
    ensures q.at[k] <= q.at[k + q.n] <= |acts| && ClientSteps(acts, q.at[k], q.at[k + q.n]) >= 1
  {
    hide Inv, RunsNow, IsWorldRun, AtPlaces, ClientSteps, L.IsRun, ChosenActs, Awake;
    Between(c, ws, acts, q, k, k);
    RunKeepsInv(c, ws, acts, q.at[k]);
    var p := SomebodyRuns(c, ws[q.at[k]]);
    RoundHasStep(c, ws, acts, q, k, p);
  }

  /**
   A reply takes at most `Rank` rounds of `n` scheduler calls, not counting rounds that begin with
   everything waiting for the disk interrupt, whatever the other processes and the interrupts do.
   */
  lemma AnsweredWithinRounds(c: Pids, ws: seq<World>, acts: seq<Action>, q: Calls, k: nat, to: nat)
    requires IsScheduled(c, ws, acts, q) && k <= to < |q.at| && ws[q.at[k]].l.tty != Idle
    ensures Inv(c, ws[q.at[k]])
    ensures AwakeRounds(c, ws, q, k, to) >= Rank(ViewOf(c, ws[q.at[k]])) ==>
              exists j | q.at[k] < j <= q.at[to] < |ws| :: ws[j].l.done > ws[q.at[k]].l.done
  {
    hide Inv, Rank, IsWorldRun, ClientSteps, L.IsRun, ChosenActs, InUse, AwakeRounds;
    Between(c, ws, acts, q, k, to);
    AwakeRoundsStep(c, ws, acts, q, k, to);
    RequestIsAnswered(c, ws, acts, q.at[k], q.at[to]);
  }

  /** Right after a request that needs `work` disk calls, `Rank` is at most 8 + 6 * work. */
  lemma RankOfRequest(c: Pids, w: World, m: Msg, work: nat, w': World)
    requires Inv(c, w) && WorldStep(c, w, TtyAsk(m, work), w')
    ensures Inv(c, w') && w'.l.tty != Idle && Rank(ViewOf(c, w')) <= 8 + 6 * work
  {
    hide Valid, Step, Legal;
    WorldStepKeepsInv(c, w, TtyAsk(m, work), w');
  }
}
