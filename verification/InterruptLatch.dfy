/**
 The one-slot interrupt latch of msg/msg.c (`int_status`, `interrupt_id`), used by the disk
 driver to wait for its interrupt. Every run of the process table in which one process raises
 and waits for one interrupt id only is a run of the latch below.
 */
module InterruptLatch {
  import opened ProcTable
  import opened Messages

  datatype LatchEvent = RaiseIt | WaitIt | Other

  function Next(st: IntStatus, e: LatchEvent): IntStatus {
    match (st, e)
    case (_, Other) => st
    case (NoInt, RaiseIt) => HasInt
    case (HasInt, RaiseIt) => HasInt
    case (WaitInt, RaiseIt) => NoInt
    case (NoInt, WaitIt) => WaitInt
    case (HasInt, WaitIt) => NoInt
    case (WaitInt, WaitIt) => WaitInt
  }

  ghost predicate IsLatchRun(st: seq<IntStatus>, ev: seq<LatchEvent>) {
    && |st| == |ev| + 1
    && st[0] == NoInt
    && (forall k | 0 <= k < |ev| :: st[k+1] == Next(st[k], ev[k]))
    // a blocked process makes no call
    && (forall k | 0 <= k < |ev| :: ev[k] == WaitIt ==> st[k] != WaitInt)
  }

  /** Event `k` completes a wait: it finds an interrupt latched, or it wakes the waiting process. */
  predicate Completes(st: seq<IntStatus>, ev: seq<LatchEvent>, k: nat)
    requires k < |ev| && k < |st|
  {
    (ev[k] == WaitIt && st[k] == HasInt) || (ev[k] == RaiseIt && st[k] == WaitInt)
  }

  /** Raise `k` finds an interrupt already pending and merges with it. */
  predicate Merges(st: seq<IntStatus>, ev: seq<LatchEvent>, k: nat)
    requires k < |ev| && k < |st|
  {
    ev[k] == RaiseIt && st[k] == HasInt
  }

  /** The raise that is latched before event `n`. */
  function Latched(st: seq<IntStatus>, ev: seq<LatchEvent>, n: nat): Option<nat>
    requires |st| == |ev| + 1 && n <= |ev|
  {
    if n == 0 || st[n] != HasInt then None
    else if st[n-1] == HasInt then Latched(st, ev, n - 1)
    else Some(n - 1)
  }

  /** The raise that completing event `k` consumes. */
  function Source(st: seq<IntStatus>, ev: seq<LatchEvent>, k: nat): nat
    requires |st| == |ev| + 1 && k < |ev|
  {
    match Latched(st, ev, k)
    case Some(j) => j
    case None => k
  }

  lemma {:induction false} LatchedIsRaise(st: seq<IntStatus>, ev: seq<LatchEvent>, n: nat)
    requires IsLatchRun(st, ev) && n <= |ev|
    ensures Latched(st, ev, n).Some? <==> st[n] == HasInt
    ensures Latched(st, ev, n).Some? ==>
              var j := Latched(st, ev, n).value;
              && j < n && ev[j] == RaiseIt && st[j] == NoInt
              && (forall m | j < m <= n :: st[m] == HasInt)
  {
    if n > 0 {
      LatchedIsRaise(st, ev, n - 1);
      assert st[n] == Next(st[n-1], ev[n-1]);
    }
  }

  /**
   A wait completes only by consuming an interrupt raised after every earlier completion; so no
   interrupt completes two waits.
   */
  lemma ConsumesFreshRaise(st: seq<IntStatus>, ev: seq<LatchEvent>, k: nat)
    requires IsLatchRun(st, ev) && k < |ev| && Completes(st, ev, k)
    ensures Source(st, ev, k) <= k && ev[Source(st, ev, k)] == RaiseIt
    ensures forall j | 0 <= j < k && Completes(st, ev, j) ::
              Source(st, ev, j) <= j < Source(st, ev, k)
  {
    LatchedIsRaise(st, ev, k);
    forall j | 0 <= j < k && Completes(st, ev, j)
      ensures Source(st, ev, j) <= j < Source(st, ev, k)
    {
      LatchedIsRaise(st, ev, j);
      assert st[j+1] == NoInt;
    }
  }

  /** The first completion after `from`, or the end of the run. */
  function NextCompletion(st: seq<IntStatus>, ev: seq<LatchEvent>, from: nat): (k: nat)
    requires |st| == |ev| + 1 && from <= |ev|
    ensures from <= k <= |ev|
    ensures k < |ev| ==> Completes(st, ev, k)
    ensures forall j | from <= j < k :: !Completes(st, ev, j)
    decreases |ev| - from
  {
    if from == |ev| || Completes(st, ev, from) then from else NextCompletion(st, ev, from + 1)
  }

  /**
   No interrupt is lost: a raise merges with one already pending, or is consumed by the next
   completion (its own when it wakes a waiting process), or is still latched at the end.
   */
  lemma NoRaiseLost(st: seq<IntStatus>, ev: seq<LatchEvent>, j: nat)
    requires IsLatchRun(st, ev) && j < |ev| && ev[j] == RaiseIt && !Merges(st, ev, j)
    ensures var k := NextCompletion(st, ev, j);
            if k < |ev| then Source(st, ev, k) == j else Latched(st, ev, |ev|) == Some(j)
  {
    var k := NextCompletion(st, ev, j);
    if st[j] == WaitInt {
      assert Completes(st, ev, j);
      LatchedIsRaise(st, ev, j);
    } else {
      StaysLatched(st, ev, j, k);
    }
  }

  lemma {:induction false} StaysLatched(st: seq<IntStatus>, ev: seq<LatchEvent>, j: nat, n: nat)
    requires IsLatchRun(st, ev) && j < n <= |ev| && ev[j] == RaiseIt && st[j] == NoInt
    requires forall k | j <= k < n :: !Completes(st, ev, k)
    ensures Latched(st, ev, n) == Some(j)
  {
    assert st[n] == Next(st[n-1], ev[n-1]) && !Completes(st, ev, n - 1);
    if n > j + 1 {
      StaysLatched(st, ev, j, n - 1);
      LatchedIsRaise(st, ev, n - 1);
    }
  }

  // ---------------------------------------------------------------------- counting

  function Count(ev: seq<LatchEvent>, e: LatchEvent): nat {
    if ev == [] then 0 else Count(ev[..|ev|-1], e) + if ev[|ev|-1] == e then 1 else 0
  }

  function Completions(st: seq<IntStatus>, ev: seq<LatchEvent>, n: nat): nat
    requires |st| == |ev| + 1 && n <= |ev|
  {
    if n == 0 then 0 else Completions(st, ev, n - 1) + if Completes(st, ev, n - 1) then 1 else 0
  }

  function MergeCount(st: seq<IntStatus>, ev: seq<LatchEvent>, n: nat): nat
    requires |st| == |ev| + 1 && n <= |ev|
  {
    if n == 0 then 0 else MergeCount(st, ev, n - 1) + if Merges(st, ev, n - 1) then 1 else 0
  }

  /** Interrupts raised are those consumed, merged or pending; waits are those completed or blocked. */
  lemma {:induction false} LatchConserves(st: seq<IntStatus>, ev: seq<LatchEvent>, n: nat)
    requires IsLatchRun(st, ev) && n <= |ev|
    ensures Count(ev[..n], RaiseIt) ==
            Completions(st, ev, n) + MergeCount(st, ev, n) + (if st[n] == HasInt then 1 else 0)
    ensures Count(ev[..n], WaitIt) == Completions(st, ev, n) + (if st[n] == WaitInt then 1 else 0)
  {
    if n > 0 {
      LatchConserves(st, ev, n - 1);
      assert ev[..n][..n-1] == ev[..n-1];
      assert st[n] == Next(st[n-1], ev[n-1]);
      assert ev[n-1] == WaitIt ==> st[n-1] != WaitInt;
    }
  }

  // -------------------------------------------------------------- from the process table

  /** Process `p` raises and waits for interrupt `id` only. */
  ghost predicate OneId(events: seq<Event>, p: nat, id: int) {
    forall k | 0 <= k < |events| ::
      && (events[k].Raise? && events[k].p == p ==> events[k].id == id)
      && (events[k].Wait? && events[k].p == p ==> events[k].id == id)
  }

  function LatchEventOf(e: Event, p: nat): LatchEvent {
    match e
    case Raise(x, _) => if x == p then RaiseIt else Other
    case Wait(x, _) => if x == p then WaitIt else Other
    case Send(_, _, _) => Other
    case Receive(_, _, _, _) => Other
    case Schedule => Other
  }

  ghost predicate ArmedFor(x: Proc, id: int) {
    x.intStatus != NoInt ==> x.interruptId == id
  }

  lemma StepMovesLatch(s: Ipc, e: Event, s': Ipc, p: nat, id: int)
    requires Valid(s) && Step(s, e, s') && p < |s.t| && ArmedFor(s.t[p], id)
    requires (e.Raise? || e.Wait?) && e.p == p ==> e.id == id
    ensures |s'.t| == |s.t|
    ensures s'.t[p].intStatus == Next(s.t[p].intStatus, LatchEventOf(e, p))
    ensures ArmedFor(s'.t[p], id)
    ensures LatchEventOf(e, p) == WaitIt ==> s.t[p].intStatus != WaitInt
  {
    hide Linked, Step;
    assert RoleHolds(s, p);
    if e.Raise? || e.Wait? {
      LatchMoved(s, e, s', p);
      WaiterIsRunning(s, e, s');
    } else {
      LatchUntouched(s, e, s', p);
    }
  }

  lemma WaiterIsRunning(s: Ipc, e: Event, s': Ipc)
    requires Step(s, e, s')
    ensures e.Wait? ==> e.p < |s.t| == |s.role| && s.role[e.p] == Running
  {
  }

  ghost function StatusAt(states: seq<Ipc>, events: seq<Event>, p: nat, k: nat): IntStatus
    requires IsRun(states, events) && p < |states[0].t| && k <= |events|
  {
    RunStaysValid(states, events, k);
    states[k].t[p].intStatus
  }

  /** Any run of the table in which `p` uses one interrupt id drives `p`'s latch as above. */
  lemma RunIsLatchRun(states: seq<Ipc>, events: seq<Event>, p: nat, id: int)
    returns (st: seq<IntStatus>, ev: seq<LatchEvent>)
    requires IsRun(states, events) && p < |states[0].t| && OneId(events, p, id)
    requires states[0].t[p].intStatus == NoInt
    ensures IsLatchRun(st, ev) && |ev| == |events|
    ensures forall k | 0 <= k <= |events| :: st[k] == StatusAt(states, events, p, k)
    ensures forall k | 0 <= k < |events| :: ev[k] == LatchEventOf(events[k], p)
  {
    st := seq(|events| + 1, k requires 0 <= k <= |events| => StatusAt(states, events, p, k));
    ev := seq(|events|, k requires 0 <= k < |events| => LatchEventOf(events[k], p));
    forall k | 0 <= k < |events|
      ensures st[k+1] == Next(st[k], ev[k]) && (ev[k] == WaitIt ==> st[k] != WaitInt)
    {
      StaysArmed(states, events, p, id, k);
      RunStaysValid(states, events, k);
      assert Step(states[k], events[k], states[k+1]);
      StepMovesLatch(states[k], events[k], states[k+1], p, id);
    }
  }

  lemma ArmedStep(states: seq<Ipc>, events: seq<Event>, p: nat, id: int, k: nat)
    requires IsRun(states, events) && p < |states[0].t| && OneId(events, p, id)
    requires k < |events| && |states[k].t| == |states[0].t| && ArmedFor(states[k].t[p], id)
    ensures |states[k+1].t| == |states[0].t| && ArmedFor(states[k+1].t[p], id)
  {
    RunStaysValid(states, events, k);
    StepMovesLatch(states[k], events[k], states[k+1], p, id);
  }

  lemma {:induction false} StaysArmed(states: seq<Ipc>, events: seq<Event>, p: nat, id: int, k: nat)
    requires IsRun(states, events) && p < |states[0].t| && OneId(events, p, id)
    requires states[0].t[p].intStatus == NoInt && k <= |events|
    ensures |states[k].t| == |states[0].t| && ArmedFor(states[k].t[p], id)
  {
    if k > 0 {
      StaysArmed(states, events, p, id, k - 1);
      ArmedStep(states, events, p, id, k - 1);
    }
  }

  /**
   Why one id: a wait of a running process neither consumes an interrupt nor blocks exactly when
   an interrupt with another id is pending.
   */
  lemma WaitFallsThroughIff(x: Proc, id: int)
    requires x.intStatus != WaitInt && !x.msgBlock
    ensures Waited(x, id) == x <==> x.intStatus == HasInt && x.interruptId != id
  {
  }
}
