/**
 Synchronous message passing (msg/msg.c) as steps over the process table. A sender either
 copies its message into a waiting receiver or blocks at the end of the receiver's list; a
 receiver either takes the first sender of its list that it wants or blocks.
 */
module Messages {
  import opened ProcTable
  import opened Sequences

  datatype Option<+T> = None | Some(value: T)

  /** Why a process is blocked; the table itself only records that it is. */
  datatype Role = Running | SendingTo(to: nat) | ReceivingFrom(wanted: int) | WaitingInt

  // --------------------------------------------------------------- linked lists of senders

  function HeadOf(s: seq<nat>): int {
    if s == [] then NULL else s[0]
  }

  function NextOf(s: seq<nat>, k: nat): int
    requires k < |s|
  {
    if k + 1 < |s| then s[k+1] else NULL
  }

  ghost predicate NoDuplicates(s: seq<nat>) {
    forall i, j | 0 <= i < j < |s| :: s[i] != s[j]
  }

  /** The list that starts at `t[r].msgHead` is `s`. */
  ghost predicate IsList(t: Table, r: nat, s: seq<nat>)
    requires r < |t|
  {
    && (forall k | 0 <= k < |s| :: s[k] < |t|)
    && t[r].msgHead == HeadOf(s)
    && (forall k | 0 <= k < |s| :: t[s[k]].msgNext == NextOf(s, k))
  }

  /** `q` names the list of every receiver; the lists are duplicate-free and disjoint. */
  ghost predicate Linked(t: Table, q: Queues) {
    && |q| == |t|
    && (forall r | 0 <= r < |t| :: IsList(t, r, q[r]) && NoDuplicates(q[r]))
    && (forall r1, r2, p | 0 <= r1 < r2 < |t| :: !(p in q[r1] && p in q[r2]))
  }

  ghost predicate Queued(q: Queues, p: nat) {
    exists r | 0 <= r < |q| :: p in q[r]
  }

  /** A slot without its list pointers. */
  function Bare(p: Proc): Proc {
    p.(msgHead := NULL, msgNext := NULL)
  }

  /** The index of the first sender of `s` that is wanted, or |s|. */
  function MatchAt(s: seq<nat>, wanted: int): (k: nat)
    ensures k <= |s|
    ensures k < |s| ==> Matches(wanted, s[k])
    ensures forall j | 0 <= j < k :: !Matches(wanted, s[j])
  {
    MatchFrom(s, wanted, 0)
  }

  function MatchFrom(s: seq<nat>, wanted: int, from: nat): (k: nat)
    requires from <= |s|
    ensures from <= k <= |s|
    ensures k < |s| ==> Matches(wanted, s[k])
    ensures forall j | from <= j < k :: !Matches(wanted, s[j])
    decreases |s| - from
  {
    if from == |s| || Matches(wanted, s[from]) then from else MatchFrom(s, wanted, from + 1)
  }

  // ---------------------------------------------------------------------- the four calls

  /** The test of `msg_send`: the target is blocked, not on an interrupt, and would take the message. */
  predicate Accepts(t: Table, from: nat, to: nat)
    requires to < |t|
  {
    t[to].intStatus != WaitInt && t[to].msgBlock && Matches(t[to].recvFrom, from)
  }

  /** Only slot `p` changes, and its list pointers aside it becomes `now`. */
  ghost predicate OnlyChanges(t: Table, t': Table, p: nat, now: Proc) {
    && |t'| == |t|
    && (forall i | 0 <= i < |t| :: Bare(t'[i]) == if i == p then Bare(now) else Bare(t[i]))
  }

  /** What `msg_send` does. */
  ghost predicate Sends(t: Table, q: Queues, from: nat, to: nat, m: Msg, t': Table, q': Queues)
    requires from < |t| == |q| && to < |t|
  {
    if Accepts(t, from, to) then
      && OnlyChanges(t, t', to, t[to].(msg := m, msgBlock := false))
      && q' == q
    else
      && OnlyChanges(t, t', from, t[from].(msg := m, msgBlock := true, sendTo := to))
      && q' == q[to := q[to] + [from]]
  }

  /** What `msg_receive` does; `got` is the message copied to the caller, if any. */
  ghost predicate Receives(t: Table, q: Queues, to: nat, wanted: int, buffer: Msg,
                           t': Table, q': Queues, got: Option<Msg>)
    requires Linked(t, q) && to < |t|
  {
    var k := MatchAt(q[to], wanted);
    if k < |q[to]| then
      var sender := q[to][k];
      && OnlyChanges(t, t', sender, t[sender].(msgBlock := false))
      && q' == q[to := Without(q[to], k)]
      && got == Some(t[sender].msg)
    else
      && OnlyChanges(t, t', to, t[to].(msg := buffer, msgBlock := true, recvFrom := wanted))
      && q' == q
      && got == None
  }

  /** The slot of `p` after `msg_send_interrupt`. */
  function Raised(p: Proc, id: int): Proc {
    match p.intStatus
    case NoInt => p.(intStatus := HasInt, interruptId := id)
    case HasInt => p
    case WaitInt => if id == p.interruptId then p.(intStatus := NoInt, msgBlock := false) else p
  }

  /** The slot of `p` after `msg_recv_interrupt`. */
  function Waited(p: Proc, id: int): Proc {
    match p.intStatus
    case NoInt => p.(intStatus := WaitInt, interruptId := id, msgBlock := true)
    case HasInt => if id == p.interruptId then p.(intStatus := NoInt) else p
    case WaitInt => p
  }

  // ------------------------------------------------------------------------ the invariant

  datatype Ipc = Ipc(t: Table, q: Queues, role: seq<Role>)

  ghost predicate RoleHolds(s: Ipc, p: nat)
    requires p < |s.t| == |s.role|
  {
    && (s.t[p].msgBlock <==> s.role[p] != Running)
    && (s.role[p].SendingTo? ==> s.role[p].to < |s.t| && s.t[p].sendTo == s.role[p].to)
    && (s.role[p].ReceivingFrom? ==> s.t[p].recvFrom == s.role[p].wanted)
    && (s.t[p].intStatus == WaitInt <==> s.role[p] == WaitingInt)
  }

  /** No sender waits on the list of a process that is blocked waiting for just that sender. */
  ghost predicate NoMissedRendezvous(s: Ipc) {
    forall r, k | 0 <= r < |s.q| && r < |s.role| && s.role[r].ReceivingFrom? && 0 <= k < |s.q[r]| ::
      !Matches(s.role[r].wanted, s.q[r][k])
  }

  ghost predicate Valid(s: Ipc) {
    && Linked(s.t, s.q)
    && |s.role| == |s.t|
    && (forall p | 0 <= p < |s.t| :: RoleHolds(s, p))
    // a process is on a list exactly when it is blocked sending to that list's owner
    && (forall r, p: nat | 0 <= r < |s.t| && p < |s.t| :: p in s.q[r] <==> s.role[p] == SendingTo(r))
    && NoMissedRendezvous(s)
  }

  /**
   The hole in the test of `msg_send`: the target is blocked as a sender, and the value of
   `recv_from` left by its last receive happens to admit the caller.
   */
  ghost predicate Misfires(s: Ipc, from: nat, to: nat)
    requires |s.role| == |s.t| && to < |s.t|
  {
    s.role[to].SendingTo? && Matches(s.t[to].recvFrom, from)
  }

  // ------------------------------------------------------------------------------- steps

  datatype Event =
    | Send(from: nat, to: nat, m: Msg)
    | Receive(to: nat, wanted: int, buffer: Msg, got: Option<Msg>)
    | Raise(p: nat, id: int)
    | Wait(p: nat, id: int)
    | Schedule

  /** The part of a slot that scheduling does not touch. */
  function MessagePart(p: Proc): Proc {
    p.(status := ProcRunning, waiting := 0)
  }

  ghost predicate SameMessageParts(t: Table, t': Table) {
    |t'| == |t| && forall i | 0 <= i < |t| :: MessagePart(t'[i]) == MessagePart(t[i])
  }

  /** What a caller owes: it is running, and a send does not hit the hole. */
  ghost predicate Legal(s: Ipc, e: Event)
    requires |s.role| == |s.t|
  {
    match e
    case Send(from, to, _) => from < |s.t| && to < |s.t| && s.role[from] == Running && !Misfires(s, from, to)
    case Receive(to, _, _, _) => to < |s.t| && s.role[to] == Running
    case Raise(p, _) => p < |s.t|
    case Wait(p, _) => p < |s.t| && s.role[p] == Running
    case Schedule => true
  }

  /** The roles after a call, given the state before it. */
  ghost function RolesAfter(s: Ipc, e: Event): (role: seq<Role>)
    requires Linked(s.t, s.q) && |s.role| == |s.t| && Legal(s, e)
    ensures |role| == |s.role|
  {
    match e
    case Send(from, to, _) =>
      if Accepts(s.t, from, to) then s.role[to := Running] else s.role[from := SendingTo(to)]
    case Receive(to, wanted, _, _) =>
      var k := MatchAt(s.q[to], wanted);
      if k < |s.q[to]| then s.role[s.q[to][k] := Running] else s.role[to := ReceivingFrom(wanted)]
    case Raise(p, id) =>
      if s.t[p].intStatus == WaitInt && id == s.t[p].interruptId then s.role[p := Running] else s.role
    case Wait(p, id) =>
      if s.t[p].intStatus == NoInt then s.role[p := WaitingInt] else s.role
    case Schedule => s.role
  }

  ghost predicate Step(s: Ipc, e: Event, s': Ipc) {
    && Linked(s.t, s.q) && |s.role| == |s.t| && Legal(s, e)
    && Linked(s'.t, s'.q)
    && s'.role == RolesAfter(s, e)
    && match e
       case Send(from, to, m) => Sends(s.t, s.q, from, to, m, s'.t, s'.q)
       case Receive(to, wanted, buffer, got) => Receives(s.t, s.q, to, wanted, buffer, s'.t, s'.q, got)
       case Raise(p, id) => OnlyChanges(s.t, s'.t, p, Raised(s.t[p], id)) && s'.q == s.q
       case Wait(p, id) => OnlyChanges(s.t, s'.t, p, Waited(s.t[p], id)) && s'.q == s.q
       case Schedule => SameMessageParts(s.t, s'.t) && s'.q == s.q
  }

  /** Message calls and scheduling leave the interrupt latch of every slot alone. */
  lemma LatchUntouched(s: Ipc, e: Event, s': Ipc, p: nat)
    requires Step(s, e, s') && p < |s.t| && (e.Send? || e.Receive? || e.Schedule?)
    ensures |s'.t| == |s.t|
    ensures s'.t[p].intStatus == s.t[p].intStatus && s'.t[p].interruptId == s.t[p].interruptId
  {
    match e {
      case Send(from, to, m) =>
        assert Bare(s'.t[p]) == Bare(if Accepts(s.t, from, to)
                                     then if p == to then s.t[to].(msg := m, msgBlock := false) else s.t[p]
                                     else if p == from then s.t[from].(msg := m, msgBlock := true, sendTo := to)
                                     else s.t[p]);
      case Receive(to, wanted, buffer, got) => ReceiveLeavesLatch(s.t, s.q, to, wanted, buffer, s'.t, s'.q, got, p);
      case Schedule => assert MessagePart(s'.t[p]) == MessagePart(s.t[p]);
    }
  }

  lemma ReceiveLeavesLatch(t: Table, q: Queues, to: nat, wanted: int, buffer: Msg, t': Table, q': Queues,
                           got: Option<Msg>, p: nat)
    requires Linked(t, q) && to < |t| && Receives(t, q, to, wanted, buffer, t', q', got) && p < |t|
    ensures |t'| == |t| && t'[p].intStatus == t[p].intStatus && t'[p].interruptId == t[p].interruptId
  {
    var k := MatchAt(q[to], wanted);
    assert IsList(t, to, q[to]);
    assert Bare(t'[p]) == Bare(if k < |q[to]|
                               then if p == q[to][k] then t[p].(msgBlock := false) else t[p]
                               else if p == to then t[p].(msg := buffer, msgBlock := true, recvFrom := wanted)
                               else t[p]);
  }

  /** Interrupt calls change the latch of their own slot only. */
  lemma LatchMoved(s: Ipc, e: Event, s': Ipc, p: nat)
    requires Step(s, e, s') && p < |s.t| && (e.Raise? || e.Wait?)
    ensures |s'.t| == |s.t|
    ensures Bare(s'.t[p]) == Bare(if p != e.p then s.t[p]
                                  else if e.Raise? then Raised(s.t[p], e.id) else Waited(s.t[p], e.id))
  {
    hide Linked, Raised, Waited;
  }

  lemma WithoutMembers(s: seq<nat>, k: nat, p: nat)
    requires k < |s| && NoDuplicates(s)
    ensures p in Without(s, k) <==> p in s && p != s[k]
    ensures NoDuplicates(Without(s, k))
    ensures forall j | 0 <= j < |Without(s, k)| :: Without(s, k)[j] == s[if j < k then j else j + 1]
  {
    if p in s && p != s[k] {
      var j :| 0 <= j < |s| && s[j] == p;
      assert Without(s, k)[if j < k then j else j - 1] == p;
    }
  }

  lemma SendKeepsRole(s: Ipc, e: Event, s': Ipc, p: nat)
    requires Valid(s) && e.Send? && Step(s, e, s') && p < |s.t|
    ensures RoleHolds(s', p)
  {
    var from, to := e.from, e.to;
    assert RoleHolds(s, from) && RoleHolds(s, to) && RoleHolds(s, p);
    var now := if Accepts(s.t, from, to)
               then if p == to then s.t[to].(msg := e.m, msgBlock := false) else s.t[p]
               else if p == from then s.t[from].(msg := e.m, msgBlock := true, sendTo := to) else s.t[p];
    assert Bare(s'.t[p]) == Bare(now);
  }

  lemma SendKeepsMembership(s: Ipc, e: Event, s': Ipc, r: nat, p: nat)
    requires Valid(s) && e.Send? && Step(s, e, s') && r < |s.t| && p < |s.t|
    ensures p in s'.q[r] <==> s'.role[p] == SendingTo(r)
  {
    assert RoleHolds(s, e.to);
    assert p in s.q[r] <==> s.role[p] == SendingTo(r);
  }

  lemma SendKeepsRendezvous(s: Ipc, e: Event, s': Ipc)
    requires Valid(s) && e.Send? && Step(s, e, s')
    ensures NoMissedRendezvous(s')
  {
    assert RoleHolds(s, e.to);
    forall r, k | 0 <= r < |s'.q| && r < |s'.role| && s'.role[r].ReceivingFrom? && 0 <= k < |s'.q[r]|
      ensures !Matches(s'.role[r].wanted, s'.q[r][k])
    {
      assert s.role[r] == s'.role[r];
      assert k < |s.q[r]| ==> !Matches(s.role[r].wanted, s.q[r][k]);
    }
  }

  lemma SendKeepsValid(s: Ipc, e: Event, s': Ipc)
    requires Valid(s) && e.Send? && Step(s, e, s')
    ensures Valid(s')
  {
    forall p: nat | p < |s.t| ensures RoleHolds(s', p) { SendKeepsRole(s, e, s', p); }
    forall r, p: nat | 0 <= r < |s.t| && p < |s.t| ensures p in s'.q[r] <==> s'.role[p] == SendingTo(r) {
      SendKeepsMembership(s, e, s', r, p);
    }
    SendKeepsRendezvous(s, e, s');
  }

  lemma ReceiveKeepsRole(s: Ipc, e: Event, s': Ipc, p: nat)
    requires Valid(s) && e.Receive? && Step(s, e, s') && p < |s.t|
    ensures RoleHolds(s', p)
  {
    var to, k := e.to, MatchAt(s.q[e.to], e.wanted);
    assert RoleHolds(s, p) && RoleHolds(s, to);
    if k < |s.q[to]| {
      var sender := s.q[to][k];
      assert sender in s.q[to] && s.role[sender] == SendingTo(to) && RoleHolds(s, sender);
      assert Bare(s'.t[p]) == Bare(if p == sender then s.t[p].(msgBlock := false) else s.t[p]);
    } else {
      assert Bare(s'.t[p]) == Bare(if p == to then s.t[p].(msg := e.buffer, msgBlock := true, recvFrom := e.wanted)
                                   else s.t[p]);
    }
  }

  lemma ReceiveKeepsMembership(s: Ipc, e: Event, s': Ipc, r: nat, p: nat)
    requires Valid(s) && e.Receive? && Step(s, e, s') && r < |s.t| && p < |s.t|
    ensures p in s'.q[r] <==> s'.role[p] == SendingTo(r)
  {
    var to, k := e.to, MatchAt(s.q[e.to], e.wanted);
    assert p in s.q[r] <==> s.role[p] == SendingTo(r);
    if k < |s.q[to]| {
      var sender := s.q[to][k];
      assert sender in s.q[to] && s.role[sender] == SendingTo(to);
      WithoutMembers(s.q[to], k, p);
    }
  }

  lemma ReceiveKeepsRendezvous(s: Ipc, e: Event, s': Ipc)
    requires Valid(s) && e.Receive? && Step(s, e, s')
    ensures NoMissedRendezvous(s')
  {
    var to, k := e.to, MatchAt(s.q[e.to], e.wanted);
    if k < |s.q[to]| { WithoutMembers(s.q[to], k, 0); }
    forall r, j | 0 <= r < |s'.q| && r < |s'.role| && s'.role[r].ReceivingFrom? && 0 <= j < |s'.q[r]|
      ensures !Matches(s'.role[r].wanted, s'.q[r][j])
    {
      if r != to {
        assert s.role[r] == s'.role[r] && s.q[r] == s'.q[r];
        assert !Matches(s.role[r].wanted, s.q[r][j]);
      }
    }
  }

  lemma ReceiveKeepsValid(s: Ipc, e: Event, s': Ipc)
    requires Valid(s) && e.Receive? && Step(s, e, s')
    ensures Valid(s')
  {
    forall p: nat | p < |s.t| ensures RoleHolds(s', p) { ReceiveKeepsRole(s, e, s', p); }
    forall r, p: nat | 0 <= r < |s.t| && p < |s.t| ensures p in s'.q[r] <==> s'.role[p] == SendingTo(r) {
      ReceiveKeepsMembership(s, e, s', r, p);
    }
    ReceiveKeepsRendezvous(s, e, s');
  }

  lemma InterruptKeepsValid(s: Ipc, e: Event, s': Ipc)
    requires Valid(s) && (e.Raise? || e.Wait?) && Step(s, e, s')
    ensures Valid(s')
  {
    forall p: nat | p < |s.t| ensures RoleHolds(s', p) {
      assert RoleHolds(s, p);
      assert Bare(s'.t[p]) == Bare(if p != e.p then s.t[p]
                                   else if e.Raise? then Raised(s.t[p], e.id) else Waited(s.t[p], e.id));
    }
    forall r, p: nat | 0 <= r < |s.t| && p < |s.t| ensures p in s'.q[r] <==> s'.role[p] == SendingTo(r) {
      assert p in s.q[r] <==> s.role[p] == SendingTo(r);
      assert RoleHolds(s, p);
    }
  }

  lemma ScheduleKeepsValid(s: Ipc, e: Event, s': Ipc)
    requires Valid(s) && e.Schedule? && Step(s, e, s')
    ensures Valid(s')
  {
    forall p: nat | p < |s.t| ensures RoleHolds(s', p) {
      assert RoleHolds(s, p) && MessagePart(s'.t[p]) == MessagePart(s.t[p]);
    }
  }

  lemma StepKeepsValid(s: Ipc, e: Event, s': Ipc)
    requires Valid(s) && Step(s, e, s')
    ensures Valid(s')
  {
    match e
    case Send(_, _, _) => SendKeepsValid(s, e, s');
    case Receive(_, _, _, _) => ReceiveKeepsValid(s, e, s');
    case Raise(_, _) => InterruptKeepsValid(s, e, s');
    case Wait(_, _) => InterruptKeepsValid(s, e, s');
    case Schedule => ScheduleKeepsValid(s, e, s');
  }

  lemma UnblockedIsNotQueued(s: Ipc, r: nat, p: nat)
    requires Linked(s.t, s.q) && r < |s.t| && p < |s.t| && !s.t[p].msgBlock && p in s.q[r]
    ensures !Valid(s)
  {
    if |s.role| == |s.t| && (p in s.q[r] <==> s.role[p] == SendingTo(r)) {
      assert !RoleHolds(s, p);
    }
  }

  /**
   The hole is exactly what breaks the invariant: from a valid state a running caller's
   `msg_send` leads to a table that is valid under some reading of who is blocked why, if and
   only if the target was not a blocked sender whose stale `recv_from` admits the caller.
   */
  lemma SendValidIffNoMisfire(s: Ipc, from: nat, to: nat, m: Msg, t': Table, q': Queues)
    requires Valid(s) && from < |s.t| && to < |s.t| && s.role[from] == Running
    requires Sends(s.t, s.q, from, to, m, t', q') && Linked(t', q')
    ensures (exists role' :: Valid(Ipc(t', q', role'))) <==> !Misfires(s, from, to)
  {
    assert RoleHolds(s, to);
    if Misfires(s, from, to) {
      var r := s.role[to].to;
      assert to in s.q[r];
      assert Bare(t'[to]) == Bare(s.t[to].(msg := m, msgBlock := false));
      forall role' ensures !Valid(Ipc(t', q', role')) {
        UnblockedIsNotQueued(Ipc(t', q', role'), r, to);
      }
    } else {
      var e := Send(from, to, m);
      var s' := Ipc(t', q', RolesAfter(s, e));
      SendKeepsValid(s, e, s');
      assert Valid(Ipc(t', q', s'.role));
    }
  }

  /** A misfire overwrites the message that the blocked target was sending. */
  lemma MisfireOverwritesMessage(s: Ipc, from: nat, to: nat, m: Msg, t': Table, q': Queues)
    requires Valid(s) && from < |s.t| && to < |s.t| && s.role[from] == Running
    requires Sends(s.t, s.q, from, to, m, t', q') && Misfires(s, from, to)
    ensures q' == s.q && s.role[to].to < |q'| && to in q'[s.role[to].to]
    ensures t'[to].msg == m && !t'[to].msgBlock
  {
    assert RoleHolds(s, to);
    assert to in s.q[s.role[to].to];
    assert Bare(t'[to]) == Bare(s.t[to].(msg := m, msgBlock := false));
  }

  /**
   How the hole opens at boot: a slot starts out with `recv_from` 0, so a process that has not
   received yet and blocks in its first send is a target that wrongly admits process 0.
   */
  lemma FirstSendMisfires(s: Ipc, p: nat, to: nat, m: Msg, s': Ipc)
    requires Valid(s) && Step(s, Send(p, to, m), s') && s.t[p].recvFrom == 0
    requires !Accepts(s.t, p, to)
    ensures p < |s'.t| && Misfires(s', 0, p)
  {
    assert Bare(s'.t[p]) == Bare(s.t[p].(msg := m, msgBlock := true, sendTo := to));
  }

  /** Interrupts never wake a process blocked on a message. */
  lemma InterruptsLeaveMessages(s: Ipc, e: Event, s': Ipc, p: nat)
    requires Valid(s) && Step(s, e, s') && p < |s.t|
    requires (e.Raise? || e.Wait?) && (s.role[p].SendingTo? || s.role[p].ReceivingFrom?)
    ensures s'.role[p] == s.role[p] && s'.t[p].msgBlock
  {
    assert RoleHolds(s, p);
    StepKeepsValid(s, e, s');
    assert RoleHolds(s', p);
  }

  /** Messages never wake a process blocked on an interrupt. */
  lemma MessagesLeaveInterrupts(s: Ipc, e: Event, s': Ipc, p: nat)
    requires Valid(s) && Step(s, e, s') && p < |s.t|
    requires (e.Send? || e.Receive?) && s.role[p] == WaitingInt
    ensures s'.role[p] == WaitingInt && s'.t[p].msgBlock && s'.t[p].intStatus == WaitInt
  {
    assert RoleHolds(s, p);
    if e.Receive? {
      var k := MatchAt(s.q[e.to], e.wanted);
      if k < |s.q[e.to]| {
        var sender := s.q[e.to][k];
        assert IsList(s.t, e.to, s.q[e.to]);
        assert sender in s.q[e.to] && s.role[sender] == SendingTo(e.to);
      }
    }
    StepKeepsValid(s, e, s');
    assert RoleHolds(s', p);
  }

  // ------------------------------------------------------------- what no step changes

  /**
   What each outcome of a send leaves behind: the message is either in the slot of a receiver that
   was waiting for it, or in the slot of the sender, last on the receiver's list.
   */
  lemma SendOutcome(t: Table, q: Queues, from: nat, to: nat, m: Msg, t': Table, q': Queues)
    requires from < |t| == |q| && to < |t| && Sends(t, q, from, to, m, t', q')
    ensures |t'| == |t|
    ensures var wants := t[to].recvFrom == from || t[to].recvFrom == ANY;
            var waits := t[to].msgBlock && t[to].intStatus != WaitInt && wants;
            if waits then t'[to].msg == m && !t'[to].msgBlock && q' == q
            else t'[from].msg == m && t'[from].msgBlock && t'[from].sendTo == to && q' == q[to := q[to] + [from]]
  {
    var now := if Accepts(t, from, to) then t[to].(msg := m, msgBlock := false)
               else t[from].(msg := m, msgBlock := true, sendTo := to);
    assert Bare(t'[if Accepts(t, from, to) then to else from]) == Bare(now);
  }

  /**
   What each outcome of a receive leaves behind: the caller has the message of the oldest sender
   that it wants, who goes on, or there is none and the caller waits with its own buffer.
   */
  lemma ReceiveOutcome(t: Table, q: Queues, to: nat, wanted: int, buffer: Msg, t': Table, q': Queues,
                       got: Option<Msg>, k: nat)
    requires Linked(t, q) && to < |t| && Receives(t, q, to, wanted, buffer, t', q', got)
    requires k <= |q[to]| && (k < |q[to]| ==> wanted == ANY || wanted == q[to][k])
    requires forall j | 0 <= j < k :: wanted != ANY && wanted != q[to][j]
    ensures |t'| == |t|
    ensures if k < |q[to]| then
              && q[to][k] < |t| && !t'[q[to][k]].msgBlock && got == Some(t[q[to][k]].msg)
              && q' == q[to := q[to][..k] + q[to][k+1..]]
            else t'[to].msgBlock && t'[to].recvFrom == wanted && t'[to].msg == buffer && got == None && q' == q
  {
    assert k == MatchAt(q[to], wanted);
    assert IsList(t, to, q[to]);
    var i := if k < |q[to]| then q[to][k] else to;
    var now := if k < |q[to]| then t[i].(msgBlock := false)
               else t[i].(msg := buffer, msgBlock := true, recvFrom := wanted);
    assert Bare(t'[i]) == Bare(now);
    if k < |q[to]| { assert Without(q[to], k) == q[to][..k] + q[to][k+1..]; }
  }

  /** A send leaves every field of every slot alone but those that it is there to change. */
  lemma SendFrame(t: Table, q: Queues, from: nat, to: nat, m: Msg, t': Table, q': Queues, i: nat)
    requires from < |t| == |q| && to < |t| && i < |t| && Sends(t, q, from, to, m, t', q')
    ensures |t'| == |t|
    ensures t'[i].takeUp == t[i].takeUp && t'[i].status == t[i].status
    ensures t'[i].priority == t[i].priority && t'[i].waiting == t[i].waiting
    ensures t'[i].recvFrom == t[i].recvFrom
    ensures t'[i].intStatus == t[i].intStatus && t'[i].interruptId == t[i].interruptId
    ensures t'[i].sendTo != t[i].sendTo ==> i == from && t'[i].sendTo == to && t'[i].msgBlock
    ensures t'[i].msg != t[i].msg || t'[i].msgBlock != t[i].msgBlock ==>
              t'[i].msg == m && if t'[i].msgBlock then i == from else i == to && t[i].msgBlock
  {
    var now := if Accepts(t, from, to)
               then if i == to then t[to].(msg := m, msgBlock := false) else t[i]
               else if i == from then t[from].(msg := m, msgBlock := true, sendTo := to) else t[i];
    assert Bare(t'[i]) == Bare(now);
  }

  /** So does a receive. */
  lemma ReceiveFrame(t: Table, q: Queues, to: nat, wanted: int, buffer: Msg, t': Table, q': Queues,
                     got: Option<Msg>, i: nat)
    requires Linked(t, q) && to < |t| && i < |t| && Receives(t, q, to, wanted, buffer, t', q', got)
    ensures |t'| == |t|
    ensures t'[i].takeUp == t[i].takeUp && t'[i].status == t[i].status
    ensures t'[i].priority == t[i].priority && t'[i].waiting == t[i].waiting
    ensures t'[i].sendTo == t[i].sendTo
    ensures t'[i].intStatus == t[i].intStatus && t'[i].interruptId == t[i].interruptId
    ensures t'[i].recvFrom != t[i].recvFrom ==> i == to && t'[i].recvFrom == wanted && t'[i].msgBlock
    ensures t'[i].msg != t[i].msg ==> i == to && t'[i].msg == buffer && t'[i].msgBlock
    ensures t'[i].msgBlock != t[i].msgBlock ==> if t'[i].msgBlock then i == to else i in q[to] && Matches(wanted, i)
  {
    var k := MatchAt(q[to], wanted);
    assert IsList(t, to, q[to]);
    var now := if k < |q[to]| then if i == q[to][k] then t[i].(msgBlock := false) else t[i]
               else if i == to then t[i].(msg := buffer, msgBlock := true, recvFrom := wanted) else t[i];
    assert Bare(t'[i]) == Bare(now);
  }

  /**
   Raising an interrupt and waiting for one touch the latch and `msg_block` of their own slot only.
   The id changes only when nothing is pending or awaited, and one that is neither changes nothing.
   */
  lemma InterruptFrame(s: Ipc, e: Event, s': Ipc, i: nat)
    requires Step(s, e, s') && (e.Raise? || e.Wait?) && i < |s.t|
    ensures |s'.t| == |s.t| && e.p < |s.t|
    ensures Bare(s'.t[i]).(intStatus := NoInt, interruptId := 0, msgBlock := false)
         == Bare(s.t[i]).(intStatus := NoInt, interruptId := 0, msgBlock := false)
    ensures i != e.p ==> Bare(s'.t[i]) == Bare(s.t[i])
    ensures s'.t[i].interruptId != s.t[i].interruptId ==>
              s.t[i].intStatus == NoInt && s'.t[i].intStatus != NoInt && s'.t[i].interruptId == e.id
    ensures s.t[e.p].intStatus != NoInt && s.t[e.p].interruptId != e.id ==> Bare(s'.t[i]) == Bare(s.t[i])
    ensures e.Raise? && s.t[e.p].intStatus == HasInt ==> Bare(s'.t[i]) == Bare(s.t[i])
    ensures s.t[e.p].intStatus == NoInt ==>
              s'.t[e.p].interruptId == e.id && s'.t[e.p].intStatus == if e.Raise? then HasInt else WaitInt
    ensures s.t[e.p].interruptId == e.id && s.t[e.p].intStatus == (if e.Raise? then WaitInt else HasInt) ==>
              s'.t[e.p].intStatus == NoInt && (e.Raise? ==> !s'.t[e.p].msgBlock)
  {
    LatchMoved(s, e, s', i);
    LatchMoved(s, e, s', e.p);
    hide Linked;
  }

  /**
   Over every step: no call takes or frees a slot or changes a priority, only scheduling changes
   `status` and `waiting`, `recv_from` changes only for the caller of a receive that blocks, and
   `send_to` only for the caller of a send that blocks.
   */
  lemma StepFrame(s: Ipc, e: Event, s': Ipc, i: nat)
    requires Step(s, e, s') && i < |s.t|
    ensures |s'.t| == |s.t|
    ensures s'.t[i].takeUp == s.t[i].takeUp && s'.t[i].priority == s.t[i].priority
    ensures !e.Schedule? ==> s'.t[i].status == s.t[i].status && s'.t[i].waiting == s.t[i].waiting
    ensures s'.t[i].recvFrom != s.t[i].recvFrom ==> e.Receive? && i == e.to && s'.t[i].msgBlock
    ensures s'.t[i].sendTo != s.t[i].sendTo ==> e.Send? && i == e.from && s'.t[i].msgBlock
  {
    hide IsList, Sends, Receives, OnlyChanges, Raised, Waited;
    match e {
      case Send(from, to, m) => SendFrame(s.t, s.q, from, to, m, s'.t, s'.q, i);
      case Receive(to, wanted, buffer, got) => ReceiveFrame(s.t, s.q, to, wanted, buffer, s'.t, s'.q, got, i);
      case Raise(_, _) => InterruptSpares(s, e, s', i);
      case Wait(_, _) => InterruptSpares(s, e, s', i);
      case Schedule => assert MessagePart(s'.t[i]) == MessagePart(s.t[i]);
    }
  }

  lemma InterruptSpares(s: Ipc, e: Event, s': Ipc, i: nat)
    requires Step(s, e, s') && (e.Raise? || e.Wait?) && i < |s.t|
    ensures |s'.t| == |s.t|
    ensures s'.t[i].takeUp == s.t[i].takeUp && s'.t[i].priority == s.t[i].priority
    ensures s'.t[i].status == s.t[i].status && s'.t[i].waiting == s.t[i].waiting
    ensures s'.t[i].recvFrom == s.t[i].recvFrom && s'.t[i].sendTo == s.t[i].sendTo
  {
    hide Step;
    InterruptFrame(s, e, s', i);
    var b := Bare(s.t[i]).(intStatus := NoInt, interruptId := 0, msgBlock := false);
    assert b == Bare(s'.t[i]).(intStatus := NoInt, interruptId := 0, msgBlock := false);
    assert b.takeUp == s'.t[i].takeUp && b.recvFrom == s'.t[i].recvFrom;
  }

  // -------------------------------------------------------------------------------- runs

  /** A run of legal calls in any order by any processes, with interrupts at any time. */
  ghost predicate IsRun(states: seq<Ipc>, events: seq<Event>) {
    && |states| == |events| + 1
    && Valid(states[0])
    && (forall k | 0 <= k < |events| :: Step(states[k], events[k], states[k+1]))
  }

  lemma {:induction false} RunStaysValid(states: seq<Ipc>, events: seq<Event>, k: nat)
    requires IsRun(states, events) && k <= |events|
    ensures Valid(states[k])
    ensures |states[k].t| == |states[0].t|
  {
    if k > 0 {
      RunStaysValid(states, events, k - 1);
      StepKeepsValid(states[k-1], events[k-1], states[k]);
    }
  }

  /** In the course of a run no slot is taken or freed and no priority changes. */
  lemma {:induction false} RunKeepsSlots(states: seq<Ipc>, events: seq<Event>, k: nat, i: nat)
    requires IsRun(states, events) && k <= |events| && i < |states[0].t|
    ensures |states[k].t| == |states[0].t|
    ensures states[k].t[i].takeUp == states[0].t[i].takeUp && states[k].t[i].priority == states[0].t[i].priority
  {
    hide Step, Valid;
    if k > 0 {
      RunKeepsSlots(states, events, k - 1, i);
      StepFrame(states[k-1], events[k-1], states[k], i);
    }
  }

  /** At boot nobody is blocked and every list is empty. */
  lemma BootIsValid(t: Table)
    requires forall p | 0 <= p < |t| :: !t[p].msgBlock && t[p].intStatus != WaitInt && t[p].msgHead == NULL
    ensures Valid(Ipc(t, seq(|t|, _ => []), seq(|t|, _ => Running)))
  {
    var s := Ipc(t, seq(|t|, _ => []), seq(|t|, _ => Running));
    forall p: nat | p < |t| ensures RoleHolds(s, p) {}
    forall r | 0 <= r < |t| ensures IsList(t, r, s.q[r]) {}
  }
}
