/**
 The imperative code over the process table: message passing (msg/msg.c), scheduling
 (proc/sched.c), the message system calls (sys/proc/sys_call_proc.c) and slot creation
 (proc/proc.c). Each method is proved against the specifications of the other modules.
 */
module Kernel {
  import opened ProcTable
  import opened Messages
  import opened ListSurgery
  import opened Sequences
  import L = LineSchedule
  import A = AgingSchedule
  import opened Words

  /** The fields that `memset` and the constructors of proc/proc.c leave in a new slot. */
  function NewSlot(): Proc {
    Proc(true, ProcExit, 1, 0, false, NoInt, 0, 0, 0, NULL, NULL, Msg(0, 0, 0, 0, 0, 0, 0, 0, 0))
  }

  class Kernel {
    const procs: array<Proc>
    var procPtr: nat
    var current: nat
    ghost var queues: Queues

    ghost predicate Ok()
      reads this, procs
    {
      Linked(procs[..], queues) && procPtr < procs.Length
    }

    /** `init_proc_table`: every slot is free. The C globals start out zeroed. */
    constructor (slots: nat)
      requires slots > 0
      ensures Ok() && fresh(procs) && procs.Length == slots
      ensures procPtr == 0 && current == 0 && queues == seq(slots, _ => [])
      ensures forall i | 0 <= i < slots :: procs[i] == NewSlot().(takeUp := false, priority := 0)
    {
      procs := new Proc[slots](_ => NewSlot().(takeUp := false, priority := 0));
      procPtr, current := 0, 0;
      queues := seq(slots, _ => []);
      new;
      forall r | 0 <= r < slots ensures IsList(procs[..], r, queues[r]) {}
    }

    // ------------------------------------------------------------------- msg/msg.c

    method MsgSend(from: nat, to: nat, m: Msg)
      requires Ok() && from < procs.Length && to < procs.Length && !Queued(queues, from)
      modifies procs, this`queues
      ensures Ok() && Sends(old(procs[..]), old(queues), from, to, m, procs[..], queues)
    {
      var p := procs[to];
      if p.intStatus != WaitInt && p.msgBlock && (p.recvFrom == from || p.recvFrom == ANY) {
        procs[to] := p.(msg := m, msgBlock := false);
        assert forall r | 0 <= r < procs.Length :: IsList(old(procs[..]), r, queues[r]);
      } else {
        procs[from] := procs[from].(msgBlock := true, sendTo := to, msg := m);
        assert forall r | 0 <= r < procs.Length :: IsList(old(procs[..]), r, queues[r]);
        InsertMsgQueue(from, to);
      }
    }

    method InsertMsgQueue(from: nat, to: nat)
      requires Ok() && from < procs.Length && to < procs.Length && !Queued(queues, from)
      modifies procs, this`queues
      ensures Ok() && queues == old(queues)[to := old(queues)[to] + [from]]
      ensures OnlyChanges(old(procs[..]), procs[..], from, old(procs[..])[from])
    {
      hide Linked, IsList;
      ghost var t0 := procs[..];
      ListStart(t0, queues, to);
      ghost var list := queues[to];
      if procs[to].msgHead == NULL {
        procs[to] := procs[to].(msgHead := from);
        procs[from] := procs[from].(msgNext := NULL);
      } else {
        var tmp2 := LastSender(to);
        procs[tmp2] := procs[tmp2].(msgNext := from);
        procs[from] := procs[from].(msgNext := NULL);
      }
      AppendKeepsLinked(t0, queues, procs[..], from, to);
      queues := queues[to := list + [from]];
    }

    /** The walk of `insert_msg_queue` to the end of a list. */
    method LastSender(to: nat) returns (tmp2: nat)
      requires Ok() && to < procs.Length && procs[to].msgHead != NULL
      ensures queues[to] != [] && tmp2 == queues[to][|queues[to]|-1] && tmp2 < procs.Length
    {
      hide Linked, IsList;
      ListStart(procs[..], queues, to);
      var tmp1 := procs[to].msgHead;
      tmp2 := tmp1;
      ghost var list, k := queues[to], 0;
      ListNext(procs[..], queues, to, 0);
      while tmp1 != NULL
        invariant 0 <= k <= |list|
        invariant tmp1 == if k < |list| then list[k] else NULL
        invariant tmp2 == list[if k == 0 then 0 else k - 1] && tmp2 < procs.Length
        decreases |list| - k
      {
        ListNext(procs[..], queues, to, k);
        tmp2 := tmp1;
        tmp1 := procs[tmp1].msgNext;
        k := k + 1;
      }
    }

    /** The search of `msg_receive` along the list of `to`. */
    method FindSender(to: nat, wanted: int) returns (found: bool, sender: nat, before: nat)
      requires Ok() && to < procs.Length
      ensures var k := MatchAt(queues[to], wanted);
              && (found <==> k < |queues[to]|)
              && (found ==> sender == queues[to][k] && (k > 0 ==> before == queues[to][k-1]))
    {
      hide Linked, IsList;
      ghost var t0 := procs[..];
      ListStart(t0, queues, to);
      ghost var list := queues[to];
      found, sender, before := false, 0, 0;
      ghost var k := 0;
      var tmp1 := procs[to].msgHead;
      while tmp1 != NULL
        invariant 0 <= k <= |list| && k <= MatchAt(list, wanted)
        invariant tmp1 == if k < |list| then list[k] else NULL
        invariant k > 0 ==> before == list[k-1]
        decreases |list| - k
      {
        ListNext(t0, queues, to, k);
        if wanted == ANY || wanted == tmp1 {
          return true, tmp1, before;
        }
        before := tmp1;
        tmp1 := procs[tmp1].msgNext;
        k := k + 1;
      }
    }

    /** Returns the message copied to the caller, if any, and whether "Error!" is printed. */
    method MsgReceive(to: nat, wanted: int, buffer: Msg) returns (got: Option<Msg>, error: bool)
      requires Ok() && to < procs.Length
      modifies procs, this`queues
      ensures Ok() && Receives(old(procs[..]), old(queues), to, wanted, buffer, procs[..], queues, got)
      ensures error == old(procs[to].msgBlock)
    {
      error := procs[to].msgBlock;
      ghost var t0 := procs[..];
      ghost var k := MatchAt(queues[to], wanted);
      var found, sender, before := FindSender(to, wanted);
      if found {
        got := Some(procs[sender].msg);
        Unlink(sender, before, to, k);
      } else {
        procs[to] := procs[to].(msgBlock := true, recvFrom := wanted, msg := buffer);
        got := None;
        SameLinks(t0, procs[..], queues);
      }
    }

    /** The tail of a successful receive: unblocks the sender and takes it off the list. */
    method Unlink(sender: nat, before: nat, to: nat, ghost k: nat)
      requires Ok() && to < procs.Length && k < |queues[to]|
      requires sender == queues[to][k] && (k > 0 ==> before == queues[to][k-1])
      modifies procs, this`queues
      ensures Ok() && queues == old(queues)[to := Without(old(queues)[to], k)]
      ensures sender < procs.Length
      ensures OnlyChanges(old(procs[..]), procs[..], sender, old(procs[..])[sender].(msgBlock := false))
    {
      ghost var t0, list := procs[..], queues[to];
      assert IsList(t0, to, list) && NoDuplicates(list);
      procs[sender] := procs[sender].(msgBlock := false);
      if sender == procs[to].msgHead {
        procs[to] := procs[to].(msgHead := procs[sender].msgNext);
      } else {
        procs[before] := procs[before].(msgNext := procs[sender].msgNext);
      }
      UnlinkKeepsLinked(t0, queues, procs[..], to, k);
      queues := queues[to := Without(list, k)];
    }

    method MsgSendInterrupt(p: nat, id: int)
      requires Ok() && p < procs.Length
      modifies procs
      ensures Ok() && procs[..] == old(procs[..])[p := Raised(old(procs[p]), id)]
    {
      assert forall r | 0 <= r < procs.Length :: IsList(procs[..], r, queues[r]);
      if procs[p].intStatus == NoInt {
        procs[p] := procs[p].(intStatus := HasInt, interruptId := id);
      } else if procs[p].intStatus == HasInt {
      } else if procs[p].intStatus == WaitInt && id == procs[p].interruptId {
        procs[p] := procs[p].(intStatus := NoInt, msgBlock := false);
      }
    }

    method MsgRecvInterrupt(p: nat, id: int)
      requires Ok() && p < procs.Length
      modifies procs
      ensures Ok() && procs[..] == old(procs[..])[p := Waited(old(procs[p]), id)]
    {
      assert forall r | 0 <= r < procs.Length :: IsList(procs[..], r, queues[r]);
      if procs[p].intStatus == NoInt {
        procs[p] := procs[p].(intStatus := WaitInt, interruptId := id, msgBlock := true);
      } else if procs[p].intStatus == HasInt && procs[p].interruptId == id {
        procs[p] := procs[p].(intStatus := NoInt);
      }
    }

    // ------------------------------------------------------------------ proc/sched.c

    /** The body of the search: runs the current process if it can, marks it if it is blocked. */
    method VisitCurrent() returns (stop: bool)
      requires current < procs.Length
      modifies procs
      ensures stop == Runnable(old(procs[current]))
      ensures procs[..] == old(procs[..])[current := L.Visited(old(procs[current]))]
    {
      stop := !procs[current].msgBlock && procs[current].takeUp;
      if stop {
        procs[current] := procs[current].(status := ProcRunning);
      } else if procs[current].msgBlock {
        procs[current] := procs[current].(status := ProcBlock);
      }
    }

    /** Terminates exactly because some taken slot is not blocked (INIT never blocks). */
    method ProcLineSchedule()
      requires procPtr < procs.Length && L.SomeRunnable(procs[..])
      modifies procs, this`procPtr, this`current
      ensures current == L.Chosen(old(procs[..]), old(procPtr))
      ensures procPtr == L.NextPtr(old(procs[..]), old(procPtr))
      ensures current < procs.Length && Runnable(old(procs[..])[current]) && procs[current].status == ProcRunning
      ensures procPtr == (current + 1) % procs.Length
      ensures forall i | 0 <= i < procs.Length :: procs[i] == old(procs[i]).(status := procs[i].status)
      ensures forall i | 0 <= i < procs.Length &&
                L.Ahead(old(procPtr), i, procs.Length) < L.Ahead(old(procPtr), current, procs.Length) ::
                !Runnable(old(procs[i])) &&
                procs[i].status == if old(procs[i].msgBlock) then ProcBlock else old(procs[i].status)
      ensures forall i | 0 <= i < procs.Length &&
                L.Ahead(old(procPtr), i, procs.Length) > L.Ahead(old(procPtr), current, procs.Length) ::
                procs[i] == old(procs[i])
    {
      hide L.VisitedTable, L.Distance, L.FirstRunnable, L.Ahead;
      ghost var t0, ptr := procs[..], procPtr;
      ghost var d, target := 0, L.Distance(procs[..], procPtr);
      L.NothingVisited(t0, ptr);
      L.DistanceBound(t0, ptr);
      while true
        invariant 0 <= d <= target < |t0| && procPtr == L.At(ptr, d, |t0|)
        invariant procs.Length == |t0| && procs[..] == L.VisitedTable(t0, ptr, d)
        decreases target - d
      {
        current := procPtr;
        L.RingNext(procPtr, procs.Length);
        procPtr := (procPtr + 1) % procs.Length;
        L.VisitNext(t0, ptr, d);
        L.VisitStops(t0, ptr, d);
        var stop := VisitCurrent();
        if stop { break; }
        d := d + 1;
      }
      L.SearchMeans(t0, ptr, procs[..]);
    }

    /** Requires exactly what gives `mark` a value: a runnable process whose counter does not wrap now. */
    method ProcPrioritySchedule()
      requires A.RunnersPositive(A.PrioritiesOf(procs[..]), A.RunnableOf(procs[..]))
      requires A.HasLevel(A.WaitsOf(procs[..]), A.RunnableOf(procs[..]))
      modifies procs, this`current
      ensures current < procs.Length
      ensures A.IsCall(A.WaitsOf(old(procs[..])), A.PrioritiesOf(old(procs[..])), A.RunnableOf(old(procs[..])),
                       current, A.WaitsOf(procs[..]))
      ensures forall i | 0 <= i < procs.Length ::
                procs[i] == old(procs[i]).(status := procs[i].status, waiting := procs[i].waiting)
      ensures forall i | 0 <= i < procs.Length ::
                procs[i].status == if Runnable(old(procs[i])) then ProcRunning else ProcBlock
      ensures Runnable(old(procs[..])[current]) && procs[current].waiting == 0
      ensures forall i | 0 <= i < procs.Length && i != current ::
                procs[i].waiting ==
                if Runnable(old(procs[i])) then (old(procs[i].waiting) + 1) % WORD else old(procs[i].waiting)
      ensures forall i | 0 <= i < procs.Length && i != current && Runnable(old(procs[i])) ::
                var here := (old(procs[..])[current].waiting + 1) % WORD * procs[i].priority;
                var there := procs[i].waiting * procs[current].priority;
                there <= here && (i < current ==> there < here)
    {
      ghost var t0 := procs[..];
      ghost var w, pri, r := A.WaitsOf(t0), A.PrioritiesOf(t0), A.RunnableOf(t0);
      var found, mark := Scan();
      A.ScanFinds(w, pri, r, found, mark);
      current := mark;
      procs[mark] := procs[mark].(waiting := 0);
      assert A.WaitsOf(procs[..]) == A.Aged(w, r)[mark := 0];
    }

    /** The loop over the slots: ages the runnable ones, and keeps the first of the largest level. */
    method Scan() returns (found: bool, mark: nat)
      requires A.RunnersPositive(A.PrioritiesOf(procs[..]), A.RunnableOf(procs[..]))
      modifies procs
      ensures forall j | 0 <= j < procs.Length ::
                procs[j] == A.ScannedSlot(old(procs[j]),
                                          A.Aged(A.WaitsOf(old(procs[..])), A.RunnableOf(old(procs[..])))[j])
      ensures A.FoundPick(A.Aged(A.WaitsOf(old(procs[..])), A.RunnableOf(old(procs[..]))),
                          A.PrioritiesOf(old(procs[..])), A.RunnableOf(old(procs[..])), found, mark)
    {
      hide A.Scanned, A.RunnersPositive, A.FoundPick;
      ghost var t0 := procs[..];
      ghost var w, pri, r := A.WaitsOf(t0), A.PrioritiesOf(t0), A.RunnableOf(t0);
      ghost var aged := A.Aged(w, r);
      var levelWait: nat, levelPri: nat := 0, 1;
      mark, found := 0, false;
      A.ScanStart(aged, pri, r);
      for i := 0 to procs.Length
        invariant forall j | i <= j < procs.Length :: procs[j] == t0[j]
        invariant forall j | 0 <= j < i :: procs[j] == A.ScannedSlot(t0[j], aged[j])
        invariant A.Scanned(aged, pri, r, i, found, mark, levelWait, levelPri)
      {
        var runs := AgeSlot(i);
        if runs && levelWait * procs[i].priority < procs[i].waiting * levelPri {
          A.ScanMoves(aged, pri, r, i, found, mark, levelWait, levelPri);
          levelWait, levelPri, mark, found := procs[i].waiting, procs[i].priority, i, true;
        } else {
          A.ScanKeeps(aged, pri, r, i, found, mark, levelWait, levelPri);
        }
      }
      A.ScanEnd(aged, pri, r, found, mark, levelWait, levelPri);
    }

    /** A runnable slot is marked running and ages by one, any other is marked blocked. */
    method AgeSlot(i: nat) returns (runs: bool)
      requires i < procs.Length
      modifies procs
      ensures runs == Runnable(old(procs[i]))
      ensures procs[..] == old(procs[..])[i := A.ScannedSlot(old(procs[i]),
                             if runs then (old(procs[i].waiting) + 1) % WORD else old(procs[i].waiting))]
    {
      runs := !procs[i].msgBlock && procs[i].takeUp;
      if runs {
        procs[i] := procs[i].(status := ProcRunning);
        procs[i] := procs[i].(waiting := (procs[i].waiting + 1) % WORD);
      } else {
        procs[i] := procs[i].(status := ProcBlock);
      }
    }

    // ---------------------------------------------------- sys/proc/sys_call_proc.c

    /**
     If `p` is blocked, the CPU goes to the first process from `procPtr` on that can run, which is not
     `p`; otherwise nothing happens.
     */
    method Reschedule(p: nat)
      requires Ok() && p < procs.Length && L.SomeRunnable(procs[..])
      modifies procs, this`procPtr, this`current
      ensures Ok()
      ensures procs[p].msgBlock == old(procs[p].msgBlock)
      ensures procs[p].msgBlock ==> current < procs.Length && current != p && Runnable(procs[current])
      ensures procs[p].msgBlock ==> procs[current].status == ProcRunning && procPtr == (current + 1) % procs.Length
      ensures procs[p].msgBlock ==> forall i | 0 <= i < procs.Length &&
                L.Ahead(old(procPtr), i, procs.Length) < L.Ahead(old(procPtr), current, procs.Length) ::
                !Runnable(procs[i])
      ensures !procs[p].msgBlock ==> current == old(current) && procPtr == old(procPtr)
      ensures forall i | 0 <= i < procs.Length :: procs[i] == old(procs[..])[i].(status := procs[i].status)
      ensures !procs[p].msgBlock ==> procs[..] == old(procs[..])
    {
      if procs[p].msgBlock {
        ghost var t0 := procs[..];
        ProcLineSchedule();
        SameLinks(t0, procs[..], queues);
      }
    }

    /** `init` is a process that never blocks, such as INIT. */
    method SysSendMessage(from: nat, to: nat, m: Msg, ghost init: nat) returns (ghost mid: Table)
      requires Ok() && from < procs.Length && to < procs.Length && !Queued(queues, from)
      requires init < procs.Length && init != from && Runnable(procs[init])
      modifies procs, this`queues, this`procPtr, this`current
      ensures Ok() && |mid| == procs.Length
      ensures Sends(old(procs[..]), old(queues), from, to, m, mid, queues) && Linked(mid, queues)
      ensures procs[from].msgBlock ==> current < procs.Length && current != from && Runnable(procs[current])
      ensures procs[from].msgBlock ==> procs[current].status == ProcRunning && procPtr == (current + 1) % procs.Length
      ensures procs[from].msgBlock ==> forall i | 0 <= i < procs.Length &&
                L.Ahead(old(procPtr), i, procs.Length) < L.Ahead(old(procPtr), current, procs.Length) ::
                !Runnable(procs[i])
      ensures !procs[from].msgBlock ==> current == old(current) && procPtr == old(procPtr)
      ensures forall i | 0 <= i < procs.Length :: procs[i] == mid[i].(status := procs[i].status)
      ensures !procs[from].msgBlock ==> procs[..] == mid
    {
      MsgSend(from, to, m);
      mid := procs[..];
      SendFrame(old(procs[..]), old(queues), from, to, m, mid, queues, init);
      assert Runnable(mid[init]);
      Reschedule(from);
    }

    method SysRecvMessage(wanted: int, to: nat, buffer: Msg, ghost init: nat)
      returns (got: Option<Msg>, error: bool, ghost mid: Table)
      requires Ok() && to < procs.Length
      requires init < procs.Length && init != to && Runnable(procs[init])
      modifies procs, this`queues, this`procPtr, this`current
      ensures Ok() && |mid| == procs.Length
      ensures Receives(old(procs[..]), old(queues), to, wanted, buffer, mid, queues, got) && Linked(mid, queues)
      ensures error == old(procs[to].msgBlock)
      ensures procs[to].msgBlock ==> current < procs.Length && current != to && Runnable(procs[current])
      ensures procs[to].msgBlock ==> procs[current].status == ProcRunning && procPtr == (current + 1) % procs.Length
      ensures procs[to].msgBlock ==> forall i | 0 <= i < procs.Length &&
                L.Ahead(old(procPtr), i, procs.Length) < L.Ahead(old(procPtr), current, procs.Length) ::
                !Runnable(procs[i])
      ensures !procs[to].msgBlock ==> current == old(current) && procPtr == old(procPtr)
      ensures forall i | 0 <= i < procs.Length :: procs[i] == mid[i].(status := procs[i].status)
      ensures !procs[to].msgBlock ==> procs[..] == mid
    {
      got, error := MsgReceive(to, wanted, buffer);
      mid := procs[..];
      ReceiveFrame(old(procs[..]), old(queues), to, wanted, buffer, mid, queues, got, init);
      assert Runnable(mid[init]);
      Reschedule(to);
    }

    method SysSendInterrupt(p: nat, id: int, ghost init: nat) returns (ghost mid: Table)
      requires Ok() && p < procs.Length
      requires init < procs.Length && Runnable(procs[init])
      modifies procs, this`procPtr, this`current
      ensures Ok() && mid == old(procs[..])[p := Raised(old(procs[p]), id)]
      ensures procs[p].msgBlock ==> current < procs.Length && current != p && Runnable(procs[current])
      ensures procs[p].msgBlock ==> procs[current].status == ProcRunning && procPtr == (current + 1) % procs.Length
      ensures procs[p].msgBlock ==> forall i | 0 <= i < procs.Length &&
                L.Ahead(old(procPtr), i, procs.Length) < L.Ahead(old(procPtr), current, procs.Length) ::
                !Runnable(procs[i])
      ensures !procs[p].msgBlock ==> current == old(current) && procPtr == old(procPtr)
      ensures forall i | 0 <= i < procs.Length :: procs[i] == mid[i].(status := procs[i].status)
      ensures !procs[p].msgBlock ==> procs[..] == mid
    {
      MsgSendInterrupt(p, id);
      mid := procs[..];
      assert Runnable(mid[init]);
      Reschedule(p);
    }

    method SysRecvInterrupt(p: nat, id: int, ghost init: nat) returns (ghost mid: Table)
      requires Ok() && p < procs.Length
      requires init < procs.Length && init != p && Runnable(procs[init])
      modifies procs, this`procPtr, this`current
      ensures Ok() && mid == old(procs[..])[p := Waited(old(procs[p]), id)]
      ensures procs[p].msgBlock ==> current < procs.Length && current != p && Runnable(procs[current])
      ensures procs[p].msgBlock ==> procs[current].status == ProcRunning && procPtr == (current + 1) % procs.Length
      ensures procs[p].msgBlock ==> forall i | 0 <= i < procs.Length &&
                L.Ahead(old(procPtr), i, procs.Length) < L.Ahead(old(procPtr), current, procs.Length) ::
                !Runnable(procs[i])
      ensures !procs[p].msgBlock ==> current == old(current) && procPtr == old(procPtr)
      ensures forall i | 0 <= i < procs.Length :: procs[i] == mid[i].(status := procs[i].status)
      ensures !procs[p].msgBlock ==> procs[..] == mid
    {
      MsgRecvInterrupt(p, id);
      mid := procs[..];
      assert Runnable(mid[init]);
      Reschedule(p);
    }

    // ----------------------------------------------------------------- proc/proc.c

    /** The first free slot, or -1. */
    method GetEmptyProcBlock() returns (idx: int)
      ensures -1 <= idx < procs.Length
      ensures idx == -1 ==> forall i | 0 <= i < procs.Length :: procs[i].takeUp
      ensures idx != -1 ==> !procs[idx].takeUp && forall i | 0 <= i < idx :: procs[i].takeUp
    {
      for i := 0 to procs.Length
        invariant forall j | 0 <= j < i :: procs[j].takeUp
      {
        if !procs[i].takeUp { return i; }
      }
      return -1;
    }

    /** The bookkeeping common to the three constructors of a process. */
    method NewProc() returns (idx: int)
      requires Ok()
      requires forall i | 0 <= i < procs.Length && !procs[i].takeUp :: !Queued(queues, i) && queues[i] == []
      modifies procs
      ensures Ok() && -1 <= idx < procs.Length
      ensures idx == -1 ==> procs[..] == old(procs[..]) && forall i | 0 <= i < procs.Length :: procs[i].takeUp
      ensures idx != -1 ==> procs[..] == old(procs[..])[idx := NewSlot()]
      ensures idx != -1 ==> procs[idx].takeUp && procs[idx].priority == 1 && procs[idx].waiting == 0
      ensures idx != -1 ==> !procs[idx].msgBlock && procs[idx].intStatus == NoInt
      ensures idx != -1 ==> procs[idx].recvFrom == 0 && procs[idx].sendTo == 0
      ensures idx != -1 ==> procs[idx].msgHead == NULL && procs[idx].msgNext == NULL
      ensures idx != -1 ==> !old(procs[idx].takeUp) && forall i | 0 <= i < idx :: procs[i].takeUp
    {
      idx := GetEmptyProcBlock();
      if idx == -1 { return; }
      assert forall r | 0 <= r < procs.Length :: IsList(procs[..], r, queues[r]);
      procs[idx] := NewSlot();
      assert forall r, k | 0 <= r < procs.Length && 0 <= k < |queues[r]| :: queues[r][k] in queues[r];
    }
  }

  // ------------------------------------------------------------- the table as it is booted

  /** Every slot in use has a priority: what the constructors of processes see to. */
  ghost predicate TakenHavePriority(t: Table) {
    forall i | 0 <= i < |t| && t[i].takeUp :: 0 < t[i].priority
  }

  /** That is all the aging scheduler asks of the priorities; free slots have none. */
  lemma TakenSuffice(t: Table)
    requires TakenHavePriority(t)
    ensures A.RunnersPositive(A.PrioritiesOf(t), A.RunnableOf(t))
  {
  }

  /**
   A table of `slots` slots with `count` processes in it, as the start of the kernel leaves it, and
   the first call of the aging scheduler on it: it chooses the first process.
   */
  method StartAndSchedule(slots: nat, count: nat) returns (kernel: Kernel)
    requires 0 < count <= slots
    ensures fresh(kernel) && kernel.procs.Length == slots && kernel.current == 0
    ensures forall i | 0 <= i < slots :: kernel.procs[i].takeUp <==> i < count
    ensures forall i | 0 <= i < slots :: kernel.procs[i].waiting == if 0 < i < count then 1 else 0
    ensures TakenHavePriority(kernel.procs[..])
  {
    kernel := new Kernel(slots);
    for n := 0 to count
      invariant fresh(kernel) && fresh(kernel.procs) && kernel.Ok() && kernel.procs.Length == slots
      invariant kernel.queues == seq(slots, _ => [])
      invariant forall i | 0 <= i < slots :: kernel.procs[i] == BootedSlot(i, n)
    {
      var idx := kernel.NewProc();
      assert !BootedSlot(n, n).takeUp && idx == n;
    }
    ghost var t := kernel.procs[..];
    FirstCall(t, count);
    kernel.ProcPrioritySchedule();
    FirstChoice(t, count, kernel.current, A.WaitsOf(kernel.procs[..]));
    assert forall i | 0 <= i < slots :: kernel.procs[i].waiting == A.WaitsOf(kernel.procs[..])[i];
  }

  /** Slot `i` after `count` processes were created. */
  function BootedSlot(i: nat, count: nat): Proc {
    if i < count then NewSlot() else NewSlot().(takeUp := false, priority := 0)
  }

  /** A process just created whose first send blocks can be hit by process 0. */
  lemma NewProcessMisfires(s: Ipc, p: nat, to: nat, m: Msg, s': Ipc)
    requires Valid(s) && p < |s.t| && s.t[p] == NewSlot() && Step(s, Send(p, to, m), s') && !Accepts(s.t, p, to)
    ensures p < |s'.t| && Misfires(s', 0, p)
  {
    FirstSendMisfires(s, p, to, m, s');
  }

  lemma FirstCall(t: Table, count: nat)
    requires 0 < count <= |t| && forall i | 0 <= i < |t| :: t[i] == BootedSlot(i, count)
    ensures A.RunnersPositive(A.PrioritiesOf(t), A.RunnableOf(t))
    ensures A.HasLevel(A.WaitsOf(t), A.RunnableOf(t))
  {
    TakenSuffice(t);
    assert A.RunnableOf(t)[0] && A.WaitsOf(t)[0] == 0;
  }

  lemma FirstChoice(t: Table, count: nat, c: nat, w': A.Waits)
    requires 0 < count <= |t| && forall i | 0 <= i < |t| :: t[i] == BootedSlot(i, count)
    requires A.IsCall(A.WaitsOf(t), A.PrioritiesOf(t), A.RunnableOf(t), c, w')
    ensures c == 0 && |w'| == |t| && forall i | 0 <= i < |t| :: w'[i] == if 0 < i < count then 1 else 0
  {
    var b, pri := A.Aged(A.WaitsOf(t), A.RunnableOf(t)), A.PrioritiesOf(t);
    assert b[0] == 1 && pri[0] == 1;
    assert b[c] == 1 && pri[c] == 1;
    assert A.LevelLe(b[c], pri[c], b[0], pri[0]) && A.RunnableOf(t)[0];
  }

  // ------------------------------------------------- the methods as steps of the protocol

  /** Scheduling, which changes `status` and `waiting` only, is a `Schedule` step. */
  lemma SchedulingIsAStep(s: Ipc, t': Table)
    requires Valid(s) && |t'| == |s.t|
    requires forall i | 0 <= i < |t'| :: t'[i] == s.t[i].(status := t'[i].status, waiting := t'[i].waiting)
    ensures Step(s, Schedule, Ipc(t', s.q, s.role)) && Valid(Ipc(t', s.q, s.role))
  {
    forall i | 0 <= i < |s.t| ensures MessagePart(t'[i]) == MessagePart(s.t[i]) {}
    SamePartsSameLinks(s.t, t', s.q);
    ScheduleKeepsValid(s, Schedule, Ipc(t', s.q, s.role));
  }

  lemma SamePartsSameLinks(t: Table, t': Table, q: Queues)
    requires Linked(t, q) && SameMessageParts(t, t')
    ensures Linked(t', q)
  {
    hide Linked;
    forall i | 0 <= i < |t| ensures t'[i].msgHead == t[i].msgHead && t'[i].msgNext == t[i].msgNext {
      assert MessagePart(t'[i]) == MessagePart(t[i]);
    }
    SameLinks(t, t', q);
  }

  /**
   The message system calls keep the invariant of the protocol: a running process's `send` that
   does not hit the hole, with the rescheduling behind it, leads from a valid table to a valid one.
   */
  lemma SysSendKeepsValid(s: Ipc, from: nat, to: nat, m: Msg, mid: Table, q': Queues, now: Table)
    requires Valid(s) && Legal(s, Send(from, to, m)) && Sends(s.t, s.q, from, to, m, mid, q') && Linked(mid, q')
    requires |now| == |mid| && forall i | 0 <= i < |mid| :: now[i] == mid[i].(status := now[i].status)
    ensures Valid(Ipc(now, q', RolesAfter(s, Send(from, to, m))))
  {
    hide IsList;
    var e := Send(from, to, m);
    var s1 := Ipc(mid, q', RolesAfter(s, e));
    SendKeepsValid(s, e, s1);
    SchedulingIsAStep(s1, now);
  }

  lemma SysRecvKeepsValid(s: Ipc, to: nat, wanted: int, buffer: Msg, got: Option<Msg>, mid: Table, q': Queues,
                          now: Table)
    requires Valid(s) && Legal(s, Receive(to, wanted, buffer, got))
    requires Receives(s.t, s.q, to, wanted, buffer, mid, q', got) && Linked(mid, q')
    requires |now| == |mid| && forall i | 0 <= i < |mid| :: now[i] == mid[i].(status := now[i].status)
    ensures Valid(Ipc(now, q', RolesAfter(s, Receive(to, wanted, buffer, got))))
  {
    hide IsList;
    var e := Receive(to, wanted, buffer, got);
    var s1 := Ipc(mid, q', RolesAfter(s, e));
    ReceiveKeepsValid(s, e, s1);
    SchedulingIsAStep(s1, now);
  }

  /** The interrupt system calls: a raise by anybody, or a wait by a running process. */
  lemma SysInterruptKeepsValid(s: Ipc, e: Event, now: Table)
    requires Valid(s) && (e.Raise? || e.Wait?) && Legal(s, e) && |now| == |s.t|
    requires var mid := s.t[e.p := if e.Raise? then Raised(s.t[e.p], e.id) else Waited(s.t[e.p], e.id)];
             forall i | 0 <= i < |mid| :: now[i] == mid[i].(status := now[i].status)
    ensures Valid(Ipc(now, s.q, RolesAfter(s, e)))
  {
    hide Raised, Waited;
    var mid := s.t[e.p := if e.Raise? then Raised(s.t[e.p], e.id) else Waited(s.t[e.p], e.id)];
    InterruptStep(s, e, mid);
    var s1 := Ipc(mid, s.q, RolesAfter(s, e));
    InterruptKeepsValid(s, e, s1);
    SchedulingIsAStep(s1, now);
  }

  lemma InterruptStep(s: Ipc, e: Event, mid: Table)
    requires Valid(s) && (e.Raise? || e.Wait?) && Legal(s, e)
    requires mid == s.t[e.p := if e.Raise? then Raised(s.t[e.p], e.id) else Waited(s.t[e.p], e.id)]
    ensures Step(s, e, Ipc(mid, s.q, RolesAfter(s, e)))
  {
    SameLinks(s.t, mid, s.q);
  }
}
