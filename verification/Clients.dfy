/**
 The three real clients of message passing composed over one process table: the terminal
 (shell/shell_fs.c), the file system (fs/fs.c, fs/opt.c, fs/read.c, fs/write.c) and the disk
 driver (driver/hd.c). Every step of the composition is one legal-or-not call of module
 Messages; the invariant shows that all of them are legal.
 */
module Clients {
  import opened ProcTable
  import opened Messages
  import opened Successors

  const HD_INTERRUPT := 0xFFFF

  // request codes of include/msg.h
  predicate IsFsRequest(m: Msg) {
    m.kind == 0x10 || m.kind == 0x11 || m.kind == 0x12
  }

  predicate IsHdRequest(m: Msg) {
    m.kind == 0x02 || m.kind == 0x03
  }

  datatype Pids = Pids(tty: nat, fs: nat, hd: nat)

  /** Where each client is in its loop; a client is also blocked or not, as its role says. */
  datatype TtyPc = Idle | Asked | Awaiting
  datatype FsPc = FsReady | FsFetching | FsServing | FsCalled
  datatype HdPc = HdReady | HdFetching | HdFetched | HdWaited

  /**
   `work` is the number of disk calls that the present request still needs. `fsBuf` and `hdBuf`
   hold what the last ANY receive returned at once; `fsReq` and `hdReq` the request being served.
   The counters are the requests asked, replies sent and replies received.
   */
  datatype Local = Local(tty: TtyPc, fs: FsPc, hd: HdPc, work: nat,
                         fsBuf: Option<Msg>, hdBuf: Option<Msg>, fsReq: Msg, hdReq: Msg,
                         asked: nat, answered: nat, done: nat)

  datatype World = World(s: Ipc, l: Local)

  datatype Action =
    | TtyAsk(m: Msg, work: nat) | TtyAwait(buffer: Msg, got: Option<Msg>) | TtyDone
    | FsFetch(buffer: Msg, got: Option<Msg>) | FsTake | FsCall(m: Msg)
    | FsCollect(buffer: Msg, got: Option<Msg>) | FsReply(m: Msg)
    | HdFetch(buffer: Msg, got: Option<Msg>) | HdTake | HdWait | HdReply(m: Msg)
    | Interrupt | Reschedule

  /** The message in the buffer of an ANY receive that has returned. */
  function Fetched(buf: Option<Msg>, slot: Msg): Msg {
    match buf
    case Some(m) => m
    case None => slot
  }

  /** The call that a step makes; steps without one only change the client's own variables. */
  function CallOf(c: Pids, l: Local, a: Action): Option<Event> {
    match a
    case TtyAsk(m, _) => Some(Send(c.tty, c.fs, m))
    case TtyAwait(b, got) => Some(Receive(c.tty, c.fs, b, got))
    case TtyDone => None
    case FsFetch(b, got) => Some(Receive(c.fs, ANY, b, got))
    case FsTake => None
    case FsCall(m) => Some(Send(c.fs, c.hd, m))
    case FsCollect(b, got) => Some(Receive(c.fs, c.hd, b, got))
    case FsReply(m) => if l.fsReq.pid >= 0 then Some(Send(c.fs, l.fsReq.pid, m)) else None
    case HdFetch(b, got) => Some(Receive(c.hd, ANY, b, got))
    case HdTake => None
    case HdWait => Some(Wait(c.hd, HD_INTERRUPT))
    case HdReply(m) => if l.hdReq.pid >= 0 then Some(Send(c.hd, l.hdReq.pid, m)) else None
    case Interrupt => Some(Raise(c.hd, HD_INTERRUPT))
    case Reschedule => Some(Schedule)
  }

  /** All that the clients' progress depends on: their own variables, roles and message slots. */
  datatype View = View(c: Pids, l: Local, rt: Role, rf: Role, rh: Role, mt: Msg, mf: Msg, mh: Msg)

  ghost predicate HasPids(c: Pids, s: Ipc) {
    && |s.t| == |s.role|
    && c.tty < |s.t| && c.fs < |s.t| && c.hd < |s.t|
    && c.tty != c.fs && c.fs != c.hd && c.tty != c.hd
  }

  ghost function ViewOf(c: Pids, w: World): View
    requires HasPids(c, w.s)
  {
    View(c, w.l, w.s.role[c.tty], w.s.role[c.fs], w.s.role[c.hd],
         w.s.t[c.tty].msg, w.s.t[c.fs].msg, w.s.t[c.hd].msg)
  }

  /** The process that takes the step is at the right place of its loop and not blocked. */
  predicate Enabled(v: View, a: Action) {
    match a
    case TtyAsk(m, _) => v.l.tty == Idle && v.rt == Running && IsFsRequest(m) && m.pid == v.c.tty
    case TtyAwait(_, _) => v.l.tty == Asked && v.rt == Running
    case TtyDone => v.l.tty == Awaiting && v.rt == Running
    case FsFetch(_, _) => v.l.fs == FsReady && v.rf == Running
    case FsTake => v.l.fs == FsFetching && v.rf == Running
    case FsCall(m) => v.l.fs == FsServing && v.rf == Running && v.l.work > 0 && IsHdRequest(m) && m.pid == v.c.fs
    case FsCollect(_, _) => v.l.fs == FsCalled && v.rf == Running
    case FsReply(_) => v.l.fs == FsServing && v.rf == Running && v.l.work == 0
    case HdFetch(_, _) => v.l.hd == HdReady && v.rh == Running
    case HdTake => v.l.hd == HdFetching && v.rh == Running
    case HdWait => v.l.hd == HdFetched && v.rh == Running
    case HdReply(_) => v.l.hd == HdWaited && v.rh == Running
    case Interrupt => true
    case Reschedule => true
  }

  /** The clients' own variables after a step. */
  function Moved(v: View, a: Action): Local {
    var l := v.l;
    match a
    case TtyAsk(_, work) => l.(tty := Asked, work := work, asked := l.asked + 1)
    case TtyAwait(_, _) => l.(tty := Awaiting)
    case TtyDone => l.(tty := Idle, done := l.done + 1)
    case FsFetch(_, got) => l.(fs := FsFetching, fsBuf := got)
    case FsTake =>
      var m := Fetched(l.fsBuf, v.mf);
      l.(fsReq := m, fs := if IsFsRequest(m) then FsServing else FsReady)
    case FsCall(_) => l.(fs := FsCalled, work := if l.work > 0 then l.work - 1 else 0)
    case FsCollect(_, _) => l.(fs := FsServing)
    case FsReply(_) => l.(fs := FsReady, answered := l.answered + 1)
    case HdFetch(_, got) => l.(hd := HdFetching, hdBuf := got)
    case HdTake =>
      var m := Fetched(l.hdBuf, v.mh);
      l.(hdReq := m, hd := if IsHdRequest(m) then HdFetched else HdReady)
    case HdWait => l.(hd := HdWaited)
    case HdReply(_) => l.(hd := HdReady)
    case Interrupt => l
    case Reschedule => l
  }

  ghost predicate WorldStep(c: Pids, w: World, a: Action, w': World) {
    && HasPids(c, w.s) && Enabled(ViewOf(c, w), a)
    && w'.l == Moved(ViewOf(c, w), a)
    && match CallOf(c, w.l, a)
       case None => w'.s == w.s
       case Some(e) => Legal(w.s, e) ==> Step(w.s, e, w'.s)   // nothing is assumed of an illegal call
  }

  // ------------------------------------------------------------------------ invariant

  predicate TtyPlace(v: View) {
    match v.l.tty
    case Idle => v.rt == Running
    case Asked => v.rt == Running || v.rt == SendingTo(v.c.fs)
    case Awaiting => v.rt == Running || v.rt == ReceivingFrom(v.c.fs)
  }

  predicate FsPlace(v: View) {
    match v.l.fs
    case FsReady => v.rf == Running || v.rf == SendingTo(v.c.tty)
    case FsFetching => v.rf == Running || v.rf == ReceivingFrom(ANY)
    case FsServing => v.rf == Running || v.rf == ReceivingFrom(v.c.hd)
    case FsCalled => v.rf == Running || v.rf == SendingTo(v.c.hd)
  }

  predicate HdPlace(v: View) {
    match v.l.hd
    case HdReady => v.rh == Running || v.rh == SendingTo(v.c.fs)
    case HdFetching => v.rh == Running || v.rh == ReceivingFrom(ANY)
    case HdFetched => v.rh == Running
    case HdWaited => v.rh == Running || v.rh == WaitingInt
  }

  predicate FsFree(v: View) {
    (v.l.fs == FsReady && v.rf == Running) || (v.l.fs == FsFetching && v.rf == ReceivingFrom(ANY))
  }

  predicate FsWorking(v: View) {
    v.l.fs == FsServing || v.l.fs == FsCalled || (v.l.fs == FsFetching && v.rf == Running)
  }

  predicate HdFree(v: View) {
    (v.l.hd == HdReady && v.rh == Running) || (v.l.hd == HdFetching && v.rh == ReceivingFrom(ANY))
  }

  predicate HdWorking(v: View) {
    v.l.hd == HdFetched || v.l.hd == HdWaited || (v.l.hd == HdFetching && v.rh == Running)
  }

  /** The terminal's request, the file system's service of it, and the reply. */
  predicate TtyFsDialogue(v: View) {
    var l := v.l;
    match l.tty
    case Idle => FsFree(v) && l.asked == l.answered == l.done
    case Asked =>
      if v.rt == SendingTo(v.c.fs) then
        && l.fs == FsReady && v.rf == Running && l.asked == l.answered + 1 == l.done + 1
        && IsFsRequest(v.mt) && v.mt.pid == v.c.tty
      else
        || (FsWorking(v) && l.asked == l.answered + 1 == l.done + 1)
        || (l.fs == FsReady && v.rf == SendingTo(v.c.tty) && l.asked == l.answered == l.done + 1)
    case Awaiting =>
      if v.rt == Running then FsFree(v) && l.asked == l.answered == l.done + 1
      else FsWorking(v) && l.asked == l.answered + 1 == l.done + 1
  }

  /** One disk call of the file system, its interrupt and its completion message. */
  predicate FsHdDialogue(v: View) {
    if v.l.fs == FsCalled then
      if v.rf == SendingTo(v.c.hd) then
        v.l.hd == HdReady && v.rh == Running && IsHdRequest(v.mf) && v.mf.pid == v.c.fs
      else HdWorking(v) || (v.l.hd == HdReady && v.rh == SendingTo(v.c.fs))
    else if v.l.fs == FsServing && v.rf == ReceivingFrom(v.c.hd) then HdWorking(v)
    else HdFree(v)
  }

  /** A request being fetched or served carries the pid of its asker. */
  predicate RequestsMarked(v: View) {
    var l := v.l;
    && (l.fs == FsFetching && v.rf == Running ==>
          IsFsRequest(Fetched(l.fsBuf, v.mf)) && Fetched(l.fsBuf, v.mf).pid == v.c.tty)
    && (l.fs == FsFetching && v.rf != Running ==> l.fsBuf == None)
    && (l.fs == FsServing || l.fs == FsCalled ==> l.fsReq.pid == v.c.tty)
    && (l.hd == HdFetching && v.rh == Running ==>
          IsHdRequest(Fetched(l.hdBuf, v.mh)) && Fetched(l.hdBuf, v.mh).pid == v.c.fs)
    && (l.hd == HdFetching && v.rh != Running ==> l.hdBuf == None)
    && (l.hd == HdFetched || l.hd == HdWaited ==> l.hdReq.pid == v.c.fs)
  }

  predicate ViewInv(v: View) {
    && v.c.tty != v.c.fs && v.c.fs != v.c.hd && v.c.tty != v.c.hd
    && TtyPlace(v) && FsPlace(v) && HdPlace(v)
    && TtyFsDialogue(v) && FsHdDialogue(v) && RequestsMarked(v)
  }

  /** The table around the three clients. */
  ghost predicate TableInv(c: Pids, s: Ipc) {
    && Valid(s) && HasPids(c, s)
    // the other processes send nothing to these three
    && (forall p | 0 <= p < |s.t| && p != c.tty && p != c.fs && p != c.hd :: OthersKeepOut(c, s.role[p]))
    // only the disk interrupt is used
    && (s.t[c.hd].intStatus != NoInt ==> s.t[c.hd].interruptId == HD_INTERRUPT)
  }

  predicate OthersKeepOut(c: Pids, r: Role) {
    r != SendingTo(c.tty) && r != SendingTo(c.fs) && r != SendingTo(c.hd)
  }

  ghost predicate Inv(c: Pids, w: World) {
    TableInv(c, w.s) && ViewInv(ViewOf(c, w))
  }

  /** FS and HD blocked in their ANY receives and TTY idle, nothing in flight. */
  ghost predicate Start(c: Pids, w: World) {
    && TableInv(c, w.s)
    && w.l.tty == Idle && w.s.role[c.tty] == Running
    && w.l.fs == FsFetching && w.s.role[c.fs] == ReceivingFrom(ANY) && w.l.fsBuf == None
    && w.l.hd == HdFetching && w.s.role[c.hd] == ReceivingFrom(ANY) && w.l.hdBuf == None
    && w.l.asked == w.l.answered == w.l.done == 0
  }

  /** Three processes without queues: the first runs, the other two wait for any message. */
  function IdleTable(m: Msg): Ipc {
    var idle := Proc(true, ProcRunning, 1, 0, false, NoInt, 0, 0, 0, NULL, NULL, m);
    var waiting := idle.(msgBlock := true, recvFrom := ANY);
    Ipc([idle, waiting, waiting], [[], [], []], [Running, ReceivingFrom(ANY), ReceivingFrom(ANY)])
  }

  lemma IdleIsLinked(m: Msg)
    ensures Linked(IdleTable(m).t, IdleTable(m).q)
  {
    var s := IdleTable(m);
    forall r | 0 <= r < 3 ensures IsList(s.t, r, s.q[r]) {}
  }

  lemma IdleIsValid(m: Msg)
    ensures Valid(IdleTable(m))
  {
    hide Linked;
    var s := IdleTable(m);
    IdleIsLinked(m);
    forall p: nat | p < 3 ensures RoleHolds(s, p) {}
  }

  /** There is such a state, with the message slots `m`. */
  lemma StartExists(m: Msg)
    ensures exists c: Pids, w: World :: Start(c, w)
  {
    hide Valid;
    IdleIsValid(m);
    var l := Local(Idle, FsFetching, HdFetching, 0, None, None, m, m, 0, 0, 0);
    assert Start(Pids(0, 1, 2), World(IdleTable(m), l));
  }

  // ------------------------------------------------------------------- what calls change

  /** A send hands the message over, or blocks its caller; nothing else moves. */
  lemma SendOutcome(s: Ipc, from: nat, to: nat, m: Msg, s': Ipc)
    requires Valid(s) && Step(s, Send(from, to, m), s')
    ensures Valid(s') && |s'.t| == |s.t|
    ensures var direct := s.role[to].ReceivingFrom? && Matches(s.role[to].wanted, from);
            && s'.role == (if direct then s.role[to := Running] else s.role[from := SendingTo(to)])
            && (forall p | 0 <= p < |s.t| ::
                 s'.t[p].msg == if p == (if direct then to else from) then m else s.t[p].msg)
    ensures forall p | 0 <= p < |s.t| ::
              s'.t[p].intStatus == s.t[p].intStatus && s'.t[p].interruptId == s.t[p].interruptId
  {
    StepKeepsValid(s, Send(from, to, m), s');
    assert RoleHolds(s, to);
    var direct := Accepts(s.t, from, to);
    forall p | 0 <= p < |s.t|
      ensures s'.t[p].msg == if p == (if direct then to else from) then m else s.t[p].msg
      ensures s'.t[p].intStatus == s.t[p].intStatus && s'.t[p].interruptId == s.t[p].interruptId
    {
      assert Bare(s'.t[p]) == Bare(if direct then if p == to then s.t[to].(msg := m, msgBlock := false) else s.t[p]
                                   else if p == from then s.t[from].(msg := m, msgBlock := true, sendTo := to)
                                   else s.t[p]);
    }
  }

  lemma SoleSender(s: Ipc, r: nat, p: nat)
    requires Valid(s) && r < |s.t| && p < |s.t|
    requires forall x | 0 <= x < |s.t| && x != p :: s.role[x] != SendingTo(r)
    ensures s.q[r] == if s.role[p] == SendingTo(r) then [p] else []
  {
    var l := s.q[r];
    assert IsList(s.t, r, l) && NoDuplicates(l);
    assert p in l <==> s.role[p] == SendingTo(r);
    forall k | 0 <= k < |l| ensures l[k] == p {
      assert l[k] in l <==> s.role[l[k]] == SendingTo(r);
    }
  }

  /** A receive from the only process that may be queued takes its message, or blocks. */
  lemma ReceiveOutcome(s: Ipc, to: nat, wanted: int, b: Msg, got: Option<Msg>, s': Ipc, p: nat)
    requires Valid(s) && Step(s, Receive(to, wanted, b, got), s') && p < |s.t|
    requires forall x | 0 <= x < |s.t| && x != p :: s.role[x] != SendingTo(to)
    requires Matches(wanted, p)
    ensures Valid(s') && |s'.t| == |s.t|
    ensures if s.role[p] == SendingTo(to)
            then s'.role == s.role[p := Running] && got == Some(s.t[p].msg)
            else s'.role == s.role[to := ReceivingFrom(wanted)] && got == None
    ensures forall x | 0 <= x < |s.t| && x != to :: s'.t[x].msg == s.t[x].msg
    ensures forall x | 0 <= x < |s.t| ::
              s'.t[x].intStatus == s.t[x].intStatus && s'.t[x].interruptId == s.t[x].interruptId
  {
    StepKeepsValid(s, Receive(to, wanted, b, got), s');
    SoleSender(s, to, p);
    var k := MatchAt(s.q[to], wanted);
    forall x | 0 <= x < |s.t|
      ensures x != to ==> s'.t[x].msg == s.t[x].msg
      ensures s'.t[x].intStatus == s.t[x].intStatus && s'.t[x].interruptId == s.t[x].interruptId
    {
      assert Bare(s'.t[x]) == Bare(if k < |s.q[to]| then if x == s.q[to][k] then s.t[x].(msgBlock := false) else s.t[x]
                                   else if x == to then s.t[to].(msg := b, msgBlock := true, recvFrom := wanted)
                                   else s.t[x]);
    }
  }

  lemma InterruptOutcome(s: Ipc, e: Event, s': Ipc)
    requires Valid(s) && (e.Raise? || e.Wait?) && Step(s, e, s')
    requires s.t[e.p].intStatus != NoInt ==> s.t[e.p].interruptId == e.id
    ensures Valid(s') && |s'.t| == |s.t|
    ensures e.Raise? ==> s'.role == if s.role[e.p] == WaitingInt then s.role[e.p := Running] else s.role
    ensures e.Wait? ==> s'.role == s.role || s'.role == s.role[e.p := WaitingInt]
    ensures forall x | 0 <= x < |s.t| :: s'.t[x].msg == s.t[x].msg
    ensures s'.t[e.p].intStatus != NoInt ==> s'.t[e.p].interruptId == e.id
  {
    StepKeepsValid(s, e, s');
    assert RoleHolds(s, e.p);
    forall x | 0 <= x < |s.t|
      ensures s'.t[x].msg == s.t[x].msg
      ensures x == e.p && s'.t[x].intStatus != NoInt ==> s'.t[x].interruptId == e.id
    {
      assert Bare(s'.t[x]) == Bare(if x != e.p then s.t[x]
                                   else if e.Raise? then Raised(s.t[x], e.id) else Waited(s.t[x], e.id));
    }
  }

  // ------------------------------------------------------------- the steps, seen as views

  /** The effect of a step on the view. A send reaches a waiting target or blocks its caller. */
  predicate ViewStep(v: View, a: Action, v': View) {
    && Enabled(v, a)
    && v'.c == v.c && v'.l == Moved(v, a)
    && match a
       case TtyAsk(m, _) =>
         && v'.rh == v.rh && v'.mh == v.mh
         && (if v.rf.ReceivingFrom? && Matches(v.rf.wanted, v.c.tty)
             then v'.rf == Running && v'.mf == m && v'.rt == v.rt && v'.mt == v.mt
             else v'.rt == SendingTo(v.c.fs) && v'.mt == m && v'.rf == v.rf && v'.mf == v.mf)
       case TtyAwait(_, got) =>
         && v'.rh == v.rh && v'.mh == v.mh && v'.mf == v.mf
         && (if v.rf == SendingTo(v.c.tty) then v'.rf == Running && v'.rt == v.rt && got == Some(v.mf)
             else v'.rt == ReceivingFrom(v.c.fs) && v'.rf == v.rf && got == None)
       case TtyDone => v' == v.(l := v'.l)
       case FsFetch(_, got) =>
         && v'.rh == v.rh && v'.mh == v.mh && v'.mt == v.mt
         && (if v.rt == SendingTo(v.c.fs) then v'.rt == Running && v'.rf == v.rf && got == Some(v.mt)
             else v'.rf == ReceivingFrom(ANY) && v'.rt == v.rt && got == None)
       case FsTake => v' == v.(l := v'.l)
       case FsCall(m) =>
         && v'.rt == v.rt && v'.mt == v.mt
         && (if v.rh.ReceivingFrom? && Matches(v.rh.wanted, v.c.fs)
             then v'.rh == Running && v'.mh == m && v'.rf == v.rf && v'.mf == v.mf
             else v'.rf == SendingTo(v.c.hd) && v'.mf == m && v'.rh == v.rh && v'.mh == v.mh)
       case FsCollect(_, got) =>
         && v'.rt == v.rt && v'.mt == v.mt && v'.mh == v.mh
         && (if v.rh == SendingTo(v.c.fs) then v'.rh == Running && v'.rf == v.rf && got == Some(v.mh)
             else v'.rf == ReceivingFrom(v.c.hd) && v'.rh == v.rh && got == None)
       case FsReply(m) =>
         && v'.rh == v.rh && v'.mh == v.mh
         && (if v.rt.ReceivingFrom? && Matches(v.rt.wanted, v.c.fs)
             then v'.rt == Running && v'.mt == m && v'.rf == v.rf && v'.mf == v.mf
             else v'.rf == SendingTo(v.c.tty) && v'.mf == m && v'.rt == v.rt && v'.mt == v.mt)
       case HdFetch(_, got) =>
         && v'.rt == v.rt && v'.mt == v.mt && v'.mf == v.mf
         && (if v.rf == SendingTo(v.c.hd) then v'.rf == Running && v'.rh == v.rh && got == Some(v.mf)
             else v'.rh == ReceivingFrom(ANY) && v'.rf == v.rf && got == None)
       case HdTake => v' == v.(l := v'.l)
       case HdWait => v' == v.(l := v'.l) || v' == v.(l := v'.l, rh := WaitingInt)
       case HdReply(m) =>
         && v'.rt == v.rt && v'.mt == v.mt
         && (if v.rf.ReceivingFrom? && Matches(v.rf.wanted, v.c.hd)
             then v'.rf == Running && v'.mf == m && v'.rh == v.rh && v'.mh == v.mh
             else v'.rh == SendingTo(v.c.fs) && v'.mh == m && v'.rf == v.rf && v'.mf == v.mf)
       case Interrupt => v' == if v.rh == WaitingInt then v.(rh := Running) else v
       case Reschedule => v' == v
  }

  lemma ViewStepKeepsInv(v: View, a: Action, v': View)
    requires ViewInv(v) && ViewStep(v, a, v')
    ensures ViewInv(v')
  {
  }

  /** No call of the composition hits the hole of `msg_send`, or comes from a blocked process. */
  lemma CallIsLegal(c: Pids, w: World, a: Action)
    requires Inv(c, w) && Enabled(ViewOf(c, w), a)
    ensures CallOf(c, w.l, a).Some? ==> Legal(w.s, CallOf(c, w.l, a).value)
    ensures a.FsReply? ==> w.l.fsReq.pid == c.tty
    ensures a.HdReply? ==> w.l.hdReq.pid == c.fs
  {
  }

  lemma OnlyFrom(c: Pids, w: World, r: nat, p: nat)
    requires Inv(c, w) && ((r == c.tty && p == c.fs) || (r == c.hd && p == c.fs))
    ensures forall x | 0 <= x < |w.s.t| && x != p :: w.s.role[x] != SendingTo(r)
  {
    forall x | 0 <= x < |w.s.t| && x != p ensures w.s.role[x] != SendingTo(r) {
      assert x != c.tty && x != c.fs && x != c.hd ==> OthersKeepOut(c, w.s.role[x]);
    }
  }

  lemma OnlyOneToFs(c: Pids, w: World, p: nat)
    requires Inv(c, w) && (p == c.tty || p == c.hd)
    requires p == c.tty ==> w.s.role[c.hd] != SendingTo(c.fs)
    requires p == c.hd ==> w.s.role[c.tty] != SendingTo(c.fs)
    ensures forall x | 0 <= x < |w.s.t| && x != p :: w.s.role[x] != SendingTo(c.fs)
  {
    forall x | 0 <= x < |w.s.t| && x != p ensures w.s.role[x] != SendingTo(c.fs) {
      assert x != c.tty && x != c.fs && x != c.hd ==> OthersKeepOut(c, w.s.role[x]);
    }
  }

  /** The table after a call: the roles moved as in the view, and the others still keep out. */
  lemma TableKept(c: Pids, s: Ipc, s': Ipc)
    requires TableInv(c, s) && Valid(s') && |s'.t| == |s.t|
    requires forall p | 0 <= p < |s.t| && p != c.tty && p != c.fs && p != c.hd :: s'.role[p] == s.role[p]
    requires s'.t[c.hd].intStatus != NoInt ==> s'.t[c.hd].interruptId == HD_INTERRUPT
    ensures TableInv(c, s')
  {
    forall p | 0 <= p < |s'.t| && p != c.tty && p != c.fs && p != c.hd ensures OthersKeepOut(c, s'.role[p]) {
      assert OthersKeepOut(c, s.role[p]);
    }
  }

  lemma TtyAskView(c: Pids, w: World, a: Action, w': World)
    requires Inv(c, w) && WorldStep(c, w, a, w') && a.TtyAsk?
    ensures TableInv(c, w'.s) && ViewStep(ViewOf(c, w), a, ViewOf(c, w'))
  {
    hide Valid, Step, Legal;
    CallIsLegal(c, w, a);
    SendOutcome(w.s, c.tty, c.fs, a.m, w'.s);
    TableKept(c, w.s, w'.s);
  }

  lemma FsCallView(c: Pids, w: World, a: Action, w': World)
    requires Inv(c, w) && WorldStep(c, w, a, w') && a.FsCall?
    ensures TableInv(c, w'.s) && ViewStep(ViewOf(c, w), a, ViewOf(c, w'))
  {
    hide Valid, Step, Legal;
    CallIsLegal(c, w, a);
    SendOutcome(w.s, c.fs, c.hd, a.m, w'.s);
    TableKept(c, w.s, w'.s);
  }

  lemma FsReplyView(c: Pids, w: World, a: Action, w': World)
    requires Inv(c, w) && WorldStep(c, w, a, w') && a.FsReply?
    ensures TableInv(c, w'.s) && ViewStep(ViewOf(c, w), a, ViewOf(c, w'))
  {
    hide Valid, Step, Legal;
    CallIsLegal(c, w, a);
    SendOutcome(w.s, c.fs, c.tty, a.m, w'.s);
    TableKept(c, w.s, w'.s);
  }

  lemma HdReplyView(c: Pids, w: World, a: Action, w': World)
    requires Inv(c, w) && WorldStep(c, w, a, w') && a.HdReply?
    ensures TableInv(c, w'.s) && ViewStep(ViewOf(c, w), a, ViewOf(c, w'))
  {
    hide Valid, Step, Legal;
    CallIsLegal(c, w, a);
    SendOutcome(w.s, c.hd, c.fs, a.m, w'.s);
    TableKept(c, w.s, w'.s);
  }

  lemma TtyAwaitView(c: Pids, w: World, a: Action, w': World)
    requires Inv(c, w) && WorldStep(c, w, a, w') && a.TtyAwait?
    ensures TableInv(c, w'.s) && ViewStep(ViewOf(c, w), a, ViewOf(c, w'))
  {
    hide Valid, Step, Legal;
    CallIsLegal(c, w, a);
    OnlyFrom(c, w, c.tty, c.fs);
    ReceiveOutcome(w.s, c.tty, c.fs, a.buffer, a.got, w'.s, c.fs);
    TableKept(c, w.s, w'.s);
  }

  lemma FsFetchView(c: Pids, w: World, a: Action, w': World)
    requires Inv(c, w) && WorldStep(c, w, a, w') && a.FsFetch?
    ensures TableInv(c, w'.s) && ViewStep(ViewOf(c, w), a, ViewOf(c, w'))
  {
    hide Valid, Step, Legal;
    CallIsLegal(c, w, a);
    OnlyOneToFs(c, w, c.tty);
    ReceiveOutcome(w.s, c.fs, ANY, a.buffer, a.got, w'.s, c.tty);
    TableKept(c, w.s, w'.s);
  }

  lemma FsCollectView(c: Pids, w: World, a: Action, w': World)
    requires Inv(c, w) && WorldStep(c, w, a, w') && a.FsCollect?
    ensures TableInv(c, w'.s) && ViewStep(ViewOf(c, w), a, ViewOf(c, w'))
  {
    hide Valid, Step, Legal;
    CallIsLegal(c, w, a);
    OnlyOneToFs(c, w, c.hd);
    ReceiveOutcome(w.s, c.fs, c.hd, a.buffer, a.got, w'.s, c.hd);
    TableKept(c, w.s, w'.s);
  }

  lemma HdFetchView(c: Pids, w: World, a: Action, w': World)
    requires Inv(c, w) && WorldStep(c, w, a, w') && a.HdFetch?
    ensures TableInv(c, w'.s) && ViewStep(ViewOf(c, w), a, ViewOf(c, w'))
  {
    hide Valid, Step, Legal;
    CallIsLegal(c, w, a);
    OnlyFrom(c, w, c.hd, c.fs);
    ReceiveOutcome(w.s, c.hd, ANY, a.buffer, a.got, w'.s, c.fs);
    TableKept(c, w.s, w'.s);
  }

  lemma HdInterruptView(c: Pids, w: World, a: Action, w': World)
    requires Inv(c, w) && WorldStep(c, w, a, w') && (a.HdWait? || a.Interrupt?)
    ensures TableInv(c, w'.s) && ViewStep(ViewOf(c, w), a, ViewOf(c, w'))
  {
    hide Valid, Step, Legal;
    CallIsLegal(c, w, a);
    InterruptOutcome(w.s, if a.HdWait? then Wait(c.hd, HD_INTERRUPT) else Raise(c.hd, HD_INTERRUPT), w'.s);
    TableKept(c, w.s, w'.s);
  }

  lemma RescheduleView(c: Pids, w: World, a: Action, w': World)
    requires Inv(c, w) && WorldStep(c, w, a, w') && a.Reschedule?
    ensures TableInv(c, w'.s) && ViewStep(ViewOf(c, w), a, ViewOf(c, w'))
  {
    StepKeepsValid(w.s, Schedule, w'.s);
    assert MessagePart(w'.s.t[c.tty]) == MessagePart(w.s.t[c.tty]);
    assert MessagePart(w'.s.t[c.fs]) == MessagePart(w.s.t[c.fs]);
    assert MessagePart(w'.s.t[c.hd]) == MessagePart(w.s.t[c.hd]);
    TableKept(c, w.s, w'.s);
  }

  lemma LocalStepView(c: Pids, w: World, a: Action, w': World)
    requires Inv(c, w) && WorldStep(c, w, a, w') && (a.TtyDone? || a.FsTake? || a.HdTake?)
    ensures TableInv(c, w'.s) && ViewStep(ViewOf(c, w), a, ViewOf(c, w'))
  {
    hide Valid, ViewInv;
  }

  lemma WorldStepKeepsInv(c: Pids, w: World, a: Action, w': World)
    requires Inv(c, w) && WorldStep(c, w, a, w')
    ensures Inv(c, w') && ViewStep(ViewOf(c, w), a, ViewOf(c, w'))
  {
    hide Valid, ViewInv, ViewStep, WorldStep;
    match a {
      case TtyAsk(_, _) => TtyAskView(c, w, a, w');
      case TtyAwait(_, _) => TtyAwaitView(c, w, a, w');
      case FsFetch(_, _) => FsFetchView(c, w, a, w');
      case FsCall(_) => FsCallView(c, w, a, w');
      case FsCollect(_, _) => FsCollectView(c, w, a, w');
      case FsReply(_) => FsReplyView(c, w, a, w');
      case HdFetch(_, _) => HdFetchView(c, w, a, w');
      case HdReply(_) => HdReplyView(c, w, a, w');
      case HdWait => HdInterruptView(c, w, a, w');
      case Interrupt => HdInterruptView(c, w, a, w');
      case Reschedule => RescheduleView(c, w, a, w');
      case _ => LocalStepView(c, w, a, w');
    }
    ViewStepKeepsInv(ViewOf(c, w), a, ViewOf(c, w'));
  }

  // -------------------------------------------------------------------------- whole runs

  ghost predicate IsWorldRun(c: Pids, ws: seq<World>, acts: seq<Action>) {
    && |ws| == |acts| + 1
    && Start(c, ws[0])
    && (forall k | 0 <= k < |acts| :: WorldStep(c, ws[k], acts[k], ws[k+1]))
  }

  lemma {:induction false} RunKeepsInv(c: Pids, ws: seq<World>, acts: seq<Action>, k: nat)
    requires IsWorldRun(c, ws, acts) && k <= |acts|
    ensures Inv(c, ws[k])
  {
    if k > 0 {
      RunKeepsInv(c, ws, acts, k - 1);
      WorldStepKeepsInv(c, ws[k-1], acts[k-1], ws[k]);
    }
  }

  /**
   In every interleaving every call is legal: in particular no message is ever copied into the
   buffer of a process that is blocked as a sender.
   */
  lemma NoMisfireInAnyRun(c: Pids, ws: seq<World>, acts: seq<Action>, k: nat)
    requires IsWorldRun(c, ws, acts) && k < |acts|
    ensures HasPids(c, ws[k].s)
    ensures var e := CallOf(c, ws[k].l, acts[k]);
            e.Some? ==> Legal(ws[k].s, e.value) && Step(ws[k].s, e.value, ws[k+1].s)
  {
    RunKeepsInv(c, ws, acts, k);
    assert WorldStep(c, ws[k], acts[k], ws[k+1]);
    CallIsLegal(c, ws[k], acts[k]);
  }

  predicate IsClientStep(a: Action) {
    !a.Interrupt? && !a.Reschedule?
  }

  /** Nobody is stuck: a client can take a step, to a state that is there, or the driver waits for its interrupt. */
  lemma NoDeadlock(c: Pids, ws: seq<World>, acts: seq<Action>, k: nat)
    requires IsWorldRun(c, ws, acts) && k <= |acts|
    ensures HasPids(c, ws[k].s)
    ensures var s := ws[k].s;
            || (exists a, w' :: IsClientStep(a) && WorldStep(c, ws[k], a, w'))
            || (s.role[c.hd] == WaitingInt && s.t[c.hd].intStatus == WaitInt)
  {
    RunKeepsInv(c, ws, acts, k);
    assert RoleHolds(ws[k].s, c.hd);
    if ws[k].s.role[c.hd] != WaitingInt {
      var a, w' := StepExists(c, ws[k]);
      assert IsClientStep(a) && WorldStep(c, ws[k], a, w');
    }
  }

  /** The action that is due next. */
  function Due(v: View): (a: Action)
    requires ViewInv(v) && v.rh != WaitingInt
    ensures IsClientStep(a) && Enabled(v, a)
  {
    var m := v.mt;
    if v.rt == Running then
      match v.l.tty
      case Idle => TtyAsk(m.(kind := 0x10, pid := v.c.tty), 0)
      case Asked => TtyAwait(m, None)
      case Awaiting => TtyDone
    else if v.rf == Running then
      match v.l.fs
      case FsReady => FsFetch(m, None)
      case FsFetching => FsTake
      case FsServing => if v.l.work > 0 then FsCall(m.(kind := 0x02, pid := v.c.fs)) else FsReply(m)
      case FsCalled => FsCollect(m, None)
    else
      match v.l.hd
      case HdReady => HdFetch(m, None)
      case HdFetching => HdTake
      case HdFetched => HdWait
      case HdWaited => HdReply(m)
  }

  /** A receiving action that gets `got`, any other as it is. */
  function Getting(a: Action, got: Option<Msg>): Action {
    match a
    case TtyAwait(b, _) => TtyAwait(b, got)
    case FsFetch(b, _) => FsFetch(b, got)
    case FsCollect(b, _) => FsCollect(b, got)
    case HdFetch(b, _) => HdFetch(b, got)
    case _ => a
  }

  lemma GettingIsEnabled(v: View, l: Local, a: Action, got: Option<Msg>)
    requires Enabled(v, a) && IsClientStep(a)
    ensures Enabled(v, Getting(a, got)) && IsClientStep(Getting(a, got))
    ensures var x, y := CallOf(v.c, l, a), CallOf(v.c, l, Getting(a, got));
            && (x.Some? <==> y.Some?)
            && (x.Some? ==> y.value == if x.value.Receive? then x.value.(got := got) else x.value)
  {
  }

  /** The call of an enabled action can be made. */
  lemma StepExists(c: Pids, w: World) returns (a: Action, w': World)
    requires Inv(c, w) && w.s.role[c.hd] != WaitingInt
    ensures IsClientStep(a) && WorldStep(c, w, a, w')
  {
    hide ViewInv, Step, Enabled, CallOf, Moved, TableInv, Legal;
    DueIsLegal(c, w);
    var due := Due(ViewOf(c, w));
    var call, s', got := CallOf(c, w.l, due), w.s, None;
    if call.Some? {
      var n, r := CallHasSuccessor(w.s, call.value);
      got, s' := n, r;
    }
    a := Getting(due, got);
    GettingIsEnabled(ViewOf(c, w), w.l, due, got);
    w' := World(s', Moved(ViewOf(c, w), a));
  }

  lemma DueIsLegal(c: Pids, w: World)
    requires Inv(c, w) && w.s.role[c.hd] != WaitingInt
    ensures Valid(w.s) && HasPids(c, w.s) && ViewInv(ViewOf(c, w))
    ensures var call := CallOf(c, w.l, Due(ViewOf(c, w)));
            call.Some? ==> Legal(w.s, call.value) && !call.value.Raise? && !call.value.Schedule?
  {
    CallIsLegal(c, w, Due(ViewOf(c, w)));
  }

  /** Every legal call of a client has a successor, if it receives what there is to receive. */
  lemma CallHasSuccessor(s: Ipc, e: Event) returns (got: Option<Msg>, s': Ipc)
    requires Valid(s) && Legal(s, e) && !e.Raise? && !e.Schedule?
    ensures Step(s, if e.Receive? then e.(got := got) else e, s')
  {
    hide Valid, Step;
    got := None;
    match e {
      case Send(from, to, m) => s' := SendHasSuccessor(s, from, to, m);
      case Receive(to, wanted, buffer, _) => got, s' := ReceiveHasSuccessor(s, to, wanted, buffer);
      case Wait(p, id) => s' := WaitHasSuccessor(s, p, id);
      case Raise(_, _) => assert false;
      case Schedule => assert false;
    }
  }

  /** Replies never outrun requests, and a terminal that is idle again has had one for each. */
  lemma RepliesMatchRequests(c: Pids, ws: seq<World>, acts: seq<Action>, k: nat)
    requires IsWorldRun(c, ws, acts) && k <= |acts|
    ensures ws[k].l.done <= ws[k].l.answered <= ws[k].l.asked <= ws[k].l.done + 1
    ensures ws[k].l.tty == Idle ==> ws[k].l.asked == ws[k].l.answered == ws[k].l.done
  {
    RunKeepsInv(c, ws, acts, k);
  }

  // ------------------------------------------------------------------- the reply arrives

  /** What serving still costs when `work` disk calls remain. */
  function ServeCost(work: nat): nat {
    2 + 6 * work
  }

  /** How many client steps are left before everything is quiet and the terminal has its reply. */
  function Rank(v: View): nat {
    var t := match v.l.tty
             case Idle => 0
             case Awaiting => 1
             case Asked => if v.rt == Running then 2 else 4 + ServeCost(v.l.work);
    var f := match v.l.fs
             case FsReady => 1
             case FsFetching => if v.rf == Running then ServeCost(v.l.work) + 1 else 0
             case FsServing => ServeCost(v.l.work)
             case FsCalled => ServeCost(v.l.work) + if v.rf == Running then 1 else 5;
    var h := match v.l.hd
             case HdReady => 1
             case HdFetching => if v.rh == Running then 4 else 0
             case HdFetched => 3
             case HdWaited => 2;
    t + f + h
  }

  /** Every client step but a new request brings the reply closer; interrupts undo nothing. */
  lemma StepLowersRank(v: View, a: Action, v': View)
    requires ViewInv(v) && ViewStep(v, a, v') && !a.TtyAsk?
    ensures Rank(v') + (if IsClientStep(a) then 1 else 0) <= Rank(v)
  {
  }

  function ClientSteps(acts: seq<Action>, from: nat, to: nat): nat
    requires from <= to <= |acts|
  {
    if from == to then 0 else ClientSteps(acts, from, to - 1) + if IsClientStep(acts[to-1]) then 1 else 0
  }

  lemma {:induction false} RankBoundsSteps(c: Pids, ws: seq<World>, acts: seq<Action>, from: nat, to: nat)
    requires IsWorldRun(c, ws, acts) && from <= to <= |acts|
    requires forall k | from <= k < to :: !acts[k].TtyAsk?
    ensures Inv(c, ws[from]) && Inv(c, ws[to])
    ensures Rank(ViewOf(c, ws[to])) + ClientSteps(acts, from, to) <= Rank(ViewOf(c, ws[from]))
  {
    RunKeepsInv(c, ws, acts, from);
    RunKeepsInv(c, ws, acts, to);
    if from < to {
      RankBoundsSteps(c, ws, acts, from, to - 1);
      WorldStepKeepsInv(c, ws[to-1], acts[to-1], ws[to]);
      StepLowersRank(ViewOf(c, ws[to-1]), acts[to-1], ViewOf(c, ws[to]));
    }
  }

  lemma {:induction false} DoneGrows(c: Pids, ws: seq<World>, acts: seq<Action>, from: nat, to: nat)
    requires IsWorldRun(c, ws, acts) && from <= to <= |acts|
    ensures ws[from].l.done <= ws[to].l.done
    ensures ws[from].l.tty != Idle && ws[to].l.tty == Idle ==> ws[from].l.done < ws[to].l.done
  {
    if from < to {
      DoneGrows(c, ws, acts, from, to - 1);
      assert WorldStep(c, ws[to-1], acts[to-1], ws[to]);
    }
  }

  /**
   Every request is answered: from a state with a request outstanding, any run in which the
   clients take at least `Rank` steps, however interrupts and schedules fall, contains the
   receipt of its reply.
   */
  lemma RequestIsAnswered(c: Pids, ws: seq<World>, acts: seq<Action>, from: nat, to: nat)
    requires IsWorldRun(c, ws, acts) && from <= to <= |acts| && ws[from].l.tty != Idle
    ensures Inv(c, ws[from])
    ensures ClientSteps(acts, from, to) >= Rank(ViewOf(c, ws[from])) ==>
              exists k | from < k <= to :: ws[k].l.done > ws[from].l.done
  {
    RunKeepsInv(c, ws, acts, from);
    if ClientSteps(acts, from, to) >= Rank(ViewOf(c, ws[from])) {
      if forall k | from <= k < to :: !acts[k].TtyAsk? {
        NoAskIsAnswered(c, ws, acts, from, to);
      } else {
        var k :| from <= k < to && acts[k].TtyAsk?;
        AskWasAnswered(c, ws, acts, from, k);
      }
    }
  }

  lemma NoAskIsAnswered(c: Pids, ws: seq<World>, acts: seq<Action>, from: nat, to: nat)
    requires IsWorldRun(c, ws, acts) && from <= to <= |acts| && ws[from].l.tty != Idle
    requires forall k | from <= k < to :: !acts[k].TtyAsk?
    requires Inv(c, ws[from]) && ClientSteps(acts, from, to) >= Rank(ViewOf(c, ws[from]))
    ensures ws[to].l.done > ws[from].l.done
  {
    hide WorldStep, ViewInv, Valid, Rank;
    RankBoundsSteps(c, ws, acts, from, to);
    RankZero(ViewOf(c, ws[to]));
    DoneGrows(c, ws, acts, from, to);
  }

  lemma RankZero(v: View)
    requires Rank(v) == 0
    ensures v.l.tty == Idle
  {
  }

  /** A new request means that the one before it was answered. */
  lemma AskWasAnswered(c: Pids, ws: seq<World>, acts: seq<Action>, from: nat, k: nat)
    requires IsWorldRun(c, ws, acts) && from <= k < |acts| && ws[from].l.tty != Idle && acts[k].TtyAsk?
    ensures from < k && ws[k].l.done > ws[from].l.done
  {
    assert WorldStep(c, ws[k], acts[k], ws[k+1]);
    DoneGrows(c, ws, acts, from, k);
  }

  /** `ws` are the worlds before, between and after the actions, from any world on. */
  ghost predicate IsPath(c: Pids, ws: seq<World>, acts: seq<Action>) {
    && |ws| == |acts| + 1
    && (forall k | 0 <= k < |acts| :: WorldStep(c, ws[k], acts[k], ws[k+1]))
  }

  lemma PathBefore(c: Pids, w: World, a: Action, ws: seq<World>, acts: seq<Action>)
    requires IsPath(c, ws, acts) && WorldStep(c, w, a, ws[0])
    ensures IsPath(c, [w] + ws, [a] + acts) && ([w] + ws)[|acts| + 1] == ws[|acts|]
  {
    hide WorldStep;
    forall k | 0 <= k < |acts| + 1 ensures WorldStep(c, ([w] + ws)[k], ([a] + acts)[k], ([w] + ws)[k+1]) {
      if k > 0 { assert WorldStep(c, ws[k-1], acts[k-1], ws[k]); }
    }
  }

  lemma InterruptExists(c: Pids, w: World) returns (w': World)
    requires Inv(c, w) && w.s.role[c.hd] == WaitingInt
    ensures WorldStep(c, w, Interrupt, w') && Inv(c, w') && w'.l == w.l
    ensures w'.s.role[c.hd] == Running && Rank(ViewOf(c, w')) <= Rank(ViewOf(c, w))
  {
    hide Step, Valid, ViewInv, Rank;
    var s' := RaiseSuccessor(c, w);
    w' := World(s', w.l);
    WorldStepKeepsInv(c, w, Interrupt, w');
    ViewInvOf(c, w);
    StepLowersRank(ViewOf(c, w), Interrupt, ViewOf(c, w'));
  }

  lemma RaiseSuccessor(c: Pids, w: World) returns (s': Ipc)
    requires Inv(c, w)
    ensures Step(w.s, Raise(c.hd, HD_INTERRUPT), s')
  {
    s' := RaiseHasSuccessor(w.s, c.hd, HD_INTERRUPT);
  }

  /** A client step, the invariant after it, and how far it comes. */
  lemma ProgressExists(c: Pids, w: World) returns (a: Action, w': World)
    requires Inv(c, w) && w.s.role[c.hd] != WaitingInt && w.l.tty != Idle
    ensures WorldStep(c, w, a, w') && Inv(c, w') && Rank(ViewOf(c, w')) < Rank(ViewOf(c, w))
    ensures w'.l.done > w.l.done || (w'.l.done == w.l.done && w'.l.tty != Idle)
  {
    hide Step, Valid, ViewInv, Rank;
    a, w' := StepExists(c, w);
    WorldStepKeepsInv(c, w, a, w');
    ViewInvOf(c, w);
    StepLowersRank(ViewOf(c, w), a, ViewOf(c, w'));
  }

  lemma ViewInvOf(c: Pids, w: World)
    requires Inv(c, w)
    ensures ViewInv(ViewOf(c, w))
  {
  }

  /**
   From every state with a request outstanding there is a continuation in which its reply arrives:
   the clients' own steps, and the interrupt whenever the driver waits for it.
   */
  lemma {:induction false} ReplyIsReachable(c: Pids, w: World) returns (ws: seq<World>, acts: seq<Action>)
    requires Inv(c, w) && w.l.tty != Idle
    ensures IsPath(c, ws, acts) && ws[0] == w && ws[|acts|].l.done > w.l.done
    decreases Rank(ViewOf(c, w)), w.s.role[c.hd] == WaitingInt
  {
    hide Inv, WorldStep, Rank;
    HasPidsOf(c, w);
    var a, w' := Interrupt, w;
    if w.s.role[c.hd] == WaitingInt {
      w' := InterruptExists(c, w);
      HasPidsOf(c, w');
    } else {
      a, w' := ProgressExists(c, w);
      HasPidsOf(c, w');
    }
    if w'.l.done > w.l.done {
      ws, acts := [w, w'], [a];
    } else {
      var rest, more := ReplyIsReachable(c, w');
      PathBefore(c, w, a, rest, more);
      ws, acts := [w] + rest, [a] + more;
    }
  }

  lemma HasPidsOf(c: Pids, w: World)
    requires Inv(c, w)
    ensures HasPids(c, w.s)
  {
  }
}
