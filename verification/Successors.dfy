/**
 Every legal call of message passing has a successor state: the table that the code leaves.
 */
module Successors {
  import opened ProcTable
  import opened Sequences
  import opened Messages
  import opened ListSurgery

  /** The last sender of a list, or nobody. */
  function LastOf(l: seq<nat>): int {
    if l == [] then NULL else l[|l|-1]
  }

  /** The table with `from` hung behind the list `l` of `to`. */
  function Hung(t: Table, l: seq<nat>, from: nat, to: nat): (r: Table)
    ensures |r| == |t|
  {
    seq(|t|, i requires 0 <= i < |t| =>
      t[i].(msgHead := if i == to && l == [] then from else t[i].msgHead,
            msgNext := if i == from then NULL else if i == LastOf(l) then from else t[i].msgNext))
  }

  /** The table with the sender at place `k` of the list `l` of `to` taken out. */
  function TakenOut(t: Table, l: seq<nat>, to: nat, k: nat): (r: Table)
    requires k < |l| && l[k] < |t|
    ensures |r| == |t|
  {
    seq(|t|, i requires 0 <= i < |t| =>
      t[i].(msgHead := if i == to && k == 0 then t[l[k]].msgNext else t[i].msgHead,
            msgNext := if k > 0 && i == l[k-1] then t[l[k]].msgNext else t[i].msgNext))
  }

  /** A running process is on no list. */
  lemma RunningIsNotQueued(s: Ipc, p: nat)
    requires Valid(s) && p < |s.t| && s.role[p] == Running
    ensures !Queued(s.q, p)
  {
    forall r | 0 <= r < |s.q| ensures p !in s.q[r] {
      assert p in s.q[r] <==> s.role[p] == SendingTo(r);
    }
  }

  lemma SendHasSuccessor(s: Ipc, from: nat, to: nat, m: Msg) returns (s': Ipc)
    requires Valid(s) && Legal(s, Send(from, to, m))
    ensures Step(s, Send(from, to, m), s')
  {
    var role := RolesAfter(s, Send(from, to, m));
    if Accepts(s.t, from, to) {
      var t' := s.t[to := s.t[to].(msg := m, msgBlock := false)];
      SameLinks(s.t, t', s.q);
      s' := Ipc(t', s.q, role);
    } else {
      var mid := s.t[from := s.t[from].(msg := m, msgBlock := true, sendTo := to)];
      var t', q' := Hung(mid, s.q[to], from, to), s.q[to := s.q[to] + [from]];
      RunningIsNotQueued(s, from);
      HungIsLinked(s.t, s.q, mid, from, to);
      s' := Ipc(t', q', role);
    }
  }

  lemma HungIsLinked(t: Table, q: Queues, mid: Table, from: nat, to: nat)
    requires Linked(t, q) && |mid| == |t| && from < |t| && to < |t| && !Queued(q, from)
    requires forall i | 0 <= i < |t| :: mid[i].msgHead == t[i].msgHead && mid[i].msgNext == t[i].msgNext
    ensures Linked(Hung(mid, q[to], from, to), q[to := q[to] + [from]])
  {
    hide Linked, IsList;
    ListStart(t, q, to);
    if q[to] != [] {
      ListNext(t, q, to, |q[to]| - 1);
      assert q[to][|q[to]|-1] in q[to];
    }
    AppendKeepsLinked(t, q, Hung(mid, q[to], from, to), from, to);
  }

  lemma ReceiveHasSuccessor(s: Ipc, to: nat, wanted: int, buffer: Msg) returns (got: Option<Msg>, s': Ipc)
    requires Valid(s) && Legal(s, Receive(to, wanted, buffer, None))
    ensures Step(s, Receive(to, wanted, buffer, got), s')
  {
    var k := MatchAt(s.q[to], wanted);
    if k < |s.q[to]| {
      ListNext(s.t, s.q, to, k);
      var sender := s.q[to][k];
      var mid := s.t[sender := s.t[sender].(msgBlock := false)];
      got := Some(s.t[sender].msg);
      TakenOutIsLinked(s.t, s.q, mid, to, k);
      s' := Ipc(TakenOut(mid, s.q[to], to, k), s.q[to := Without(s.q[to], k)],
                RolesAfter(s, Receive(to, wanted, buffer, got)));
    } else {
      var t' := s.t[to := s.t[to].(msg := buffer, msgBlock := true, recvFrom := wanted)];
      got := None;
      SameLinks(s.t, t', s.q);
      s' := Ipc(t', s.q, RolesAfter(s, Receive(to, wanted, buffer, got)));
    }
  }

  lemma TakenOutIsLinked(t: Table, q: Queues, mid: Table, to: nat, k: nat)
    requires Linked(t, q) && |mid| == |t| && to < |t| && k < |q[to]| && q[to][k] < |t|
    requires forall i | 0 <= i < |t| :: mid[i].msgHead == t[i].msgHead && mid[i].msgNext == t[i].msgNext
    ensures Linked(TakenOut(mid, q[to], to, k), q[to := Without(q[to], k)])
  {
    assert IsList(t, to, q[to]);
    UnlinkKeepsLinked(t, q, TakenOut(mid, q[to], to, k), to, k);
  }

  lemma WaitHasSuccessor(s: Ipc, p: nat, id: int) returns (s': Ipc)
    requires Valid(s) && Legal(s, Wait(p, id))
    ensures Step(s, Wait(p, id), s')
  {
    var t' := s.t[p := Waited(s.t[p], id)];
    SameLinks(s.t, t', s.q);
    s' := Ipc(t', s.q, RolesAfter(s, Wait(p, id)));
  }

  lemma RaiseHasSuccessor(s: Ipc, p: nat, id: int) returns (s': Ipc)
    requires Valid(s) && p < |s.t|
    ensures Step(s, Raise(p, id), s')
  {
    var t' := s.t[p := Raised(s.t[p], id)];
    SameLinks(s.t, t', s.q);
    s' := Ipc(t', s.q, RolesAfter(s, Raise(p, id)));
  }
}
