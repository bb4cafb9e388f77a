/**
 The linked lists of senders under the writes of msg/msg.c: hanging a sender behind the last one,
 and taking one out.
 */
module ListSurgery {
  import opened ProcTable
  import opened Sequences
  import opened Messages

  lemma ListStart(t: Table, q: Queues, r: nat)
    requires Linked(t, q) && r < |t|
    ensures |q| == |t| && t[r].msgHead == HeadOf(q[r])
  {
    assert IsList(t, r, q[r]);
  }

  lemma ListNext(t: Table, q: Queues, r: nat, k: nat)
    requires Linked(t, q) && r < |t| == |q| && k < |q[r]|
    ensures q[r][k] < |t| && t[q[r][k]].msgNext == NextOf(q[r], k)
  {
    assert IsList(t, r, q[r]);
  }

  /** Changing no list pointer keeps the lists. */
  lemma SameLinks(t: Table, t': Table, q: Queues)
    requires Linked(t, q) && |t'| == |t|
    requires forall i | 0 <= i < |t| :: t'[i].msgHead == t[i].msgHead && t'[i].msgNext == t[i].msgNext
    ensures Linked(t', q)
  {
    forall r | 0 <= r < |t| ensures IsList(t', r, q[r]) {
      assert IsList(t, r, q[r]);
    }
  }

  /** `t'` is `t` with `from` hung behind the last sender of `to`'s list. */
  lemma AppendKeepsLinked(t: Table, q: Queues, t': Table, from: nat, to: nat)
    requires Linked(t, q) && |t'| == |t| && from < |t| && to < |t| && !Queued(q, from)
    requires t'[from].msgNext == NULL
    requires forall i | 0 <= i < |t| && !(i == to && q[to] == []) :: t'[i].msgHead == t[i].msgHead
    requires forall i | 0 <= i < |t| && i != from && !(q[to] != [] && i == q[to][|q[to]|-1]) ::
               t'[i].msgNext == t[i].msgNext
    requires q[to] == [] ==> t'[to].msgHead == from
    requires q[to] != [] ==> t'[q[to][|q[to]|-1]].msgNext == from
    ensures Linked(t', q[to := q[to] + [from]])
  {
    var q' := q[to := q[to] + [from]];
    forall r | 0 <= r < |t| ensures IsList(t', r, q'[r]) && NoDuplicates(q'[r]) {
      AppendKeepsList(t, q, t', from, to, r);
    }
    forall r1, r2, p | 0 <= r1 < r2 < |t| ensures !(p in q'[r1] && p in q'[r2]) {
      assert from !in q[r1] && from !in q[r2];
    }
  }

  lemma AppendKeepsList(t: Table, q: Queues, t': Table, from: nat, to: nat, r: nat)
    requires Linked(t, q) && |t'| == |t| && from < |t| && to < |t| && !Queued(q, from) && r < |t|
    requires t'[from].msgNext == NULL
    requires forall i | 0 <= i < |t| && !(i == to && q[to] == []) :: t'[i].msgHead == t[i].msgHead
    requires forall i | 0 <= i < |t| && i != from && !(q[to] != [] && i == q[to][|q[to]|-1]) ::
               t'[i].msgNext == t[i].msgNext
    requires q[to] == [] ==> t'[to].msgHead == from
    requires q[to] != [] ==> t'[q[to][|q[to]|-1]].msgNext == from
    ensures var s := if r == to then q[to] + [from] else q[r]; IsList(t', r, s) && NoDuplicates(s)
  {
    assert IsList(t, r, q[r]) && NoDuplicates(q[r]) && from !in q[r];
    if r == to {
      AppendToList(t, t', q[to], from, to);
    } else {
      forall k | 0 <= k < |q[r]| ensures t'[q[r][k]].msgNext == t[q[r][k]].msgNext {
        assert q[r][k] in q[r];
        if q[to] != [] { assert q[to][|q[to]|-1] in q[to]; }
      }
    }
  }

  lemma AppendToList(t: Table, t': Table, l: seq<nat>, from: nat, to: nat)
    requires |t'| == |t| && from < |t| && to < |t| && IsList(t, to, l) && NoDuplicates(l) && from !in l
    requires t'[from].msgNext == NULL
    requires l == [] ==> t'[to].msgHead == from
    requires l != [] ==> t'[to].msgHead == t[to].msgHead && t'[l[|l|-1]].msgNext == from
    requires forall i | 0 <= i < |t| && i != from && !(l != [] && i == l[|l|-1]) :: t'[i].msgNext == t[i].msgNext
    ensures IsList(t', to, l + [from]) && NoDuplicates(l + [from])
  {
    var s := l + [from];
    forall k | 0 <= k < |s| ensures s[k] < |t| && t'[s[k]].msgNext == NextOf(s, k) {
      if k < |l| {
        assert l[k] in l;
        assert t[l[k]].msgNext == NextOf(l, k);
      }
    }
  }

  /** `t'` is `t` with the sender at place `k` of `to`'s list taken out. */
  lemma UnlinkKeepsLinked(t: Table, q: Queues, t': Table, to: nat, k: nat)
    requires Linked(t, q) && |t'| == |t| && to < |t| && k < |q[to]|
    requires forall i | 0 <= i < |t| && !(i == to && k == 0) :: t'[i].msgHead == t[i].msgHead
    requires forall i | 0 <= i < |t| && !(k > 0 && i == q[to][k-1]) :: t'[i].msgNext == t[i].msgNext
    requires IsList(t, to, q[to])
    requires k == 0 ==> t'[to].msgHead == t[q[to][k]].msgNext
    requires k > 0 ==> t'[q[to][k-1]].msgNext == t[q[to][k]].msgNext
    ensures Linked(t', q[to := Without(q[to], k)])
  {
    hide IsList, NoDuplicates;
    var q' := q[to := Without(q[to], k)];
    forall r | 0 <= r < |t| ensures IsList(t', r, q'[r]) && NoDuplicates(q'[r]) {
      UnlinkKeepsList(t, q, t', to, k, r);
    }
    forall r1, r2, p: nat | 0 <= r1 < r2 < |t| ensures !(p in q'[r1] && p in q'[r2]) {
      UnlinkDisjoint(t, q, to, k, r1, r2, p);
    }
  }

  lemma UnlinkDisjoint(t: Table, q: Queues, to: nat, k: nat, r1: nat, r2: nat, p: nat)
    requires Linked(t, q) && to < |t| && k < |q[to]| && r1 < r2 < |t|
    ensures var q' := q[to := Without(q[to], k)]; !(p in q'[r1] && p in q'[r2])
  {
    assert NoDuplicates(q[to]);
    WithoutMembers(q[to], k, p);
    assert !(p in q[r1] && p in q[r2]);
  }

  lemma UnlinkKeepsList(t: Table, q: Queues, t': Table, to: nat, k: nat, r: nat)
    requires Linked(t, q) && |t'| == |t| && to < |t| && k < |q[to]| && r < |t|
    requires forall i | 0 <= i < |t| && !(i == to && k == 0) :: t'[i].msgHead == t[i].msgHead
    requires forall i | 0 <= i < |t| && !(k > 0 && i == q[to][k-1]) :: t'[i].msgNext == t[i].msgNext
    requires IsList(t, to, q[to])
    requires k == 0 ==> t'[to].msgHead == t[q[to][k]].msgNext
    requires k > 0 ==> t'[q[to][k-1]].msgNext == t[q[to][k]].msgNext
    ensures var s := if r == to then Without(q[to], k) else q[r]; IsList(t', r, s) && NoDuplicates(s)
  {
    assert IsList(t, r, q[r]) && NoDuplicates(q[r]);
    if r == to {
      UnlinkFromList(t, t', q[to], to, k);
    } else {
      forall j | 0 <= j < |q[r]| ensures t'[q[r][j]].msgNext == t[q[r][j]].msgNext {
        assert q[r][j] in q[r];
        if k > 0 { assert q[to][k-1] in q[to]; }
      }
    }
  }

  lemma UnlinkFromList(t: Table, t': Table, l: seq<nat>, to: nat, k: nat)
    requires |t'| == |t| && to < |t| && k < |l| && IsList(t, to, l) && NoDuplicates(l)
    requires if k == 0 then t'[to].msgHead == t[l[0]].msgNext else t'[to].msgHead == t[to].msgHead
    requires k > 0 ==> t'[l[k-1]].msgNext == t[l[k]].msgNext
    requires forall i | 0 <= i < |t| && !(k > 0 && i == l[k-1]) :: t'[i].msgNext == t[i].msgNext
    ensures IsList(t', to, Without(l, k)) && NoDuplicates(Without(l, k))
  {
    var s := Without(l, k);
    WithoutMembers(l, k, 0);
    assert t[l[k]].msgNext == NextOf(l, k);
    forall j | 0 <= j < |s| ensures s[j] < |t| && t'[s[j]].msgNext == NextOf(s, j) {
      var i := if j < k then j else j + 1;
      assert s[j] == l[i] && t[l[i]].msgNext == NextOf(l, i);
      assert k > 0 && i != k - 1 ==> l[i] != l[k-1];
    }
  }
}
