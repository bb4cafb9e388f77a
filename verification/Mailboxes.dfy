/**
 The abstract meaning of message passing: every receiver has a mailbox of letters. The table
 and its linked lists (module Messages) refine it over whole runs, and over whole runs every
 accepted letter is delivered exactly once or still queued, each sender's in order.
 */
module Mailboxes {
  import opened ProcTable
  import opened Sequences
  import opened Messages

  datatype Letter = Letter(from: nat, m: Msg)

  /** `sent[r]` and `got[r]` are all letters ever accepted for, and delivered to, process `r`. */
  datatype Mail = Mail(box: seq<seq<Letter>>, phase: seq<Role>, sent: seq<seq<Letter>>, got: seq<seq<Letter>>)

  predicate Sized(x: Mail, n: nat) {
    |x.box| == |x.phase| == |x.sent| == |x.got| == n
  }

  /** The index of the first letter from a wanted sender, or |s|. */
  function FirstWanted(s: seq<Letter>, wanted: int): (k: nat)
    ensures k <= |s|
    ensures k < |s| ==> Matches(wanted, s[k].from)
    ensures forall j | 0 <= j < k :: !Matches(wanted, s[j].from)
  {
    WantedFrom(s, wanted, 0)
  }

  function WantedFrom(s: seq<Letter>, wanted: int, from: nat): (k: nat)
    requires from <= |s|
    ensures from <= k <= |s|
    ensures k < |s| ==> Matches(wanted, s[k].from)
    ensures forall j | from <= j < k :: !Matches(wanted, s[j].from)
    decreases |s| - from
  {
    if from == |s| || Matches(wanted, s[from].from) then from else WantedFrom(s, wanted, from + 1)
  }

  /** A letter goes straight to a process that waits for it, else to its mailbox. */
  function Post(x: Mail, from: nat, to: nat, m: Msg): Mail
    requires Sized(x, |x.box|) && from < |x.box| && to < |x.box|
  {
    var l := Letter(from, m);
    var sent := x.sent[to := x.sent[to] + [l]];
    if x.phase[to].ReceivingFrom? && Matches(x.phase[to].wanted, from) then
      Mail(x.box, x.phase[to := Running], sent, x.got[to := x.got[to] + [l]])
    else
      Mail(x.box[to := x.box[to] + [l]], x.phase[from := SendingTo(to)], sent, x.got)
  }

  /** The letter that a receive takes. */
  function Taken(x: Mail, to: nat, wanted: int): Option<Letter>
    requires to < |x.box|
  {
    var k := FirstWanted(x.box[to], wanted);
    if k < |x.box[to]| then Some(x.box[to][k]) else None
  }

  /** A receive takes the oldest wanted letter and frees its sender, else the process waits. */
  function Collect(x: Mail, to: nat, wanted: int): Mail
    requires Sized(x, |x.box|) && to < |x.box|
    requires forall k | 0 <= k < |x.box[to]| :: x.box[to][k].from < |x.box|
  {
    var k := FirstWanted(x.box[to], wanted);
    if k < |x.box[to]| then
      var l := x.box[to][k];
      Mail(x.box[to := Without(x.box[to], k)], x.phase[l.from := Running], x.sent, x.got[to := x.got[to] + [l]])
    else
      x.(phase := x.phase[to := ReceivingFrom(wanted)])
  }

  ghost predicate MailStep(x: Mail, e: Event, x': Mail)
    requires MailValid(x)
  {
    match e
    case Send(from, to, m) => from < |x.box| && to < |x.box| && x.phase[from] == Running && x' == Post(x, from, to, m)
    case Receive(to, wanted, _, got) =>
      && to < |x.box| && x.phase[to] == Running && x' == Collect(x, to, wanted)
      && (got.Some? <==> Taken(x, to, wanted).Some?)
      && (got.Some? ==> got.value == Taken(x, to, wanted).value.m)
    case Raise(p, _) =>
      p < |x.box| && (x' == x || (x.phase[p] == WaitingInt && x' == x.(phase := x.phase[p := Running])))
    case Wait(p, _) =>
      p < |x.box| && x.phase[p] == Running && (x' == x || x' == x.(phase := x.phase[p := WaitingInt]))
    case Schedule => x' == x
  }

  // ----------------------------------------------------------------- no loss, order, once

  /** The letters of `s` that come from `p`, in order. */
  function From(s: seq<Letter>, p: nat): seq<Letter> {
    if s == [] then []
    else From(s[..|s|-1], p) + if s[|s|-1].from == p then [s[|s|-1]] else []
  }

  /** Everything `p` ever sent to `r` is what `r` got from it and then what is still queued. */
  ghost predicate Accounted(x: Mail, r: nat, p: nat)
    requires Sized(x, |x.box|) && r < |x.box|
  {
    From(x.sent[r], p) == From(x.got[r], p) + From(x.box[r], p)
  }

  /** A letter in a mailbox has its sender blocked on that mailbox. */
  ghost predicate SenderBlocked(x: Mail, r: nat, l: Letter)
    requires Sized(x, |x.box|)
  {
    l.from < |x.box| && x.phase[l.from] == SendingTo(r)
  }

  ghost predicate MailValid(x: Mail) {
    && Sized(x, |x.box|)
    && (forall r, p: nat | 0 <= r < |x.box| :: Accounted(x, r, p))
    && (forall r, k | 0 <= r < |x.box| && 0 <= k < |x.box[r]| :: SenderBlocked(x, r, x.box[r][k]))
    // a blocked sender has exactly one letter queued
    && (forall r, j, k | 0 <= r < |x.box| && 0 <= j < k < |x.box[r]| :: x.box[r][j].from != x.box[r][k].from)
  }

  lemma {:induction false} FromConcat(a: seq<Letter>, b: seq<Letter>, p: nat)
    ensures From(a + b, p) == From(a, p) + From(b, p)
    decreases |b|
  {
    if b == [] {
      assert a + b == a;
    } else {
      FromConcat(a, b[..|b|-1], p);
      assert (a + b)[..|a + b| - 1] == a + b[..|b|-1];
    }
  }

  lemma FromSnoc(s: seq<Letter>, l: Letter, p: nat)
    ensures From(s + [l], p) == From(s, p) + if l.from == p then [l] else []
  {
    assert (s + [l])[..|s|] == s;
  }

  lemma {:induction false} FromNone(s: seq<Letter>, p: nat)
    requires forall k | 0 <= k < |s| :: s[k].from != p
    ensures From(s, p) == []
  {
    if s != [] { FromNone(s[..|s|-1], p); }
  }

  /** A letter that is delivered at once, while its sender has none queued. */
  lemma DirectAccounted(sent: seq<Letter>, got: seq<Letter>, box: seq<Letter>, l: Letter, p: nat)
    requires From(sent, p) == From(got, p) + From(box, p) && From(box, l.from) == []
    ensures From(sent + [l], p) == From(got + [l], p) + From(box, p)
  {
    hide From;
    FromSnoc(sent, l, p);
    FromSnoc(got, l, p);
  }

  lemma QueuedAccounted(sent: seq<Letter>, got: seq<Letter>, box: seq<Letter>, l: Letter, p: nat)
    requires From(sent, p) == From(got, p) + From(box, p)
    ensures From(sent + [l], p) == From(got, p) + From(box + [l], p)
  {
    hide From;
    FromSnoc(sent, l, p);
    FromSnoc(box, l, p);
    Associative(From(got, p), From(box, p), if l.from == p then [l] else []);
  }

  lemma Associative(a: seq<Letter>, b: seq<Letter>, c: seq<Letter>)
    ensures (a + b) + c == a + (b + c)
  {
  }

  lemma TakenAccounted(sent: seq<Letter>, got: seq<Letter>, box: seq<Letter>, k: nat, p: nat)
    requires k < |box| && forall j | 0 <= j < k :: box[j].from != box[k].from
    requires From(sent, p) == From(got, p) + From(box, p)
    ensures From(sent, p) == From(got + [box[k]], p) + From(Without(box, k), p)
  {
    hide From;
    FromSnoc(got, box[k], p);
    FromWithout(box, k, p);
    Associative(From(got, p), if p == box[k].from then [box[k]] else [], From(Without(box, k), p));
  }

  lemma PostAccounted(x: Mail, from: nat, to: nat, m: Msg, r: nat, p: nat)
    requires MailValid(x) && from < |x.box| && to < |x.box| && r < |x.box| && x.phase[from] == Running
    ensures Accounted(Post(x, from, to, m), r, p)
  {
    var l := Letter(from, m);
    assert Accounted(x, r, p);
    if r == to {
      if x.phase[to].ReceivingFrom? && Matches(x.phase[to].wanted, from) {
        forall k | 0 <= k < |x.box[to]| ensures x.box[to][k].from != from {
          assert SenderBlocked(x, to, x.box[to][k]);
        }
        FromNone(x.box[to], from);
        DirectAccounted(x.sent[to], x.got[to], x.box[to], l, p);
      } else {
        QueuedAccounted(x.sent[to], x.got[to], x.box[to], l, p);
      }
    }
  }

  /** Taking the first letter of its sender out of a box takes it off the front of that sender's letters. */
  lemma FromWithout(box: seq<Letter>, k: nat, p: nat)
    requires k < |box| && forall j | 0 <= j < k :: box[j].from != box[k].from
    ensures From(box, p) == (if p == box[k].from then [box[k]] else []) + From(Without(box, k), p)
  {
    hide From;
    var l, before, after := box[k], box[..k], box[k+1..];
    Parts(box, k);
    FromConcat(before + [l], after, p);
    FromSnoc(before, l, p);
    FromConcat(before, after, p);
    if p == l.from { FromNone(before, p); }
  }

  lemma Parts(s: seq<Letter>, k: nat)
    requires k < |s|
    ensures s == s[..k] + [s[k]] + s[k+1..]
    ensures Without(s, k) == s[..k] + s[k+1..]
  {
  }

  lemma SendersInRange(x: Mail, r: nat)
    requires MailValid(x) && r < |x.box|
    ensures forall k | 0 <= k < |x.box[r]| :: x.box[r][k].from < |x.box|
  {
    forall k | 0 <= k < |x.box[r]| ensures x.box[r][k].from < |x.box| {
      assert SenderBlocked(x, r, x.box[r][k]);
    }
  }

  lemma CollectAccounted(x: Mail, to: nat, wanted: int, r: nat, p: nat)
    requires MailValid(x) && to < |x.box| && r < |x.box|
    requires forall k | 0 <= k < |x.box[to]| :: x.box[to][k].from < |x.box|
    ensures Accounted(Collect(x, to, wanted), r, p)
  {
    assert Accounted(x, r, p);
    var k := FirstWanted(x.box[to], wanted);
    if r == to && k < |x.box[to]| {
      TakenAccounted(x.sent[to], x.got[to], x.box[to], k, p);
    }
  }

  lemma PostKeepsValid(x: Mail, from: nat, to: nat, m: Msg)
    requires MailValid(x) && from < |x.box| && to < |x.box| && x.phase[from] == Running
    ensures MailValid(Post(x, from, to, m))
  {
    var x' := Post(x, from, to, m);
    forall r, p: nat | 0 <= r < |x'.box| ensures Accounted(x', r, p) { PostAccounted(x, from, to, m, r, p); }
    forall r, k | 0 <= r < |x'.box| && 0 <= k < |x'.box[r]| ensures SenderBlocked(x', r, x'.box[r][k]) {
      assert k < |x.box[r]| ==> SenderBlocked(x, r, x.box[r][k]);
    }
    forall r, j, k | 0 <= r < |x'.box| && 0 <= j < k < |x'.box[r]| ensures x'.box[r][j].from != x'.box[r][k].from {
      assert SenderBlocked(x, r, x.box[r][j]);
    }
  }

  lemma CollectKeepsValid(x: Mail, to: nat, wanted: int)
    requires MailValid(x) && to < |x.box| && x.phase[to] == Running
    ensures forall k | 0 <= k < |x.box[to]| :: x.box[to][k].from < |x.box|
    ensures MailValid(Collect(x, to, wanted))
    // the letter taken is the oldest wanted one, and the others keep their order
    ensures Taken(x, to, wanted).Some? ==>
              exists older, younger ::
                && x.box[to] == older + [Taken(x, to, wanted).value] + younger
                && Collect(x, to, wanted).box[to] == older + younger
                && Matches(wanted, Taken(x, to, wanted).value.from)
                && (forall l | l in older :: !Matches(wanted, l.from))
                && Collect(x, to, wanted).got[to] == x.got[to] + [Taken(x, to, wanted).value]
    ensures Taken(x, to, wanted).None? ==>
              && (forall l | l in x.box[to] :: !Matches(wanted, l.from))
              && Collect(x, to, wanted).box == x.box && Collect(x, to, wanted).got == x.got
  {
    SendersInRange(x, to);
    TakenParts(x, to, wanted);
    CollectIsValid(x, to, wanted);
  }

  lemma TakenParts(x: Mail, to: nat, wanted: int)
    requires Sized(x, |x.box|) && to < |x.box| && forall k | 0 <= k < |x.box[to]| :: x.box[to][k].from < |x.box|
    ensures Taken(x, to, wanted).Some? ==>
              exists older, younger ::
                && x.box[to] == older + [Taken(x, to, wanted).value] + younger
                && Collect(x, to, wanted).box[to] == older + younger
                && Matches(wanted, Taken(x, to, wanted).value.from)
                && (forall l | l in older :: !Matches(wanted, l.from))
                && Collect(x, to, wanted).got[to] == x.got[to] + [Taken(x, to, wanted).value]
    ensures Taken(x, to, wanted).None? ==>
              && (forall l | l in x.box[to] :: !Matches(wanted, l.from))
              && Collect(x, to, wanted).box == x.box && Collect(x, to, wanted).got == x.got
  {
    hide WantedFrom;
    var box, k := x.box[to], FirstWanted(x.box[to], wanted);
    if k < |box| {
      var older, younger := box[..k], box[k+1..];
      Parts(box, k);
      forall l | l in older ensures !Matches(wanted, l.from) {
        var j :| 0 <= j < k && older[j] == l;
        assert box[j] == l;
      }
      assert Collect(x, to, wanted).box[to] == older + younger;
    }
  }

  lemma CollectIsValid(x: Mail, to: nat, wanted: int)
    requires MailValid(x) && to < |x.box| && x.phase[to] == Running
    requires forall k | 0 <= k < |x.box[to]| :: x.box[to][k].from < |x.box|
    ensures MailValid(Collect(x, to, wanted))
  {
    var x', box, k := Collect(x, to, wanted), x.box[to], FirstWanted(x.box[to], wanted);
    forall r, p: nat | 0 <= r < |x'.box| ensures Accounted(x', r, p) { CollectAccounted(x, to, wanted, r, p); }
    forall r, j | 0 <= r < |x'.box| && 0 <= j < |x'.box[r]| ensures SenderBlocked(x', r, x'.box[r][j]) {
      if r == to && k < |box| {
        assert SenderBlocked(x, r, box[if j < k then j else j + 1]);
      } else {
        assert SenderBlocked(x, r, x.box[r][j]);
        if k < |box| { assert SenderBlocked(x, to, box[k]); }
      }
    }
    forall r, i, j | 0 <= r < |x'.box| && 0 <= i < j < |x'.box[r]| ensures x'.box[r][i].from != x'.box[r][j].from {
      if r == to && k < |box| {
      } else {
        assert x'.box[r] == x.box[r];
      }
    }
  }

  lemma PhaseKeepsValid(x: Mail, phase: seq<Role>)
    requires MailValid(x) && |phase| == |x.phase|
    requires forall p | 0 <= p < |phase| :: x.phase[p].SendingTo? ==> phase[p] == x.phase[p]
    ensures MailValid(x.(phase := phase))
  {
    var x' := x.(phase := phase);
    forall r, p: nat | 0 <= r < |x'.box| ensures Accounted(x', r, p) { assert Accounted(x, r, p); }
    forall r, k | 0 <= r < |x'.box| && 0 <= k < |x'.box[r]| ensures SenderBlocked(x', r, x'.box[r][k]) {
      assert SenderBlocked(x, r, x.box[r][k]);
    }
    forall r, j, k | 0 <= r < |x'.box| && 0 <= j < k < |x'.box[r]| ensures x'.box[r][j].from != x'.box[r][k].from {
      assert x'.box[r] == x.box[r];
    }
  }

  lemma MailStepKeepsValid(x: Mail, e: Event, x': Mail)
    requires MailValid(x) && MailStep(x, e, x')
    ensures MailValid(x')
  {
    match e
    case Send(from, to, m) => PostKeepsValid(x, from, to, m);
    case Receive(to, wanted, _, _) => CollectKeepsValid(x, to, wanted);
    case Raise(p, _) => if x' != x { PhaseKeepsValid(x, x.phase[p := Running]); }
    case Wait(p, _) => if x' != x { PhaseKeepsValid(x, x.phase[p := WaitingInt]); }
    case Schedule =>
  }

  // ------------------------------------------------------------------------- refinement

  /** The letters that the senders of a list are blocked with. */
  function Letters(t: Table, s: seq<nat>): (r: seq<Letter>)
    requires forall k | 0 <= k < |s| :: s[k] < |t|
    ensures |r| == |s|
    ensures forall k | 0 <= k < |s| :: r[k] == Letter(s[k], t[s[k]].msg)
  {
    seq(|s|, k requires 0 <= k < |s| => Letter(s[k], t[s[k]].msg))
  }

  /** The lists and roles of the table mean the mailboxes of `x`. */
  ghost predicate Refines(s: Ipc, x: Mail)
    requires Valid(s)
  {
    && Sized(x, |s.t|)
    && x.phase == s.role
    && (forall r | 0 <= r < |s.t| :: IsList(s.t, r, s.q[r]) && x.box[r] == Letters(s.t, s.q[r]))
  }

  lemma SameMatch(s: seq<nat>, l: seq<Letter>, wanted: int)
    requires |s| == |l| && forall k | 0 <= k < |s| :: l[k].from == s[k]
    ensures MatchAt(s, wanted) == FirstWanted(l, wanted)
  {
    var i, j := MatchAt(s, wanted), FirstWanted(l, wanted);
    assert i < |s| ==> Matches(wanted, l[i].from);
    assert j < |l| ==> Matches(wanted, s[j]);
  }

  /** A message left in a list keeps its contents as long as its sender is blocked there. */
  lemma LettersUnchanged(s: Ipc, s': Ipc, r: nat)
    requires Valid(s) && Valid(s') && |s'.t| == |s.t| && r < |s.t|
    requires s'.q[r] == s.q[r]
    requires forall p: nat | p < |s.t| && s.role[p] == SendingTo(r) :: s'.t[p].msg == s.t[p].msg
    ensures IsList(s.t, r, s.q[r]) && IsList(s'.t, r, s'.q[r])
    ensures Letters(s'.t, s'.q[r]) == Letters(s.t, s.q[r])
  {
    assert IsList(s.t, r, s.q[r]) && IsList(s'.t, r, s'.q[r]);
    forall k | 0 <= k < |s.q[r]| ensures Letters(s'.t, s'.q[r])[k] == Letters(s.t, s.q[r])[k] {
      var p := s.q[r][k];
      assert p in s.q[r] <==> s.role[p] == SendingTo(r);
    }
  }

  /** The mailboxes after a step that turned the roles into `role`. */
  ghost function MailNext(x: Mail, e: Event, role: seq<Role>): Mail
    requires MailValid(x)
    requires e.Send? ==> e.from < |x.box| && e.to < |x.box|
    requires e.Receive? ==> e.to < |x.box|
    requires e.Receive? ==> forall k | 0 <= k < |x.box[e.to]| :: x.box[e.to][k].from < |x.box|
  {
    match e
    case Send(from, to, m) => Post(x, from, to, m)
    case Receive(to, wanted, _, _) => Collect(x, to, wanted)
    case Raise(_, _) => x.(phase := role)
    case Wait(_, _) => x.(phase := role)
    case Schedule => x
  }

  /** A send changes the message of the target it reaches, or of its caller, and no other. */
  lemma SendMessages(s: Ipc, e: Event, s': Ipc, p: nat)
    requires Valid(s) && e.Send? && Step(s, e, s') && p < |s.t|
    ensures Accepts(s.t, e.from, e.to) <==> s.role[e.to].ReceivingFrom? && Matches(s.role[e.to].wanted, e.from)
    ensures s'.t[p].msg == if p == (if Accepts(s.t, e.from, e.to) then e.to else e.from) then e.m else s.t[p].msg
  {
    var from, to := e.from, e.to;
    assert RoleHolds(s, to);
    assert Bare(s'.t[p]) == Bare(if Accepts(s.t, from, to)
                                 then if p == to then s.t[to].(msg := e.m, msgBlock := false) else s.t[p]
                                 else if p == from then s.t[from].(msg := e.m, msgBlock := true, sendTo := to)
                                 else s.t[p]);
  }

  /** Hanging one more sender behind a list hangs its letter behind the letters. */
  lemma LettersAppend(t: Table, t': Table, s: seq<nat>, from: nat)
    requires |t'| == |t| && from < |t| && forall k | 0 <= k < |s| :: s[k] < |t|
    requires forall k | 0 <= k < |s| :: t'[s[k]].msg == t[s[k]].msg
    ensures forall k | 0 <= k < |s + [from]| :: (s + [from])[k] < |t'|
    ensures Letters(t', s + [from]) == Letters(t, s) + [Letter(from, t'[from].msg)]
  {
  }

  /** Taking a sender out of a list takes its letter out of the letters. */
  lemma LettersWithout(t: Table, t': Table, s: seq<nat>, k: nat)
    requires |t'| == |t| && k < |s| && forall j | 0 <= j < |s| :: s[j] < |t|
    requires forall j | 0 <= j < |s| && j != k :: t'[s[j]].msg == t[s[j]].msg
    ensures forall j | 0 <= j < |Without(s, k)| :: Without(s, k)[j] < |t'|
    ensures Letters(t', Without(s, k)) == Without(Letters(t, s), k)
  {
    var l, r := Letters(t', Without(s, k)), Without(Letters(t, s), k);
    forall j | 0 <= j < |l| ensures l[j] == r[j] {
      assert Without(s, k)[j] == s[if j < k then j else j + 1];
    }
  }

  lemma QueuedIsBlocked(s: Ipc, r: nat, k: nat)
    requires Valid(s) && r < |s.t| && k < |s.q[r]|
    ensures s.q[r][k] < |s.t| && s.role[s.q[r][k]] == SendingTo(r)
  {
    assert IsList(s.t, r, s.q[r]);
    assert s.q[r][k] in s.q[r];
  }

  lemma SendBoxes(s: Ipc, e: Event, s': Ipc, x: Mail, r: nat)
    requires Valid(s) && e.Send? && Step(s, e, s') && Refines(s, x) && Valid(s') && r < |s.t|
    ensures IsList(s'.t, r, s'.q[r]) && Post(x, e.from, e.to, e.m).box[r] == Letters(s'.t, s'.q[r])
  {
    var from, to := e.from, e.to;
    assert IsList(s'.t, r, s'.q[r]);
    assert IsList(s.t, r, s.q[r]) && x.box[r] == Letters(s.t, s.q[r]);
    assert RoleHolds(s, to);
    SendMessages(s, e, s', from);
    if r == to && !Accepts(s.t, from, to) {
      forall k | 0 <= k < |s.q[r]| ensures s'.t[s.q[r][k]].msg == s.t[s.q[r][k]].msg {
        QueuedIsBlocked(s, r, k);
        SendMessages(s, e, s', s.q[r][k]);
      }
      LettersAppend(s.t, s'.t, s.q[r], from);
    } else {
      forall p: nat | p < |s.t| && s.role[p] == SendingTo(r) ensures s'.t[p].msg == s.t[p].msg {
        SendMessages(s, e, s', p);
      }
      LettersUnchanged(s, s', r);
    }
  }

  lemma SendRefines(s: Ipc, e: Event, s': Ipc, x: Mail)
    requires Valid(s) && e.Send? && Step(s, e, s') && Refines(s, x) && MailValid(x) && Valid(s')
    ensures MailStep(x, e, Post(x, e.from, e.to, e.m)) && Refines(s', Post(x, e.from, e.to, e.m))
    ensures s.role[e.to].ReceivingFrom? && Matches(s.role[e.to].wanted, e.from) ==> s'.t[e.to].msg == e.m
  {
    hide MailValid, NoDuplicates, Letters;
    SendMessages(s, e, s', e.to);
    forall r | 0 <= r < |s.t|
      ensures IsList(s'.t, r, s'.q[r]) && Post(x, e.from, e.to, e.m).box[r] == Letters(s'.t, s'.q[r])
    {
      SendBoxes(s, e, s', x, r);
    }
  }

  /** A receive changes no message but, when it blocks, the caller's own. */
  lemma ReceiveMessages(s: Ipc, e: Event, s': Ipc, p: nat)
    requires Valid(s) && e.Receive? && Step(s, e, s') && p < |s.t|
    ensures p != e.to || MatchAt(s.q[e.to], e.wanted) < |s.q[e.to]| ==> s'.t[p].msg == s.t[p].msg
  {
    var k := MatchAt(s.q[e.to], e.wanted);
    if k < |s.q[e.to]| {
      var sender := s.q[e.to][k];
      assert Bare(s'.t[p]) == Bare(if p == sender then s.t[p].(msgBlock := false) else s.t[p]);
    } else {
      assert p != e.to ==> Bare(s'.t[p]) == Bare(s.t[p]);
    }
  }

  lemma ReceiveBoxes(s: Ipc, e: Event, s': Ipc, x: Mail, r: nat)
    requires Valid(s) && e.Receive? && Step(s, e, s') && Refines(s, x) && Valid(s') && r < |s.t|
    requires forall k | 0 <= k < |x.box[e.to]| :: x.box[e.to][k].from < |x.box|
    ensures IsList(s'.t, r, s'.q[r]) && Collect(x, e.to, e.wanted).box[r] == Letters(s'.t, s'.q[r])
  {
    var to, k := e.to, MatchAt(s.q[e.to], e.wanted);
    assert IsList(s'.t, r, s'.q[r]);
    assert IsList(s.t, r, s.q[r]) && x.box[r] == Letters(s.t, s.q[r]);
    assert IsList(s.t, to, s.q[to]) && x.box[to] == Letters(s.t, s.q[to]);
    SameMatch(s.q[to], x.box[to], e.wanted);
    if r == to && k < |s.q[to]| {
      forall j | 0 <= j < |s.q[r]| ensures s'.t[s.q[r][j]].msg == s.t[s.q[r][j]].msg {
        ReceiveMessages(s, e, s', s.q[r][j]);
      }
      LettersWithout(s.t, s'.t, s.q[r], k);
    } else {
      UntakenBox(s, e, s', r);
    }
  }

  lemma UntakenBox(s: Ipc, e: Event, s': Ipc, r: nat)
    requires Valid(s) && e.Receive? && Step(s, e, s') && Valid(s') && r < |s.t|
    requires s'.q[r] == s.q[r]
    ensures IsList(s.t, r, s.q[r]) && IsList(s'.t, r, s'.q[r])
    ensures Letters(s'.t, s'.q[r]) == Letters(s.t, s.q[r])
  {
    forall p: nat | p < |s.t| && s.role[p] == SendingTo(r) ensures s'.t[p].msg == s.t[p].msg {
      ReceiveMessages(s, e, s', p);
    }
    LettersUnchanged(s, s', r);
  }

  lemma ReceiveRefines(s: Ipc, e: Event, s': Ipc, x: Mail)
    requires Valid(s) && e.Receive? && Step(s, e, s') && Refines(s, x) && MailValid(x) && Valid(s')
    ensures forall k | 0 <= k < |x.box[e.to]| :: x.box[e.to][k].from < |x.box|
    ensures MailStep(x, e, Collect(x, e.to, e.wanted)) && Refines(s', Collect(x, e.to, e.wanted))
  {
    var to := e.to;
    SendersInRange(x, to);
    assert IsList(s.t, to, s.q[to]) && x.box[to] == Letters(s.t, s.q[to]);
    SameMatch(s.q[to], x.box[to], e.wanted);
    forall r | 0 <= r < |s.t|
      ensures IsList(s'.t, r, s'.q[r]) && Collect(x, to, e.wanted).box[r] == Letters(s'.t, s'.q[r])
    {
      ReceiveBoxes(s, e, s', x, r);
    }
  }

  lemma InterruptRefines(s: Ipc, e: Event, s': Ipc, x: Mail)
    requires Valid(s) && (e.Raise? || e.Wait?) && Step(s, e, s') && Refines(s, x) && MailValid(x) && Valid(s')
    ensures MailStep(x, e, x.(phase := s'.role)) && Refines(s', x.(phase := s'.role))
  {
    assert RoleHolds(s, e.p);
    forall p: nat | p < |s.t| ensures s'.t[p].msg == s.t[p].msg {
      assert Bare(s'.t[p]) == Bare(if p != e.p then s.t[p]
                                   else if e.Raise? then Raised(s.t[p], e.id) else Waited(s.t[p], e.id));
    }
    forall r | 0 <= r < |s.t| ensures IsList(s'.t, r, s'.q[r]) && x.box[r] == Letters(s'.t, s'.q[r]) {
      assert IsList(s.t, r, s.q[r]) && x.box[r] == Letters(s.t, s.q[r]);
      LettersUnchanged(s, s', r);
    }
    assert x == x.(phase := x.phase);
    if s'.role == s.role { assert x.(phase := s'.role) == x; }
  }

  lemma ScheduleRefines(s: Ipc, e: Event, s': Ipc, x: Mail)
    requires Valid(s) && e.Schedule? && Step(s, e, s') && Refines(s, x) && Valid(s')
    ensures Refines(s', x)
  {
    forall p: nat | p < |s.t| ensures s'.t[p].msg == s.t[p].msg {
      assert MessagePart(s'.t[p]) == MessagePart(s.t[p]);
    }
    forall r | 0 <= r < |s.t| ensures IsList(s'.t, r, s'.q[r]) && x.box[r] == Letters(s'.t, s'.q[r]) {
      assert IsList(s.t, r, s.q[r]) && x.box[r] == Letters(s.t, s.q[r]);
      LettersUnchanged(s, s', r);
    }
  }

  /** Every legal call of the table is the corresponding step of the mailboxes. */
  lemma StepRefines(s: Ipc, e: Event, s': Ipc, x: Mail)
    requires Valid(s) && Step(s, e, s') && Refines(s, x) && MailValid(x)
    ensures e.Receive? ==> forall k | 0 <= k < |x.box[e.to]| :: x.box[e.to][k].from < |x.box|
    ensures Valid(s') && Refines(s', MailNext(x, e, s'.role))
    ensures MailStep(x, e, MailNext(x, e, s'.role)) && MailValid(MailNext(x, e, s'.role))
  {
    StepKeepsValid(s, e, s');
    match e {
      case Send(_, _, _) => SendRefines(s, e, s', x);
      case Receive(_, _, _, _) => ReceiveRefines(s, e, s', x);
      case Raise(_, _) => InterruptRefines(s, e, s', x);
      case Wait(_, _) => InterruptRefines(s, e, s', x);
      case Schedule => ScheduleRefines(s, e, s', x);
    }
    MailStepKeepsValid(x, e, MailNext(x, e, s'.role));
  }

  /** `mails` are the mailboxes before, between and after the first |mails|-1 events. */
  ghost predicate IsMailRun(mails: seq<Mail>, events: seq<Event>) {
    && 1 <= |mails| <= |events| + 1
    && (forall k | 0 <= k < |mails| :: MailValid(mails[k]))
    && (forall k | 0 <= k < |mails| - 1 :: MailStep(mails[k], events[k], mails[k+1]))
  }

  /** The first |mails| states of the run mean `mails`. */
  ghost predicate RunRefines(states: seq<Ipc>, mails: seq<Mail>) {
    && |mails| <= |states|
    && (forall k | 0 <= k < |mails| :: Valid(states[k]) && Refines(states[k], mails[k]))
  }

  lemma NextMail(s: Ipc, e: Event, s': Ipc, x: Mail) returns (x': Mail)
    requires Valid(s) && Step(s, e, s') && Refines(s, x) && MailValid(x)
    ensures Valid(s') && Refines(s', x') && MailStep(x, e, x') && MailValid(x')
  {
    StepRefines(s, e, s', x);
    x' := MailNext(x, e, s'.role);
  }

  lemma ExtendRun(states: seq<Ipc>, events: seq<Event>, earlier: seq<Mail>, next: Mail) returns (mails: seq<Mail>)
    requires IsMailRun(earlier, events) && RunRefines(states, earlier)
    requires |earlier| <= |events| && |earlier| < |states|
    requires MailValid(next) && MailStep(earlier[|earlier|-1], events[|earlier|-1], next)
    requires Valid(states[|earlier|]) && Refines(states[|earlier|], next)
    ensures mails == earlier + [next] && IsMailRun(mails, events) && RunRefines(states, mails)
  {
    hide MailStep, MailValid, Refines, Valid;
    mails := earlier + [next];
    forall k | 0 <= k < |mails| - 1 ensures MailStep(mails[k], events[k], mails[k+1]) {
      if k < |earlier| - 1 {
        assert MailStep(earlier[k], events[k], earlier[k+1]);
      }
    }
  }

  /** Whole runs: every run of the table is a run of the mailboxes on the same events. */
  lemma {:induction false} RunRefinesMailboxes(states: seq<Ipc>, events: seq<Event>, x: Mail, n: nat)
    returns (mails: seq<Mail>)
    requires IsRun(states, events) && Refines(states[0], x) && MailValid(x) && n <= |events|
    ensures |mails| == n + 1 && mails[0] == x
    ensures IsMailRun(mails, events) && RunRefines(states, mails)
  {
    hide IsRun, IsMailRun, RunRefines, Valid, Refines, MailValid, MailStep;
    if n == 0 {
      mails := EmptyRun(states, events, x);
    } else {
      var earlier := RunRefinesMailboxes(states, events, x, n - 1);
      LastOfRun(states, events, earlier);
      var next := NextMail(states[n-1], events[n-1], states[n], earlier[n-1]);
      mails := ExtendRun(states, events, earlier, next);
    }
  }

  lemma EmptyRun(states: seq<Ipc>, events: seq<Event>, x: Mail) returns (mails: seq<Mail>)
    requires IsRun(states, events) && Refines(states[0], x) && MailValid(x)
    ensures mails == [x] && IsMailRun(mails, events) && RunRefines(states, mails)
  {
    hide Valid, Refines, MailValid, MailStep;
    mails := [x];
  }

  lemma LastOfRun(states: seq<Ipc>, events: seq<Event>, mails: seq<Mail>)
    requires IsRun(states, events) && IsMailRun(mails, events) && RunRefines(states, mails)
    requires |mails| <= |events|
    ensures |states| == |events| + 1
    ensures var k := |mails| - 1;
            && Valid(states[k]) && Refines(states[k], mails[k]) && MailValid(mails[k])
            && Step(states[k], events[k], states[k+1])
  {
    hide Valid, Refines, MailValid, MailStep, Step;
    var k := |mails| - 1;
    assert Step(states[k], events[k], states[k+1]);
    assert Valid(states[k]) && Refines(states[k], mails[k]);
  }

  // ------------------------------------------------- what a run sends and what it delivers

  /** The letter that event `e`, taken in state `s`, posts to `r`. */
  function PostedTo(e: Event, r: nat): seq<Letter> {
    if e.Send? && e.to == r then [Letter(e.from, e.m)] else []
  }

  /** The letter that event `e`, taken in state `s`, copies into a buffer of `r`. */
  ghost function DeliveredTo(s: Ipc, e: Event, r: nat): seq<Letter>
    requires Linked(s.t, s.q) && |s.role| == |s.t| && Legal(s, e)
  {
    match e
    case Send(from, to, m) => if to == r && Accepts(s.t, from, to) then [Letter(from, m)] else []
    case Receive(to, wanted, _, got) =>
      var k := MatchAt(s.q[to], wanted);
      if to == r && k < |s.q[to]| && got.Some? then [Letter(s.q[to][k], got.value)] else []
    case Raise(_, _) => []
    case Wait(_, _) => []
    case Schedule => []
  }

  function Flat(parts: seq<seq<Letter>>): seq<Letter> {
    if parts == [] then [] else Flat(parts[..|parts|-1]) + parts[|parts|-1]
  }

  ghost function Posts(events: seq<Event>, n: nat, r: nat): seq<seq<Letter>>
    requires n <= |events|
  {
    seq(n, k requires 0 <= k < n => PostedTo(events[k], r))
  }

  ghost function Copies(states: seq<Ipc>, events: seq<Event>, n: nat, r: nat): seq<seq<Letter>>
    requires IsRun(states, events) && n <= |events|
  {
    seq(n, k requires 0 <= k < n => assert Step(states[k], events[k], states[k+1]);
                                    DeliveredTo(states[k], events[k], r))
  }

  /** The letters posted to `r` by the first `n` events. */
  ghost function Posted(events: seq<Event>, n: nat, r: nat): seq<Letter>
    requires n <= |events|
  {
    Flat(Posts(events, n, r))
  }

  /** The letters delivered to `r` by the first `n` events. */
  ghost function Delivered(states: seq<Ipc>, events: seq<Event>, n: nat, r: nat): seq<Letter>
    requires IsRun(states, events) && n <= |events|
  {
    Flat(Copies(states, events, n, r))
  }

  /** The mailboxes of a state, with everything queued counted as sent and nothing as delivered. */
  ghost function MailOf(s: Ipc): (x: Mail)
    requires Valid(s)
    ensures Refines(s, x) && MailValid(x)
    ensures forall r | 0 <= r < |s.t| :: x.got[r] == [] && x.sent[r] == x.box[r]
  {
    MailOfValid(s, BoxesOf(s));
    Mail(BoxesOf(s), s.role, BoxesOf(s), seq(|s.t|, _ => []))
  }

  ghost function BoxesOf(s: Ipc): (box: seq<seq<Letter>>)
    requires Valid(s)
    ensures |box| == |s.t|
    ensures forall r | 0 <= r < |s.t| :: IsList(s.t, r, s.q[r]) && box[r] == Letters(s.t, s.q[r])
  {
    seq(|s.t|, r requires 0 <= r < |s.t| => assert IsList(s.t, r, s.q[r]); Letters(s.t, s.q[r]))
  }

  lemma MailOfValid(s: Ipc, box: seq<seq<Letter>>)
    requires Valid(s) && |box| == |s.t|
    requires forall r | 0 <= r < |s.t| :: IsList(s.t, r, s.q[r]) && box[r] == Letters(s.t, s.q[r])
    ensures MailValid(Mail(box, s.role, box, seq(|s.t|, _ => [])))
  {
    var x := Mail(box, s.role, box, seq(|s.t|, _ => []));
    forall r, k | 0 <= r < |box| && 0 <= k < |box[r]| ensures SenderBlocked(x, r, box[r][k]) {
      assert IsList(s.t, r, s.q[r]) && s.q[r][k] in s.q[r];
    }
    forall r, p: nat | 0 <= r < |box| ensures Accounted(x, r, p) {
      assert From([], p) + From(box[r], p) == From(box[r], p);
    }
    forall r, j, k | 0 <= r < |box| && 0 <= j < k < |box[r]| ensures box[r][j].from != box[r][k].from {
      assert IsList(s.t, r, s.q[r]) && NoDuplicates(s.q[r]);
    }
  }

  lemma LogStep(s: Ipc, e: Event, s': Ipc, x: Mail, x': Mail, r: nat)
    requires Valid(s) && Step(s, e, s') && Refines(s, x) && MailValid(x) && MailStep(x, e, x') && r < |s.t|
    ensures Sized(x', |s.t|)
    ensures x'.sent[r] == x.sent[r] + PostedTo(e, r)
    ensures x'.got[r] == x.got[r] + DeliveredTo(s, e, r)
  {
    hide MailValid, NoDuplicates;
    match e {
      case Send(from, to, _) => assert RoleHolds(s, to);
      case Receive(to, wanted, _, _) => ReceiveLogStep(s, e, s', x, x', r);
      case Raise(_, _) =>
      case Wait(_, _) =>
      case Schedule =>
    }
  }

  lemma ReceiveLogStep(s: Ipc, e: Event, s': Ipc, x: Mail, x': Mail, r: nat)
    requires Valid(s) && e.Receive? && Step(s, e, s') && r < |s.t|
    requires Refines(s, x) && MailValid(x) && MailStep(x, e, x')
    ensures Sized(x', |s.t|)
    ensures x'.sent[r] == x.sent[r] && x'.got[r] == x.got[r] + DeliveredTo(s, e, r)
  {
    SendersInRange(x, e.to);
    hide MailValid, NoDuplicates;
    assert IsList(s.t, e.to, s.q[e.to]) && x.box[e.to] == Letters(s.t, s.q[e.to]);
    SameMatch(s.q[e.to], x.box[e.to], e.wanted);
  }

  lemma RunLogStep(states: seq<Ipc>, events: seq<Event>, mails: seq<Mail>, k: nat, r: nat)
    requires IsRun(states, events) && IsMailRun(mails, events) && RunRefines(states, mails)
    requires k + 1 < |mails| && r < |mails[k].box|
    ensures Step(states[k], events[k], states[k+1])
    ensures Sized(mails[k], |mails[k].box|) && Sized(mails[k+1], |mails[k].box|)
    ensures mails[k+1].sent[r] == mails[k].sent[r] + PostedTo(events[k], r)
    ensures mails[k+1].got[r] == mails[k].got[r] + DeliveredTo(states[k], events[k], r)
  {
    assert Valid(states[k]) && Refines(states[k], mails[k]) && MailValid(mails[k]);
    LogStep(states[k], events[k], states[k+1], mails[k], mails[k+1], r);
  }

  /** A log that grows by one part at every step is its start followed by all the parts. */
  lemma {:induction false} LogIsFlat(logs: seq<seq<Letter>>, parts: seq<seq<Letter>>)
    requires |logs| == |parts| + 1
    requires forall k | 0 <= k < |parts| :: logs[k+1] == logs[k] + parts[k]
    ensures logs[|parts|] == logs[0] + Flat(parts)
  {
    var n := |parts|;
    if n > 0 {
      LogIsFlat(logs[..n], parts[..n-1]);
      assert logs[n-1+1] == logs[n-1] + parts[n-1];
    }
  }

  lemma RunLengths(states: seq<Ipc>, events: seq<Event>, mails: seq<Mail>)
    requires IsRun(states, events) && IsMailRun(mails, events)
    ensures 1 <= |mails| <= |events| + 1 == |states|
  {
    hide Valid, MailValid, MailStep, Step;
  }

  lemma LogsAgree(states: seq<Ipc>, events: seq<Event>, mails: seq<Mail>, r: nat)
    requires IsRun(states, events) && IsMailRun(mails, events) && RunRefines(states, mails)
    requires r < |mails[0].box| && forall k | 0 <= k < |mails| :: Sized(mails[k], |mails[0].box|)
    ensures Sized(mails[0], |mails[0].box|) && Sized(mails[|mails|-1], |mails[0].box|)
    ensures mails[|mails|-1].sent[r] == mails[0].sent[r] + Posted(events, |mails| - 1, r)
    ensures mails[|mails|-1].got[r] == mails[0].got[r] + Delivered(states, events, |mails| - 1, r)
  {
    hide IsRun, IsMailRun, RunRefines, PostedTo, DeliveredTo, Flat;
    RunLengths(states, events, mails);
    var n := |mails| - 1;
    var sent := seq(n + 1, k requires 0 <= k <= n => mails[k].sent[r]);
    var got := seq(n + 1, k requires 0 <= k <= n => mails[k].got[r]);
    var posts, copies := Posts(events, n, r), Copies(states, events, n, r);
    forall k | 0 <= k < n ensures sent[k+1] == sent[k] + posts[k] && got[k+1] == got[k] + copies[k] {
      RunLogStep(states, events, mails, k, r);
    }
    LogIsFlat(sent, posts);
    LogIsFlat(got, copies);
  }

  lemma {:induction false} RunSized(states: seq<Ipc>, events: seq<Event>, mails: seq<Mail>, k: nat)
    requires IsRun(states, events) && IsMailRun(mails, events) && RunRefines(states, mails) && k < |mails|
    ensures Sized(mails[k], |states[0].t|) && |states[k].t| == |states[0].t|
  {
    RunStaysValid(states, events, k);
    assert Refines(states[k], mails[k]);
  }

  /**
   In every state of every run, what was queued for `r` at the start and what `p` posted to `r`
   since is, in order, what was delivered to `r` from `p` followed by what is still queued:
   no message is lost, duplicated or overtaken by another of the same sender.
   */
  lemma DeliveredOnceInOrder(states: seq<Ipc>, events: seq<Event>, n: nat, r: nat, p: nat)
    requires IsRun(states, events) && n <= |events| && r < |states[0].t|
    ensures Valid(states[n]) && |states[n].t| == |states[0].t|
    ensures From(BoxesOf(states[0])[r] + Posted(events, n, r), p)
         == From(Delivered(states, events, n, r) + BoxesOf(states[n])[r], p)
  {
    var x := MailOf(states[0]);
    var mails := RunRefinesMailboxes(states, events, x, n);
    forall k | 0 <= k < |mails| ensures Sized(mails[k], |states[0].t|) { RunSized(states, events, mails, k); }
    RunSized(states, events, mails, n);
    LogsAgree(states, events, mails, r);
    var now := mails[n];
    assert Refines(states[n], now);
    assert Accounted(now, r, p);
    FromConcat(now.got[r], now.box[r], p);
    assert now.got[r] == Delivered(states, events, n, r) && now.box[r] == BoxesOf(states[n])[r];
  }
}
