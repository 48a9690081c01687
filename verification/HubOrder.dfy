/** The order in which a subscriber of the hub receives what was published. */
module HubOrder {
  import opened HubRuns

  predicate Ascending(sent: seq<nat>) {
    forall i, j :: 0 <= i < j < |sent| ==> sent[i] < sent[j]
  }

  predicate AllBelow(sent: seq<nat>, n: nat) {
    forall i :: 0 <= i < |sent| ==> sent[i] < n
  }

  /** The publisher may still send to the subscriber: it has tested it already, or will find it open. */
  predicate ToSend(st: State, q: nat, s: nat) {
    var pub := Pub(st, q);
    && s in st.subs
    && ((pub.Checked? && pub.sub == s) || (!pub.Idle? && s in pub.todo && !st.subs[s].closed))
  }

  /** The subscriber's sends so far are in order, and at most one publish is still to be sent to it, with
      a later number than all of them. */
  ghost predicate Tidy(st: State, s: nat)
    requires s in st.subs
  {
    && Ascending(st.subs[s].sent)
    && forall q :: ToSend(st, q, s) ==>
         AllBelow(st.subs[s].sent, Pub(st, q).number) && forall p :: ToSend(st, p, s) ==> p == q
  }

  ghost predicate Numbered(st: State, s: nat)
    requires s in st.subs
  {
    && AllBelow(st.subs[s].sent, st.published)
    && forall q :: ToSend(st, q, s) ==> Pub(st, q).number < st.published
  }

  predicate SendsTo(a: State, e: Event, s: nat) {
    e.Send? && Pub(a, e.p).Checked? && Pub(a, e.p).sub == s
  }

  /** What one step does to what is sent and still to be sent to a subscriber. */
  lemma SendsStep(a: State, e: Event, b: State, s: nat, q: nat)
    requires InStep(a) && Next(a, e, b) && s in a.subs
    ensures s in b.subs
    ensures b.subs[s].sent
            == if SendsTo(a, e, s) then a.subs[s].sent + [Pub(a, e.p).number] else a.subs[s].sent
    ensures SendsTo(a, e, s) ==> ToSend(a, e.p, s) && !ToSend(b, e.p, s)
    ensures ToSend(b, q, s) && e != Begin(q) ==> ToSend(a, q, s) && Pub(b, q).number == Pub(a, q).number
    ensures ToSend(b, q, s) && e == Begin(q) ==> s in a.members && Pub(b, q).number == a.published
    ensures b.published == a.published + if e.Begin? then 1 else 0
  {
    hide Room;
  }

  lemma AscendingPush(sent: seq<nat>, n: nat)
    requires Ascending(sent)
    ensures Ascending(sent + [n]) <==> AllBelow(sent, n)
  {
    var more := sent + [n];
    assert forall i :: 0 <= i < |sent| ==> more[i] == sent[i];
    if Ascending(more) {
      assert more[|sent|] == n;
    }
  }

  /** A step that begins no publish keeps a subscriber tidy; so does a publish that begins when no other
      is still to be sent to it. */
  lemma TidyStep(a: State, e: Event, b: State, s: nat)
    requires InStep(a) && Next(a, e, b) && s in a.subs && Tidy(a, s)
    requires e.Begin? ==> Numbered(a, s) && (s in a.members ==> forall q :: !ToSend(a, q, s))
    ensures s in b.subs && Tidy(b, s)
  {
    hide Next, Pub, Ascending, InStep;
    SendsStep(a, e, b, s, 0);
    if SendsTo(a, e, s) {
      SendsStep(a, e, b, s, e.p);
      AscendingPush(a.subs[s].sent, Pub(a, e.p).number);
    }
    forall q | ToSend(b, q, s)
      ensures AllBelow(b.subs[s].sent, Pub(b, q).number)
      ensures forall p :: ToSend(b, p, s) ==> p == q
    {
      SendsStep(a, e, b, s, q);
      forall p | ToSend(b, p, s) ensures p == q {
        SendsStep(a, e, b, s, p);
      }
    }
  }

  lemma NumberedStep(a: State, e: Event, b: State, s: nat)
    requires InStep(a) && Next(a, e, b) && s in a.subs && Numbered(a, s)
    ensures s in b.subs && Numbered(b, s)
  {
    hide Next, Pub, InStep;
    SendsStep(a, e, b, s, 0);
    forall q | ToSend(b, q, s) ensures Pub(b, q).number < b.published {
      SendsStep(a, e, b, s, q);
    }
  }

  // ----- Publishes that do not overlap

  /** No publish to the subscriber begins while another is still to be sent to it. */
  ghost predicate Apart(st: seq<State>, e: seq<Event>, s: nat)
    requires |st| == |e| + 1
  {
    forall k :: 0 <= k < |e| && e[k].Begin? && s in st[k].members ==> forall q :: !ToSend(st[k], q, s)
  }

  lemma NewIsTidy(a: State, e: Event, b: State, s: nat)
    requires InStep(a) && Next(a, e, b) && s in b.subs && s !in a.subs
    ensures Tidy(b, s) && Numbered(b, s)
  {
    forall q ensures !ToSend(b, q, s) {
      assert !Owes(Pub(a, q), s);
    }
  }

  lemma {:induction false} RunTidy(st: seq<State>, e: seq<Event>, k: nat, s: nat)
    requires IsRun(st, e) && k <= |e| && Apart(st, e, s) && s in st[k].subs
    ensures Tidy(st[k], s) && Numbered(st[k], s)
  {
    hide Next, Tidy, Numbered, InStep, Inv;
    if k > 0 {
      RunInv(st, e, k - 1);
      InStepOf(st[k - 1]);
      if s in st[k - 1].subs {
        RunTidy(st, e, k - 1, s);
        TidyStep(st[k - 1], e[k - 1], st[k], s);
        NumberedStep(st[k - 1], e[k - 1], st[k], s);
      } else {
        NewIsTidy(st[k - 1], e[k - 1], st[k], s);
      }
    }
  }

  lemma {:induction false} NumbersPrefix(x: seq<Message>, y: seq<Message>)
    ensures Numbers(x) <= Numbers(x + y)
  {
    if y == [] {
      assert x + y == x;
    } else {
      var n := |y| - 1;
      NumbersPrefix(x, y[..n]);
      NumbersPush(x + y[..n], y[n]);
      assert x + y == x + y[..n] + [y[n]];
    }
  }

  /** If publishes to a subscriber do not overlap, what it reads is a subsequence of what was published,
      in order. */
  lemma DeliveredInOrder(st: seq<State>, e: seq<Event>, s: nat)
    requires IsRun(st, e) && Apart(st, e, s) && s in st[|e|].subs
    ensures Ascending(Numbers(st[|e|].subs[s].received)) && AllBelow(Numbers(st[|e|].subs[s].received), st[|e|].published)
  {
    hide Next, Numbers;
    var sub := st[|e|].subs[s];
    RunTidy(st, e, |e|, s);
    RunChannels(st, e, |e|, s);
    NumbersPrefix(sub.received, sub.buffer);
  }

  /** Only the publisher p publishes. */
  predicate Alone(e: seq<Event>, p: nat) {
    forall k :: 0 <= k < |e| ==> Mover(e[k]) == -1 || Mover(e[k]) == p
  }

  lemma {:induction false} OthersIdle(st: seq<State>, e: seq<Event>, k: nat, p: nat, q: nat)
    requires IsRun(st, e) && k <= |e| && Alone(e, p) && q != p
    ensures Pub(st[k], q) == Idle
  {
    hide Next;
    if k > 0 {
      OthersIdle(st, e, k - 1, p, q);
      OthersKeep(st[k - 1], e[k - 1], st[k]);
    }
  }

  lemma BeginsIdle(a: State, e: Event, b: State)
    requires Next(a, e, b) && e.Begin?
    ensures Pub(a, e.p) == Idle
  {
  }

  /** The publishes of one publisher never overlap. */
  lemma OnePublisherIsApart(st: seq<State>, e: seq<Event>, p: nat, s: nat)
    requires IsRun(st, e) && Alone(e, p)
    ensures Apart(st, e, s)
  {
    hide Next, Pub;
    forall k, q: nat | 0 <= k < |e| && e[k].Begin? ensures !ToSend(st[k], q, s) {
      if q != p {
        OthersIdle(st, e, k, p, q);
      } else {
        BeginsIdle(st[k], e[k], st[k + 1]);
      }
    }
  }

  // ----- Exactly when the order can be lost

  predicate NoBegin(e: seq<Event>) {
    forall k :: 0 <= k < |e| ==> !e[k].Begin?
  }

  /** The publishes under way can reach the subscriber out of order. */
  ghost predicate CanReorder(a: State, s: nat) {
    exists st: seq<State>, e: seq<Event> ::
      Continues(a, st, e) && NoBegin(e) && s in st[|e|].subs && !Ascending(st[|e|].subs[s].sent)
  }

  lemma {:induction false} StaysTidy(a: State, st: seq<State>, e: seq<Event>, k: nat, s: nat)
    requires InStep(a) && Continues(a, st, e) && NoBegin(e) && k <= |e| && s in a.subs && Tidy(a, s)
    ensures InStep(st[k]) && s in st[k].subs && Tidy(st[k], s)
  {
    hide Next, Tidy, InStep;
    if k > 0 {
      StaysTidy(a, st, e, k - 1, s);
      TidyStep(st[k - 1], e[k - 1], st[k], s);
      InStepKept(st[k - 1], e[k - 1], st[k]);
    }
  }

  function Over(sub: Sub): nat {
    if Room(sub) then 0 else |sub.buffer| + 1 - SEND_BUFFER
  }

  /** A bound on the steps until a publisher can send to the subscriber. */
  function Wait(pub: Publisher, s: nat, sub: Sub): nat {
    match pub
    case Idle => 0
    case Sending(_, _) => Over(sub) + 1
    case Marking(_, _, _) => Over(sub) + 3
    case SawFull(_, _, _) => Over(sub) + 4
    case Checked(_, _, x) => if x == s then Over(sub) else Over(sub) + 5
  }

  /** One step toward a send, which leaves what was sent to the subscriber, and all other publishers, as
      they are. */
  lemma Approach(a: State, q: nat, s: nat) returns (e: Event, b: State)
    requires InStep(a) && ToSend(a, q, s) && Wait(Pub(a, q), s, a.subs[s]) > 0
    ensures Next(a, e, b) && !e.Begin? && ToSend(b, q, s) && Pub(b, q).number == Pub(a, q).number
    ensures b.subs[s].sent == a.subs[s].sent && b.subs[s].closed == a.subs[s].closed
    ensures forall p: nat :: p != q ==> Pub(b, p) == Pub(a, p)
    ensures Wait(Pub(b, q), s, b.subs[s]) < Wait(Pub(a, q), s, a.subs[s])
  {
    var pub := Pub(a, q);
    match pub {
      case Sending(number, todo) =>
        e, b := Check(q, s), WithPub(a, q, Checked(number, todo - {s}, s));
      case Checked(number, todo, x) =>
        assert Owes(pub, x);
        var sub := a.subs[x];
        if x == s {
          e := Receive(s);
          b := WithSub(a, s, sub.(buffer := sub.buffer[1..], received := sub.received + [sub.buffer[0]]));
        } else if sub.closed {
          e, b := PassOver(q), WithPub(a, q, Sending(number, todo));
        } else if Room(sub) {
          e, b := Send(q), WithSub(WithPub(a, q, Sending(number, todo)), x, WithData(sub, number));
        } else {
          e, b := Full(q), WithPub(a, q, SawFull(number, todo, x));
        }
      case Marking(number, todo, x) =>
        var sub := a.subs[x];
        var c := WithPub(a, q, Sending(number, todo));
        if sub.closed || !Room(sub) {
          e, b := NoMark(q), c;
        } else {
          e, b := Mark(q), WithSub(c, x, sub.(buffer := sub.buffer + [DropMarker]));
        }
      case SawFull(number, todo, x) =>
        assert Owes(pub, x);
        var sub := a.subs[x];
        if sub.closed {
          e, b := GiveUp(q), WithPub(a, q, Sending(number, todo));
        } else {
          e, b := Drop(q), WithSub(WithPub(a, q, Marking(number, todo, x)), x, sub.(drops := sub.drops + 1));
        }
    }
  }

  lemma Prepend(a: State, f: Event, b: State, st: seq<State>, e: seq<Event>)
    requires Next(a, f, b) && Continues(b, st, e) && NoBegin(e) && !f.Begin?
    ensures Continues(a, [a] + st, [f] + e) && NoBegin([f] + e) && ([a] + st)[|[f] + e|] == st[|e|]
  {
    hide Next;
    forall k | 0 <= k < |[f] + e| ensures Next(([a] + st)[k], ([f] + e)[k], ([a] + st)[k + 1]) {
      if k > 0 {
        assert Next(st[k - 1], e[k - 1], st[k]);
      }
    }
  }

  lemma JoinRuns(a: State, s1: seq<State>, e1: seq<Event>, s2: seq<State>, e2: seq<Event>)
    requires Continues(a, s1, e1) && Continues(s1[|e1|], s2, e2) && NoBegin(e1) && NoBegin(e2)
    ensures Continues(a, s1 + s2[1..], e1 + e2) && NoBegin(e1 + e2) && (s1 + s2[1..])[|e1 + e2|] == s2[|e2|]
  {
    hide Next;
    var st, e := s1 + s2[1..], e1 + e2;
    forall k | 0 <= k < |e| ensures Next(st[k], e[k], st[k + 1]) {
      if k < |e1| {
        assert Next(s1[k], e1[k], s1[k + 1]);
      } else {
        assert Next(s2[k - |e1|], e2[k - |e1|], s2[k - |e1| + 1]);
      }
    }
  }

  lemma LastSend(a: State, q: nat, s: nat) returns (e: Event, b: State)
    requires ToSend(a, q, s) && Wait(Pub(a, q), s, a.subs[s]) == 0
    ensures Next(a, e, b) && !e.Begin? && s in b.subs && b.subs[s].sent == a.subs[s].sent + [Pub(a, q).number]
    ensures b.subs[s].closed == a.subs[s].closed
    ensures forall p: nat :: p != q ==> Pub(b, p) == Pub(a, p)
  {
    var pub := Pub(a, q);
    e, b := Send(q), WithSub(WithPub(a, q, Sending(pub.number, pub.todo)), s, WithData(a.subs[s], pub.number));
  }

  /** A publisher can always get to its send, whatever it is at and however full the channel is. */
  lemma SendFrom(a: State, q: nat, s: nat) returns (st: seq<State>, e: seq<Event>)
    requires InStep(a) && ToSend(a, q, s)
    ensures Continues(a, st, e) && NoBegin(e) && InStep(st[|e|]) && s in st[|e|].subs
    ensures st[|e|].subs[s].sent == a.subs[s].sent + [Pub(a, q).number]
    ensures forall p: nat :: p != q && ToSend(a, p, s) ==> ToSend(st[|e|], p, s) && Pub(st[|e|], p) == Pub(a, p)
    decreases Wait(Pub(a, q), s, a.subs[s])
  {
    hide Next, Wait, InStep, Continues;
    if Wait(Pub(a, q), s, a.subs[s]) == 0 {
      var f, b := LastSend(a, q, s);
      InStepKept(a, f, b);
      OneStep(a, f, b);
      st, e := [a, b], [f];
      OthersToSend(a, b, q, s);
    } else {
      var f, b := Approach(a, q, s);
      InStepKept(a, f, b);
      OthersToSend(a, b, q, s);
      var st1, e1 := SendFrom(b, q, s);
      ContinuesLength(b, st1, e1);
      Prepend(a, f, b, st1, e1);
      st, e := [a] + st1, [f] + e1;
    }
  }

  lemma OthersToSend(a: State, b: State, q: nat, s: nat)
    requires s in a.subs && s in b.subs && a.subs[s].closed == b.subs[s].closed
    requires forall p: nat :: p != q ==> Pub(b, p) == Pub(a, p)
    ensures forall p: nat :: p != q && ToSend(a, p, s) ==> ToSend(b, p, s)
  {
  }

  lemma OneStep(a: State, f: Event, b: State)
    requires Next(a, f, b) && !f.Begin?
    ensures Continues(a, [a, b], [f]) && NoBegin([f])
  {
    hide Next;
  }

  lemma ContinuesLength(a: State, st: seq<State>, e: seq<Event>)
    requires Continues(a, st, e)
    ensures |st| == |e| + 1
  {
  }

  /** A publish still to be sent is later sent after a newer one, or can be overtaken by another. */
  ghost predicate Overtaken(a: State, s: nat)
    requires s in a.subs
  {
    exists q :: ToSend(a, q, s)
                && (!AllBelow(a.subs[s].sent, Pub(a, q).number) || exists p :: p != q && ToSend(a, p, s))
  }

  lemma OvertakenSends(a: State, s: nat) returns (st: seq<State>, e: seq<Event>)
    requires InStep(a) && s in a.subs && Ascending(a.subs[s].sent) && Overtaken(a, s)
    ensures Continues(a, st, e) && NoBegin(e) && |st| == |e| + 1 && s in st[|e|].subs && !Ascending(st[|e|].subs[s].sent)
  {
    hide Next, InStep, Continues, NoBegin, Ascending, AllBelow;
    var sent := a.subs[s].sent;
    var q: nat :| ToSend(a, q, s) && (!AllBelow(sent, Pub(a, q).number) || exists p :: p != q && ToSend(a, p, s));
    if AllBelow(sent, Pub(a, q).number) {
      var p: nat :| p != q && ToSend(a, p, s);
      var (newer, older) := if Pub(a, p).number >= Pub(a, q).number then (p, q) else (q, p);
      var s1, e1 := SendFrom(a, newer, s);
      ContinuesLength(a, s1, e1);
      var s2, e2 := SendFrom(s1[|e1|], older, s);
      ContinuesLength(s1[|e1|], s2, e2);
      JoinRuns(a, s1, e1, s2, e2);
      st, e := s1 + s2[1..], e1 + e2;
      OutOfOrder(sent, Pub(a, newer).number, Pub(a, older).number);
    } else {
      st, e := SendFrom(a, q, s);
      ContinuesLength(a, st, e);
      AscendingPush(sent, Pub(a, q).number);
    }
  }

  lemma OutOfOrder(sent: seq<nat>, m: nat, n: nat)
    requires m >= n
    ensures !Ascending(sent + [m] + [n])
  {
    var more := sent + [m] + [n];
    assert more[|sent|] == m && more[|sent| + 1] == n;
  }

  /** What is under way can reach a subscriber out of order exactly when a publish still to be sent to it
      is older than one that was sent, or is not the only one still to be sent. */
  lemma ReorderIff(a: State, s: nat)
    requires InStep(a) && s in a.subs && Ascending(a.subs[s].sent)
    ensures CanReorder(a, s) <==> Overtaken(a, s)
  {
    hide Next, InStep, Ascending, AllBelow, Pub, ToSend, NoBegin;
    if Overtaken(a, s) {
      var st, e := OvertakenSends(a, s);
      assert Continues(a, st, e) && NoBegin(e);
    } else {
      assert Tidy(a, s);
      forall st: seq<State>, e: seq<Event> | Continues(a, st, e) && NoBegin(e)
        ensures s in st[|e|].subs && Ascending(st[|e|].subs[s].sent)
      {
        StaysTidy(a, st, e, |e|, s);
      }
    }
  }

  /** A guard for a publish: after a run whose publishes to the subscriber did not overlap, beginning one
      makes disorder possible exactly when it takes the subscriber in while another is still to be sent
      to it. */
  lemma BeginCanReorderIff(st: seq<State>, e: seq<Event>, p: nat, b: State, s: nat)
    requires IsRun(st, e) && Apart(st, e, s) && s in st[|e|].subs && Next(st[|e|], Begin(p), b)
    ensures s in b.subs
    ensures CanReorder(b, s) <==> s in st[|e|].members && exists q :: ToSend(st[|e|], q, s)
  {
    hide Next, InStep, Ascending, AllBelow, Pub, ToSend, CanReorder, Inv;
    var a := st[|e|];
    RunInv(st, e, |e|);
    InStepOf(a);
    InStepKept(a, Begin(p), b);
    RunTidy(st, e, |e|, s);
    SendsStep(a, Begin(p), b, s, p);
    ReorderIff(b, s);
    if q: nat :| s in a.members && ToSend(a, q, s) {
      BothToSend(a, p, b, q, s);
    } else {
      TidyStep(a, Begin(p), b, s);
    }
  }

  lemma BothToSend(a: State, p: nat, b: State, q: nat, s: nat)
    requires InStep(a) && Next(a, Begin(p), b) && s in a.members && ToSend(a, q, s)
    ensures p != q && ToSend(b, p, s) && ToSend(b, q, s)
  {
  }

  /** A run in which two publishers have both begun when the second one sends first. */
  lemma TwoPublishersCanReorder() returns (st: seq<State>, e: seq<Event>)
    ensures IsRun(st, e) && 0 in st[|e|].subs
    ensures st[|e|].subs[0].sent == [1, 0]
  {
    hide Next;
    st := [INITIAL, P1, P2, P3, P4, P5, P6, P7];
    e := [Join(0), Begin(0), Begin(1), Check(1, 0), Send(1), Check(0, 0), Send(0)];
    BothBegin();
    SecondSendsFirst();
  }

  const SUB0 := Sub([], false, 0, [], [], 2)
  const P1 := State({0}, map[0 := NEW_SUB], map[], 0)
  const P2 := State({0}, map[0 := Sub([], false, 0, [], [], 1)], map[0 := Sending(0, {0})], 1)
  const P3 := State({0}, map[0 := SUB0], map[0 := Sending(0, {0}), 1 := Sending(1, {0})], 2)
  const P4 := P3.(pubs := map[0 := Sending(0, {0}), 1 := Checked(1, {}, 0)])
  const P5 := P3.(pubs := map[0 := Sending(0, {0}), 1 := Sending(1, {})], subs := map[0 := WithData(SUB0, 1)])
  const P6 := P5.(pubs := map[0 := Checked(0, {}, 0), 1 := Sending(1, {})])
  const P7 := P5.(pubs := map[0 := Sending(0, {}), 1 := Sending(1, {})], subs := map[0 := WithData(WithData(SUB0, 1), 0)])

  lemma BothBegin()
    ensures Next(INITIAL, Join(0), P1) && Next(P1, Begin(0), P2) && Next(P2, Begin(1), P3)
  {
    assert INITIAL.subs[0 := NEW_SUB] == P1.subs && {} + {0} == P1.members;
    assert Addressed(P1) == P2.subs && P1.pubs[0 := Sending(0, {0})] == P2.pubs;
    assert Addressed(P2) == P3.subs && P2.pubs[1 := Sending(1, {0})] == P3.pubs;
  }

  lemma SecondSendsFirst()
    ensures Next(P3, Check(1, 0), P4) && Next(P4, Send(1), P5) && Next(P5, Check(0, 0), P6) && Next(P6, Send(0), P7)
  {
    assert {0} - {0} == {};
    assert P3.pubs[1 := Checked(1, {}, 0)] == P4.pubs;
    assert P4.pubs[1 := Sending(1, {})] == P5.pubs && P4.subs[0 := WithData(SUB0, 1)] == P5.subs;
    assert P5.pubs[0 := Checked(0, {}, 0)] == P6.pubs;
    assert P6.pubs[0 := Sending(0, {})] == P7.pubs && P6.subs[0 := WithData(WithData(SUB0, 1), 0)] == P7.subs;
  }
}
