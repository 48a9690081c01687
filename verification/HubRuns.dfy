/** One session of the hub while publishers, subscribers and readers interleave. A publish takes its
    subscribers in one step, under the hub's lock, and then sends to them one by one, without it. */
module HubRuns {
  const SEND_BUFFER := 256

  datatype Message = Data(number: nat) | DropMarker

  /** A subscriber's channel and flags, and what went through them: the numbers of the data put into
      the channel, what was read from it, and how many publishes took the subscriber in. */
  datatype Sub = Sub(buffer: seq<Message>, closed: bool, drops: nat, sent: seq<nat>, received: seq<Message>, addressed: nat)

  const NEW_SUB := Sub([], false, 0, [], [], 0)

  datatype Publisher =
    | Idle
    | Sending(number: nat, todo: set<nat>)
    | Checked(number: nat, todo: set<nat>, sub: nat)
    | SawFull(number: nat, todo: set<nat>, sub: nat)
    | Marking(number: nat, todo: set<nat>, sub: nat)

  datatype State = State(members: set<nat>, subs: map<nat, Sub>, pubs: map<nat, Publisher>, published: nat)

  datatype Event =
    | Join(s: nat)
    | Leave(s: nat)
    | Close(s: nat)
    | Begin(p: nat)
    | Skip(p: nat, s: nat)
    | Check(p: nat, s: nat)
    | PassOver(p: nat)
    | Send(p: nat)
    | Full(p: nat)
    | GiveUp(p: nat)
    | Drop(p: nat)
    | Mark(p: nat)
    | NoMark(p: nat)
    | End(p: nat)
    | Receive(s: nat)

  const INITIAL := State({}, map[], map[], 0)

  function Pub(st: State, p: nat): Publisher {
    if p in st.pubs then st.pubs[p] else Idle
  }

  function WithPub(st: State, p: nat, pub: Publisher): State {
    st.(pubs := st.pubs[p := pub])
  }

  function WithSub(st: State, s: nat, sub: Sub): State {
    st.(subs := st.subs[s := sub])
  }

  function Addressed(st: State): map<nat, Sub> {
    map s | s in st.subs :: if s in st.members then st.subs[s].(addressed := st.subs[s].addressed + 1) else st.subs[s]
  }

  function WithData(sub: Sub, number: nat): Sub {
    sub.(buffer := sub.buffer + [Data(number)], sent := sub.sent + [number])
  }

  predicate Room(sub: Sub) {
    |sub.buffer| < SEND_BUFFER
  }

  ghost predicate Next(a: State, e: Event, b: State) {
    match e
    case Join(s) =>
      s !in a.subs && b == WithSub(a, s, NEW_SUB).(members := a.members + {s})
    case Leave(s) =>
      b == a.(members := a.members - {s})
    case Close(s) =>
      s in a.subs && s !in a.members && b == WithSub(a, s, a.subs[s].(closed := true))
    case Begin(p) =>
      Pub(a, p) == Idle
      && b == WithPub(a, p, Sending(a.published, a.members)).(subs := Addressed(a), published := a.published + 1)
    case Skip(p, s) =>
      // the first test: a subscriber that is closed is passed over
      Pub(a, p).Sending? && s in Pub(a, p).todo && s in a.subs && a.subs[s].closed
      && b == WithPub(a, p, Sending(Pub(a, p).number, Pub(a, p).todo - {s}))
    case Check(p, s) =>
      Pub(a, p).Sending? && s in Pub(a, p).todo && s in a.subs && !a.subs[s].closed
      && b == WithPub(a, p, Checked(Pub(a, p).number, Pub(a, p).todo - {s}, s))
    case PassOver(p) =>
      Pub(a, p).Checked? && Pub(a, p).sub in a.subs && a.subs[Pub(a, p).sub].closed
      && b == WithPub(a, p, Sending(Pub(a, p).number, Pub(a, p).todo))
    case Send(p) =>
      // even to a subscriber closed since the test, since a select may take any case that is ready
      Pub(a, p).Checked? && Pub(a, p).sub in a.subs && Room(a.subs[Pub(a, p).sub])
      && b == WithSub(WithPub(a, p, Sending(Pub(a, p).number, Pub(a, p).todo)), Pub(a, p).sub,
                      WithData(a.subs[Pub(a, p).sub], Pub(a, p).number))
    case Full(p) =>
      Pub(a, p).Checked? && Pub(a, p).sub in a.subs && !Room(a.subs[Pub(a, p).sub]) && !a.subs[Pub(a, p).sub].closed
      && b == WithPub(a, p, SawFull(Pub(a, p).number, Pub(a, p).todo, Pub(a, p).sub))
    case GiveUp(p) =>
      Pub(a, p).SawFull? && Pub(a, p).sub in a.subs && a.subs[Pub(a, p).sub].closed
      && b == WithPub(a, p, Sending(Pub(a, p).number, Pub(a, p).todo))
    case Drop(p) =>
      Pub(a, p).SawFull? && Pub(a, p).sub in a.subs && !a.subs[Pub(a, p).sub].closed
      && b == WithSub(WithPub(a, p, Marking(Pub(a, p).number, Pub(a, p).todo, Pub(a, p).sub)), Pub(a, p).sub,
                      a.subs[Pub(a, p).sub].(drops := a.subs[Pub(a, p).sub].drops + 1))
    case Mark(p) =>
      Pub(a, p).Marking? && Pub(a, p).sub in a.subs && Room(a.subs[Pub(a, p).sub])
      && b == WithSub(WithPub(a, p, Sending(Pub(a, p).number, Pub(a, p).todo)), Pub(a, p).sub,
                      a.subs[Pub(a, p).sub].(buffer := a.subs[Pub(a, p).sub].buffer + [DropMarker]))
    case NoMark(p) =>
      Pub(a, p).Marking? && Pub(a, p).sub in a.subs
      && (a.subs[Pub(a, p).sub].closed || !Room(a.subs[Pub(a, p).sub]))
      && b == WithPub(a, p, Sending(Pub(a, p).number, Pub(a, p).todo))
    case End(p) =>
      Pub(a, p).Sending? && Pub(a, p).todo == {} && b == WithPub(a, p, Idle)
    case Receive(s) =>
      s in a.subs && a.subs[s].buffer != []
      && b == WithSub(a, s, a.subs[s].(buffer := a.subs[s].buffer[1..], received := a.subs[s].received + [a.subs[s].buffer[0]]))
  }

  ghost predicate Continues(a: State, st: seq<State>, e: seq<Event>) {
    |st| == |e| + 1 && st[0] == a && forall k :: 0 <= k < |e| ==> Next(st[k], e[k], st[k + 1])
  }

  ghost predicate IsRun(st: seq<State>, e: seq<Event>) {
    Continues(INITIAL, st, e)
  }

  // ----- Conservation

  /** The publisher has taken the subscriber in and not yet sent to it, dropped, or passed it over. */
  predicate Owes(pub: Publisher, s: nat) {
    match pub
    case Idle => false
    case Sending(_, todo) => s in todo
    case Checked(_, todo, sub) => s in todo || s == sub
    case SawFull(_, todo, sub) => s in todo || s == sub
    case Marking(_, todo, _) => s in todo
  }

  ghost function Owing(st: State, s: nat): set<nat> {
    set p | p in st.pubs && Owes(st.pubs[p], s)
  }

  /** Every publish that took an open subscriber in was sent to it, counted as a drop, or is still
      under way; for a closed one, some may have been passed over. */
  ghost predicate Accounted(st: State, s: nat)
    requires s in st.subs
  {
    var sub := st.subs[s];
    var known := |sub.sent| + sub.drops + |Owing(st, s)|;
    if sub.closed then known <= sub.addressed else known == sub.addressed
  }

  ghost predicate InStep(st: State) {
    && (forall s :: s in st.members ==> s in st.subs && !st.subs[s].closed)
    && (forall p, s :: Owes(Pub(st, p), s) ==> s in st.subs)
    && (forall p :: Pub(st, p).Checked? || Pub(st, p).SawFull? ==> Pub(st, p).sub !in Pub(st, p).todo)
    && (forall p :: Pub(st, p).Marking? ==> Pub(st, p).sub in st.subs)
  }

  ghost predicate Inv(st: State) {
    InStep(st) && forall s :: s in st.subs ==> Accounted(st, s)
  }

  /** The publisher an event belongs to, or -1. */
  function Mover(e: Event): int {
    match e
    case Begin(p) => p
    case Skip(p, _) => p
    case Check(p, _) => p
    case PassOver(p) => p
    case Send(p) => p
    case Full(p) => p
    case GiveUp(p) => p
    case Drop(p) => p
    case Mark(p) => p
    case NoMark(p) => p
    case End(p) => p
    case _ => -1
  }

  lemma OthersKeep(a: State, e: Event, b: State)
    requires Next(a, e, b)
    ensures forall p: nat :: p != Mover(e) ==> Pub(b, p) == Pub(a, p)
  {
    hide Room, Addressed;
  }

  function One(c: bool): nat {
    if c then 1 else 0
  }

  lemma OwingSame(a: State, b: State, s: nat)
    requires forall p: nat :: Pub(b, p) == Pub(a, p)
    ensures Owing(b, s) == Owing(a, s)
  {
    forall p: nat ensures p in Owing(b, s) <==> p in Owing(a, s) {
      assert Pub(b, p) == Pub(a, p);
    }
  }

  /** One publisher moves: it alone may start or stop owing the subscriber. */
  lemma OwingMoves(a: State, b: State, m: nat, s: nat)
    requires forall p: nat :: p != m ==> Pub(b, p) == Pub(a, p)
    ensures |Owing(b, s)| == |Owing(a, s)| - One(Owes(Pub(a, m), s)) + One(Owes(Pub(b, m), s))
  {
    hide Owes, Owing;
    SplitOff(a, m, s);
    SplitOff(b, m, s);
    forall p: nat | p != m ensures p in Owing(b, s) <==> p in Owing(a, s) {
      OwingIs(a, p, s);
      OwingIs(b, p, s);
    }
    assert Owing(b, s) - {m} == Owing(a, s) - {m};
  }

  lemma OwingIs(st: State, p: nat, s: nat)
    ensures p in Owing(st, s) <==> Owes(Pub(st, p), s)
  {
  }

  lemma SplitOff(st: State, m: nat, s: nat)
    ensures |Owing(st, s)| == |Owing(st, s) - {m}| + One(Owes(Pub(st, m), s))
  {
    hide Owes;
    OwingIs(st, m, s);
    if m in Owing(st, s) {
      assert Owing(st, s) == (Owing(st, s) - {m}) + {m};
    } else {
      assert Owing(st, s) == Owing(st, s) - {m};
    }
  }

  lemma InStepKept(a: State, e: Event, b: State)
    requires InStep(a) && Next(a, e, b)
    ensures InStep(b)
  {
    OthersKeep(a, e, b);
    assert a.subs.Keys <= b.subs.Keys;
    forall p: nat, s | Owes(Pub(b, p), s) ensures s in b.subs {
      assert p != Mover(e) ==> Owes(Pub(a, p), s);
    }
  }

  lemma AccountedKept(a: State, e: Event, b: State, s: nat)
    requires Inv(a) && Next(a, e, b) && s in b.subs
    ensures Accounted(b, s)
  {
    OthersKeep(a, e, b);
    if Mover(e) == -1 {
      OwingSame(a, b, s);
      if s !in a.subs {
        forall p: nat ensures p !in Owing(a, s) { OwingIs(a, p, s); }
        assert Owing(a, s) == {};
      }
    } else {
      OwingMoves(a, b, Mover(e), s);
      assert s in a.subs && Accounted(a, s);
    }
  }

  lemma InvStep(a: State, e: Event, b: State)
    requires Inv(a) && Next(a, e, b)
    ensures Inv(b)
  {
    hide Next, Accounted;
    InStepKept(a, e, b);
    forall s | s in b.subs ensures Accounted(b, s) { AccountedKept(a, e, b, s); }
  }

  lemma InitialInv()
    ensures Inv(INITIAL)
  {
  }

  lemma {:induction false} RunInv(st: seq<State>, e: seq<Event>, k: nat)
    requires IsRun(st, e) && k <= |e|
    ensures Inv(st[k])
  {
    hide Next, Inv;
    if k == 0 {
      InitialInv();
    } else {
      RunInv(st, e, k - 1);
      InvStep(st[k - 1], e[k - 1], st[k]);
    }
  }

  /** How many publishes took the subscriber in, over the run. */
  ghost function Publishes(st: seq<State>, e: seq<Event>, s: nat): nat
    requires |st| == |e| + 1
  {
    if e == [] then 0
    else
      var n := |e| - 1;
      Publishes(st[..n + 1], e[..n], s) + One(e[n].Begin? && s in st[n].members)
  }

  lemma AddressedStep(a: State, e: Event, b: State, s: nat)
    requires InStep(a) && Next(a, e, b) && s in b.subs
    ensures s in a.subs ==> b.subs[s].addressed == a.subs[s].addressed + One(e.Begin? && s in a.members)
    ensures s !in a.subs ==> b.subs[s].addressed == 0 && s !in a.members
  {
    hide Room;
  }

  lemma {:induction false} AddressedIs(st: seq<State>, e: seq<Event>, s: nat)
    requires IsRun(st, e)
    ensures Publishes(st, e, s) == if s in st[|e|].subs then st[|e|].subs[s].addressed else 0
  {
    hide Next, Inv;
    if e != [] {
      var n := |e| - 1;
      RunPrefix(st, e, n);
      AddressedIs(st[..n + 1], e[..n], s);
      RunInv(st, e, n);
      InStepOf(st[n]);
      if s in st[n + 1].subs {
        AddressedStep(st[n], e[n], st[n + 1], s);
      } else {
        SubsStay(st[n], e[n], st[n + 1]);
      }
    }
  }

  lemma InStepOf(st: State)
    requires Inv(st)
    ensures InStep(st)
  {
  }

  lemma SubsStay(a: State, e: Event, b: State)
    requires Next(a, e, b)
    ensures a.subs.Keys <= b.subs.Keys
  {
  }

  lemma RunPrefix(st: seq<State>, e: seq<Event>, n: nat)
    requires IsRun(st, e) && n <= |e|
    ensures IsRun(st[..n + 1], e[..n])
  {
    hide Next;
  }

  /** Nothing is lost silently: when no publish to an open subscriber is under way, every publish made
      while it was subscribed was either sent to it or counted as a drop. */
  lemma SendsPlusDrops(st: seq<State>, e: seq<Event>, s: nat)
    requires IsRun(st, e) && s in st[|e|].subs && !st[|e|].subs[s].closed
    requires forall p: nat :: !Owes(Pub(st[|e|], p), s)
    ensures |st[|e|].subs[s].sent| + st[|e|].subs[s].drops == Publishes(st, e, s)
  {
    hide Next, Owes;
    RunInv(st, e, |e|);
    AddressedIs(st, e, s);
    forall p: nat ensures p !in Owing(st[|e|], s) { OwingIs(st[|e|], p, s); }
    assert Owing(st[|e|], s) == {};
    assert Accounted(st[|e|], s);
  }

  // ----- What a subscriber receives

  /** The numbers of the data among some messages, in order. */
  function Numbers(messages: seq<Message>): seq<nat> {
    if messages == [] then []
    else
      var last := messages[|messages| - 1];
      Numbers(messages[..|messages| - 1]) + if last.Data? then [last.number] else []
  }

  lemma NumbersPush(messages: seq<Message>, m: Message)
    ensures Numbers(messages + [m]) == Numbers(messages) + if m.Data? then [m.number] else []
  {
    assert (messages + [m])[..|messages|] == messages;
  }

  /** The channel keeps order and loses nothing: what was read and what waits is what was sent. */
  ghost predicate Channel(sub: Sub) {
    |sub.buffer| <= SEND_BUFFER && Numbers(sub.received + sub.buffer) == sub.sent
  }

  lemma ChannelPush(sub: Sub, m: Message, after: Sub)
    requires Channel(sub) && Room(sub) && after.buffer == sub.buffer + [m] && after.received == sub.received
    requires after.sent == sub.sent + if m.Data? then [m.number] else []
    ensures Channel(after)
  {
    NumbersPush(sub.received + sub.buffer, m);
    assert after.received + after.buffer == sub.received + sub.buffer + [m];
  }

  lemma ChannelPop(sub: Sub, after: Sub)
    requires Channel(sub) && sub.buffer != [] && after.sent == sub.sent
    requires after.buffer == sub.buffer[1..] && after.received == sub.received + [sub.buffer[0]]
    ensures Channel(after)
  {
    assert after.received + after.buffer == sub.received + sub.buffer;
  }

  lemma ChannelKept(a: State, e: Event, b: State, s: nat)
    requires Next(a, e, b) && s in b.subs && (s in a.subs ==> Channel(a.subs[s]))
    ensures Channel(b.subs[s])
  {
    hide Channel, Numbers;
    if s !in a.subs {
      assert b.subs[s] == NEW_SUB;
      NewChannel();
    } else if e.Send? && Pub(a, e.p).sub == s {
      ChannelPush(a.subs[s], Data(Pub(a, e.p).number), b.subs[s]);
    } else if e.Mark? && Pub(a, e.p).sub == s {
      ChannelPush(a.subs[s], DropMarker, b.subs[s]);
    } else if e.Receive? && e.s == s {
      ChannelPop(a.subs[s], b.subs[s]);
    } else {
      ChannelSame(a.subs[s], b.subs[s]);
    }
  }

  lemma NewChannel()
    ensures Channel(NEW_SUB)
  {
    assert NEW_SUB.received + NEW_SUB.buffer == [];
  }

  lemma ChannelSame(sub: Sub, after: Sub)
    requires Channel(sub) && after.buffer == sub.buffer && after.received == sub.received && after.sent == sub.sent
    ensures Channel(after)
  {
  }

  lemma {:induction false} RunChannels(st: seq<State>, e: seq<Event>, k: nat, s: nat)
    requires IsRun(st, e) && k <= |e| && s in st[k].subs
    ensures |st[k].subs[s].buffer| <= 256
    ensures Numbers(st[k].subs[s].received + st[k].subs[s].buffer) == st[k].subs[s].sent
  {
    hide Next, Numbers;
    if k > 0 {
      if s in st[k - 1].subs {
        RunChannels(st, e, k - 1, s);
      }
      ChannelKept(st[k - 1], e[k - 1], st[k], s);
    }
  }

  lemma PubStep(a: State, e: Event, b: State, p: nat)
    requires Next(a, e, b) && Pub(b, p).SawFull?
    ensures Pub(a, p) == Pub(b, p) || (e == Full(p) && Pub(a, p).Checked? && Pub(a, p).sub == Pub(b, p).sub)
    ensures e == Full(p) ==> Pub(b, p).sub in a.subs && |a.subs[Pub(b, p).sub].buffer| >= 256
  {
    OthersKeep(a, e, b);
  }

  /** A publish counts a drop only if it met the channel full, with 256 messages in it. */
  lemma {:induction false} DropsWhenFull(st: seq<State>, e: seq<Event>, k: nat, p: nat)
    requires IsRun(st, e) && k <= |e| && Pub(st[k], p).SawFull?
    ensures
      var s := Pub(st[k], p).sub;
      exists j :: 0 <= j < k && e[j] == Full(p) && s in st[j].subs && |st[j].subs[s].buffer| == 256
                  && forall i :: j < i <= k ==> Pub(st[i], p) == Pub(st[k], p)
  {
    hide Next, Pub, Numbers;
    if k == 0 {
      NoPub(p);
    } else {
      PubStep(st[k - 1], e[k - 1], st[k], p);
      if e[k - 1] == Full(p) {
        RunChannels(st, e, k - 1, Pub(st[k], p).sub);
      } else {
        DropsWhenFull(st, e, k - 1, p);
      }
    }
  }

  lemma NoPub(p: nat)
    ensures Pub(INITIAL, p) == Idle
  {
  }
}
