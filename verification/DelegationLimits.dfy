/** Where delegation's guarantees end: exactly when an enqueue can lead to a deadlock, and exactly when
    an ended task can run again. */
module DelegationLimits {
  import opened TaskTable
  import opened DelegationRuns

  // ----- Exactly when an enqueue can lead to a deadlock

  /** Nothing is under way: nothing to resolve, no cancellation, no agent selected, nothing held. */
  ghost predicate Quiet(s: State) {
    Idle(s) && s.cancelling == multiset{} && s.polled == multiset{} && s.claimed == {} && s.started == {}
  }

  ghost predicate Deadlock(s: State) {
    Quiet(s) && (exists id :: id in s.rows && s.rows[id].status == Pending) && !CanProceed(s)
  }

  /** Further steps, whose enqueues are all good, lead to a deadlock. */
  ghost predicate CanDeadlock(a: State) {
    exists s, e :: Continues(a, s, e) && GoodAtEnqueue(s, e, true) && Deadlock(s[|e|])
  }

  /** Everything that is under way belongs to a row. */
  ghost predicate Rooted(s: State) {
    && (forall x :: x in s.unresolved ==> x in s.rows)
    && (forall x :: x in s.cancelling ==> x in s.rows)
    && (forall x :: Holds(s, x) ==> x in s.rows)
  }

  lemma StepRooted(s: State, e: Event, t: State)
    requires Next(s, e, t) && Rooted(s)
    ensures Rooted(t)
  {
    hide Next, Holds;
    forall x ensures UnderWay(t, x) ==> x in t.rows {
      UnderWayStep(s, e, t, x);
      if x in s.rows {
        RowStays(s, e, t, x);
      }
    }
    UnderWayIs(t);
  }

  predicate UnderWay(s: State, x: Id) {
    x in s.unresolved || x in s.cancelling || Holds(s, x)
  }

  lemma UnderWayIs(s: State)
    requires forall x :: UnderWay(s, x) ==> x in s.rows
    ensures Rooted(s)
  {
    hide Holds;
    forall x ensures x in s.unresolved || x in s.cancelling || Holds(s, x) ==> x in s.rows {
      assert UnderWay(s, x) ==> x in s.rows;
    }
  }

  /** What is under way was so before, or is a row that a statement has just read or written. */
  lemma UnderWayStep(s: State, e: Event, t: State, x: Id)
    requires Next(s, e, t) && Rooted(s)
    ensures UnderWay(t, x) ==> x in s.rows
  {
    hide Written, Resolved, Unblocked;
  }

  lemma RowStays(s: State, e: Event, t: State, x: Id)
    requires Next(s, e, t) && x in s.rows
    ensures x in t.rows
  {
    hide Next;
    RowStep(s, e, t, x);
  }

  lemma {:induction false} RunRooted(s: seq<State>, e: seq<Event>, n: nat)
    requires IsRun(s, e) && n < |s|
    ensures Rooted(s[n])
  {
    hide Next, Rooted;
    if n == 0 {
      InitialRooted();
    } else {
      RunRooted(s, e, n - 1);
      StepRooted(s[n - 1], e[n - 1], s[n]);
    }
  }

  lemma InitialRooted()
    ensures Rooted(INITIAL)
  {
  }

  /** The task waits for b, and nothing that is under way will change that. */
  ghost predicate Stuck(s: State, id: Id, b: Id) {
    && Rooted(s) && id in s.rows && s.rows[id].status == Pending && b in s.rows[id].blockedBy
    && id !in s.unresolved && id !in s.cancelling && !Holds(s, id)
    && (b in s.rows && s.rows[b].user == s.rows[id].user && b != id ==> !Live(s, b, true))
  }

  /** The other tasks that are active and not being cancelled. */
  ghost function Others(s: State, id: Id): set<Id> {
    set x | x in s.rows && x != id && Active(s.rows[x].status) && x !in s.cancelling
  }

  /** A bound on the steps until only the one task is active and nothing is under way. */
  ghost function Left(s: State, id: Id): nat {
    3 * |Others(s, id)| + 2 * |s.cancelling| + |s.unresolved| + |s.claimed| + |s.started| + |s.polled|
  }

  /** One step that brings the rest to an end. */
  lemma SettleStep(s: State, id: Id, b: Id) returns (e: Event, t: State)
    requires Stuck(s, id, b) && Left(s, id) > 0
    ensures Next(s, e, t) && !e.Enqueue? && Stuck(t, id, b) && Left(t, id) < Left(s, id)
  {
    hide Next, Stuck;
    if x :| x in s.claimed + s.started {
      e, t := SettleHeld(s, id, b, x);
    } else if x :| x in s.polled {
      e, t := SettlePolled(s, id, b, x);
    } else if x :| x in s.cancelling {
      e, t := SettleCancel(s, id, b, x);
    } else if x :| x in s.unresolved {
      e, t := SettleResolve(s, id, b, x);
    } else {
      assert s.claimed + s.started == {};
      assert Others(s, id) != {};
      var x :| x in Others(s, id);
      e, t := SettleOther(s, id, b, x);
    }
  }

  lemma SettleHeld(s: State, id: Id, b: Id, x: Id) returns (e: Event, t: State)
    requires Stuck(s, id, b) && Holds(s, x)
    ensures Next(s, e, t) && !e.Enqueue? && Stuck(t, id, b) && Left(t, id) < Left(s, id)
  {
    e, t := Abandon(x), s.(claimed := s.claimed - {x}, started := s.started - {x});
    assert Others(t, id) == Others(s, id);
  }

  lemma SettlePolled(s: State, id: Id, b: Id, x: Id) returns (e: Event, t: State)
    requires Stuck(s, id, b) && x in s.polled
    ensures Next(s, e, t) && !e.Enqueue? && Stuck(t, id, b) && Left(t, id) < Left(s, id)
  {
    e, t := Pass(x), s.(polled := s.polled - multiset{x});
    assert Others(t, id) == Others(s, id);
  }

  lemma SettleOther(s: State, id: Id, b: Id, x: Id) returns (e: Event, t: State)
    requires Stuck(s, id, b) && x in Others(s, id)
    ensures Next(s, e, t) && !e.Enqueue? && Stuck(t, id, b) && Left(t, id) < Left(s, id)
  {
    e, t := CancelRead(x), s.(cancelling := s.cancelling + multiset{x});
    assert Others(t, id) == Others(s, id) - {x};
  }

  lemma SettleCancel(s: State, id: Id, b: Id, x: Id) returns (e: Event, t: State)
    requires Stuck(s, id, b) && x in s.cancelling
    ensures Next(s, e, t) && !e.Enqueue? && Stuck(t, id, b) && Left(t, id) < Left(s, id)
  {
    e := CancelWrite(x);
    t := s.(rows := Written(s.rows, x, Cancelled), cancelling := s.cancelling - multiset{x},
            unresolved := s.unresolved + multiset{x});
    assert Others(t, id) == Others(s, id);
  }

  lemma SettleResolve(s: State, id: Id, b: Id, x: Id) returns (e: Event, t: State)
    requires Stuck(s, id, b) && x in s.unresolved
    ensures Next(s, e, t) && !e.Enqueue? && Stuck(t, id, b) && Left(t, id) < Left(s, id)
  {
    hide Removed;
    e := Resolve(x);
    t := s.(rows := Resolved(s.rows, x, s.rows[x].user), unresolved := s.unresolved - multiset{x});
    StepLists(s, e, t, id, b);
    assert Others(t, id) == Others(s, id);
  }

  /** A stuck task can be left behind alone: the rest is cancelled, and then nothing can proceed. */
  lemma Settle(a: State, id: Id, b: Id) returns (s: seq<State>, e: seq<Event>)
    requires Stuck(a, id, b)
    ensures Continues(a, s, e) && (forall k :: 0 <= k < |e| ==> !e[k].Enqueue?)
    ensures Deadlock(s[|e|]) && Stuck(s[|e|], id, b)
    decreases Left(a, id)
  {
    hide Next, Stuck, Left, Deadlock;
    if Left(a, id) == 0 {
      s, e := [a], [];
      SettledIsDeadlock(a, id, b);
    } else {
      var f, t := SettleStep(a, id, b);
      var s1, e1 := Settle(t, id, b);
      s, e := [a] + s1, [f] + e1;
      forall i | 0 <= i < |e| ensures Next(s[i], e[i], s[i + 1]) {
        if i > 0 {
          assert Next(s1[i - 1], e1[i - 1], s1[i]);
        }
      }
    }
  }

  lemma SettledIsDeadlock(s: State, id: Id, b: Id)
    requires Stuck(s, id, b) && Left(s, id) == 0
    ensures Deadlock(s)
  {
    forall x | x in s.rows && x != id ensures Terminal(s.rows[x].status) {
      assert x !in Others(s, id);
    }
    assert !exists x :: Unblocked(s.rows, x);
  }

  lemma Joined(s: seq<State>, e: seq<Event>, f: Event, t: seq<State>, g: seq<Event>)
    requires IsRun(s, e) && |t| == |g| + 1 && Next(s[|e|], f, t[0]) && Continues(t[0], t, g)
    requires GoodAtEnqueue(s, e, true) && GoodAtEnqueue(t, g, true) && (f.Enqueue? ==> BlockersGood(s[|e|], f.task, true))
    ensures IsRun(s + t, e + [f] + g) && GoodAtEnqueue(s + t, e + [f] + g, true)
  {
    hide Next, BlockersGood;
    var u, h := s + t, e + [f] + g;
    forall i | 0 <= i < |h| ensures Next(u[i], h[i], u[i + 1]) && (h[i].Enqueue? ==> BlockersGood(u[i], h[i].task, true)) {
      if i < |e| {
        assert u[i] == s[i] && h[i] == e[i] && u[i + 1] == s[i + 1];
      } else if i > |e| {
        var k := i - |e| - 1;
        assert u[i] == t[k] && h[i] == g[k] && u[i + 1] == t[k + 1];
      } else {
        assert u[i] == s[|e|] && h[i] == f && u[i + 1] == t[0];
      }
    }
  }

  /** A task can be enqueued without risk exactly when its blockers are live tasks of its user then: if
      one is unknown, of another user, or has ended and is resolved, further steps can reach a deadlock,
      and otherwise none can. */
  lemma EnqueueCanDeadlockIff(s: seq<State>, e: seq<Event>, id: Id, task: Task)
    requires IsRun(s, e) && GoodAtEnqueue(s, e, true)
    requires id !in s[|e|].rows && task.status == Pending
    ensures CanDeadlock(s[|e|].(rows := s[|e|].rows[id := task])) <==> !BlockersGood(s[|e|], task, true)
  {
    hide Next, BlockersGood, GoodAtEnqueue, Deadlock;
    var before := s[|e|];
    var after := before.(rows := before.rows[id := task]);
    EnqueueStep(before, id, task);
    if BlockersGood(before, task, true) {
      forall t, g | Continues(after, t, g) && GoodAtEnqueue(t, g, true) ensures !Deadlock(t[|g|]) {
        Joined(s, e, Enqueue(id, task), t, g);
        NoDeadlock(s + t, e + [Enqueue(id, task)] + g);
      }
    } else {
      RunRooted(s, e, |e|);
      var b := StuckBehind(before, id, task);
      var t, g := Settle(after, id, b);
      NothingEnqueued(t, g);
      assert Continues(after, t, g) && GoodAtEnqueue(t, g, true) && Deadlock(t[|g|]);
    }
  }

  lemma NothingEnqueued(s: seq<State>, e: seq<Event>)
    requires |s| == |e| + 1 && forall k :: 0 <= k < |e| ==> !e[k].Enqueue?
    ensures GoodAtEnqueue(s, e, true)
  {
  }

  lemma EnqueueStep(s: State, id: Id, task: Task)
    requires id !in s.rows && task.status == Pending
    ensures Next(s, Enqueue(id, task), s.(rows := s.rows[id := task]))
  {
  }

  lemma StuckBehind(s: State, id: Id, task: Task) returns (b: Id)
    requires Rooted(s) && id !in s.rows && task.status == Pending && !BlockersGood(s, task, true)
    ensures Stuck(s.(rows := s.rows[id := task]), id, b)
  {
    b :| b in task.blockedBy && !(Live(s, b, true) && s.rows[b].user == task.user);
  }

  lemma NoDeadlock(s: seq<State>, e: seq<Event>)
    requires IsRun(s, e) && GoodAtEnqueue(s, e, true)
    ensures !Deadlock(s[|e|])
  {
    hide Next, GoodAtEnqueue, CanProceed;
    if Deadlock(s[|e|]) {
      var id :| id in s[|e|].rows && s[|e|].rows[id].status == Pending;
      DeadlockFree(s, e, |e|, id, true);
    }
  }

  /** And a deadlock lasts: until somebody enqueues or cancels, no step at all is possible. */
  lemma DeadlockLasts(a: State, e: Event, b: State)
    requires Deadlock(a) && !e.Enqueue? && !e.CancelRead?
    ensures !Next(a, e, b)
  {
    hide CanProceed, Written, Resolved, IsNext;
    if id :| Unblocked(a.rows, id) {
      NothingUnblocked(a, id);
    }
  }

  lemma NothingUnblocked(s: State, id: Id)
    requires !CanProceed(s)
    ensures !Unblocked(s.rows, id)
  {
    if Unblocked(s.rows, id) {
      var next := NextExists(s.rows, s.rows[id].agent, id);
    }
  }

  /** A task behind an unknown id, and nothing else in the table, is a deadlock. */
  lemma UnknownBlockerDeadlocks() returns (s: seq<State>, e: seq<Event>)
    ensures IsRun(s, e) && |s| == 2 && Deadlock(s[1])
    ensures "a" in s[1].rows && s[1].rows["a"].status == Pending
  {
    var task := Task("user", "agent", Pending, ["nobody"], 50, 0);
    var after := INITIAL.(rows := map["a" := task]);
    s, e := [INITIAL, after], [Enqueue("a", task)];
    assert INITIAL.rows["a" := task] == after.rows;
    assert Next(s[0], e[0], s[1]);
    assert IsRun(s, e);
    assert forall id :: id in after.rows ==> id == "a";
  }

  /** So is one behind another user's task, though that one was active at the time and is now done:
      resolving frees only tasks of the blocker's own user. */
  lemma OtherUsersBlockerDeadlocks() returns (s: seq<State>, e: seq<Event>)
    ensures IsRun(s, e) && |s| == 7 && Deadlock(s[6])
    ensures "a" in s[6].rows && s[6].rows["a"].status == Pending
    ensures e[1].Enqueue? && e[1].id == "a" && e[1].task.blockedBy == ["b"]
    ensures "b" in s[1].rows && Active(s[1].rows["b"].status)
    ensures "b" in s[6].rows && s[6].rows["b"].status == Done
  {
    hide Next, IsNext;
    s := [INITIAL, B1, B2, B3, B4, B5, B6];
    e := [Enqueue("b", BOBS), Enqueue("a", ANNS), Poll("b"), Claim("builder", "b"), Finish("b", Done), Resolve("b")];
    BobClaims();
    BobEnds();
    assert forall id :: !Unblocked(B6.rows, id);
    assert "a" in B6.rows;
  }

  const BOBS := Task("bob", "builder", Pending, [], 50, 0)
  const ANNS := Task("ann", "agent", Pending, ["b"], 50, 1)
  const B1 := INITIAL.(rows := map["b" := BOBS])
  const B2 := INITIAL.(rows := map["b" := BOBS, "a" := ANNS])
  const B3 := B2.(polled := multiset{"builder"})
  const B4 := INITIAL.(rows := map["b" := BOBS.(status := Claimed), "a" := ANNS], claimed := {"b"})
  const B5 := INITIAL.(rows := map["b" := BOBS.(status := Done), "a" := ANNS], unresolved := multiset{"b"})
  const B6 := INITIAL.(rows := map["b" := BOBS.(status := Done), "a" := ANNS])

  lemma BobClaims()
    ensures Next(INITIAL, Enqueue("b", BOBS), B1) && Next(B1, Enqueue("a", ANNS), B2)
    ensures Next(B2, Poll("b"), B3) && Next(B3, Claim("builder", "b"), B4)
  {
    assert IsNext(B3.rows, "builder", "b");
    assert B3.rows["b" := BOBS.(status := Claimed)] == B4.rows;
  }

  lemma BobEnds()
    ensures Next(B4, Finish("b", Done), B5) && Next(B5, Resolve("b"), B6)
  {
    hide Removed;
    assert B4.rows["b" := BOBS.(status := Done)] == B5.rows;
    assert Resolved(B5.rows, "b", "bob") == B6.rows;
  }

  // ----- Exactly when an ended task can run again

  ghost predicate CanRevive(a: State, id: Id) {
    exists s: seq<State>, e: seq<Event> :: Continues(a, s, e) && id in s[|e|].rows && Active(s[|e|].rows[id].status)
  }

  /** Ended, and no worker is still to mark it running. */
  ghost predicate Over(s: State, id: Id) {
    id in s.rows && Terminal(s.rows[id].status) && id !in s.claimed
  }

  lemma StepOver(s: State, e: Event, t: State, id: Id)
    requires Next(s, e, t) && Over(s, id)
    ensures Over(t, id)
    ensures id !in s.started && id !in s.cancelling
            ==> id !in t.started && id !in t.cancelling && t.rows[id].status == s.rows[id].status
  {
    hide Written, Resolved, IsNext, Unblocked;
    RowStep(s, e, t, id);
    if e.Claim? {
      ClaimsPending(s, e, t);
    }
  }

  lemma {:induction false} StaysOver(a: State, s: seq<State>, e: seq<Event>, n: nat, id: Id)
    requires Continues(a, s, e) && n < |s| && Over(a, id)
    ensures Over(s[n], id)
    ensures id !in a.started && id !in a.cancelling
            ==> id !in s[n].started && id !in s[n].cancelling && s[n].rows[id].status == a.rows[id].status
  {
    hide Next, Over;
    if n > 0 {
      StaysOver(a, s, e, n - 1, id);
      StepOver(s[n - 1], e[n - 1], s[n], id);
    }
  }

  /** Status writes are unguarded: an ended task can become active again exactly when a worker has claimed
      it and not yet marked it running. Safety is therefore about having ended once. */
  lemma RevivesIff(a: State, id: Id)
    requires id in a.rows && Terminal(a.rows[id].status)
    ensures CanRevive(a, id) <==> id in a.claimed
  {
    hide Next;
    if id in a.claimed {
      var b := Revived(a, id);
      assert Continues(a, [a, b], [MarkRunning(id)]);
    } else {
      forall s: seq<State>, e: seq<Event> | Continues(a, s, e) ensures !(id in s[|e|].rows && Active(s[|e|].rows[id].status)) {
        StaysOver(a, s, e, |e|, id);
      }
    }
  }

  lemma Revived(a: State, id: Id) returns (b: State)
    requires id in a.rows && id in a.claimed
    ensures Next(a, MarkRunning(id), b) && id in b.rows && Active(b.rows[id].status)
  {
    b := a.(rows := Written(a.rows, id, Running), claimed := a.claimed - {id}, started := a.started + {id});
  }

  /** An ended task that no worker holds and no cancellation is about to overwrite keeps its status. */
  lemma EndedIsFinal(a: State, s: seq<State>, e: seq<Event>, n: nat, id: Id)
    requires Continues(a, s, e) && n < |s|
    requires id in a.rows && Terminal(a.rows[id].status) && !Holds(a, id) && id !in a.cancelling
    ensures id in s[n].rows && s[n].rows[id].status == a.rows[id].status
  {
    StaysOver(a, s, e, n, id);
  }

  /** A run in which a cancelled task becomes running. */
  lemma CancelledTaskCanRun() returns (s: seq<State>, e: seq<Event>)
    ensures IsRun(s, e) && |s| == 7 && "a" in s[5].rows && s[5].rows["a"].status == Cancelled
    ensures "a" in s[6].rows && s[6].rows["a"].status == Running
  {
    hide Next;
    s := [INITIAL, C1, C2, C3, C4, C5, C6];
    e := [Enqueue("a", FREE), Poll("a"), Claim("agent", "a"), CancelRead("a"), CancelWrite("a"), MarkRunning("a")];
    FreeIsClaimed();
    FreeIsCancelled();
  }

  const FREE := Task("ann", "agent", Pending, [], 50, 1)
  const C1 := INITIAL.(rows := map["a" := FREE])
  const C2 := C1.(polled := multiset{"agent"})
  const C3 := INITIAL.(rows := map["a" := FREE.(status := Claimed)], claimed := {"a"})
  const C4 := C3.(cancelling := multiset{"a"})
  const C5 := C3.(rows := map["a" := FREE.(status := Cancelled)], unresolved := multiset{"a"})
  const C6 := C5.(rows := map["a" := FREE.(status := Running)], claimed := {}, started := {"a"})

  lemma FreeIsClaimed()
    ensures Next(INITIAL, Enqueue("a", FREE), C1) && Next(C1, Poll("a"), C2) && Next(C2, Claim("agent", "a"), C3)
  {
    assert INITIAL.rows["a" := FREE] == C1.rows;
    assert IsNext(C2.rows, "agent", "a");
    assert C2.rows["a" := FREE.(status := Claimed)] == C3.rows;
  }

  lemma FreeIsCancelled()
    ensures Next(C3, CancelRead("a"), C4) && Next(C4, CancelWrite("a"), C5) && Next(C5, MarkRunning("a"), C6)
  {
    assert C4.rows["a" := FREE.(status := Cancelled)] == C5.rows;
    assert C5.rows["a" := FREE.(status := Running)] == C6.rows;
  }
}
