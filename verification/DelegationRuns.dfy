/** Delegation as a protocol: agents, workers and users share the task table, and their statements
    interleave in any order. One event is one SQL statement. */
module DelegationRuns {
  import opened TaskTable

  /** The table and what its users still have to do: agents that a poll has selected, tasks that some
      worker has claimed but not yet marked running, tasks that some worker has marked and not let go
      of, cancellations that have read the status but not yet written it, and tasks that ended but are
      not yet resolved. */
  datatype State = State(
    rows: Table,
    polled: multiset<Id>,
    claimed: set<Id>,
    started: set<Id>,
    cancelling: multiset<Id>,
    unresolved: multiset<Id>)

  datatype Event =
    | Enqueue(id: Id, task: Task)
    | Poll(id: Id)
    | Pass(agent: Id)
    | Claim(agent: Id, id: Id)
    | MarkRunning(id: Id)
    | Finish(id: Id, outcome: Status)
    | Abandon(id: Id)
    | CancelRead(id: Id)
    | CancelWrite(id: Id)
    | Resolve(id: Id)

  const INITIAL := State(map[], multiset{}, {}, {}, multiset{}, multiset{})

  function Written(rows: Table, id: Id, s: Status): Table
    requires id in rows
  {
    WithStatus(rows, id, rows[id].user, s)
  }

  /** What the worker's poll looks for. */
  predicate Unblocked(rows: Table, id: Id) {
    id in rows && rows[id].status == Pending && rows[id].blockedBy == []
  }

  /** Some worker has the task in hand. */
  predicate Holds(s: State, id: Id) {
    id in s.claimed || id in s.started
  }

  ghost predicate Next(s: State, e: Event, t: State) {
    match e
    case Enqueue(id, task) =>
      id !in s.rows && task.status == Pending && t == s.(rows := s.rows[id := task])
    case Poll(id) =>
      Unblocked(s.rows, id) && t == s.(polled := s.polled + multiset{s.rows[id].agent})
    case Pass(agent) =>
      // no session is free, nothing is eligible any more, or a statement failed
      agent in s.polled && t == s.(polled := s.polled - multiset{agent})
    case Claim(agent, id) =>
      agent in s.polled && IsNext(s.rows, agent, id)
      && t == s.(rows := Written(s.rows, id, Claimed), polled := s.polled - multiset{agent}, claimed := s.claimed + {id})
    case MarkRunning(id) =>
      // one statement for each claim
      id in s.claimed && id in s.rows
      && t == s.(rows := Written(s.rows, id, Running), claimed := s.claimed - {id}, started := s.started + {id})
    case Finish(id, outcome) =>
      Holds(s, id) && id in s.rows && (outcome == Done || outcome == Failed)
      && t == s.(rows := Written(s.rows, id, outcome), claimed := s.claimed - {id}, started := s.started - {id},
                 unresolved := s.unresolved + multiset{id})
    case Abandon(id) =>
      Holds(s, id) && t == s.(claimed := s.claimed - {id}, started := s.started - {id})
    case CancelRead(id) =>
      id in s.rows && Active(s.rows[id].status) && t == s.(cancelling := s.cancelling + multiset{id})
    case CancelWrite(id) =>
      id in s.cancelling && id in s.rows
      && t == s.(rows := Written(s.rows, id, Cancelled), cancelling := s.cancelling - multiset{id},
                 unresolved := s.unresolved + multiset{id})
    case Resolve(id) =>
      id in s.unresolved && id in s.rows
      && t == s.(rows := Resolved(s.rows, id, s.rows[id].user), unresolved := s.unresolved - multiset{id})
  }

  ghost predicate Continues(a: State, s: seq<State>, e: seq<Event>) {
    |s| == |e| + 1 && s[0] == a && forall i :: 0 <= i < |e| ==> Next(s[i], e[i], s[i + 1])
  }

  ghost predicate IsRun(s: seq<State>, e: seq<Event>) {
    Continues(INITIAL, s, e)
  }

  // ----- What one step keeps

  /** What one step does to one row. */
  function RowAfter(s: State, e: Event, x: Id): Task
    requires x in s.rows
  {
    var row := s.rows[x];
    match e
    case Claim(_, id) => if id == x then row.(status := Claimed) else row
    case MarkRunning(id) => if id == x then row.(status := Running) else row
    case Finish(id, outcome) => if id == x then row.(status := outcome) else row
    case CancelWrite(id) => if id == x then row.(status := Cancelled) else row
    case Resolve(id) =>
      if id in s.rows && WaitsFor(row, id, s.rows[id].user) then row.(blockedBy := Removed(row.blockedBy, id)) else row
    case _ => row
  }

  lemma RowStep(s: State, e: Event, t: State, x: Id)
    requires Next(s, e, t) && x in s.rows
    ensures x in t.rows && t.rows[x] == RowAfter(s, e, x)
  {
    hide Removed, IsNext, Unblocked;
  }

  lemma ClaimsPending(s: State, e: Event, t: State)
    requires Next(s, e, t) && e.Claim?
    ensures e.id in s.rows && s.rows[e.id].status == Pending
  {
    hide Written;
  }

  lemma EnqueueAdds(s: State, e: Event, t: State)
    requires Next(s, e, t) && e.Enqueue?
    ensures e.id !in s.rows && t == s.(rows := s.rows[e.id := e.task]) && e.task.status == Pending
  {
  }

  lemma NoOtherRows(s: State, e: Event, t: State, x: Id)
    requires Next(s, e, t) && x in t.rows && x !in s.rows
    ensures e.Enqueue? && e.id == x
  {
    hide Removed, IsNext, Unblocked;
  }

  /** Rows stay, with their owner and agent; nothing waits for more than before; nothing becomes
      pending again; what stops waiting for a task does so only when that task is resolved. */
  lemma StepKeeps(s: State, e: Event, t: State, id: Id)
    requires Next(s, e, t) && id in s.rows
    ensures id in t.rows && t.rows[id].user == s.rows[id].user && t.rows[id].agent == s.rows[id].agent
    ensures t.rows[id].status == Pending ==> s.rows[id].status == Pending
    ensures forall b :: b in t.rows[id].blockedBy ==> b in s.rows[id].blockedBy
    ensures forall b :: b in s.rows[id].blockedBy && b !in t.rows[id].blockedBy ==> e == Resolve(b)
  {
    hide Next, Removed;
    RowStep(s, e, t, id);
    FinishOutcome(s, e, t);
  }

  lemma FinishOutcome(s: State, e: Event, t: State)
    requires Next(s, e, t)
    ensures e.Finish? ==> e.outcome == Done || e.outcome == Failed
    ensures e.Resolve? ==> e.id in s.unresolved
  {
    hide Written, Resolved, IsNext, Unblocked;
  }

  // ----- History

  ghost predicate EndedBy(s: seq<State>, n: nat, id: Id)
    requires n < |s|
  {
    exists k :: 0 <= k <= n && id in s[k].rows && Terminal(s[k].rows[id].status)
  }

  lemma EndedLater(s: seq<State>, m: nat, n: nat, id: Id)
    requires m <= n < |s| && EndedBy(s, m, id)
    ensures EndedBy(s, n, id)
  {
  }

  /** What waits to be resolved has ended at some time. */
  lemma {:induction false} UnresolvedEnded(s: seq<State>, e: seq<Event>, n: nat, id: Id)
    requires IsRun(s, e) && n < |s| && id in s[n].unresolved
    ensures EndedBy(s, n, id)
  {
    hide Next;
    if n > 0 {
      var p, q := s[n - 1], s[n];
      assert Next(p, e[n - 1], q);
      if id in p.unresolved {
        UnresolvedEnded(s, e, n - 1, id);
        EndedLater(s, n - 1, n, id);
      } else {
        NewlyUnresolved(p, e[n - 1], q, id);
      }
    }
  }

  lemma NewlyUnresolved(s: State, e: Event, t: State, id: Id)
    requires Next(s, e, t) && id in t.unresolved && id !in s.unresolved
    ensures id in t.rows && Terminal(t.rows[id].status)
  {
    hide IsNext, Unblocked, Removed;
  }

  /** As long as a task is pending, each of its original blockers is still listed or has ended. */
  lemma {:induction false} BlockersListedOrEnded(s: seq<State>, e: seq<Event>, j: nat, n: nat, b: Id)
    requires IsRun(s, e) && j < n < |s| && e[j].Enqueue? && b in e[j].task.blockedBy
    ensures e[j].id in s[n].rows
    ensures b in s[n].rows[e[j].id].blockedBy || EndedBy(s, n, b)
    decreases n
  {
    hide Next, EndedBy;
    var id := e[j].id;
    assert Next(s[j], e[j], s[j + 1]);
    EnqueueAdds(s[j], e[j], s[j + 1]);
    if n > j + 1 {
      BlockersListedOrEnded(s, e, j, n - 1, b);
      var p, q := s[n - 1], s[n];
      assert Next(p, e[n - 1], q);
      StepKeeps(p, e[n - 1], q, id);
      FinishOutcome(p, e[n - 1], q);
      if EndedBy(s, n - 1, b) {
        EndedLater(s, n - 1, n, b);
      } else if b !in q.rows[id].blockedBy {
        UnresolvedEnded(s, e, n - 1, b);
      }
    }
  }

  /** Dependency safety: when a task is claimed, every task that it was enqueued behind and that
      exists has been done, failed or cancelled by then. */
  lemma DependencySafety(s: seq<State>, e: seq<Event>, i: nat, j: nat, b: Id)
    requires IsRun(s, e) && i < |e| && j < |e|
    requires e[j].Enqueue? && e[i].Claim? && e[i].id == e[j].id
    requires b in e[j].task.blockedBy && b in s[i].rows
    ensures j < i && EndedBy(s, i, b)
  {
    assert Next(s[i], e[i], s[i + 1]) && Next(s[j], e[j], s[j + 1]);
    if i < j {
      RowsStay(s, e, i, j, e[i].id);
    } else {
      BlockersListedOrEnded(s, e, j, i, b);
    }
  }

  lemma {:induction false} RowsStay(s: seq<State>, e: seq<Event>, m: nat, n: nat, id: Id)
    requires IsRun(s, e) && m <= n < |s| && id in s[m].rows
    ensures id in s[n].rows
    ensures s[m].rows[id].status != Pending ==> s[n].rows[id].status != Pending
    decreases n
  {
    hide Next;
    if m < n {
      RowsStay(s, e, m, n - 1, id);
      assert Next(s[n - 1], e[n - 1], s[n]);
      StepKeeps(s[n - 1], e[n - 1], s[n], id);
    }
  }

  /** No task is claimed twice. */
  lemma ClaimedOnce(s: seq<State>, e: seq<Event>, i: nat, j: nat)
    requires IsRun(s, e) && i < |e| && j < |e|
    requires e[i].Claim? && e[j].Claim? && e[i].id == e[j].id
    ensures i == j
  {
    var k, l := if i < j then i else j, if i < j then j else i;
    assert Next(s[k], e[k], s[k + 1]) && Next(s[l], e[l], s[l + 1]);
    if k < l {
      RowsStay(s, e, k + 1, l, e[i].id);
    }
  }

  /** Each claim takes a pending task of its own agent whose existing blockers are done. */
  lemma ClaimedIsReady(s: seq<State>, e: seq<Event>, i: nat)
    requires IsRun(s, e) && i < |e| && e[i].Claim?
    ensures e[i].id in s[i].rows && e[i].id in s[i + 1].rows
    ensures s[i].rows[e[i].id].agent == e[i].agent && s[i].rows[e[i].id].status == Pending
    ensures forall b :: b in s[i].rows[e[i].id].blockedBy && b in s[i].rows ==> s[i].rows[b].status == Done
    ensures s[i + 1].rows[e[i].id] == s[i].rows[e[i].id].(status := Claimed)
  {
    hide Unblocked;
    assert Next(s[i], e[i], s[i + 1]);
  }

  /** Of all such tasks it takes one with the highest priority, and of these the oldest. */
  lemma ClaimOrder(s: seq<State>, e: seq<Event>, i: nat, other: Id)
    requires IsRun(s, e) && i < |e| && e[i].Claim? && other in s[i].rows
    requires s[i].rows[other].agent == e[i].agent && s[i].rows[other].status == Pending
    requires forall b :: b in s[i].rows[other].blockedBy && b in s[i].rows ==> s[i].rows[b].status == Done
    ensures e[i].id in s[i].rows
    ensures
      var chosen, loser := s[i].rows[e[i].id], s[i].rows[other];
      chosen.priority > loser.priority || (chosen.priority == loser.priority && chosen.createdAt <= loser.createdAt)
  {
    hide Unblocked, Written;
    assert Next(s[i], e[i], s[i + 1]);
    assert Eligible(s[i].rows, e[i].agent, other);
    assert !Ahead(s[i].rows[other], s[i].rows[e[i].id]);
  }

  /** A blocker stays listed exactly until it is resolved for the owner of the waiting task: while the
      task is pending, no other step takes an original blocker out of its list. */
  lemma {:induction false} ListedIff(s: seq<State>, e: seq<Event>, j: nat, n: nat, b: Id)
    requires IsRun(s, e) && j < n < |s| && e[j].Enqueue? && b in e[j].task.blockedBy
    requires e[j].id in s[n].rows && s[n].rows[e[j].id].status == Pending
    ensures b in s[n].rows[e[j].id].blockedBy <==>
            forall k :: j < k < n && e[k] == Resolve(b) && b in s[k].rows ==> s[k].rows[b].user != e[j].task.user
    decreases n
  {
    hide Next;
    var id := e[j].id;
    assert Next(s[j], e[j], s[j + 1]);
    EnqueueAdds(s[j], e[j], s[j + 1]);
    if n > j + 1 {
      var p, q := s[n - 1], s[n];
      assert Next(p, e[n - 1], q);
      RowsStay(s, e, j + 1, n - 1, id);
      OwnerStays(s, e, j + 1, n - 1, id);
      StepKeeps(p, e[n - 1], q, id);
      ListedIff(s, e, j, n - 1, b);
      if b in p.rows[id].blockedBy {
        StepLists(p, e[n - 1], q, id, b);
      }
    }
  }

  lemma StepLists(s: State, e: Event, t: State, id: Id, b: Id)
    requires Next(s, e, t) && id in s.rows && t.rows[id].status == Pending && b in s.rows[id].blockedBy
    ensures b in t.rows[id].blockedBy <==> !(e == Resolve(b) && b in s.rows && s.rows[b].user == s.rows[id].user)
  {
    hide Next, Removed;
    RowStep(s, e, t, id);
    FinishOutcome(s, e, t);
  }

  lemma {:induction false} OwnerStays(s: seq<State>, e: seq<Event>, m: nat, n: nat, id: Id)
    requires IsRun(s, e) && m <= n < |s| && id in s[m].rows
    ensures id in s[n].rows && s[n].rows[id].user == s[m].rows[id].user
    decreases n
  {
    if m < n {
      OwnerStays(s, e, m, n - 1, id);
      assert Next(s[n - 1], e[n - 1], s[n]);
      StepKeeps(s[n - 1], e[n - 1], s[n], id);
    }
  }

  // ----- Deadlock freedom

  /** The blocker is active or about to be resolved; with `ending`, a cancellation that has read its
      status and is about to write it will do as well. */
  ghost predicate Live(s: State, b: Id, ending: bool) {
    b in s.rows && (Active(s.rows[b].status) || b in s.unresolved || (ending && b in s.cancelling))
  }

  /** Every blocker of the task is a live task of the same user. */
  ghost predicate BlockersGood(s: State, task: Task, ending: bool) {
    forall b :: b in task.blockedBy ==> Live(s, b, ending) && s.rows[b].user == task.user
  }

  /** So it is whenever a task is enqueued. */
  ghost predicate GoodAtEnqueue(s: seq<State>, e: seq<Event>, ending: bool)
    requires |s| == |e| + 1
  {
    forall j :: 0 <= j < |e| && e[j].Enqueue? ==> BlockersGood(s[j], e[j].task, ending)
  }

  ghost predicate BlockersLive(s: State, ending: bool) {
    forall t, b :: t in s.rows && s.rows[t].status == Pending && b in s.rows[t].blockedBy
      ==> Live(s, b, ending) && s.rows[b].user == s.rows[t].user
  }

  lemma StepBlockersLive(s: State, e: Event, t: State, ending: bool)
    requires Next(s, e, t) && BlockersLive(s, ending)
    requires e.Enqueue? ==> BlockersGood(s, e.task, ending)
    ensures BlockersLive(t, ending)
  {
    hide Next, Live;
    forall x, b | x in t.rows && t.rows[x].status == Pending && b in t.rows[x].blockedBy
      ensures b in t.rows && Live(t, b, ending) && t.rows[b].user == t.rows[x].user
    {
      if x in s.rows {
        StepKeeps(s, e, t, x);
        assert b in s.rows[x].blockedBy && Live(s, b, ending);
        LiveKnown(s, b, ending);
        if e == Resolve(b) {
          StepLists(s, e, t, x, b);
        }
      } else {
        NoOtherRows(s, e, t, x);
        EnqueueAdds(s, e, t);
        LiveKnown(s, b, ending);
      }
      StepKeeps(s, e, t, b);
      StepLive(s, e, t, b, ending);
    }
  }

  lemma LiveKnown(s: State, b: Id, ending: bool)
    requires Live(s, b, ending)
    ensures b in s.rows
  {
  }

  lemma StepLive(s: State, e: Event, t: State, b: Id, ending: bool)
    requires Next(s, e, t) && Live(s, b, ending) && e != Resolve(b)
    ensures Live(t, b, ending)
  {
    hide Written, Resolved, Removed, IsNext, Unblocked;
    RowStep(s, e, t, b);
  }

  lemma {:induction false} RunBlockersLive(s: seq<State>, e: seq<Event>, n: nat, ending: bool)
    requires IsRun(s, e) && GoodAtEnqueue(s, e, ending) && n < |s|
    ensures BlockersLive(s[n], ending)
  {
    hide Next, Live;
    if n > 0 {
      RunBlockersLive(s, e, n - 1, ending);
      assert Next(s[n - 1], e[n - 1], s[n]);
      StepBlockersLive(s[n - 1], e[n - 1], s[n], ending);
    }
  }

  /** Of the tasks pending at time n and known at time m, one was known before all that are
      pending at time n and that it was enqueued behind. */
  lemma {:induction false} EarliestPending(s: seq<State>, e: seq<Event>, m: nat, n: nat, id: Id) returns (j: nat)
    requires IsRun(s, e) && m <= n < |s|
    requires id in s[m].rows && id in s[n].rows && s[n].rows[id].status == Pending
    ensures j < m && e[j].Enqueue? && e[j].id in s[n].rows && s[n].rows[e[j].id].status == Pending
    ensures forall x :: x in s[j].rows ==> x in s[n].rows && s[n].rows[x].status != Pending
    decreases m
  {
    hide Next;
    assert Next(s[m - 1], e[m - 1], s[m]);
    if id !in s[m - 1].rows {
      NoOtherRows(s[m - 1], e[m - 1], s[m], id);
    }
    if x :| x in s[m - 1].rows && x in s[n].rows && s[n].rows[x].status == Pending {
      j := EarliestPending(s, e, m - 1, n, x);
    } else {
      j := m - 1;
      forall x | x in s[j].rows ensures x in s[n].rows {
        RowsStay(s, e, j, n, x);
      }
    }
  }

  lemma NextExists(table: Table, agent: Id, id: Id) returns (next: Id)
    requires Eligible(table, agent, id)
    ensures IsNext(table, agent, next)
  {
    next := id;
    var rest := table.Keys;
    while rest != {}
      invariant rest <= table.Keys && Eligible(table, agent, next)
      invariant forall x :: x in table && x !in rest && Eligible(table, agent, x) ==> !Ahead(table[x], table[next])
    {
      var x :| x in rest;
      rest := rest - {x};
      if Eligible(table, agent, x) && Ahead(table[x], table[next]) {
        next := x;
      }
    }
  }

  ghost predicate Idle(s: State) {
    s.unresolved == multiset{} && forall x :: x in s.rows ==> s.rows[x].status != Claimed && s.rows[x].status != Running
  }

  /** A poll selects some agent, and a claim for it then succeeds. */
  ghost predicate CanProceed(s: State) {
    exists id, next :: Unblocked(s.rows, id) && IsNext(s.rows, s.rows[id].agent, next)
  }

  /** Deadlock freedom: if blockers are live tasks of the same user when tasks are enqueued behind
      them, then whenever all is resolved, nothing is claimed or running, and some task is pending,
      the poll finds an agent and a claim for it succeeds. */
  lemma DeadlockFree(s: seq<State>, e: seq<Event>, n: nat, pending: Id, ending: bool)
    requires IsRun(s, e) && GoodAtEnqueue(s, e, ending) && n < |s|
    requires Idle(s[n]) && (ending ==> s[n].cancelling == multiset{})
    requires pending in s[n].rows && s[n].rows[pending].status == Pending
    ensures CanProceed(s[n])
  {
    hide Next;
    var j := EarliestPending(s, e, n, n, pending);
    var id := e[j].id;
    var task := s[n].rows[id];
    RunBlockersLive(s, e, n, ending);
    if task.blockedBy != [] {
      var b := task.blockedBy[0];
      assert b in s[n].rows[id].blockedBy && Live(s[n], b, ending);
      assert b in s[n].rows && s[n].rows[b].status == Pending;
      ListedFromStart(s, e, j, n, b);
    }
    assert Eligible(s[n].rows, task.agent, id);
    var next := NextExists(s[n].rows, task.agent, id);
    assert Unblocked(s[n].rows, id);
  }

  lemma {:induction false} ListedFromStart(s: seq<State>, e: seq<Event>, j: nat, n: nat, b: Id)
    requires IsRun(s, e) && j < n < |s| && e[j].Enqueue?
    ensures e[j].id in s[n].rows
    ensures b in s[n].rows[e[j].id].blockedBy ==> b in e[j].task.blockedBy
    decreases n
  {
    if n == j + 1 {
      assert Next(s[j], e[j], s[n]);
    } else {
      ListedFromStart(s, e, j, n - 1, b);
      assert Next(s[n - 1], e[n - 1], s[n]);
      StepKeeps(s[n - 1], e[n - 1], s[n], e[j].id);
    }
  }
}
