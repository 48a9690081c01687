/** The table of delegated tasks, and the SQL statements and compound operations on it. */
module TaskTable {
  import opened Common

  type Id = string

  datatype Status = Pending | Claimed | Running | Done | Failed | Cancelled

  datatype Task = Task(user: Id, agent: Id, status: Status, blockedBy: seq<Id>, priority: int, createdAt: int)

  type Table = map<Id, Task>

  const MAX_TASKS_PER_USER := 100

  predicate Active(s: Status) {
    s == Pending || s == Claimed || s == Running
  }

  predicate Terminal(s: Status) {
    !Active(s)
  }

  // ----- The statements, as functions on the table

  function Removed(ids: seq<Id>, id: Id): (r: seq<Id>)
    ensures forall x :: x in r <==> x in ids && x != id
    ensures multiset(r) == multiset(ids)[id := 0]
  {
    if ids == [] then []
    else
      assert ids == [ids[0]] + ids[1..];
      if ids[0] == id then Removed(ids[1..], id) else [ids[0]] + Removed(ids[1..], id)
  }

  predicate WaitsFor(t: Task, id: Id, user: Id) {
    t.user == user && t.status == Pending && id in t.blockedBy
  }

  /** Takes a finished task out of what the user's pending tasks wait for. */
  function Resolved(table: Table, id: Id, user: Id): Table {
    map t | t in table ::
      if WaitsFor(table[t], id, user) then table[t].(blockedBy := Removed(table[t].blockedBy, id)) else table[t]
  }

  /** Status writes are not guarded by the status that they overwrite. */
  function WithStatus(table: Table, id: Id, user: Id, s: Status): Table {
    if id in table && table[id].user == user then table[id := table[id].(status := s)] else table
  }

  predicate NoneWaits(table: Table, id: Id, user: Id) {
    forall t :: t in table ==> !WaitsFor(table[t], id, user)
  }

  function ActiveTasks(table: Table, user: Id): set<Id> {
    set id | id in table && table[id].user == user && Active(table[id].status)
  }

  /** Pending for the agent, and every blocker that exists is done. */
  predicate Eligible(table: Table, agent: Id, id: Id) {
    && id in table && table[id].agent == agent && table[id].status == Pending
    && forall b :: b in table[id].blockedBy ==> b in table ==> table[b].status == Done
  }

  /** x comes before y in the order of claims: higher priority first, then the older one. */
  predicate Ahead(x: Task, y: Task) {
    x.priority > y.priority || (x.priority == y.priority && x.createdAt < y.createdAt)
  }

  ghost predicate IsNext(table: Table, agent: Id, id: Id) {
    Eligible(table, agent, id)
    && forall other :: Eligible(table, agent, other) ==> !Ahead(table[other], table[id])
  }

  // ----- The operations

  /** After an operation that ends a task and resolves it, no pending task of its user waits for it. */
  lemma {:induction false} EndedIsResolved(table: Table, id: Id, user: Id, s: Status)
    requires id in table && table[id].user == user && Terminal(s)
    ensures var after := Resolved(WithStatus(table, id, user, s), id, user);
            && after.Keys == table.Keys
            && after[id].status == s
            && NoneWaits(after, id, user)
            && (forall t, b :: t in after && b in table[t].blockedBy && b != id ==> b in after[t].blockedBy)
  {
  }

  class Tasks {
    var rows: Table

    constructor ()
      ensures rows == map[]
    {
      rows := map[];
    }

    /** Ids are random, so a new one is not in the table; the source inserts whatever blockers it is given. */
    method EnqueueTask(id: Id, user: Id, agent: Id, priority: int, blockedBy: seq<Id>, now: int) returns (ok: bool)
      requires id !in rows
      modifies this
      ensures ok <==> |ActiveTasks(old(rows), user)| < MAX_TASKS_PER_USER
      ensures ok <==> |set x | x in old(rows) && old(rows)[x].user == user
                               && old(rows)[x].status in {Pending, Claimed, Running}| < 100
      ensures rows == if ok then old(rows)[id := Task(user, agent, Pending, blockedBy, priority, now)] else old(rows)
      ensures ok ==> |ActiveTasks(rows, user)| <= MAX_TASKS_PER_USER
    {
      var existing := ActiveTasks(rows, user);
      assert existing == set x | x in rows && rows[x].user == user && rows[x].status in {Pending, Claimed, Running};
      if |existing| >= MAX_TASKS_PER_USER {
        return false;
      }
      rows := rows[id := Task(user, agent, Pending, blockedBy, priority, now)];
      assert ActiveTasks(rows, user) == existing + {id};
      return true;
    }

    method ResolveDependencies(completed: Id, user: Id)
      modifies this
      ensures rows == Resolved(old(rows), completed, user)
      ensures rows.Keys == old(rows).Keys
      ensures forall t :: t in rows ==>
                if old(rows)[t].user == user && old(rows)[t].status == Pending && completed in old(rows)[t].blockedBy
                then rows[t] == old(rows)[t].(blockedBy := rows[t].blockedBy)
                     && multiset(rows[t].blockedBy) == multiset(old(rows)[t].blockedBy)[completed := 0]
                else rows[t] == old(rows)[t]
    {
      rows := map t | t in rows ::
        if WaitsFor(rows[t], completed, user)
        then rows[t].(blockedBy := Removed(rows[t].blockedBy, completed)) else rows[t];
    }

    method UpdateStatus(id: Id, user: Id, s: Status)
      modifies this
      ensures rows == WithStatus(old(rows), id, user, s)
      ensures rows == if id in old(rows) && old(rows)[id].user == user
                      then old(rows)[id := old(rows)[id].(status := s)] else old(rows)
    {
      if id in rows && rows[id].user == user {
        rows := rows[id := rows[id].(status := s)];
      }
    }

    /** Claims the next eligible task of the agent; nothing only if there is none. */
    method ClaimNextTask(agent: Id) returns (r: Option<Id>)
      modifies this
      ensures r.Some? ==> IsNext(old(rows), agent, r.value)
      ensures r.Some? ==> rows == old(rows)[r.value := old(rows)[r.value].(status := Claimed)]
      ensures r.None? ==> rows == old(rows) && forall id :: !Eligible(rows, agent, id)
      ensures r.Some? ==>
                var row := old(rows)[r.value];
                && row.agent == agent && row.status == Pending
                && (forall b :: b in row.blockedBy && b in old(rows) ==> old(rows)[b].status == Done)
                && forall id :: id in old(rows) && old(rows)[id].agent == agent && old(rows)[id].status == Pending
                                && (forall b :: b in old(rows)[id].blockedBy && b in old(rows) ==> old(rows)[b].status == Done)
                     ==> old(rows)[id].priority < row.priority
                         || (old(rows)[id].priority == row.priority && old(rows)[id].createdAt >= row.createdAt)
      ensures r.None? <==>
              forall id :: id in old(rows) && old(rows)[id].agent == agent && old(rows)[id].status == Pending
                ==> exists b :: b in old(rows)[id].blockedBy && b in old(rows) && old(rows)[b].status != Done
    {
      r := None;
      var rest := rows.Keys;
      while rest != {}
        invariant rest <= rows.Keys
        invariant r.Some? ==> Eligible(rows, agent, r.value)
        invariant forall id :: id in rows && id !in rest && Eligible(rows, agent, id)
                    ==> r.Some? && !Ahead(rows[id], rows[r.value])
      {
        var id :| id in rest;
        rest := rest - {id};
        if Eligible(rows, agent, id) && (r.None? || Ahead(rows[id], rows[r.value])) {
          r := Some(id);
        }
      }
      if r.Some? {
        rows := rows[r.value := rows[r.value].(status := Claimed)];
      }
    }

    /** A completed task is marked done and then taken out of the lists of its dependents. */
    method OnTaskComplete(id: Id, user: Id)
      modifies this
      ensures rows == if id in old(rows) && old(rows)[id].user == user
                      then Resolved(WithStatus(old(rows), id, user, Done), id, user) else old(rows)
      ensures id in rows && rows[id].user == user ==> rows[id].status == Done && NoneWaits(rows, id, user)
    {
      if id in rows && rows[id].user == user {
        UpdateStatus(id, user, Done);
        ResolveDependencies(id, user);
        EndedIsResolved(old(rows), id, user, Done);
      }
    }

    method OnTaskFailed(id: Id, user: Id)
      modifies this
      ensures rows == if id in old(rows) && old(rows)[id].user == user
                      then Resolved(WithStatus(old(rows), id, user, Failed), id, user) else old(rows)
      ensures id in rows && rows[id].user == user ==> rows[id].status == Failed && NoneWaits(rows, id, user)
    {
      if id in rows && rows[id].user == user {
        UpdateStatus(id, user, Failed);
        ResolveDependencies(id, user);
        EndedIsResolved(old(rows), id, user, Failed);
      }
    }

    /** Only an active task is cancelled; its dependents are released as if it had ended. */
    method CancelTask(id: Id, user: Id)
      modifies this
      ensures rows == if id in old(rows) && old(rows)[id].user == user && Active(old(rows)[id].status)
                      then Resolved(WithStatus(old(rows), id, user, Cancelled), id, user) else old(rows)
      ensures rows != old(rows) ==> id in rows && rows[id].status == Cancelled && NoneWaits(rows, id, user)
      ensures id in old(rows) && old(rows)[id].user == user && old(rows)[id].status in {Pending, Claimed, Running}
              <==> rows != old(rows)
    {
      if id in rows && rows[id].user == user && Active(rows[id].status) {
        UpdateStatus(id, user, Cancelled);
        ResolveDependencies(id, user);
        EndedIsResolved(old(rows), id, user, Cancelled);
      }
    }
  }
}
