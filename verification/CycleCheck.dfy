/** DetectCyclesInBlockedBy: a depth-first search over `blocked_by` with a visited set and a stack set. */
module CycleCheck {
  type Id = string
  type Graph = map<Id, seq<Id>>

  datatype TaskForCycle = TaskForCycle(id: Id, blockedBy: seq<Id>)

  /** What a task waits for; nothing, for an unknown id. */
  function Deps(g: Graph, id: Id): seq<Id> {
    if id in g then g[id] else []
  }

  // ----- Specification

  ghost predicate IsWalk(g: Graph, w: seq<Id>) {
    w != [] && forall i :: 0 <= i < |w| - 1 ==> w[i + 1] in Deps(g, w[i])
  }

  /** A walk that ends where it has been before. */
  ghost predicate IsLasso(g: Graph, w: seq<Id>) {
    IsWalk(g, w) && exists i :: 0 <= i < |w| - 1 && w[i] == w[|w| - 1]
  }

  ghost predicate ReachesCycle(g: Graph, start: Id) {
    exists w :: IsLasso(g, w) && w[0] == start
  }

  /** Every task stands after everything that it waits for. */
  ghost predicate IsSchedule(g: Graph, order: seq<Id>) {
    && (forall i, j :: 0 <= i < j < |order| ==> order[i] != order[j])
    && (forall k :: 0 <= k < |order| ==> forall d :: d in Deps(g, order[k]) ==> d in order[..k])
  }

  lemma {:induction false} WalkDescends(g: Graph, order: seq<Id>, w: seq<Id>, i: nat, j: nat, k: nat)
    requires IsSchedule(g, order) && IsWalk(g, w)
    requires i < j < |w| && k < |order| && w[i] == order[k]
    ensures w[j] in order[..k]
    decreases j
  {
    if j == i + 1 {
      assert w[i + 1] in Deps(g, w[i]);
    } else {
      WalkDescends(g, order, w, i, j - 1, k);
      var l :| 0 <= l < k && order[..k][l] == w[j - 1];
      assert order[l] == w[j - 1] && w[j - 1 + 1] in Deps(g, w[j - 1]);
      assert w[j] in order[..l];
    }
  }

  /** Nothing that can be scheduled reaches a cycle. */
  lemma ScheduleHasNoCycle(g: Graph, order: seq<Id>, start: Id)
    requires IsSchedule(g, order) && start in order
    ensures !ReachesCycle(g, start)
  {
    if w :| IsLasso(g, w) && w[0] == start {
      var i :| 0 <= i < |w| - 1 && w[i] == w[|w| - 1];
      var k0 :| 0 <= k0 < |order| && order[k0] == start;
      if i > 0 { WalkDescends(g, order, w, 0, i, k0); }
      var k :| 0 <= k < |order| && order[k] == w[i];
      WalkDescends(g, order, w, i, |w| - 1, k);
    }
  }

  // ----- The adjacency map

  function BuildGraph(tasks: seq<TaskForCycle>): Graph {
    if tasks == [] then map[]
    else
      var last := tasks[|tasks| - 1];
      BuildGraph(tasks[..|tasks| - 1])[last.id := last.blockedBy]
  }

  /** A repeated id counts with its last entry only. */
  lemma {:induction false} LastEntryWins(tasks: seq<TaskForCycle>, k: nat)
    requires k < |tasks| && forall l :: k < l < |tasks| ==> tasks[l].id != tasks[k].id
    ensures Deps(BuildGraph(tasks), tasks[k].id) == tasks[k].blockedBy
  {
    if k < |tasks| - 1 {
      LastEntryWins(tasks[..|tasks| - 1], k);
    }
  }

  /** The graph that the check walks: the known tasks, and the new one over any of the same id. */
  function TaskGraph(taskID: Id, blockedBy: seq<Id>, existing: seq<TaskForCycle>): Graph {
    BuildGraph(existing)[taskID := blockedBy]
  }

  lemma {:induction false} NoEntry(tasks: seq<TaskForCycle>, id: Id)
    requires forall k :: 0 <= k < |tasks| ==> tasks[k].id != id
    ensures Deps(BuildGraph(tasks), id) == []
  {
    if tasks != [] {
      NoEntry(tasks[..|tasks| - 1], id);
    }
  }

  predicate IsLastEntry(tasks: seq<TaskForCycle>, k: nat, id: Id) {
    k < |tasks| && tasks[k].id == id && forall l :: k < l < |tasks| ==> tasks[l].id != id
  }

  lemma {:induction false} LastEntryOf(tasks: seq<TaskForCycle>, j: nat) returns (k: nat)
    requires j < |tasks|
    ensures IsLastEntry(tasks, k, tasks[j].id)
  {
    k := |tasks| - 1;
    while tasks[k].id != tasks[j].id
      invariant j <= k < |tasks| && forall l :: k < l < |tasks| ==> tasks[l].id != tasks[j].id
      decreases k
    {
      k := k - 1;
    }
  }

  /** x waits for y: the new task for what it is given, whatever the list says of its id, and another for
      what its last entry says. */
  ghost predicate WaitsOn(taskID: Id, blockedBy: seq<Id>, existing: seq<TaskForCycle>, x: Id, y: Id) {
    if x == taskID then y in blockedBy
    else exists k: nat :: IsLastEntry(existing, k, x) && y in existing[k].blockedBy
  }

  lemma EdgesAre(taskID: Id, blockedBy: seq<Id>, existing: seq<TaskForCycle>, x: Id, y: Id)
    ensures y in Deps(TaskGraph(taskID, blockedBy, existing), x) <==> WaitsOn(taskID, blockedBy, existing, x, y)
  {
    hide BuildGraph;
    if x != taskID {
      if j :| 0 <= j < |existing| && existing[j].id == x {
        var k := LastEntryOf(existing, j);
        LastEntryWins(existing, k);
        assert forall l: nat :: IsLastEntry(existing, l, x) ==> l == k;
      } else {
        NoEntry(existing, x);
      }
    }
  }

  /** From the new task, from each task to one it waits for, back to one that was there before. */
  ghost predicate IsVicious(taskID: Id, blockedBy: seq<Id>, existing: seq<TaskForCycle>, w: seq<Id>) {
    && w != [] && w[0] == taskID
    && (forall i :: 0 <= i < |w| - 1 ==> WaitsOn(taskID, blockedBy, existing, w[i], w[i + 1]))
    && exists i :: 0 <= i < |w| - 1 && w[i] == w[|w| - 1]
  }

  lemma CyclesAre(taskID: Id, blockedBy: seq<Id>, existing: seq<TaskForCycle>)
    ensures ReachesCycle(TaskGraph(taskID, blockedBy, existing), taskID)
            <==> exists w :: IsVicious(taskID, blockedBy, existing, w)
  {
    hide TaskGraph, Deps, WaitsOn;
    var g := TaskGraph(taskID, blockedBy, existing);
    forall w: seq<Id> ensures w != [] && w[0] == taskID ==> (IsLasso(g, w) <==> IsVicious(taskID, blockedBy, existing, w)) {
      forall i | 0 <= i < |w| - 1
        ensures w[i + 1] in Deps(g, w[i]) <==> WaitsOn(taskID, blockedBy, existing, w[i], w[i + 1])
      {
        EdgesAre(taskID, blockedBy, existing, w[i], w[i + 1]);
      }
    }
    if w :| IsVicious(taskID, blockedBy, existing, w) {
      assert IsLasso(g, w);
    }
    if w :| IsLasso(g, w) && w[0] == taskID {
      assert IsVicious(taskID, blockedBy, existing, w);
    }
  }

  /** A task that waits for itself is one such. */
  lemma SelfBlocked(taskID: Id, blockedBy: seq<Id>, existing: seq<TaskForCycle>)
    requires taskID in blockedBy
    ensures IsVicious(taskID, blockedBy, existing, [taskID, taskID])
  {
  }

  // ----- The search

  /** The state of a search that stands at the end of `stack`: everything visited is either on the
      stack or finished, and what is finished can be scheduled in the order in which it was left. */
  ghost predicate IsSearch(g: Graph, visited: set<Id>, inStack: set<Id>, finished: seq<Id>, stack: seq<Id>) {
    && (stack != [] ==> IsWalk(g, stack))
    && IsSchedule(g, finished)
    && (forall id :: id in inStack <==> id in stack)
    && (forall id :: id in visited <==> id in stack || id in finished)
    && (forall id :: id in finished ==> id !in stack)
  }

  lemma Enter(g: Graph, visited: set<Id>, inStack: set<Id>, finished: seq<Id>, stack: seq<Id>, node: Id)
    requires IsSearch(g, visited, inStack, finished, stack)
    requires stack != [] ==> node in Deps(g, stack[|stack| - 1])
    ensures IsWalk(g, stack + [node])
    ensures node !in visited ==> IsSearch(g, visited + {node}, inStack + {node}, finished, stack + [node])
    ensures node in inStack ==> IsLasso(g, stack + [node])
    ensures node in visited && node !in inStack ==> node in finished
  {
    hide IsSchedule;
    var walk := stack + [node];
    forall i | 0 <= i < |walk| - 1 ensures walk[i + 1] in Deps(g, walk[i]) {
      if i < |stack| - 1 {
        assert walk[i + 1] == stack[i + 1];
      }
    }
    if node in inStack {
      var i :| 0 <= i < |stack| && stack[i] == node;
      assert walk[i] == walk[|walk| - 1];
    }
  }

  lemma Leave(g: Graph, visited: set<Id>, inStack: set<Id>, finished: seq<Id>, stack: seq<Id>, node: Id)
    requires IsSearch(g, visited, inStack, finished, stack + [node]) && node !in stack
    requires forall d :: d in Deps(g, node) ==> d in finished
    ensures IsSearch(g, visited, inStack - {node}, finished + [node], stack)
  {
    hide Deps;
    var longer := finished + [node];
    assert (stack + [node])[|stack|] == node;
    assert forall id :: id in stack ==> id in stack + [node];
    assert forall id :: id in stack + [node] ==> id in stack || id == node;
    assert forall id :: id in longer <==> id in finished || id == node;
    if stack != [] {
      forall i | 0 <= i < |stack| - 1 ensures stack[i + 1] in Deps(g, stack[i]) {
        assert (stack + [node])[i] == stack[i] && (stack + [node])[i + 1] == stack[i + 1];
      }
    }
    assert node !in finished;
    forall k | 0 <= k < |longer| ensures forall d :: d in Deps(g, longer[k]) ==> d in longer[..k] {
      assert longer[..k] == finished[..k];
      assert k == |finished| ==> finished[..k] == finished;
    }
  }

  class Search {
    const adjacency: Graph
    var visited: set<Id>
    var inStack: set<Id>
    /** The tasks left for good, in the order in which they were left. */
    ghost var finished: seq<Id>

    constructor (adjacency: Graph)
      ensures this.adjacency == adjacency
      ensures visited == {} && IsSearch(adjacency, visited, inStack, finished, [])
    {
      this.adjacency := adjacency;
      visited, inStack := {}, {};
      finished := [];
    }

    method HasCycle(nodeID: Id, ghost stack: seq<Id>, ghost universe: set<Id>) returns (found: bool)
      requires IsSearch(adjacency, visited, inStack, finished, stack)
      requires stack != [] ==> nodeID in Deps(adjacency, stack[|stack| - 1])
      requires nodeID in universe
      requires forall id, d :: id in universe && d in Deps(adjacency, id) ==> d in universe
      modifies this
      ensures found ==> ReachesCycle(adjacency, (stack + [nodeID])[0])
      ensures !found ==> IsSearch(adjacency, visited, inStack, finished, stack) && nodeID in finished
      ensures !found ==> old(visited) <= visited && old(finished) <= finished
      decreases universe - visited
    {
      hide IsSearch, IsWalk, Deps;
      ghost var walk := stack + [nodeID];
      Enter(adjacency, visited, inStack, finished, stack, nodeID);
      if nodeID in inStack {
        assert walk[0] == (stack + [nodeID])[0];
        return true;
      }
      if nodeID in visited {
        return false;
      }

      visited := visited + {nodeID};
      inStack := inStack + {nodeID};

      var dependencies := Deps(adjacency, nodeID);
      for k := 0 to |dependencies|
        invariant IsSearch(adjacency, visited, inStack, finished, walk)
        invariant old(visited) + {nodeID} <= visited && old(finished) <= finished
        invariant forall l :: 0 <= l < k ==> dependencies[l] in finished
      {
        ghost var before := finished;
        var inner := HasCycle(dependencies[k], walk, universe);
        if inner {
          assert (walk + [dependencies[k]])[0] == walk[0];
          return true;
        }
      }

      NotOnStack(adjacency, old(visited), old(inStack), old(finished), stack, nodeID);
      Leave(adjacency, visited, inStack, finished, stack, nodeID);
      inStack := inStack - {nodeID};
      finished := finished + [nodeID];
      return false;
    }
  }

  lemma NotOnStack(g: Graph, visited: set<Id>, inStack: set<Id>, finished: seq<Id>, stack: seq<Id>, node: Id)
    requires IsSearch(g, visited, inStack, finished, stack) && node !in visited
    ensures node !in stack
  {
  }

  /** The check answers yes exactly when the new task reaches a cycle of `blocked_by`, itself included;
      when it answers no, the new task and all that it waits for can be done in some order. */
  method DetectCyclesInBlockedBy(taskID: Id, blockedBy: seq<Id>, existingTasks: seq<TaskForCycle>) returns (cyclic: bool)
    ensures cyclic <==> exists w :: IsVicious(taskID, blockedBy, existingTasks, w)
    ensures cyclic <==> ReachesCycle(TaskGraph(taskID, blockedBy, existingTasks), taskID)
    ensures !cyclic <==> exists order :: IsSchedule(TaskGraph(taskID, blockedBy, existingTasks), order) && taskID in order
  {
    hide IsVicious;
    CyclesAre(taskID, blockedBy, existingTasks);
    var adjacency: Graph := map[];
    for k := 0 to |existingTasks|
      invariant adjacency == BuildGraph(existingTasks[..k])
    {
      assert existingTasks[..k + 1][..k] == existingTasks[..k];
      adjacency := adjacency[existingTasks[k].id := existingTasks[k].blockedBy];
    }
    assert existingTasks[..|existingTasks|] == existingTasks;
    adjacency := adjacency[taskID := blockedBy];

    var search := new Search(adjacency);
    ghost var universe := {taskID} + adjacency.Keys + set id, k | id in adjacency && 0 <= k < |adjacency[id]| :: adjacency[id][k];
    cyclic := search.HasCycle(taskID, [], universe);
    assert ([] + [taskID])[0] == taskID;
    forall order | IsSchedule(adjacency, order) && taskID in order ensures !ReachesCycle(adjacency, taskID) {
      ScheduleHasNoCycle(adjacency, order, taskID);
    }
    assert !cyclic ==> IsSchedule(adjacency, search.finished) by {
      if !cyclic { SearchSchedules(adjacency, search.visited, search.inStack, search.finished); }
    }
  }

  lemma SearchSchedules(g: Graph, visited: set<Id>, inStack: set<Id>, finished: seq<Id>)
    requires IsSearch(g, visited, inStack, finished, [])
    ensures IsSchedule(g, finished)
  {
  }
}
