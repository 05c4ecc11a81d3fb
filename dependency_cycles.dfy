/** `check_circular_dependencies` of server/fallback_scheduler.py: a depth-first search
    over the dependency edges, with the `visited` and `rec_stack` sets of the nested
    `has_cycle` function threaded through the recursion. */
module DependencyCycles {
  import opened Tasks

  /** The ids a task depends on; an id without a task has no outgoing edge
      (`task_dict.get(current_id)` is None). */
  function Succ(d: map<string, Task>, x: string): seq<string> {
    if x in d then d[x].deps else []
  }

  lemma PathStep(d: map<string, Task>, p: seq<string>, i: int)
    requires IsPath(d, p) && 0 <= i < |p| - 1
    ensures p[i + 1] in Succ(d, p[i])
  {
  }

  /** Every id the search can meet: the keys and every id some task depends on. */
  function Universe(d: map<string, Task>): set<string> {
    d.Keys + (set k, x | k in d && x in d[k].deps :: x)
  }

  lemma SuccInUniverse(d: map<string, Task>, x: string, y: string)
    requires y in Succ(d, x)
    ensures y in Universe(d)
  {
    assert x in d && y in d[x].deps;
  }

  /** Consecutive ids of `p` are joined by dependency edges. */
  ghost predicate IsPath(d: map<string, Task>, p: seq<string>) {
    forall i, j :: 0 <= i && j == i + 1 && j < |p| ==> p[j] in Succ(d, p[i])
  }

  /** Some walk along dependency edges from `root` comes back to an id it has already
      passed: a cycle can be reached from `root`. */
  ghost predicate CycleReachable(d: map<string, Task>, root: string) {
    exists p :: IsPath(d, p) && p != [] && p[0] == root && p[|p| - 1] in p[..|p| - 1]
  }

  function FirstIndex(s: seq<string>, x: string): (r: nat)
    requires x in s
    ensures r < |s| && s[r] == x && x !in s[..r]
  {
    if s[0] == x then 0 else 1 + FirstIndex(s[1..], x)
  }

  /** Every successor of a finished id was finished before it. */
  ghost predicate Closed(d: map<string, Task>, finished: seq<string>) {
    forall i, y :: 0 <= i < |finished| && y in Succ(d, finished[i]) ==> y in finished[..i]
  }

  /** Along a path that starts at a finished id every id is finished, at a strictly
      smaller first position than the id before it. */
  lemma {:induction false} PathDescends(d: map<string, Task>, finished: seq<string>, p: seq<string>, k: nat)
    requires Closed(d, finished) && IsPath(d, p)
    requires p != [] && p[0] in finished
    requires k < |p|
    ensures p[k] in finished
    ensures k > 0 ==> p[k - 1] in finished && FirstIndex(finished, p[k]) < FirstIndex(finished, p[k - 1])
  {
    if k > 0 {
      PathDescends(d, finished, p, k - 1);
      var i := FirstIndex(finished, p[k - 1]);
      assert p[k] in Succ(d, p[k - 1]);
      assert p[k] in finished[..i];
      var j :| 0 <= j < i && finished[..i][j] == p[k];
      assert finished[j] == p[k];
    }
  }

  lemma {:induction false} PathDescendsFar(d: map<string, Task>, finished: seq<string>, p: seq<string>, i: nat, j: nat)
    requires Closed(d, finished) && IsPath(d, p)
    requires p != [] && p[0] in finished
    requires i < j < |p|
    ensures p[i] in finished && p[j] in finished
    ensures FirstIndex(finished, p[j]) < FirstIndex(finished, p[i])
  {
    PathDescends(d, finished, p, i);
    PathDescends(d, finished, p, j);
    if j > i + 1 {
      PathDescendsFar(d, finished, p, i, j - 1);
    }
  }

  /** No cycle can be reached from a finished id. */
  lemma NoCycleFromFinished(d: map<string, Task>, finished: seq<string>, root: string)
    requires Closed(d, finished) && root in finished
    ensures !CycleReachable(d, root)
  {
    if CycleReachable(d, root) {
      var p :| IsPath(d, p) && p != [] && p[0] == root && p[|p| - 1] in p[..|p| - 1];
      var i :| 0 <= i < |p| - 1 && p[..|p| - 1][i] == p[|p| - 1];
      PathDescendsFar(d, finished, p, i, |p| - 1);
      assert false;
    }
  }

  lemma ExtendPath(d: map<string, Task>, p: seq<string>, y: string)
    requires IsPath(d, p) && p != [] && y in Succ(d, p[|p| - 1])
    ensures IsPath(d, p + [y]) && (p + [y])[0] == p[0]
  {
    var q := p + [y];
    forall a, b | 0 <= a && b == a + 1 && b < |q| ensures q[b] in Succ(d, q[a]) {
      if b < |q| - 1 {
        assert q[a] == p[a] && q[b] == p[b];
      }
    }
  }

  /** Finishing an id whose successors are all finished keeps the finished order closed. */
  lemma FinishKeepsClosed(d: map<string, Task>, before: seq<string>, current: string)
    requires Closed(d, before)
    requires forall y :: y in Succ(d, current) ==> y in before
    ensures Closed(d, before + [current])
    ensures (set x | x in before + [current]) == (set x | x in before) + {current}
  {
    var after := before + [current];
    forall a, y | 0 <= a < |after| && y in Succ(d, after[a]) ensures y in after[..a] {
      if a < |before| {
        assert after[a] == before[a] && after[..a] == before[..a];
      } else {
        assert after[..a] == before;
      }
    }
  }

  /** `has_cycle(current_id)`. `stack` is the ghost path from the root to the caller,
      whose ids make up `recStack`; `finished` lists the ids the search has left, in the
      order it left them. On False the search state is returned with `current` finished
      and `recStack` as it was. */
  method HasCycle(d: map<string, Task>, ghost root: string, current: string,
                  visited: set<string>, recStack: set<string>,
                  ghost stack: seq<string>, ghost finished: seq<string>)
    returns (found: bool, visitedOut: set<string>, recStackOut: set<string>, ghost finishedOut: seq<string>)
    requires current in Universe(d) && visited <= Universe(d)
    requires IsPath(d, stack + [current]) && (stack + [current])[0] == root
    requires recStack == set x | x in stack
    requires recStack <= visited
    requires visited - recStack == set x | x in finished
    requires Closed(d, finished)
    ensures found ==> CycleReachable(d, root)
    ensures current in recStack ==> found
    ensures !found ==> && recStackOut == recStack
                       && visited <= visitedOut <= Universe(d)
                       && current in visitedOut
                       && visitedOut - recStackOut == (set x | x in finishedOut)
                       && Closed(d, finishedOut)
    decreases Universe(d) - visited
  {
    if current in recStack {
      ghost var p := stack + [current];
      assert p[..|p| - 1] == stack;
      return true, visited, recStack, finished;
    }
    if current in visited {
      return false, visited, recStack, finished;
    }
    visitedOut := visited + {current};
    recStackOut := recStack + {current};
    finishedOut := finished;
    var deps := Succ(d, current);
    if current in d && d[current].deps != [] {
      var i := 0;
      while i < |deps|
        invariant 0 <= i <= |deps|
        invariant visited + {current} <= visitedOut <= Universe(d)
        invariant recStackOut == recStack + {current}
        invariant visitedOut - recStackOut == set x | x in finishedOut
        invariant Closed(d, finishedOut)
        invariant forall k :: 0 <= k < i ==> deps[k] in visitedOut && deps[k] !in recStackOut
      {
        SuccInUniverse(d, current, deps[i]);
        ExtendPath(d, stack + [current], deps[i]);
        ghost var visitedBefore := visitedOut;
        var f;
        f, visitedOut, recStackOut, finishedOut :=
          HasCycle(d, root, deps[i], visitedOut, recStackOut, stack + [current], finishedOut);
        if f {
          return true, visitedOut, recStackOut, finishedOut;
        }
        assert forall k :: 0 <= k < i ==> deps[k] in visitedBefore;
        i := i + 1;
      }
    }
    recStackOut := recStackOut - {current};
    ghost var before := finishedOut;
    forall y | y in Succ(d, current) ensures y in before {
      var k :| 0 <= k < |deps| && deps[k] == y;
      assert y in visitedOut - (recStack + {current});
    }
    finishedOut := finishedOut + [current];
    FinishKeepsClosed(d, before, current);
    found := false;
  }

  /** A task without dependencies, or an id without a task, reaches no cycle. */
  lemma NoEdgesNoCycle(d: map<string, Task>, root: string)
    requires Succ(d, root) == []
    ensures !CycleReachable(d, root)
  {
    forall p | IsPath(d, p) && p != [] && p[0] == root ensures |p| == 1 {
      if |p| > 1 {
        PathStep(d, p, 0);
        assert false;
      }
    }
  }

  /** `check_circular_dependencies(task_id, tasks)`: True exactly when a cycle of
      dependency edges can be reached from the task. */
  method CheckCircularDependencies(taskId: string, tasks: seq<Task>) returns (cyclic: bool)
    ensures cyclic <==> CycleReachable(TaskDict(tasks), taskId)
  {
    var taskDict := TaskDict(tasks);
    if taskId !in taskDict || taskDict[taskId].deps == [] {
      NoEdgesNoCycle(taskDict, taskId);
      return false;
    }
    var visited: set<string> := {};
    var recStack: set<string> := {};
    ghost var stack: seq<string> := [];
    ghost var finished: seq<string> := [];
    assert stack + [taskId] == [taskId];
    assert taskId in Universe(taskDict);
    cyclic, visited, recStack, finished := HasCycle(taskDict, taskId, taskId, visited, recStack, stack, finished);
    if !cyclic {
      assert taskId in visited - recStack;
      assert taskId in set x | x in finished;
      NoCycleFromFinished(taskDict, finished, taskId);
    }
  }

  /** A dependency of a task whose id no later task reuses is an edge of the search. */
  lemma EdgeOfTask(tasks: seq<Task>, i: int, y: string)
    requires 0 <= i < |tasks| && y in tasks[i].deps
    requires forall j :: i < j < |tasks| ==> tasks[j].id != tasks[i].id
    ensures y in Succ(TaskDict(tasks), tasks[i].id)
  {
    TaskDictLastWins(tasks, i);
  }

  /** A path that returns to an id it passed shows a reachable cycle. */
  lemma PathWitnessesCycle(d: map<string, Task>, p: seq<string>, i: int)
    requires IsPath(d, p) && 0 <= i < |p| - 1 && p[i] == p[|p| - 1]
    ensures CycleReachable(d, p[0])
  {
    assert p[..|p| - 1][i] == p[|p| - 1];
  }

  /** A task that lists itself among its dependencies is reported as circular. */
  lemma SelfDependencyIsCycle(tasks: seq<Task>, i: int)
    requires 0 <= i < |tasks| && tasks[i].id in tasks[i].deps
    requires forall j :: i < j < |tasks| ==> tasks[j].id != tasks[i].id
    ensures CycleReachable(TaskDict(tasks), tasks[i].id)
  {
    var x := tasks[i].id;
    var d := TaskDict(tasks);
    EdgeOfTask(tasks, i, x);
    var p := [x, x];
    assert IsPath(d, p) by {
      forall m, n | 0 <= m && n == m + 1 && n < |p| ensures p[n] in Succ(d, p[m]) {
        assert m == 0;
      }
    }
    PathWitnessesCycle(d, p, 0);
  }

  /** Four tasks depending on each other round a ring (A on D, D on C, C on B, B on A)
      form a cycle reachable from A. */
  lemma ChainCycleIsReachable(a: Task, b: Task, c: Task, dd: Task)
    requires a.id != b.id && a.id != c.id && a.id != dd.id && b.id != c.id && b.id != dd.id && c.id != dd.id
    requires dd.id in a.deps && a.id in b.deps && b.id in c.deps && c.id in dd.deps
    ensures CycleReachable(TaskDict([a, b, c, dd]), a.id)
  {
    var tasks := [a, b, c, dd];
    var d := TaskDict(tasks);
    EdgeOfTask(tasks, 0, dd.id);
    EdgeOfTask(tasks, 1, a.id);
    EdgeOfTask(tasks, 2, b.id);
    EdgeOfTask(tasks, 3, c.id);
    RingIsPath(d, a.id, dd.id, c.id, b.id);
    PathWitnessesCycle(d, [a.id, dd.id, c.id, b.id, a.id], 0);
  }

  lemma RingIsPath(d: map<string, Task>, w: string, x: string, y: string, z: string)
    requires x in Succ(d, w) && y in Succ(d, x) && z in Succ(d, y) && w in Succ(d, z)
    ensures IsPath(d, [w, x, y, z, w])
  {
    var p := [w, x, y, z, w];
    forall m, n | 0 <= m && n == m + 1 && n < |p| ensures p[n] in Succ(d, p[m]) {
      if m == 0 { assert p[m] == w && p[n] == x; }
      else if m == 1 { assert p[m] == x && p[n] == y; }
      else if m == 2 { assert p[m] == y && p[n] == z; }
      else { assert p[m] == z && p[n] == w; }
    }
  }
}
