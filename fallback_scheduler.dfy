/** The deterministic scheduler of server/fallback_scheduler.py (`FallbackTaskScheduler`):
    the readiness filter, the urgency score, the single recommendation, the statistics and
    the ranked recommendation list. The dependency cycle check lives in module
    DependencyCycles. */
module FallbackScheduler {
  import opened Tasks
  import StableSort

  // ---------------------------------------------------------------------------
  // Readiness (`_get_ready_tasks`, `get_ready_tasks`)
  // ---------------------------------------------------------------------------

  /** Every dependency id names a task of the dictionary, and that task is completed.
      An id with no task behind it is an unmet dependency. */
  predicate DependenciesMet(t: Task, taskDict: map<string, Task>) {
    forall dep :: dep in t.deps ==> dep in taskDict && taskDict[dep].status == Completed
  }

  predicate IsReady(t: Task, taskDict: map<string, Task>) {
    t.status != Completed && DependenciesMet(t, taskDict)
  }

  /** The tasks of `tasks` that are ready with respect to `taskDict`, in input order. */
  function ReadyAmong(tasks: seq<Task>, taskDict: map<string, Task>): (r: seq<Task>)
    ensures |r| <= |tasks|
    ensures forall t :: t in r <==> t in tasks && IsReady(t, taskDict)
  {
    if tasks == [] then []
    else
      var last := tasks[|tasks| - 1];
      var prefix := tasks[..|tasks| - 1];
      assert tasks == prefix + [last];
      ReadyAmong(prefix, taskDict) + (if IsReady(last, taskDict) then [last] else [])
  }

  lemma ReadyAmongAppend(prefix: seq<Task>, t: Task, taskDict: map<string, Task>)
    ensures ReadyAmong(prefix + [t], taskDict)
            == ReadyAmong(prefix, taskDict) + (if IsReady(t, taskDict) then [t] else [])
  {
    assert (prefix + [t])[..|prefix|] == prefix;
  }

  /** Only tasks that are not completed can be ready. */
  lemma {:induction false} ReadyAmongWithinActive(tasks: seq<Task>, taskDict: map<string, Task>)
    ensures |ReadyAmong(tasks, taskDict)| <= |Active(tasks)|
  {
    if tasks != [] {
      ReadyAmongWithinActive(tasks[..|tasks| - 1], taskDict);
    }
  }

  /** `_get_ready_tasks(tasks)`: readiness is judged against the dictionary built from
      the SAME list that is filtered. */
  function ReadyTasks(tasks: seq<Task>): seq<Task> {
    ReadyAmong(tasks, TaskDict(tasks))
  }

  /** The inner loop of `_get_ready_tasks`: walks the dependency ids and stops at the
      first one that is missing from the dictionary or not completed. */
  method CheckDependencies(task: Task, taskDict: map<string, Task>) returns (met: bool)
    ensures met <==> DependenciesMet(task, taskDict)
  {
    var j := 0;
    while j < |task.deps|
      invariant 0 <= j <= |task.deps|
      invariant forall k :: 0 <= k < j ==> task.deps[k] in taskDict && taskDict[task.deps[k]].status == Completed
    {
      var depId := task.deps[j];
      if depId !in taskDict || taskDict[depId].status != Completed {
        return false;
      }
      j := j + 1;
    }
    return true;
  }

  /** `_get_ready_tasks`: the loop with its `dependencies_met` flag and early `break`. */
  method CollectReadyTasks(tasks: seq<Task>) returns (readyTasks: seq<Task>)
    ensures readyTasks == ReadyTasks(tasks)
  {
    var taskDict := TaskDict(tasks);
    readyTasks := [];
    var i := 0;
    while i < |tasks|
      invariant 0 <= i <= |tasks|
      invariant readyTasks == ReadyAmong(tasks[..i], taskDict)
    {
      var task := tasks[i];
      assert tasks[..i + 1] == tasks[..i] + [task];
      ReadyAmongAppend(tasks[..i], task, taskDict);
      if task.status != Completed {
        var dependenciesMet := true;
        if task.deps != [] {
          dependenciesMet := CheckDependencies(task, taskDict);
        }
        if dependenciesMet {
          readyTasks := readyTasks + [task];
        }
      }
      i := i + 1;
    }
    assert tasks[..|tasks|] == tasks;
  }

  /** `get_ready_tasks`: the ids of the ready tasks, in input order. */
  method GetReadyTasks(tasks: seq<Task>) returns (ids: seq<string>)
    ensures |ids| == |ReadyTasks(tasks)|
    ensures forall k :: 0 <= k < |ids| ==> ids[k] == ReadyTasks(tasks)[k].id
    ensures forall id :: id in ids <==> exists t :: t in tasks && t.id == id && IsReady(t, TaskDict(tasks))
  {
    var readyTasks := CollectReadyTasks(tasks);
    ids := seq(|readyTasks|, k requires 0 <= k < |readyTasks| => readyTasks[k].id);
    forall id | id in ids ensures exists t :: t in tasks && t.id == id && IsReady(t, TaskDict(tasks)) {
      var k :| 0 <= k < |ids| && ids[k] == id;
      assert readyTasks[k] in readyTasks;
    }
    forall id | exists t :: t in tasks && t.id == id && IsReady(t, TaskDict(tasks)) ensures id in ids {
      var t :| t in tasks && t.id == id && IsReady(t, TaskDict(tasks));
      assert t in readyTasks;
      var k :| 0 <= k < |readyTasks| && readyTasks[k] == t;
      assert ids[k] == id;
    }
  }

  /** The edge cases of readiness: a non-completed task without dependencies is ready,
      and a dependency on an id that no task carries blocks the task. */
  lemma ReadinessEdgeCases(tasks: seq<Task>, t: Task, dep: string)
    requires t in tasks
    ensures t.status != Completed && t.deps == [] ==> t in ReadyTasks(tasks)
    ensures dep in t.deps && (forall i :: 0 <= i < |tasks| ==> tasks[i].id != dep) ==> t !in ReadyTasks(tasks)
  {
  }

  /** Readiness judged over the active tasks only (as `get_next_recommended_task` and
      `get_task_recommendations` do) never counts a task with a dependency as ready:
      its dependencies can only be looked up among tasks that are not completed. */
  lemma {:induction false} ActiveOnlyBlocksDependents(tasks: seq<Task>, t: Task)
    requires t in Active(tasks) && t.deps != []
    ensures t !in ReadyTasks(Active(tasks))
  {
    var active := Active(tasks);
    var dep := t.deps[0];
    var taskDict := TaskDict(active);
    if dep in taskDict {
      assert taskDict[dep] in active;
    }
  }

  /** A dependency on a completed task still blocks its dependent when readiness is
      judged over the active tasks: the completed task is not in the dictionary. */
  lemma CompletedDependencyStillBlocks(done: Task, t: Task)
    requires done.status == Completed && t.status != Completed
    requires done.id != t.id && t.deps == [done.id]
    ensures DependenciesMet(t, TaskDict([done, t]))
    ensures t !in ReadyTasks(Active([done, t]))
  {
    var tasks := [done, t];
    TaskDictLastWins(tasks, 0);
    assert Active(tasks) == [t] by {
      assert Active([done]) == [];
      assert tasks[..1] == [done];
    }
    ActiveOnlyBlocksDependents(tasks, t);
  }

  /** The readiness the docstring describes ("no incomplete dependencies"): the active
      tasks whose dependencies are completed tasks of the WHOLE list. */
  function IntendedReadyTasks(tasks: seq<Task>): seq<Task> {
    ReadyAmong(Active(tasks), TaskDict(tasks))
  }

  /** A task is ready in the intended sense exactly when it is one of the tasks, it is not
      completed, and every dependency names a completed task of the list. */
  lemma IntendedReadyIffDependenciesCompleted(tasks: seq<Task>, t: Task)
    ensures t in IntendedReadyTasks(tasks)
            <==> t in tasks && t.status != Completed && DependenciesMet(t, TaskDict(tasks))
  {
  }

  /** With the intended readiness a dependency on a completed task no longer blocks. */
  lemma CompletedDependencyUnblocks(done: Task, t: Task)
    requires done.status == Completed && t.status != Completed
    requires done.id != t.id && t.deps == [done.id]
    ensures t in IntendedReadyTasks([done, t])
  {
    TaskDictLastWins([done, t], 0);
    IntendedReadyIffDependenciesCompleted([done, t], t);
  }

  // ---------------------------------------------------------------------------
  // Urgency (`_calculate_urgency_score`, `calculate_task_urgency`)
  // ---------------------------------------------------------------------------

  const DeadlineUrgencyDays: int := 7
  const OverduePenalty: real := 5.0

  /** `self.priority_weights.get(task.priority, 1.0)`. */
  function PriorityWeight(priority: string): (w: real)
    ensures 1.0 <= w <= 3.0
  {
    if priority == High then 3.0
    else if priority == Medium then 2.0
    else if priority == Low then 1.0
    else 1.0
  }

  /** The deadline part of the score, for `days` whole days until the deadline. */
  function DeadlineTerm(days: int): (r: real)
    ensures days < 0 ==> r >= OverduePenalty
    ensures 0 <= days ==> 0.0 <= r <= 2.0
  {
    if days < 0 then OverduePenalty * (-days) as real
    else if days <= DeadlineUrgencyDays then
      ((DeadlineUrgencyDays - days) as real / DeadlineUrgencyDays as real) * 2.0
    else 0.0
  }

  /** The duration part: `if task.duration:` skips a zero duration, then the duration is
      compared in hours. */
  function DurationTerm(duration: int): (r: real)
    ensures -0.2 <= r <= 0.5
  {
    if duration == 0 then 0.0
    else if duration as real / 60.0 <= 1.0 then 0.5
    else if duration as real / 60.0 >= 8.0 then -0.2
    else 0.0
  }

  /** `_calculate_urgency_score(task)` with the current time passed in: it is never
      below 0.8 (weight 1, no deadline term, long-task penalty). */
  function UrgencyScore(t: Task, now: int): (score: real)
    ensures score >= 0.8
  {
    PriorityWeight(t.priority) + DeadlineTerm(DaysUntil(t.deadline, now)) + DurationTerm(t.duration)
  }

  /** `_calculate_urgency_score` as the source computes it, adding to `score` term by
      term. */
  method CalculateUrgencyScore(t: Task, now: int) returns (score: real)
    ensures score == UrgencyScore(t, now)
    ensures score >= 0.8
  {
    score := 0.0;
    score := score + PriorityWeight(t.priority);
    var daysUntilDeadline := DaysUntil(t.deadline, now);
    if daysUntilDeadline < 0 {
      score := score + OverduePenalty * (-daysUntilDeadline) as real;
    } else if daysUntilDeadline <= DeadlineUrgencyDays {
      var urgencyFactor := (DeadlineUrgencyDays - daysUntilDeadline) as real / DeadlineUrgencyDays as real;
      score := score + urgencyFactor * 2.0;
    }
    if t.duration != 0 {
      var durationHours := t.duration as real / 60.0;
      if durationHours <= 1.0 {
        score := score + 0.5;
      } else if durationHours >= 8.0 {
        score := score - 0.2;
      }
    }
  }

  /** The duration rule in minutes: any non-zero duration up to 60 minutes (negative ones
      included) earns the quick-win bonus, 480 minutes or more the long-task penalty. */
  lemma DurationTermInMinutes(duration: int)
    ensures DurationTerm(duration) == (if duration != 0 && duration <= 60 then 0.5
                                       else if duration >= 480 then -0.2 else 0.0)
  {
  }

  lemma DeadlineTermNonIncreasing(d1: int, d2: int)
    requires d1 <= d2
    ensures DeadlineTerm(d1) >= DeadlineTerm(d2)
  {
  }

  /** With priority and duration fixed, a later deadline never raises the score. */
  lemma {:induction false} ScoreNonIncreasingInDeadline(a: Task, b: Task, now: int)
    requires a.priority == b.priority && a.duration == b.duration
    requires a.deadline <= b.deadline
    ensures UrgencyScore(a, now) >= UrgencyScore(b, now)
  {
    DaysUntilMonotone(a.deadline, b.deadline, now);
    DeadlineTermNonIncreasing(DaysUntil(a.deadline, now), DaysUntil(b.deadline, now));
  }

  /** An overdue task outscores every task that is not overdue, whatever the two
      priorities and durations: the overdue term (at least 5) beats any approaching
      deadline term (at most 2) plus the largest weight and bonus differences. */
  lemma {:induction false} OverdueOutranksOnTime(a: Task, b: Task, now: int)
    requires IsOverdue(a, now) && !IsOverdue(b, now)
    ensures UrgencyScore(a, now) > UrgencyScore(b, now)
  {
    OverdueIffNegativeDays(a, now);
    OverdueIffNegativeDays(b, now);
  }

  /** `calculate_task_urgency(task_id, tasks)`: the score of the FIRST task with the id,
      and 0.0 exactly when there is none (every real score is at least 0.8). */
  function CalculateTaskUrgency(taskId: string, tasks: seq<Task>, now: int): (urgency: real)
    ensures urgency == 0.0 <==> forall i :: 0 <= i < |tasks| ==> tasks[i].id != taskId
    ensures urgency != 0.0 ==> exists i :: 0 <= i < |tasks| && tasks[i].id == taskId
                                          && urgency == UrgencyScore(tasks[i], now)
                                          && forall j :: 0 <= j < i ==> tasks[j].id != taskId
  {
    match FindFirst(tasks, taskId)
    case None => 0.0
    case Some(t) => UrgencyScore(t, now)
  }

  // ---------------------------------------------------------------------------
  // Recommendation (`get_next_recommended_task`)
  // ---------------------------------------------------------------------------

  /** The tasks that compete for a recommendation: the ready ones among the ACTIVE tasks,
      or all active tasks when none of them is ready. */
  function Candidates(tasks: seq<Task>): seq<Task> {
    var active := Active(tasks);
    var ready := ReadyTasks(active);
    if ready != [] then ready else active
  }

  lemma CandidatesAreActive(tasks: seq<Task>)
    ensures forall t :: t in Candidates(tasks) ==> t in tasks && t.status != Completed
    ensures Candidates(tasks) == [] <==> forall t :: t in tasks ==> t.status == Completed
  {
    var active := Active(tasks);
    if active != [] {
      assert active[0] in active;
    }
  }

  /** `k` indexes a candidate with a maximal score, and every earlier candidate scores
      strictly less. */
  ghost predicate IsEarliestTopScore(c: seq<Task>, k: int, now: int) {
    && 0 <= k < |c|
    && (forall j :: 0 <= j < |c| ==> UrgencyScore(c[j], now) <= UrgencyScore(c[k], now))
    && (forall j :: 0 <= j < k ==> UrgencyScore(c[j], now) < UrgencyScore(c[k], now))
  }

  datatype ScoredId = ScoredId(id: string, score: real)

  /** The earliest maximum of the (id, score) pairs is the earliest top-scoring task. */
  lemma EarliestMaxOfScores(c: seq<Task>, taskScores: seq<ScoredId>, k: int, now: int)
    requires |taskScores| == |c|
    requires forall j :: 0 <= j < |c| ==> taskScores[j] == ScoredId(c[j].id, UrgencyScore(c[j], now))
    requires StableSort.IsEarliestMax(taskScores, k, (p: ScoredId) => p.score)
    ensures IsEarliestTopScore(c, k, now) && taskScores[k].id == c[k].id
  {
  }

  /** The scoring loop of `get_next_recommended_task`: one (id, score) pair per task,
      in input order. */
  method ScoreTasks(readyTasks: seq<Task>, now: int) returns (taskScores: seq<ScoredId>)
    ensures |taskScores| == |readyTasks|
    ensures forall j :: 0 <= j < |readyTasks| ==> taskScores[j] == ScoredId(readyTasks[j].id, UrgencyScore(readyTasks[j], now))
  {
    taskScores := [];
    var i := 0;
    while i < |readyTasks|
      invariant 0 <= i <= |readyTasks|
      invariant |taskScores| == i
      invariant forall j :: 0 <= j < i ==> taskScores[j] == ScoredId(readyTasks[j].id, UrgencyScore(readyTasks[j], now))
    {
      var score := CalculateUrgencyScore(readyTasks[i], now);
      taskScores := taskScores + [ScoredId(readyTasks[i].id, score)];
      i := i + 1;
    }
  }

  /** `get_next_recommended_task`: nothing when every task is completed; otherwise the id
      of the earliest candidate with the highest urgency score (the stable descending
      sort puts it first). */
  method GetNextRecommendedTask(tasks: seq<Task>, now: int) returns (r: Option<string>)
    ensures r.None? <==> forall t :: t in tasks ==> t.status == Completed
    ensures r.Some? ==> exists k :: IsEarliestTopScore(Candidates(tasks), k, now)
                                    && Candidates(tasks)[k].id == r.value
  {
    var activeTasks := Active(tasks);
    if activeTasks == [] {
      return None;
    }
    var readyTasks := CollectReadyTasks(activeTasks);
    if readyTasks == [] {
      readyTasks := activeTasks;
    }
    assert readyTasks == Candidates(tasks);
    assert activeTasks[0] in activeTasks;
    var taskScores := ScoreTasks(readyTasks, now);
    var byScore := (p: ScoredId) => p.score;
    var sorted := StableSort.SortDesc(taskScores, byScore);
    StableSort.SortDescHeadIsEarliestMax(taskScores, byScore);
    ghost var k :| StableSort.IsEarliestMax(taskScores, k, byScore) && sorted[0] == taskScores[k];
    EarliestMaxOfScores(readyTasks, taskScores, k, now);
    r := Some(sorted[0].id);
  }

  /** A single task that is not completed is the recommendation, whether or not its
      dependencies are met. */
  method SinglePendingTaskIsRecommended(t: Task, now: int) returns (r: Option<string>)
    requires t.status != Completed
    ensures r == Some(t.id)
  {
    assert Active([t]) == [t];
    assert Candidates([t]) == [t] by {
      var ready := ReadyTasks([t]);
      if ready != [] { assert ready[0] in ready; assert ready == [t]; }
    }
    r := GetNextRecommendedTask([t], now);
  }

  // ---------------------------------------------------------------------------
  // Statistics (`get_task_statistics`)
  // ---------------------------------------------------------------------------

  /** Number of tasks whose status is exactly `status`. */
  function CountStatus(tasks: seq<Task>, status: string): (n: nat)
    ensures n <= |tasks|
    ensures status == Completed ==> n + |Active(tasks)| == |tasks|
  {
    if tasks == [] then 0
    else
      var last := tasks[|tasks| - 1];
      CountStatus(tasks[..|tasks| - 1], status) + (if last.status == status then 1 else 0)
  }

  /** Number of tasks that are not completed and overdue. */
  function CountOverdue(tasks: seq<Task>, now: int): (n: nat)
    ensures n <= |Active(tasks)|
  {
    if tasks == [] then 0
    else
      var last := tasks[|tasks| - 1];
      CountOverdue(tasks[..|tasks| - 1], now) + (if last.status != Completed && IsOverdue(last, now) then 1 else 0)
  }

  /** Number of high-priority tasks that are not completed. */
  function CountHighPending(tasks: seq<Task>): (n: nat)
    ensures n <= |Active(tasks)|
  {
    if tasks == [] then 0
    else
      var last := tasks[|tasks| - 1];
      CountHighPending(tasks[..|tasks| - 1]) + (if last.priority == High && last.status != Completed then 1 else 0)
  }

  datatype TaskStats = TaskStats(
    total: nat, completed: nat, pending: nat, inProgress: nat, overdue: nat,
    ready: nat, highPriorityPending: nat)

  lemma {:induction false} StatusCountsBounded(tasks: seq<Task>)
    ensures CountStatus(tasks, Completed) + CountStatus(tasks, Pending) + CountStatus(tasks, InProgress) <= |tasks|
    ensures (forall t :: t in tasks ==> t.status in {Completed, Pending, InProgress})
            ==> CountStatus(tasks, Completed) + CountStatus(tasks, Pending) + CountStatus(tasks, InProgress) == |tasks|
  {
    if tasks != [] {
      var prefix := tasks[..|tasks| - 1];
      StatusCountsBounded(prefix);
      assert forall t :: t in prefix ==> t in tasks;
    }
  }

  /** `get_task_statistics`: the counts, each of the last three among the tasks that are
      not completed. */
  function TaskStatistics(tasks: seq<Task>, now: int): (s: TaskStats)
    ensures s.total == |tasks|
    ensures s.completed + s.pending + s.inProgress <= s.total
    ensures s.overdue <= s.total - s.completed
    ensures s.ready <= s.total - s.completed
    ensures s.highPriorityPending <= s.total - s.completed
  {
    StatusCountsBounded(tasks);
    ReadyAmongWithinActive(tasks, TaskDict(tasks));
    TaskStats(
      |tasks|,
      CountStatus(tasks, Completed),
      CountStatus(tasks, Pending),
      CountStatus(tasks, InProgress),
      CountOverdue(tasks, now),
      |ReadyTasks(tasks)|,
      CountHighPending(tasks))
  }

  lemma StatisticsOfNoTasks(now: int)
    ensures TaskStatistics([], now) == TaskStats(0, 0, 0, 0, 0, 0, 0)
  {
  }

  /** The three tasks of the datetime validation scenario (due in two days, overdue by a
      day, due in two hours) contain exactly one overdue task. */
  lemma ValidationScenarioHasOneOverdue(now: int)
    ensures TaskStatistics([
      Task("dt_test1", "Future Task", Pending, High, now + 2 * SecondsPerDay, 60, []),
      Task("dt_test2", "Overdue Task", Pending, Medium, now - SecondsPerDay, 90, []),
      Task("dt_test3", "Today Task", Pending, High, now + 7200, 30, [])], now).overdue == 1
  {
    var a := Task("dt_test1", "Future Task", Pending, High, now + 2 * SecondsPerDay, 60, []);
    var b := Task("dt_test2", "Overdue Task", Pending, Medium, now - SecondsPerDay, 90, []);
    var c := Task("dt_test3", "Today Task", Pending, High, now + 7200, 30, []);
    assert [a, b, c][..2] == [a, b];
    assert [a, b][..1] == [a];
    assert [a][..0] == [];
    assert CountOverdue([a], now) == 0;
    assert CountOverdue([a, b], now) == 1;
    assert CountOverdue([a, b, c], now) == 1;
  }

  // ---------------------------------------------------------------------------
  // Ranked recommendations (`get_task_recommendations`)
  // ---------------------------------------------------------------------------

  /** The reason strings, without their text rendering. */
  datatype Reason = HighPriorityTask | OverdueBy(days: nat) | DueIn(days: nat) | QuickWin

  function ReasonsFor(t: Task, now: int): (reasons: seq<Reason>)
    ensures HighPriorityTask in reasons <==> t.priority == High
    ensures QuickWin in reasons <==> t.duration != 0 && t.duration <= 60
    ensures forall n: nat :: OverdueBy(n) in reasons <==> IsOverdue(t, now) && n == -DaysUntil(t.deadline, now)
    ensures forall n: nat :: DueIn(n) in reasons <==> !IsOverdue(t, now) && n == DaysUntil(t.deadline, now) <= 3
  {
    var days := DaysUntil(t.deadline, now);
    OverdueIffNegativeDays(t, now);
    (if t.priority == High then [HighPriorityTask] else [])
    + (if days < 0 then [OverdueBy(-days)] else if days <= 3 then [DueIn(days)] else [])
    + (if t.duration != 0 && t.duration <= 60 then [QuickWin] else [])
  }

  datatype Recommendation = Recommendation(
    taskId: string, title: string, urgencyScore: real, reasons: seq<Reason>,
    deadline: int, priority: string)

  function RecommendationFor(t: Task, now: int): Recommendation {
    Recommendation(t.id, t.title, UrgencyScore(t, now), ReasonsFor(t, now), t.deadline, t.priority)
  }

  /** The loop of `get_task_recommendations` that builds one entry per task, in input order. */
  method BuildRecommendations(readyTasks: seq<Task>, now: int) returns (recommendations: seq<Recommendation>)
    ensures |recommendations| == |readyTasks|
    ensures forall j :: 0 <= j < |readyTasks| ==> recommendations[j] == RecommendationFor(readyTasks[j], now)
  {
    recommendations := [];
    var i := 0;
    while i < |readyTasks|
      invariant 0 <= i <= |readyTasks|
      invariant |recommendations| == i
      invariant forall j :: 0 <= j < i ==> recommendations[j] == RecommendationFor(readyTasks[j], now)
    {
      var entry := RecommendationFor(readyTasks[i], now);
      ghost var before := recommendations;
      recommendations := recommendations + [entry];
      assert forall j :: 0 <= j < i ==> recommendations[j] == before[j];
      i := i + 1;
    }
  }

  /** A prefix of the sorted entries is in score order, is made of candidates, and
      outscores every candidate it leaves out. */
  lemma TopSliceOfSorted(c: seq<Task>, all: seq<Recommendation>, sorted: seq<Recommendation>,
                         recs: seq<Recommendation>, now: int)
    requires |all| == |c|
    requires forall j :: 0 <= j < |c| ==> all[j] == RecommendationFor(c[j], now)
    requires multiset(sorted) == multiset(all)
    requires StableSort.SortedDesc(sorted, (r: Recommendation) => r.urgencyScore)
    requires |recs| <= |sorted| && recs == sorted[..|recs|]
    ensures forall i, j :: 0 <= i < j < |recs| ==> recs[i].urgencyScore >= recs[j].urgencyScore
    ensures forall r :: r in recs ==> exists t :: t in c && r == RecommendationFor(t, now)
    ensures forall t :: t in c && RecommendationFor(t, now) !in recs ==>
              forall r :: r in recs ==> r.urgencyScore >= UrgencyScore(t, now)
  {
    forall i, j | 0 <= i < j < |recs| ensures recs[i].urgencyScore >= recs[j].urgencyScore {
      assert recs[i] == sorted[i] && recs[j] == sorted[j];
    }
    forall r | r in recs ensures exists t :: t in c && r == RecommendationFor(t, now) {
      assert r in multiset(sorted);
      var j :| 0 <= j < |all| && all[j] == r;
      assert c[j] in c;
    }
    forall t | t in c && RecommendationFor(t, now) !in recs
      ensures forall r :: r in recs ==> r.urgencyScore >= UrgencyScore(t, now)
    {
      var j :| 0 <= j < |c| && c[j] == t;
      assert all[j] in multiset(sorted);
      var p :| 0 <= p < |sorted| && sorted[p] == RecommendationFor(t, now);
      forall r | r in recs ensures r.urgencyScore >= UrgencyScore(t, now) {
        var q :| 0 <= q < |recs| && recs[q] == r;
        assert sorted[q] == r;
      }
    }
  }

  /** The sort key of the recommendation list. */
  function Score(r: Recommendation): real {
    r.urgencyScore
  }

  /** One entry per candidate, in candidate order. */
  function Entries(c: seq<Task>, now: int): seq<Recommendation> {
    seq(|c|, i requires 0 <= i < |c| => RecommendationFor(c[i], now))
  }

  /** `get_task_recommendations(tasks, limit)`: `limit` entries as Python slices them
      (a negative limit drops entries from the end), in non-increasing score order, each
      candidate's entry at most as often as the candidate occurs, no candidate left out
      scoring above one kept, and entries with equal scores in candidate order. */
  method GetTaskRecommendations(tasks: seq<Task>, now: int, limit: int) returns (recs: seq<Recommendation>)
    ensures |recs| == StableSort.SliceLength(|Candidates(tasks)|, limit)
    ensures forall i, j :: 0 <= i < j < |recs| ==> recs[i].urgencyScore >= recs[j].urgencyScore
    ensures forall r :: r in recs ==> exists t :: t in Candidates(tasks) && r == RecommendationFor(t, now)
    ensures multiset(recs) <= multiset(Entries(Candidates(tasks), now))
    ensures forall t :: t in Candidates(tasks) && RecommendationFor(t, now) !in recs ==>
              forall r :: r in recs ==> r.urgencyScore >= UrgencyScore(t, now)
    ensures forall v :: StableSort.KeyFilter(recs, Score, v) <= StableSort.KeyFilter(Entries(Candidates(tasks), now), Score, v)
  {
    var activeTasks := Active(tasks);
    var readyTasks := CollectReadyTasks(activeTasks);
    if readyTasks == [] {
      readyTasks := activeTasks;
    }
    assert readyTasks == Candidates(tasks);
    var recommendations := BuildRecommendations(readyTasks, now);
    assert recommendations == Entries(readyTasks, now);
    var sorted := StableSort.SortDesc(recommendations, Score);
    recs := StableSort.PrefixSlice(sorted, limit);
    TopSliceOfSorted(readyTasks, recommendations, sorted, recs, now);
    StableSort.SliceOfSortKeepsTies(recommendations, Score, limit);
  }
}
