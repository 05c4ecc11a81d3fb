/** The request-side helpers of the HTTP server (server/app.py) with the Flask, JWT and
    database code taken away: the required-field check, the priority and status
    enumerations, the field-by-field task update with its `completed_at` rule, the
    priority-based fallback recommendation and the dependency-edge list. A request body
    is a map from field names to values, a JSON `null` being `None`. */
module AppHelpers {
  import opened Tasks
  import opened TextUtil

  // ---------------------------------------------------------------------------
  // Required fields (`validate_required_fields`)
  // ---------------------------------------------------------------------------

  type RequestData = map<string, Option<string>>

  /** A field is missing when it is absent or null. */
  predicate IsMissing(data: RequestData, field: string) {
    field !in data || data[field].None?
  }

  /** The missing fields, in the order they are required. */
  function MissingFields(data: RequestData, required: seq<string>): (r: seq<string>)
    ensures |r| <= |required|
    ensures forall f :: f in r <==> f in required && IsMissing(data, f)
  {
    if required == [] then []
    else
      var last := required[|required| - 1];
      assert required == required[..|required| - 1] + [last];
      MissingFields(data, required[..|required| - 1]) + (if IsMissing(data, last) then [last] else [])
  }

  /** The missing fields of two lists of requirements are listed one list after the other. */
  lemma {:induction false} MissingFieldsKeepOrder(data: RequestData, a: seq<string>, b: seq<string>)
    ensures MissingFields(data, a + b) == MissingFields(data, a) + MissingFields(data, b)
  {
    if b == [] {
      assert a + b == a;
    } else {
      var b' := b[..|b| - 1];
      assert (a + b)[..|a + b| - 1] == a + b';
      MissingFieldsKeepOrder(data, a, b');
    }
  }

  const MissingPrefix: string := "Missing required fields: "

  /** `(True, None)` when every required field is present and not null, otherwise
      `(False, message)` with the missing fields joined by ", ". */
  function ValidateRequiredFields(data: RequestData, required: seq<string>): (r: (bool, Option<string>))
    ensures r.0 <==> forall f :: f in required ==> f in data && data[f].Some?
    ensures r.0 <==> r.1.None?
    ensures !r.0 ==> r.1 == Some(MissingPrefix + Join(", ", MissingFields(data, required)))
  {
    var missing := MissingFields(data, required);
    if missing != [] then
      assert missing[0] in missing;
      (false, Some(MissingPrefix + Join(", ", missing)))
    else
      assert forall f :: f in required ==> !IsMissing(data, f);
      (true, None)
  }

  /** A single missing field is named on its own. */
  lemma OneMissingField(data: RequestData, present: seq<string>, field: string)
    requires forall f :: f in present ==> !IsMissing(data, f)
    requires IsMissing(data, field)
    ensures ValidateRequiredFields(data, present + [field]) == (false, Some(MissingPrefix + field))
  {
    MissingFieldsKeepOrder(data, present, [field]);
    assert MissingFields(data, [field]) == [field] by {
      assert [field][..0] == [];
    }
    NothingMissing(data, present);
  }

  lemma {:induction false} NothingMissing(data: RequestData, required: seq<string>)
    requires forall f :: f in required ==> !IsMissing(data, f)
    ensures MissingFields(data, required) == []
  {
    if required != [] {
      NothingMissing(data, required[..|required| - 1]);
      assert required[|required| - 1] in required;
    }
  }

  // ---------------------------------------------------------------------------
  // Enumerations
  // ---------------------------------------------------------------------------

  predicate IsValidPriority(p: string) {
    p == High || p == Medium || p == Low
  }

  predicate IsValidStatus(s: string) {
    s == Pending || s == InProgress || s == Completed
  }

  /** The fields `create_task` requires. */
  const CreateRequired: seq<string> := ["title", "deadline", "priority", "duration"]

  /** The validation of `create_task`, first failure wins: required fields, then the
      deadline format (decided outside the model and passed in), then the priority.
      The status of a new task is not checked. */
  function CreateRequestError(data: RequestData, deadlineParses: bool): (err: Option<string>)
    ensures err.None? <==> && (forall f :: f in CreateRequired ==> f in data && data[f].Some?)
                           && deadlineParses
                           && IsValidPriority(data["priority"].value)
    ensures (exists f :: f in CreateRequired && IsMissing(data, f)) ==> err == ValidateRequiredFields(data, CreateRequired).1
  {
    var (valid, message) := ValidateRequiredFields(data, CreateRequired);
    if !valid then message
    else if !deadlineParses then Some("Invalid deadline format. Use ISO format.")
    else if !IsValidPriority(data["priority"].value) then Some("Priority must be high, medium, or low")
    else None
  }

  /** A request with every field present but an unknown priority is refused with the
      priority message. */
  lemma UnknownPriorityIsRefused()
    ensures CreateRequestError(map["title" := Some("a"), "deadline" := Some("d"), "priority" := Some("urgent"),
                                   "duration" := Some("30")], true)
            == Some("Priority must be high, medium, or low")
  {
  }

  // ---------------------------------------------------------------------------
  // Task update (`update_task`, `complete_task`)
  // ---------------------------------------------------------------------------

  /** A deadline field of an update request: either an ISO timestamp, or text that does
      not parse. */
  datatype DeadlineInput = Iso(timestamp: int) | Malformed

  /** The fields an update request carries; `None` means the key is absent. */
  datatype TaskUpdate = TaskUpdate(
    title: Option<string>,
    description: Option<Option<string>>,
    deadline: Option<DeadlineInput>,
    priority: Option<string>,
    duration: Option<int>,
    status: Option<string>,
    notes: Option<Option<string>>,
    dependencies: Option<seq<string>>)

  /** The updatable columns of a task row. */
  datatype TaskRow = TaskRow(
    title: string,
    description: Option<string>,
    deadline: int,
    priority: string,
    duration: int,
    status: string,
    completedAt: Option<int>,
    notes: Option<string>,
    dependencies: seq<string>,
    updatedAt: int)

  /** The title and the description, assigned first. */
  function SetTexts(row: TaskRow, u: TaskUpdate): (r: TaskRow)
    ensures r.title == (if u.title.Some? then u.title.value else row.title)
    ensures r.priority == row.priority && r.status == row.status
    ensures r.completedAt == row.completedAt && r.updatedAt == row.updatedAt
  {
    var withTitle := if u.title.Some? then row.(title := u.title.value) else row;
    if u.description.Some? then withTitle.(description := u.description.value) else withTitle
  }

  function SetDeadline(row: TaskRow, u: TaskUpdate): (r: TaskRow)
    requires u.deadline.Some? ==> u.deadline.value.Iso?
    ensures r.title == row.title && r.priority == row.priority && r.status == row.status
    ensures r.completedAt == row.completedAt && r.updatedAt == row.updatedAt
  {
    if u.deadline.Some? then row.(deadline := u.deadline.value.timestamp) else row
  }

  function SetPriorityAndDuration(row: TaskRow, u: TaskUpdate): (r: TaskRow)
    ensures r.priority == (if u.priority.Some? then u.priority.value else row.priority)
    ensures r.title == row.title && r.status == row.status
    ensures r.completedAt == row.completedAt && r.updatedAt == row.updatedAt
  {
    var withPriority := if u.priority.Some? then row.(priority := u.priority.value) else row;
    if u.duration.Some? then withPriority.(duration := u.duration.value) else withPriority
  }

  /** The new status, and `completed_at` stamped when the task becomes completed and
      has no stamp yet. */
  function SetStatus(row: TaskRow, u: TaskUpdate, now: int): (r: TaskRow)
    ensures r.status == (if u.status.Some? then u.status.value else row.status)
    ensures r.completedAt == (if u.status == Some(Completed) && row.completedAt.None? then Some(now) else row.completedAt)
    ensures r.title == row.title && r.priority == row.priority && r.updatedAt == row.updatedAt
  {
    if u.status.None? then row
    else if u.status.value == Completed && row.completedAt.None? then row.(status := Completed, completedAt := Some(now))
    else row.(status := u.status.value)
  }

  function SetNotesAndDependencies(row: TaskRow, u: TaskUpdate): (r: TaskRow)
    ensures r.dependencies == (if u.dependencies.Some? then u.dependencies.value else row.dependencies)
    ensures r.title == row.title && r.priority == row.priority && r.status == row.status
    ensures r.completedAt == row.completedAt && r.updatedAt == row.updatedAt
  {
    var withNotes := if u.notes.Some? then row.(notes := u.notes.value) else row;
    if u.dependencies.Some? then withNotes.(dependencies := u.dependencies.value) else withNotes
  }

  /** What `update_task` leaves in the row and what it answers. The fields are applied
      in order, and a failing check ends the update with the fields before it already
      assigned. `cycleDetected` is the answer of the dependency-cycle check, which runs
      after the new dependencies are assigned. */
  function ApplyUpdate(row: TaskRow, u: TaskUpdate, now: int, cycleDetected: bool): (r: (Option<string>, TaskRow))
  {
    var texts := SetTexts(row, u);
    if u.deadline.Some? && u.deadline.value.Malformed? then (Some("Invalid deadline format"), texts)
    else
      var dated := SetDeadline(texts, u);
      if u.priority.Some? && !IsValidPriority(u.priority.value) then (Some("Invalid priority"), dated)
      else
        var prioritized := SetPriorityAndDuration(dated, u);
        if u.status.Some? && !IsValidStatus(u.status.value) then (Some("Invalid status"), prioritized)
        else
          var linked := SetNotesAndDependencies(SetStatus(prioritized, u, now), u);
          if u.dependencies.Some? && cycleDetected then (Some("Circular dependency detected"), linked)
          else (None, linked.(updatedAt := now))
  }

  /** An accepted update leaves a valid priority and status valid, and sets exactly the
      fields the request carries. */
  lemma AcceptedUpdateKeepsEnumerations(row: TaskRow, u: TaskUpdate, now: int, cycleDetected: bool)
    requires IsValidPriority(row.priority) && IsValidStatus(row.status)
    requires ApplyUpdate(row, u, now, cycleDetected).0.None?
    ensures var r := ApplyUpdate(row, u, now, cycleDetected).1;
            && IsValidPriority(r.priority) && IsValidStatus(r.status)
            && r.priority == (if u.priority.Some? then u.priority.value else row.priority)
            && r.status == (if u.status.Some? then u.status.value else row.status)
            && r.title == (if u.title.Some? then u.title.value else row.title)
            && r.updatedAt == now
  {
  }

  /** A refused update never stores an invalid priority or status, and never touches
      `updated_at`. */
  lemma RefusedUpdateStoresNoInvalidValue(row: TaskRow, u: TaskUpdate, now: int, cycleDetected: bool)
    requires IsValidPriority(row.priority) && IsValidStatus(row.status)
    requires ApplyUpdate(row, u, now, cycleDetected).0.Some?
    ensures var r := ApplyUpdate(row, u, now, cycleDetected).1;
            IsValidPriority(r.priority) && IsValidStatus(r.status) && r.updatedAt == row.updatedAt
  {
  }

  /** The update is refused exactly when a carried field fails its check. */
  lemma UpdateRefusedIff(row: TaskRow, u: TaskUpdate, now: int, cycleDetected: bool)
    ensures ApplyUpdate(row, u, now, cycleDetected).0.Some? <==>
              || (u.deadline.Some? && u.deadline.value.Malformed?)
              || (u.priority.Some? && !IsValidPriority(u.priority.value))
              || (u.status.Some? && !IsValidStatus(u.status.value))
              || (u.dependencies.Some? && cycleDetected)
  {
  }

  /** Completing through an update stamps `completed_at` the first time only. */
  lemma CompletionStampedOnce(row: TaskRow, u: TaskUpdate, now: int, cycleDetected: bool)
    requires ApplyUpdate(row, u, now, cycleDetected).0.None?
    ensures var r := ApplyUpdate(row, u, now, cycleDetected).1;
            && (row.completedAt.Some? ==> r.completedAt == row.completedAt)
            && (row.completedAt.None? ==> r.completedAt == (if u.status == Some(Completed) then Some(now) else None))
  {
  }

  /** A second completing update keeps the first timestamp. */
  lemma SecondCompletionKeepsTimestamp(row: TaskRow, first: int, second: int)
    ensures var complete := TaskUpdate(None, None, None, None, None, Some(Completed), None, None);
            var once := ApplyUpdate(row, complete, first, false).1;
            var twice := ApplyUpdate(once, complete, second, false).1;
            twice.completedAt == once.completedAt
            && (row.completedAt.None? ==> twice.completedAt == Some(first))
  {
  }

  /** A dependency list refused as cyclic is nevertheless left in the row: the check
      runs on the task object after its dependencies were replaced. */
  lemma RefusedDependenciesAreAssigned(row: TaskRow, deps: seq<string>, now: int)
    ensures var u := TaskUpdate(None, None, None, None, None, None, None, Some(deps));
            ApplyUpdate(row, u, now, true) == (Some("Circular dependency detected"), row.(dependencies := deps))
  {
  }

  /** A stored task whose columns the update handlers assign in place. */
  class TaskRecord {
    const id: string
    var title: string
    var description: Option<string>
    var deadline: int
    var priority: string
    var duration: int
    var status: string
    var completedAt: Option<int>
    var notes: Option<string>
    var dependencies: seq<string>
    var updatedAt: int

    function Row(): TaskRow
      reads this
    {
      TaskRow(title, description, deadline, priority, duration, status, completedAt, notes, dependencies, updatedAt)
    }

    constructor(id: string, row: TaskRow)
      ensures this.id == id && Row() == row
    {
      this.id := id;
      title := row.title;
      description := row.description;
      deadline := row.deadline;
      priority := row.priority;
      duration := row.duration;
      status := row.status;
      completedAt := row.completedAt;
      notes := row.notes;
      dependencies := row.dependencies;
      updatedAt := row.updatedAt;
    }

    /** `update_task`: assigns the carried fields one by one, returning the first
        error met. */
    method Update(u: TaskUpdate, now: int, cycleDetected: bool) returns (err: Option<string>)
      modifies this
      ensures (err, Row()) == ApplyUpdate(old(Row()), u, now, cycleDetected)
    {
      AssignTexts(u);
      if u.deadline.Some? && u.deadline.value.Malformed? {
        return Some("Invalid deadline format");
      }
      AssignDeadline(u);
      if u.priority.Some? && !IsValidPriority(u.priority.value) {
        return Some("Invalid priority");
      }
      AssignPriorityAndDuration(u);
      if u.status.Some? && !IsValidStatus(u.status.value) {
        return Some("Invalid status");
      }
      AssignStatus(u, now);
      AssignNotesAndDependencies(u);
      if u.dependencies.Some? && cycleDetected {
        return Some("Circular dependency detected");
      }
      Touch(now);
      return None;
    }

    method AssignTexts(u: TaskUpdate)
      modifies this
      ensures Row() == SetTexts(old(Row()), u)
    {
      if u.title.Some? {
        title := u.title.value;
      }
      if u.description.Some? {
        description := u.description.value;
      }
    }

    method AssignDeadline(u: TaskUpdate)
      requires u.deadline.Some? ==> u.deadline.value.Iso?
      modifies this
      ensures Row() == SetDeadline(old(Row()), u)
    {
      if u.deadline.Some? {
        deadline := u.deadline.value.timestamp;
      }
    }

    method AssignPriorityAndDuration(u: TaskUpdate)
      modifies this
      ensures Row() == SetPriorityAndDuration(old(Row()), u)
    {
      if u.priority.Some? {
        priority := u.priority.value;
      }
      if u.duration.Some? {
        duration := u.duration.value;
      }
    }

    /** The status, with `completed_at` stamped only when it is still unset. */
    method AssignStatus(u: TaskUpdate, now: int)
      modifies this
      ensures Row() == SetStatus(old(Row()), u, now)
    {
      if u.status.Some? {
        status := u.status.value;
        if u.status.value == Completed && completedAt.None? {
          completedAt := Some(now);
        }
      }
    }

    method AssignNotesAndDependencies(u: TaskUpdate)
      modifies this
      ensures Row() == SetNotesAndDependencies(old(Row()), u)
    {
      if u.notes.Some? {
        notes := u.notes.value;
      }
      if u.dependencies.Some? {
        dependencies := u.dependencies.value;
      }
    }

    method Touch(now: int)
      modifies this
      ensures Row() == old(Row()).(updatedAt := now)
    {
      updatedAt := now;
    }

    /** `complete_task`: marks the task completed and stamps `completed_at` every time. */
    method Complete(now: int)
      modifies this
      ensures Row() == old(Row()).(status := Completed, completedAt := Some(now), updatedAt := now)
    {
      status := Completed;
      completedAt := Some(now);
      updatedAt := now;
    }
  }

  /** The two ways of completing a task disagree on an already completed one: the
      update keeps the first timestamp, the completion endpoint replaces it. */
  method CompletionPathsDisagree() returns (viaUpdate: Option<int>, viaComplete: Option<int>)
    ensures viaUpdate == Some(1) && viaComplete == Some(2)
  {
    var row := TaskRow("t", None, 0, High, 30, Pending, None, None, [], 0);
    var complete := TaskUpdate(None, None, None, None, None, Some(Completed), None, None);
    var a := new TaskRecord("a", row);
    var _ := a.Update(complete, 1, false);
    var _ := a.Update(complete, 2, false);
    viaUpdate := a.completedAt;
    var b := new TaskRecord("b", row);
    b.Complete(1);
    b.Complete(2);
    viaComplete := b.completedAt;
  }

  // ---------------------------------------------------------------------------
  // Fallback recommendation (`get_recommended_task`)
  // ---------------------------------------------------------------------------

  /** `priority_weights`; it has no entry for other priorities. */
  function WeightOf(priority: string): (w: Option<int>)
    ensures w.Some? <==> IsValidPriority(priority)
    ensures w.Some? ==> 1 <= w.value <= 3
  {
    if priority == High then Some(3)
    else if priority == Medium then Some(2)
    else if priority == Low then Some(1)
    else None
  }

  /** The sort key `(weight, deadline)` of `a` is strictly greater than that of `b`,
      tuples comparing lexicographically. */
  predicate KeyAbove(a: Task, b: Task)
    requires IsValidPriority(a.priority) && IsValidPriority(b.priority)
  {
    var wa := WeightOf(a.priority).value;
    var wb := WeightOf(b.priority).value;
    wa > wb || (wa == wb && a.deadline > b.deadline)
  }

  predicate AllKnownPriorities(ts: seq<Task>) {
    forall t :: t in ts ==> IsValidPriority(t.priority)
  }

  /** `k` is where the reversed stable sort puts its first element: no key exceeds
      that of `ts[k]`, and every earlier element has a strictly smaller key. */
  ghost predicate IsFirstOfReversedSort(ts: seq<Task>, k: int)
    requires AllKnownPriorities(ts)
  {
    && 0 <= k < |ts|
    && (forall j :: 0 <= j < |ts| ==> !KeyAbove(ts[j], ts[k]))
    && (forall j :: 0 <= j < k ==> KeyAbove(ts[k], ts[j]))
  }

  /** The index of the first element after `sorted(ts, key, reverse=True)`. */
  function FirstByKey(ts: seq<Task>): (k: nat)
    requires ts != [] && AllKnownPriorities(ts)
    ensures IsFirstOfReversedSort(ts, k)
  {
    if |ts| == 1 then 0
    else
      var init := ts[..|ts| - 1];
      var b := FirstByKey(init);
      assert forall j :: 0 <= j < |init| ==> init[j] == ts[j];
      if KeyAbove(ts[|ts| - 1], ts[b]) then |ts| - 1 else b
  }

  datatype Fallback = NoTask | Recommend(task: Task) | UnknownPriority

  /** The fallback branch of `get_recommended_task`: no task for an empty list or when
      everything is completed; the `KeyError` of an unknown priority among the open
      tasks; otherwise the open task with the highest weight, the latest deadline among
      equal weights, and the earliest in the list among full ties. */
  function FallbackRecommendation(tasks: seq<Task>): (r: Fallback)
    ensures r == NoTask <==> forall t :: t in tasks ==> t.status == Completed
    ensures r == UnknownPriority <==> exists t :: t in tasks && t.status != Completed && !IsValidPriority(t.priority)
    ensures r.Recommend? ==> var open := Active(tasks);
                             AllKnownPriorities(open)
                             && exists k :: IsFirstOfReversedSort(open, k) && open[k] == r.task
  {
    if tasks == [] then NoTask
    else
      var open := Active(tasks);
      if open == [] then
        assert forall t :: t in tasks ==> t.status == Completed;
        NoTask
      else if !AllKnownPriorities(open) then UnknownPriority
      else
        assert open[0] in open;
        Recommend(open[FirstByKey(open)])
  }

  /** The recommendation is an open task, and no open task outranks it. */
  lemma FallbackIsTopOpenTask(tasks: seq<Task>, t: Task)
    requires FallbackRecommendation(tasks) == Recommend(t)
    ensures t in tasks && t.status != Completed
    ensures forall o :: o in tasks && o.status != Completed ==>
              IsValidPriority(o.priority) && IsValidPriority(t.priority) && !KeyAbove(o, t)
  {
    var open := Active(tasks);
    var k :| IsFirstOfReversedSort(open, k) && open[k] == t;
    assert t in open;
    forall o | o in tasks && o.status != Completed
      ensures IsValidPriority(o.priority) && IsValidPriority(t.priority) && !KeyAbove(o, t)
    {
      assert o in open;
      var j :| 0 <= j < |open| && open[j] == o;
    }
  }

  /** Among equal weights the later deadline wins, whatever the list order. */
  lemma LaterDeadlineWins(early: Task, late: Task)
    requires early.status == Pending && late.status == Pending
    requires early.priority == High && late.priority == High
    requires early.deadline < late.deadline
    ensures FallbackRecommendation([early, late]) == Recommend(late)
    ensures FallbackRecommendation([late, early]) == Recommend(late)
  {
    LaterDeadlineWinsIn([early, late], 1);
    LaterDeadlineWinsIn([late, early], 0);
  }

  lemma LaterDeadlineWinsIn(ts: seq<Task>, i: nat)
    requires |ts| == 2 && i < 2
    requires ts[0].status == Pending && ts[1].status == Pending
    requires ts[0].priority == High && ts[1].priority == High
    requires ts[1 - i].deadline < ts[i].deadline
    ensures FallbackRecommendation(ts) == Recommend(ts[i])
  {
    NothingCompletedKeepsAll(ts);
    assert ts[0] in ts;
    assert AllKnownPriorities(ts);
    var r := FallbackRecommendation(ts);
    var k :| IsFirstOfReversedSort(ts, k) && ts[k] == r.task;
    assert KeyAbove(ts[i], ts[1 - i]);
  }

  lemma {:induction false} NothingCompletedKeepsAll(ts: seq<Task>)
    requires forall t :: t in ts ==> t.status != Completed
    ensures Active(ts) == ts
  {
    if ts != [] {
      NothingCompletedKeepsAll(ts[..|ts| - 1]);
      assert ts[|ts| - 1] in ts;
      assert ts[..|ts| - 1] + [ts[|ts| - 1]] == ts;
    }
  }

  // ---------------------------------------------------------------------------
  // Dependency graph edges (`get_dependency_graph`)
  // ---------------------------------------------------------------------------

  datatype Edge = Edge(from: string, to: string)

  /** One edge from each dependency to its task, task by task, dependency by dependency. */
  function EdgesOf(tasks: seq<Task>): seq<Edge> {
    if tasks == [] then []
    else
      var last := tasks[|tasks| - 1];
      EdgesOf(tasks[..|tasks| - 1]) + EdgesFrom(last)
  }

  /** The edges of one task: one per dependency entry, each into the task from a
      dependency it lists. */
  function EdgesFrom(t: Task): (r: seq<Edge>)
    ensures |r| == |t.deps|
    ensures forall e :: e in r <==> e.to == t.id && e.from in t.deps
  {
    var r := seq(|t.deps|, i requires 0 <= i < |t.deps| => Edge(t.deps[i], t.id));
    assert forall d :: d in t.deps ==> Edge(d, t.id) in r by {
      forall d | d in t.deps ensures Edge(d, t.id) in r {
        var i :| 0 <= i < |t.deps| && t.deps[i] == d;
        assert r[i] == Edge(d, t.id);
      }
    }
    r
  }

  /** The total length of the dependency lists. */
  function DependencyCount(tasks: seq<Task>): nat {
    if tasks == [] then 0 else DependencyCount(tasks[..|tasks| - 1]) + |tasks[|tasks| - 1].deps|
  }

  /** There are as many edges as dependency entries. */
  lemma {:induction false} EdgeCountIsDependencyCount(tasks: seq<Task>)
    ensures |EdgesOf(tasks)| == DependencyCount(tasks)
  {
    if tasks != [] {
      EdgeCountIsDependencyCount(tasks[..|tasks| - 1]);
    }
  }

  /** An edge is listed exactly when its target task lists its source as a dependency. */
  lemma {:induction false} EdgeIffDependency(tasks: seq<Task>, e: Edge)
    ensures e in EdgesOf(tasks) <==> exists t :: t in tasks && t.id == e.to && e.from in t.deps
  {
    if tasks != [] {
      var init := tasks[..|tasks| - 1];
      var last := tasks[|tasks| - 1];
      EdgeIffDependency(init, e);
      assert tasks == init + [last];
    }
  }

  /** The nested loop of `get_dependency_graph`. */
  method BuildDependencyEdges(tasks: seq<Task>) returns (edges: seq<Edge>)
    ensures edges == EdgesOf(tasks)
  {
    edges := [];
    for i := 0 to |tasks|
      invariant edges == EdgesOf(tasks[..i])
    {
      assert tasks[..i + 1][..i] == tasks[..i];
      var task := tasks[i];
      ghost var before := edges;
      for j := 0 to |task.deps|
        invariant edges == before + EdgesFrom(task)[..j]
      {
        assert EdgesFrom(task)[..j + 1] == EdgesFrom(task)[..j] + [Edge(task.deps[j], task.id)];
        edges := edges + [Edge(task.deps[j], task.id)];
      }
      assert EdgesFrom(task)[..|task.deps|] == EdgesFrom(task);
    }
    assert tasks[..|tasks|] == tasks;
  }
}
