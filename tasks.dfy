/** The task record that the scheduling code reads (`Task` in server/models.py), and the
    lookups it builds over a list of tasks. Timestamps are integer seconds; the current
    time is always passed in as `now`. */
module Tasks {

  datatype Option<T> = None | Some(value: T)

  /** Status and priority stay strings: the scheduler has a branch for values outside
      the enumerations ("anything else"). */
  datatype Task = Task(
    id: string,
    title: string,
    status: string,
    priority: string,
    deadline: int,
    duration: int,
    deps: seq<string>)

  const Completed: string := "completed"
  const Pending: string := "pending"
  const InProgress: string := "in-progress"

  const High: string := "high"
  const Medium: string := "medium"
  const Low: string := "low"

  const SecondsPerDay: int := 86400

  /** `(deadline - now).days`: a `timedelta` counts whole days rounded towards minus infinity. */
  function DaysUntil(deadline: int, now: int): (days: int)
    ensures days * SecondsPerDay <= deadline - now < (days + 1) * SecondsPerDay
  {
    (deadline - now) / SecondsPerDay
  }

  /** `is_task_overdue`: the deadline lies strictly before the reference time. */
  predicate IsOverdue(t: Task, now: int) {
    t.deadline < now
  }

  lemma OverdueIffNegativeDays(t: Task, now: int)
    ensures IsOverdue(t, now) <==> DaysUntil(t.deadline, now) < 0
  {
  }

  lemma {:induction false} DaysUntilMonotone(d1: int, d2: int, now: int)
    requires d1 <= d2
    ensures DaysUntil(d1, now) <= DaysUntil(d2, now)
  {
  }

  /** `[t for t in tasks if t.status != 'completed']`, in input order. */
  function Active(tasks: seq<Task>): (r: seq<Task>)
    ensures |r| <= |tasks|
    ensures forall t :: t in r <==> t in tasks && t.status != Completed
  {
    if tasks == [] then []
    else
      var last := tasks[|tasks| - 1];
      assert tasks == tasks[..|tasks| - 1] + [last];
      Active(tasks[..|tasks| - 1]) + (if last.status != Completed then [last] else [])
  }

  /** `{t.id: t for t in tasks}`: every id of the list is a key, and a key maps to a
      task of the list carrying that id. */
  function TaskDict(tasks: seq<Task>): (d: map<string, Task>)
    ensures forall k :: k in d <==> exists i :: 0 <= i < |tasks| && tasks[i].id == k
    ensures forall k :: k in d ==> d[k] in tasks && d[k].id == k
  {
    if tasks == [] then map[]
    else
      var last := tasks[|tasks| - 1];
      var prefix := tasks[..|tasks| - 1];
      var d := TaskDict(prefix)[last.id := last];
      assert forall i :: 0 <= i < |prefix| ==> prefix[i] == tasks[i];
      assert forall k :: k in d ==> d[k] in tasks by {
        assert forall t :: t in prefix ==> t in tasks;
      }
      d
  }

  /** The dictionary comprehension keeps the LAST task of each id. */
  lemma {:induction false} TaskDictLastWins(tasks: seq<Task>, i: int)
    requires 0 <= i < |tasks|
    requires forall j :: i < j < |tasks| ==> tasks[j].id != tasks[i].id
    ensures TaskDict(tasks)[tasks[i].id] == tasks[i]
  {
    if i < |tasks| - 1 {
      var prefix := tasks[..|tasks| - 1];
      TaskDictLastWins(prefix, i);
    }
  }

  /** `next((t for t in tasks if t.id == task_id), None)`: the FIRST task with the id. */
  function FindFirst(tasks: seq<Task>, id: string): (r: Option<Task>)
    ensures r.None? <==> forall i :: 0 <= i < |tasks| ==> tasks[i].id != id
    ensures r.Some? ==> exists i :: 0 <= i < |tasks| && tasks[i] == r.value && tasks[i].id == id
                                    && forall j :: 0 <= j < i ==> tasks[j].id != id
  {
    if tasks == [] then None
    else if tasks[0].id == id then Some(tasks[0])
    else
      var r := FindFirst(tasks[1..], id);
      assert forall i :: 0 < i < |tasks| ==> tasks[i] == tasks[1..][i - 1];
      if r.Some? then
        var i :| 0 <= i < |tasks[1..]| && tasks[1..][i] == r.value && tasks[1..][i].id == id
                 && forall j :: 0 <= j < i ==> tasks[1..][j].id != id;
        assert tasks[i + 1] == r.value;
        assert forall j :: 0 <= j < i + 1 ==> tasks[j].id != id by {
          forall j | 0 <= j < i + 1 ensures tasks[j].id != id {
            if j > 0 { assert tasks[j] == tasks[1..][j - 1]; }
          }
        }
        r
      else
        r
  }
}
