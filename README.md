# Smart to-do list scheduler: a Dafny model

This project models the deterministic core of the Smart to-do list server: the code that decides which task to work on next, with the web framework, the database and the MeTTa reasoning engine taken away. Timestamps are integer seconds. The current time is always a parameter `now`. Urgency scores are exact `real` numbers.

The modules follow the server's files:

- `Tasks` (`tasks.dfy`) holds the task record, the floored day count `(deadline - now).days`, the overdue test, the active-task filter, the id dictionary `{t.id: t}` (the last duplicate wins) and the first-match lookup.
- `FallbackScheduler` (`fallback_scheduler.dfy`) covers `FallbackTaskScheduler`:
  - readiness, with the loop and its early `break`;
  - the urgency score, with each term and as the accumulating method;
  - the single recommendation, over a stable sort that breaks ties by input order;
  - the statistics;
  - the ranked recommendation list with Python's slice semantics for `limit`.
- `DependencyCycles` (`dependency_cycles.dfy`) covers `check_circular_dependencies`. It is a recursive depth-first search that threads the `visited` and `rec_stack` sets. It is proved to answer True exactly when a cycle of dependency edges can be reached from the task.
- `StableSort` (`stable_sort.dfy`) is Python's `sort(key=..., reverse=True)`. It is a stable sort into non-increasing key order: for every key, the elements with that key keep their input order, so the head is the earliest element with a maximal key.
- `MettaText` (`metta_text.dfy`) covers the local text logic of `MeTTaSchedulerService`:
  - the top-level expression splitter, as a function and as the character loop;
  - the task serialiser and the id extractor, with their round trip;
  - the clamped day difference and the statistics counts.
- `MettaMonitor` (`metta_monitor.dfy`) covers `MeTTaHealthMonitor`, modelled as a class `HealthMonitor`. It holds a capped history, cumulative error counters and duration lists. Its invariant ties them to a ghost list of every operation ever recorded. The module also holds the health classification, the error-message classifier and the per-operation statistics.
- `AppHelpers` (`app_helpers.dfy`) holds the request-side helpers of `app.py`:
  - the required-field check and the enumeration checks;
  - the field-by-field task update as a class `TaskRecord`, including its `completed_at` rule and the completion endpoint;
  - the priority-based fallback recommendation;
  - the dependency-edge list.
- `TextUtil` (`text_util.dfy`) holds the `str` operations the code relies on: `strip`, `startswith`, `in`, ASCII `lower`, `split`, `join` and `str(int)`.

## Model

| member | source | states |
|---|---|---|
| Tasks.DaysUntil | server/fallback_scheduler.py:150-156 | the whole days to the deadline, rounded towards minus infinity like `timedelta.days` |
| Tasks.OverdueIffNegativeDays | server/fallback_scheduler.py:34-45 | a task is overdue (deadline strictly before the reference time) exactly when its day count is negative |
| Tasks.Active | server/fallback_scheduler.py:78 | a task is kept exactly when it is in the list and not completed |
| Tasks.TaskDict | server/fallback_scheduler.py:111 | the keys are exactly the ids of the list; each value is a task of the list that carries its key |
| Tasks.TaskDictLastWins | server/fallback_scheduler.py:179 | the task kept for an id is the last one in the list with that id |
| Tasks.FindFirst | server/fallback_scheduler.py:225 | nothing exactly when no task has the id; otherwise the first task with it |
| FallbackScheduler.ReadyAmong | server/fallback_scheduler.py:110-131 | a task is listed exactly when it is in the list, not completed, and every dependency id names a completed task of the dictionary; an unknown id blocks |
| FallbackScheduler.CheckDependencies | server/fallback_scheduler.py:117-126 | the dependency loop with its `break` answers true exactly when every dependency is a completed task of the dictionary |
| FallbackScheduler.CollectReadyTasks | server/fallback_scheduler.py:110-131 | the loop returns, in input order, the tasks ready with respect to the dictionary of the same list |
| FallbackScheduler.GetReadyTasks | server/fallback_scheduler.py:213-220 | the ids of the ready tasks, in order; an id is listed exactly when some task with it is ready |
| FallbackScheduler.ReadinessEdgeCases | server/fallback_scheduler.py:117-126 | a non-completed task without dependencies is ready; a dependency on an id no task carries makes the task not ready |
| FallbackScheduler.ActiveOnlyBlocksDependents | server/fallback_scheduler.py:78-84 | with readiness judged over the active tasks, no task with a dependency is ever ready |
| FallbackScheduler.CompletedDependencyStillBlocks | server/fallback_scheduler.py:78-84 | a task whose only dependency is completed is still not ready on the recommendation path |
| FallbackScheduler.IntendedReadyIffDependenciesCompleted | server/fallback_scheduler.py:110-111 | with the dictionary built from the whole list, a task is ready exactly when it is not completed and all its dependencies are completed tasks |
| FallbackScheduler.CompletedDependencyUnblocks | server/fallback_scheduler.py:110-111 | under that readiness, a completed dependency no longer blocks its dependent |
| FallbackScheduler.PriorityWeight | server/fallback_scheduler.py:146 | weights 3, 2 and 1, with 1 for an unknown priority; always between 1 and 3 |
| FallbackScheduler.DeadlineTerm | server/fallback_scheduler.py:158-164 | an overdue deadline adds at least 5; otherwise the term lies between 0 and 2 |
| FallbackScheduler.DurationTerm | server/fallback_scheduler.py:167-172 | the duration term lies between -0.2 and 0.5 |
| FallbackScheduler.DurationTermInMinutes | server/fallback_scheduler.py:167-172 | a non-zero duration of at most 60 minutes (negative ones included) earns 0.5; 480 minutes or more costs 0.2; anything else adds nothing |
| FallbackScheduler.UrgencyScore | server/fallback_scheduler.py:133-174 | the score is never below 0.8 |
| FallbackScheduler.CalculateUrgencyScore | server/fallback_scheduler.py:143-174 | the accumulating computation equals the score function and is at least 0.8 |
| FallbackScheduler.DeadlineTermNonIncreasing | server/fallback_scheduler.py:158-164 | more days left never gives a larger deadline term |
| FallbackScheduler.ScoreNonIncreasingInDeadline | server/fallback_scheduler.py:146-172 | with priority and duration fixed, a later deadline never raises the score |
| FallbackScheduler.OverdueOutranksOnTime | server/fallback_scheduler.py:146-172 | an overdue task outscores every task that is not overdue, whatever their priorities and durations |
| FallbackScheduler.CalculateTaskUrgency | server/fallback_scheduler.py:222-233 | 0.0 exactly when no task has the id; otherwise the score of the first task with it |
| FallbackScheduler.CandidatesAreActive | server/fallback_scheduler.py:78-87 | every candidate is a non-completed task of the list; there are none exactly when every task is completed |
| FallbackScheduler.ScoreTasks | server/fallback_scheduler.py:90-94 | one (id, score) pair per candidate, in input order |
| FallbackScheduler.GetNextRecommendedTask | server/fallback_scheduler.py:65-108 | nothing exactly when every task is completed; otherwise the id of the earliest candidate with the highest score |
| FallbackScheduler.SinglePendingTaskIsRecommended | server/fallback_scheduler.py:78-87 | a lone non-completed task is recommended, met dependencies or not |
| FallbackScheduler.CountStatus | server/fallback_scheduler.py:242-244 | an exact-status count is at most the list length; completed plus active gives the length |
| FallbackScheduler.StatusCountsBounded | server/fallback_scheduler.py:241-244 | the three status counts add up to at most the total, and to exactly the total when every status is one of the three |
| FallbackScheduler.TaskStatistics | server/fallback_scheduler.py:235-256 | total is the length; overdue, ready (over the full list) and high-priority pending are each bounded by the non-completed count |
| FallbackScheduler.StatisticsOfNoTasks | server/fallback_scheduler.py:240-254 | an empty list gives all-zero statistics |
| FallbackScheduler.ValidationScenarioHasOneOverdue | server/test_final_validation.py:28-64 | the three-task scenario (due in two days, overdue by one day, due in two hours) has exactly one overdue task |
| FallbackScheduler.ReasonsFor | server/fallback_scheduler.py:283-299 | "High priority" iff the priority is high; "Quick win" iff the duration is non-zero and at most 60; "Overdue by n" iff overdue by n days; "Due in n" iff not overdue and n = days left is at most 3 |
| FallbackScheduler.BuildRecommendations | server/fallback_scheduler.py:278-308 | one entry per candidate, in input order |
| FallbackScheduler.TopSliceOfSorted | server/fallback_scheduler.py:311-313 | a prefix of the stably sorted entries is in score order, is made of candidates, and outscores every candidate left out |
| FallbackScheduler.GetTaskRecommendations | server/fallback_scheduler.py:268-313 | as many entries as `candidates[:limit]` has; non-increasing scores; each made from a candidate, and no entry more often than its candidate occurs (multiset bound); no omitted candidate scores above a kept one; entries with equal scores keep the candidates' order |
| DependencyCycles.NoEdgesNoCycle | server/fallback_scheduler.py:180-183 | a task without dependencies, or an id with no task, reaches no cycle |
| DependencyCycles.HasCycle | server/fallback_scheduler.py:189-205 | True only when a cycle is reachable from the root; an id already on the stack gives True; on False `rec_stack` is restored, `visited` only grows and now holds the current id, and every successor of a finished id was finished before it |
| DependencyCycles.NoCycleFromFinished | server/fallback_scheduler.py:189-205 | no cycle can be reached from an id the search has finished |
| DependencyCycles.CheckCircularDependencies | server/fallback_scheduler.py:176-211 | True exactly when a cycle of dependency edges can be reached from the task |
| DependencyCycles.SelfDependencyIsCycle | server/fallback_scheduler.py:189-202 | a task that lists itself as a dependency is reported as circular |
| DependencyCycles.ChainCycleIsReachable | server/fallback_scheduler.py:189-202 | four tasks depending on each other round a ring form a cycle reachable from the first |
| StableSort.SortDesc | server/fallback_scheduler.py:97 | the result is a permutation of the input in non-increasing key order |
| StableSort.SortDescHeadIsEarliestMax | server/fallback_scheduler.py:97-101 | the first element of the sorted list is the earliest element with a maximal key |
| StableSort.SortDescIsStable | server/fallback_scheduler.py:97 | for every key, the elements with that key appear in the sorted list in their input order |
| StableSort.SliceOfSortKeepsTies | server/fallback_scheduler.py:311-313 | the first entries of the sorted list hold no element more often than the input and keep the input order among equal keys |
| StableSort.SliceLength | server/fallback_scheduler.py:313 | the length of `s[:limit]`: at most a non-negative limit, and equal to it unless the list is shorter; with a negative limit, `-limit` fewer than the length, or 0 when the list is shorter |
| StableSort.PrefixSlice | server/fallback_scheduler.py:313 | `s[:limit]` is a prefix of `s`; a non-negative limit keeps `limit` elements or all of them; a negative limit drops the last `-limit` elements, or all when there are fewer |
| MettaText.Emit | server/metta_service.py:81-85 | a non-blank text is appended stripped exactly when the stripped text is not a comment, and a comment leaves the list unchanged; well-formedness is kept |
| MettaText.ParseMetta | server/metta_service.py:42-93 | every expression is non-empty, has no surrounding whitespace, and does not start with ';' or '#' |
| MettaText.ParseMettaExpressions | server/metta_service.py:42-93 | the character loop computes the splitter function, so its expressions are well formed |
| MettaText.EscapedPairIsVerbatim | server/metta_service.py:51-59 | a backslash and the next character are kept verbatim; string flag and depth are unchanged; nothing is emitted |
| MettaText.ParensInsideStringArePlain | server/metta_service.py:66-78 | inside a string a parenthesis only extends the text |
| MettaText.QuoteTogglesString | server/metta_service.py:61-64 | an unescaped quote toggles the string flag and is kept |
| MettaText.BalancedTextIsEmitted | server/metta_service.py:80-85 | text that brings the depth to 0 outside a string is emitted at once |
| MettaText.BareCharIsEmitted | server/metta_service.py:80-85 | a visible character at depth 0 after only whitespace is emitted on its own |
| MettaText.NegativeDepthSuppressesEmission | server/metta_service.py:75-85 | after a stray ')' the depth stays negative and characters other than '(' emit nothing |
| MettaText.LoneSemicolonIsDropped | server/metta_service.py:81-85 | a ';' at the start is discarded as a one-character comment |
| MettaText.CommentTextLeaks | server/metta_service.py:81-85 | "; hi" splits into "h" and "i" |
| MettaText.ParseMettaCorrected | server/metta_service.py:69-71 | the splitter with whole-line comments also returns only well-formed expressions |
| MettaText.CommentLineIsIgnored | server/metta_service.py:69-71 | with whole-line comments, a comment line where an expression could start changes nothing |
| MettaText.LeadingCommentIsIgnored | server/metta_service.py:69-71 | with whole-line comments, a file that starts with a comment line parses like its remainder |
| MettaText.ParsersAgreeWithoutComments | server/metta_service.py:42-93 | on text without ';' and '#' the corrected splitter and the original agree |
| MettaText.MettaPriority | server/metta_service.py:98-99 | one of High, Medium, Low; Medium exactly for medium or an unknown priority |
| MettaText.MettaStatus | server/metta_service.py:102-103 | one of Pending, InProgress, Completed; Pending exactly for pending or an unknown status |
| MettaText.DepsText | server/metta_service.py:109-110 | parenthesised, and "()" for no dependencies |
| MettaText.DepsTextRoundTrip | server/metta_service.py:109-110 | splitting the text inside the parentheses at spaces gives the ids back when no id holds a space |
| MettaText.TaskToMettaFormat | server/metta_service.py:95-114 | the text starts with "(task <id> " |
| MettaText.ExtractTaskId | server/metta_service.py:177-189 | an id exactly when the text starts with "(task "; the id has no space and is followed by a space or the end |
| MettaText.ExtractTaskIdOfFormat | server/metta_service.py:177-189 | extracting the id of a serialised task gives its id back when the id holds no space |
| MettaText.IdsOf | server/metta_service.py:218-223 | no id is empty or holds a space; every non-empty extracted id is kept, and every kept id is what the extractor returns for some result |
| MettaText.CollectTaskIds | server/metta_service.py:218-225 | the loop collects exactly those ids, in order |
| MettaText.CalculateDaysDifference | server/metta_service.py:116-120 | never negative: the whole days until a future deadline, 0 for a past one |
| MettaText.MettaTaskStatistics | server/metta_service.py:252-287 | total is the length; the status counts add up to at most the total; overdue tasks are among the non-completed |
| MettaText.MettaStatisticsIgnoreEngine | server/metta_service.py:270-276 | the engine result has no influence, and the overdue count agrees with the scheduler's |
| MettaMonitor.OperationMetrics.Duration | server/metta_monitor.py:29-33 | defined exactly when `end_time` is set and non-zero, and then start plus duration is the end |
| MettaMonitor.LastN | server/metta_monitor.py:44 | a deque with `maxlen` holds the last `maxlen` elements appended |
| MettaMonitor.LastNAppend | server/metta_monitor.py:114 | appending to a full deque evicts the oldest element |
| MettaMonitor.CountFailure | server/metta_monitor.py:117-119 | a failure adds one to its own counter and one to the "total" counter |
| MettaMonitor.AddDuration | server/metta_monitor.py:122-123 | the duration is appended to its operation's list only |
| MettaMonitor.CountsFollowOperations | server/metta_monitor.py:116-119 | counting a failure keeps every counter equal to what the operations so far give |
| MettaMonitor.DurationsFollowOperations | server/metta_monitor.py:121-123 | recording a defined non-zero duration keeps every duration list equal to what the operations so far give |
| MettaMonitor.TotalCountsEveryFailure | server/metta_monitor.py:117-119 | the "total" counter holds every failure plus once more each failure of an operation named "total" |
| MettaMonitor.HealthMonitor.constructor | server/metta_monitor.py:42-56 | an empty monitor satisfies the invariant |
| MettaMonitor.HealthMonitor.RecordOperation | server/metta_monitor.py:111-135 | the history gains the record and drops its oldest beyond `max_history`; counters change only for a failure; the invariant is kept |
| MettaMonitor.HealthMonitor.TrackOperation | server/metta_monitor.py:88-109 | the operation is always recorded; it is failed, with the exception text, exactly when the body raised an `Exception`; a `BaseException` that is not an `Exception` is recorded as a success; whatever was raised is passed on |
| MettaMonitor.ErrorRate | server/metta_monitor.py:149-150 | the rate times the history length is the error count; it exceeds 0.1 exactly when errors exceed a tenth of the length |
| MettaMonitor.HealthOf | server/metta_monitor.py:137-182 | UNKNOWN iff no history; DEGRADED iff 3 of the last 10 failed; else UNHEALTHY iff the rate exceeds 0.1; else HEALTHY; the last record is reported; the issues are the high-rate issue, carrying the rate, iff the rate exceeds 0.1, then "Multiple recent failures" iff DEGRADED, and nothing else |
| MettaMonitor.HealthMonitor.GetHealthStatus | server/metta_monitor.py:137-182 | the report of the current history, with the total errors being the cumulative "total" counter |
| MettaMonitor.EvictionInflatesErrorRate | server/metta_monitor.py:113-150 | with room for one record, two failures give an error rate of 2 |
| MettaMonitor.FailureCountsOnce | server/metta_monitor.py:116-119 | a failure of an operation not named "total" adds exactly one to its counter and to the overall counter; a success changes no counter |
| MettaMonitor.BorrowErrorWinsOverTimeout | server/metta_monitor.py:219-227 | every message containing "BorrowMutError" is a borrow error, whatever else it mentions |
| MettaMonitor.BorrowCheckIsCaseSensitive | server/metta_monitor.py:219-223 | the borrow test is case-sensitive: a lower-case message mentioning "timeout" is a timeout, even when it contains "borrowmuterror" |
| MettaMonitor.TimeoutWinsOverConnection | server/metta_monitor.py:222-225 | a message with both "timeout" and "connection" counts as a timeout |
| MettaMonitor.ClassifyIgnoresCase | server/metta_monitor.py:222-225 | apart from the BorrowMutError test, classification ignores the case of ASCII letters |
| MettaMonitor.UnmatchedMessageIsOther | server/metta_monitor.py:219-227 | a message counts as Other exactly when it matches none of the three patterns |
| MettaMonitor.ErrorMessages | server/metta_monitor.py:217 | every message is the message of some failed operation, every failed operation with a non-empty message contributes it, no message is empty, and there is at most one per failure |
| MettaMonitor.PatternsCoverEveryMessage | server/metta_monitor.py:218-227 | every message lands in exactly one bucket, so the counts add up to the number of messages |
| MettaMonitor.CountErrorPatterns | server/metta_monitor.py:218-227 | the counting loop computes the pattern counts, which add up to the number of messages |
| MettaMonitor.Selected | server/metta_monitor.py:187-190 | every operation when the name is absent or empty, otherwise exactly those with that name |
| MettaMonitor.SuccessRate | server/metta_monitor.py:204 | the rate times the total is the success count |
| MettaMonitor.StatsOf | server/metta_monitor.py:192-229 | "no operations" exactly for an empty selection; successes and failures add up to the total; error patterns present exactly when something failed |
| MettaMonitor.StatsFromCounts | server/metta_monitor.py:192-229 | the computation with the counting loop yields those statistics |
| MettaMonitor.StatsPatternsCoverMessages | server/metta_monitor.py:216-229 | the error patterns count every failure message once |
| MettaMonitor.HealthMonitor.GetOperationStats | server/metta_monitor.py:184-231 | the statistics of the selected operations of the history |
| AppHelpers.MissingFields | server/app.py:68 | a field is listed exactly when it is required and absent or null |
| AppHelpers.MissingFieldsKeepOrder | server/app.py:68 | missing fields are listed in the order they are required |
| AppHelpers.ValidateRequiredFields | server/app.py:66-71 | (True, None) exactly when every required field is present and not null; otherwise False with "Missing required fields: " and the missing names joined by ", " |
| AppHelpers.OneMissingField | server/app.py:68-70 | a single missing field is named on its own |
| AppHelpers.CreateRequestError | server/app.py:194-208 | accepted exactly when the fields are present, the deadline parses and the priority is high, medium or low; a missing field wins over every other error |
| AppHelpers.UnknownPriorityIsRefused | server/app.py:206-208 | a complete request with priority "urgent" is refused with the priority message |
| AppHelpers.SetStatus | server/app.py:292-297 | the new status, with `completed_at` stamped only when the task becomes completed without a stamp |
| AppHelpers.AcceptedUpdateKeepsEnumerations | server/app.py:276-309 | an accepted update keeps priority and status valid, sets the carried fields and stamps `updated_at` |
| AppHelpers.RefusedUpdateStoresNoInvalidValue | server/app.py:281-306 | a refused update stores no invalid priority or status and leaves `updated_at` alone |
| AppHelpers.UpdateRefusedIff | server/app.py:281-306 | refused exactly when the deadline is malformed, the priority or status is invalid, or the new dependencies form a cycle |
| AppHelpers.CompletionStampedOnce | server/app.py:296-297 | an accepted update keeps an existing `completed_at` and sets it only when completing an unstamped task |
| AppHelpers.SecondCompletionKeepsTimestamp | server/app.py:296-297 | completing twice through updates keeps the first timestamp |
| AppHelpers.RefusedDependenciesAreAssigned | server/app.py:300-306 | a dependency list refused as cyclic is still left on the task, since `temp_task` is the task itself |
| AppHelpers.TaskRecord.constructor | server/models.py:52-69 | the record holds the given row |
| AppHelpers.TaskRecord.Update | server/app.py:276-309 | the fields assigned in place and the error returned are those of the update rule, the first failing check ending the update |
| AppHelpers.TaskRecord.AssignStatus | server/app.py:292-297 | the status assignment with the stamp-once rule |
| AppHelpers.TaskRecord.Complete | server/app.py:354-356 | the completion endpoint sets the status and overwrites `completed_at` every time |
| AppHelpers.CompletionPathsDisagree | server/app.py:296-356 | completing at times 1 and 2 keeps 1 through updates but 2 through the completion endpoint |
| AppHelpers.WeightOf | server/app.py:406 | a weight from 1 to 3 exactly for the three known priorities |
| AppHelpers.FirstByKey | server/app.py:407-410 | the index the reversed stable sort puts first: no key above it, every earlier key strictly below |
| AppHelpers.FallbackRecommendation | server/app.py:391-412 | no task exactly when every task is completed; a failure exactly when an open task has an unknown priority; otherwise the first open task of the reversed sort on (weight, deadline) |
| AppHelpers.FallbackIsTopOpenTask | server/app.py:403-410 | the recommendation is an open task and no open task has a greater (weight, deadline) key |
| AppHelpers.LaterDeadlineWins | server/app.py:406-410 | between two pending high-priority tasks the later deadline wins, in either list order |
| AppHelpers.EdgesFrom | server/app.py:446-450 | one edge per dependency entry, and an edge is present iff it goes into the task from a dependency it lists |
| AppHelpers.EdgeCountIsDependencyCount | server/app.py:444-450 | there are as many edges as dependency entries |
| AppHelpers.EdgeIffDependency | server/app.py:444-450 | an edge is listed exactly when its target task lists its source as a dependency |
| AppHelpers.BuildDependencyEdges | server/app.py:443-450 | the nested loop builds exactly that edge list |
| TextUtil.Strip | server/metta_service.py:68-70 | empty exactly for blank text; otherwise no whitespace at either end |
| TextUtil.StripIsTrimmedSlice | server/metta_service.py:68-70 | the stripped text is a slice of the input with only whitespace before and after it |
| TextUtil.LowerAscii | server/metta_monitor.py:222 | same length, each ASCII letter lower-cased |
| TextUtil.SplitOn | server/metta_service.py:184 | the parts hold no separator and joined by it give the text back |
| TextUtil.SplitOfJoin | server/metta_service.py:110 | splitting a join of separator-free parts gives the parts back |

## Left out

- The Flask routes, JWT, CORS, the SQLAlchemy session and `to_dict` are left out. Request bodies are maps from field names to optional values; a task row is a value, or a `TaskRecord` object for the update.
- Every call into the `hyperon` MeTTa engine is left out. This covers `load_tasks_into_metta`, `_add_dynamic_date_functions` and the engine-backed `get_next_recommended_task`, `check_circular_dependencies`, `get_ready_tasks` and `calculate_task_urgency` of `metta_service.py`. Only their local text handling is modelled.
- The wall clock, `safe_datetime_comparison` and time zones are left out. Times are integer seconds on one scale, and `now` is a parameter.
- Python floats are modelled as exact reals.
- Catch-all exception handlers that log and return a default are not modelled. Only the normal path is.
- The monitor's logging, the lock, `export_metrics`, `get_monitor` and the uptime figure are left out.
- MettaMonitor.HealthMonitor.GetOperationStats: does not compute the float average, minimum and maximum durations or the slow-operation count.
- MettaMonitor.HealthOf: does not compute the average response times, which are float averages of the duration lists, and does not render the high-error-rate issue as text: the issue carries the rate, and its `:.1%` float formatting is not modelled.
- MettaMonitor.CountErrorPatterns: returns all four counts, zeros included, where the source's dictionary holds only the kinds that occurred.
- TextUtil.LowerAscii: lower-cases ASCII letters only, where Python's `lower()` also maps other letters.
- MettaText.TaskToMettaFormat: takes the `YYYY-MM-DD` rendering of the deadline as a parameter, because `strftime` is not modelled.
- AppHelpers.CreateRequestError: takes whether the deadline parses as a parameter, because `fromisoformat` is not modelled. It also leaves out the `int(duration)` conversion error and the cycle refusal when dependencies are given, which is handler plumbing.
- AppHelpers.TaskRecord.Update: takes the deadline as already parsed or malformed, and the cycle answer as a parameter. The `int(duration)` conversion error is not modelled.
- The `dependencies` JSON property of the task model is taken as a plain list.
- FallbackScheduler.ReasonsFor: the reasons are the constructors `HighPriorityTask`, `OverdueBy(n)`, `DueIn(n)` and `QuickWin` rather than the strings "High priority task", "Overdue by N days", "Due in N days" and "Quick win (≤1 hour)", because f-string rendering is not modelled; likewise a recommendation carries the deadline as integer seconds rather than `deadline.isoformat()`.

## Findings

| source | as written | input that shows it | evidently intended | confidence | as-written member | corrected member |
|---|---|---|---|---|---|---|
| server/metta_service.py:81-85 | a comment is dropped one character at a time: the ';' alone is discarded, then each later visible character at depth 0 is emitted as an expression of its own | the file text "; hi" splits into "h" and "i" | a comment line is skipped up to its newline | high; not executed | MettaText.CommentTextLeaks | MettaText.LeadingCommentIsIgnored |
| server/fallback_scheduler.py:78-84 | readiness on the recommendation paths is judged over the active tasks only, so completed dependencies are never found | tasks A (completed) and B (pending, depends on A): B is not ready | a task whose dependencies are all completed is ready, as the docstring and `get_task_statistics` (over the full list) have it | high; not executed | FallbackScheduler.CompletedDependencyStillBlocks | FallbackScheduler.IntendedReadyIffDependenciesCompleted |
