/** The operation health monitor of server/metta_monitor.py (`MeTTaHealthMonitor`): a
    bounded history of operation records, cumulative error counters and recorded
    durations, the health classification and the per-operation statistics. Clock
    readings are passed in as `real` seconds; logging and the lock are not modelled. */
module MettaMonitor {
  import opened TextUtil

  datatype Option<T> = None | Some(value: T)

  /** `MeTTaOperationMetrics`. */
  datatype OperationMetrics = OperationMetrics(
    operationName: string,
    startTime: real,
    endTime: Option<real>,
    success: bool,
    errorMessage: Option<string>,
    connectionId: Option<string>,
    retryCount: int)
  {
    /** `duration`: defined only when `end_time` is set and truthy (not 0.0). */
    function Duration(): (d: Option<real>)
      ensures d.Some? <==> endTime.Some? && endTime.value != 0.0
      ensures d.Some? ==> startTime + d.value == endTime.value
    {
      if endTime.Some? && endTime.value != 0.0 then Some(endTime.value - startTime) else None
    }
  }

  /** How the body run under `track_operation` ends: it returns, raises an `Exception`
      whose text is `message`, or raises a `BaseException` that is not an `Exception`
      (such as `KeyboardInterrupt`, `SystemExit` or a task cancellation). */
  datatype BodyOutcome = Returned | RaisedException(message: string) | RaisedBaseException

  /** The key of the overall error counter; an operation of that name counts twice. */
  const Total: string := "total"

  /** `deque(maxlen=n)` after appending every element of `s`: the last `n` of them. */
  function LastN<T>(s: seq<T>, n: nat): (r: seq<T>)
    ensures |r| == if |s| <= n then |s| else n
    ensures r == s[|s| - |r|..]
  {
    if |s| <= n then s else s[|s| - n..]
  }

  lemma LastNAppend<T>(s: seq<T>, x: T, n: nat)
    ensures LastN(s + [x], n) == var h := LastN(s, n) + [x]; if |h| > n then h[1..] else h
  {
    var h := LastN(s, n) + [x];
    if |h| > n {
      assert h[1..] == (s + [x])[|s| + 1 - n..];
    }
  }

  /** What `error_counts[name]` holds after the operations `ops`. */
  function ErrorCount(ops: seq<OperationMetrics>, name: string): nat {
    if ops == [] then 0
    else
      var last := ops[|ops| - 1];
      ErrorCount(ops[..|ops| - 1], name)
      + (if !last.success && last.operationName == name then 1 else 0)
      + (if !last.success && name == Total then 1 else 0)
  }

  /** Number of failed operations. */
  function Failures(ops: seq<OperationMetrics>): (n: nat)
    ensures n <= |ops|
  {
    if ops == [] then 0
    else Failures(ops[..|ops| - 1]) + (if !ops[|ops| - 1].success then 1 else 0)
  }

  /** What `performance_stats[name]` holds after the operations `ops`: the defined,
      non-zero durations of the operations of that name, in order. */
  function DurationsOf(ops: seq<OperationMetrics>, name: string): seq<real> {
    if ops == [] then []
    else
      var last := ops[|ops| - 1];
      var d := last.Duration();
      DurationsOf(ops[..|ops| - 1], name)
      + (if last.operationName == name && d.Some? && d.value != 0.0 then [d.value] else [])
  }

  /** `defaultdict(int)` lookup. */
  function CountOf(m: map<string, nat>, key: string): nat {
    if key in m then m[key] else 0
  }

  /** `defaultdict(list)` lookup. */
  function ListOf(m: map<string, seq<real>>, key: string): seq<real> {
    if key in m then m[key] else []
  }

  /** A failure of `name` bumps its counter and then the overall counter. */
  function CountFailure(counts: map<string, nat>, name: string): (r: map<string, nat>)
    ensures forall key :: CountOf(r, key) == CountOf(counts, key) + (if key == name then 1 else 0)
                                                                   + (if key == Total then 1 else 0)
  {
    var bumped := counts[name := CountOf(counts, name) + 1];
    bumped[Total := CountOf(bumped, Total) + 1]
  }

  /** A measured duration is appended to the list of its operation. */
  function AddDuration(stats: map<string, seq<real>>, name: string, d: real): (r: map<string, seq<real>>)
    ensures forall key :: ListOf(r, key) == ListOf(stats, key) + (if key == name then [d] else [])
  {
    stats[name := ListOf(stats, name) + [d]]
  }

  /** The counters hold what the operations `ops` give them. */
  ghost predicate CountsMatch(counts: map<string, nat>, ops: seq<OperationMetrics>) {
    forall name :: CountOf(counts, name) == ErrorCount(ops, name)
  }

  /** The duration lists hold what the operations `ops` give them. */
  ghost predicate DurationsMatch(stats: map<string, seq<real>>, ops: seq<OperationMetrics>) {
    forall name :: ListOf(stats, name) == DurationsOf(ops, name)
  }

  /** Counting a failure keeps the counters in step with the operations. */
  lemma CountsFollowOperations(counts: map<string, nat>, counts': map<string, nat>,
                               ops: seq<OperationMetrics>, m: OperationMetrics)
    requires CountsMatch(counts, ops)
    requires counts' == if m.success then counts else CountFailure(counts, m.operationName)
    ensures CountsMatch(counts', ops + [m])
  {
    forall name
      ensures CountOf(counts', name) == ErrorCount(ops + [m], name)
    {
      ErrorCountAppend(ops, m, name);
    }
  }

  /** Recording a defined, non-zero duration keeps the lists in step with the operations. */
  lemma DurationsFollowOperations(stats: map<string, seq<real>>, stats': map<string, seq<real>>,
                                  ops: seq<OperationMetrics>, m: OperationMetrics)
    requires DurationsMatch(stats, ops)
    requires stats' == var d := m.Duration();
                       if d.Some? && d.value != 0.0 then AddDuration(stats, m.operationName, d.value) else stats
    ensures DurationsMatch(stats', ops + [m])
  {
    forall name
      ensures ListOf(stats', name) == DurationsOf(ops + [m], name)
    {
      DurationsOfAppend(ops, m, name);
    }
  }

  /** The overall counter holds twice the failures of operations named "total" plus the
      failures of all other operations. */
  lemma {:induction false} TotalCountsEveryFailure(ops: seq<OperationMetrics>)
    ensures ErrorCount(ops, Total) == Failures(ops) + ErrorCountNamed(ops, Total)
  {
    if ops != [] {
      TotalCountsEveryFailure(ops[..|ops| - 1]);
    }
  }

  lemma ErrorCountAppend(ops: seq<OperationMetrics>, m: OperationMetrics, name: string)
    ensures ErrorCount(ops + [m], name) == ErrorCount(ops, name)
                                           + (if !m.success && m.operationName == name then 1 else 0)
                                           + (if !m.success && name == Total then 1 else 0)
  {
    assert (ops + [m])[..|ops|] == ops;
  }

  lemma DurationsOfAppend(ops: seq<OperationMetrics>, m: OperationMetrics, name: string)
    ensures DurationsOf(ops + [m], name) == DurationsOf(ops, name)
      + (if m.operationName == name && m.Duration().Some? && m.Duration().value != 0.0 then [m.Duration().value] else [])
  {
    assert (ops + [m])[..|ops|] == ops;
  }

  /** Failures of operations with the given name. */
  function ErrorCountNamed(ops: seq<OperationMetrics>, name: string): (n: nat)
    ensures n <= Failures(ops)
  {
    if ops == [] then 0
    else
      var last := ops[|ops| - 1];
      ErrorCountNamed(ops[..|ops| - 1], name) + (if !last.success && last.operationName == name then 1 else 0)
  }

  // ---------------------------------------------------------------------------
  // Health classification (`get_health_status`)
  // ---------------------------------------------------------------------------

  datatype HealthState = Unknown | Healthy | Unhealthy | Degraded

  /** An entry of `issues`: the high error rate carries the rate that the message
      prints as a percentage. */
  datatype Issue = HighErrorRate(rate: real) | MultipleRecentFailures

  datatype Health = Health(
    status: HealthState,
    totalOperations: nat,
    totalErrors: nat,
    errorRate: real,
    issues: seq<Issue>,
    lastOperation: Option<OperationMetrics>)

  const ErrorRateThreshold: real := 0.1

  /** `list(history)[-10:]`. */
  function Recent(history: seq<OperationMetrics>): (r: seq<OperationMetrics>)
    ensures |r| <= 10 && |r| <= |history| && r == history[|history| - |r|..]
  {
    LastN(history, 10)
  }

  /** `part / whole` for a positive whole, as the products Dafny reasons about. */
  lemma Ratio(part: real, whole: real, bound: real)
    requires whole > 0.0
    ensures (part / whole) * whole == part
    ensures part / whole > bound <==> part > bound * whole
  {
    var q := part / whole;
    assert q * whole == part;
    if q > bound {
      assert q * whole > bound * whole;
    } else {
      assert q * whole <= bound * whole;
    }
  }

  /** `total_errors / total_operations`. */
  function ErrorRate(errors: nat, operations: nat): (rate: real)
    requires operations > 0
    ensures rate * operations as real == errors as real
    ensures rate > ErrorRateThreshold <==> errors as real > ErrorRateThreshold * operations as real
  {
    Ratio(errors as real, operations as real, ErrorRateThreshold);
    errors as real / operations as real
  }

  /** The health report for a history and the value of the "total" counter. */
  function HealthOf(history: seq<OperationMetrics>, totalErrors: nat): (h: Health)
    ensures h.status == Unknown <==> history == []
    ensures history != [] ==> h.errorRate == ErrorRate(totalErrors, |history|)
    ensures h.status == Degraded <==> history != [] && Failures(Recent(history)) >= 3
    ensures h.status == Unhealthy <==> history != [] && Failures(Recent(history)) < 3
                                        && ErrorRate(totalErrors, |history|) > ErrorRateThreshold
    ensures h.status == Healthy <==> history != [] && Failures(Recent(history)) < 3
                                      && ErrorRate(totalErrors, |history|) <= ErrorRateThreshold
    ensures history != [] ==> h.lastOperation == Some(history[|history| - 1])
    ensures history == [] ==> h.issues == []
    ensures history != [] ==> (HighErrorRate(h.errorRate) in h.issues <==> h.errorRate > ErrorRateThreshold)
    ensures MultipleRecentFailures in h.issues <==> h.status == Degraded
    ensures forall i :: 0 <= i < |h.issues| ==> h.issues[i] == HighErrorRate(h.errorRate) || h.issues[i] == MultipleRecentFailures
    ensures |h.issues| <= 2 && (|h.issues| == 2 ==> h.issues[0].HighErrorRate?)
  {
    if history == [] then Health(Unknown, 0, 0, 0.0, [], None)
    else
      var errorRate := ErrorRate(totalErrors, |history|);
      var recent := Recent(history);
      var highRate := errorRate > ErrorRateThreshold;
      var degraded := Failures(recent) >= 3;
      var status := if degraded then Degraded else if highRate then Unhealthy else Healthy;
      var issues := (if highRate then [HighErrorRate(errorRate)] else []) + (if degraded then [MultipleRecentFailures] else []);
      Health(status, |history|, totalErrors, errorRate, issues, Some(recent[|recent| - 1]))
  }

  // ---------------------------------------------------------------------------
  // Operation statistics (`get_operation_stats`)
  // ---------------------------------------------------------------------------

  datatype ErrorKind = BorrowMutErrorKind | TimeoutKind | ConnectionKind | OtherKind

  /** The error-pattern classifier, first match wins. */
  function Classify(msg: string): ErrorKind
  {
    if Contains(msg, "BorrowMutError") then BorrowMutErrorKind
    else if Contains(LowerAscii(msg), "timeout") then TimeoutKind
    else if Contains(LowerAscii(msg), "connection") then ConnectionKind
    else OtherKind
  }

  /** The case-sensitive borrow check comes first: any message containing
      "BorrowMutError" is a borrow error, whatever else it mentions. */
  lemma BorrowErrorWinsOverTimeout(msg: string)
    ensures Contains(msg, "BorrowMutError") ==> Classify(msg) == BorrowMutErrorKind
  {
  }

  /** The borrow check is case-sensitive: a message in lower case is never a borrow
      error, so one that mentions a timeout is a timeout even when it also spells out
      "borrowmuterror". */
  lemma BorrowCheckIsCaseSensitive(msg: string)
    requires LowerAscii(msg) == msg && Contains(msg, "timeout")
    ensures Classify(msg) == TimeoutKind
  {
    if Contains(msg, "BorrowMutError") {
      ContainsFirstChar(msg, "BorrowMutError");
      assert false;
    }
  }

  /** Apart from the borrow check, classification ignores the case of ASCII letters. */
  lemma ClassifyIgnoresCase(a: string, b: string)
    requires LowerAscii(a) == LowerAscii(b)
    requires !Contains(a, "BorrowMutError") && !Contains(b, "BorrowMutError")
    ensures Classify(a) == Classify(b)
  {
  }

  /** The timeout check wins over the connection check. */
  lemma TimeoutWinsOverConnection(msg: string)
    requires !Contains(msg, "BorrowMutError")
    requires Contains(LowerAscii(msg), "timeout") && Contains(LowerAscii(msg), "connection")
    ensures Classify(msg) == TimeoutKind
  {
  }

  /** A message is counted as other exactly when it matches none of the three patterns. */
  lemma UnmatchedMessageIsOther(msg: string)
    ensures Classify(msg) == OtherKind <==> && !Contains(msg, "BorrowMutError")
                                            && !Contains(LowerAscii(msg), "timeout")
                                            && !Contains(LowerAscii(msg), "connection")
  {
  }

  datatype ErrorPatterns = ErrorPatterns(borrowMut: nat, timeout: nat, connection: nat, other: nat)
  {
    function Sum(): nat { borrowMut + timeout + connection + other }
  }

  /** The messages that take part in the classification: those of failed operations
      that carry a non-empty message. */
  function ErrorMessages(ops: seq<OperationMetrics>): (msgs: seq<string>)
    ensures |msgs| <= Failures(ops)
    ensures forall k :: 0 <= k < |msgs| ==> msgs[k] != []
    ensures forall m :: m in msgs ==> exists op :: op in ops && !op.success && op.errorMessage == Some(m)
    ensures forall op :: op in ops && !op.success && op.errorMessage.Some? && op.errorMessage.value != []
                         ==> op.errorMessage.value in msgs
  {
    if ops == [] then []
    else
      var last := ops[|ops| - 1];
      assert ops == ops[..|ops| - 1] + [last];
      ErrorMessages(ops[..|ops| - 1])
      + (if !last.success && last.errorMessage.Some? && last.errorMessage.value != [] then [last.errorMessage.value] else [])
  }

  /** One more message of the given kind. */
  function Tally(p: ErrorPatterns, kind: ErrorKind): ErrorPatterns
  {
    match kind
    case BorrowMutErrorKind => p.(borrowMut := p.borrowMut + 1)
    case TimeoutKind => p.(timeout := p.timeout + 1)
    case ConnectionKind => p.(connection := p.connection + 1)
    case OtherKind => p.(other := p.other + 1)
  }

  lemma TallyAddsOne(p: ErrorPatterns, kind: ErrorKind)
    ensures Tally(p, kind).Sum() == p.Sum() + 1
  {
  }

  /** The counts the classifier produces for a list of messages. */
  function PatternsOf(msgs: seq<string>): ErrorPatterns
  {
    if msgs == [] then ErrorPatterns(0, 0, 0, 0)
    else Tally(PatternsOf(msgs[..|msgs| - 1]), Classify(msgs[|msgs| - 1]))
  }

  /** Every message lands in exactly one bucket. */
  lemma {:induction false} PatternsCoverEveryMessage(msgs: seq<string>)
    ensures PatternsOf(msgs).Sum() == |msgs|
  {
    if msgs != [] {
      var init := msgs[..|msgs| - 1];
      PatternsCoverEveryMessage(init);
      TallyAddsOne(PatternsOf(init), Classify(msgs[|msgs| - 1]));
    }
  }

  lemma PatternsOfPrefix(msgs: seq<string>, i: int)
    requires 0 <= i < |msgs|
    ensures PatternsOf(msgs[..i + 1]) == Tally(PatternsOf(msgs[..i]), Classify(msgs[i]))
  {
    assert msgs[..i + 1][..i] == msgs[..i];
  }

  /** The counting loop over the error messages. */
  method CountErrorPatterns(errorMessages: seq<string>) returns (patterns: ErrorPatterns)
    ensures patterns == PatternsOf(errorMessages)
    ensures patterns.Sum() == |errorMessages|
  {
    patterns := ErrorPatterns(0, 0, 0, 0);
    for i := 0 to |errorMessages|
      invariant patterns == PatternsOf(errorMessages[..i])
    {
      PatternsOfPrefix(errorMessages, i);
      var msg := errorMessages[i];
      match Classify(msg)
      case BorrowMutErrorKind => patterns := patterns.(borrowMut := patterns.borrowMut + 1);
      case TimeoutKind => patterns := patterns.(timeout := patterns.timeout + 1);
      case ConnectionKind => patterns := patterns.(connection := patterns.connection + 1);
      case OtherKind => patterns := patterns.(other := patterns.other + 1);
    }
    assert errorMessages[..|errorMessages|] == errorMessages;
    PatternsCoverEveryMessage(errorMessages);
  }

  datatype OperationStats =
    | NoOperations
    | OperationStats(totalCount: nat, successCount: nat, failureCount: nat, successRate: real,
                     errorPatterns: Option<ErrorPatterns>)

  /** The operations the statistics are about: all of them when no name (or an empty
      name) is given, otherwise those with that name. */
  function Selected(history: seq<OperationMetrics>, operationName: Option<string>): (ops: seq<OperationMetrics>)
    ensures |ops| <= |history|
    ensures forall op :: op in ops <==> op in history && (operationName.None? || operationName.value == [] || op.operationName == operationName.value)
  {
    if history == [] then []
    else
      var last := history[|history| - 1];
      var prefix := history[..|history| - 1];
      assert history == prefix + [last];
      Selected(prefix, operationName)
      + (if operationName.None? || operationName.value == [] || last.operationName == operationName.value then [last] else [])
  }

  /** `len(successful_ops) / len(ops)`. */
  function SuccessRate(successes: nat, total: nat): (rate: real)
    requires 0 < total
    ensures rate * total as real == successes as real
  {
    Ratio(successes as real, total as real, 0.0);
    successes as real / total as real
  }

  /** The statistics of a list of operations: successes and failures add up to the total,
      and the error patterns, present exactly when something failed, count every failure
      that carries a message. */
  function StatsOf(ops: seq<OperationMetrics>): (r: OperationStats)
    ensures r.NoOperations? <==> ops == []
    ensures r.OperationStats? ==> && r.totalCount == |ops|
                                  && r.failureCount == Failures(ops)
                                  && r.successCount + r.failureCount == r.totalCount
                                  && r.successRate == SuccessRate(r.successCount, r.totalCount)
                                  && (r.errorPatterns.Some? <==> r.failureCount > 0)
  {
    if ops == [] then NoOperations
    else
      var failures := Failures(ops);
      var successes := |ops| - failures;
      var rate := SuccessRate(successes, |ops|);
      OperationStats(|ops|, successes, failures, rate,
                     if failures > 0 then Some(PatternsOf(ErrorMessages(ops))) else None)
  }

  /** The loop-based computation of `StatsOf`. */
  method StatsFromCounts(ops: seq<OperationMetrics>) returns (stats: OperationStats)
    ensures stats == StatsOf(ops)
  {
    if ops == [] {
      return NoOperations;
    }
    var failures := Failures(ops);
    var successes := |ops| - failures;
    var patterns: Option<ErrorPatterns> := None;
    if failures > 0 {
      var counted := CountErrorPatterns(ErrorMessages(ops));
      patterns := Some(counted);
    }
    stats := OperationStats(|ops|, successes, failures, SuccessRate(successes, |ops|), patterns);
  }

  /** The error patterns of the statistics count every failure message once. */
  lemma StatsPatternsCoverMessages(ops: seq<OperationMetrics>)
    requires StatsOf(ops).OperationStats? && StatsOf(ops).errorPatterns.Some?
    ensures StatsOf(ops).errorPatterns.value.Sum() == |ErrorMessages(ops)|
  {
    PatternsCoverEveryMessage(ErrorMessages(ops));
  }

  // ---------------------------------------------------------------------------
  // The monitor
  // ---------------------------------------------------------------------------

  class HealthMonitor {
    const maxHistory: nat
    var operationHistory: seq<OperationMetrics>
    var errorCounts: map<string, nat>
    var performanceStats: map<string, seq<real>>
    /** Every operation ever recorded, oldest first. */
    ghost var allOperations: seq<OperationMetrics>

    /** The history is the last `maxHistory` records, while the counters and durations
        cover every record since the monitor was created. */
    ghost predicate Valid()
      reads this
    {
      && operationHistory == LastN(allOperations, maxHistory)
      && CountsMatch(errorCounts, allOperations)
      && DurationsMatch(performanceStats, allOperations)
    }

    constructor(maxHistory: nat)
      ensures Valid()
      ensures this.maxHistory == maxHistory
      ensures operationHistory == [] && allOperations == []
    {
      this.maxHistory := maxHistory;
      operationHistory := [];
      errorCounts := map[];
      performanceStats := map[];
      allOperations := [];
    }

    /** `_record_operation(metrics)`. */
    method RecordOperation(metrics: OperationMetrics)
      requires Valid()
      modifies this
      ensures Valid()
      ensures allOperations == old(allOperations) + [metrics]
      ensures |operationHistory| <= maxHistory
      ensures operationHistory == var h := old(operationHistory) + [metrics]; if |h| > maxHistory then h[1..] else h
      ensures forall name :: CountOf(errorCounts, name) == CountOf(old(errorCounts), name)
                                + (if !metrics.success && metrics.operationName == name then 1 else 0)
                                + (if !metrics.success && name == Total then 1 else 0)
    {
      LastNAppend(allOperations, metrics, maxHistory);
      allOperations := allOperations + [metrics];
      operationHistory := operationHistory + [metrics];
      if |operationHistory| > maxHistory {
        operationHistory := operationHistory[1..];
      }
      if !metrics.success {
        errorCounts := CountFailure(errorCounts, metrics.operationName);
      }
      var duration := metrics.Duration();
      if duration.Some? && duration.value != 0.0 {
        performanceStats := AddDuration(performanceStats, metrics.operationName, duration.value);
      }
      CountsFollowOperations(old(errorCounts), errorCounts, old(allOperations), metrics);
      DurationsFollowOperations(old(performanceStats), performanceStats, old(allOperations), metrics);
      assert operationHistory == LastN(allOperations, maxHistory);
      assert CountsMatch(errorCounts, allOperations);
      assert DurationsMatch(performanceStats, allOperations);
    }

    /** `track_operation(name)` around a body that ends at `endTime` with the given
        outcome. Only an `Exception` marks the operation failed with its text; a
        `BaseException` that is not an `Exception` skips the handler, so the `finally`
        block records the operation as a success. The operation is always recorded,
        and whatever the body raised is passed on. */
    method TrackOperation(operationName: string, connectionId: Option<string>, startTime: real,
                          endTime: real, outcome: BodyOutcome)
      returns (metrics: OperationMetrics, raised: bool)
      requires Valid()
      modifies this
      ensures Valid()
      ensures allOperations == old(allOperations) + [metrics]
      ensures metrics.operationName == operationName && metrics.startTime == startTime
      ensures metrics.endTime == Some(endTime)
      ensures metrics.success <==> !outcome.RaisedException?
      ensures metrics.errorMessage == if outcome.RaisedException? then Some(outcome.message) else None
      ensures raised <==> !outcome.Returned?
    {
      metrics := OperationMetrics(operationName, startTime, None, true, None, connectionId, 0);
      if outcome.RaisedException? {
        metrics := metrics.(success := false, errorMessage := Some(outcome.message));
      }
      metrics := metrics.(endTime := Some(endTime));
      RecordOperation(metrics);
      raised := !outcome.Returned?;
    }

    /** `get_health_status()`, without the uptime and the average response times. */
    function GetHealthStatus(): (h: Health)
      reads this
      ensures h.status == Unknown <==> operationHistory == []
      ensures operationHistory != [] ==> h.totalErrors == CountOf(errorCounts, Total)
      ensures Valid() && operationHistory != [] ==> h.totalErrors == ErrorCount(allOperations, Total)
    {
      HealthOf(operationHistory, CountOf(errorCounts, Total))
    }

    /** `get_operation_stats(operation_name)`, without the duration figures. */
    method GetOperationStats(operationName: Option<string>) returns (stats: OperationStats)
      ensures stats == StatsOf(Selected(operationHistory, operationName))
    {
      var ops := Selected(operationHistory, operationName);
      stats := StatsFromCounts(ops);
    }
  }

  /** A failed operation whose name is not "total" raises its own counter and the
      overall counter by exactly one; a successful one changes no counter. */
  method FailureCountsOnce(m: HealthMonitor, metrics: OperationMetrics)
    requires m.Valid() && metrics.operationName != Total
    modifies m
    ensures m.Valid()
    ensures !metrics.success ==> CountOf(m.errorCounts, metrics.operationName) == CountOf(old(m.errorCounts), metrics.operationName) + 1
                                 && CountOf(m.errorCounts, Total) == CountOf(old(m.errorCounts), Total) + 1
    ensures metrics.success ==> forall name :: CountOf(m.errorCounts, name) == CountOf(old(m.errorCounts), name)
  {
    m.RecordOperation(metrics);
  }

  /** The error rate divides a counter that is never reduced by a history that is
      capped: with room for one record, two failures give a rate of 2. */
  method EvictionInflatesErrorRate() returns (rate: real)
    ensures rate == 2.0
  {
    var m := new HealthMonitor(1);
    var failed := OperationMetrics("run", 0.0, Some(1.0), false, Some("boom"), None, 0);
    m.RecordOperation(failed);
    m.RecordOperation(failed);
    assert m.operationHistory == [failed];
    assert CountOf(m.errorCounts, Total) == 2;
    rate := m.GetHealthStatus().errorRate;
  }
}
