/** The local text handling of server/metta_service.py (`MeTTaSchedulerService`): the
    splitter that cuts a knowledge-base file into top-level expressions, the task
    serialiser and the id extractor, the clamped day difference and the statistics
    counts. Everything that runs the MeTTa engine is outside this module. */
module MettaText {
  import opened TextUtil
  import opened Tasks
  import FallbackScheduler

  // ---------------------------------------------------------------------------
  // Expression splitter (`_parse_metta_expressions`)
  // ---------------------------------------------------------------------------

  /** The loop variables of the splitter: `expressions`, `current_expr`, `paren_count`,
      `in_string` and `escape_next`. */
  datatype ScanState = ScanState(
    exprs: seq<string>, current: string, depth: int, inString: bool, escapeNext: bool)

  const Initial: ScanState := ScanState([], [], 0, false, false)

  /** The comment test applied to a stripped text before it is emitted:
      `s.startswith(';') or s.startswith('#')`. */
  predicate IsComment(s: string) {
    s != [] && (s[0] == ';' || s[0] == '#')
  }

  /** An emitted expression: non-empty, no surrounding whitespace, not a comment. */
  predicate WellFormedExpr(e: string) {
    e != [] && !IsSpace(e[0]) && !IsSpace(e[|e| - 1]) && e[0] != ';' && e[0] != '#'
  }

  predicate AllWellFormed(exprs: seq<string>) {
    forall i :: 0 <= i < |exprs| ==> WellFormedExpr(exprs[i])
  }

  /** Appends the stripped text unless it is a comment. */
  function Emit(exprs: seq<string>, text: string): (r: seq<string>)
    requires !IsBlank(text)
    ensures AllWellFormed(exprs) ==> AllWellFormed(r)
    ensures IsComment(Strip(text)) ==> r == exprs
    ensures !IsComment(Strip(text)) ==> r == exprs + [Strip(text)]
  {
    var stripped := Strip(text);
    if IsComment(stripped) then exprs
    else
      assert WellFormedExpr(stripped);
      AppendWellFormed(exprs, stripped);
      exprs + [stripped]
  }

  lemma AppendWellFormed(exprs: seq<string>, e: string)
    requires WellFormedExpr(e)
    ensures AllWellFormed(exprs) ==> AllWellFormed(exprs + [e])
  {
    if AllWellFormed(exprs) {
      forall i | 0 <= i < |exprs + [e]| ensures WellFormedExpr((exprs + [e])[i]) {
        if i < |exprs| { assert (exprs + [e])[i] == exprs[i]; }
      }
    }
  }

  /** One iteration of the character loop. */
  function Step(st: ScanState, c: char): (r: ScanState)
    ensures AllWellFormed(st.exprs) ==> AllWellFormed(r.exprs)
  {
    if st.escapeNext then st.(current := st.current + [c], escapeNext := false)
    else if c == '\\' then st.(current := st.current + [c], escapeNext := true)
    else if c == '"' then st.(current := st.current + [c], inString := !st.inString)
    else
      // an opening parenthesis at depth 0 first flushes the pending text
      var flushed :=
        if !st.inString && c == '(' && st.depth == 0 && !IsBlank(st.current)
        then st.(exprs := Emit(st.exprs, st.current), current := [])
        else st;
      var depth :=
        if st.inString then st.depth
        else if c == '(' then st.depth + 1
        else if c == ')' then st.depth - 1
        else st.depth;
      var text := flushed.current + [c];
      if !st.inString && depth == 0 && !IsBlank(text)
      then flushed.(exprs := Emit(flushed.exprs, text), current := [], depth := depth)
      else flushed.(current := text, depth := depth)
  }

  /** The character loop over `s`, from state `st`. */
  function Scan(st: ScanState, s: string): (r: ScanState)
    ensures AllWellFormed(st.exprs) ==> AllWellFormed(r.exprs)
    decreases |s|
  {
    if s == [] then st else Scan(Step(st, s[0]), s[1..])
  }

  /** The text left over after the loop is emitted unless blank or a comment. */
  function Finish(st: ScanState): (exprs: seq<string>)
    ensures AllWellFormed(st.exprs) ==> AllWellFormed(exprs)
  {
    if !IsBlank(st.current) then Emit(st.exprs, st.current) else st.exprs
  }

  /** `_parse_metta_expressions(content)`: every expression it returns is non-empty, has
      no leading or trailing whitespace and does not start with ';' or '#'. */
  function ParseMetta(content: string): (exprs: seq<string>)
    ensures AllWellFormed(exprs)
  {
    Finish(Scan(Initial, content))
  }

  /** `_parse_metta_expressions`, as the loop over the characters that it is. */
  method ParseMettaExpressions(content: string) returns (expressions: seq<string>)
    ensures expressions == ParseMetta(content)
    ensures AllWellFormed(expressions)
  {
    expressions := [];
    var currentExpr: string := "";
    var parenCount := 0;
    var inString := false;
    var escapeNext := false;
    for i := 0 to |content|
      invariant Scan(ScanState(expressions, currentExpr, parenCount, inString, escapeNext), content[i..])
                == Scan(Initial, content)
    {
      var ch := content[i];
      assert content[i..][1..] == content[i + 1..];
      if escapeNext {
        currentExpr := currentExpr + [ch];
        escapeNext := false;
        continue;
      }
      if ch == '\\' {
        escapeNext := true;
        currentExpr := currentExpr + [ch];
        continue;
      }
      if ch == '"' {
        inString := !inString;
        currentExpr := currentExpr + [ch];
        continue;
      }
      if !inString {
        if ch == '(' {
          if parenCount == 0 && !IsBlank(currentExpr) {
            var stripped := Strip(currentExpr);
            if !IsComment(stripped) {
              expressions := expressions + [stripped];
            }
            currentExpr := "";
          }
          parenCount := parenCount + 1;
        } else if ch == ')' {
          parenCount := parenCount - 1;
        }
      }
      currentExpr := currentExpr + [ch];
      if !inString && parenCount == 0 && !IsBlank(currentExpr) {
        var stripped := Strip(currentExpr);
        if !IsComment(stripped) {
          expressions := expressions + [stripped];
        }
        currentExpr := "";
      }
    }
    if !IsBlank(currentExpr) {
      var stripped := Strip(currentExpr);
      if !IsComment(stripped) {
        expressions := expressions + [stripped];
      }
    }
  }

  /** A backslash and the character after it are kept verbatim; neither the string flag
      nor the depth changes, and nothing is emitted. */
  lemma EscapedPairIsVerbatim(st: ScanState, c: char)
    requires !st.escapeNext
    ensures Step(Step(st, '\\'), c) == st.(current := st.current + ['\\', c])
  {
    assert st.current + ['\\'] + [c] == st.current + ['\\', c];
  }

  /** Inside a string, parentheses are plain text. */
  lemma ParensInsideStringArePlain(st: ScanState, c: char)
    requires st.inString && !st.escapeNext && (c == '(' || c == ')')
    ensures Step(st, c) == st.(current := st.current + [c])
  {
  }

  /** An unescaped double quote toggles the string flag and is kept; it never emits. */
  lemma QuoteTogglesString(st: ScanState)
    requires !st.escapeNext
    ensures Step(st, '"') == st.(current := st.current + ['"'], inString := !st.inString)
  {
  }

  /** Outside a string, when a character other than a backslash or a quote brings the
      depth to 0 and the accumulated text is not blank, that text is emitted at once. */
  lemma BalancedTextIsEmitted(st: ScanState, c: char)
    requires !st.escapeNext && !st.inString && c != '\\' && c != '"'
    requires (if c == '(' then st.depth + 1 else if c == ')' then st.depth - 1 else st.depth) == 0
    requires !IsBlank(st.current + [c])
    ensures Step(st, c) == st.(exprs := Emit(st.exprs, st.current + [c]), current := [], depth := 0)
  {
    var r := Step(st, c);
    assert !(!st.inString && c == '(' && st.depth == 0 && !IsBlank(st.current));
    assert r.exprs == Emit(st.exprs, st.current + [c]);
    assert r.current == [] && r.depth == 0;
  }

  /** A visible character at depth 0 after only whitespace is emitted on its own. */
  lemma BareCharIsEmitted(st: ScanState, c: char)
    requires !st.escapeNext && !st.inString && st.depth == 0 && IsBlank(st.current)
    requires !IsSpace(c) && c !in "()\"\\;#"
    ensures Step(st, c) == st.(exprs := st.exprs + [[c]], current := [])
  {
    StripBlankThenChar(st.current, c);
  }

  /** After a stray ')' the depth is negative, and characters other than '(' then emit
      nothing. */
  lemma NegativeDepthSuppressesEmission(st: ScanState, c: char)
    requires !st.escapeNext && !st.inString && st.depth < 0 && c != '('
    ensures Step(st, c).exprs == st.exprs
    ensures Step(st, c).depth < 0
  {
  }

  lemma LoneSemicolonIsDropped()
    ensures Step(Initial, ';') == Initial
  {
    StripBlankThenChar([], ';');
    BalancedTextIsEmitted(Initial, ';');
  }

  lemma SpaceIsKept()
    ensures Step(Initial, ' ') == Initial.(current := " ")
  {
  }

  /** The text of a comment is not dropped as a whole: once its first character has been
      discarded, each later visible character at depth 0 is emitted on its own. */
  lemma CommentTextLeaks()
    ensures ParseMetta("; hi") == ["h", "i"]
  {
    var s4 := Initial.(exprs := ["h", "i"]);
    ScanSpaceThenLetters();
    LoneSemicolonIsDropped();
    SpaceIsKept();
    assert "; hi"[1..] == " hi" && " hi"[1..] == "hi";
    assert Scan(Initial, " hi") == s4;
    assert Scan(Initial, "; hi") == s4;
  }

  /** After a kept space, "hi" emits each of its letters. */
  lemma ScanSpaceThenLetters()
    ensures Scan(Initial.(current := " "), "hi") == Initial.(exprs := ["h", "i"])
  {
    var s2 := Initial.(current := " ");
    BareCharIsEmitted(s2, 'h');
    var s3 := Initial.(exprs := ["h"]);
    assert Step(s2, 'h') == s3;
    BareCharIsEmitted(s3, 'i');
    var s4 := Initial.(exprs := ["h", "i"]);
    assert Step(s3, 'i') == s4;
    assert "hi"[1..] == "i" && "i"[1..] == [];
    assert Scan(s4, []) == s4;
    assert Scan(s3, "i") == s4;
  }

  // ---------------------------------------------------------------------------
  // Splitter with comments running to the end of the line
  // ---------------------------------------------------------------------------

  /** The splitter state with a flag for "inside a comment". */
  datatype CommentScanState = CommentScanState(base: ScanState, inComment: bool)

  /** A ';' or '#' where a new top-level expression would start opens a comment. */
  predicate OpensComment(st: ScanState, c: char) {
    !st.escapeNext && !st.inString && st.depth == 0 && IsBlank(st.current) && (c == ';' || c == '#')
  }

  function StepCorrected(cs: CommentScanState, c: char): (r: CommentScanState)
    ensures AllWellFormed(cs.base.exprs) ==> AllWellFormed(r.base.exprs)
  {
    if cs.inComment then (if c == '\n' then cs.(inComment := false) else cs)
    else if OpensComment(cs.base, c) then cs.(inComment := true)
    else CommentScanState(Step(cs.base, c), false)
  }

  function ScanCorrected(cs: CommentScanState, s: string): (r: CommentScanState)
    ensures AllWellFormed(cs.base.exprs) ==> AllWellFormed(r.base.exprs)
    decreases |s|
  {
    if s == [] then cs else ScanCorrected(StepCorrected(cs, s[0]), s[1..])
  }

  /** The splitter with line comments skipped up to and including their newline. */
  function ParseMettaCorrected(content: string): (exprs: seq<string>)
    ensures AllWellFormed(exprs)
  {
    Finish(ScanCorrected(CommentScanState(Initial, false), content).base)
  }

  lemma {:induction false} CommentBodyIsSkipped(cs: CommentScanState, text: string, rest: string)
    requires cs.inComment && '\n' !in text
    ensures ScanCorrected(cs, text + ['\n'] + rest) == ScanCorrected(cs.(inComment := false), rest)
  {
    if text == [] {
      assert (text + ['\n'] + rest)[1..] == rest;
    } else {
      assert (text + ['\n'] + rest)[1..] == text[1..] + ['\n'] + rest;
      CommentBodyIsSkipped(cs, text[1..], rest);
    }
  }

  /** A whole comment line, wherever a new top-level expression could begin, leaves the
      result unchanged. */
  lemma CommentLineIsIgnored(st: ScanState, text: string, rest: string)
    requires !st.escapeNext && !st.inString && st.depth == 0 && IsBlank(st.current)
    requires '\n' !in text
    ensures ScanCorrected(CommentScanState(st, false), [';'] + text + ['\n'] + rest)
            == ScanCorrected(CommentScanState(st, false), rest)
  {
    var s := [';'] + text + ['\n'] + rest;
    assert s[1..] == text + ['\n'] + rest;
    CommentBodyIsSkipped(CommentScanState(st, true), text, rest);
  }

  /** In particular a file that starts with a comment line parses like the rest of it. */
  lemma LeadingCommentIsIgnored(text: string, rest: string)
    requires '\n' !in text
    ensures ParseMettaCorrected([';'] + text + ['\n'] + rest) == ParseMettaCorrected(rest)
  {
    CommentLineIsIgnored(Initial, text, rest);
  }

  lemma CorrectedSplitterSkipsWholeComment()
    ensures ParseMettaCorrected("; hi") == []
  {
    var cs := CommentScanState(Initial, false);
    assert StepCorrected(cs, ';') == cs.(inComment := true);
    assert "; hi"[1..] == " hi" && " hi"[1..] == "hi" && "hi"[1..] == "i" && "i"[1..] == [];
  }

  /** On text with no ';' and no '#' the two splitters agree. */
  lemma {:induction false} CorrectedAgreesWithoutComments(st: ScanState, s: string)
    requires ';' !in s && '#' !in s
    ensures ScanCorrected(CommentScanState(st, false), s) == CommentScanState(Scan(st, s), false)
    decreases |s|
  {
    if s != [] {
      assert s[1..] == s[1..] && forall c :: c in s[1..] ==> c in s;
      CorrectedAgreesWithoutComments(Step(st, s[0]), s[1..]);
    }
  }

  lemma ParsersAgreeWithoutComments(content: string)
    requires ';' !in content && '#' !in content
    ensures ParseMettaCorrected(content) == ParseMetta(content)
  {
    CorrectedAgreesWithoutComments(Initial, content);
  }

  // ---------------------------------------------------------------------------
  // Task serialisation (`_task_to_metta_format`, `_extract_task_id_from_metta_result`)
  // ---------------------------------------------------------------------------

  /** `priority_map.get(task.priority, 'Medium')`. */
  function MettaPriority(priority: string): (r: string)
    ensures r in {"High", "Medium", "Low"}
    ensures r == "Medium" <==> priority != High && priority != Low
  {
    if priority == High then "High"
    else if priority == Medium then "Medium"
    else if priority == Low then "Low"
    else "Medium"
  }

  /** `status_map.get(task.status, 'Pending')`. */
  function MettaStatus(status: string): (r: string)
    ensures r in {"Pending", "InProgress", "Completed"}
    ensures r == "Pending" <==> status != InProgress && status != Completed
  {
    if status == Pending then "Pending"
    else if status == InProgress then "InProgress"
    else if status == Completed then "Completed"
    else "Pending"
  }

  /** The dependency list in parentheses, ids separated by single spaces. */
  function DepsText(deps: seq<string>): (r: string)
    ensures |r| >= 2 && r[0] == '(' && r[|r| - 1] == ')'
    ensures deps == [] ==> r == "()"
  {
    if deps == [] then "()" else "(" + Join(" ", deps) + ")"
  }

  /** Splitting the text between the parentheses at spaces gives the ids back when no id
      holds a space. */
  lemma DepsTextRoundTrip(deps: seq<string>)
    requires deps != [] && forall k :: 0 <= k < |deps| ==> ' ' !in deps[k]
    ensures var r := DepsText(deps); SplitOn(r[1..|r| - 1], ' ') == deps
  {
    var r := DepsText(deps);
    assert r[1..|r| - 1] == Join(" ", deps);
    SplitOfJoin(deps, ' ');
  }

  /** `_task_to_metta_format(task)`, with the deadline already rendered as `YYYY-MM-DD`. */
  function TaskToMettaFormat(t: Task, deadlineText: string): (r: string)
    ensures StartsWith(r, "(task " + t.id + " ")
  {
    "(task " + t.id + " \"" + t.title + "\" \"" + deadlineText + "\" " + MettaPriority(t.priority)
    + " " + IntToString(t.duration) + " " + MettaStatus(t.status) + " " + DepsText(t.deps) + ")"
  }

  /** `_extract_task_id_from_metta_result(s)`: the token after "(task ", up to the next
      space or the end; nothing when the prefix is missing. */
  function ExtractTaskId(s: string): (r: Option<string>)
    ensures r.Some? <==> StartsWith(s, "(task ")
    ensures r.Some? ==> ' ' !in r.value && StartsWith(s, "(task " + r.value)
                        && (|s| == 6 + |r.value| || s[6 + |r.value|] == ' ')
  {
    if StartsWith(s, "(task ") then
      var parts := SplitOn(s, ' ');
      SplitAfterTaskPrefix(s);
      if |parts| > 1 then Some(parts[1]) else None
    else None
  }

  lemma SplitAfterTaskPrefix(s: string)
    requires StartsWith(s, "(task ")
    ensures |SplitOn(s, ' ')| > 1
    ensures SplitOn(s, ' ')[1] == SplitOn(s[6..], ' ')[0]
    ensures StartsWith(s, "(task " + SplitOn(s, ' ')[1])
    ensures |s| == 6 + |SplitOn(s, ' ')[1]| || s[6 + |SplitOn(s, ' ')[1]|] == ' '
  {
    assert s == "(task" + [' '] + s[6..];
    SplitOnFirstSeparator("(task", ' ', s[6..]);
    var rest := SplitOn(s[6..], ' ');
    var first := rest[0];
    assert Join([' '], rest) == s[6..];
    if |rest| == 1 {
      assert s[6..] == first;
    } else {
      assert s[6..] == first + [' '] + Join([' '], rest[1..]);
    }
    assert s[..6 + |first|] == "(task " + first;
  }

  /** The id is read back from any text of the form "(task <id> ...", for an id without
      a space. */
  lemma ExtractTaskIdOfPrefix(id: string, rest: string)
    requires ' ' !in id
    ensures ExtractTaskId("(task " + id + [' '] + rest) == Some(id)
  {
    var s := "(task " + id + [' '] + rest;
    assert s == "(task" + [' '] + (id + [' '] + rest);
    SplitOnFirstSeparator("(task", ' ', id + [' '] + rest);
    SplitOnFirstSeparator(id, ' ', rest);
    assert s[..6] == "(task ";
  }

  /** Extracting the id of a serialised task gives the id back, for any id without a
      space. */
  lemma ExtractTaskIdOfFormat(t: Task, deadlineText: string)
    requires ' ' !in t.id
    ensures ExtractTaskId(TaskToMettaFormat(t, deadlineText)) == Some(t.id)
  {
    var rest := "\"" + t.title + "\" \"" + deadlineText + "\" " + MettaPriority(t.priority)
      + " " + IntToString(t.duration) + " " + MettaStatus(t.status) + " " + DepsText(t.deps) + ")";
    assert TaskToMettaFormat(t, deadlineText) == "(task " + t.id + [' '] + rest;
    ExtractTaskIdOfPrefix(t.id, rest);
  }

  /** The id loop of `get_ready_tasks`: ids that come out empty or missing are dropped. */
  function IdsOf(results: seq<string>): (ids: seq<string>)
    ensures |ids| <= |results|
    ensures forall k :: 0 <= k < |ids| ==> ids[k] != [] && ' ' !in ids[k]
    ensures forall s :: s in results && ExtractTaskId(s).Some? && ExtractTaskId(s).value != [] ==> ExtractTaskId(s).value in ids
    ensures forall id :: id in ids ==> exists s :: s in results && ExtractTaskId(s) == Some(id)
  {
    if results == [] then []
    else
      var prefix := results[..|results| - 1];
      var last := results[|results| - 1];
      assert results == prefix + [last];
      var id := ExtractTaskId(last);
      IdsOf(prefix) + (if id.Some? && id.value != [] then [id.value] else [])
  }

  method CollectTaskIds(results: seq<string>) returns (readyTaskIds: seq<string>)
    ensures readyTaskIds == IdsOf(results)
  {
    readyTaskIds := [];
    for i := 0 to |results|
      invariant readyTaskIds == IdsOf(results[..i])
    {
      assert results[..i + 1][..i] == results[..i];
      var taskId := ExtractTaskId(results[i]);
      if taskId.Some? && taskId.value != [] {
        readyTaskIds := readyTaskIds + [taskId.value];
      }
    }
    assert results[..|results|] == results;
  }

  // ---------------------------------------------------------------------------
  // Days and statistics (`_calculate_days_difference`, `get_task_statistics`)
  // ---------------------------------------------------------------------------

  /** `max(0, (deadline - now).days)`: never negative, and the whole days until the
      deadline when it lies ahead. */
  function CalculateDaysDifference(deadline: int, now: int): (days: int)
    ensures days >= 0
    ensures deadline >= now ==> days * SecondsPerDay <= deadline - now < (days + 1) * SecondsPerDay
    ensures deadline < now ==> days == 0
  {
    var d := DaysUntil(deadline, now);
    if d > 0 then d else 0
  }

  datatype MettaStats = MettaStats(total: nat, completed: nat, pending: nat, inProgress: nat, overdue: nat)

  /** `get_task_statistics`: the counts come from the task list; whatever the engine
      returned is ignored. */
  function MettaTaskStatistics(tasks: seq<Task>, now: int, engineResult: seq<string>): (s: MettaStats)
    ensures s.total == |tasks|
    ensures s.completed + s.pending + s.inProgress <= s.total
    ensures s.overdue <= s.total - s.completed
  {
    var full := FallbackScheduler.TaskStatistics(tasks, now);
    MettaStats(full.total, full.completed, full.pending, full.inProgress, full.overdue)
  }

  /** The engine result has no influence, and the counts agree with the deterministic
      scheduler's statistics. */
  lemma MettaStatisticsIgnoreEngine(tasks: seq<Task>, now: int, r1: seq<string>, r2: seq<string>)
    ensures MettaTaskStatistics(tasks, now, r1) == MettaTaskStatistics(tasks, now, r2)
    ensures MettaTaskStatistics(tasks, now, r1).overdue == FallbackScheduler.TaskStatistics(tasks, now).overdue
  {
  }
}
