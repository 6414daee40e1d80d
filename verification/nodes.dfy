/** The nodes of the patch graph: each takes the current state record and
    returns a new one built by spreading the old record and overwriting a
    few keys. The patch generator, the validator tool and the evaluators are
    parameters. */
module Nodes {
  import opened Common
  import opened Text
  import opened PatchStates
  import opened PyValues

  // ---------------------------------------------------------------------
  // Generate
  // ---------------------------------------------------------------------

  /** The inner generate_patch of make_generate_patch_node: an exception
      from the generator propagates and no state is produced. */
  function Generate(s: PatchState, generator: PatchState -> Result<string>): (r: Result<PatchState>)
    ensures r.Err? <==> generator(s).Err?
    ensures r.Err? ==> r.error == generator(s).error
    ensures r.Ok? ==>
      && r.value.patch == Some(generator(s).value)
      && r.value.generationAttempts == Some(IntOr(s.generationAttempts, 0) + 1)
      && r.value.graphState == Some(GENERATE_PATCH)
      && r.value.(patch := s.patch, generationAttempts := s.generationAttempts, graphState := s.graphState) == s
  {
    match generator(s)
    case Err(e) => Err(e)
    case Ok(p) =>
      Ok(s.(patch := Some(p),
            generationAttempts := Some(IntOr(s.generationAttempts, 0) + 1),
            graphState := Some(GENERATE_PATCH)))
  }

  // ---------------------------------------------------------------------
  // Validate
  // ---------------------------------------------------------------------

  const PassedMarker := "'''\nPASSED:\n\n"
  const ErrorMarker := "'''\nERROR:\n\n"
  const Fence := "\n'''"
  const DefaultMaxRetries := 3

  /** The state after the validator tool returned `result`. */
  function ReadToolResult(s: PatchState, result: string): (r: PatchState)
    ensures r.(patch := s.patch, validationResult := s.validationResult, validationErrMsg := s.validationErrMsg) == s
    ensures r.validationResult == Some(PASSED) <==> PassedMarker <= result
    ensures r.validationResult != Some(PASSED) ==> r.validationResult == Some(ERROR) && r.patch == s.patch
  {
    if PassedMarker <= result then
      s.(patch := Some(RemoveSuffix(RemovePrefix(result, PassedMarker), Fence)),
         validationResult := Some(PASSED),
         validationErrMsg := Some(""))
    else if ErrorMarker <= result then
      s.(validationResult := Some(ERROR),
         validationErrMsg := Some(Strip(RemoveSuffix(RemovePrefix(result, ErrorMarker), Fence))))
    else
      s.(validationResult := Some(ERROR),
         validationErrMsg := Some("Unknown format from validator tool"))
  }

  /** The inner validate_patch of make_validate_patch_node. It reads
      `attempts` but never writes it, and never touches the generation or
      evaluation keys or `graph_state`. */
  function Validate(s: PatchState, maxRetries: int, tool: string -> string): (r: PatchState)
    ensures r.(patch := s.patch, validationResult := s.validationResult, validationErrMsg := s.validationErrMsg) == s
    ensures r.validationResult == Some(PASSED) || r.validationResult == Some(ERROR)
    ensures IntOr(s.attempts, 0) >= maxRetries ==>
      r == s.(validationResult := Some(ERROR), validationErrMsg := Some("Maximum validation attempts reached"))
  {
    if IntOr(s.attempts, 0) >= maxRetries then
      s.(validationResult := Some(ERROR), validationErrMsg := Some("Maximum validation attempts reached"))
    else
      ReadToolResult(s, tool(StrOr(s.patch, "")))
  }

  /** Below the ceiling, a PASSED result fenced around a patch hands back
      exactly that patch, with an empty error message. */
  lemma ValidatedPatch(s: PatchState, maxRetries: int, tool: string -> string, p: string)
    requires IntOr(s.attempts, 0) < maxRetries
    requires tool(StrOr(s.patch, "")) == PassedMarker + p + Fence
    ensures Validate(s, maxRetries, tool) ==
      s.(patch := Some(p), validationResult := Some(PASSED), validationErrMsg := Some(""))
  {
    AffixesRemoved(PassedMarker, p, Fence);
    assert PassedMarker <= PassedMarker + p + Fence;
  }

  /** Below the ceiling, an ERROR result fenced around a message records the
      stripped message and keeps the patch. */
  lemma ValidationErrorMessage(s: PatchState, maxRetries: int, tool: string -> string, m: string)
    requires IntOr(s.attempts, 0) < maxRetries
    requires tool(StrOr(s.patch, "")) == ErrorMarker + m + Fence
    ensures Validate(s, maxRetries, tool) ==
      s.(validationResult := Some(ERROR), validationErrMsg := Some(Strip(m)))
  {
    AffixesRemoved(ErrorMarker, m, Fence);
    assert ErrorMarker <= ErrorMarker + m + Fence;
    assert !(PassedMarker <= ErrorMarker + m + Fence) by {
      assert (ErrorMarker + m + Fence)[4] == 'E';
    }
  }

  /** The validator tool answers with a JSON object; such an answer carries
      neither marker, so the node reports an unknown format. */
  lemma JsonAnswerIsUnknownFormat(s: PatchState, maxRetries: int, tool: string -> string)
    requires IntOr(s.attempts, 0) < maxRetries
    requires var result := tool(StrOr(s.patch, "")); result != [] && result[0] == '{'
    ensures Validate(s, maxRetries, tool) ==
      s.(validationResult := Some(ERROR), validationErrMsg := Some("Unknown format from validator tool"))
  {
    var result := tool(StrOr(s.patch, ""));
    assert !(PassedMarker <= result) by { assert PassedMarker[0] != result[0]; }
    assert !(ErrorMarker <= result) by { assert ErrorMarker[0] != result[0]; }
  }

  /** At the ceiling the tool is not consulted: any tool gives the same state. */
  lemma CeilingSkipsTool(s: PatchState, maxRetries: int, tool1: string -> string, tool2: string -> string)
    requires IntOr(s.attempts, 0) >= maxRetries
    ensures Validate(s, maxRetries, tool1) == Validate(s, maxRetries, tool2)
  {
  }

  /** route_from_validation: back to generation exactly on ERROR, otherwise
      on to evaluation; never END. */
  function RouteFromValidation(s: PatchState): (next: GraphState)
    ensures next == GENERATE_PATCH || next == EVALUATE_PATCH
    ensures next == GENERATE_PATCH <==> s.validationResult == Some(ERROR)
  {
    if s.validationResult == Some(ERROR) then GENERATE_PATCH else EVALUATE_PATCH
  }

  /** route_from_evaluation */
  function RouteFromEvaluation(s: PatchState): GraphState
  {
    END
  }

  // ---------------------------------------------------------------------
  // Failure summary
  // ---------------------------------------------------------------------

  const NoLogs := "(No evaluation logs available.)"
  const DefaultMaxLines := 10

  predicate IsFailureLine(line: string)
  {
    Contains(line, "FAILED") || Contains(line, "rejects")
  }

  /** [line for line in lines if "FAILED" in line or "rejects" in line] */
  function Failures(lines: seq<string>): (fs: seq<string>)
    ensures |fs| <= |lines|
  {
    if lines == [] then []
    else (if IsFailureLine(lines[0]) then [lines[0]] else []) + Failures(lines[1..])
  }

  /** The failure lines are exactly the lines that mention a failure. */
  lemma {:induction false} FailuresAre(lines: seq<string>, x: string)
    ensures x in Failures(lines) <==> x in lines && IsFailureLine(x)
  {
    if lines != [] {
      FailuresAre(lines[1..], x);
      assert lines == [lines[0]] + lines[1..];
    }
  }

  /** xs[:n] */
  function Take(xs: seq<string>, n: nat): (t: seq<string>)
    ensures |t| <= n && t <= xs
    ensures |t| == if |xs| <= n then |xs| else n
  {
    if |xs| <= n then xs else xs[..n]
  }

  /** The lines the summary shows: the first max_lines failure lines if
      there are any, else the first max_lines lines of the stripped log. */
  function SummaryLines(log: string, maxLines: nat): seq<string>
  {
    var lines := SplitLines(Strip(log));
    var failures := Failures(lines);
    if failures != [] then Take(failures, maxLines) else Take(lines, maxLines)
  }

  /** extract_patch_failure_summary(log, max_lines) */
  function FailureSummary(log: string, maxLines: nat): string
  {
    var joined := Join(SummaryLines(log, maxLines), "\n");
    if joined == "" then NoLogs else joined
  }

  /** What the summary shows: at most max_lines lines of the log, all of them
      failure lines as soon as the log has one. */
  lemma SummaryLinesShape(log: string, maxLines: nat)
    ensures var shown := SummaryLines(log, maxLines);
      var lines := SplitLines(Strip(log));
      && |shown| <= maxLines
      && (forall x :: x in shown ==> x in lines)
      && ((exists y :: y in lines && IsFailureLine(y)) ==> forall x :: x in shown ==> IsFailureLine(x))
  {
    var lines := SplitLines(Strip(log));
    var shown := SummaryLines(log, maxLines);
    forall x | x in shown
      ensures x in lines
      ensures Failures(lines) != [] ==> IsFailureLine(x)
    {
      FailuresAre(lines, x);
    }
    if exists y :: y in lines && IsFailureLine(y) {
      var y :| y in lines && IsFailureLine(y);
      FailuresAre(lines, y);
    }
  }

  /** The placeholder is shown for a blank log; a log with any visible
      character yields its own lines (with max_lines at least 1). */
  lemma SummaryOfBlankLog(log: string, maxLines: nat)
    requires maxLines >= 1
    ensures Strip(log) == [] ==> FailureSummary(log, maxLines) == NoLogs
    ensures Strip(log) != [] ==> FailureSummary(log, maxLines) == Join(SummaryLines(log, maxLines), "\n") != []
  {
    var t := Strip(log);
    if t != [] {
      LStripStartsSolid(RStrip(log));
      var lines := SplitLines(t);
      var k := LineEnd(t);
      assert k >= 1;
      assert lines[0] != [];
      var shown := SummaryLines(log, maxLines);
      assert shown != [] && shown[0] != [] by {
        var failures := Failures(lines);
        if failures != [] {
          assert failures[0] in failures;
          FailuresAre(lines, failures[0]);
          assert failures[0] != [];
        }
      }
    }
  }

  // ---------------------------------------------------------------------
  // Evaluate
  // ---------------------------------------------------------------------

  /** The try block of the evaluate node up to its return: whether the
      instance was resolved, and the log it read. */
  function EvaluationOutcome(s: PatchState, instanceId: string, evaluator: string -> Result<Dict>): Result<(bool, string)>
  {
    if s.patch.None? then Err(Exception("KeyError", "'patch'"))
    else
      match evaluator(s.patch.value)
      case Err(e) => Err(e)
      case Ok(result) =>
        var evaluation := Get(result, "evaluation", JObj(map[]));
        var log := Get(result, "evaluation_log", JStr(""));
        if !log.JStr? then Err(NoAttribute(log, "strip"))
        else if !evaluation.JObj? then Err(NoAttribute(evaluation, "get"))
        else
          match PyIn(instanceId, Get(evaluation.fields, "resolved_ids", JList([])))
          case Err(e) => Err(e)
          case Ok(resolved) => Ok((resolved, log.s))
  }

  /** The state of an evaluation that could not run or crashed. */
  function EvaluationError(s: PatchState, attempts: int, message: string): PatchState
  {
    s.(evaluationResult := Some(ERROR),
       evaluationErrMsg := Some(message),
       evaluationAttempts := Some(attempts),
       graphState := Some(EVALUATE_PATCH))
  }

  /** The inner evaluate_patch of make_evaluate_patch_node. */
  function Evaluate(s: PatchState, maxRetries: int, instanceId: string, evaluator: string -> Result<Dict>): (r: PatchState)
    ensures r.evaluationAttempts == Some(IntOr(s.evaluationAttempts, 0) + 1)
    ensures r.graphState == Some(EVALUATE_PATCH)
    ensures r.evaluationResult == Some(PASSED) || r.evaluationResult == Some(ERROR)
    ensures r.(evaluationResult := s.evaluationResult, evaluationErrMsg := s.evaluationErrMsg,
               evaluationAttempts := s.evaluationAttempts, evaluationLog := s.evaluationLog,
               graphState := s.graphState) == s
  {
    var attempts := IntOr(s.evaluationAttempts, 0) + 1;
    if attempts > maxRetries then
      EvaluationError(s, attempts, "Maximum evaluation attempts reached.")
    else
      match EvaluationOutcome(s, instanceId, evaluator)
      case Err(e) => EvaluationError(s, attempts, "Evaluation crashed: " + e.message)
      case Ok(outcome) =>
        s.(evaluationResult := Some(if outcome.0 then PASSED else ERROR),
           evaluationErrMsg := Some(if outcome.0 then "" else FailureSummary(outcome.1, DefaultMaxLines)),
           evaluationAttempts := Some(attempts),
           evaluationLog := Some(outcome.1),
           graphState := Some(EVALUATE_PATCH))
  }

  /** PASSED exactly when the evaluation ran and its resolved ids hold the
      instance; the error message is then empty, and otherwise it is the
      ceiling message, the crash message or the log summary. */
  lemma EvaluatePassedIff(s: PatchState, maxRetries: int, instanceId: string, evaluator: string -> Result<Dict>)
    ensures var r := Evaluate(s, maxRetries, instanceId, evaluator);
      var outcome := EvaluationOutcome(s, instanceId, evaluator);
      && (r.evaluationResult == Some(PASSED) <==>
            IntOr(s.evaluationAttempts, 0) + 1 <= maxRetries && outcome.Ok? && outcome.value.0)
      && (r.evaluationResult == Some(PASSED) ==> r.evaluationErrMsg == Some(""))
      && (IntOr(s.evaluationAttempts, 0) + 1 > maxRetries ==>
            r.evaluationErrMsg == Some("Maximum evaluation attempts reached."))
      && (IntOr(s.evaluationAttempts, 0) + 1 <= maxRetries && outcome.Err? ==>
            r.evaluationErrMsg == Some("Evaluation crashed: " + outcome.error.message))
      && (IntOr(s.evaluationAttempts, 0) + 1 <= maxRetries && outcome.Ok? && !outcome.value.0 ==>
            r.evaluationErrMsg == Some(FailureSummary(outcome.value.1, DefaultMaxLines)))
  {
  }

  /** An evaluator whose result lists the instance among the resolved ids
      and has no `evaluation_log` key (as the workflow evaluator's results
      do) gives PASSED with an empty log. */
  lemma ResolvedWithoutLog(s: PatchState, maxRetries: int, instanceId: string,
                           evaluator: string -> Result<Dict>, ids: seq<Json>, summary: Dict)
    requires IntOr(s.evaluationAttempts, 0) + 1 <= maxRetries && s.patch.Some?
    requires evaluator(s.patch.value).Ok?
    requires var result := evaluator(s.patch.value).value;
      && "evaluation_log" !in result
      && "evaluation" in result && result["evaluation"] == JObj(summary)
      && Get(summary, "resolved_ids", JList([])) == JList(ids)
    ensures var r := Evaluate(s, maxRetries, instanceId, evaluator);
      && (r.evaluationResult == Some(PASSED) <==> JStr(instanceId) in ids)
      && r.evaluationLog == Some("")
      && (JStr(instanceId) !in ids ==> r.evaluationErrMsg == Some(NoLogs))
  {
  }

  /** A state without a patch makes the evaluation crash with KeyError. */
  lemma MissingPatchCrashes(s: PatchState, maxRetries: int, instanceId: string, evaluator: string -> Result<Dict>)
    requires s.patch.None? && IntOr(s.evaluationAttempts, 0) + 1 <= maxRetries
    ensures Evaluate(s, maxRetries, instanceId, evaluator).evaluationErrMsg == Some("Evaluation crashed: 'patch'")
    ensures Evaluate(s, maxRetries, instanceId, evaluator).evaluationResult == Some(ERROR)
  {
    assert EvaluationOutcome(s, instanceId, evaluator) == Err(Exception("KeyError", "'patch'"));
    assert "Evaluation crashed: " + "'patch'" == "Evaluation crashed: 'patch'";
  }

  // ---------------------------------------------------------------------
  // Evaluate (detailed)
  // ---------------------------------------------------------------------

  /** The try block of the detailed evaluate node up to its return: the
      status, the log and the report it read. */
  function DetailedOutcome(s: PatchState, evaluator: string -> Result<Dict>): Result<(Json, string, Json)>
  {
    if s.patch.None? then Err(Exception("KeyError", "'patch'"))
    else
      match evaluator(s.patch.value)
      case Err(e) => Err(e)
      case Ok(result) =>
        var data := Get(result, "evaluation", JObj(map[]));
        if !data.JObj? then Err(NoAttribute(data, "get"))
        else
          var status := Get(data.fields, "status", JStr("UNKNOWN"));
          var log := Get(data.fields, "log", JStr(""));
          var report := Get(data.fields, "report", JObj(map[]));
          if !log.JStr? then Err(NoAttribute(log, "strip"))
          else Ok((status, log.s, report))
  }

  /** The inner evaluate_patch of make_evaluate_detailed_patch_node. */
  function EvaluateDetailed(s: PatchState, maxRetries: int, evaluator: string -> Result<Dict>): (r: PatchState)
    ensures r.evaluationAttempts == Some(IntOr(s.evaluationAttempts, 0) + 1)
    ensures r.graphState == Some(EVALUATE_PATCH)
    ensures r.evaluationResult == Some(PASSED) || r.evaluationResult == Some(ERROR)
    ensures r.(evaluationResult := s.evaluationResult, evaluationErrMsg := s.evaluationErrMsg,
               evaluationAttempts := s.evaluationAttempts, evaluationLog := s.evaluationLog,
               evaluationReport := s.evaluationReport, graphState := s.graphState) == s
  {
    var attempts := IntOr(s.evaluationAttempts, 0) + 1;
    if attempts > maxRetries then
      EvaluationError(s, attempts, "Maximum evaluation attempts reached.")
    else
      match DetailedOutcome(s, evaluator)
      case Err(e) => EvaluationError(s, attempts, "Evaluation crashed: " + e.message)
      case Ok(outcome) =>
        s.(evaluationResult := Some(if outcome.0 == JStr("RESOLVED") then PASSED else ERROR),
           evaluationErrMsg := Some(FailureSummary(outcome.1, DefaultMaxLines)),
           evaluationAttempts := Some(attempts),
           evaluationLog := Some(outcome.1),
           evaluationReport := Some(outcome.2),
           graphState := Some(EVALUATE_PATCH))
  }

  /** PASSED exactly when the evaluation ran with status "RESOLVED" (a
      missing status counts as "UNKNOWN"); the log summary is recorded even
      then; log and report come from the result, and are left as they were
      when the evaluation could not run or crashed. */
  lemma DetailedPassedIff(s: PatchState, maxRetries: int, evaluator: string -> Result<Dict>)
    ensures var r := EvaluateDetailed(s, maxRetries, evaluator);
      var outcome := DetailedOutcome(s, evaluator);
      var ran := IntOr(s.evaluationAttempts, 0) + 1 <= maxRetries && outcome.Ok?;
      && (r.evaluationResult == Some(PASSED) <==> ran && outcome.value.0 == JStr("RESOLVED"))
      && (ran ==> r.evaluationErrMsg == Some(FailureSummary(outcome.value.1, DefaultMaxLines))
                  && r.evaluationLog == Some(outcome.value.1)
                  && r.evaluationReport == Some(outcome.value.2))
      && (!ran ==> r.evaluationLog == s.evaluationLog && r.evaluationReport == s.evaluationReport)
  {
  }

  /** A result without a status is never PASSED. */
  lemma MissingStatusIsError(s: PatchState, maxRetries: int, evaluator: string -> Result<Dict>)
    requires DetailedOutcome(s, evaluator).Ok?
    requires var data := evaluator(s.patch.value).value;
      "evaluation" in data && data["evaluation"].JObj? && "status" !in data["evaluation"].fields
    ensures EvaluateDetailed(s, maxRetries, evaluator).evaluationResult == Some(ERROR)
  {
    assert DetailedOutcome(s, evaluator).value.0 == JStr("UNKNOWN");
    assert "UNKNOWN"[0] != "RESOLVED"[0];
  }

  // ---------------------------------------------------------------------
  // The alternate router on lint_result
  // ---------------------------------------------------------------------

  /** route_from_validation of graph_nodes.py: `lint_result in {"ERROR"}`
      hashes the value, so a list or dict raises TypeError. */
  function RouteOnLint(s: PatchState): (next: Result<GraphState>)
    ensures next.Ok? ==> next.value == GENERATE_PATCH || next.value == EVALUATE_PATCH
    ensures next == Ok(GENERATE_PATCH) <==> s.lintResult == Some(JStr("ERROR"))
    ensures s.lintResult.None? ==> next == Ok(EVALUATE_PATCH)
  {
    match s.lintResult
    case None => Ok(EVALUATE_PATCH)
    case Some(v) =>
      if v.JList? || v.JObj? then Err(Exception("TypeError", "unhashable type: '" + PyTypeName(v) + "'"))
      else if v == JStr("ERROR") then Ok(GENERATE_PATCH)
      else Ok(EVALUATE_PATCH)
  }

  /** The lint router does not look at `validation_result`. */
  lemma LintRouteIgnoresValidation(s: PatchState, v: Option<Verdict>)
    ensures RouteOnLint(s.(validationResult := v)) == RouteOnLint(s)
  {
  }
}
