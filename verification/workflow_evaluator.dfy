/** The evaluator that the evaluate node calls: it normalises the patch,
    checks the repository is at the base commit, dry-runs `git apply`, runs
    the SWE-bench harness and returns its summary report extended with the
    localization scores. Git, the harness and the file system are inputs. */
module WorkflowEvaluator {
  import opened Common
  import opened Text
  import opened PyValues
  import Localization
  import PatchStates
  import Nodes

  /** The patch with exactly one "\n" added when it does not already end
      with one. */
  function NormalizePatch(patch: string): (r: string)
    ensures EndsWithNewline(r)
    ensures EndsWithNewline(patch) ==> r == patch
    ensures !EndsWithNewline(patch) ==> r == patch + "\n"
  {
    if EndsWithNewline(patch) then patch else patch + "\n"
  }

  /** Normalising twice is normalising once, and trailing blank lines are
      kept. */
  lemma NormalizeIdempotent(patch: string)
    ensures NormalizePatch(NormalizePatch(patch)) == NormalizePatch(patch)
    ensures NormalizePatch(patch + "\n\n") == patch + "\n\n"
  {
  }

  /** The problem the evaluator was built for. */
  datatype Problem = Problem(instanceId: string, baseCommit: string, goldPatch: Option<string>)

  /** A finished subprocess: its exit status and captured output. */
  datatype Completed = Completed(returnCode: int, stdout: string, stderr: string)

  /** What git, the harness and the file system answered: the exception of a
      failed `git reset --hard`, the output of `git rev-parse HEAD`, the
      `git apply --check` run, the generated run id, the harness run, and the
      summary report (None when the file does not exist, an error when it is
      not JSON). */
  datatype Outside = Outside(
    resetFailure: Option<Exception>,
    head: Result<string>,
    applyCheck: Completed,
    runId: string,
    harness: Completed,
    report: Option<Result<Json>>)

  /** The status _print_summary_diagnostics derives from the summary: the
      resolved list is consulted first, then the unresolved one. */
  function Status(summary: Json, instanceId: string): Result<string>
  {
    if !summary.JObj? then Err(NoAttribute(summary, "get"))
    else
      match PyIn(instanceId, Get(summary.fields, "resolved_ids", JList([])))
      case Err(e) => Err(e)
      case Ok(resolved) =>
        if resolved then Ok("RESOLVED")
        else
          match PyIn(instanceId, Get(summary.fields, "unresolved_ids", JList([])))
          case Err(e) => Err(e)
          case Ok(unresolved) => Ok(if unresolved then "UNRESOLVED" else "UNKNOWN")
  }

  /** With id lists, RESOLVED wins when the id is in both lists, then
      UNRESOLVED, else UNKNOWN. */
  lemma StatusClassification(summary: Dict, instanceId: string, resolved: seq<Json>, unresolved: seq<Json>)
    requires Get(summary, "resolved_ids", JList([])) == JList(resolved)
    requires Get(summary, "unresolved_ids", JList([])) == JList(unresolved)
    ensures var st := Status(JObj(summary), instanceId);
      && st.Ok?
      && (st.value == "RESOLVED" <==> JStr(instanceId) in resolved)
      && (st.value == "UNRESOLVED" <==> JStr(instanceId) !in resolved && JStr(instanceId) in unresolved)
      && (st.value == "UNKNOWN" <==> JStr(instanceId) !in resolved && JStr(instanceId) !in unresolved)
  {
    assert "RESOLVED"[0] != "UNRESOLVED"[0] && "RESOLVED"[0] != "UNKNOWN"[0];
    assert "UNRESOLVED"[2] != "UNKNOWN"[2];
  }

  /** The record returned when the patch does not apply. */
  function SkippedApply(patch: string, stderr: string): Dict
  {
    map["patch" := JStr(patch),
        "evaluation" := JObj(map["run_id" := JStr("skipped-apply"),
                                 "status" := JStr("ERROR"),
                                 "report" := JObj(map[]),
                                 "log" := JStr(stderr)])]
  }

  /** PatchEvaluator.evaluate(patch), with the outside world's answers. */
  function Evaluation(patch: Option<string>, problem: Problem, modelName: string, swebenchPath: string, out: Outside): Result<Dict>
  {
    if patch.None? then Err(Exception("AttributeError", "'NoneType' object has no attribute 'endswith'"))
    else
      var p := NormalizePatch(patch.value);
      if out.resetFailure.Some? then Err(out.resetFailure.value)
      else if out.head.Err? then Err(out.head.error)
      else if Strip(out.head.value) != problem.baseCommit then
        Err(Exception("AssertionError", "Repo HEAD is at " + Strip(out.head.value) + ", expected " + problem.baseCommit))
      else if out.applyCheck.returnCode != 0 then Ok(SkippedApply(p, out.applyCheck.stderr))
      else if out.harness.returnCode != 0 then
        Err(Exception("RuntimeError", "SWE-bench subprocess failed:\n" + Strip(out.harness.stderr)))
      else if out.report.None? then
        Err(Exception("FileNotFoundError", "No SWE-bench summary report found: "
                      + swebenchPath + "/" + modelName + "." + out.runId + ".json"))
      else if out.report.value.Err? then Err(out.report.value.error)
      else
        var summary := out.report.value.value;
        match Status(summary, problem.instanceId)
        case Err(e) => Err(e)
        case Ok(_) =>
          match Localization.ComputeScores(p, problem.goldPatch)
          case Err(e) => Err(e)
          case Ok(scores) => Ok(map["patch" := JStr(p), "evaluation" := JObj(summary.fields + scores.ToDict())])
  }

  /** The evaluation, one external call after the other. */
  method Evaluate(patch: Option<string>, problem: Problem, modelName: string, swebenchPath: string, out: Outside)
    returns (r: Result<Dict>)
    ensures r == Evaluation(patch, problem, modelName, swebenchPath, out)
  {
    if patch.None? {
      return Err(Exception("AttributeError", "'NoneType' object has no attribute 'endswith'"));
    }
    var p := NormalizePatch(patch.value);
    if out.resetFailure.Some? {
      return Err(out.resetFailure.value);
    }
    if out.head.Err? {
      return Err(out.head.error);
    }
    var gitHash := Strip(out.head.value);
    if gitHash != problem.baseCommit {
      return Err(Exception("AssertionError", "Repo HEAD is at " + gitHash + ", expected " + problem.baseCommit));
    }
    if out.applyCheck.returnCode != 0 {
      return Ok(SkippedApply(p, out.applyCheck.stderr));
    }
    if out.harness.returnCode != 0 {
      return Err(Exception("RuntimeError", "SWE-bench subprocess failed:\n" + Strip(out.harness.stderr)));
    }
    var reportName := modelName + "." + out.runId + ".json";
    if out.report.None? {
      return Err(Exception("FileNotFoundError", "No SWE-bench summary report found: " + swebenchPath + "/" + reportName));
    }
    if out.report.value.Err? {
      return Err(out.report.value.error);
    }
    var summary := out.report.value.value;
    var status := Status(summary, problem.instanceId);
    if status.Err? {
      return Err(status.error);
    }
    var scores := Localization.ComputeScores(p, problem.goldPatch);
    if scores.Err? {
      return Err(scores.error);
    }
    r := Ok(map["patch" := JStr(p), "evaluation" := JObj(summary.fields + scores.value.ToDict())]);
  }

  // ---------------------------------------------------------------------
  // Branch order
  // ---------------------------------------------------------------------

  /** Called without a patch, the evaluation fails in normalize_patch, so
      the fallback that reads the saved patch file is never reached. */
  lemma NoPatchFails(problem: Problem, modelName: string, swebenchPath: string, out: Outside)
    ensures Evaluation(None, problem, modelName, swebenchPath, out).Err?
    ensures Evaluation(None, problem, modelName, swebenchPath, out).error.typeName == "AttributeError"
  {
  }

  /** A HEAD other than the base commit stops the evaluation with an
      assertion failure, whatever git apply or the harness would say. */
  lemma WrongHeadFails(patch: string, problem: Problem, modelName: string, swebenchPath: string, out: Outside)
    requires out.resetFailure.None? && out.head.Ok? && Strip(out.head.value) != problem.baseCommit
    ensures var r := Evaluation(Some(patch), problem, modelName, swebenchPath, out);
      r.Err? && r.error.typeName == "AssertionError"
  {
  }

  /** A patch that does not apply gives the skipped-apply record with git's
      error output as its log, and the harness and report play no part. */
  lemma ApplyFailureSkipsHarness(patch: string, problem: Problem, modelName: string, swebenchPath: string,
                                 out: Outside, harness: Completed, report: Option<Result<Json>>, runId: string)
    requires out.resetFailure.None? && out.head.Ok? && Strip(out.head.value) == problem.baseCommit
    requires out.applyCheck.returnCode != 0
    ensures Evaluation(Some(patch), problem, modelName, swebenchPath, out)
      == Ok(SkippedApply(NormalizePatch(patch), out.applyCheck.stderr))
    ensures Evaluation(Some(patch), problem, modelName, swebenchPath, out)
      == Evaluation(Some(patch), problem, modelName, swebenchPath, out.(harness := harness, report := report, runId := runId))
  {
  }

  /** After a clean apply check, a failing harness raises RuntimeError and a
      missing report raises FileNotFoundError. */
  lemma HarnessFailures(patch: string, problem: Problem, modelName: string, swebenchPath: string, out: Outside)
    requires out.resetFailure.None? && out.head.Ok? && Strip(out.head.value) == problem.baseCommit
    requires out.applyCheck.returnCode == 0
    ensures var r := Evaluation(Some(patch), problem, modelName, swebenchPath, out);
      && (out.harness.returnCode != 0 ==> r.Err? && r.error.typeName == "RuntimeError")
      && (out.harness.returnCode == 0 && out.report.None? ==> r.Err? && r.error.typeName == "FileNotFoundError")
  {
  }

  /** A successful evaluation returns the normalised patch and the summary
      with the two localization scores added (overriding any keys of the
      same name). */
  lemma SuccessfulEvaluation(patch: string, problem: Problem, modelName: string, swebenchPath: string, out: Outside)
    requires var r := Evaluation(Some(patch), problem, modelName, swebenchPath, out);
      r.Ok? && r.value != SkippedApply(NormalizePatch(patch), out.applyCheck.stderr)
    ensures out.applyCheck.returnCode == 0 && out.harness.returnCode == 0
    ensures out.report.Some? && out.report.value.Ok? && out.report.value.value.JObj?
    ensures var r := Evaluation(Some(patch), problem, modelName, swebenchPath, out).value;
      var summary := out.report.value.value.fields;
      var scores := Localization.ComputeScores(NormalizePatch(patch), problem.goldPatch);
      && scores.Ok?
      && r["patch"] == JStr(NormalizePatch(patch))
      && r["evaluation"] == JObj(summary + scores.value.ToDict())
      && r["evaluation"].fields["localization_score_file"] == JReal(scores.value.fileScore)
      && r["evaluation"].fields["localization_score_line"] == JReal(scores.value.lineScore)
      && (forall k :: k in summary && k != "localization_score_file" && k != "localization_score_line"
            ==> r["evaluation"].fields[k] == summary[k])
  {
  }

  /** Whatever it returns, the evaluator never produces an `evaluation_log`
      key: the records have exactly the keys "patch" and "evaluation". */
  lemma NoEvaluationLogKey(patch: Option<string>, problem: Problem, modelName: string, swebenchPath: string, out: Outside)
    requires Evaluation(patch, problem, modelName, swebenchPath, out).Ok?
    ensures Evaluation(patch, problem, modelName, swebenchPath, out).value.Keys == {"patch", "evaluation"}
    ensures "evaluation_log" !in Evaluation(patch, problem, modelName, swebenchPath, out).value
  {
  }

  /** So the evaluate node, fed a record of this evaluator that does not
      resolve the instance, reports the placeholder instead of any log; in
      particular git's error output of a failed apply is not shown. */
  lemma NodeSeesNoLog(s: PatchStates.PatchState, maxRetries: int, instanceId: string,
                      evaluator: string -> Result<Dict>, ids: seq<Json>, summary: Dict)
    requires PatchStates.IntOr(s.evaluationAttempts, 0) + 1 <= maxRetries && s.patch.Some?
    requires evaluator(s.patch.value).Ok?
    requires var result := evaluator(s.patch.value).value;
      && "evaluation_log" !in result
      && "evaluation" in result && result["evaluation"] == JObj(summary)
      && Get(summary, "resolved_ids", JList([])) == JList(ids)
    requires JStr(instanceId) !in ids
    ensures Nodes.Evaluate(s, maxRetries, instanceId, evaluator).evaluationErrMsg == Some(Nodes.NoLogs)
    ensures Nodes.Evaluate(s, maxRetries, instanceId, evaluator).evaluationResult == Some(PatchStates.ERROR)
  {
    Nodes.ResolvedWithoutLog(s, maxRetries, instanceId, evaluator, ids, summary);
  }

  /** The skipped-apply record in the evaluate node: ERROR with the
      placeholder message. */
  lemma SkippedApplyInNode(s: PatchStates.PatchState, maxRetries: int, instanceId: string,
                           evaluator: string -> Result<Dict>, stderr: string)
    requires PatchStates.IntOr(s.evaluationAttempts, 0) + 1 <= maxRetries && s.patch.Some?
    requires evaluator(s.patch.value) == Ok(SkippedApply(NormalizePatch(s.patch.value), stderr))
    ensures Nodes.Evaluate(s, maxRetries, instanceId, evaluator).evaluationErrMsg == Some(Nodes.NoLogs)
    ensures Nodes.Evaluate(s, maxRetries, instanceId, evaluator).evaluationResult == Some(PatchStates.ERROR)
  {
    var summary := map["run_id" := JStr("skipped-apply"), "status" := JStr("ERROR"),
                       "report" := JObj(map[]), "log" := JStr(stderr)];
    assert "resolved_ids" !in summary;
    NodeSeesNoLog(s, maxRetries, instanceId, evaluator, [], summary);
  }
}
