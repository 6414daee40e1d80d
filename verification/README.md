# SWE_AUTONOMOUS core, modelled in Dafny

SWE_AUTONOMOUS is an agent harness. A language model proposes patches for a
software-engineering problem, and the harness handles everything around those
patches. This project models the parts of the harness that hold real logic:

- **Patch application.** `apply_patch_to_file` replays a parsed unified diff
  onto a file with a cursor into the original lines (`DiffApply`).
- **The two patch tools.** The Ruff lint tool recounts hunk headers
  (`fix_hunk_headers`), applies each per-file diff and lints the result,
  stopping at the first failure (`RuffLint`). The patch validator splits a
  multi-file diff at its `diff --git` headers, applies and auto-fixes each
  file, and re-diffs the result into a cleaned patch (`PatchValidator`).
- **The file editor tool.** `view`, `create`, `str_replace` and `insert`
  run on an in-memory file system, behind the tool's string-prefix check
  against the repository root (`Editor`).
- **Localization scores.** File and line overlap between a generated patch
  and the gold patch (`Localization`).
- **The LangGraph workflow.** Its state, the generate, validate, evaluate
  and lint nodes, the routing functions and the runner loop (`PatchState`,
  `Nodes`, `GraphRunner`).
- **Evaluation.** The workflow's patch evaluator (`WorkflowEvaluator`) and
  the test evaluator behind the problem pipelines (`TestEvaluation`).
- **Pipeline bookkeeping.** The passing-solution summary, the candidate
  mapping given to the selector, and the JSON file cache (`Pipeline`).
- **Smaller utilities.** The trajectory logger (`Trajectory`), the
  sequential-thinking tool (`Thinking`) and the repository-structure
  listing (`RepoStructure`).

Shared definitions live in `Common` (Option, Result, exceptions, a JSON
value), `PyValues` (the Python values a tool receives) and `Text` (line
splitting with kept ends, join, count, replace, find, strip, decimal
rendering).

Everything outside the process is an input to the model: a function
parameter, or a datatype of functions. This covers git, the test harness,
ruff, difflib, the unidiff parser, the language model, the file system, the
clock and the JSON encoder. Each operation is therefore proved for every
possible behaviour of these.

### Behaviour of the code worth knowing

- **Validate node.** It never increments `attempts`, and
  `route_from_validation` never returns `END`. A failed validation
  therefore loops back to generate until the runner's step budget runs out
  (`GraphRunner.LoopsForever`, `GraphRunner.NeverReachesEnd`).
- **Fixer exit status ignored.** The patch validator ignores the exit
  status of `ruff check --fix`; only the fixed text is used
  (`PatchValidator.FixExitIgnored`).
- **Header recount.** `fix_hunk_headers` counts only `-` and `+` lines, not
  context lines, and drops any section text after the second `@@`.
- **Missing evaluation log.** The evaluate node reads an `evaluation_log`
  key that the workflow's evaluator never returns. The node always stores
  the empty default (`WorkflowEvaluator.NodeSeesNoLog`).
- **Editor containment.** The repository check is a string-prefix test,
  so a sibling directory whose name extends the repository's is admitted
  (`Editor.SiblingAdmitted`). `resolve_path` resolves only relative paths,
  so an absolute path with ".." components passes the test unresolved
  (`Editor.TraversalAdmitted`).
- **Editor newlines.** The tool reads files in text mode, so "\r\n" and a
  lone "\r" arrive as "\n" (`Editor.ReadText`). `view`, `str_replace` and
  `insert` all work on the translated text. An edit therefore writes a
  CRLF file back with "\n" line ends (`Editor.CrLfRewritten`), and an
  `old_str` holding "\r" is never found (`Editor.CarriageReturnNeverMatches`).
- **Undeclared state keys.** The graph is compiled from `PatchState`,
  which declares only the control, patch, result, message and `attempts`
  keys. The nodes also return `generation_attempts`,
  `evaluation_attempts`, `evaluation_log` and `evaluation_report`, and the
  compiled graph drops them. No node ever sees them, so the evaluate
  node's counter is 1 on every call and its retry ceiling never fires for
  a ceiling of 1 or more (`GraphRunner.Counters`,
  `GraphRunner.EvaluationCeilingInert`).
- **Patch helper exit code.** The repository's `apply_patch` helper
  (src/utils/docker_utils.py:36-46) reports exit code 0 whatever `patch`
  did. With it, the test evaluator never records an apply failure
  (`TestEvaluation.ApplyNeverFails`).
- **The "none" framework.** Its test command is empty, so no solution ever
  passes the existing suite (`Pipeline.NoTestsNeverPass`).
- **Non-positive step budget.** With a budget of 0 or less, the
  sequential-thinking tool reads `thoughts[-1]` of an empty list and
  raises `IndexError` (`Thinking.AnswerShape`).
- **Validator answer format.** The validate node looks for answers that
  start with a `'''\nPASSED:` or `'''\nERROR:` banner. The validator tool
  answers with a JSON object instead, so the node always records
  "Unknown format from validator tool" (`Nodes.JsonAnswerIsUnknownFormat`).
- **Missing corner connector.** The repository listing gives the corner
  connector "└── " only to the last entry in name order. When that entry
  is hidden or has an extension outside the list, no shown entry gets the
  corner (`RepoStructure.CornerFollowsUnshownEntry`).
- **Short hunk header.** In the localization scores, an `@@` line with
  fewer than three tokens raises `IndexError`. That exception is not the
  `ValueError` the code catches, so it propagates
  (`Localization.ScanFailsIff`).

## Model

| member | source | states |
|---|---|---|
| DiffApply.ApplyPatchToFile | src/utils/io_utils.py:13-42 | the loops compute `PatchFile`: pick the first matching entry (or raise ValueError), replay its hunks with the cursor, append the rest of the original, join |
| DiffApply.ApplyHunkLines | src/utils/io_utils.py:32-39 | the inner loop over one hunk's lines computes `ApplyLines` |
| DiffApply.SelectsFirstMatch | src/utils/io_utils.py:16-20 | no entry whose path equals the name or whose target ends with it gives the ValueError; otherwise the result is the first such entry applied |
| DiffApply.FirstMatchIsFirst | src/utils/io_utils.py:16-18 | the selected index matches, and every entry before it does not |
| DiffApply.NotNoMatch | src/utils/io_utils.py:16-20 | when an entry matches, the "No matching patch" error is not raised |
| DiffApply.ApplyErrorIsIndexError | src/utils/io_utils.py:26-39 | the only failure of the hunk loops is IndexError (a cursor past the original's end) |
| DiffApply.CopyErrorIsIndexError | src/utils/io_utils.py:28-30 | the copy loop fails only with IndexError |
| DiffApply.LinesErrorIsIndexError | src/utils/io_utils.py:32-39 | the line loop fails only with IndexError |
| DiffApply.NoHunksIsIdentity | src/utils/io_utils.py:22-42 | a matched entry without hunks gives back the original text unchanged |
| DiffApply.CopyUpToClosed | src/utils/io_utils.py:27-30 | the copy loop appends exactly the original lines from the cursor up to the hunk's start, or fails if the start is past the end |
| DiffApply.LinesExtendOutput | src/utils/io_utils.py:32-39 | a hunk's lines only append to the output |
| DiffApply.HunksExtendOutput | src/utils/io_utils.py:26-39 | the hunk loop only appends to the output |
| DiffApply.PrefixBeforeFirstHunk | src/utils/io_utils.py:26-30 | the original lines before the first hunk's start line begin the result |
| DiffApply.DiffTextOfOldSideIgnored | src/utils/io_utils.py:33-37 | context and removed lines use only their kind, never their text: blanking that text leaves the result unchanged |
| DiffApply.HunkReplacesOldSide | src/utils/io_utils.py:32-39 | when the original matches a hunk's old side at the cursor, the hunk consumes exactly the old side and emits exactly its new side |
| DiffApply.SingleHunkPatch | src/utils/io_utils.py:13-42 | a one-hunk patch whose old side matches at its start line yields prefix + new side + suffix |
| DiffApply.SingleHunkLines | src/utils/io_utils.py:22-41 | the same on the original's lines |
| DiffApply.LinesCount | src/utils/io_utils.py:32-39 | a hunk inside the original succeeds; the cursor moves by its context plus removed lines, and the output grows by its context plus added lines |
| DiffApply.FittingHunksLineCount | src/utils/io_utils.py:26-41 | hunks in order and inside the original apply without error, and the result has as many lines as the original plus added minus removed |
| RuffLint.DigitRunIsMaximal | src/tools/ruff_lint_tool.py:135 | the `\d+` run is made of digits and is followed by a non-digit or the end |
| RuffLint.HeaderAccepted | src/tools/ruff_lint_tool.py:135-145 | every line "@@ -a[,b] +c[,d] @@…" matches the header pattern, and groups 1 and 3 give a and c |
| RuffLint.HeaderTextParses | src/tools/ruff_lint_tool.py:135-157 | a recounted header matches the pattern again, with the same starts |
| RuffLint.HeaderTextIsLine | src/tools/ruff_lint_tool.py:155-157 | a recounted header is a single line that starts with "@@" and ends with "\n" |
| RuffLint.BodyEndIsNextAt | src/tools/ruff_lint_tool.py:148 | a hunk body ends at the first following line that starts with "@@", or at the end |
| RuffLint.BodyCountsAre | src/tools/ruff_lint_tool.py:147-153 | the walk counts exactly the body's lines starting with "-" but not "---", and with "+" but not "+++" |
| RuffLint.CountBody | src/tools/ruff_lint_tool.py:146-153 | the inner loop stops at the body's end, with those two counts |
| RuffLint.FixLine | src/tools/ruff_lint_tool.py:141-162 | one round of the outer loop emits what the repair says for the lines it consumes, and always advances |
| RuffLint.FixHunkHeaders | src/tools/ruff_lint_tool.py:131-164 | the loops compute `Repaired(diff)` |
| RuffLint.RepairLineByLine | src/tools/ruff_lint_tool.py:131-164 | the repaired diff has the input's line count; a header line becomes "@@ -a,M +c,P @@\n" with its own starts and its body's removed/added counts; every other line is copied unchanged |
| RuffLint.FixFromPointwise | src/tools/ruff_lint_tool.py:140-162 | the emitted lines are, in order, what the per-line plan says for each input line |
| RuffLint.FixedLinesShaped | src/tools/ruff_lint_tool.py:136-164 | the repair keeps the line structure: every line but the last ends with "\n" and none holds another |
| RuffLint.PlanText | src/tools/ruff_lint_tool.py:155-161 | a recounted line parses back as a header with the same starts; a copied line is the input line |
| RuffLint.RepairedMarks | src/tools/ruff_lint_tool.py:140-162 | lines start with "@@" at the same places before and after the repair |
| RuffLint.RepairedBody | src/tools/ruff_lint_tool.py:159 | every hunk body is the same before and after the repair |
| RuffLint.RepairIdempotent | src/tools/ruff_lint_tool.py:131-164 | repairing an already repaired diff changes nothing |
| RuffLint.MessageIsPassedIff | src/tools/ruff_lint_tool.py:72-128 | only a passing item produces "PASSED", so the loop's string comparison detects exactly the failures |
| RuffLint.PathNameHasNoSlash | src/tools/ruff_lint_tool.py:102 | `Path(p).name` is a single path component |
| RuffLint.ProcessSingleSolution | src/tools/ruff_lint_tool.py:94-128 | the method returns the message of `SolutionVerdict` (repair, new-file test, read, apply, lint) |
| RuffLint.VerdictCases | src/tools/ruff_lint_tool.py:98-128 | an item passes iff its text is read (or it is new), the diff applies and ruff exits with 0; an apply failure reports the exception, a lint failure the linter's output |
| RuffLint.NewFileIgnoresDisk | src/tools/ruff_lint_tool.py:98-102 | a repaired diff containing "@@ -0,0 +" is applied to the empty text whatever the file holds |
| RuffLint.ProcessItem | src/tools/ruff_lint_tool.py:62-71 | an item without "path" or "diff" gets the invalid-input message; the result is "PASSED" iff the item's verdict is a pass |
| RuffLint.Forward | src/tools/ruff_lint_tool.py:59-92 | the loop stops at the first item that does not pass and returns its message, having examined exactly the items up to it; "PASSED" when there is none |
| RuffLint.ItemsBeforeFirstFailurePass | src/tools/ruff_lint_tool.py:62-75 | every item before the first failure passes, and the item there does not |
| PatchValidator.GitHeaderPathIff | src/tools/patch_validator_tool.py:97 | a line matches `^diff --git a/(.+?) b/\1\n` with path p iff it is that header rebuilt from a non-empty single-line p |
| PatchValidator.GitHeaderParses | src/tools/patch_validator_tool.py:97-101 | the header the splitter rebuilds for a path matches again with that path |
| PatchValidator.NextHeaderIsNext | src/tools/patch_validator_tool.py:97 | the next boundary is the first header line at or after a position |
| PatchValidator.ChunkPerHeader | src/tools/patch_validator_tool.py:96-104 | there is one chunk per header line, in input order, named by its path |
| PatchValidator.ChunkBodies | src/tools/patch_validator_tool.py:97-104 | each chunk's diff is its rebuilt header followed by the lines up to the next header, and none of them is a header |
| PatchValidator.ExtractChunksRebuild | src/tools/patch_validator_tool.py:96-104 | the text before the first header followed by all chunk diffs is the input patch: splitting loses only the preamble |
| PatchValidator.NoHeaderNoChunks | src/tools/patch_validator_tool.py:97-104 | there are no chunks iff the patch has no header line |
| PatchValidator.ProcessChunk | src/tools/patch_validator_tool.py:55-139 | one chunk: read (or "" for "@@ -0,0 +"), apply, fix, re-diff, giving that chunk's outcome |
| PatchValidator.GatherDiffs | src/tools/patch_validator_tool.py:54-73 | the loop gathers the chunk outcomes in order and stops at the first exception |
| PatchValidator.CollectIs | src/tools/patch_validator_tool.py:54-73 | gathering succeeds iff every outcome does, and then lists the diffs in order; otherwise it holds the first exception |
| PatchValidator.CollectKeepsError | src/tools/patch_validator_tool.py:50-94 | once an exception is raised, later chunks do not change it |
| PatchValidator.Forward | src/tools/patch_validator_tool.py:49-94 | the method computes `Validate`: the cleaned patch, or the first exception as "Type: message" |
| PatchValidator.ValidateOutcome | src/tools/patch_validator_tool.py:49-94 | the tool passes iff every chunk applies; otherwise it reports the first chunk that fails, and every chunk before it applied |
| PatchValidator.CleanedOfBlankDiffs | src/tools/patch_validator_tool.py:75-76 | when every re-diff is blank, the cleaned patch is the input |
| PatchValidator.NonBlankOfBlanks | src/tools/patch_validator_tool.py:75 | the filter keeps no blank diff |
| PatchValidator.UnchangedFixKeepsInput | src/tools/patch_validator_tool.py:75-85 | when the fixer changes nothing and equal texts give an empty diff, a pass returns the input as the cleaned patch |
| PatchValidator.FixExitIgnored | src/tools/patch_validator_tool.py:117-124 | the fixer's exit status never changes the outcome |
| PatchValidator.NoChunksPassUnchanged | src/tools/patch_validator_tool.py:75-104 | a patch without a header line passes, with itself as the cleaned patch |
| PatchValidator.JsonStatus | src/tools/patch_validator_tool.py:80-94 | the JSON status is "PASSED" iff the run passed, and only a pass carries "cleaned_patch" |
| Localization.DigitsOnly | src/utils/localization_scores.py:21 | the digits of an `int()` literal with its underscores dropped are all digits |
| Localization.PlainDigitsGrouped | src/utils/localization_scores.py:21 | a plain digit string is a valid `int()` literal, and its own digits |
| Localization.ParseIntOfString | src/utils/localization_scores.py:21 | `int(str(i)) == i` for every integer |
| Localization.ParseNat | src/utils/localization_scores.py:21 | `int(str(c)) == c` for every natural number |
| Localization.ParseIntRejectsLetters | src/utils/localization_scores.py:21-24 | a token that ends in neither a digit nor "_" is not a number (the ValueError path) |
| Localization.BeforeComma | src/utils/localization_scores.py:21 | `s.split(",")[0]` is the prefix of s up to its first comma |
| Localization.CommaFree | src/utils/localization_scores.py:21 | the part before the first comma of "a,rest" is a, when a holds no comma |
| Localization.HeaderStartOf | src/utils/localization_scores.py:17-22 | a header token "+c,d" or "+c" moves the cursor to c |
| Localization.ScanLine | src/utils/localization_scores.py:12-31 | the loop body computes one `Step` of the scanner on one line |
| Localization.ExtractFileAndLines | src/utils/localization_scores.py:4-33 | the loop over the lines computes `Extract`, stopping at the first exception |
| Localization.ScanKeepsError | src/utils/localization_scores.py:11-31 | once a line raises, later lines do not change the exception |
| Localization.ScanFailsIff | src/utils/localization_scores.py:17-24 | the scan fails iff some line is an "@@" header with fewer than three tokens, and then with IndexError, which `except ValueError` does not catch |
| Localization.ScanFiles | src/utils/localization_scores.py:12-16 | the files found are exactly those named by "diff --git" lines of at least four tokens, with "a/" stripped |
| Localization.ScanLinesFromAdded | src/utils/localization_scores.py:25-28 | a line number is recorded only if some line is an added line |
| Localization.NothingBeforeFirstHunk | src/utils/localization_scores.py:9-31 | before the first "@@" line no line number is recorded and there is no cursor |
| Localization.ScanGrows | src/utils/localization_scores.py:5-31 | files and line numbers only accumulate as the scan goes on |
| Localization.AddedAndRemovedLines | src/utils/localization_scores.py:25-31 | an added line records the cursor and advances it; a removed line changes nothing |
| Localization.ScoresWithoutGold | src/utils/localization_scores.py:39-43 | a missing or empty gold patch scores 0 and 0 |
| Localization.OverlapMeaning | src/utils/localization_scores.py:48-49 | both scores lie in [0, 1]; the file score is 1 iff the patches share a file; the line score times the number of gold lines is the number of shared lines, and it is 1 iff every gold line is touched |
| Localization.ScoresMeaning | src/utils/localization_scores.py:36-54 | with a gold patch, the scores are the overlap of the two scans |
| Localization.ScoresFail | src/utils/localization_scores.py:45-46 | an exception from scanning the gold patch, and then from the generated one, is the result |
| Localization.SelfScore | src/utils/localization_scores.py:36-54 | a patch scored against itself gets file score 1 iff it names a file, and line score 1 iff it adds a line |
| Nodes.Generate | src/lang_graph/generate_patch_node.py:23-32 | a generator exception propagates; otherwise the state gets the new patch, `generation_attempts` one higher, `graph_state` set to generation, and every other key kept |
| Nodes.ReadToolResult | src/lang_graph/validate_patch_node.py:22-48 | the result is PASSED iff the tool's answer starts with the PASSED banner; otherwise it is ERROR with the patch kept; only the patch and the two validation keys change |
| Nodes.Validate | src/lang_graph/validate_patch_node.py:11-48 | only the patch and the two validation keys change (never `attempts`); the result is PASSED or ERROR; at the ceiling the tool is skipped and the ceiling message recorded |
| Nodes.ValidatedPatch | src/lang_graph/validate_patch_node.py:22-33 | below the ceiling, a PASSED answer hands back the patch inside the banner and fence, with an empty message |
| Nodes.ValidationErrorMessage | src/lang_graph/validate_patch_node.py:34-42 | below the ceiling, an ERROR answer records the stripped message inside the banner and fence |
| Nodes.JsonAnswerIsUnknownFormat | src/lang_graph/validate_patch_node.py:22-48 | an answer that starts with "{", as the validator tool's JSON does, is recorded as ERROR "Unknown format from validator tool" |
| Nodes.CeilingSkipsTool | src/lang_graph/validate_patch_node.py:13-20 | at the ceiling the result does not depend on the tool |
| Nodes.RouteFromValidation | src/lang_graph/validate_patch_node.py:53-58 | routing goes back to generation exactly on ERROR, and otherwise to evaluation, never to END |
| Nodes.FailuresAre | src/lang_graph/evaluate_patch_node.py:59 | the failure lines are exactly the log lines containing "FAILED" or "rejects" |
| Nodes.SummaryLinesShape | src/lang_graph/evaluate_patch_node.py:57-61 | the summary shows at most max_lines lines of the stripped log, all of them failure lines when the log has any |
| Nodes.SummaryOfBlankLog | src/lang_graph/evaluate_patch_node.py:57-61 | a blank log gives the "(No evaluation logs available.)" placeholder; any other log gives its non-empty joined summary |
| Nodes.Evaluate | src/lang_graph/evaluate_patch_node.py:14-50 | the attempt counter goes up by one, `graph_state` is set to evaluation, the result is PASSED or ERROR, and only the evaluation keys change |
| Nodes.EvaluatePassedIff | src/lang_graph/evaluate_patch_node.py:14-50 | PASSED iff below the ceiling the evaluation ran and listed the instance as resolved; the message is then empty, and otherwise the ceiling message, the crash message or the log summary |
| Nodes.ResolvedWithoutLog | src/lang_graph/evaluate_patch_node.py:26-41 | an evaluator result without "evaluation_log" stores the empty log, and a failure then shows the placeholder |
| Nodes.MissingPatchCrashes | src/lang_graph/evaluate_patch_node.py:26-50 | a state without a patch crashes with KeyError 'patch' and records ERROR |
| Nodes.EvaluateDetailed | src/lang_graph/evaluate_detailed_patch_node.py:13-51 | the same counter, graph-state and frame facts for the detailed node |
| Nodes.DetailedPassedIff | src/lang_graph/evaluate_detailed_patch_node.py:13-51 | PASSED iff the evaluation ran with status "RESOLVED"; a run stores its log summary, log and report, and a non-run leaves them as they were |
| Nodes.MissingStatusIsError | src/lang_graph/evaluate_detailed_patch_node.py:26-35 | a result without a status ("UNKNOWN") is never PASSED |
| Nodes.RouteOnLint | src/lang_graph/graph_nodes.py:4-7 | the lint router goes to generation exactly when `lint_result` is "ERROR", and to evaluation when it is absent |
| Nodes.LintRouteIgnoresValidation | src/lang_graph/graph_nodes.py:4-7 | the lint router does not look at `validation_result` |
| GraphRunner.Run | src/lang_graph/graph_runner.py:21-62 | the loop runs one node per iteration, keeps only the keys `PatchState` declares of what the node returns, and computes `Outcome`: the state at END, the first exception, or the recursion-limit error |
| GraphRunner.ExecKeepsError | src/lang_graph/graph_runner.py:21-62 | an exception ends the run: later steps keep it |
| GraphRunner.ExecStaysAtEnd | src/lang_graph/graph_runner.py:21-62 | END is final |
| GraphRunner.Succession | src/lang_graph/graph_runner.py:40-60 | every run starts at generation; generation is followed by validation, validation by its router's choice, and evaluation by END |
| GraphRunner.EvaluateOnlyAfterValidate | src/lang_graph/graph_runner.py:43-51 | evaluation is only entered from validation |
| GraphRunner.EndOnlyAfterEvaluate | src/lang_graph/graph_runner.py:43-60 | END is only entered from evaluation, never from validation |
| GraphRunner.EvaluateIsTerminal | src/lang_graph/graph_runner.py:53-60 | once evaluation has run, the run is at END |
| GraphRunner.EvaluateAtMostOnce | src/lang_graph/graph_runner.py:53-60 | evaluation runs at most once per run |
| GraphRunner.Counters | src/lang_graph/graph_runner.py:21-62 | no node writes `attempts`, and every state along a run lacks `generation_attempts`, `evaluation_attempts`, `evaluation_log` and `evaluation_report`, because `PatchState` does not declare them |
| GraphRunner.EvaluationCeilingInert | src/lang_graph/evaluate_patch_node.py:14-40 | inside the graph the evaluate node always counts attempt 1, so it passes exactly when the evaluator resolves the instance, unless `max_retries` is below 1 |
| GraphRunner.FinishedRunEvaluated | src/lang_graph/graph_runner.py:53-60 | a run at END ended with a state the evaluate node wrote |
| GraphRunner.OutcomeEvaluated | src/lang_graph/graph_runner.py:21-62 | a run that returns normally returns an evaluated state |
| GraphRunner.LoopsForever | src/lang_graph/graph_runner.py:40-51 | with a validator that never passes, the run alternates between generation and validation, and `attempts` never changes |
| GraphRunner.NeverReachesEnd | src/lang_graph/graph_runner.py:21-62 | such a run exhausts every recursion limit |
| WorkflowEvaluator.NormalizePatch | src/workflow/patch_evaluator.py:158-159 | the result ends with "\n"; a patch that already does is kept, any other gets exactly one "\n" added |
| WorkflowEvaluator.NormalizeIdempotent | src/workflow/patch_evaluator.py:158-159 | normalising twice is normalising once, and trailing blank lines are kept |
| WorkflowEvaluator.StatusClassification | src/workflow/patch_evaluator.py:164-178 | RESOLVED iff the id is among the resolved ids; UNRESOLVED iff it is only among the unresolved ones; UNKNOWN iff it is in neither |
| WorkflowEvaluator.Evaluate | src/workflow/patch_evaluator.py:26-156 | the method, one external call after the other, computes `Evaluation` |
| WorkflowEvaluator.NoPatchFails | src/workflow/patch_evaluator.py:158-159 | called without a patch, the evaluation fails with AttributeError in normalize_patch, before the fallback to the saved patch file is reached |
| WorkflowEvaluator.WrongHeadFails | src/workflow/patch_evaluator.py:38-48 | a HEAD other than the base commit stops the evaluation with AssertionError |
| WorkflowEvaluator.ApplyFailureSkipsHarness | src/workflow/patch_evaluator.py:63-82 | a patch that does not apply gives the "skipped-apply" ERROR record with git's stderr as the log, and the harness is not run |
| WorkflowEvaluator.HarnessFailures | src/workflow/patch_evaluator.py:102-145 | a failing harness raises RuntimeError, and a missing report FileNotFoundError |
| WorkflowEvaluator.SuccessfulEvaluation | src/workflow/patch_evaluator.py:142-156 | a successful evaluation returns the normalised patch and the summary extended with the two localization scores, every other summary key kept |
| WorkflowEvaluator.NoEvaluationLogKey | src/workflow/patch_evaluator.py:74-156 | every returned record has exactly the keys "patch" and "evaluation", never "evaluation_log" |
| WorkflowEvaluator.NodeSeesNoLog | src/lang_graph/evaluate_patch_node.py:27-41 | fed such a record for an unresolved instance, the evaluate node records ERROR with the no-logs placeholder |
| WorkflowEvaluator.SkippedApplyInNode | src/lang_graph/evaluate_patch_node.py:27-41 | the skipped-apply record also reaches the node as ERROR with the placeholder, so git's message is lost |
| Editor.ViewWindow | src/tools/edit_tool.py:117-136 | a range inside the file shows the header "[Showing lines s to e of n]" and exactly lines s..e, each under its own number; an end of -1 means the last line |
| Editor.ViewWhole | src/tools/edit_tool.py:124-136 | without a range, the whole file is shown, numbered from 1 |
| Editor.ReplaceAbsent | src/tools/edit_tool.py:155-157 | replace leaves a text without occurrences unchanged |
| Editor.ReplaceUnique | src/tools/edit_tool.py:155-162 | with exactly one occurrence, replace rewrites that occurrence and nothing else |
| Editor.ReadText | src/tools/edit_tool.py:114-115 | reading a file in text mode yields a text with no "\r" and no longer than the stored one |
| Editor.ReadTextPlain | src/tools/edit_tool.py:153-154 | a stored text without "\r" is read back exactly |
| Editor.CarriageReturnNeverMatches | src/tools/edit_tool.py:153-155 | an old_str holding "\r" occurs zero times in any text read in text mode |
| Editor.CrLfRewritten | src/tools/edit_tool.py:153-162 | a str_replace of x by z in "x\r\ny\r\n" leaves "z\ny\n": the CRLF line ends become "\n" |
| Editor.EditorTool.constructor | src/tools/edit_tool.py:66-77 | the tool starts on the given files, directories and repository root |
| Editor.EditorTool.Forward | src/tools/edit_tool.py:79-193 | the answer and the new file map are those of `Answer` on the old file map, every read going through the text-mode translation |
| Editor.OnlyTargetChanges | src/tools/edit_tool.py:93-182 | only create, a unique str_replace or an in-range insert inside the repository changes the files, and only the file at the resolved path |
| Editor.OutsideRefused | src/tools/edit_tool.py:95-98 | a resolved path that does not start with the repository root is refused and nothing changes |
| Editor.SiblingAdmitted | src/tools/edit_tool.py:95 | the containment test compares strings, so "/repo-other/x" passes for the root "/repo" |
| Editor.TraversalAdmitted | src/tools/edit_tool.py:13-15 | an absolute path is used unresolved, so "/repo/../etc/passwd" passes the containment test and is created, whatever the file system's resolution does |
| Editor.CreateRule | src/tools/edit_tool.py:140-147 | create refuses an existing path without change, and otherwise adds a file holding exactly file_text |
| Editor.StrReplaceRule | src/tools/edit_tool.py:149-163 | str_replace counts old_str in the file as read in text mode; it reports an error without change for zero or several occurrences, and for exactly one writes back the read text with just that occurrence rewritten |
| Editor.InsertRule | src/tools/edit_tool.py:165-182 | insert splits the file as read in text mode into lines; it refuses an out-of-range line without change, and otherwise puts new_str, right-stripped of "\n" plus one "\n", before line insert_line |
| Editor.InsertedLines | src/tools/edit_tool.py:174-181 | when the text holds no inner newline and does not land after an unterminated last line, the file splits back into the old lines with the new one at insert_line |
| Editor.LastLineTerminated | src/tools/edit_tool.py:174-175 | the last line of a text ending in "\n" ends in "\n" |
| Editor.InsertAfterUnterminatedLine | src/tools/edit_tool.py:174-181 | inserting after an unterminated last line glues the new text onto it: "a" with "b" at line 1 gives "ab\n" |
| TestEvaluation.TestCommand | src/utils/patch_evaluator.py:100-110 | a framework is accepted iff it is pytest, unittest, tox or none, and only "none" has the empty command; any other value raises ValueError |
| TestEvaluation.Evaluate | src/utils/patch_evaluator.py:37-98 | the nested loops produce exactly `Records` for every solution and test patch, or the ValueError that `get_test_command` raises for an unsupported framework |
| TestEvaluation.SolutionRecordsShape | src/utils/patch_evaluator.py:45-96 | a solution that does not apply gives one "apply_patch_failed" record; one that applies gives an "existing_tests" record, then one record per test patch, in order |
| TestEvaluation.SolutionRecordsAbout | src/utils/patch_evaluator.py:45-96 | every record of solution i carries index i, and only suite runs carry an exit code |
| TestEvaluation.PairRecordsShape | src/utils/patch_evaluator.py:68-96 | test patch j of solution i gives exactly one record, with indices i and j, of one of the three pair kinds |
| TestEvaluation.RecordsGrouped | src/utils/patch_evaluator.py:42-98 | records are grouped by solution index in increasing order, every index names a solution, and every record is well formed |
| TestEvaluation.RecordsBelow | src/utils/patch_evaluator.py:42-98 | the records of the first n solutions have indices below n |
| TestEvaluation.RecordsOfSolution | src/utils/patch_evaluator.py:42-98 | picking the records of solution i out of the whole list gives exactly the records that solution produced |
| TestEvaluation.NoTestsSkipAll | src/utils/patch_evaluator.py:100-110 | the "none" framework maps to the empty command, and `run_tests` skips every suite run under it, with exit code -1 and the skip message |
| TestEvaluation.SolutionSkipped | src/utils/patch_evaluator.py:32-66 | the same for the records of one solution |
| TestEvaluation.PairsSkipped | src/utils/patch_evaluator.py:32-96 | the same for the records of the test patches |
| TestEvaluation.ApplyNeverFails | src/utils/patch_evaluator.py:45-96 | when every apply reports exit code 0, as the repository's patch helper does, each solution gets exactly one existing_tests record and one test_patch_eval record per test patch, and no failure record appears |
| Pipeline.Insert | src/agent/problem_pipeline.py:58-62 | inserting into a strictly increasing list keeps it strictly increasing, and adds exactly the new element |
| Pipeline.SortedPassing | src/agent/problem_pipeline.py:58-62 | the passing list is strictly increasing and holds exactly the indices of "existing_tests" records with exit code 0 |
| Pipeline.SummaryMeaning | src/agent/problem_pipeline.py:57-72 | "some_passing" iff some suite run exited with 0; "no_passing" iff a suite ran and none passed; "no_valid" iff no suite ran; the list is empty unless some passed |
| Pipeline.Range | src/agent/problem_pipeline.py:114 | `list(range(n))` holds 0..n-1 in order |
| Pipeline.CandidateMapping | src/agent/problem_pipeline.py:108-114 | the k-th candidate is the solution at original[k]; the original indices are the passing ones, or all of them; the mapping fails iff a passing index is beyond the solution list |
| Pipeline.DecisionKeys | src/agent/problem_pipeline.py:107-122 | the decision is the selector's answer with "original_indices" and "eval_status" set and every other key kept; it fails iff the selector fails |
| Pipeline.SelectionOnEvaluatedRecords | src/agent/problem_pipeline.py:104-124 | on the evaluator's own records every passing index names a solution, so the mapping never fails |
| Pipeline.NoTestsNeverPass | src/agent/problem_pipeline.py:57-72 | with the "none" framework no solution passes, the status is never "some_passing", and the selector sees every solution |
| Pipeline.Cache.constructor | src/agent/problem_sample_pipeline.py:51-54 | the cache starts with the given files |
| Pipeline.Cache.Generate | src/agent/problem_sample_pipeline.py:51-63 | a cached value is returned without calling the generator; otherwise the generator's value is stored and returned, and a generator exception propagates with nothing stored |
| Trajectory.TrajectoryLogger.constructor | src/utils/trajectory_logger.py:9-10 | a new logger has no entries |
| Trajectory.TrajectoryLogger.Log | src/utils/trajectory_logger.py:12-32 | exactly one entry is appended, numbered after the existing ones, and earlier entries are unchanged |
| Trajectory.EntryKeys | src/utils/trajectory_logger.py:22-31 | an entry has "step" = count + 1, "type", "content" and "timestamp", plus "tool" only when a non-empty tool name was given; metadata keys are merged last and override the built-in ones |
| Trajectory.NumberingKept | src/utils/trajectory_logger.py:23-32 | appending an entry whose metadata leaves "step" alone keeps the steps numbered 1..n |
| Trajectory.Encoded | src/utils/trajectory_logger.py:38 | one encoded line per entry, in order |
| Trajectory.JsonlLines | src/utils/trajectory_logger.py:34-38 | when each entry encodes to one non-empty line, splitting the JSONL text gives back the encoded entries, and no entries give "" |
| Trajectory.TrajectoryLogger.Get | src/utils/trajectory_logger.py:46-50 | the entries are returned as they are |
| Thinking.Forward | src/tools/sequential_thinking_tool.py:45-95 | the loop computes `Answer`: the thoughts joined by "\n", with the warning when needed, or IndexError |
| Thinking.ThinkStaysDone | src/tools/sequential_thinking_tool.py:76-77 | once a response carries "FINAL ANSWER:", further rounds change nothing |
| Thinking.ThinkBounded | src/tools/sequential_thinking_tool.py:57-77 | there is one thought per model call, at most max_steps of them, and fewer only when a response carried the marker |
| Thinking.ThinkPrefix | src/tools/sequential_thinking_tool.py:57-77 | each earlier round's state is a prefix of the final thoughts, none of them finished |
| Thinking.ThoughtsAre | src/tools/sequential_thinking_tool.py:57-77 | thought k is "Step k+1: " plus the stripped response to the prompt whose scratchpad is the earlier thoughts joined by "\n"; the loop stops right after the first response with the marker |
| Thinking.ThoughtStep | src/tools/sequential_thinking_tool.py:58-77 | the same, one round at a time |
| Thinking.MarkerSurvives | src/tools/sequential_thinking_tool.py:61-79 | a thought contains the marker iff its response did, so checking `thoughts[-1]` agrees with the loop's check |
| Thinking.AnswerShape | src/tools/sequential_thinking_tool.py:55-95 | the result is an error iff max_steps <= 0; otherwise it is the thoughts joined by "\n", with the warning line added exactly when no response carried the marker |
| RepoStructure.LastDot | src/utils/repo_structure.py:53 | the index of the last "." of a name, or -1 when there is none |
| RepoStructure.SuffixMeaning | src/utils/repo_structure.py:53-57 | `Path.suffix` is empty iff the name has no dot, only a leading dot, or ends in a dot; otherwise it is the last dot and what follows it, and no other dot |
| RepoStructure.NameLeTotal | src/utils/repo_structure.py:45 | name order compares any two names |
| RepoStructure.InsertByName | src/utils/repo_structure.py:45 | insertion keeps the entries sorted by name, and adds exactly the new entry |
| RepoStructure.SortByName | src/utils/repo_structure.py:45 | the entries come out sorted by name, and they are a permutation of the directory's entries |
| RepoStructure.SortKeepsEntries | src/utils/repo_structure.py:45 | sorting neither adds nor drops an entry |
| RepoStructure.GenerateRecursive | src/utils/repo_structure.py:27-73 | the loop and the recursion compute `Walk`: the rendering joined by "\n" and the list of included files |
| RepoStructure.AddEntry | src/utils/repo_structure.py:47-67 | one round of the loop: a hidden or unlisted entry is skipped; a shown one adds its line with its connector, its file, and its subtree |
| RepoStructure.GenerateStructure | src/utils/repo_structure.py:15-22 | the rendering starts from the repository root with an empty prefix |
| RepoStructure.FilesExactly | src/utils/repo_structure.py:47-67 | the file list holds exactly the visible regular files with a listed extension, found through visible directories, each as its path from the root |
| RepoStructure.ItemsFiles | src/utils/repo_structure.py:47-67 | after k entries, the files found are exactly those the first k entries contribute |
| RepoStructure.AddedFiles | src/utils/repo_structure.py:57-67 | the files one entry adds are the files it contributes |
| RepoStructure.ItemsLines | src/utils/repo_structure.py:47-66 | every structure item is non-empty, and the structure is empty iff none of the entries is shown |
| RepoStructure.VisitLines | src/utils/repo_structure.py:53-66 | one entry keeps every item non-empty, and adds one exactly when it is shown |
| RepoStructure.WalkEmpty | src/utils/repo_structure.py:65-73 | the rendering is empty iff no entry is shown, so an empty subtree adds no line |
| RepoStructure.JoinEmpty | src/utils/repo_structure.py:73 | a join of non-empty strings is empty only when there are none |
| RepoStructure.CornerFollowsUnshownEntry | src/utils/repo_structure.py:54 | with entries "a.py" and "b.txt" and extension ".py", the only line is "├── a.py": no entry gets the corner |
| Text.ConcatSplitKeepEnds | src/utils/io_utils.py:22-42 | joining the lines `splitlines(keepends=True)` gives back the text |
| Text.SplitKeepEndsShaped | src/utils/io_utils.py:22 | every split line is non-empty, only the last may lack "\n", and none holds an inner "\n" |
| Text.SplitKeepEndsConcat | src/utils/io_utils.py:22-42 | splitting the join of such lines gives them back |
| Text.SplitLinesJoin | src/utils/trajectory_logger.py:38 | joining non-empty lines without newlines by "\n" and splitting the result gives the lines back |
| Text.NatToStringValue | src/tools/ruff_lint_tool.py:145-156 | `str(n)` is a string of digits whose value is n |
| Text.StripIsSlice | src/lang_graph/evaluate_patch_node.py:58 | `s.strip()` is the slice s[a..b] with only whitespace before a and after b; a non-empty result starts and ends with a non-space, and an empty one means s is all whitespace; whitespace is what Python's `str.isspace` accepts, Unicode spaces included |
| Text.AffixesRemoved | src/lang_graph/validate_patch_node.py:25-27 | removing a prefix and a suffix that were added gives back the middle |

## Left out

- Diff parsing: `unidiff.PatchSet` is not modelled. `DiffApply` takes the parsed hunks (source start, source length, typed lines) as input.
- Re-diffing: `difflib.unified_diff` in the patch validator and the workflow evaluator is an input function. The model proves nothing about the diff text it produces.
- Line splitting: lines are split on "\n" only. Python's `splitlines` also splits on "\r", "\x0b", "\x0c", "\x1c"-"\x1e", "\x85" and the Unicode line and paragraph separators; those are not modelled.
- Processes and tools: git, the SWE-bench harness, `ruff`, the docker helpers, the bash tool and test-framework detection run outside the process. Only their results are modelled, as inputs.
- Ruff launch failure: in the Ruff lint tool, `subprocess.run` of `ruff check` (src/tools/ruff_lint_tool.py:114-118) lies outside the `try`. A failure to start ruff, such as `FileNotFoundError`, therefore propagates out of `forward`. The model's lint function always returns a run, so that case is not modelled. The patch validator's fixer call is inside its `try`, so there a launch failure would become an ERROR result. The model's fixer also always returns a run, so that case is not modelled either.
- Unicode digits: Python's `\d` on a str pattern and `int()` accept every Unicode decimal digit (for instance `int("١٢") == 12`). `Text.IsDigit` accepts the ASCII digits only, so headers and tokens written with other decimal digits are not modelled.
- RuffLint.DigitRunIsMaximal: the run stops at the first character that is not an ASCII digit, where Python's `\d+` would go on through other Unicode decimal digits (see Unicode digits).
- Localization.ParseIntRejectsLetters: a token ending in a non-ASCII decimal digit is rejected, where Python's `int()` would accept it (see Unicode digits).
- Temporary files and working copies: the lint tool's and validator's temporary files and the clone, reset and checkout steps are not modelled. The model keeps only the results these steps feed back.
- The language model: the patch generator, the selector and the sequential thinker's model call are inputs. The agent wrappers, their prompts and their caching and file writes are not part of this model.
- Randomness: `random.uniform` temperatures in the agent's variations are not modelled.
- LangGraph runtime: the compiled graph is modelled as a loop over the current node, in which a node's returned dict is written only into the keys `PatchState` declares and undeclared keys are dropped. This reading of the library's channel semantics is an assumption, since the library is not part of this model. Its default recursion limit and the streaming interface are not modelled either. `GraphRunner.Run` takes the step budget as a parameter.
- src/workflow/patch_evaluator_detailed.py is not part of this model. Its swebench calls (`TestSpec`, `get_logs_eval`, `get_eval_report`) produce the status, log and report that `Nodes.EvaluateDetailed` takes as an input.
- Configuration and data classes: the pydantic and YAML configuration, the problem and environment models, prompt templating, the command line and dataset loading are not modelled.
- Side effects without semantics: logging, `perf_counter` timings, UTC timestamps and `uuid` run ids are not modelled. The timestamp and the run id are parameters where they reach a result.
- Tool logging: the tools call `traj_logger.log_step`, which `TrajectoryLogger` does not define. With such a logger attached, the call would raise `AttributeError` after the command has taken effect. These calls are not modelled.
- `_print_summary_diagnostics` and `_maybe_log_gold_patch_diff` only log. They are not modelled, apart from the status classification they share with `evaluate`.
- Floats: localization scores are reals, not IEEE doubles.
- Exception messages: `str(e)` texts are modelled as an exception type and message pair. Their exact wording comes from Python and the libraries and is approximated.
- Repository listing I/O: `iterdir`, `is_dir` and the read error caught and re-raised at src/utils/repo_structure.py:69-71 are not modelled. The directory tree is a value.
- Name order: `sorted` compares names by code point, as the model does. Stability for equal names cannot arise in one directory.
- `Path.suffix`: it is modelled as the text from the last dot of a name that does not start with a dot. Corner cases that differ between Python versions, such as names ending in a dot, are not modelled.
- TestEvaluation.Evaluate: `setup_repo` runs before every apply (src/utils/patch_evaluator.py:46 and 69). It raises `RuntimeError` when `git reset`, `git clean` or `git checkout` exits non-zero (src/utils/docker_utils.py:60-63). `run_command` catches only `TimeoutExpired` (src/utils/docker_utils.py:24), so a test runner that cannot be started escapes as `FileNotFoundError`. Either exception aborts `evaluate` and discards the records gathered so far. The model's lab always sets up the repository and always runs the command, so neither exception is modelled.
- TestEvaluation.TestCommand: the evaluator's constructor converts the framework with `TestFramework(...)` (src/utils/patch_evaluator.py:30). An unsupported value therefore already fails there, with the `ValueError` "'x' is not a valid TestFramework", before `get_test_command` is reached. The model starts from `get_test_command` and gives its own "Unsupported test framework" error. The constructor is not modelled.
- Editor I/O: `os.makedirs`, encoding errors and other I/O failures are not modelled. Files are text; the decoding of bytes is not modelled, and text-mode writing is taken to be POSIX's, which writes "\n" unchanged. The `os.walk` listing that `view` prints for a directory is an input.
- Editor paths: `resolve_path` is modelled as written. An absolute path is used as given, and a relative one is joined to the root and resolved by an input function (`Path.resolve`). pathlib's clean-up of an absolute path, which drops "." components, repeated slashes and a trailing slash, is not modelled.
- Editor.OnlyTargetChanges: the files are a map keyed by path strings, so two spellings of one file ("/repo/a/../b" and "/repo/b") are two keys. "Only the file at the resolved path changes" holds of the map, not of the disk underneath it.
- Editor nullable arguments: `file_text`, `old_str` and `new_str` are strings in the model. The tool's schema also allows `None`. For example, `create` with `file_text=None` creates an empty file and then answers "Error during 'create': …" from the `TypeError` of `write(None)`. These cases are not modelled.
- Editor insert argument: the model takes `insert_line` as an integer and does not model the `int()` conversion. That conversion truncates a float such as 2.5 to 2, and the insert goes ahead. A non-numeric string raises `ValueError`, answered with "Error: insert_line must be an integer". `None` or a list raises `TypeError`, which the outer handler answers as "Error during 'insert': …".
- Editor.ViewWindow: it describes only windows that lie inside the file. `Editor.EditorTool.Forward` models `view` for every range, including out-of-range ones.
- Cache round trip: the cache writes JSON and reads it back, and that encoding round trip is not modelled. `Pipeline.Cache` stores the JSON value itself.
- Pipeline variants: src/agent/problem_pipeline.py has the same summarize, select and cache rules as the sample pipeline. `Pipeline` models them once.
- Sample selection log: src/agent/problem_sample_pipeline.py:139 logs `original[choice['selected_patch_idx']]`, which raises for an index the selector made up. That logging step is not modelled.
- Trajectory.TrajectoryLogger.Get: it returns the entries as a value. The source returns the live list, and aliasing through that list is not modelled.
- JSON encoding: `json.dumps` of one entry is an input function of `Trajectory.Encoded`.
