/** The record that flows through the patch graph, and the enumerations
    its control fields take values from. */
module PatchStates {
  import opened Common

  /** RESULT: the outcome labels the nodes write. */
  datatype Verdict = ERROR | PASSED | INIT
  {
    function Name(): string
    {
      match this
      case ERROR => "ERROR"
      case PASSED => "PASSED"
      case INIT => "INIT"
    }
  }

  /** GRAPH_STATE: the graph's nodes, START and END included. */
  datatype GraphState = START | GENERATE_PATCH | VALIDATE_PATCH | EVALUATE_PATCH | END
  {
    function Name(): string
    {
      match this
      case START => "start"
      case GENERATE_PATCH => "generate_patch"
      case VALIDATE_PATCH => "validate_patch"
      case EVALUATE_PATCH => "evaluate_patch"
      case END => "end"
    }
  }

  /** PatchState: a dictionary in which every key may be absent (None),
      with the keys the nodes write beyond the declared ones. */
  datatype PatchState = PatchState(
    graphState: Option<GraphState>,
    patch: Option<string>,
    validationResult: Option<Verdict>,
    validationErrMsg: Option<string>,
    evaluationResult: Option<Verdict>,
    evaluationErrMsg: Option<string>,
    attempts: Option<int>,
    generationAttempts: Option<int>,
    evaluationAttempts: Option<int>,
    evaluationLog: Option<string>,
    evaluationReport: Option<Json>,
    lintResult: Option<Json>)

  /** What the compiled graph keeps of a state: the keys PatchState
      declares. A node's update is written key by key into the declared
      channels only, so the counters, the evaluation log and report and the
      lint result a node returns never reach the next node or the caller. */
  function Declared(s: PatchState): PatchState
  {
    s.(generationAttempts := None, evaluationAttempts := None, evaluationLog := None,
       evaluationReport := None, lintResult := None)
  }

  /** state.get(key, default) for an integer-valued key. */
  function IntOr(v: Option<int>, default: int): int
  {
    if v.Some? then v.value else default
  }

  /** state.get(key, default) for a string-valued key. */
  function StrOr(v: Option<string>, default: string): string
  {
    if v.Some? then v.value else default
  }

  /** The state the graph starts from when the caller passes an empty dict. */
  const EmptyState := PatchState(None, None, None, None, None, None, None, None, None, None, None, None)
}
