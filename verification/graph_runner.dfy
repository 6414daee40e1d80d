/** The compiled patch graph as a transition system: START leads to
    generation, generation to validation, validation routes back to
    generation or on to evaluation, and evaluation routes to END. */
module GraphRunner {
  import opened Common
  import opened Text
  import opened PatchStates
  import opened Nodes

  /** What the nodes were built with: the patch generator, the validator
      tool, the evaluator, the problem's instance id and the configured
      retry ceiling of the evaluate node. */
  datatype Components = Components(
    generator: PatchState -> Result<string>,
    tool: string -> string,
    evaluator: string -> Result<Dict>,
    instanceId: string,
    maxRetries: int)

  /** The node about to run and the state it will receive. */
  datatype Config = Config(node: GraphState, state: PatchState)

  /** The edges: fixed ones out of START and generation, conditional ones
      out of validation and evaluation. */
  function NextNode(node: GraphState, s: PatchState): GraphState
  {
    match node
    case START => GENERATE_PATCH
    case GENERATE_PATCH => VALIDATE_PATCH
    case VALIDATE_PATCH => RouteFromValidation(s)
    case EVALUATE_PATCH => RouteFromEvaluation(s)
    case END => END
  }

  /** Run one node; the validate node is built with the default ceiling. */
  function RunNode(node: GraphState, s: PatchState, c: Components): Result<PatchState>
  {
    match node
    case GENERATE_PATCH => Generate(s, c.generator)
    case VALIDATE_PATCH => Ok(Validate(s, DefaultMaxRetries, c.tool))
    case EVALUATE_PATCH => Ok(Evaluate(s, c.maxRetries, c.instanceId, c.evaluator))
    case _ => Ok(s)
  }

  /** One superstep: run the node, keep the declared keys of what it
      returns, then follow the outgoing edge on that state. */
  function Step(cfg: Config, c: Components): Result<Config>
  {
    match RunNode(cfg.node, cfg.state, c)
    case Err(e) => Err(e)
    case Ok(s) => Ok(Config(NextNode(cfg.node, Declared(s)), Declared(s)))
  }

  /** The configuration after n node runs from the input state (of which
      only the declared keys enter the graph); END and exceptions are final. */
  function Exec(s0: PatchState, c: Components, n: nat): Result<Config>
  {
    if n == 0 then Ok(Config(NextNode(START, s0), Declared(s0)))
    else
      match Exec(s0, c, n - 1)
      case Err(e) => Err(e)
      case Ok(cfg) => if cfg.node == END then Ok(cfg) else Step(cfg, c)
  }

  /** The exception raised when the graph has not reached END within the
      recursion limit. */
  function RecursionLimit(limit: nat): Exception
  {
    Exception("GraphRecursionError", "Recursion limit of " + NatToString(limit) + " reached without hitting a stop condition.")
  }

  /** The result of invoking the compiled graph with a recursion limit. */
  function Outcome(s0: PatchState, c: Components, limit: nat): Result<PatchState>
  {
    match Exec(s0, c, limit)
    case Err(e) => Err(e)
    case Ok(cfg) => if cfg.node == END then Ok(cfg.state) else Err(RecursionLimit(limit))
  }

  lemma {:induction false} ExecKeepsError(s0: PatchState, c: Components, n: nat, m: nat)
    requires n <= m && Exec(s0, c, n).Err?
    ensures Exec(s0, c, m) == Exec(s0, c, n)
    decreases m - n
  {
    if n < m {
      ExecKeepsError(s0, c, n, m - 1);
    }
  }

  lemma {:induction false} ExecStaysAtEnd(s0: PatchState, c: Components, n: nat, m: nat)
    requires n <= m && Exec(s0, c, n).Ok? && Exec(s0, c, n).value.node == END
    ensures Exec(s0, c, m) == Exec(s0, c, n)
    decreases m - n
  {
    if n < m {
      ExecStaysAtEnd(s0, c, n, m - 1);
    }
  }

  /** An error-free run up to m was error-free at every earlier point. */
  lemma {:induction false} ExecOkBefore(s0: PatchState, c: Components, n: nat, m: nat)
    requires n <= m && Exec(s0, c, m).Ok?
    ensures Exec(s0, c, n).Ok?
  {
    if Exec(s0, c, n).Err? {
      ExecKeepsError(s0, c, n, m);
    }
  }

  /** The graph run: one node per iteration until END, an exception, or the
      recursion limit. */
  method Run(s0: PatchState, c: Components, limit: nat) returns (r: Result<PatchState>)
    ensures r == Outcome(s0, c, limit)
  {
    var cfg := Config(NextNode(START, s0), Declared(s0));
    var n := 0;
    while n < limit && cfg.node != END
      invariant n <= limit
      invariant Exec(s0, c, n) == Ok(cfg)
    {
      var s := RunNode(cfg.node, cfg.state, c);
      if s.Err? {
        assert Exec(s0, c, n + 1).Err?;
        ExecKeepsError(s0, c, n + 1, limit);
        r := Err(s.error);
        return;
      }
      var kept := Declared(s.value);
      cfg := Config(NextNode(cfg.node, kept), kept);
      n := n + 1;
    }
    if cfg.node == END {
      ExecStaysAtEnd(s0, c, n, limit);
      r := Ok(cfg.state);
    } else {
      r := Err(RecursionLimit(limit));
    }
  }

  // ---------------------------------------------------------------------
  // The shape of every run
  // ---------------------------------------------------------------------

  /** Every run starts at generation; generation is always followed by
      validation; after validation the next node is what
      route_from_validation says of the new state; evaluation is followed
      by END. */
  lemma Succession(s0: PatchState, c: Components, n: nat)
    requires Exec(s0, c, n + 1).Ok?
    ensures Exec(s0, c, 0) == Ok(Config(GENERATE_PATCH, Declared(s0)))
    ensures var before := Exec(s0, c, n).value; var after := Exec(s0, c, n + 1).value;
      && (before.node == GENERATE_PATCH ==> after.node == VALIDATE_PATCH)
      && (before.node == VALIDATE_PATCH ==> after.node == RouteFromValidation(after.state))
      && (before.node == EVALUATE_PATCH ==> after.node == END)
  {
    ExecOkBefore(s0, c, n, n + 1);
  }

  /** Only validation leads into evaluation. */
  lemma EvaluateOnlyAfterValidate(s0: PatchState, c: Components, n: nat)
    requires Exec(s0, c, n + 1).Ok? && Exec(s0, c, n + 1).value.node == EVALUATE_PATCH
    ensures Exec(s0, c, n).Ok? && Exec(s0, c, n).value.node == VALIDATE_PATCH
  {
    ExecOkBefore(s0, c, n, n + 1);
  }

  /** Only evaluation leads to END: validation never does. */
  lemma EndOnlyAfterEvaluate(s0: PatchState, c: Components, n: nat)
    requires Exec(s0, c, n + 1).Ok? && Exec(s0, c, n + 1).value.node == END
    ensures Exec(s0, c, n).Ok?
    ensures Exec(s0, c, n).value.node == END || Exec(s0, c, n).value.node == EVALUATE_PATCH
  {
    ExecOkBefore(s0, c, n, n + 1);
  }

  /** Evaluation is terminal: once it has run, the run is at END. */
  lemma {:induction false} EvaluateIsTerminal(s0: PatchState, c: Components, n: nat, m: nat)
    requires n < m && Exec(s0, c, m).Ok?
    requires Exec(s0, c, n).Ok? && Exec(s0, c, n).value.node == EVALUATE_PATCH
    ensures Exec(s0, c, m).value.node == END
  {
    ExecOkBefore(s0, c, n + 1, m);
    Succession(s0, c, n);
    ExecStaysAtEnd(s0, c, n + 1, m);
  }

  /** Evaluation runs at most once. */
  lemma EvaluateAtMostOnce(s0: PatchState, c: Components, n: nat, m: nat)
    requires n < m && Exec(s0, c, m).Ok?
    ensures !(Exec(s0, c, n).Ok? && Exec(s0, c, n).value.node == EVALUATE_PATCH
              && Exec(s0, c, m).value.node == EVALUATE_PATCH)
  {
    if Exec(s0, c, n).Ok? && Exec(s0, c, n).value.node == EVALUATE_PATCH {
      EvaluateIsTerminal(s0, c, n, m);
    }
  }

  // ---------------------------------------------------------------------
  // Counters along a run
  // ---------------------------------------------------------------------

  /** No node writes `attempts`, and every state along a run holds only the
      declared keys: the counters, log and report the nodes return are
      dropped, so no node ever sees them. */
  lemma {:induction false} Counters(s0: PatchState, c: Components, n: nat)
    requires Exec(s0, c, n).Ok?
    ensures Exec(s0, c, n).value.state.attempts == s0.attempts
    ensures Exec(s0, c, n).value.state == Declared(Exec(s0, c, n).value.state)
    ensures Exec(s0, c, n).value.state.generationAttempts.None?
    ensures Exec(s0, c, n).value.state.evaluationAttempts.None?
    ensures Exec(s0, c, n).value.state.evaluationLog.None?
    ensures Exec(s0, c, n).value.state.evaluationReport.None?
  {
    if n > 0 {
      ExecOkBefore(s0, c, n - 1, n);
      Counters(s0, c, n - 1);
    }
  }

  /** Since `evaluation_attempts` never reaches the evaluate node, its counter
      is 1 on every call: the evaluation passes exactly when the evaluator
      resolves the instance, unless the configured ceiling is below 1. */
  lemma EvaluationCeilingInert(s0: PatchState, c: Components, n: nat)
    requires Exec(s0, c, n).Ok? && Exec(s0, c, n).value.node == EVALUATE_PATCH
    ensures var s := Exec(s0, c, n).value.state;
      var outcome := EvaluationOutcome(s, c.instanceId, c.evaluator);
      && Evaluate(s, c.maxRetries, c.instanceId, c.evaluator).evaluationAttempts == Some(1)
      && ((Evaluate(s, c.maxRetries, c.instanceId, c.evaluator).evaluationResult == Some(PASSED))
          <==> (1 <= c.maxRetries && outcome.Ok? && outcome.value.0))
  {
    var s := Exec(s0, c, n).value.state;
    Counters(s0, c, n);
    EvaluatePassedIff(s, c.maxRetries, c.instanceId, c.evaluator);
  }

  /** A run that reaches END has evaluated: its final state was written by
      the evaluate node. */
  lemma {:induction false} FinishedRunEvaluated(s0: PatchState, c: Components, n: nat)
    requires Exec(s0, c, n).Ok? && Exec(s0, c, n).value.node == END
    ensures n > 0
    ensures Exec(s0, c, n).value.state.graphState == Some(EVALUATE_PATCH)
    ensures Exec(s0, c, n).value.state.evaluationResult.Some?
  {
    if n > 0 {
      EndOnlyAfterEvaluate(s0, c, n - 1);
      if Exec(s0, c, n - 1).value.node == END {
        FinishedRunEvaluated(s0, c, n - 1);
      }
    }
  }

  /** The result of a run that returns normally is a state the evaluate
      node wrote. */
  lemma OutcomeEvaluated(s0: PatchState, c: Components, limit: nat)
    requires Outcome(s0, c, limit).Ok?
    ensures Outcome(s0, c, limit).value.graphState == Some(EVALUATE_PATCH)
    ensures Outcome(s0, c, limit).value.evaluationResult.Some?
  {
    FinishedRunEvaluated(s0, c, limit);
  }

  // ---------------------------------------------------------------------
  // No bound on the generate/validate loop
  // ---------------------------------------------------------------------

  /** The validator never reports PASSED: the `attempts` key is already at
      the ceiling (and no node ever changes it), or the tool's answers never
      carry the PASSED marker. */
  ghost predicate NeverPasses(s0: PatchState, c: Components)
  {
    IntOr(s0.attempts, 0) >= DefaultMaxRetries || forall p :: !(PassedMarker <= c.tool(p))
  }

  /** With a generator that always answers and a validator that never
      passes, the run alternates between generation and validation forever. */
  lemma {:induction false} LoopsForever(s0: PatchState, c: Components, n: nat)
    requires NeverPasses(s0, c)
    requires forall s :: c.generator(s).Ok?
    ensures Exec(s0, c, n).Ok?
    ensures Exec(s0, c, n).value.node == GENERATE_PATCH || Exec(s0, c, n).value.node == VALIDATE_PATCH
    ensures Exec(s0, c, n).value.state.attempts == s0.attempts
  {
    if n > 0 {
      LoopsForever(s0, c, n - 1);
      var cfg := Exec(s0, c, n - 1).value;
      if cfg.node == VALIDATE_PATCH {
        var s := Validate(cfg.state, DefaultMaxRetries, c.tool);
        if IntOr(cfg.state.attempts, 0) < DefaultMaxRetries {
          assert !(PassedMarker <= c.tool(StrOr(cfg.state.patch, "")));
        }
        assert s.validationResult == Some(ERROR);
      } else {
        assert c.generator(cfg.state).Ok?;
      }
    }
  }

  /** ... so every recursion limit is exhausted. */
  lemma NeverReachesEnd(s0: PatchState, c: Components, limit: nat)
    requires NeverPasses(s0, c)
    requires forall s :: c.generator(s).Ok?
    ensures Outcome(s0, c, limit) == Err(RecursionLimit(limit))
  {
    LoopsForever(s0, c, limit);
  }
}
