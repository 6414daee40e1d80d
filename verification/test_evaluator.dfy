/** The candidate evaluator: every solution patch is applied to a freshly
    reset repository and the existing suite is run; then, for every test
    patch, the repository is reset, the solution re-applied, the test patch
    applied and the suite run again. Git and the test runner are inputs: the
    output and exit code of each external call is given, indexed by the
    call it answers. */
module TestEvaluation {
  import opened Common

  // ---------------------------------------------------------------------
  // The test command
  // ---------------------------------------------------------------------

  const SkippedOutput := "[SKIPPED] No test command specified"

  /** get_test_command on the framework's value. The evaluator's
      constructor has already converted the value with TestFramework(...),
      which raises its own ValueError ("'x' is not a valid TestFramework")
      for an unsupported one; this Err is the one get_test_command itself
      would raise, and the constructor is not part of this model. */
  function TestCommand(framework: string): (r: Result<string>)
    ensures r.Ok? <==> framework in {"pytest", "unittest", "tox", "none"}
    ensures r.Ok? ==> (r.value == "" <==> framework == "none")
    ensures r.Err? ==> r.error.typeName == "ValueError"
  {
    if framework == "pytest" then Ok("pytest -q")
    else if framework == "unittest" then Ok("python -m unittest discover")
    else if framework == "tox" then Ok("tox -e test")
    else if framework == "none" then Ok("")
    else Err(Exception("ValueError", "Unsupported test framework: " + framework))
  }

  // ---------------------------------------------------------------------
  // Records and the outside world
  // ---------------------------------------------------------------------

  /** The "type" field of a record. */
  datatype Kind = ApplyPatchFailed | ExistingTests | ApplySolutionFailed | ApplyTestFailed | TestPatchEval
  {
    function Name(): string
    {
      match this
      case ApplyPatchFailed => "apply_patch_failed"
      case ExistingTests => "existing_tests"
      case ApplySolutionFailed => "apply_solution_failed"
      case ApplyTestFailed => "apply_test_failed"
      case TestPatchEval => "test_patch_eval"
    }
  }

  /** One result record; exit_code and output are absent where the
      evaluator does not write them. */
  datatype Record = Record(solutionIdx: nat, testIdx: Option<nat>, kind: Kind,
                           exitCode: Option<int>, output: Option<string>)

  /** The external calls the evaluator makes, each after a reset. */
  datatype Call =
    | FirstApply(solution: nat)                // the solution on its own
    | Reapply(solution: nat, test: nat)        // the solution again, before test patch `test`
    | ApplyTest(solution: nat, test: nat)      // test patch `test` on top of the solution
    | RunSuite(solution: nat)                  // the suite after FirstApply
    | RunTest(solution: nat, test: nat)        // the suite after ApplyTest

  /** What git and the test runner answer: (output, exit code) for a call
      with the patch or command it was given. */
  datatype Lab = Lab(apply: (Call, string) -> (string, int), run: (Call, string) -> (string, int))

  /** run_tests: an empty command is skipped with exit code -1. */
  function RunTests(cmd: string, call: Call, lab: Lab): (string, int)
  {
    if cmd == "" then (SkippedOutput, -1) else lab.run(call, cmd)
  }

  // ---------------------------------------------------------------------
  // The records the evaluator produces
  // ---------------------------------------------------------------------

  /** The record for solution i paired with test patch j. */
  function PairRecord(i: nat, j: nat, solution: string, test: string, cmd: string, lab: Lab): Record
  {
    if lab.apply(Reapply(i, j), solution).1 != 0 then Record(i, Some(j), ApplySolutionFailed, None, None)
    else if lab.apply(ApplyTest(i, j), test).1 != 0 then Record(i, Some(j), ApplyTestFailed, None, None)
    else
      var run := RunTests(cmd, RunTest(i, j), lab);
      Record(i, Some(j), TestPatchEval, Some(run.1), Some(run.0))
  }

  /** The records for solution i and the first n test patches. */
  function PairRecords(i: nat, solution: string, tests: seq<string>, n: nat, cmd: string, lab: Lab): seq<Record>
    requires n <= |tests|
  {
    if n == 0 then [] else PairRecords(i, solution, tests, n - 1, cmd, lab) + [PairRecord(i, n - 1, solution, tests[n - 1], cmd, lab)]
  }

  /** The records for solution i. */
  function SolutionRecords(i: nat, solution: string, tests: seq<string>, cmd: string, lab: Lab): seq<Record>
  {
    var (out, code) := lab.apply(FirstApply(i), solution);
    if code != 0 then [Record(i, None, ApplyPatchFailed, None, Some(out))]
    else
      var (testOut, testCode) := RunTests(cmd, RunSuite(i), lab);
      [Record(i, None, ExistingTests, Some(testCode), Some(testOut))] + PairRecords(i, solution, tests, |tests|, cmd, lab)
  }

  /** The records for the first n solutions. */
  function Records(solutions: seq<string>, tests: seq<string>, n: nat, cmd: string, lab: Lab): seq<Record>
    requires n <= |solutions|
  {
    if n == 0 then [] else Records(solutions, tests, n - 1, cmd, lab) + SolutionRecords(n - 1, solutions[n - 1], tests, cmd, lab)
  }

  /** PatchEvaluator.evaluate, with the test command from the framework. */
  method Evaluate(framework: string, solutions: seq<string>, tests: seq<string>, lab: Lab)
    returns (r: Result<seq<Record>>)
    ensures TestCommand(framework).Err? ==> r == Err(TestCommand(framework).error)
    ensures TestCommand(framework).Ok? ==> r == Ok(Records(solutions, tests, |solutions|, TestCommand(framework).value, lab))
  {
    var command := TestCommand(framework);
    if command.Err? {
      return Err(command.error);
    }
    var cmd := command.value;
    var results: seq<Record> := [];
    for i := 0 to |solutions|
      invariant results == Records(solutions, tests, i, cmd, lab)
    {
      var solution := solutions[i];
      var (patchOut, patchCode) := lab.apply(FirstApply(i), solution);
      if patchCode != 0 {
        results := results + [Record(i, None, ApplyPatchFailed, None, Some(patchOut))];
      } else {
        var (testOut, testCode) := RunTests(cmd, RunSuite(i), lab);
        var head := results + [Record(i, None, ExistingTests, Some(testCode), Some(testOut))];
        results := head;
        for j := 0 to |tests|
          invariant results == head + PairRecords(i, solution, tests, j, cmd, lab)
        {
          var test := tests[j];
          var code1 := lab.apply(Reapply(i, j), solution).1;
          if code1 != 0 {
            results := results + [Record(i, Some(j), ApplySolutionFailed, None, None)];
          } else {
            var code2 := lab.apply(ApplyTest(i, j), test).1;
            if code2 != 0 {
              results := results + [Record(i, Some(j), ApplyTestFailed, None, None)];
            } else {
              var (out, code) := RunTests(cmd, RunTest(i, j), lab);
              results := results + [Record(i, Some(j), TestPatchEval, Some(code), Some(out))];
            }
          }
        }
      }
    }
    r := Ok(results);
  }

  // ---------------------------------------------------------------------
  // Properties
  // ---------------------------------------------------------------------

  /** Only records of the existing suite and of a test run carry an exit code. */
  predicate WellFormed(rec: Record)
  {
    rec.exitCode.Some? <==> rec.kind in {ExistingTests, TestPatchEval}
  }

  /** The records for one solution: a failed apply gives one
      apply_patch_failed record; otherwise an existing_tests record followed
      by one record per test patch, in order, none of them
      apply_patch_failed or existing_tests. */
  lemma SolutionRecordsShape(i: nat, solution: string, tests: seq<string>, cmd: string, lab: Lab)
    ensures var rs := SolutionRecords(i, solution, tests, cmd, lab);
      && (lab.apply(FirstApply(i), solution).1 != 0 ==>
            rs == [Record(i, None, ApplyPatchFailed, None, Some(lab.apply(FirstApply(i), solution).0))])
      && (lab.apply(FirstApply(i), solution).1 == 0 ==>
            && |rs| == 1 + |tests|
            && rs[0].kind == ExistingTests && rs[0].testIdx == None
            && forall j :: 0 <= j < |tests| ==>
                 rs[j + 1].testIdx == Some(j) && rs[j + 1].kind in {ApplySolutionFailed, ApplyTestFailed, TestPatchEval})
  {
    PairRecordsShape(i, solution, tests, |tests|, cmd, lab);
  }

  /** Every record produced for solution i carries index i and is well formed. */
  lemma SolutionRecordsAbout(i: nat, solution: string, tests: seq<string>, cmd: string, lab: Lab)
    ensures forall rec :: rec in SolutionRecords(i, solution, tests, cmd, lab) ==> rec.solutionIdx == i && WellFormed(rec)
  {
    PairRecordsShape(i, solution, tests, |tests|, cmd, lab);
  }

  lemma {:induction false} PairRecordsShape(i: nat, solution: string, tests: seq<string>, n: nat, cmd: string, lab: Lab)
    requires n <= |tests|
    ensures var rs := PairRecords(i, solution, tests, n, cmd, lab);
      && |rs| == n
      && forall j :: 0 <= j < n ==>
           && rs[j].solutionIdx == i && rs[j].testIdx == Some(j) && WellFormed(rs[j])
           && rs[j].kind in {ApplySolutionFailed, ApplyTestFailed, TestPatchEval}
  {
    if n > 0 {
      PairRecordsShape(i, solution, tests, n - 1, cmd, lab);
    }
  }

  /** Records are grouped by solution index, in increasing order. */
  lemma {:induction false} RecordsGrouped(solutions: seq<string>, tests: seq<string>, n: nat, cmd: string, lab: Lab)
    requires n <= |solutions|
    ensures forall rec :: rec in Records(solutions, tests, n, cmd, lab) ==> rec.solutionIdx < n && WellFormed(rec)
    ensures Grouped(Records(solutions, tests, n, cmd, lab))
  {
    if n > 0 {
      RecordsGrouped(solutions, tests, n - 1, cmd, lab);
      SolutionRecordsAbout(n - 1, solutions[n - 1], tests, cmd, lab);
      GroupedAppend(Records(solutions, tests, n - 1, cmd, lab), SolutionRecords(n - 1, solutions[n - 1], tests, cmd, lab), n - 1);
    }
  }

  predicate AllAbout(rs: seq<Record>, m: nat)
  {
    forall rec :: rec in rs ==> rec.solutionIdx == m
  }

  predicate AllBelow(rs: seq<Record>, m: nat)
  {
    forall rec :: rec in rs ==> rec.solutionIdx < m
  }

  /** The records of one solution are about that solution only. */
  lemma SolutionIdx(i: nat, solution: string, tests: seq<string>, cmd: string, lab: Lab)
    ensures AllAbout(SolutionRecords(i, solution, tests, cmd, lab), i)
  {
    SolutionRecordsAbout(i, solution, tests, cmd, lab);
  }

  /** The records of the first n solutions are about those solutions only. */
  lemma RecordsBelow(solutions: seq<string>, tests: seq<string>, n: nat, cmd: string, lab: Lab)
    requires n <= |solutions|
    ensures AllBelow(Records(solutions, tests, n, cmd, lab), n)
  {
    RecordsGrouped(solutions, tests, n, cmd, lab);
  }

  lemma GroupedAppend(front: seq<Record>, back: seq<Record>, m: nat)
    requires Grouped(front)
    requires forall rec :: rec in front ==> rec.solutionIdx < m && WellFormed(rec)
    requires forall rec :: rec in back ==> rec.solutionIdx == m && WellFormed(rec)
    ensures Grouped(front + back)
    ensures forall rec :: rec in front + back ==> rec.solutionIdx <= m && WellFormed(rec)
  {
    var rs := front + back;
    forall k, l | 0 <= k < l < |rs|
      ensures rs[k].solutionIdx <= rs[l].solutionIdx
    {
      if l < |front| {
        assert rs[k] == front[k] && rs[l] == front[l];
      } else if k < |front| {
        assert rs[k] == front[k] && rs[k] in front;
        assert rs[l] == back[l - |front|] && rs[l] in back;
      } else {
        assert rs[k] == back[k - |front|] && rs[k] in back;
        assert rs[l] == back[l - |front|] && rs[l] in back;
      }
    }
  }

  /** Solution indices never decrease along the list. */
  predicate Grouped(rs: seq<Record>)
  {
    forall k, l :: 0 <= k < l < |rs| ==> rs[k].solutionIdx <= rs[l].solutionIdx
  }

  /** The records about solution i. */
  function ForSolution(rs: seq<Record>, i: nat): seq<Record>
  {
    if rs == [] then []
    else if rs[|rs| - 1].solutionIdx == i then ForSolution(rs[..|rs| - 1], i) + [rs[|rs| - 1]]
    else ForSolution(rs[..|rs| - 1], i)
  }

  lemma {:induction false} ForSolutionAppend(a: seq<Record>, b: seq<Record>, i: nat)
    ensures ForSolution(a + b, i) == ForSolution(a, i) + ForSolution(b, i)
    decreases |b|
  {
    if b == [] {
      assert a + b == a;
    } else {
      assert (a + b)[..|a + b| - 1] == a + b[..|b| - 1];
      ForSolutionAppend(a, b[..|b| - 1], i);
    }
  }

  lemma {:induction false} ForSolutionAll(rs: seq<Record>, i: nat)
    requires forall rec :: rec in rs ==> rec.solutionIdx == i
    ensures ForSolution(rs, i) == rs
  {
    if rs != [] {
      assert forall rec :: rec in rs[..|rs| - 1] ==> rec in rs;
      ForSolutionAll(rs[..|rs| - 1], i);
    }
  }

  lemma {:induction false} ForSolutionNone(rs: seq<Record>, i: nat)
    requires forall rec :: rec in rs ==> rec.solutionIdx != i
    ensures ForSolution(rs, i) == []
  {
    if rs != [] {
      assert forall rec :: rec in rs[..|rs| - 1] ==> rec in rs;
      ForSolutionNone(rs[..|rs| - 1], i);
    }
  }

  lemma ForSolutionLast(front: seq<Record>, back: seq<Record>, i: nat)
    requires forall rec :: rec in front ==> rec.solutionIdx != i
    requires forall rec :: rec in back ==> rec.solutionIdx == i
    ensures ForSolution(front + back, i) == back
  {
    ForSolutionAppend(front, back, i);
    ForSolutionNone(front, i);
    ForSolutionAll(back, i);
  }

  lemma ForSolutionSkip(front: seq<Record>, back: seq<Record>, i: nat)
    requires forall rec :: rec in back ==> rec.solutionIdx != i
    ensures ForSolution(front + back, i) == ForSolution(front, i)
  {
    ForSolutionAppend(front, back, i);
    ForSolutionNone(back, i);
  }

  /** Picking the records of one solution out of the whole list gives exactly
      what that solution produced: an apply failure yields nothing further
      for it. */
  lemma {:induction false} RecordsOfSolution(solutions: seq<string>, tests: seq<string>, n: nat, i: nat, cmd: string, lab: Lab)
    requires i < n <= |solutions|
    ensures ForSolution(Records(solutions, tests, n, cmd, lab), i) == SolutionRecords(i, solutions[i], tests, cmd, lab)
  {
    RecordsSplit(solutions, tests, n, i, cmd, lab);
    if i < n - 1 {
      RecordsOfSolution(solutions, tests, n - 1, i, cmd, lab);
      assert ForSolution(Records(solutions, tests, n, cmd, lab), i) == SolutionRecords(i, solutions[i], tests, cmd, lab);
    } else {
      assert i == n - 1;
      assert ForSolution(Records(solutions, tests, n, cmd, lab), i) == SolutionRecords(i, solutions[i], tests, cmd, lab);
    }
  }

  /** One step of RecordsOfSolution: the records of the first n solutions
      are those of the first n - 1 followed by solution n - 1's. */
  lemma RecordsSplit(solutions: seq<string>, tests: seq<string>, n: nat, i: nat, cmd: string, lab: Lab)
    requires i < n <= |solutions|
    ensures i == n - 1 ==>
      ForSolution(Records(solutions, tests, n, cmd, lab), i) == SolutionRecords(n - 1, solutions[n - 1], tests, cmd, lab)
    ensures i < n - 1 ==>
      ForSolution(Records(solutions, tests, n, cmd, lab), i) == ForSolution(Records(solutions, tests, n - 1, cmd, lab), i)
  {
    var all := Records(solutions, tests, n, cmd, lab);
    var front := Records(solutions, tests, n - 1, cmd, lab);
    var back := SolutionRecords(n - 1, solutions[n - 1], tests, cmd, lab);
    assert all == front + back;
    RecordsBelow(solutions, tests, n - 1, cmd, lab);
    SolutionIdx(n - 1, solutions[n - 1], tests, cmd, lab);
    PickLast(all, front, back, i, n - 1);
  }

  /** The records of i in front + back, when back is all about m and front
      only about smaller indices. */
  lemma PickLast(all: seq<Record>, front: seq<Record>, back: seq<Record>, i: nat, m: nat)
    requires all == front + back && i <= m
    requires AllBelow(front, m) && AllAbout(back, m)
    ensures i == m ==> ForSolution(all, i) == back
    ensures i < m ==> ForSolution(all, i) == ForSolution(front, i)
  {
    if i == m {
      ForSolutionLast(front, back, i);
    } else {
      ForSolutionSkip(front, back, i);
    }
  }

  /** Every suite run among rs was skipped: exit code -1 and the skip
      message. */
  predicate AllSkipped(rs: seq<Record>)
  {
    forall rec :: rec in rs ==> Skipped(rec)
  }

  /** A suite-run record shows the skip; other records run no suite. */
  predicate Skipped(rec: Record)
  {
    rec.kind in {ExistingTests, TestPatchEval} ==> rec.exitCode == Some(-1) && rec.output == Some(SkippedOutput)
  }

  lemma SkippedAppend(a: seq<Record>, b: seq<Record>)
    requires AllSkipped(a) && AllSkipped(b)
    ensures AllSkipped(a + b)
  {
  }

  /** With no test command every suite run is skipped: each existing_tests
      and test_patch_eval record has exit code -1 and the skip message. */
  lemma {:induction false} NoTestsSkipAll(solutions: seq<string>, tests: seq<string>, n: nat, lab: Lab)
    requires n <= |solutions|
    ensures AllSkipped(Records(solutions, tests, n, "", lab))
  {
    if n > 0 {
      var front := Records(solutions, tests, n - 1, "", lab);
      var back := SolutionRecords(n - 1, solutions[n - 1], tests, "", lab);
      assert Records(solutions, tests, n, "", lab) == front + back;
      NoTestsSkipAll(solutions, tests, n - 1, lab);
      SolutionSkipped(n - 1, solutions[n - 1], tests, lab);
      SkippedAppend(front, back);
    }
  }

  lemma SolutionSkipped(i: nat, solution: string, tests: seq<string>, lab: Lab)
    ensures AllSkipped(SolutionRecords(i, solution, tests, "", lab))
  {
    PairsSkipped(i, solution, tests, |tests|, lab);
  }

  lemma {:induction false} PairsSkipped(i: nat, solution: string, tests: seq<string>, n: nat, lab: Lab)
    requires n <= |tests|
    ensures AllSkipped(PairRecords(i, solution, tests, n, "", lab))
  {
    if n > 0 {
      PairsSkipped(i, solution, tests, n - 1, lab);
      SkippedAppend(PairRecords(i, solution, tests, n - 1, "", lab), [PairRecord(i, n - 1, solution, tests[n - 1], "", lab)]);
    }
  }

  /** The repository's patch helper reports exit code 0 whatever `patch`
      did. */
  ghost predicate ApplyExitsZero(lab: Lab)
  {
    forall call, patch :: lab.apply(call, patch).1 == 0
  }

  /** With that helper no apply step is ever seen to fail: every solution
      gets its existing_tests record and one test_patch_eval record per
      test patch, and the three failure kinds never occur. */
  lemma {:induction false} ApplyNeverFails(solutions: seq<string>, tests: seq<string>, n: nat, cmd: string, lab: Lab)
    requires n <= |solutions| && ApplyExitsZero(lab)
    ensures |Records(solutions, tests, n, cmd, lab)| == n * (1 + |tests|)
    ensures forall rec :: rec in Records(solutions, tests, n, cmd, lab) ==> rec.kind in {ExistingTests, TestPatchEval}
  {
    if n > 0 {
      var front := Records(solutions, tests, n - 1, cmd, lab);
      var back := SolutionRecords(n - 1, solutions[n - 1], tests, cmd, lab);
      ApplyNeverFails(solutions, tests, n - 1, cmd, lab);
      PairsRun(n - 1, solutions[n - 1], tests, |tests|, cmd, lab);
      assert lab.apply(FirstApply(n - 1), solutions[n - 1]).1 == 0;
      assert |back| == 1 + |tests| && forall rec :: rec in back ==> rec.kind in {ExistingTests, TestPatchEval};
      assert Records(solutions, tests, n, cmd, lab) == front + back;
      assert (n - 1) * (1 + |tests|) + (1 + |tests|) == n * (1 + |tests|);
    }
  }

  lemma {:induction false} PairsRun(i: nat, solution: string, tests: seq<string>, n: nat, cmd: string, lab: Lab)
    requires n <= |tests| && ApplyExitsZero(lab)
    ensures |PairRecords(i, solution, tests, n, cmd, lab)| == n
    ensures forall rec :: rec in PairRecords(i, solution, tests, n, cmd, lab) ==> rec.kind == TestPatchEval
  {
    if n > 0 {
      PairsRun(i, solution, tests, n - 1, cmd, lab);
      assert lab.apply(Reapply(i, n - 1), solution).1 == 0;
      assert lab.apply(ApplyTest(i, n - 1), tests[n - 1]).1 == 0;
    }
  }
}
