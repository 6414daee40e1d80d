/** The problem pipelines' bookkeeping around the candidates: which
    solutions passed the existing suite, which candidates the selector sees
    and how its choice maps back to the original solution list, and the
    file cache every stage goes through. Both pipeline variants share these
    rules; the selector model and the cache files are inputs. */
module Pipeline {
  import opened Common
  import opened TestEvaluation

  // ---------------------------------------------------------------------
  // summarize_eval_results
  // ---------------------------------------------------------------------

  /** A record of the existing suite that exited with 0. */
  predicate Passes(rec: Record)
  {
    rec.kind == ExistingTests && rec.exitCode == Some(0)
  }

  /** The set comprehension over the records. */
  function PassingSet(rs: seq<Record>): set<nat>
  {
    set rec | rec in rs && Passes(rec) :: rec.solutionIdx
  }

  predicate StrictlyIncreasing(xs: seq<nat>)
  {
    forall k, l :: 0 <= k < l < |xs| ==> xs[k] < xs[l]
  }

  /** x put into its place in a strictly increasing list, unless present. */
  function Insert(xs: seq<nat>, x: nat): (r: seq<nat>)
    requires StrictlyIncreasing(xs)
    ensures StrictlyIncreasing(r)
    ensures forall y :: y in r <==> y in xs || y == x
  {
    if xs == [] then [x]
    else if x < xs[0] then [x] + xs
    else if x == xs[0] then xs
    else
      var rest := Insert(xs[1..], x);
      assert forall l :: 0 <= l < |rest| ==> xs[0] < rest[l] by {
        forall l | 0 <= l < |rest|
          ensures xs[0] < rest[l]
        {
          assert rest[l] in rest;
          if rest[l] != x {
            var m :| 0 <= m < |xs[1..]| && xs[1..][m] == rest[l];
            assert xs[0] < xs[m + 1];
          }
        }
      }
      [xs[0]] + rest
  }

  /** sorted({r["solution_idx"] for r in results if it passed}). */
  function SortedPassing(rs: seq<Record>): (r: seq<nat>)
    ensures StrictlyIncreasing(r)
    ensures forall x :: x in r <==> x in PassingSet(rs)
  {
    if rs == [] then []
    else
      var front := rs[..|rs| - 1];
      var last := rs[|rs| - 1];
      assert rs == front + [last];
      if Passes(last) then Insert(SortedPassing(front), last.solutionIdx) else SortedPassing(front)
  }

  /** Some existing suite ran: the evaluator got past applying a solution. */
  predicate SuiteRan(rs: seq<Record>)
  {
    exists rec :: rec in rs && rec.kind == ExistingTests
  }

  /** summarize_eval_results: the passing solutions and the status label. */
  function Summarize(rs: seq<Record>): (seq<nat>, string)
  {
    var passing := SortedPassing(rs);
    if passing == [] then
      if SuiteRan(rs) then ([], "no_passing") else ([], "no_valid")
    else (passing, "some_passing")
  }

  /** The three statuses, each with its meaning; the list is the sorted,
      duplicate-free set of passing solutions. */
  lemma SummaryMeaning(rs: seq<Record>)
    ensures var (passing, status) := Summarize(rs);
      && StrictlyIncreasing(passing)
      && (forall x :: x in passing <==> exists rec :: rec in rs && Passes(rec) && rec.solutionIdx == x)
      && (status == "some_passing" <==> exists rec :: rec in rs && Passes(rec))
      && (status == "no_passing" <==> SuiteRan(rs) && forall rec :: rec in rs ==> !Passes(rec))
      && (status == "no_valid" <==> !SuiteRan(rs))
      && (status != "some_passing" ==> passing == [])
  {
    var passing := SortedPassing(rs);
    if passing != [] {
      assert passing[0] in PassingSet(rs);
    }
    if rec :| rec in rs && Passes(rec) {
      assert rec.solutionIdx in PassingSet(rs);
      assert passing != [];
    }
    assert "no_passing" != "no_valid" && "some_passing" != "no_valid" && "some_passing" != "no_passing" by {
      assert "no_passing"[3] != "no_valid"[3];
    }
  }

  // ---------------------------------------------------------------------
  // select
  // ---------------------------------------------------------------------

  /** 0 .. n-1 */
  function Range(n: nat): (r: seq<nat>)
    ensures |r| == n && forall k :: 0 <= k < n ==> r[k] == k
  {
    if n == 0 then [] else Range(n - 1) + [n - 1]
  }

  const IndexError := Exception("IndexError", "list index out of range")

  /** The candidates handed to the selector and, position by position, the
      original index of each: the passing solutions if there are any, all
      of them otherwise. */
  function Candidates(solutions: seq<string>, passing: seq<nat>): Result<(seq<string>, seq<nat>)>
  {
    if passing != [] then
      if forall k :: 0 <= k < |passing| ==> passing[k] < |solutions| then
        Ok((seq(|passing|, k requires 0 <= k < |passing| => solutions[passing[k]]), passing))
      else Err(IndexError)
    else Ok((solutions, Range(|solutions|)))
  }

  /** filtered[k] == solution_patches[original[k]] for every k; the mapping
      fails only on a passing index beyond the solution list. */
  lemma CandidateMapping(solutions: seq<string>, passing: seq<nat>)
    ensures Candidates(solutions, passing).Err? <==> exists k :: 0 <= k < |passing| && passing[k] >= |solutions|
    ensures Candidates(solutions, passing).Ok? ==>
      var (filtered, original) := Candidates(solutions, passing).value;
      && |filtered| == |original|
      && (forall k :: 0 <= k < |original| ==> original[k] < |solutions| && filtered[k] == solutions[original[k]])
      && original == (if passing != [] then passing else Range(|solutions|))
  {
  }

  function IntList(xs: seq<nat>): seq<Json>
  {
    seq(|xs|, k requires 0 <= k < |xs| => JInt(xs[k]))
  }

  /** The inner _run of select: the selector's choice with the original
      indices and the status added. */
  function Decide(solutions: seq<string>, results: seq<Record>, selector: seq<string> -> Result<Dict>): Result<Dict>
  {
    var (passing, status) := Summarize(results);
    match Candidates(solutions, passing)
    case Err(e) => Err(e)
    case Ok((filtered, original)) =>
      match selector(filtered)
      case Err(e) => Err(e)
      case Ok(choice) => Ok(choice["original_indices" := JList(IntList(original))]["eval_status" := JStr(status)])
  }

  /** The decision is the selector's answer on the candidates, with
      original_indices and eval_status set and every other key kept. */
  lemma DecisionKeys(solutions: seq<string>, results: seq<Record>, selector: seq<string> -> Result<Dict>)
    requires Candidates(solutions, Summarize(results).0).Ok?
    ensures var (filtered, original) := Candidates(solutions, Summarize(results).0).value;
      && (Decide(solutions, results, selector).Err? <==> selector(filtered).Err?)
      && (Decide(solutions, results, selector).Ok? ==>
            var d := Decide(solutions, results, selector).value;
            && d["original_indices"] == JList(IntList(original))
            && d["eval_status"] == JStr(Summarize(results).1)
            && forall key :: key in selector(filtered).value && key != "original_indices" && key != "eval_status" ==>
                 key in d && d[key] == selector(filtered).value[key])
  {
  }

  /** On the evaluator's own records every passing index names a solution,
      so selection never fails on the mapping, and the k-th candidate the
      selector sees is solution original[k]. */
  lemma SelectionOnEvaluatedRecords(framework: string, solutions: seq<string>, tests: seq<string>, lab: Lab)
    requires TestCommand(framework).Ok?
    ensures var rs := Records(solutions, tests, |solutions|, TestCommand(framework).value, lab);
      && Candidates(solutions, Summarize(rs).0).Ok?
      && var (filtered, original) := Candidates(solutions, Summarize(rs).0).value;
         forall k :: 0 <= k < |original| ==> original[k] < |solutions| && filtered[k] == solutions[original[k]]
  {
    var rs := Records(solutions, tests, |solutions|, TestCommand(framework).value, lab);
    RecordsGrouped(solutions, tests, |solutions|, TestCommand(framework).value, lab);
    var passing := Summarize(rs).0;
    forall k | 0 <= k < |passing|
      ensures passing[k] < |solutions|
    {
      assert passing[k] in PassingSet(rs);
    }
    CandidateMapping(solutions, passing);
  }

  /** With the "none" framework no suite really runs, so no solution ever
      passes: the status is never "some_passing" and the selector always
      sees every solution. */
  lemma NoTestsNeverPass(solutions: seq<string>, tests: seq<string>, lab: Lab)
    ensures TestCommand("none") == Ok("")
    ensures var rs := Records(solutions, tests, |solutions|, "", lab);
      && Summarize(rs).0 == []
      && Summarize(rs).1 != "some_passing"
      && Candidates(solutions, Summarize(rs).0) == Ok((solutions, Range(|solutions|)))
  {
    var rs := Records(solutions, tests, |solutions|, "", lab);
    NoTestsSkipAll(solutions, tests, |solutions|, lab);
    SummaryMeaning(rs);
    assert forall rec :: rec in rs ==> !Passes(rec);
  }

  // ---------------------------------------------------------------------
  // generate: the file cache
  // ---------------------------------------------------------------------

  /** The output directory's JSON files, by path. */
  class Cache {
    var stored: map<string, Json>

    constructor (stored0: map<string, Json>)
      ensures stored == stored0
    {
      stored := stored0;
    }

    /** generate: a cached value is returned as it is, without calling the
        generator; otherwise the generator's value is stored and returned,
        and a generator exception propagates with nothing stored. */
    method Generate(path: string, generator: () -> Result<Json>) returns (r: Result<Json>)
      modifies this
      ensures path in old(stored) ==> r == Ok(old(stored)[path]) && stored == old(stored)
      ensures path !in old(stored) && generator().Err? ==> r == generator() && stored == old(stored)
      ensures path !in old(stored) && generator().Ok? ==> r == generator() && stored == old(stored)[path := r.value]
    {
      if path in stored {
        return Ok(stored[path]);
      }
      var data := generator();
      if data.Err? {
        return data;
      }
      stored := stored[path := data.value];
      r := data;
    }
  }
}
