/** The sequential thinker: it asks the model for one reasoning step at a
    time, with the steps so far as a scratchpad, until a step carries the
    final-answer marker or the step budget is spent. The model is an input:
    a function from prompt to response. */
module Thinking {
  import opened Common
  import opened Text

  const Marker := "FINAL ANSWER:"
  const Warning := "[WARNING] Reached max_steps without FINAL ANSWER."
  const IndexError := Exception("IndexError", "list index out of range")

  /** _build_prompt */
  function Prompt(goal: string, problemStatement: string, scratchpad: string): string
  {
    Concat([PromptHead, problemStatement, "\n\nGoal:\n", goal, "\n\nScratchpad:\n", scratchpad, PromptTail])
  }

  const PromptHead := "\nYou are an autonomous agent solving a software issue using structured thinking.\n\nProblem:\n"
  const PromptTail := "\n\nThink step-by-step. Output your next step of reasoning.\nWhen you are done, write: FINAL ANSWER: <your answer>\n"

  /** The prefix of thought k (0-based). */
  function StepLabel(k: nat): string
  {
    "Step " + NatToString(k + 1) + ": "
  }

  /** The thoughts so far, and whether a response carried the marker. */
  datatype Progress = Progress(thoughts: seq<string>, done: bool)

  /** The response to the prompt built from the given thoughts. */
  function Respond(goal: string, problemStatement: string, model: string -> string, thoughts: seq<string>): string
  {
    model(Prompt(goal, problemStatement, Join(thoughts, "\n")))
  }

  /** The loop after n rounds of the budget: a round after the marker does
      nothing. */
  function Think(goal: string, problemStatement: string, model: string -> string, n: nat): Progress
  {
    if n == 0 then Progress([], false)
    else
      var p := Think(goal, problemStatement, model, n - 1);
      if p.done then p
      else
        var response := Respond(goal, problemStatement, model, p.thoughts);
        Progress(p.thoughts + [StepLabel(n - 1) + Strip(response)], Contains(response, Marker))
  }

  /** The tool's answer for a budget of maxSteps. */
  function Answer(goal: string, problemStatement: string, model: string -> string, maxSteps: int): Result<string>
  {
    var p := Think(goal, problemStatement, model, if maxSteps < 0 then 0 else maxSteps);
    if p.thoughts == [] then Err(IndexError)
    else if Contains(p.thoughts[|p.thoughts| - 1], Marker) then Ok(Join(p.thoughts, "\n"))
    else Ok(Join(p.thoughts + [Warning], "\n"))
  }

  lemma {:induction false} ThinkStaysDone(goal: string, problemStatement: string, model: string -> string, n: nat, m: nat)
    requires n <= m && Think(goal, problemStatement, model, n).done
    ensures Think(goal, problemStatement, model, m) == Think(goal, problemStatement, model, n)
    decreases m
  {
    if m > n {
      ThinkStaysDone(goal, problemStatement, model, n, m - 1);
      assert Think(goal, problemStatement, model, m - 1).done;
    }
  }

  /** SequentialThinkingTool.forward */
  method Forward(goal: string, problemStatement: string, model: string -> string, maxSteps: int)
    returns (r: Result<string>)
    ensures r == Answer(goal, problemStatement, model, maxSteps)
  {
    var budget: nat := if maxSteps < 0 then 0 else maxSteps;
    var thoughts: seq<string> := [];
    var done := false;
    var step := 0;
    while step < budget && !done
      invariant step <= budget
      invariant Think(goal, problemStatement, model, step) == Progress(thoughts, done)
    {
      var response := model(Prompt(goal, problemStatement, Join(thoughts, "\n")));
      thoughts := thoughts + [StepLabel(step) + Strip(response)];
      done := Contains(response, Marker);
      step := step + 1;
    }
    if done {
      ThinkStaysDone(goal, problemStatement, model, step, budget);
    }
    if thoughts == [] {
      return Err(IndexError);
    }
    if !Contains(thoughts[|thoughts| - 1], Marker) {
      thoughts := thoughts + [Warning];
    }
    r := Ok(Join(thoughts, "\n"));
  }

  // ---------------------------------------------------------------------
  // Properties
  // ---------------------------------------------------------------------

  /** One model call per thought, at most n of them; fewer only when a
      response carried the marker. */
  lemma {:induction false} ThinkBounded(goal: string, problemStatement: string, model: string -> string, n: nat)
    ensures var p := Think(goal, problemStatement, model, n);
      |p.thoughts| <= n && (!p.done ==> |p.thoughts| == n) && (p.done ==> p.thoughts != [])
  {
    if n > 0 {
      ThinkBounded(goal, problemStatement, model, n - 1);
    }
  }

  /** The run is determined by its thoughts: after n rounds it is the run
      after as many rounds as it has thoughts, whose prefixes are the
      earlier runs, none of them finished. */
  lemma {:induction false} ThinkPrefix(goal: string, problemStatement: string, model: string -> string, n: nat)
    ensures var t := Think(goal, problemStatement, model, n).thoughts;
      && Think(goal, problemStatement, model, |t|) == Think(goal, problemStatement, model, n)
      && forall k :: 0 <= k < |t| ==>
           Think(goal, problemStatement, model, k) == Progress(t[..k], false)
  {
    ThinkBounded(goal, problemStatement, model, n);
    if n > 0 {
      ThinkPrefix(goal, problemStatement, model, n - 1);
      var p := Think(goal, problemStatement, model, n - 1);
      ThinkBounded(goal, problemStatement, model, n - 1);
      if !p.done {
        var t := Think(goal, problemStatement, model, n).thoughts;
        assert |p.thoughts| == n - 1 && |t| == n;
        forall k | 0 <= k < |t|
          ensures Think(goal, problemStatement, model, k) == Progress(t[..k], false)
        {
          assert t[..k] == p.thoughts[..k];
          if k == n - 1 {
            assert p.thoughts[..k] == p.thoughts;
          }
        }
      }
    }
  }

  /** Thought k is "Step k+1: " and the stripped response to the prompt
      whose scratchpad is thoughts 0..k-1 joined by "\n"; the loop stopped
      right after the first response with the marker. */
  lemma ThoughtsAre(goal: string, problemStatement: string, model: string -> string, n: nat)
    ensures var t := Think(goal, problemStatement, model, n).thoughts;
      forall k :: 0 <= k < |t| ==>
        && t[k] == StepLabel(k) + Strip(Respond(goal, problemStatement, model, t[..k]))
        && (k < |t| - 1 ==> !Contains(Respond(goal, problemStatement, model, t[..k]), Marker))
    ensures var p := Think(goal, problemStatement, model, n);
      p.done <==> p.thoughts != [] && Contains(Respond(goal, problemStatement, model, p.thoughts[..|p.thoughts| - 1]), Marker)
  {
    var p := Think(goal, problemStatement, model, n);
    var t := p.thoughts;
    forall k | 0 <= k < |t|
      ensures t[k] == StepLabel(k) + Strip(Respond(goal, problemStatement, model, t[..k]))
      ensures k < |t| - 1 ==> !Contains(Respond(goal, problemStatement, model, t[..k]), Marker)
    {
      ThoughtStep(goal, problemStatement, model, n, k);
    }
    if t != [] {
      ThoughtStep(goal, problemStatement, model, n, |t| - 1);
    } else {
      ThinkBounded(goal, problemStatement, model, n);
    }
  }

  /** Round k + 1 of a run with more than k thoughts. */
  lemma ThoughtStep(goal: string, problemStatement: string, model: string -> string, n: nat, k: nat)
    requires k < |Think(goal, problemStatement, model, n).thoughts|
    ensures var t := Think(goal, problemStatement, model, n).thoughts;
      var response := Respond(goal, problemStatement, model, t[..k]);
      && t[k] == StepLabel(k) + Strip(response)
      && (k < |t| - 1 ==> !Contains(response, Marker))
      && (k == |t| - 1 ==> (Think(goal, problemStatement, model, n).done <==> Contains(response, Marker)))
  {
    var t := Think(goal, problemStatement, model, n).thoughts;
    ThinkPrefix(goal, problemStatement, model, n);
    assert Think(goal, problemStatement, model, k) == Progress(t[..k], false);
    if k < |t| - 1 {
      assert Think(goal, problemStatement, model, k + 1) == Progress(t[..k + 1], false);
    } else {
      assert t[..k + 1] == t;
    }
    assert t[k] == t[..k + 1][k];
  }

  /** A thought carries the marker exactly when its response did: neither
      the step tag nor stripping can make or break an occurrence. */
  lemma MarkerSurvives(k: nat, response: string)
    ensures Contains(StepLabel(k) + Strip(response), Marker) <==> Contains(response, Marker)
  {
    var tag := StepLabel(k);
    var m := Marker;
    assert m[0] == 'F' && m[|m| - 1] == ':';
    assert 'F' !in tag by {
      var digits := NatToString(k + 1);
      NatToStringDigits(k + 1);
      assert tag == "Step " + digits + ": ";
      forall j | 0 <= j < |digits|
        ensures digits[j] != 'F'
      {
        assert IsDigit(digits[j]);
      }
    }
    TagKeeps(tag, Strip(response), m);
    StripKeeps(response, m);
  }

  /** A prefix without the pattern's first character neither makes nor
      breaks an occurrence. */
  lemma TagKeeps(tag: string, s: string, m: string)
    requires m != [] && m[0] !in tag
    ensures Contains(tag + s, m) <==> Contains(s, m)
  {
    var w := tag + s;
    if Contains(w, m) {
      var i := ContainsWitness(w, m);
      assert w[i] == w[i..i + |m|][0] == m[0];
      assert forall j :: 0 <= j < |tag| ==> w[j] == tag[j] && w[j] != m[0];
      assert i >= |tag|;
      assert s[i - |tag|..i - |tag| + |m|] == w[i..i + |m|];
      ContainsAt(s, m, i - |tag|);
    }
    if Contains(s, m) {
      var i := ContainsWitness(s, m);
      assert w[|tag| + i..|tag| + i + |m|] == s[i..i + |m|];
      ContainsAt(w, m, |tag| + i);
    }
  }

  /** Stripping neither makes nor breaks an occurrence of a pattern that
      starts and ends with non-whitespace. */
  lemma StripKeeps(r: string, m: string)
    requires m != [] && !IsSpace(m[0]) && !IsSpace(m[|m| - 1])
    ensures Contains(Strip(r), m) <==> Contains(r, m)
  {
    var a, b := StripIsSlice(r);
    SliceKeeps(r, a, b, m);
  }

  /** Cutting whitespace off both ends neither makes nor breaks such an
      occurrence. */
  lemma SliceKeeps(r: string, a: nat, b: nat, m: string)
    requires a <= b <= |r|
    requires forall j :: 0 <= j < a ==> IsSpace(r[j])
    requires forall j :: b <= j < |r| ==> IsSpace(r[j])
    requires m != [] && !IsSpace(m[0]) && !IsSpace(m[|m| - 1])
    ensures Contains(r[a..b], m) <==> Contains(r, m)
  {
    SliceContains(r, a, b, m);
    if Contains(r, m) {
      var i := ContainsWitness(r, m);
      OccurrenceInside(r, a, b, m, i);
      SliceContainsAt(r, a, b, m, i);
    }
  }

  /** An occurrence in a slice is one in the whole. */
  lemma SliceContains(r: string, a: nat, b: nat, m: string)
    requires a <= b <= |r|
    ensures Contains(r[a..b], m) ==> Contains(r, m)
  {
    if Contains(r[a..b], m) {
      var i := ContainsWitness(r[a..b], m);
      SliceOfSlice(r, a, b, i, |m|);
      ContainsAt(r, m, a + i);
    }
  }

  /** An occurrence inside a slice's bounds is one in the slice. */
  lemma SliceContainsAt(r: string, a: nat, b: nat, m: string, i: nat)
    requires a <= i && i + |m| <= b <= |r| && r[i..i + |m|] == m
    ensures Contains(r[a..b], m)
  {
    SliceOfSlice(r, a, b, i - a, |m|);
    ContainsAt(r[a..b], m, i - a);
  }

  /** An occurrence of such a pattern lies between the whitespace ends. */
  lemma OccurrenceInside(r: string, a: nat, b: nat, m: string, i: nat)
    requires a <= b <= |r|
    requires forall j :: 0 <= j < a ==> IsSpace(r[j])
    requires forall j :: b <= j < |r| ==> IsSpace(r[j])
    requires m != [] && !IsSpace(m[0]) && !IsSpace(m[|m| - 1])
    requires i + |m| <= |r| && r[i..i + |m|] == m
    ensures a <= i && i + |m| <= b
  {
    assert r[i] == m[0];
    assert r[i + |m| - 1] == m[|m| - 1];
  }

  /** A slice of a slice is a slice. */
  lemma SliceOfSlice(r: string, a: nat, b: nat, i: nat, len: nat)
    requires a <= b <= |r| && i + len <= b - a
    ensures r[a..b][i..i + len] == r[a + i..a + i + len]
  {
    var x, y := r[a..b][i..i + len], r[a + i..a + i + len];
    assert |x| == |y|;
    forall j | 0 <= j < len
      ensures x[j] == y[j]
    {
      assert x[j] == r[a..b][i + j] == r[a + i + j];
    }
  }

  /** The answer is the thoughts joined by "\n", with the warning line added
      exactly when no response carried the marker within the budget; a
      budget of zero or less leaves no thought to inspect. */
  lemma AnswerShape(goal: string, problemStatement: string, model: string -> string, maxSteps: int)
    ensures var p := Think(goal, problemStatement, model, if maxSteps < 0 then 0 else maxSteps);
      && (maxSteps <= 0 <==> Answer(goal, problemStatement, model, maxSteps).Err?)
      && (maxSteps > 0 && p.done ==> Answer(goal, problemStatement, model, maxSteps) == Ok(Join(p.thoughts, "\n")))
      && (maxSteps > 0 && !p.done ==> Answer(goal, problemStatement, model, maxSteps) == Ok(Join(p.thoughts + [Warning], "\n")))
  {
    var n: nat := if maxSteps < 0 then 0 else maxSteps;
    var p := Think(goal, problemStatement, model, n);
    ThinkBounded(goal, problemStatement, model, n);
    ThoughtsAre(goal, problemStatement, model, n);
    if p.thoughts != [] {
      var k := |p.thoughts| - 1;
      MarkerSurvives(k, Respond(goal, problemStatement, model, p.thoughts[..k]));
    }
  }
}
