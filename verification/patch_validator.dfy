/** The patch validator tool: split a multi-file diff into one chunk per
    `diff --git a/P b/P` header, apply each chunk to its file, let the
    fixer rewrite the patched text, and re-diff the two texts into the
    cleaned patch. Reading files, parsing diff text, running the fixer
    and computing a unified diff are inputs. */
module PatchValidator {
  import opened Common
  import opened Text
  import DiffApply
  import RuffLint

  // ---------------------------------------------------------------------
  // Chunk extraction
  // ---------------------------------------------------------------------

  const GitPrefix := "diff --git a/"

  /** The header line the splitter rebuilds for path p. */
  function GitHeader(p: string): string
  {
    GitPrefix + p + " b/" + p + "\n"
  }

  /** The path of a line matching ^diff --git a/(.+?) b/\1\n, if it does.
      The line must end with "\n" and the two paths must be the same
      non-empty text without a newline, so there is at most one split. */
  function GitHeaderPath(line: string): Option<string>
  {
    if |line| < |GitPrefix| + 1 || !(GitPrefix <= line) || line[|line| - 1] != '\n' then None
    else
      var x := line[|GitPrefix|..|line| - 1];
      if |x| < 5 || (|x| - 3) % 2 != 0 then None
      else
        var p := x[..(|x| - 3) / 2];
        if x[(|x| - 3) / 2..] == " b/" + p && '\n' !in p then Some(p) else None
  }

  /** Exactly the rebuilt headers of non-empty, single-line paths are
      boundaries, and they name that path. */
  lemma GitHeaderPathIff(line: string, p: string)
    ensures GitHeaderPath(line) == Some(p) <==> line == GitHeader(p) && p != [] && '\n' !in p
  {
    if line == GitHeader(p) && p != [] && '\n' !in p {
      GitHeaderParses(p);
    }
    if GitHeaderPath(line) == Some(p) {
      GitHeaderPathSound(line);
    }
  }

  lemma GitHeaderParses(p: string)
    requires p != [] && '\n' !in p
    ensures GitHeaderPath(GitHeader(p)) == Some(p)
  {
    var line := GitHeader(p);
    var x := line[|GitPrefix|..|line| - 1];
    assert x == p + " b/" + p;
    assert x[..(|x| - 3) / 2] == p;
  }

  lemma GitHeaderPathSound(line: string)
    requires GitHeaderPath(line).Some?
    ensures var p := GitHeaderPath(line).value;
            line == GitHeader(p) && p != [] && '\n' !in p
  {
    var x := line[|GitPrefix|..|line| - 1];
    var p := GitHeaderPath(line).value;
    assert x == p + " b/" + p;
    assert line == GitPrefix + x + "\n";
  }

  /** One chunk: the file path and its diff text. */
  datatype Chunk = Chunk(path: string, diff: string)

  /** Index of the first boundary line at or after j, or |lines|. */
  function NextHeader(lines: seq<string>, j: nat): (e: nat)
    requires j <= |lines|
    ensures j <= e <= |lines|
    ensures e < |lines| ==> GitHeaderPath(lines[e]).Some?
    decreases |lines| - j
  {
    if j == |lines| || GitHeaderPath(lines[j]).Some? then j else NextHeader(lines, j + 1)
  }

  lemma {:induction false} NextHeaderIsNext(lines: seq<string>, j: nat, k: nat)
    requires j <= k <= |lines|
    ensures k < NextHeader(lines, j) ==> GitHeaderPath(lines[k]).None?
    ensures k == NextHeader(lines, j) < |lines| ==> GitHeaderPath(lines[k]).Some?
    decreases |lines| - j
  {
    if j < |lines| && GitHeaderPath(lines[j]).None? && j < k {
      NextHeaderIsNext(lines, j + 1, k);
    }
  }

  /** The chunks from line i on: each boundary line starts a chunk whose
      diff is the rebuilt header followed by every line up to the next
      boundary; lines before the first boundary belong to no chunk. */
  function ChunksFrom(lines: seq<string>, i: nat): seq<Chunk>
    requires i <= |lines|
    decreases |lines| - i
  {
    var h := NextHeader(lines, i);
    if h == |lines| then []
    else
      var p := GitHeaderPath(lines[h]).value;
      var e := NextHeader(lines, h + 1);
      [Chunk(p, GitHeader(p) + Concat(lines[h + 1..e]))] + ChunksFrom(lines, e)
  }

  /** _extract_chunks */
  function ExtractChunks(patch: string): seq<Chunk>
  {
    ChunksFrom(SplitKeepEnds(patch), 0)
  }

  function Paths(cs: seq<Chunk>): (ps: seq<string>)
    ensures |ps| == |cs|
  {
    if cs == [] then [] else [cs[0].path] + Paths(cs[1..])
  }

  function Diffs(cs: seq<Chunk>): (ds: seq<string>)
    ensures |ds| == |cs|
  {
    if cs == [] then [] else [cs[0].diff] + Diffs(cs[1..])
  }

  /** The paths of the boundary lines from line i on, in order. */
  function HeaderPaths(lines: seq<string>, i: nat): seq<string>
    requires i <= |lines|
    decreases |lines| - i
  {
    if i == |lines| then []
    else
      var h := GitHeaderPath(lines[i]);
      (if h.Some? then [h.value] else []) + HeaderPaths(lines, i + 1)
  }

  lemma {:induction false} HeaderPathsSkip(lines: seq<string>, i: nat)
    requires i <= |lines|
    ensures HeaderPaths(lines, i) == HeaderPaths(lines, NextHeader(lines, i))
    decreases |lines| - i
  {
    if i < |lines| && GitHeaderPath(lines[i]).None? {
      HeaderPathsSkip(lines, i + 1);
    }
  }

  /** One chunk per boundary line, in input order, named by its path. */
  lemma {:induction false} ChunkPerHeader(lines: seq<string>, i: nat)
    requires i <= |lines|
    ensures Paths(ChunksFrom(lines, i)) == HeaderPaths(lines, i)
    decreases |lines| - i
  {
    HeaderPathsSkip(lines, i);
    var h := NextHeader(lines, i);
    if h < |lines| {
      var e := NextHeader(lines, h + 1);
      HeaderPathsSkip(lines, h + 1);
      ChunkPerHeader(lines, e);
      assert NextHeader(lines, e) == e by {
        NextHeaderIsNext(lines, h + 1, e);
      }
      HeaderPathsSkip(lines, e);
    }
  }

  /** The text before the first boundary, followed by every chunk's diff,
      is the whole input from line i on: the header rebuilt by the
      splitter is the boundary line itself. */
  lemma {:induction false} ChunksRebuild(lines: seq<string>, i: nat)
    requires i <= |lines|
    ensures Concat(lines[i..NextHeader(lines, i)]) + Concat(Diffs(ChunksFrom(lines, i))) == Concat(lines[i..])
    decreases |lines| - i
  {
    var h := NextHeader(lines, i);
    if h == |lines| {
      assert lines[i..h] == lines[i..];
    } else {
      var e := NextHeader(lines, h + 1);
      var rest := Concat(Diffs(ChunksFrom(lines, e)));
      assert rest == Concat(lines[e..]) by {
        NextHeaderIsNext(lines, h + 1, e);
        ChunksRebuild(lines, e);
        assert lines[e..e] == [];
      }
      DiffsStep(lines, i);
      ConcatSlices(lines, i, h, e);
      AppendAssoc(Concat(lines[i..h]), Concat(lines[h..e]), rest);
    }
  }

  lemma AppendAssoc<T>(a: seq<T>, b: seq<T>, c: seq<T>)
    ensures a + (b + c) == a + b + c
  {
  }

  /** One step of the chunk list, as text: the diff of the first chunk is
      the text of its lines, boundary line included. */
  lemma DiffsStep(lines: seq<string>, i: nat)
    requires i <= |lines| && NextHeader(lines, i) < |lines|
    ensures var h := NextHeader(lines, i);
            var e := NextHeader(lines, h + 1);
            Concat(Diffs(ChunksFrom(lines, i))) == Concat(lines[h..e]) + Concat(Diffs(ChunksFrom(lines, e)))
  {
    var h := NextHeader(lines, i);
    var e := NextHeader(lines, h + 1);
    var first := GitHeader(GitHeaderPath(lines[h]).value) + Concat(lines[h + 1..e]);
    assert Diffs(ChunksFrom(lines, i)) == [first] + Diffs(ChunksFrom(lines, e));
    HeaderChunkIsLines(lines, h, e);
  }

  /** A chunk's diff is the text of its lines, boundary line included. */
  lemma HeaderChunkIsLines(lines: seq<string>, h: nat, e: nat)
    requires h < e <= |lines| && GitHeaderPath(lines[h]).Some?
    ensures GitHeader(GitHeaderPath(lines[h]).value) + Concat(lines[h + 1..e]) == Concat(lines[h..e])
  {
    GitHeaderPathIff(lines[h], GitHeaderPath(lines[h]).value);
    ConcatFrom(lines[h..e], 0);
    assert lines[h..e][1..] == lines[h + 1..e];
    assert lines[h..e][0..] == lines[h..e];
  }

  lemma ConcatSlices(lines: seq<string>, i: nat, h: nat, e: nat)
    requires i <= h <= e <= |lines|
    ensures Concat(lines[i..]) == Concat(lines[i..h]) + Concat(lines[h..e]) + Concat(lines[e..])
  {
    assert lines[i..] == lines[i..h] + lines[h..e] + lines[e..];
    ConcatJoin(lines[i..h] + lines[h..e], lines[e..]);
    ConcatJoin(lines[i..h], lines[h..e]);
  }

  /** _extract_chunks keeps everything from the first boundary on: the
      discarded preamble followed by the chunk diffs is the patch. */
  lemma ExtractChunksRebuild(patch: string)
    ensures var lines := SplitKeepEnds(patch);
            Concat(lines[..NextHeader(lines, 0)]) + Concat(Diffs(ExtractChunks(patch))) == patch
  {
    var lines := SplitKeepEnds(patch);
    ChunksRebuild(lines, 0);
    assert lines[0..] == lines;
    assert lines[0..NextHeader(lines, 0)] == lines[..NextHeader(lines, 0)];
    ConcatSplitKeepEnds(patch);
  }

  /** Each chunk's diff starts with its rebuilt header and holds no other
      boundary line. */
  lemma {:induction false} ChunkBodies(lines: seq<string>, i: nat, k: nat) returns (h: nat, e: nat)
    requires i <= |lines| && k < |ChunksFrom(lines, i)|
    ensures h < e <= |lines|
    ensures ChunksFrom(lines, i)[k].diff == GitHeader(ChunksFrom(lines, i)[k].path) + Concat(lines[h + 1..e])
    ensures lines[h] == GitHeader(ChunksFrom(lines, i)[k].path)
    ensures forall m :: h < m < e ==> GitHeaderPath(lines[m]).None?
    decreases |lines| - i
  {
    if k == 0 {
      h, e := FirstChunk(lines, i);
    } else {
      LaterChunkAt(lines, i, k);
      h, e := ChunkBodies(lines, NextHeader(lines, NextHeader(lines, i) + 1), k - 1);
    }
  }

  /** ChunkBodies for the first chunk. */
  lemma FirstChunk(lines: seq<string>, i: nat) returns (h: nat, e: nat)
    requires i <= |lines| && 0 < |ChunksFrom(lines, i)|
    ensures h < e <= |lines|
    ensures ChunksFrom(lines, i)[0].diff == GitHeader(ChunksFrom(lines, i)[0].path) + Concat(lines[h + 1..e])
    ensures lines[h] == GitHeader(ChunksFrom(lines, i)[0].path)
    ensures forall m :: h < m < e ==> GitHeaderPath(lines[m]).None?
  {
    h := NextHeader(lines, i);
    e := NextHeader(lines, h + 1);
    FirstChunkAt(lines, i);
    FirstChunkBody(lines, h);
  }

  /** The first chunk from line i is the one at the next boundary. */
  lemma FirstChunkAt(lines: seq<string>, i: nat)
    requires i <= |lines| && 0 < |ChunksFrom(lines, i)|
    ensures var h := NextHeader(lines, i);
      var e := NextHeader(lines, h + 1);
      && h < |lines|
      && ChunksFrom(lines, i)[0]
         == Chunk(GitHeaderPath(lines[h]).value, GitHeader(GitHeaderPath(lines[h]).value) + Concat(lines[h + 1..e]))
  {
  }

  /** Chunk k > 0 from line i is chunk k - 1 from the boundary after the
      next one. */
  lemma LaterChunkAt(lines: seq<string>, i: nat, k: nat)
    requires i <= |lines| && 0 < k < |ChunksFrom(lines, i)|
    ensures var h := NextHeader(lines, i);
      && h < |lines|
      && k - 1 < |ChunksFrom(lines, NextHeader(lines, h + 1))|
      && ChunksFrom(lines, i)[k] == ChunksFrom(lines, NextHeader(lines, h + 1))[k - 1]
  {
  }

  /** The line at a boundary is the rebuilt header of its path, and no line
      up to the next boundary is one. */
  lemma FirstChunkBody(lines: seq<string>, h: nat)
    requires h < |lines| && GitHeaderPath(lines[h]).Some?
    ensures lines[h] == GitHeader(GitHeaderPath(lines[h]).value)
    ensures forall m :: h < m < NextHeader(lines, h + 1) ==> GitHeaderPath(lines[m]).None?
  {
    GitHeaderPathIff(lines[h], GitHeaderPath(lines[h]).value);
    forall m | h < m < NextHeader(lines, h + 1)
      ensures GitHeaderPath(lines[m]).None?
    {
      NextHeaderIsNext(lines, h + 1, m);
    }
  }

  /** A patch without any boundary line yields no chunk, and no error. */
  lemma NoHeaderNoChunks(patch: string)
    ensures ExtractChunks(patch) == [] <==> HeaderPaths(SplitKeepEnds(patch), 0) == []
  {
    ChunkPerHeader(SplitKeepEnds(patch), 0);
  }

  // ---------------------------------------------------------------------
  // forward
  // ---------------------------------------------------------------------

  /** What the fixer run leaves: its exit status and the rewritten text. */
  datatype FixRun = FixRun(returnCode: int, fixedText: string)

  /** The tool's outside world: the file reader, the diff-text parser, the
      fixer and the unified-diff generator (path, before, after). */
  datatype Oracles = Oracles(
    readText: string -> Result<string>,
    parse: string -> Result<seq<DiffApply.PatchedFile>>,
    fix: string -> FixRun,
    rediff: (string, string, string) -> string)

  /** _apply_patch then _generate_diff for one chunk: the fixer's exit
      status is not looked at. */
  function ChunkOutcome(c: Chunk, o: Oracles): Result<string>
  {
    var patched := RuffLint.PatchedText(c.path, c.diff, o.readText, o.parse);
    if patched.Err? then Err(patched.error)
    else Ok(o.rediff(c.path, patched.value, o.fix(patched.value).fixedText))
  }

  /** The outcome of every chunk, in order. */
  function Outcomes(cs: seq<Chunk>, o: Oracles): (rs: seq<Result<string>>)
    ensures |rs| == |cs|
  {
    if cs == [] then [] else [ChunkOutcome(cs[0], o)] + Outcomes(cs[1..], o)
  }

  lemma {:induction false} OutcomesIndex(cs: seq<Chunk>, o: Oracles, k: nat)
    requires k < |cs|
    ensures Outcomes(cs, o)[k] == ChunkOutcome(cs[k], o)
  {
    if k > 0 {
      OutcomesIndex(cs[1..], o, k - 1);
    }
  }

  /** The first n outcomes gathered as the loop goes: the first exception,
      or all n diffs in order. */
  function Collect(rs: seq<Result<string>>, n: nat): Result<seq<string>>
    requires n <= |rs|
  {
    if n == 0 then Ok([])
    else
      var before := Collect(rs, n - 1);
      if before.Err? then before
      else if rs[n - 1].Err? then Err(rs[n - 1].error)
      else Ok(before.value + [rs[n - 1].value])
  }

  /** Once an exception is gathered, later outcomes do not change it. */
  lemma {:induction false} CollectKeepsError(rs: seq<Result<string>>, i: nat, n: nat)
    requires i <= n <= |rs| && Collect(rs, i).Err?
    ensures Collect(rs, n) == Collect(rs, i)
    decreases n - i
  {
    if i < n {
      CollectKeepsError(rs, i, n - 1);
    }
  }

  /** Gathering succeeds exactly when every outcome does, and then lists
      them in order; otherwise it reports the first exception. */
  lemma {:induction false} CollectIs(rs: seq<Result<string>>, n: nat)
    requires n <= |rs|
    ensures Collect(rs, n).Ok? <==> forall k :: 0 <= k < n ==> rs[k].Ok?
    ensures Collect(rs, n).Ok? ==>
              |Collect(rs, n).value| == n
              && forall k :: 0 <= k < n ==> Collect(rs, n).value[k] == rs[k].value
    ensures Collect(rs, n).Err? ==>
              exists f :: 0 <= f < n && rs[f].Err? && Collect(rs, n).error == rs[f].error
                          && forall k :: 0 <= k < f ==> rs[k].Ok?
  {
    if n > 0 {
      CollectIs(rs, n - 1);
      var before := Collect(rs, n - 1);
      if before.Ok? && rs[n - 1].Err? {
        assert 0 <= n - 1 < n && rs[n - 1].Err? && Collect(rs, n).error == rs[n - 1].error;
      }
    }
  }

  /** The diffs that are not blank, in order. */
  function NonBlank(ds: seq<string>): (r: seq<string>)
    ensures |r| <= |ds|
  {
    if ds == [] then []
    else (if Blank(ds[0]) then [] else [ds[0]]) + NonBlank(ds[1..])
  }

  /** The cleaned patch: the non-blank diffs joined by "\n", or the input
      itself when that joins to blank text. */
  function Cleaned(input: string, ds: seq<string>): string
  {
    var output := Join(NonBlank(ds), "\n");
    if Blank(output) then input else output
  }

  /** What the tool reports. */
  datatype Validation = Passed(cleanedPatch: string) | Failed(errorMessage: string)
  {
    /** The JSON object the tool returns. */
    function ToJson(): Json
    {
      match this
      case Passed(p) => JObj(map["status" := JStr("PASSED"), "cleaned_patch" := JStr(p)])
      case Failed(m) => JObj(map["status" := JStr("ERROR"), "error_message" := JStr(m)])
    }
  }

  /** forward as a function of its input and the outside world. */
  function Validate(input: string, o: Oracles): Validation
  {
    var rs := Outcomes(ExtractChunks(input), o);
    var gathered := Collect(rs, |rs|);
    if gathered.Err? then Failed(gathered.error.Describe())
    else Passed(Cleaned(input, gathered.value))
  }

  /** _apply_patch and _generate_diff for chunk i, the body of forward's
      loop: the file is read unless the diff adds a new file, the diff is
      parsed and applied, the fixer rewrites the result, and the two texts
      are re-diffed. */
  method ProcessChunk(chunks: seq<Chunk>, i: nat, o: Oracles) returns (r: Result<string>)
    requires i < |chunks|
    ensures r == Outcomes(chunks, o)[i]
  {
    OutcomesIndex(chunks, o, i);
    var c := chunks[i];
    var original: string;
    if Contains(c.diff, RuffLint.NewFileMarker) {
      original := "";
    } else {
      var read := o.readText(c.path);
      if read.Err? {
        return Err(read.error);
      }
      original := read.value;
    }
    var parsed := o.parse(c.diff);
    if parsed.Err? {
      return Err(parsed.error);
    }
    var patched := DiffApply.ApplyPatchToFile(original, parsed.value, RuffLint.PathName(c.path));
    if patched.Err? {
      return Err(patched.error);
    }
    var fixed := o.fix(patched.value).fixedText;
    r := Ok(o.rediff(c.path, patched.value, fixed));
  }

  /** The loop of forward: process the chunks in order, collecting their
      re-diffs, and stop at the first exception. */
  method GatherDiffs(chunks: seq<Chunk>, o: Oracles) returns (r: Result<seq<string>>)
    ensures r == Collect(Outcomes(chunks, o), |chunks|)
  {
    ghost var rs := Outcomes(chunks, o);
    var fixedDiffs: seq<string> := [];
    var i := 0;
    while i < |chunks|
      invariant i <= |chunks|
      invariant Collect(rs, i) == Ok(fixedDiffs)
    {
      var d := ProcessChunk(chunks, i, o);
      if d.Err? {
        CollectKeepsError(rs, i + 1, |chunks|);
        return Err(d.error);
      }
      fixedDiffs := fixedDiffs + [d.value];
      i := i + 1;
    }
    r := Ok(fixedDiffs);
  }

  /** forward: split the input into chunks, gather their re-diffs, and
      report the cleaned patch, or the first exception as status ERROR. */
  method Forward(input: string, o: Oracles) returns (result: Validation)
    ensures result == Validate(input, o)
  {
    var chunks := ExtractChunks(input);
    var gathered := GatherDiffs(chunks, o);
    if gathered.Err? {
      return Failed(gathered.error.Describe());
    }
    var output := Join(NonBlank(gathered.value), "\n");
    var cleanedPatch := if Blank(output) then input else output;
    result := Passed(cleanedPatch);
  }

  // ---------------------------------------------------------------------
  // Properties of forward
  // ---------------------------------------------------------------------

  /** The tool passes exactly when every chunk applies; a failure reports
      "<ExceptionType>: <message>" of the first chunk that does not. */
  lemma ValidateOutcome(input: string, o: Oracles)
    ensures var cs := ExtractChunks(input);
            && (Validate(input, o).Passed? <==> forall k :: 0 <= k < |cs| ==> ChunkOutcome(cs[k], o).Ok?)
            && (Validate(input, o).Failed? ==>
                  exists f :: 0 <= f < |cs| && ChunkOutcome(cs[f], o).Err?
                              && Validate(input, o).errorMessage == ChunkOutcome(cs[f], o).error.Describe()
                              && forall k :: 0 <= k < f ==> ChunkOutcome(cs[k], o).Ok?)
  {
    var cs := ExtractChunks(input);
    var rs := Outcomes(cs, o);
    CollectIs(rs, |rs|);
    forall k | 0 <= k < |cs|
      ensures rs[k] == ChunkOutcome(cs[k], o)
    {
      OutcomesIndex(cs, o, k);
    }
  }

  /** The cleaned patch is the input when every re-diff is blank, and
      otherwise the non-blank re-diffs joined by "\n". */
  lemma {:induction false} CleanedOfBlankDiffs(input: string, ds: seq<string>)
    requires forall k :: 0 <= k < |ds| ==> Blank(ds[k])
    ensures Cleaned(input, ds) == input
  {
    NonBlankOfBlanks(ds);
  }

  lemma {:induction false} NonBlankOfBlanks(ds: seq<string>)
    requires forall k :: 0 <= k < |ds| ==> Blank(ds[k])
    ensures NonBlank(ds) == []
  {
    if ds != [] {
      assert Blank(ds[0]);
      NonBlankOfBlanks(ds[1..]);
    }
  }

  /** When the fixer leaves every file as it is (and a unified diff of a
      text against itself is empty), a passing run returns the input
      unchanged as the cleaned patch. */
  lemma UnchangedFixKeepsInput(input: string, o: Oracles)
    requires forall t :: o.fix(t).fixedText == t
    requires forall p, t :: o.rediff(p, t, t) == ""
    ensures Validate(input, o).Passed? ==> Validate(input, o) == Passed(input)
  {
    var cs := ExtractChunks(input);
    var rs := Outcomes(cs, o);
    CollectIs(rs, |rs|);
    var gathered := Collect(rs, |rs|);
    if gathered.Ok? {
      forall k | 0 <= k < |gathered.value|
        ensures Blank(gathered.value[k])
      {
        OutcomesIndex(cs, o, k);
        assert gathered.value[k] == rs[k].value;
      }
      CleanedOfBlankDiffs(input, gathered.value);
    }
  }

  /** The fixer's exit status makes no difference: only its text is used. */
  lemma FixExitIgnored(input: string, o: Oracles, fix2: string -> FixRun)
    requires forall t :: fix2(t).fixedText == o.fix(t).fixedText
    ensures Validate(input, o) == Validate(input, o.(fix := fix2))
  {
    var cs := ExtractChunks(input);
    OutcomesAgree(cs, o, o.(fix := fix2));
  }

  lemma {:induction false} OutcomesAgree(cs: seq<Chunk>, o: Oracles, o2: Oracles)
    requires o2.readText == o.readText && o2.parse == o.parse && o2.rediff == o.rediff
    requires forall t :: o2.fix(t).fixedText == o.fix(t).fixedText
    ensures Outcomes(cs, o) == Outcomes(cs, o2)
  {
    if cs != [] {
      OutcomesAgree(cs[1..], o, o2);
    }
  }

  /** A patch with no boundary line passes with itself as the cleaned patch. */
  lemma NoChunksPassUnchanged(input: string, o: Oracles)
    requires HeaderPaths(SplitKeepEnds(input), 0) == []
    ensures Validate(input, o) == Passed(input)
  {
    NoHeaderNoChunks(input);
  }

  /** Only a passing run carries a cleaned patch; the JSON status says which. */
  lemma JsonStatus(v: Validation)
    ensures v.ToJson().JObj? && "status" in v.ToJson().fields
    ensures v.ToJson().fields["status"] == JStr("PASSED") <==> v.Passed?
    ensures ("cleaned_patch" in v.ToJson().fields) <==> v.Passed?
  {
  }
}
