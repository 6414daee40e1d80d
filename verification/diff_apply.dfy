/** Rebuilding one file from its original text and the already-parsed hunks
    of a unified diff (section 2.2.2 "Unified Format" of the GNU diffutils
    manual, with git's per-file header), using a cursor into the original
    lines. Parsing the diff text into files, hunks and lines is done by a
    library and is an input here. */
module DiffApply {
  import opened Common
  import opened Text

  /** What a parsed diff line is. `Marker` stands for lines such as
      "\ No newline at end of file", which are neither context, removed nor
      added. */
  datatype LineKind = Context | Removed | Added | Marker

  datatype DiffLine = DiffLine(kind: LineKind, value: string)

  /** A hunk with its 1-based source start line and its lines. */
  datatype Hunk = Hunk(sourceStart: nat, lines: seq<DiffLine>)

  /** One file entry of a parsed patch set: its path (without the a/ or b/
      prefix), the raw target file name, and its hunks. */
  datatype PatchedFile = PatchedFile(path: string, targetFile: string, hunks: seq<Hunk>)

  /** The cursor: index of the next original line and the lines output so far. */
  datatype Cursor = Cursor(idx: nat, out: seq<string>)

  const IndexError := Exception("IndexError", "list index out of range")

  function NoMatchingFile(filename: string): Exception
  {
    Exception("ValueError", "No matching patch found for " + filename)
  }

  predicate EndsWith(s: string, suffix: string)
  {
    |suffix| <= |s| && s[|s| - |suffix|..] == suffix
  }

  /** The selection test of the for-else search. */
  predicate Matches(f: PatchedFile, filename: string)
  {
    f.path == filename || EndsWith(f.targetFile, filename)
  }

  /** Index of the first matching entry, or |files| when none matches. */
  function FirstMatch(files: seq<PatchedFile>, filename: string): nat
  {
    if files == [] then 0
    else if Matches(files[0], filename) then 0
    else 1 + FirstMatch(files[1..], filename)
  }

  // ---------------------------------------------------------------------
  // The cursor semantics
  // ---------------------------------------------------------------------

  /** 0-based index the hunk is declared to start at (source_start - 1). */
  function HunkStart(h: Hunk): int
  {
    h.sourceStart - 1
  }

  /** Copy original lines one at a time until the cursor reaches `start`. */
  function CopyUpTo(orig: seq<string>, c: Cursor, start: int): Result<Cursor>
    decreases start - c.idx
  {
    if start <= c.idx then Ok(c)
    else if c.idx >= |orig| then Err(IndexError)
    else CopyUpTo(orig, Cursor(c.idx + 1, c.out + [orig[c.idx]]), start)
  }

  /** One hunk line: a context line emits the ORIGINAL line and advances, a
      removed line only advances, an added line only emits its own text. */
  function StepLine(orig: seq<string>, c: Cursor, l: DiffLine): Result<Cursor>
  {
    match l.kind
    case Context =>
      if c.idx < |orig| then Ok(Cursor(c.idx + 1, c.out + [orig[c.idx]])) else Err(IndexError)
    case Removed => Ok(Cursor(c.idx + 1, c.out))
    case Added => Ok(Cursor(c.idx, c.out + [l.value]))
    case Marker => Ok(c)
  }

  function ApplyLines(orig: seq<string>, c: Cursor, lines: seq<DiffLine>): Result<Cursor>
    decreases |lines|
  {
    if lines == [] then Ok(c)
    else
      match StepLine(orig, c, lines[0])
      case Err(e) => Err(e)
      case Ok(c1) => ApplyLines(orig, c1, lines[1..])
  }

  /** What remains of the run once the current hunk's lines are done. */
  function AfterLines(orig: seq<string>, r: Result<Cursor>, rest: seq<Hunk>): Result<Cursor>
    decreases |rest| + 1, 0
  {
    match r
    case Err(e) => Err(e)
    case Ok(c) => ApplyHunks(orig, c, rest)
  }

  /** What remains of the run once the copy before hunk h is done. */
  function AfterCopy(orig: seq<string>, r: Result<Cursor>, h: Hunk, rest: seq<Hunk>): Result<Cursor>
    decreases |rest| + 1, 1
  {
    match r
    case Err(e) => Err(e)
    case Ok(c) => AfterLines(orig, ApplyLines(orig, c, h.lines), rest)
  }

  function ApplyHunks(orig: seq<string>, c: Cursor, hunks: seq<Hunk>): Result<Cursor>
    decreases |hunks|, 2
  {
    if hunks == [] then Ok(c)
    else AfterCopy(orig, CopyUpTo(orig, c, HunkStart(hunks[0])), hunks[0], hunks[1..])
  }

  /** One hunk of ApplyHunks, unfolded. */
  lemma ApplyHunksCons(orig: seq<string>, c: Cursor, hunks: seq<Hunk>)
    requires hunks != []
    ensures ApplyHunks(orig, c, hunks) ==
      match CopyUpTo(orig, c, HunkStart(hunks[0]))
      case Err(e) => Err(e)
      case Ok(c1) =>
        match ApplyLines(orig, c1, hunks[0].lines)
        case Err(e) => Err(e)
        case Ok(c2) => ApplyHunks(orig, c2, hunks[1..])
  {
    match CopyUpTo(orig, c, HunkStart(hunks[0]))
    case Err(e) =>
    case Ok(c1) =>
      assert AfterCopy(orig, Ok(c1), hunks[0], hunks[1..])
        == AfterLines(orig, ApplyLines(orig, c1, hunks[0].lines), hunks[1..]);
      match ApplyLines(orig, c1, hunks[0].lines)
      case Err(e) =>
      case Ok(c2) =>
        assert AfterLines(orig, Ok(c2), hunks[1..]) == ApplyHunks(orig, c2, hunks[1..]);
  }

  /** The remaining original lines after the cursor (empty past the end). */
  function Remaining(orig: seq<string>, idx: nat): seq<string>
  {
    if idx <= |orig| then orig[idx..] else []
  }

  /** The output lines of one file entry applied to the original lines. */
  function PatchedLines(orig: seq<string>, hunks: seq<Hunk>): Result<seq<string>>
  {
    match ApplyHunks(orig, Cursor(0, []), hunks)
    case Err(e) => Err(e)
    case Ok(c) => Ok(c.out + Remaining(orig, c.idx))
  }

  /** The whole operation as a function: select the entry, split the
      original with line endings, apply, join. */
  function PatchFile(original: string, files: seq<PatchedFile>, filename: string): Result<string>
  {
    var i := FirstMatch(files, filename);
    if i >= |files| then Err(NoMatchingFile(filename))
    else
      match PatchedLines(SplitKeepEnds(original), files[i].hunks)
      case Err(e) => Err(e)
      case Ok(ls) => Ok(Concat(ls))
  }

  // ---------------------------------------------------------------------
  // The imperative operation
  // ---------------------------------------------------------------------

  /** apply_patch_to_file: the for-else search for the entry, then the
      cursor loops over hunks and lines, then the tail copy. */
  method ApplyPatchToFile(originalContent: string, patch: seq<PatchedFile>, filename: string)
    returns (r: Result<string>)
    ensures r == PatchFile(originalContent, patch, filename)
  {
    var f := 0;
    while f < |patch| && !Matches(patch[f], filename)
      invariant f <= |patch|
      invariant FirstMatch(patch, filename) == f + FirstMatch(patch[f..], filename)
    {
      assert patch[f..][1..] == patch[f + 1..];
      f := f + 1;
    }
    if f == |patch| {
      return Err(NoMatchingFile(filename));
    }
    var hunks := patch[f].hunks;
    var originalLines := SplitKeepEnds(originalContent);
    ghost var target := ApplyHunks(originalLines, Cursor(0, []), hunks);
    var outputLines: seq<string> := [];
    var origIdx: nat := 0;
    var h := 0;
    while h < |hunks|
      invariant h <= |hunks|
      invariant target == ApplyHunks(originalLines, Cursor(origIdx, outputLines), hunks[h..])
    {
      var hunk := hunks[h];
      var hunkStart := hunk.sourceStart - 1;
      assert hunks[h..][1..] == hunks[h + 1..];
      while origIdx < hunkStart
        invariant target == AfterCopy(originalLines, CopyUpTo(originalLines, Cursor(origIdx, outputLines), hunkStart), hunk, hunks[h + 1..])
        decreases hunkStart - origIdx
      {
        if origIdx >= |originalLines| {
          return Err(IndexError);
        }
        outputLines := outputLines + [originalLines[origIdx]];
        origIdx := origIdx + 1;
      }
      var applied := ApplyHunkLines(originalLines, origIdx, outputLines, hunk.lines);
      if applied.Err? {
        return Err(applied.error);
      }
      origIdx, outputLines := applied.value.idx, applied.value.out;
      h := h + 1;
    }
    outputLines := outputLines + Remaining(originalLines, origIdx);
    r := Ok(Concat(outputLines));
  }

  /** The inner loop of apply_patch_to_file over the lines of one hunk. */
  method ApplyHunkLines(originalLines: seq<string>, idx: nat, out: seq<string>, lines: seq<DiffLine>)
    returns (r: Result<Cursor>)
    ensures r == ApplyLines(originalLines, Cursor(idx, out), lines)
  {
    var origIdx: nat := idx;
    var outputLines := out;
    var k := 0;
    while k < |lines|
      invariant k <= |lines|
      invariant ApplyLines(originalLines, Cursor(idx, out), lines)
        == ApplyLines(originalLines, Cursor(origIdx, outputLines), lines[k..])
    {
      var line := lines[k];
      assert lines[k..][1..] == lines[k + 1..];
      match line.kind {
        case Context =>
          if origIdx >= |originalLines| {
            return Err(IndexError);
          }
          outputLines := outputLines + [originalLines[origIdx]];
          origIdx := origIdx + 1;
        case Removed =>
          origIdx := origIdx + 1;
        case Added =>
          outputLines := outputLines + [line.value];
        case Marker =>
      }
      k := k + 1;
    }
    r := Ok(Cursor(origIdx, outputLines));
  }

  // ---------------------------------------------------------------------
  // Properties
  // ---------------------------------------------------------------------

  /** The entry used is the first whose path equals the file name or whose
      target ends with it; with no such entry the result is the ValueError. */
  lemma {:induction false} SelectsFirstMatch(original: string, files: seq<PatchedFile>, filename: string)
    ensures (forall j :: 0 <= j < |files| ==> !Matches(files[j], filename))
            <==> PatchFile(original, files, filename) == Err(NoMatchingFile(filename))
    ensures forall i :: (0 <= i < |files| && Matches(files[i], filename)
                          && (forall j :: 0 <= j < i ==> !Matches(files[j], filename)))
                         ==> PatchFile(original, files, filename) == PatchFile(original, [files[i]], filename)
  {
    FirstMatchIsFirst(files, filename);
    var i := FirstMatch(files, filename);
    if i >= |files| {
      assert forall j :: 0 <= j < |files| ==> !Matches(files[j], filename);
    } else {
      assert Matches(files[i], filename);
      NotNoMatch(original, files, filename);
    }
  }

  lemma NotNoMatch(original: string, files: seq<PatchedFile>, filename: string)
    requires FirstMatch(files, filename) < |files|
    ensures PatchFile(original, files, filename) != Err(NoMatchingFile(filename))
  {
    var i := FirstMatch(files, filename);
    match PatchedLines(SplitKeepEnds(original), files[i].hunks)
    case Err(e) =>
      ApplyErrorIsIndexError(SplitKeepEnds(original), Cursor(0, []), files[i].hunks);
    case Ok(ls) =>
  }

  lemma {:induction false} FirstMatchIsFirst(files: seq<PatchedFile>, filename: string)
    ensures FirstMatch(files, filename) <= |files|
    ensures FirstMatch(files, filename) < |files| ==> Matches(files[FirstMatch(files, filename)], filename)
    ensures forall j :: 0 <= j < FirstMatch(files, filename) && j < |files| ==> !Matches(files[j], filename)
  {
    if files != [] && !Matches(files[0], filename) {
      FirstMatchIsFirst(files[1..], filename);
      forall j | 0 < j < FirstMatch(files, filename) && j < |files|
        ensures !Matches(files[j], filename)
      {
        assert files[j] == files[1..][j - 1];
      }
    }
  }

  /** The only failure of the cursor loops is the IndexError. */
  lemma {:induction false} ApplyErrorIsIndexError(orig: seq<string>, c: Cursor, hunks: seq<Hunk>)
    ensures ApplyHunks(orig, c, hunks).Err? ==> ApplyHunks(orig, c, hunks).error == IndexError
    decreases |hunks|
  {
    if hunks != [] {
      ApplyHunksCons(orig, c, hunks);
      CopyErrorIsIndexError(orig, c, HunkStart(hunks[0]));
      match CopyUpTo(orig, c, HunkStart(hunks[0]))
      case Err(e) =>
      case Ok(c1) =>
        LinesErrorIsIndexError(orig, c1, hunks[0].lines);
        match ApplyLines(orig, c1, hunks[0].lines)
        case Err(e) =>
        case Ok(c2) => ApplyErrorIsIndexError(orig, c2, hunks[1..]);
    }
  }

  lemma {:induction false} CopyErrorIsIndexError(orig: seq<string>, c: Cursor, start: int)
    ensures CopyUpTo(orig, c, start).Err? ==> CopyUpTo(orig, c, start).error == IndexError
    decreases start - c.idx
  {
    if start > c.idx && c.idx < |orig| {
      CopyErrorIsIndexError(orig, Cursor(c.idx + 1, c.out + [orig[c.idx]]), start);
    }
  }

  lemma {:induction false} LinesErrorIsIndexError(orig: seq<string>, c: Cursor, lines: seq<DiffLine>)
    ensures ApplyLines(orig, c, lines).Err? ==> ApplyLines(orig, c, lines).error == IndexError
    decreases |lines|
  {
    if lines != [] {
      match StepLine(orig, c, lines[0])
      case Err(e) =>
      case Ok(c1) => LinesErrorIsIndexError(orig, c1, lines[1..]);
    }
  }

  /** A matched entry without hunks gives back the original text. */
  lemma NoHunksIsIdentity(original: string, files: seq<PatchedFile>, filename: string)
    requires FirstMatch(files, filename) < |files|
    requires files[FirstMatch(files, filename)].hunks == []
    ensures PatchFile(original, files, filename) == Ok(original)
  {
    var orig := SplitKeepEnds(original);
    assert PatchedLines(orig, []) == Ok([] + orig[0..]);
    assert [] + orig[0..] == orig;
    ConcatSplitKeepEnds(original);
  }

  /** Closed form of the copy loop: the original lines between the cursor
      and the hunk start, verbatim and in order. */
  lemma {:induction false} CopyUpToClosed(orig: seq<string>, c: Cursor, start: int)
    ensures CopyUpTo(orig, c, start) ==
      if start <= c.idx then Ok(c)
      else if start > |orig| then Err(IndexError)
      else Ok(Cursor(start, c.out + orig[c.idx..start]))
    decreases start - c.idx
  {
    if start > c.idx && c.idx < |orig| {
      var c1 := Cursor(c.idx + 1, c.out + [orig[c.idx]]);
      CopyUpToClosed(orig, c1, start);
      if start <= |orig| {
        assert orig[c.idx..start] == [orig[c.idx]] + orig[c1.idx..start];
        assert c1.out + orig[c1.idx..start] == c.out + orig[c.idx..start];
        if start == c1.idx {
          assert orig[c1.idx..start] == [];
          assert c1.out + orig[c1.idx..start] == c1.out;
        }
      }
    }
  }

  /** The cursor loops only ever append to the output. */
  lemma {:induction false} LinesExtendOutput(orig: seq<string>, c: Cursor, lines: seq<DiffLine>)
    ensures ApplyLines(orig, c, lines).Ok? ==> c.out <= ApplyLines(orig, c, lines).value.out
    decreases |lines|
  {
    if lines != [] {
      match StepLine(orig, c, lines[0])
      case Err(e) =>
      case Ok(c1) => LinesExtendOutput(orig, c1, lines[1..]);
    }
  }

  lemma {:induction false} HunksExtendOutput(orig: seq<string>, c: Cursor, hunks: seq<Hunk>)
    ensures ApplyHunks(orig, c, hunks).Ok? ==> c.out <= ApplyHunks(orig, c, hunks).value.out
    decreases |hunks|
  {
    if hunks != [] {
      ApplyHunksCons(orig, c, hunks);
      CopyUpToClosed(orig, c, HunkStart(hunks[0]));
      match CopyUpTo(orig, c, HunkStart(hunks[0]))
      case Err(e) =>
      case Ok(c1) =>
        LinesExtendOutput(orig, c1, hunks[0].lines);
        match ApplyLines(orig, c1, hunks[0].lines)
        case Err(e) =>
        case Ok(c2) => HunksExtendOutput(orig, c2, hunks[1..]);
    }
  }

  /** The original lines before the first hunk's 1-based start line open
      the output, verbatim and in order. */
  lemma PrefixBeforeFirstHunk(orig: seq<string>, hunks: seq<Hunk>)
    requires hunks != [] && 1 <= hunks[0].sourceStart
    requires PatchedLines(orig, hunks).Ok?
    ensures hunks[0].sourceStart - 1 <= |orig|
    ensures orig[..hunks[0].sourceStart - 1] <= PatchedLines(orig, hunks).value
  {
    var s := HunkStart(hunks[0]);
    var c0 := Cursor(0, []);
    ApplyHunksCons(orig, c0, hunks);
    CopyUpToClosed(orig, c0, s);
    var c1 := CopyUpTo(orig, c0, s).value;
    assert c1.out == orig[..s];
    LinesExtendOutput(orig, c1, hunks[0].lines);
    var c2 := ApplyLines(orig, c1, hunks[0].lines).value;
    HunksExtendOutput(orig, c2, hunks[1..]);
  }

  // --- the diff's text of context and removed lines is never used ---

  /** The same lines with the text of context and removed lines blanked. */
  function Blanked(lines: seq<DiffLine>): (r: seq<DiffLine>)
    ensures |r| == |lines|
  {
    if lines == [] then []
    else
      var l := lines[0];
      [if l.kind == Added then l else DiffLine(l.kind, "")] + Blanked(lines[1..])
  }

  /** A context line emits the original line, not the diff's copy of it, and
      a removed line emits nothing: only added lines' text reaches the output. */
  lemma {:induction false} DiffTextOfOldSideIgnored(orig: seq<string>, c: Cursor, lines: seq<DiffLine>)
    ensures ApplyLines(orig, c, lines) == ApplyLines(orig, c, Blanked(lines))
    decreases |lines|
  {
    if lines != [] {
      assert Blanked(lines)[1..] == Blanked(lines[1..]);
      match StepLine(orig, c, lines[0])
      case Err(e) =>
      case Ok(c1) => DiffTextOfOldSideIgnored(orig, c1, lines[1..]);
    }
  }

  // --- the textbook meaning of a hunk ---

  /** The hunk's old side (context and removed lines) and new side (context
      and added lines), as the diff writes them. */
  function OldSide(lines: seq<DiffLine>): seq<string>
  {
    if lines == [] then []
    else (if lines[0].kind in {Context, Removed} then [lines[0].value] else []) + OldSide(lines[1..])
  }

  function NewSide(lines: seq<DiffLine>): seq<string>
  {
    if lines == [] then []
    else (if lines[0].kind in {Context, Added} then [lines[0].value] else []) + NewSide(lines[1..])
  }

  /** When the original agrees with the hunk's old side at the cursor, the
      hunk replaces exactly those lines by its new side. */
  lemma {:induction false} HunkReplacesOldSide(orig: seq<string>, c: Cursor, lines: seq<DiffLine>)
    requires c.idx + |OldSide(lines)| <= |orig|
    requires orig[c.idx..c.idx + |OldSide(lines)|] == OldSide(lines)
    ensures ApplyLines(orig, c, lines) == Ok(Cursor(c.idx + |OldSide(lines)|, c.out + NewSide(lines)))
    decreases |lines|
  {
    if lines != [] {
      var l := lines[0];
      var rest := lines[1..];
      var m := |OldSide(rest)|;
      if l.kind in {Context, Removed} {
        assert OldSide(lines) == [l.value] + OldSide(rest);
        assert orig[c.idx] == orig[c.idx..c.idx + 1 + m][0] == l.value;
        assert orig[c.idx + 1..c.idx + 1 + m] == orig[c.idx..c.idx + 1 + m][1..];
      } else {
        assert OldSide(lines) == OldSide(rest);
      }
      var c1 := StepLine(orig, c, l).value;
      assert ApplyLines(orig, c, lines) == ApplyLines(orig, c1, rest);
      HunkReplacesOldSide(orig, c1, rest);
      assert c1.idx + m == c.idx + |OldSide(lines)|;
      if l.kind == Context {
        assert NewSide(lines) == [l.value] + NewSide(rest);
        assert c1.out + NewSide(rest) == c.out + NewSide(lines);
      } else if l.kind == Added {
        assert NewSide(lines) == [l.value] + NewSide(rest);
        assert c1.out + NewSide(rest) == c.out + NewSide(lines);
      } else {
        assert NewSide(lines) == NewSide(rest);
      }
    } else {
      assert c.out + NewSide(lines) == c.out;
    }
  }

  /** A single hunk whose old side matches the original at its start line
      turns the file into: the lines before it, its new side, the lines
      after the replaced ones. */
  lemma SingleHunkPatch(original: string, f: PatchedFile, h: Hunk)
    requires f.hunks == [h] && 1 <= h.sourceStart
    requires HunkStart(h) + |OldSide(h.lines)| <= |SplitKeepEnds(original)|
    requires SplitKeepEnds(original)[HunkStart(h)..HunkStart(h) + |OldSide(h.lines)|] == OldSide(h.lines)
    ensures PatchFile(original, [f], f.path) == Ok(Concat(
      SplitKeepEnds(original)[..HunkStart(h)] + NewSide(h.lines)
      + SplitKeepEnds(original)[HunkStart(h) + |OldSide(h.lines)|..]))
  {
    var orig := SplitKeepEnds(original);
    SingleHunkLines(orig, h);
    assert Matches(f, f.path);
    assert FirstMatch([f], f.path) == 0;
  }

  /** The same on the original's lines. */
  lemma SingleHunkLines(orig: seq<string>, h: Hunk)
    requires 1 <= h.sourceStart
    requires HunkStart(h) + |OldSide(h.lines)| <= |orig|
    requires orig[HunkStart(h)..HunkStart(h) + |OldSide(h.lines)|] == OldSide(h.lines)
    ensures PatchedLines(orig, [h]) ==
      Ok(orig[..HunkStart(h)] + NewSide(h.lines) + orig[HunkStart(h) + |OldSide(h.lines)|..])
  {
    var s := HunkStart(h);
    ApplyHunksCons(orig, Cursor(0, []), [h]);
    CopyUpToClosed(orig, Cursor(0, []), s);
    assert orig[0..s] == orig[..s];
    var c1 := Cursor(s, orig[..s]);
    if s == 0 {
      assert orig[..s] == [];
    } else {
      assert [] + orig[0..s] == orig[..s];
    }
    assert CopyUpTo(orig, Cursor(0, []), s) == Ok(c1);
    HunkReplacesOldSide(orig, c1, h.lines);
    var c2 := Cursor(s + |OldSide(h.lines)|, orig[..s] + NewSide(h.lines));
    assert [h][1..] == [];
    assert ApplyHunks(orig, Cursor(0, []), [h]) == Ok(c2);
  }

  // --- line count when the hunks fit ---

  function OldLen(lines: seq<DiffLine>): nat
  {
    if lines == [] then 0 else (if lines[0].kind in {Context, Removed} then 1 else 0) + OldLen(lines[1..])
  }

  function CountKind(lines: seq<DiffLine>, k: LineKind): nat
  {
    if lines == [] then 0 else (if lines[0].kind == k then 1 else 0) + CountKind(lines[1..], k)
  }

  function HunksCount(hunks: seq<Hunk>, k: LineKind): nat
  {
    if hunks == [] then 0 else CountKind(hunks[0].lines, k) + HunksCount(hunks[1..], k)
  }

  /** The cursor position a hunk starts from (a zero start line means 0). */
  function StartIdx(h: Hunk): nat
  {
    if h.sourceStart == 0 then 0 else h.sourceStart - 1
  }

  /** The hunks are in order, do not overlap, and stay inside the original. */
  predicate FitFrom(origLen: nat, from: nat, hunks: seq<Hunk>)
    decreases |hunks|
  {
    if hunks == [] then from <= origLen
    else
      && from <= StartIdx(hunks[0])
      && StartIdx(hunks[0]) + OldLen(hunks[0].lines) <= origLen
      && FitFrom(origLen, StartIdx(hunks[0]) + OldLen(hunks[0].lines), hunks[1..])
  }

  lemma {:induction false} LinesCount(orig: seq<string>, c: Cursor, lines: seq<DiffLine>)
    requires c.idx + OldLen(lines) <= |orig|
    ensures ApplyLines(orig, c, lines).Ok?
    ensures ApplyLines(orig, c, lines).value.idx == c.idx + OldLen(lines)
    ensures |ApplyLines(orig, c, lines).value.out|
            == |c.out| + CountKind(lines, Context) + CountKind(lines, Added)
    ensures OldLen(lines) == CountKind(lines, Context) + CountKind(lines, Removed)
    decreases |lines|
  {
    if lines != [] {
      var c1 := StepLine(orig, c, lines[0]).value;
      LinesCount(orig, c1, lines[1..]);
    }
  }

  lemma {:induction false} HunksCountLemma(orig: seq<string>, c: Cursor, hunks: seq<Hunk>)
    requires FitFrom(|orig|, c.idx, hunks)
    ensures ApplyHunks(orig, c, hunks).Ok?
    ensures ApplyHunks(orig, c, hunks).value.idx <= |orig|
    ensures |ApplyHunks(orig, c, hunks).value.out| - ApplyHunks(orig, c, hunks).value.idx
            == |c.out| - c.idx + HunksCount(hunks, Added) - HunksCount(hunks, Removed)
    decreases |hunks|
  {
    if hunks != [] {
      var h := hunks[0];
      ApplyHunksCons(orig, c, hunks);
      CopyUpToClosed(orig, c, HunkStart(h));
      var c1 := CopyUpTo(orig, c, HunkStart(h)).value;
      assert c1.idx == StartIdx(h);
      assert |c1.out| - c1.idx == |c.out| - c.idx;
      LinesCount(orig, c1, h.lines);
      var c2 := ApplyLines(orig, c1, h.lines).value;
      HunksCountLemma(orig, c2, hunks[1..]);
    }
  }

  /** With hunks in order and inside the original, applying succeeds and the
      output has the original's line count plus added minus removed lines. */
  lemma FittingHunksLineCount(orig: seq<string>, hunks: seq<Hunk>)
    requires FitFrom(|orig|, 0, hunks)
    ensures PatchedLines(orig, hunks).Ok?
    ensures |PatchedLines(orig, hunks).value|
            == |orig| + HunksCount(hunks, Added) - HunksCount(hunks, Removed)
  {
    HunksCountLemma(orig, Cursor(0, []), hunks);
  }
}
