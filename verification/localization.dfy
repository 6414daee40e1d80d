/** Localization scores: which files and which new-side line numbers a
    unified diff touches, and how well a generated patch's touched files
    and lines overlap those of the gold patch. */
module Localization {
  import opened Common
  import opened Text

  // ---------------------------------------------------------------------
  // Python's int() on a token without whitespace
  // ---------------------------------------------------------------------

  /** Digits separated by single underscores: "1_000" but not "_1", "1_" or "1__0". */
  predicate Grouped(b: string)
    decreases |b|
  {
    |b| >= 1 && IsDigit(b[0])
    && (|b| == 1 || Grouped(b[1..]) || (b[1] == '_' && Grouped(b[2..])))
  }

  /** The digits of b, in order (the underscores dropped). */
  function DigitsOnly(b: string): (d: string)
    ensures AllDigits(d)
    decreases |b|
  {
    if b == [] then [] else (if IsDigit(b[0]) then [b[0]] else []) + DigitsOnly(b[1..])
  }

  /** int(s) for a string without whitespace: an optional sign, then digit
      groups; None where Python raises ValueError. */
  function ParseInt(s: string): Option<int>
  {
    if s == [] then None
    else
      var neg := s[0] == '-';
      var body := if s[0] == '-' || s[0] == '+' then s[1..] else s;
      if !Grouped(body) then None
      else
        var v: int := DigitsValue(DigitsOnly(body));
        Some(if neg then -v else v)
  }

  lemma {:induction false} PlainDigitsGrouped(s: string)
    requires s != [] && AllDigits(s)
    ensures Grouped(s) && DigitsOnly(s) == s
    decreases |s|
  {
    if |s| > 1 {
      PlainDigitsGrouped(s[1..]);
    }
  }

  /** int(str(i)) == i */
  lemma ParseIntOfString(i: int)
    ensures ParseInt(IntToString(i)) == Some(i)
  {
    var n: nat := if i < 0 then -i else i;
    NatToStringDigits(n);
    NatToStringValue(n);
    PlainDigitsGrouped(NatToString(n));
    if i < 0 {
      assert IntToString(i)[1..] == NatToString(n);
    } else {
      assert IsDigit(NatToString(n)[0]);
    }
  }

  /** A string made of anything but digits and underscores is not a number. */
  lemma ParseIntRejectsLetters(s: string)
    requires s != [] && s[|s| - 1] != '_' && !IsDigit(s[|s| - 1])
    ensures ParseInt(s) == None
  {
    var body := if s[0] == '-' || s[0] == '+' then s[1..] else s;
    if Grouped(body) {
      GroupedEndsWithDigit(body);
    }
  }

  lemma {:induction false} GroupedEndsWithDigit(b: string)
    requires Grouped(b)
    ensures IsDigit(b[|b| - 1])
    decreases |b|
  {
    if |b| > 1 {
      if Grouped(b[1..]) {
        GroupedEndsWithDigit(b[1..]);
      } else {
        GroupedEndsWithDigit(b[2..]);
      }
    }
  }

  // ---------------------------------------------------------------------
  // One line of the diff
  // ---------------------------------------------------------------------

  /** s[k:] */
  function DropPrefix(s: string, k: nat): string
  {
    if k <= |s| then s[k..] else []
  }

  /** s.split(",")[0] */
  function BeforeComma(s: string): (r: string)
    ensures r <= s && ',' !in r
    ensures |r| < |s| ==> s[|r|] == ','
  {
    if s == [] || s[0] == ',' then [] else [s[0]] + BeforeComma(s[1..])
  }

  /** The file a "diff --git a/x b/x" line names: its third token without
      its first two characters, when the line has at least four tokens. */
  function FileOf(line: string): Option<string>
  {
    var parts := SplitWS(line);
    if "diff --git" <= line && |parts| >= 4 then Some(DropPrefix(parts[2], 2)) else None
  }

  /** The new-side start of a hunk header's third token ("+160,7" gives 160). */
  function HeaderStart(token: string): Option<int>
  {
    ParseInt(DropPrefix(BeforeComma(token), 1))
  }

  /** An added line: starts with "+" but is not a "+++" file header. */
  predicate AddedLine(line: string)
  {
    "+" <= line && !("+++" <= line)
  }

  /** A hunk header with fewer than three tokens: header_parts[2] raises. */
  predicate ShortHunkHeader(line: string)
  {
    !("diff --git" <= line) && "@@" <= line && |SplitWS(line)| < 3
  }

  /** The scanner's variables: the files and new-side lines seen so far and
      the new-side number of the next line, once a hunk header has set it. */
  datatype ScanState = ScanState(files: set<string>, lines: set<int>, cursor: Option<int>)

  const Start := ScanState({}, {}, None)

  const IndexError := Exception("IndexError", "list index out of range")

  /** The effect of one line on the scanner. */
  function Step(st: ScanState, line: string): Result<ScanState>
  {
    if "diff --git" <= line then
      (match FileOf(line)
       case Some(f) => Ok(st.(files := st.files + {f}))
       case None => Ok(st))
    else if "@@" <= line then
      var parts := SplitWS(line);
      if |parts| < 3 then Err(IndexError)
      else
        (match HeaderStart(parts[2])
         case Some(v) => Ok(st.(cursor := Some(v)))
         case None => Ok(st))
    else if AddedLine(line) then
      (match st.cursor
       case Some(c) => Ok(st.(lines := st.lines + {c}, cursor := Some(c + 1)))
       case None => Ok(st))
    else if !("-" <= line) then
      (match st.cursor
       case Some(c) => Ok(st.(cursor := Some(c + 1)))
       case None => Ok(st))
    else
      Ok(st)
  }

  /** The scanner after the first n lines; the first exception stops it. */
  function Scan(ls: seq<string>, n: nat): Result<ScanState>
    requires n <= |ls|
  {
    if n == 0 then Ok(Start)
    else
      match Scan(ls, n - 1)
      case Err(e) => Err(e)
      case Ok(st) => Step(st, ls[n - 1])
  }

  /** extract_file_and_lines_from_patch(patch) */
  function Extract(patch: string): Result<(set<string>, set<int>)>
  {
    var ls := SplitLines(patch);
    match Scan(ls, |ls|)
    case Ok(st) => Ok((st.files, st.lines))
    case Err(e) => Err(e)
  }

  lemma {:induction false} ScanKeepsError(ls: seq<string>, i: nat, n: nat)
    requires 0 < i <= n <= |ls| && Scan(ls, i).Err?
    ensures Scan(ls, n) == Scan(ls, i)
    decreases n - i
  {
    if n > i {
      ScanKeepsError(ls, i, n - 1);
    }
  }

  /** The scan of a patch, one line at a time. */
  method ExtractFileAndLines(patch: string) returns (r: Result<(set<string>, set<int>)>)
    ensures r == Extract(patch)
  {
    var ls := SplitLines(patch);
    var files: set<string> := {};
    var lines: set<int> := {};
    var cursor: Option<int> := None;
    for i := 0 to |ls|
      invariant Scan(ls, i) == Ok(ScanState(files, lines, cursor))
    {
      var next := ScanLine(files, lines, cursor, ls[i]);
      if next.Err? {
        r := Err(next.error);
        ScanKeepsError(ls, i + 1, |ls|);
        return;
      }
      files, lines, cursor := next.value.files, next.value.lines, next.value.cursor;
    }
    r := Ok((files, lines));
  }

  /** The body of the scanning loop for one line. */
  method ScanLine(files: set<string>, lines: set<int>, cursor: Option<int>, line: string)
    returns (r: Result<ScanState>)
    ensures r == Step(ScanState(files, lines, cursor), line)
  {
    var files', lines', cursor' := files, lines, cursor;
    if "diff --git" <= line {
      var parts := SplitWS(line);
      if |parts| >= 4 {
        files' := files' + {DropPrefix(parts[2], 2)};
      }
    } else if "@@" <= line {
      var headerParts := SplitWS(line);
      if |headerParts| < 3 {
        return Err(IndexError);
      }
      var start := ParseInt(DropPrefix(BeforeComma(headerParts[2]), 1));
      if start.Some? {
        cursor' := start;
      }
    } else if "+" <= line && !("+++" <= line) {
      if cursor'.Some? {
        lines' := lines' + {cursor'.value};
        cursor' := Some(cursor'.value + 1);
      }
    } else if !("-" <= line) {
      if cursor'.Some? {
        cursor' := Some(cursor'.value + 1);
      }
    }
    r := Ok(ScanState(files', lines', cursor'));
  }

  // ---------------------------------------------------------------------
  // What the scan finds
  // ---------------------------------------------------------------------

  /** The scan fails exactly when some line is a hunk header with fewer
      than three tokens. */
  lemma {:induction false} ScanFailsIff(ls: seq<string>, n: nat)
    requires n <= |ls|
    ensures Scan(ls, n).Err? <==> exists k :: 0 <= k < n && ShortHunkHeader(ls[k])
    ensures Scan(ls, n).Err? ==> Scan(ls, n).error == IndexError
  {
    if n > 0 {
      ScanFailsIff(ls, n - 1);
      if Scan(ls, n - 1).Ok? && !ShortHunkHeader(ls[n - 1]) {
        assert Step(Scan(ls, n - 1).value, ls[n - 1]).Ok?;
      }
    }
  }

  /** The files found are exactly those named by the "diff --git" lines with
      at least four tokens. */
  lemma {:induction false} ScanFiles(ls: seq<string>, n: nat, x: string)
    requires n <= |ls| && Scan(ls, n).Ok?
    ensures x in Scan(ls, n).value.files <==> exists k :: 0 <= k < n && FileOf(ls[k]) == Some(x)
  {
    if n > 0 {
      ScanFiles(ls, n - 1, x);
      var line := ls[n - 1];
      if !("diff --git" <= line) {
        assert FileOf(line) == None;
      }
    }
  }

  /** Every line number found comes from an added line. */
  lemma {:induction false} ScanLinesFromAdded(ls: seq<string>, n: nat)
    requires n <= |ls| && Scan(ls, n).Ok? && Scan(ls, n).value.lines != {}
    ensures exists k :: 0 <= k < n && AddedLine(ls[k])
  {
    var st := Scan(ls, n - 1).value;
    if st.lines != {} {
      ScanLinesFromAdded(ls, n - 1);
    } else {
      assert AddedLine(ls[n - 1]);
    }
  }

  /** Before the first hunk header no line numbers are recorded and there
      is no cursor. */
  lemma {:induction false} NothingBeforeFirstHunk(ls: seq<string>, n: nat)
    requires n <= |ls|
    requires forall k :: 0 <= k < n ==> !("@@" <= ls[k])
    ensures Scan(ls, n).Ok?
    ensures Scan(ls, n).value.lines == {} && Scan(ls, n).value.cursor == None
  {
    if n > 0 {
      NothingBeforeFirstHunk(ls, n - 1);
    }
  }

  /** Files and line numbers only accumulate. */
  lemma {:induction false} ScanGrows(ls: seq<string>, m: nat, n: nat)
    requires m <= n <= |ls| && Scan(ls, n).Ok?
    ensures Scan(ls, m).Ok?
    ensures Scan(ls, m).value.files <= Scan(ls, n).value.files
    ensures Scan(ls, m).value.lines <= Scan(ls, n).value.lines
    decreases n - m
  {
    if m < n {
      ScanGrows(ls, m, n - 1);
    }
  }

  /** An added line under a cursor records the cursor and moves it on; a
      removed line leaves everything as it was. */
  lemma AddedAndRemovedLines(st: ScanState, line: string)
    requires st.cursor.Some? && !("diff --git" <= line) && !("@@" <= line)
    ensures AddedLine(line) ==>
      Step(st, line) == Ok(ScanState(st.files, st.lines + {st.cursor.value}, Some(st.cursor.value + 1)))
    ensures "-" <= line ==> Step(st, line) == Ok(st)
  {
    if "-" <= line {
      assert line[0] == '-';
      assert !("+" <= line);
    }
  }

  /** A hunk header "@@ -a,b +c,d @@" moves the cursor to c. */
  lemma HeaderStartOf(c: nat, rest: string)
    ensures HeaderStart("+" + NatToString(c) + "," + rest) == Some(c)
    ensures HeaderStart("+" + NatToString(c)) == Some(c)
  {
    var digits := NatToString(c);
    NatToStringDigits(c);
    assert forall i :: 0 <= i < |"+" + digits| ==> ("+" + digits)[i] != ',' by {
      forall i | 0 <= i < |"+" + digits|
        ensures ("+" + digits)[i] != ','
      {
        if i > 0 {
          assert ("+" + digits)[i] == digits[i - 1];
          assert IsDigit(digits[i - 1]);
        }
      }
    }
    CommaFree("+" + digits, rest);
    CommaFree("+" + digits, []);
    assert ("+" + digits + [])  == "+" + digits;
    assert DropPrefix("+" + digits, 1) == digits;
    ParseNat(c);
  }

  /** int(str(c)) == c */
  lemma ParseNat(c: nat)
    ensures ParseInt(NatToString(c)) == Some(c)
  {
    var digits := NatToString(c);
    NatToStringDigits(c);
    NatToStringValue(c);
    PlainDigitsGrouped(digits);
    assert IsDigit(digits[0]);
  }

  lemma {:induction false} CommaFree(a: string, rest: string)
    requires forall i :: 0 <= i < |a| ==> a[i] != ','
    ensures BeforeComma(a + "," + rest) == a
    ensures BeforeComma(a) == a
  {
    if a != [] {
      CommaFree(a[1..], rest);
      assert (a + "," + rest)[1..] == a[1..] + "," + rest;
    }
  }

  // ---------------------------------------------------------------------
  // Scores
  // ---------------------------------------------------------------------

  datatype Scores = Scores(fileScore: real, lineScore: real)
  {
    function ToDict(): Dict
    {
      map["localization_score_file" := JReal(fileScore),
          "localization_score_line" := JReal(lineScore)]
    }
  }

  /** Truthiness of an optional string: neither None nor "". */
  predicate Truthy(s: Option<string>)
  {
    s.Some? && s.value != []
  }

  /** The scores of a generated patch's files and lines against the gold
      patch's. */
  function Overlap(goldFiles: set<string>, goldLines: set<int>,
                   predFiles: set<string>, predLines: set<int>): Scores
  {
    Scores(if goldFiles * predFiles != {} then 1.0 else 0.0,
           if goldLines != {} then (|goldLines * predLines| as real) / (|goldLines| as real) else 0.0)
  }

  /** compute_localization_scores(generated, gold): the gold patch is
      scanned first, so its exception wins. */
  function ComputeScores(generated: string, gold: Option<string>): Result<Scores>
  {
    if !Truthy(gold) then Ok(Scores(0.0, 0.0))
    else
      match Extract(gold.value)
      case Err(e) => Err(e)
      case Ok(g) =>
        match Extract(generated)
        case Err(e) => Err(e)
        case Ok(p) => Ok(Overlap(g.0, g.1, p.0, p.1))
  }

  lemma {:induction false} SubsetCard<T>(a: set<T>, b: set<T>)
    requires a <= b
    ensures |a| <= |b|
    decreases |b|
  {
    if a != {} {
      var x :| x in a;
      SubsetCard(a - {x}, b - {x});
    }
  }

  lemma SubsetSameCard<T>(a: set<T>, b: set<T>)
    requires a <= b && |a| == |b|
    ensures a == b
  {
    if a != b {
      assert !(forall y :: y in b ==> y in a);
      var x :| x in b && x !in a;
      SubsetCard(a, b - {x});
    }
  }

  /** Without a gold patch both scores are 0. */
  lemma ScoresWithoutGold(generated: string, gold: Option<string>)
    requires !Truthy(gold)
    ensures ComputeScores(generated, gold) == Ok(Scores(0.0, 0.0))
  {
  }

  /** Both scores lie in [0, 1]; the file score is 1 exactly when the two
      patches share a file, and the line score is the fraction of gold lines
      the generated patch also touches, 1 exactly when it touches them all. */
  lemma OverlapMeaning(gf: set<string>, gl: set<int>, pf: set<string>, pl: set<int>)
    ensures var s := Overlap(gf, gl, pf, pl);
      && 0.0 <= s.fileScore <= 1.0
      && 0.0 <= s.lineScore <= 1.0
      && (s.fileScore == 1.0 <==> exists f :: f in gf && f in pf)
      && (gl != {} ==> s.lineScore * (|gl| as real) == |gl * pl| as real)
      && (s.lineScore == 1.0 <==> gl != {} && gl <= pl)
  {
    var s := Overlap(gf, gl, pf, pl);
    if s.fileScore == 1.0 {
      var f :| f in gf * pf;
    }
    if exists f :: f in gf && f in pf {
      var f :| f in gf && f in pf;
      assert f in gf * pf;
    }
    if gl != {} {
      var a := |gl * pl| as real;
      var b := |gl| as real;
      SubsetCard(gl * pl, gl);
      assert 0.0 < b && a <= b;
      assert s.lineScore == a / b;
      assert s.lineScore * b == a;
      if s.lineScore == 1.0 {
        assert a == b;
        SubsetSameCard(gl * pl, gl);
      }
      if gl <= pl {
        assert gl * pl == gl;
      }
    }
  }

  /** compute_localization_scores on two scannable patches scores the
      overlap of their scans, whose meaning OverlapMeaning states. */
  lemma ScoresMeaning(generated: string, gold: string, g: (set<string>, set<int>), p: (set<string>, set<int>))
    requires gold != []
    requires Extract(gold) == Ok(g) && Extract(generated) == Ok(p)
    ensures ComputeScores(generated, Some(gold)) == Ok(Overlap(g.0, g.1, p.0, p.1))
  {
  }

  /** An exception from scanning either patch is the exception of the
      score computation, the gold patch's first. */
  lemma ScoresFail(generated: string, gold: string)
    requires gold != []
    ensures Extract(gold).Err? ==> ComputeScores(generated, Some(gold)) == Err(Extract(gold).error)
    ensures Extract(gold).Ok? && Extract(generated).Err? ==>
      ComputeScores(generated, Some(gold)) == Err(Extract(generated).error)
  {
  }

  /** A scanned patch scored against itself: full marks wherever it touches
      anything. */
  lemma SelfScore(patch: string)
    requires patch != [] && Extract(patch).Ok?
    ensures var s := ComputeScores(patch, Some(patch)).value;
      && (s.fileScore == 1.0 <==> Extract(patch).value.0 != {})
      && (s.lineScore == 1.0 <==> Extract(patch).value.1 != {})
  {
    var g := Extract(patch).value;
    OverlapMeaning(g.0, g.1, g.0, g.1);
    if g.0 != {} {
      var f :| f in g.0;
    }
  }
}
