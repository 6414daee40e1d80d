/** The Ruff lint tool: recounting unified-diff hunk headers, applying each
    proposed per-file diff to its original text and linting the result, and
    stopping at the first item that does not pass. */
module RuffLint {
  import opened Common
  import opened Text
  import DiffApply

  // ---------------------------------------------------------------------
  // The hunk header pattern  ^@@ -(\d+),?(\d*) \+(\d+),?(\d*) @@
  // ---------------------------------------------------------------------

  /** Length of the leading run of decimal digits. */
  function DigitRun(s: string): (k: nat)
    ensures k <= |s|
  {
    if s == [] || !IsDigit(s[0]) then 0 else 1 + DigitRun(s[1..])
  }

  /** The run is made of digits and is maximal. */
  lemma {:induction false} DigitRunIsMaximal(s: string)
    ensures AllDigits(s[..DigitRun(s)])
    ensures DigitRun(s) < |s| ==> !IsDigit(s[DigitRun(s)])
  {
    if s != [] && IsDigit(s[0]) {
      DigitRunIsMaximal(s[1..]);
      assert s[..DigitRun(s)] == [s[0]] + s[1..][..DigitRun(s[1..])];
    }
  }

  /** What is left after the optional ",\d*" count. */
  function SkipCount(s: string): string
  {
    if s != [] && s[0] == ',' then s[1 + DigitRun(s[1..])..] else s
  }

  /** "\d+" then ",?\d*": the value of the leading digits and what follows
      the optional count. Digit runs are taken whole: the character after
      a run is never a digit, so the regex's backtracking into a run never
      yields another match, and a left-to-right scan decides the pattern. */
  function ParseRange(s: string): Option<(nat, string)>
  {
    var k := DigitRun(s);
    if k == 0 then None
    else
      DigitRunIsMaximal(s);
      Some((DigitsValue(s[..k]), SkipCount(s[k..])))
  }

  /** The pattern r"^@@ -(\d+),?(\d*) \+(\d+),?(\d*) @@" read in five
      phases: "@@ -", a range, " +", a range, " @@". The result is the
      starts captured from `phase` on, or None when the text does not match. */
  function HeaderFrom(phase: nat, s: string): (r: Option<seq<nat>>)
    requires phase <= 4
    ensures r.Some? ==> |r.value| == (5 - phase) / 2
    decreases 4 - phase
  {
    if phase == 0 then
      if |s| >= 4 && s[0] == '@' && s[1] == '@' && s[2] == ' ' && s[3] == '-' then HeaderFrom(1, s[4..]) else None
    else if phase == 2 then
      if |s| >= 2 && s[0] == ' ' && s[1] == '+' then HeaderFrom(3, s[2..]) else None
    else if phase == 4 then
      if |s| >= 3 && s[0] == ' ' && s[1] == '@' && s[2] == '@' then Some([]) else None
    else
      var range := ParseRange(s);
      if range.None? then None
      else
        var more := HeaderFrom(phase + 1, range.value.1);
        if more.None? then None else Some([range.value.0] + more.value)
  }

  /** re.match on the header pattern: the old and new start (groups 1 and
      3), or None when the line does not match at its start. */
  function ParseHeader(line: string): Option<(nat, nat)>
  {
    var m := HeaderFrom(0, line);
    if m.None? then None else Some((m.value[0], m.value[1]))
  }

  /** line.startswith("@@") */
  predicate StartsWithAt(l: string)
  {
    |l| >= 2 && l[0] == '@' && l[1] == '@'
  }

  /** A header line "@@ -a[,b] +c[,d] @@<section>". */
  function HeaderShape(a: string, hasB: bool, b: string, c: string, hasD: bool, d: string, section: string): string
  {
    Concat(HeaderParts(a, hasB, b, c, hasD, d, section))
  }

  function HeaderParts(a: string, hasB: bool, b: string, c: string, hasD: bool, d: string, section: string): seq<string>
  {
    ["@@ -", RangeText(a, hasB, b), " +", RangeText(c, hasD, d), " @@", section]
  }

  /** A range "start[,count]". */
  function RangeText(start: string, hasCount: bool, count: string): string
  {
    start + CountPart(hasCount, count)
  }

  /** The optional ",count" part: none, or a comma and a digit string. */
  function CountPart(present: bool, count: string): string
  {
    if present then "," + count else ""
  }

  /** f"@@ -{orig_start},{minus_count} +{new_start},{plus_count} @@\n" */
  function HeaderText(origStart: nat, minus: nat, newStart: nat, plus: nat): string
  {
    HeaderShape(NatToString(origStart), true, NatToString(minus), NatToString(newStart), true, NatToString(plus), "\n")
  }

  /** line.startswith("-") and not line.startswith("---") */
  predicate IsMinus(l: string)
  {
    "-" <= l && !("---" <= l)
  }

  /** line.startswith("+") and not line.startswith("+++") */
  predicate IsPlus(l: string)
  {
    "+" <= l && !("+++" <= l)
  }

  /** How many lines count as removed. */
  function MinusCount(ls: seq<string>): nat
  {
    if ls == [] then 0
    else (if IsMinus(ls[0]) then 1 else 0) + MinusCount(ls[1..])
  }

  /** How many lines count as added. */
  function PlusCount(ls: seq<string>): nat
  {
    if ls == [] then 0
    else (if IsPlus(ls[0]) then 1 else 0) + PlusCount(ls[1..])
  }

  /** Index of the first line at or after j that starts with "@@", or |lines|. */
  function BodyEnd(lines: seq<string>, j: nat): (e: nat)
    requires j <= |lines|
    ensures j <= e <= |lines|
    decreases |lines| - j
  {
    if j == |lines| || StartsWithAt(lines[j]) then j else BodyEnd(lines, j + 1)
  }

  /** The body holds no line starting with "@@"; the line after it does. */
  lemma {:induction false} BodyEndIsNextAt(lines: seq<string>, j: nat, k: nat)
    requires j <= k <= |lines|
    ensures k < BodyEnd(lines, j) ==> !StartsWithAt(lines[k])
    ensures k == BodyEnd(lines, j) < |lines| ==> StartsWithAt(lines[k])
    decreases |lines| - j
  {
    if j < |lines| && !StartsWithAt(lines[j]) && j < k {
      BodyEndIsNextAt(lines, j + 1, k);
    }
  }

  /** The removed and added lines counted from line j up to the next line
      starting with "@@", as the inner loop of fix_hunk_headers walks them. */
  function BodyCounts(lines: seq<string>, j: nat): (nat, nat)
    requires j <= |lines|
    decreases |lines| - j
  {
    if j == |lines| || StartsWithAt(lines[j]) then (0, 0)
    else
      var t := BodyCounts(lines, j + 1);
      (t.0 + (if IsMinus(lines[j]) then 1 else 0), t.1 + (if IsPlus(lines[j]) then 1 else 0))
  }

  /** The walk counts exactly the body's removed and added lines. */
  lemma {:induction false} BodyCountsAre(lines: seq<string>, j: nat)
    requires j <= |lines|
    ensures BodyCounts(lines, j) ==
      (MinusCount(lines[j..BodyEnd(lines, j)]), PlusCount(lines[j..BodyEnd(lines, j)]))
    decreases |lines| - j
  {
    if j < |lines| && !StartsWithAt(lines[j]) {
      BodyCountsAre(lines, j + 1);
      var e := BodyEnd(lines, j);
      assert lines[j..e][1..] == lines[j + 1..e];
    }
  }

  /** What the repair emits for one input line: the line itself, or a
      recounted header, kept as its four numbers until it is rendered. */
  datatype Emitted = Copied(line: string) | Recounted(origStart: nat, minus: nat, newStart: nat, plus: nat)
  {
    function Text(): string
    {
      match this
      case Copied(line) => line
      case Recounted(o, m, n, p) => HeaderText(o, m, n, p)
    }
  }

  /** The text of each emitted line, in order. */
  function Render(es: seq<Emitted>): (ls: seq<string>)
    ensures |ls| == |es|
  {
    if es == [] then [] else [es[0].Text()] + Render(es[1..])
  }

  /** Lines copied as they are. */
  function Copies(ls: seq<string>): (es: seq<Emitted>)
    ensures |es| == |ls|
  {
    if ls == [] then [] else [Copied(ls[0])] + Copies(ls[1..])
  }

  lemma {:induction false} CopiesIndex(ls: seq<string>, x: nat)
    requires x < |ls|
    ensures Copies(ls)[x] == Copied(ls[x])
  {
    if x > 0 {
      CopiesIndex(ls[1..], x - 1);
    }
  }

  /** What line k becomes: a header line is recounted over its body, from
      the next line up to the next line starting with "@@"; every other
      line is copied. */
  function Plan(lines: seq<string>, k: nat): Emitted
    requires k < |lines|
  {
    var h := ParseHeader(lines[k]);
    if h.None? then Copied(lines[k])
    else
      var c := BodyCounts(lines, k + 1);
      Recounted(h.value.0, c.0, h.value.1, c.1)
  }

  /** The repair from line i on, hunk by hunk: a header is recounted and
      its body copied; any other line is copied. */
  function FixFrom(lines: seq<string>, i: nat): seq<Emitted>
    requires i <= |lines|
    decreases |lines| - i
  {
    if i == |lines| then []
    else if ParseHeader(lines[i]).None? then [Copied(lines[i])] + FixFrom(lines, i + 1)
    else
      var j := BodyEnd(lines, i + 1);
      [Plan(lines, i)] + Copies(lines[i + 1..j]) + FixFrom(lines, j)
  }

  /** The repaired diff text. */
  function Repaired(diff: string): string
  {
    Concat(Render(FixFrom(SplitKeepEnds(diff), 0)))
  }

  /** One step of FixFrom at a line that is not a header. */
  lemma FixFromCopyStep(lines: seq<string>, i: nat)
    requires i < |lines| && ParseHeader(lines[i]).None?
    ensures FixFrom(lines, i) == [Copied(lines[i])] + FixFrom(lines, i + 1)
  {
  }

  /** One step of FixFrom at a header line. */
  lemma FixFromHunkStep(lines: seq<string>, i: nat)
    requires i < |lines| && ParseHeader(lines[i]).Some?
    ensures FixFrom(lines, i) == [Plan(lines, i)] + Copies(lines[i + 1..BodyEnd(lines, i + 1)])
                                 + FixFrom(lines, BodyEnd(lines, i + 1))
  {
  }

  lemma {:induction false} RenderAppend(a: seq<Emitted>, b: seq<Emitted>)
    ensures Render(a + b) == Render(a) + Render(b)
  {
    if a != [] {
      assert (a + b)[1..] == a[1..] + b;
      RenderAppend(a[1..], b);
    } else {
      assert a + b == b;
    }
  }

  lemma {:induction false} RenderCopies(ls: seq<string>)
    ensures Render(Copies(ls)) == ls
  {
    if ls != [] {
      RenderCopies(ls[1..]);
    }
  }

  lemma RenderIndex(es: seq<Emitted>, k: nat)
    requires k < |es|
    ensures Render(es)[k] == es[k].Text()
    decreases k
  {
    if k > 0 {
      RenderIndex(es[1..], k - 1);
    }
  }

  /** Rendering a header step: the header's text, then the body as it is. */
  lemma RenderHunk(h: Emitted, body: seq<string>, rest: seq<Emitted>)
    ensures Render([h] + Copies(body) + rest) == [h.Text()] + body + Render(rest)
  {
    RenderAppend([h] + Copies(body), rest);
    RenderAppend([h], Copies(body));
    RenderCopies(body);
  }

  /** fix_hunk_headers: walk the lines; at a header, count the body's
      removed and added lines up to the next "@@" line and emit the
      recounted header followed by the body unchanged. */
  method FixHunkHeaders(diff: string) returns (r: string)
    ensures r == Repaired(diff)
  {
    var lines := SplitKeepEnds(diff);
    var fixedLines: seq<string> := [];
    var i := 0;
    while i < |lines|
      invariant i <= |lines|
      invariant fixedLines + Render(FixFrom(lines, i)) == Render(FixFrom(lines, 0))
      decreases |lines| - i
    {
      i, fixedLines := FixLine(lines, i, fixedLines);
    }
    assert fixedLines == fixedLines + Render(FixFrom(lines, i));
    r := Concat(fixedLines);
  }

  /** One round of fix_hunk_headers' outer loop: a header line is replaced
      by its recounted form and its body copied, any other line copied. */
  method FixLine(lines: seq<string>, i: nat, fixedLines: seq<string>) returns (j: nat, out: seq<string>)
    requires i < |lines|
    ensures i < j <= |lines|
    ensures out + Render(FixFrom(lines, j)) == fixedLines + Render(FixFrom(lines, i))
  {
    var line := lines[i];
    var m := ParseHeader(line);
    if m.Some? {
      var (origStart, newStart) := m.value;
      var minusCount, plusCount;
      j, minusCount, plusCount := CountBody(lines, i + 1);
      var newHeader := HeaderText(origStart, minusCount, newStart, plusCount);
      var body := lines[i + 1..j];
      RenderHeaderStep(lines, i);
      AppendRegroup(fixedLines, [newHeader], body, Render(FixFrom(lines, j)));
      out := fixedLines + [newHeader] + body;
    } else {
      RenderCopyStep(lines, i);
      AppendRegroup(fixedLines, [line], [], Render(FixFrom(lines, i + 1)));
      out := fixedLines + [line];
      j := i + 1;
    }
  }

  /** Rendering from a line that is not a header: the line, then the rest. */
  lemma RenderCopyStep(lines: seq<string>, i: nat)
    requires i < |lines| && ParseHeader(lines[i]).None?
    ensures Render(FixFrom(lines, i)) == [lines[i]] + Render(FixFrom(lines, i + 1))
  {
    FixFromCopyStep(lines, i);
    RenderAppend([Copied(lines[i])], FixFrom(lines, i + 1));
  }

  /** Rendering from a header: the recounted header, its body unchanged,
      then the rest from the next "@@" line. */
  lemma RenderHeaderStep(lines: seq<string>, i: nat)
    requires i < |lines| && ParseHeader(lines[i]).Some?
    ensures var h := ParseHeader(lines[i]).value;
            var e := BodyEnd(lines, i + 1);
            var c := BodyCounts(lines, i + 1);
            Render(FixFrom(lines, i)) == [HeaderText(h.0, c.0, h.1, c.1)] + lines[i + 1..e] + Render(FixFrom(lines, e))
  {
    FixFromHunkStep(lines, i);
    var e := BodyEnd(lines, i + 1);
    RenderHunk(Plan(lines, i), lines[i + 1..e], FixFrom(lines, e));
  }

  lemma AppendRegroup<T>(a: seq<T>, b: seq<T>, c: seq<T>, d: seq<T>)
    ensures (a + b + c) + d == a + (b + c + d)
    ensures (a + b) + d == a + (b + d)
  {
  }

  /** The inner loop of fix_hunk_headers: from `from`, advance to the next
      line starting "@@" (or the end), counting removed and added lines. */
  method CountBody(lines: seq<string>, from: nat) returns (i: nat, minusCount: nat, plusCount: nat)
    requires from <= |lines|
    ensures i == BodyEnd(lines, from)
    ensures (minusCount, plusCount) == BodyCounts(lines, from)
  {
    i, minusCount, plusCount := from, 0, 0;
    while i < |lines| && !StartsWithAt(lines[i])
      invariant from <= i <= |lines|
      invariant BodyEnd(lines, from) == BodyEnd(lines, i)
      invariant minusCount + BodyCounts(lines, i).0 == BodyCounts(lines, from).0
      invariant plusCount + BodyCounts(lines, i).1 == BodyCounts(lines, from).1
    {
      if IsMinus(lines[i]) {
        assert lines[i][0] == '-';
        minusCount := minusCount + 1;
      } else if IsPlus(lines[i]) {
        plusCount := plusCount + 1;
      }
      i := i + 1;
    }
  }

  // ---------------------------------------------------------------------
  // Properties of the repair
  // ---------------------------------------------------------------------

  /** es is what Plan says for each line from i on, in order. */
  predicate PlannedFrom(lines: seq<string>, i: nat, es: seq<Emitted>)
    requires i <= |lines|
  {
    |es| == |lines| - i && forall a :: i <= a < |lines| ==> es[a - i] == Plan(lines, a)
  }

  /** Line by line, the repair emits what Plan says for each line, in order;
      the count is kept. */
  lemma {:induction false} FixFromPointwise(lines: seq<string>, i: nat)
    requires i <= |lines|
    ensures PlannedFrom(lines, i, FixFrom(lines, i))
    decreases |lines| - i
  {
    if i < |lines| {
      if ParseHeader(lines[i]).None? {
        FixFromPointwise(lines, i + 1);
        FixFromCopyStep(lines, i);
        PlannedCopy(lines, i, FixFrom(lines, i + 1));
      } else {
        var j := BodyEnd(lines, i + 1);
        FixFromPointwise(lines, j);
        FixFromHunkStep(lines, i);
        PlannedHunk(lines, i, Plan(lines, i), FixFrom(lines, j));
      }
    }
  }

  /** A copied line followed by the plan of the following lines. */
  lemma PlannedCopy(lines: seq<string>, i: nat, rest: seq<Emitted>)
    requires i < |lines| && ParseHeader(lines[i]).None?
    requires PlannedFrom(lines, i + 1, rest)
    ensures PlannedFrom(lines, i, [Copied(lines[i])] + rest)
  {
    var h := Copied(lines[i]);
    forall a | i <= a < |lines|
      ensures ([h] + rest)[a - i] == Plan(lines, a)
    {
      if a > i {
        CopyRestEntry(lines, i, h, rest, a);
      }
    }
  }

  /** A line after a copied line is planned by the rest. */
  lemma CopyRestEntry(lines: seq<string>, i: nat, h: Emitted, rest: seq<Emitted>, a: nat)
    requires i < a < |lines|
    requires PlannedFrom(lines, i + 1, rest)
    ensures ([h] + rest)[a - i] == Plan(lines, a)
  {
    ConsIndex(h, rest, a - i);
  }

  /** A recounted header, its body copied, then the plan from the next
      "@@" line on. */
  lemma PlannedHunk(lines: seq<string>, i: nat, h: Emitted, rest: seq<Emitted>)
    requires i < |lines| && h == Plan(lines, i)
    requires PlannedFrom(lines, BodyEnd(lines, i + 1), rest)
    ensures PlannedFrom(lines, i, [h] + Copies(lines[i + 1..BodyEnd(lines, i + 1)]) + rest)
  {
    var j := BodyEnd(lines, i + 1);
    var es := [h] + Copies(lines[i + 1..j]) + rest;
    forall a | i <= a < |lines|
      ensures es[a - i] == Plan(lines, a)
    {
      if a == i {
        HunkIndex(h, Copies(lines[i + 1..j]), rest, 0);
      } else if a < j {
        HunkBodyEntry(lines, i, j, h, rest, a);
      } else {
        HunkRestEntry(lines, i, j, h, rest, a);
      }
    }
  }

  /** A body line of a header step is copied, as Plan says. */
  lemma HunkBodyEntry(lines: seq<string>, i: nat, j: nat, h: Emitted, rest: seq<Emitted>, a: nat)
    requires i < a < j && i < |lines| && j == BodyEnd(lines, i + 1)
    ensures ([h] + Copies(lines[i + 1..j]) + rest)[a - i] == Plan(lines, a)
  {
    var body := lines[i + 1..j];
    HunkIndex(h, Copies(body), rest, a - i);
    CopiesIndex(body, a - i - 1);
    BodyLineCopied(lines, i, a);
  }

  /** A line after the body of a header step is planned by the rest. */
  lemma HunkRestEntry(lines: seq<string>, i: nat, j: nat, h: Emitted, rest: seq<Emitted>, a: nat)
    requires i < j <= a < |lines| && i < |lines| && j == BodyEnd(lines, i + 1)
    requires PlannedFrom(lines, j, rest)
    ensures ([h] + Copies(lines[i + 1..j]) + rest)[a - i] == Plan(lines, a)
  {
    var body := lines[i + 1..j];
    HunkIndex(h, Copies(body), rest, a - i);
    assert a - i - 1 - |body| == a - j;
  }

  /** A line inside a hunk body is copied. */
  lemma BodyLineCopied(lines: seq<string>, i: nat, a: nat)
    requires i < a < |lines| && a < BodyEnd(lines, i + 1)
    ensures Plan(lines, a) == Copied(lines[a])
  {
    BodyEndIsNextAt(lines, i + 1, a);
    PlainLineCopied(lines, a);
  }

  /** A line that does not start with "@@" is copied. */
  lemma PlainLineCopied(lines: seq<string>, a: nat)
    requires a < |lines| && !StartsWithAt(lines[a])
    ensures Plan(lines, a) == Copied(lines[a])
  {
    HeaderStartsWithAt(lines[a]);
  }

  lemma ConsIndex<T>(h: T, rest: seq<T>, x: nat)
    requires x < 1 + |rest|
    ensures ([h] + rest)[x] == if x == 0 then h else rest[x - 1]
  {
  }

  lemma HunkIndex<T>(h: T, mid: seq<T>, rest: seq<T>, x: nat)
    requires x < 1 + |mid| + |rest|
    ensures ([h] + mid + rest)[x] ==
      if x == 0 then h else if x <= |mid| then mid[x - 1] else rest[x - 1 - |mid|]
  {
  }

  lemma HeaderStartsWithAt(l: string)
    ensures ParseHeader(l).Some? ==> StartsWithAt(l)
  {
  }

  /** The repaired diff has as many lines as the input; a header line
      becomes "@@ -a,M +c,P @@\n" with its own starts a and c and the counts
      M and P of removed and added lines in its body, whatever followed the
      second "@@" dropped; every other line is copied unchanged. */
  lemma RepairLineByLine(diff: string, k: nat)
    requires k < |SplitKeepEnds(diff)|
    ensures |Render(FixFrom(SplitKeepEnds(diff), 0))| == |SplitKeepEnds(diff)|
    ensures var lines := SplitKeepEnds(diff);
            var out := Render(FixFrom(lines, 0));
            var h := ParseHeader(lines[k]);
            && (h.None? ==> out[k] == lines[k])
            && (h.Some? ==>
                  var body := lines[k + 1..BodyEnd(lines, k + 1)];
                  out[k] == HeaderText(h.value.0, MinusCount(body), h.value.1, PlusCount(body)))
  {
    var lines := SplitKeepEnds(diff);
    FixFromPointwise(lines, 0);
    RenderIndex(FixFrom(lines, 0), k);
    assert FixFrom(lines, 0)[k - 0] == Plan(lines, k);
    if k + 1 <= |lines| {
      BodyCountsAre(lines, k + 1);
    }
  }

  lemma DigitRunOf(d: string, rest: string)
    requires AllDigits(d)
    requires rest == [] || !IsDigit(rest[0])
    ensures DigitRun(d + rest) == |d|
    ensures (d + rest)[..|d|] == d && (d + rest)[|d|..] == rest
  {
    if d != [] {
      assert (d + rest)[1..] == d[1..] + rest;
      DigitRunOf(d[1..], rest);
    }
  }

  lemma SkipCountOf(present: bool, count: string, rest: string)
    requires AllDigits(count)
    requires rest == [] || !IsDigit(rest[0])
    requires rest == [] || rest[0] != ','
    ensures SkipCount(CountPart(present, count) + rest) == rest
  {
    if present {
      assert (CountPart(present, count) + rest)[1..] == count + rest;
      DigitRunOf(count, rest);
    }
  }

  /** Every header of the form "@@ -a[,b] +c[,d] @@<section>" matches, with
      or without the counts and whatever section text follows; the starts
      are read as numbers. */
  lemma HeaderAccepted(a: string, hasB: bool, b: string, c: string, hasD: bool, d: string, section: string)
    requires a != [] && AllDigits(a) && AllDigits(b) && c != [] && AllDigits(c) && AllDigits(d)
    ensures ParseHeader(HeaderShape(a, hasB, b, c, hasD, d, section)) == Some((DigitsValue(a), DigitsValue(c)))
  {
    var u := " @@" + section;
    var t2 := RangeText(c, hasD, d) + u;
    var t := " +" + t2;
    var t0 := RangeText(a, hasB, b) + t;
    HeaderShapeIs(a, hasB, b, c, hasD, d, section);
    assert u[0] == ' ' && u[1] == '@' && u[2] == '@';
    LiteralPhases(u);
    RangeOf(c, hasD, d, u);
    RangePhase(3, t2, DigitsValue(c), u);
    assert t[2..] == t2;
    assert t[0] == ' ' && t[1] == '+';
    LiteralPhases(t);
    RangeOf(a, hasB, b, t);
    RangePhase(1, t0, DigitsValue(a), t);
    var line := "@@ -" + t0;
    assert line[4..] == t0;
    assert line[0] == '@' && line[1] == '@' && line[2] == ' ' && line[3] == '-';
    LiteralPhases(line);
  }

  /** The header's text, part by part. */
  lemma HeaderShapeIs(a: string, hasB: bool, b: string, c: string, hasD: bool, d: string, section: string)
    ensures HeaderShape(a, hasB, b, c, hasD, d, section)
            == "@@ -" + (RangeText(a, hasB, b) + (" +" + (RangeText(c, hasD, d) + (" @@" + section))))
  {
    var parts := HeaderParts(a, hasB, b, c, hasD, d, section);
    var u := " @@" + section;
    var t2 := RangeText(c, hasD, d) + u;
    var t := " +" + t2;
    var t0 := RangeText(a, hasB, b) + t;
    assert Concat(parts[5..]) == section by {
      ConcatFrom(parts, 5);
      assert parts[6..] == [];
    }
    assert Concat(parts[4..]) == u by {
      ConcatFrom(parts, 4);
    }
    assert Concat(parts[3..]) == t2 by {
      ConcatFrom(parts, 3);
    }
    assert Concat(parts[2..]) == t by {
      ConcatFrom(parts, 2);
    }
    assert Concat(parts[1..]) == t0 by {
      ConcatFrom(parts, 1);
    }
    assert Concat(parts) == "@@ -" + t0 by {
      ConcatFrom(parts, 0);
      assert parts[0..] == parts;
    }
  }

  /** The literal phases: each moves past its text to the next phase. */
  lemma LiteralPhases(s: string)
    ensures |s| >= 4 && s[0] == '@' && s[1] == '@' && s[2] == ' ' && s[3] == '-' ==> HeaderFrom(0, s) == HeaderFrom(1, s[4..])
    ensures |s| >= 2 && s[0] == ' ' && s[1] == '+' ==> HeaderFrom(2, s) == HeaderFrom(3, s[2..])
    ensures |s| >= 3 && s[0] == ' ' && s[1] == '@' && s[2] == '@' ==> HeaderFrom(4, s) == Some([])
  {
  }

  /** A range phase that reads value v and leaves rest continues with the
      next phase on rest. */
  lemma RangePhase(phase: nat, s: string, v: nat, rest: string)
    requires phase == 1 || phase == 3
    requires ParseRange(s) == Some((v, rest))
    ensures HeaderFrom(phase, s) ==
      if HeaderFrom(phase + 1, rest).None? then None else Some([v] + HeaderFrom(phase + 1, rest).value)
  {
  }

  /** A range "digits[,count]" followed by a space is read as the digits'
      value, leaving the space and what follows. */
  lemma RangeOf(a: string, has: bool, b: string, rest: string)
    requires a != [] && AllDigits(a) && AllDigits(b)
    requires rest != [] && rest[0] == ' '
    ensures ParseRange(RangeText(a, has, b) + rest) == Some((DigitsValue(a), rest))
  {
    var tail := CountPart(has, b) + rest;
    assert RangeText(a, has, b) + rest == a + tail;
    if has {
      assert tail[0] == ',';
    } else {
      assert tail == rest;
    }
    DigitRunOf(a, tail);
    SkipCountOf(has, b, rest);
  }

  /** The recounted header matches the pattern again, with the same starts. */
  lemma HeaderTextParses(o: nat, m: nat, n: nat, p: nat)
    ensures ParseHeader(HeaderText(o, m, n, p)) == Some((o, n))
  {
    NatToStringValue(o);
    NatToStringValue(n);
    NatToStringDigits(m);
    NatToStringDigits(p);
    HeaderAccepted(NatToString(o), true, NatToString(m), NatToString(n), true, NatToString(p), "\n");
  }

  predicate NoNewline(s: string)
  {
    forall j :: 0 <= j < |s| ==> s[j] != '\n'
  }

  lemma DigitsNoNewline(s: string)
    requires AllDigits(s)
    ensures NoNewline(s)
  {
  }

  lemma {:induction false} ConcatNoNewline(ls: seq<string>)
    requires forall i :: 0 <= i < |ls| ==> NoNewline(ls[i])
    ensures NoNewline(Concat(ls))
  {
    if ls != [] {
      ConcatNoNewline(ls[1..]);
    }
  }

  /** A recounted header is a single line ending in "\n" and starting "@@". */
  lemma HeaderTextIsLine(o: nat, m: nat, n: nat, p: nat)
    ensures HeaderText(o, m, n, p) != [] && NoInnerNewline(HeaderText(o, m, n, p))
    ensures EndsWithNewline(HeaderText(o, m, n, p))
    ensures StartsWithAt(HeaderText(o, m, n, p))
  {
    var parts := HeaderParts(NatToString(o), true, NatToString(m), NatToString(n), true, NatToString(p), "\n");
    var init := parts[..5];
    forall i | 0 <= i < |init|
      ensures NoNewline(init[i])
    {
      if i == 1 || i == 3 {
        NatToStringDigits(o);
        NatToStringDigits(m);
        NatToStringDigits(n);
        NatToStringDigits(p);
        DigitsNoNewline(NatToString(o));
        DigitsNoNewline(NatToString(m));
        DigitsNoNewline(NatToString(n));
        DigitsNoNewline(NatToString(p));
      }
    }
    ConcatNoNewline(init);
    assert parts == init + ["\n"];
    ConcatAppend(init, "\n");
    ConcatFrom(parts, 0);
    assert parts[0..] == parts;
  }

  /** Repairing keeps a diff's line structure: every line but the last ends
      with "\n" and none holds another "\n". */
  lemma FixedLinesShaped(lines: seq<string>)
    requires LineShaped(lines)
    ensures LineShaped(Render(FixFrom(lines, 0)))
  {
    FixFromPointwise(lines, 0);
    var out := Render(FixFrom(lines, 0));
    forall k | 0 <= k < |out|
      ensures out[k] != [] && NoInnerNewline(out[k])
      ensures k < |out| - 1 ==> EndsWithNewline(out[k])
    {
      RenderIndex(FixFrom(lines, 0), k);
      assert FixFrom(lines, 0)[k - 0] == Plan(lines, k);
      var e := Plan(lines, k);
      if e.Recounted? {
        HeaderTextIsLine(e.origStart, e.minus, e.newStart, e.plus);
      }
    }
  }

  /** A recounted line reads back as a header with the same starts, and
      starts with "@@"; a copied line is the input line. */
  lemma PlanText(lines: seq<string>, k: nat)
    requires k < |lines|
    ensures var t := Plan(lines, k).Text();
            && StartsWithAt(t) == StartsWithAt(lines[k])
            && (ParseHeader(lines[k]).None? ==> t == lines[k])
            && (ParseHeader(lines[k]).Some? ==> ParseHeader(t) == ParseHeader(lines[k]))
  {
    HeaderStartsWithAt(lines[k]);
    var e := Plan(lines, k);
    if e.Recounted? {
      HeaderTextIsLine(e.origStart, e.minus, e.newStart, e.plus);
      HeaderTextParses(e.origStart, e.minus, e.newStart, e.plus);
    }
  }

  lemma {:induction false} BodyEndAgrees(xs: seq<string>, ys: seq<string>, j: nat)
    requires |xs| == |ys| && j <= |xs|
    requires forall k :: 0 <= k < |xs| ==> StartsWithAt(xs[k]) == StartsWithAt(ys[k])
    ensures BodyEnd(xs, j) == BodyEnd(ys, j)
    decreases |xs| - j
  {
    if j < |xs| && !StartsWithAt(xs[j]) {
      BodyEndAgrees(xs, ys, j + 1);
    }
  }

  /** A line whose text is what the repair emitted for it, followed by the
      same body, is planned as before. */
  lemma PlanAgain(lines: seq<string>, out: seq<string>, k: nat)
    requires |out| == |lines| && k < |lines|
    requires out[k] == Plan(lines, k).Text()
    requires ParseHeader(lines[k]).Some? ==>
               && BodyEnd(out, k + 1) == BodyEnd(lines, k + 1)
               && out[k + 1..BodyEnd(lines, k + 1)] == lines[k + 1..BodyEnd(lines, k + 1)]
    ensures Plan(out, k) == Plan(lines, k)
  {
    PlanText(lines, k);
    if ParseHeader(lines[k]).Some? {
      BodyCountsAre(lines, k + 1);
      BodyCountsAre(out, k + 1);
    }
  }

  /** Line i of the rendered repair is the text of what Plan says for it. */
  lemma RenderedLine(lines: seq<string>, i: nat)
    requires i < |lines|
    ensures |Render(FixFrom(lines, 0))| == |lines|
    ensures Render(FixFrom(lines, 0))[i] == Plan(lines, i).Text()
  {
    FixFromPointwise(lines, 0);
    RenderIndex(FixFrom(lines, 0), i);
    assert FixFrom(lines, 0)[i - 0] == Plan(lines, i);
  }

  /** Lines start with "@@" at the same places before and after repair. */
  lemma RepairedMarks(lines: seq<string>)
    ensures |Render(FixFrom(lines, 0))| == |lines|
    ensures forall i :: 0 <= i < |lines| ==> StartsWithAt(Render(FixFrom(lines, 0))[i]) == StartsWithAt(lines[i])
  {
    FixFromPointwise(lines, 0);
    forall i | 0 <= i < |lines|
      ensures StartsWithAt(Render(FixFrom(lines, 0))[i]) == StartsWithAt(lines[i])
    {
      RenderedLine(lines, i);
      PlanText(lines, i);
    }
  }

  /** A hunk body is the same before and after repair. */
  lemma RepairedBody(lines: seq<string>, k: nat)
    requires k < |lines|
    ensures |Render(FixFrom(lines, 0))| == |lines|
    ensures var e := BodyEnd(lines, k + 1);
            Render(FixFrom(lines, 0))[k + 1..e] == lines[k + 1..e]
  {
    var out := Render(FixFrom(lines, 0));
    RenderedLine(lines, k);
    var e := BodyEnd(lines, k + 1);
    forall i | k + 1 <= i < e
      ensures out[i] == lines[i]
    {
      RenderedLine(lines, i);
      BodyLineCopied(lines, k, i);
    }
  }

  /** Repairing the repaired lines plans line k as before. */
  lemma PlanOfRepaired(lines: seq<string>, k: nat)
    requires k < |lines|
    ensures |Render(FixFrom(lines, 0))| == |lines|
    ensures Plan(Render(FixFrom(lines, 0)), k) == Plan(lines, k)
  {
    var out := Render(FixFrom(lines, 0));
    RenderedLine(lines, k);
    RepairedMarks(lines);
    BodyEndAgrees(out, lines, k + 1);
    RepairedBody(lines, k);
    PlanAgain(lines, out, k);
  }

  /** fix_hunk_headers is idempotent: fixing an already fixed diff changes
      nothing. */
  lemma RepairIdempotent(diff: string)
    ensures Repaired(Repaired(diff)) == Repaired(diff)
  {
    var lines := SplitKeepEnds(diff);
    SplitKeepEndsShaped(diff);
    var plan := FixFrom(lines, 0);
    var out := Render(plan);
    FixedLinesShaped(lines);
    SplitKeepEndsConcat(out);
    assert SplitKeepEnds(Repaired(diff)) == out;
    FixFromPointwise(lines, 0);
    FixFromPointwise(out, 0);
    var again := FixFrom(out, 0);
    forall k | 0 <= k < |out|
      ensures again[k] == plan[k]
    {
      assert again[k - 0] == Plan(out, k);
      assert plan[k - 0] == Plan(lines, k);
      PlanOfRepaired(lines, k);
    }
    assert again == plan;
  }

  // ---------------------------------------------------------------------
  // Applying and linting one item
  // ---------------------------------------------------------------------

  /** One element of the tool's input list: a dict with both "path" and
      "diff", or anything else. */
  datatype Item = Solution(path: string, diff: string) | Malformed

  /** What the linter run on the patched text reports. */
  datatype LintRun = LintRun(returnCode: int, stdout: string, stderr: string)

  /** What became of one item; Message() is the string the tool returns. */
  datatype Verdict =
    | Pass
    | BadItem
    | PatchFailed(path: string, error: Exception)
    | LintFailed(path: string, run: LintRun)
  {
    function Message(): string
    {
      match this
      case Pass => "PASSED"
      case BadItem => "ERROR: Invalid input format. Each item must contain 'path' and 'diff'."
      case PatchFailed(path, error) => "Patch failed for path: " + path + "\n\nError: " + error.Describe()
      case LintFailed(path, run) => "Lint failed for patch on path: " + path + "\n\nRuff output:\n" + LintOutput(run)
    }
  }

  /** check.stderr.strip() or check.stdout.strip() */
  function LintOutput(run: LintRun): string
  {
    var err := Strip(run.stderr);
    if err != "" then err else Strip(run.stdout)
  }

  /** Only a passing item produces "PASSED", so comparing the returned
      string with "PASSED" is the same as asking whether the item passed. */
  lemma MessageIsPassedIff(v: Verdict)
    ensures v.Message() == "PASSED" <==> v.Pass?
  {
    // Every other message is longer than "PASSED".
    if !v.Pass? {
      assert |v.Message()| > 6;
    }
  }

  const NewFileMarker := "@@ -0,0 +"

  /** Index just after the last '/', or 0. */
  function AfterLastSlash(p: string): (k: nat)
    ensures k <= |p|
  {
    if p == [] then 0
    else if p[|p| - 1] == '/' then |p|
    else AfterLastSlash(p[..|p| - 1])
  }

  /** Path(p).name: the last component that is neither empty nor ".". */
  function PathName(p: string): string
    decreases |p|
  {
    var k := AfterLastSlash(p);
    var seg := p[k..];
    if seg != "" && seg != "." then seg
    else if k == 0 then ""
    else PathName(p[..k - 1])
  }

  /** The segment after the last '/' holds no '/'. */
  lemma {:induction false} AfterLastSlashIsLast(p: string)
    ensures forall j :: AfterLastSlash(p) <= j < |p| ==> p[j] != '/'
    ensures AfterLastSlash(p) > 0 ==> p[AfterLastSlash(p) - 1] == '/'
  {
    if p != [] && p[|p| - 1] != '/' {
      AfterLastSlashIsLast(p[..|p| - 1]);
    }
  }

  /** A file name is a single path component: it holds no '/'. */
  lemma {:induction false} PathNameHasNoSlash(p: string)
    ensures forall j :: 0 <= j < |PathName(p)| ==> PathName(p)[j] != '/'
    decreases |p|
  {
    AfterLastSlashIsLast(p);
    var k := AfterLastSlash(p);
    var seg := p[k..];
    if !(seg != "" && seg != ".") && k > 0 {
      PathNameHasNoSlash(p[..k - 1]);
    }
  }

  /** apply_patch_to_file on diff text: the parse of the text into file
      entries is an input, and a parse failure is raised like the rest. */
  function ApplyDiff(original: string, diff: string, filename: string,
                     parse: string -> Result<seq<DiffApply.PatchedFile>>): Result<string>
  {
    var files := parse(diff);
    if files.Err? then Err(files.error) else DiffApply.PatchFile(original, files.value, filename)
  }

  /** The patched text of one item: a diff that (after repair) contains
      "@@ -0,0 +" is applied to the empty text, any other to the file read. */
  function PatchedText(path: string, fixed: string, readText: string -> Result<string>,
                       parse: string -> Result<seq<DiffApply.PatchedFile>>): Result<string>
  {
    var original := if Contains(fixed, NewFileMarker) then Ok("") else readText(path);
    if original.Err? then Err(original.error)
    else ApplyDiff(original.value, fixed, PathName(path), parse)
  }

  /** _process_single_solution as a function of the file reader, the diff
      parser and the linter. */
  function SolutionVerdict(path: string, diff: string,
                           readText: string -> Result<string>,
                           parse: string -> Result<seq<DiffApply.PatchedFile>>,
                           lint: string -> LintRun): Verdict
  {
    var patched := PatchedText(path, Repaired(diff), readText, parse);
    if patched.Err? then PatchFailed(path, patched.error)
    else if lint(patched.value).returnCode == 0 then Pass
    else LintFailed(path, lint(patched.value))
  }

  function ItemVerdict(item: Item, readText: string -> Result<string>,
                       parse: string -> Result<seq<DiffApply.PatchedFile>>,
                       lint: string -> LintRun): Verdict
  {
    match item
    case Malformed => BadItem
    case Solution(path, diff) => SolutionVerdict(path, diff, readText, parse, lint)
  }

  /** _process_single_solution, with the file read, the diff parse and the
      linter run as inputs. */
  method ProcessSingleSolution(path: string, diff: string,
                               readText: string -> Result<string>,
                               parse: string -> Result<seq<DiffApply.PatchedFile>>,
                               lint: string -> LintRun) returns (result: string)
    ensures result == SolutionVerdict(path, diff, readText, parse, lint).Message()
  {
    var fixed := FixHunkHeaders(diff);
    var isNewFile := Contains(fixed, NewFileMarker);
    var originalText: string;
    if isNewFile {
      originalText := "";
    } else {
      var read := readText(path);
      if read.Err? {
        return PatchFailed(path, read.error).Message();
      }
      originalText := read.value;
    }
    var parsed := parse(fixed);
    if parsed.Err? {
      return PatchFailed(path, parsed.error).Message();
    }
    var patched := DiffApply.ApplyPatchToFile(originalText, parsed.value, PathName(path));
    if patched.Err? {
      return PatchFailed(path, patched.error).Message();
    }
    var check := lint(patched.value);
    if check.returnCode == 0 {
      result := Pass.Message();
    } else {
      result := LintFailed(path, check).Message();
    }
  }

  /** The verdict of every item, in order. */
  function Verdicts(items: seq<Item>, readText: string -> Result<string>,
                    parse: string -> Result<seq<DiffApply.PatchedFile>>,
                    lint: string -> LintRun): (vs: seq<Verdict>)
    ensures |vs| == |items|
  {
    if items == [] then []
    else [ItemVerdict(items[0], readText, parse, lint)] + Verdicts(items[1..], readText, parse, lint)
  }

  lemma {:induction false} VerdictsIndex(items: seq<Item>, readText: string -> Result<string>,
                                         parse: string -> Result<seq<DiffApply.PatchedFile>>,
                                         lint: string -> LintRun, j: nat)
    requires j < |items|
    ensures Verdicts(items, readText, parse, lint)[j] == ItemVerdict(items[j], readText, parse, lint)
  {
    if j > 0 {
      VerdictsIndex(items[1..], readText, parse, lint, j - 1);
    }
  }

  /** Index of the first verdict at or after i that is not a pass, or |vs|. */
  function FirstFailure(vs: seq<Verdict>, i: nat): (k: nat)
    requires i <= |vs|
    ensures i <= k <= |vs|
    decreases |vs| - i
  {
    if i == |vs| || !vs[i].Pass? then i else FirstFailure(vs, i + 1)
  }

  /** The first failure from i on: every verdict before it is a pass and it
      is not (unless it is the end of the list). */
  lemma {:induction false} FirstFailureIsFirst(vs: seq<Verdict>, i: nat)
    requires i <= |vs|
    ensures forall j :: i <= j < FirstFailure(vs, i) ==> vs[j].Pass?
    ensures FirstFailure(vs, i) < |vs| ==> !vs[FirstFailure(vs, i)].Pass?
    decreases |vs| - i
  {
    if i < |vs| && vs[i].Pass? {
      FirstFailureIsFirst(vs, i + 1);
    }
  }

  /** The items before the first failure all pass; the item there does not. */
  lemma ItemsBeforeFirstFailurePass(items: seq<Item>, readText: string -> Result<string>,
                                    parse: string -> Result<seq<DiffApply.PatchedFile>>,
                                    lint: string -> LintRun, j: nat)
    requires j < |items|
    ensures var k := FirstFailure(Verdicts(items, readText, parse, lint), 0);
            (j < k ==> ItemVerdict(items[j], readText, parse, lint).Pass?)
            && (j == k ==> !ItemVerdict(items[j], readText, parse, lint).Pass?)
  {
    FirstFailureIsFirst(Verdicts(items, readText, parse, lint), 0);
    VerdictsIndex(items, readText, parse, lint, j);
  }

  /** One element of the list: a malformed item gets the invalid-input
      message, a solution goes through _process_single_solution. */
  method ProcessItem(item: Item, readText: string -> Result<string>,
                     parse: string -> Result<seq<DiffApply.PatchedFile>>,
                     lint: string -> LintRun) returns (result: string)
    ensures result == ItemVerdict(item, readText, parse, lint).Message()
    ensures result == "PASSED" <==> ItemVerdict(item, readText, parse, lint).Pass?
  {
    match item {
      case Malformed =>
        result := BadItem.Message();
      case Solution(path, diff) =>
        result := ProcessSingleSolution(path, diff, readText, parse, lint);
    }
    MessageIsPassedIff(ItemVerdict(item, readText, parse, lint));
  }

  /** forward: process the items in order and stop at the first result
      other than "PASSED"; `examined` is how many items were looked at. */
  method Forward(items: seq<Item>, readText: string -> Result<string>,
                 parse: string -> Result<seq<DiffApply.PatchedFile>>,
                 lint: string -> LintRun) returns (result: string, examined: nat)
    ensures var vs := Verdicts(items, readText, parse, lint);
            var k := FirstFailure(vs, 0);
            && (k == |items| ==> result == "PASSED" && examined == |items|)
            && (k < |items| ==> result == vs[k].Message() && examined == k + 1)
  {
    ghost var vs := Verdicts(items, readText, parse, lint);
    var i := 0;
    while i < |items|
      invariant i <= |items|
      invariant FirstFailure(vs, 0) == FirstFailure(vs, i)
    {
      result := ProcessItem(items[i], readText, parse, lint);
      VerdictsIndex(items, readText, parse, lint, i);
      if result != "PASSED" {
        return result, i + 1;
      }
      i := i + 1;
    }
    result, examined := "PASSED", |items|;
  }

  // ---------------------------------------------------------------------
  // Properties of one item's outcome
  // ---------------------------------------------------------------------

  /** An item passes exactly when its text could be read (or it is a new
      file), the diff applied, and the linter exited with 0; an apply
      failure reports the exception, a lint failure the linter's output. */
  lemma VerdictCases(path: string, diff: string, readText: string -> Result<string>,
                     parse: string -> Result<seq<DiffApply.PatchedFile>>, lint: string -> LintRun)
    ensures var patched := PatchedText(path, Repaired(diff), readText, parse);
            var v := SolutionVerdict(path, diff, readText, parse, lint);
            && (v.Pass? <==> patched.Ok? && lint(patched.value).returnCode == 0)
            && (patched.Err? ==> v == PatchFailed(path, patched.error))
            && (patched.Ok? && lint(patched.value).returnCode != 0 ==> v == LintFailed(path, lint(patched.value)))
  {
  }

  /** A diff that (after repair) contains "@@ -0,0 +" is applied to the empty
      text: what the file reader would return makes no difference. */
  lemma NewFileIgnoresDisk(path: string, diff: string,
                           read1: string -> Result<string>, read2: string -> Result<string>,
                           parse: string -> Result<seq<DiffApply.PatchedFile>>, lint: string -> LintRun)
    requires Contains(Repaired(diff), NewFileMarker)
    ensures SolutionVerdict(path, diff, read1, parse, lint) == SolutionVerdict(path, diff, read2, parse, lint)
    ensures PatchedText(path, Repaired(diff), read1, parse) == ApplyDiff("", Repaired(diff), PathName(path), parse)
  {
  }
}
