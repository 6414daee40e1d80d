/** String helpers shared by the model: line splitting on "\n", joining,
    Python-style counting, replacing and stripping, and decimal numerals. */
module Text {

  // ---------------------------------------------------------------------
  // Concatenation and joining
  // ---------------------------------------------------------------------

  /** "".join(ls) */
  function Concat(ls: seq<string>): string
  {
    if ls == [] then "" else ls[0] + Concat(ls[1..])
  }

  lemma {:induction false} ConcatAppend(ls: seq<string>, x: string)
    ensures Concat(ls + [x]) == Concat(ls) + x
  {
    if ls != [] {
      assert (ls + [x])[1..] == ls[1..] + [x];
      ConcatAppend(ls[1..], x);
    }
  }

  lemma {:induction false} ConcatJoin(a: seq<string>, b: seq<string>)
    ensures Concat(a + b) == Concat(a) + Concat(b)
  {
    if a != [] {
      assert (a + b)[1..] == a[1..] + b;
      ConcatJoin(a[1..], b);
    } else {
      assert a + b == b;
    }
  }

  /** Concat unfolded at position k. */
  lemma ConcatFrom(ls: seq<string>, k: nat)
    requires k < |ls|
    ensures Concat(ls[k..]) == ls[k] + Concat(ls[k + 1..])
  {
    assert ls[k..][1..] == ls[k + 1..];
  }

  /** sep.join(ls) */
  function Join(ls: seq<string>, sep: string): string
  {
    if ls == [] then ""
    else if |ls| == 1 then ls[0]
    else ls[0] + sep + Join(ls[1..], sep)
  }

  lemma {:induction false} JoinAppend(ls: seq<string>, x: string, sep: string)
    ensures Join(ls + [x], sep) == if ls == [] then x else Join(ls, sep) + sep + x
  {
    if |ls| >= 2 {
      assert (ls + [x])[1..] == ls[1..] + [x];
      JoinAppend(ls[1..], x, sep);
    } else if |ls| == 1 {
      assert (ls + [x])[1..] == [x];
    }
  }

  // ---------------------------------------------------------------------
  // Lines, split on "\n" only
  // ---------------------------------------------------------------------

  /** Index of the first '\n' in s, or |s| when there is none. */
  function LineEnd(s: string): (k: nat)
    ensures k <= |s|
  {
    if s == [] then 0 else if s[0] == '\n' then 0 else 1 + LineEnd(s[1..])
  }

  /** No '\n' before LineEnd(s); a '\n' at it, unless it is the end. */
  lemma {:induction false} LineEndIsFirstNewline(s: string)
    ensures forall j :: 0 <= j < LineEnd(s) ==> s[j] != '\n'
    ensures LineEnd(s) < |s| ==> s[LineEnd(s)] == '\n'
  {
    if s != [] && s[0] != '\n' {
      LineEndIsFirstNewline(s[1..]);
    }
  }

  /** s.splitlines(keepends=True), on "\n" only: every piece but the last
      ends with "\n", and no piece is empty. */
  function SplitKeepEnds(s: string): seq<string>
    decreases |s|
  {
    if s == [] then []
    else
      var k := LineEnd(s);
      if k == |s| then [s] else [s[..k + 1]] + SplitKeepEnds(s[k + 1..])
  }

  /** A well-formed line list: what SplitKeepEnds produces. */
  ghost predicate LineShaped(ls: seq<string>)
  {
    && (forall i :: 0 <= i < |ls| ==> ls[i] != [] && NoInnerNewline(ls[i]))
    && (forall i :: 0 <= i < |ls| - 1 ==> EndsWithNewline(ls[i]))
  }

  /** No '\n' except possibly as the last character. */
  ghost predicate NoInnerNewline(l: string)
  {
    forall j :: 0 <= j < |l| - 1 ==> l[j] != '\n'
  }

  predicate EndsWithNewline(l: string)
  {
    l != [] && l[|l| - 1] == '\n'
  }

  lemma {:induction false} ConcatSplitKeepEnds(s: string)
    ensures Concat(SplitKeepEnds(s)) == s
    decreases |s|
  {
    if s != [] {
      var k := LineEnd(s);
      if k < |s| {
        ConcatSplitKeepEnds(s[k + 1..]);
        assert s == s[..k + 1] + s[k + 1..];
      }
    }
  }

  lemma {:induction false} SplitKeepEndsShaped(s: string)
    ensures LineShaped(SplitKeepEnds(s))
    decreases |s|
  {
    if s != [] {
      var k := LineEnd(s);
      LineEndIsFirstNewline(s);
      if k < |s| {
        SplitKeepEndsShaped(s[k + 1..]);
        var rest := SplitKeepEnds(s[k + 1..]);
        assert SplitKeepEnds(s) == [s[..k + 1]] + rest;
        assert NoInnerNewline(s[..k + 1]);
        assert EndsWithNewline(s[..k + 1]);
      } else {
        assert SplitKeepEnds(s) == [s];
        assert NoInnerNewline(s);
      }
    }
  }

  lemma {:induction false} SplitKeepEndsConcat(ls: seq<string>)
    requires LineShaped(ls)
    ensures SplitKeepEnds(Concat(ls)) == ls
  {
    if ls != [] {
      var s := Concat(ls);
      var h := ls[0];
      assert s == h + Concat(ls[1..]);
      assert NoInnerNewline(h);
      if EndsWithNewline(h) {
        assert s[..|h|] == h;
        LineEndIs(s, |h| - 1);
        assert s[|h|..] == Concat(ls[1..]);
        SplitKeepEndsConcat(ls[1..]);
      } else {
        assert |ls| == 1;
        assert Concat(ls[1..]) == "";
        assert s == h;
        LineEndIs(s, |h|);
      }
    }
  }

  lemma LineEndIs(s: string, k: nat)
    requires k <= |s|
    requires forall j :: 0 <= j < k ==> s[j] != '\n'
    requires k < |s| ==> s[k] == '\n'
    ensures LineEnd(s) == k
    decreases k
  {
    if k > 0 {
      LineEndIs(s[1..], k - 1);
    }
  }

  /** The line without its trailing "\n", if any. */
  function DropNewline(line: string): string
  {
    if line != [] && line[|line| - 1] == '\n' then line[..|line| - 1] else line
  }

  /** s.splitlines() (without line ends), on "\n" only. */
  function SplitLines(s: string): seq<string>
  {
    var ls := SplitKeepEnds(s);
    seq(|ls|, i requires 0 <= i < |ls| => DropNewline(ls[i]))
  }

  /** Joining non-empty lines without newlines by "\n" and splitting the
      result gives the lines back. */
  lemma {:induction false} SplitLinesJoin(ls: seq<string>)
    requires forall k :: 0 <= k < |ls| ==> ls[k] != [] && '\n' !in ls[k]
    ensures SplitLines(Join(ls, "\n")) == ls
  {
    if |ls| == 1 {
      LineEndIs(ls[0], |ls[0]|);
      assert SplitKeepEnds(ls[0]) == [ls[0]];
    } else if |ls| >= 2 {
      var h := ls[0];
      var rest := Join(ls[1..], "\n");
      var s := h + "\n" + rest;
      assert Join(ls, "\n") == s;
      assert s[|h|] == '\n';
      assert forall j :: 0 <= j < |h| ==> s[j] == h[j];
      LineEndIs(s, |h|);
      assert s[..|h| + 1] == h + "\n" && s[|h| + 1..] == rest;
      assert SplitKeepEnds(s) == [h + "\n"] + SplitKeepEnds(rest);
      SplitLinesJoin(ls[1..]);
      assert DropNewline(h + "\n") == h;
    }
  }

  /** s ends with "\n" (or is empty): the last line is terminated. */
  predicate Terminated(s: string)
  {
    s == [] || s[|s| - 1] == '\n'
  }

  // ---------------------------------------------------------------------
  // Searching, counting, replacing
  // ---------------------------------------------------------------------

  /** t in s (substring test) */
  predicate Contains(s: string, t: string)
    decreases |s|
  {
    t <= s || (s != [] && Contains(s[1..], t))
  }

  lemma {:induction false} ContainsAt(s: string, t: string, i: nat)
    requires i + |t| <= |s| && s[i..i + |t|] == t
    ensures Contains(s, t)
    decreases i
  {
    if i > 0 {
      assert s[1..][i - 1..i - 1 + |t|] == s[i..i + |t|];
      ContainsAt(s[1..], t, i - 1);
    } else {
      assert s[..|t|] == t;
    }
  }

  lemma {:induction false} ContainsWitness(s: string, t: string) returns (i: nat)
    requires Contains(s, t)
    ensures i + |t| <= |s| && s[i..i + |t|] == t
    decreases |s|
  {
    if t <= s {
      i := 0;
    } else {
      var j := ContainsWitness(s[1..], t);
      i := j + 1;
      assert s[i..i + |t|] == s[1..][j..j + |t|];
    }
  }

  /** s.count(t): non-overlapping occurrences, scanning left to right; an
      empty t occurs |s| + 1 times. */
  function Count(s: string, t: string): nat
    decreases |s|
  {
    if t == [] then |s| + 1
    else if |s| < |t| then 0
    else if t <= s then 1 + Count(s[|t|..], t)
    else Count(s[1..], t)
  }

  /** s.replace(pat, rep): every non-overlapping occurrence, left to right. */
  function ReplaceAll(s: string, pat: string, rep: string): string
    decreases |s|
  {
    if pat == [] then
      (if s == [] then rep else rep + [s[0]] + ReplaceAll(s[1..], pat, rep))
    else if |s| < |pat| then s
    else if pat <= s then rep + ReplaceAll(s[|pat|..], pat, rep)
    else [s[0]] + ReplaceAll(s[1..], pat, rep)
  }

  /** Index of the first occurrence of a non-empty t in s, or |s| if none. */
  function Find(s: string, t: string): (i: nat)
    requires t != []
    ensures i <= |s|
    decreases |s|
  {
    if |s| < |t| then |s|
    else if t <= s then 0
    else 1 + Find(s[1..], t)
  }

  // ---------------------------------------------------------------------
  // Whitespace
  // ---------------------------------------------------------------------

  /** The characters Python's str.isspace accepts, and with them str.strip
      and str.split without arguments: the ASCII separators and the Unicode
      spaces and line and paragraph separators. */
  predicate IsSpace(c: char)
  {
    c == ' ' || c == '\t' || c == '\n' || c == '\r' || c == '\U{000B}' || c == '\U{000C}'
    || c == '\U{001C}' || c == '\U{001D}' || c == '\U{001E}' || c == '\U{001F}'
    || c == '\U{0085}' || c == '\U{00A0}' || c == '\U{1680}' || ('\U{2000}' <= c <= '\U{200A}')
    || c == '\U{2028}' || c == '\U{2029}' || c == '\U{202F}' || c == '\U{205F}' || c == '\U{3000}'
  }

  function LStrip(s: string): string
    decreases |s|
  {
    if s != [] && IsSpace(s[0]) then LStrip(s[1..]) else s
  }

  function RStrip(s: string): string
    decreases |s|
  {
    if s != [] && IsSpace(s[|s| - 1]) then RStrip(s[..|s| - 1]) else s
  }

  /** s.strip() */
  function Strip(s: string): string
  {
    LStrip(RStrip(s))
  }

  /** s.rstrip(c) for a single character c */
  function RStripChar(s: string, c: char): string
    decreases |s|
  {
    if s != [] && s[|s| - 1] == c then RStripChar(s[..|s| - 1], c) else s
  }

  /** Truthiness of a stripped string: s.strip() is non-empty. */
  predicate Blank(s: string)
  {
    forall i :: 0 <= i < |s| ==> IsSpace(s[i])
  }

  /** s.split(): maximal runs of non-whitespace characters. */
  function SplitWS(s: string): seq<string>
    decreases |s|
  {
    if s == [] then []
    else if IsSpace(s[0]) then SplitWS(s[1..])
    else
      var k := TokenEnd(s);
      [s[..k]] + SplitWS(s[k..])
  }

  /** Length of the leading run of non-whitespace characters. */
  function TokenEnd(s: string): (k: nat)
    ensures k <= |s|
    ensures s != [] && !IsSpace(s[0]) ==> k > 0
  {
    if s == [] || IsSpace(s[0]) then 0 else 1 + TokenEnd(s[1..])
  }

  // ---------------------------------------------------------------------
  // Decimal numerals
  // ---------------------------------------------------------------------

  /** The ASCII decimal digits, the only ones this model reads as digits
      (Python's `\d` and int() also take the other Unicode decimal digits). */
  predicate IsDigit(c: char)
  {
    '0' <= c <= '9'
  }

  predicate AllDigits(s: string)
  {
    forall i :: 0 <= i < |s| ==> IsDigit(s[i])
  }

  function DigitChar(d: nat): char
    requires d < 10
  {
    "0123456789"[d]
  }

  function DigitValue(c: char): nat
    requires IsDigit(c)
  {
    (c - '0') as nat
  }

  /** Value of a string of decimal digits (leading zeros allowed). */
  function DigitsValue(s: string): nat
    requires AllDigits(s)
  {
    if s == [] then 0 else DigitsValue(s[..|s| - 1]) * 10 + DigitValue(s[|s| - 1])
  }

  /** str(n) for a natural number: no leading zeros. */
  function NatToString(n: nat): string
  {
    if n < 10 then [DigitChar(n)] else NatToString(n / 10) + [DigitChar(n % 10)]
  }

  /** str(n) is a non-empty string of digits. */
  lemma {:induction false} NatToStringDigits(n: nat)
    ensures NatToString(n) != [] && AllDigits(NatToString(n))
  {
    if n >= 10 {
      NatToStringDigits(n / 10);
    }
  }

  /** int(str(n)) == n */
  lemma {:induction false} NatToStringValue(n: nat)
    ensures AllDigits(NatToString(n)) && DigitsValue(NatToString(n)) == n
  {
    NatToStringDigits(n);
    var r := NatToString(n);
    if n >= 10 {
      NatToStringValue(n / 10);
      assert r[..|r| - 1] == NatToString(n / 10);
    }
  }

  /** str(i) for any integer. */
  function IntToString(i: int): string
  {
    if i < 0 then "-" + NatToString(-i) else NatToString(i)
  }

  /** f"{n:4d}"-style right alignment: pad with spaces to width w. */
  function PadLeft(s: string, w: nat): (r: string)
    ensures |r| == if |s| >= w then |s| else w
  {
    if |s| >= w then s else seq(w - |s|, _ => ' ') + s
  }

  // ---------------------------------------------------------------------
  // Affixes
  // ---------------------------------------------------------------------

  /** s.removeprefix(p) */
  function RemovePrefix(s: string, p: string): string
  {
    if p <= s then s[|p|..] else s
  }

  /** s.removesuffix(x) */
  function RemoveSuffix(s: string, x: string): string
  {
    if |x| <= |s| && s[|s| - |x|..] == x then s[..|s| - |x|] else s
  }

  /** Removing an affix that was added gives back the original. */
  lemma AffixesRemoved(p: string, m: string, x: string)
    ensures RemoveSuffix(RemovePrefix(p + m + x, p), x) == m
  {
    assert p <= p + m + x;
    assert (p + m + x)[|p|..] == m + x;
    assert (m + x)[|m + x| - |x|..] == x;
    assert (m + x)[..|m + x| - |x|] == m;
  }

  /** A stripped string that is not empty starts with a non-space. */
  lemma {:induction false} LStripStartsSolid(s: string)
    ensures LStrip(s) != [] ==> !IsSpace(LStrip(s)[0])
    decreases |s|
  {
    if s != [] && IsSpace(s[0]) {
      LStripStartsSolid(s[1..]);
    }
  }

  /** s.strip() is the slice of s between a run of leading and a run of
      trailing whitespace. */
  lemma {:induction false} StripIsSlice(s: string) returns (a: nat, b: nat)
    ensures a <= b <= |s| && Strip(s) == s[a..b]
    ensures forall j :: 0 <= j < a ==> IsSpace(s[j])
    ensures forall j :: b <= j < |s| ==> IsSpace(s[j])
    ensures a < b ==> !IsSpace(s[a]) && !IsSpace(s[b - 1])
    ensures a == b ==> forall j :: 0 <= j < |s| ==> IsSpace(s[j])
  {
    b := RStripPrefix(s);
    var a' := LStripSuffix(s[..b]);
    a := a';
    assert s[..b][a..] == s[a..b];
    forall j | 0 <= j < a
      ensures IsSpace(s[j])
    {
      assert s[j] == s[..b][j];
    }
    assert a < b ==> s[a] == s[..b][a];
    assert b > 0 ==> s[b - 1] == s[..b][b - 1];
  }

  lemma {:induction false} RStripPrefix(s: string) returns (b: nat)
    ensures b <= |s| && RStrip(s) == s[..b]
    ensures forall j :: b <= j < |s| ==> IsSpace(s[j])
    ensures b > 0 ==> !IsSpace(s[b - 1])
    decreases |s|
  {
    if s != [] && IsSpace(s[|s| - 1]) {
      b := RStripPrefix(s[..|s| - 1]);
      assert s[..|s| - 1][..b] == s[..b];
      forall j | b <= j < |s|
        ensures IsSpace(s[j])
      {
        if j < |s| - 1 {
          assert s[j] == s[..|s| - 1][j];
        }
      }
    } else {
      b := |s|;
    }
  }

  lemma {:induction false} LStripSuffix(s: string) returns (a: nat)
    ensures a <= |s| && LStrip(s) == s[a..]
    ensures forall j :: 0 <= j < a ==> IsSpace(s[j])
    ensures a < |s| ==> !IsSpace(s[a])
    decreases |s|
  {
    if s != [] && IsSpace(s[0]) {
      var a' := LStripSuffix(s[1..]);
      a := a' + 1;
      assert s[1..][a'..] == s[a..];
      forall j | 0 <= j < a
        ensures IsSpace(s[j])
      {
        if j > 0 {
          assert s[j] == s[1..][j - 1];
        }
      }
    } else {
      a := 0;
    }
  }
}
