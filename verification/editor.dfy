/** The file editor tool: view, create, str_replace and insert over the
    files of a repository, kept here as a map from path to text. Resolving
    a relative path against the file system (symbolic links, "..") and the
    directory walk of `view` are parameters. */
module Editor {
  import opened Common
  import opened Text

  // ---------------------------------------------------------------------
  // Text operations behind the commands
  // ---------------------------------------------------------------------

  /** Python's xs[a:b] for a non-negative a: a negative b counts from the end. */
  function Slice(xs: seq<string>, a: nat, b: int): seq<string>
  {
    var e := if b < 0 then (if |xs| + b < 0 then 0 else |xs| + b) else (if b > |xs| then |xs| else b);
    if a < e then xs[a..e] else []
  }

  /** f"{n:4d} {line}" for each line, numbering from n. */
  function Numbered(lines: seq<string>, n: int): string
  {
    if lines == [] then "" else PadLeft(IntToString(n), 4) + " " + lines[0] + Numbered(lines[1..], n + 1)
  }

  /** The view of a file with the given text: a header, then the chosen lines
      with their 1-based numbers; a range with fewer than two entries raises
      IndexError. */
  function ViewFile(text: string, viewRange: Option<seq<int>>): Result<string>
  {
    var full := SplitKeepEnds(text);
    if viewRange.Some? && viewRange.value != [] then
      if |viewRange.value| < 2 then Err(Exception("IndexError", "list index out of range"))
      else
        var startLine: nat := if viewRange.value[0] - 1 < 0 then 0 else viewRange.value[0] - 1;
        var endLine := if viewRange.value[1] != -1 then viewRange.value[1] else |full|;
        Ok("[Showing lines " + IntToString(startLine + 1) + " to " + IntToString(endLine) + " of "
           + IntToString(|full|) + "]\n" + Numbered(Slice(full, startLine, endLine), startLine + 1))
    else
      Ok("[Showing lines 1 to " + IntToString(|full|) + " of " + IntToString(|full|) + "]\n" + Numbered(full, 1))
  }

  /** A range inside the file shows exactly the lines from s to e (1-based,
      inclusive), each under its own number, and -1 as the end means the
      last line. */
  lemma ViewWindow(text: string, s: int, e: int)
    requires var n := |SplitKeepEnds(text)|; 1 <= s <= n + 1 && (e == -1 || s - 1 <= e <= n)
    ensures var full := SplitKeepEnds(text);
      var last := if e == -1 then |full| else e;
      && s - 1 <= last
      && ViewFile(text, Some([s, e])) ==
           Ok("[Showing lines " + IntToString(s) + " to " + IntToString(last) + " of " + IntToString(|full|) + "]\n"
              + Numbered(full[s - 1..last], s))
  {
  }

  /** The whole file, numbered from 1. */
  lemma ViewWhole(text: string, viewRange: Option<seq<int>>)
    requires viewRange.None? || viewRange.value == []
    ensures ViewFile(text, viewRange) ==
      Ok("[Showing lines 1 to " + IntToString(|SplitKeepEnds(text)|) + " of " + IntToString(|SplitKeepEnds(text)|)
         + "]\n" + Numbered(SplitKeepEnds(text), 1))
  {
  }

  /** A text without occurrences of t is left alone by replace. */
  lemma {:induction false} ReplaceAbsent(s: string, t: string, n: string)
    requires t != [] && Count(s, t) == 0
    ensures ReplaceAll(s, t, n) == s
    decreases |s|
  {
    if |s| >= |t| {
      ReplaceAbsent(s[1..], t, n);
    }
  }

  /** With exactly one occurrence, replace rewrites that occurrence and
      nothing else. */
  lemma {:induction false} ReplaceUnique(s: string, t: string, n: string) returns (i: nat)
    requires Count(s, t) == 1
    ensures i + |t| <= |s| && s[i..i + |t|] == t
    ensures s == s[..i] + t + s[i + |t|..]
    ensures ReplaceAll(s, t, n) == s[..i] + n + s[i + |t|..]
    decreases |s|
  {
    if t == [] {
      i := 0;
      assert s == [];
    } else if t <= s {
      i := 0;
      AtFront(s, t, n);
    } else {
      ShiftOne(s, t, n);
      var j := ReplaceUnique(s[1..], t, n);
      i := j + 1;
      Reindex(s, t, n, ReplaceAll(s[1..], t, n), j);
    }
  }

  /** The only occurrence at the front: replacing rewrites just it. */
  lemma AtFront(s: string, t: string, n: string)
    requires t != [] && t <= s && Count(s, t) == 1
    ensures |t| <= |s| && s[..0] + t + s[0 + |t|..] == s
    ensures ReplaceAll(s, t, n) == s[..0] + n + s[0 + |t|..]
  {
    assert Count(s[|t|..], t) == 0;
    ReplaceAbsent(s[|t|..], t, n);
    assert s[..0] == [] && s[0 + |t|..] == s[|t|..];
  }

  /** Without an occurrence at the front, counting and replacing move one
      character on. */
  lemma ShiftOne(s: string, t: string, n: string)
    requires t != [] && !(t <= s) && Count(s, t) == 1
    ensures s != [] && Count(s[1..], t) == 1 && ReplaceAll(s, t, n) == [s[0]] + ReplaceAll(s[1..], t, n)
  {
  }

  /** The occurrence and the replacement in s[1..] at j, seen from s at j+1. */
  lemma Reindex(s: string, t: string, n: string, r: string, j: nat)
    requires s != [] && j + |t| <= |s| - 1 && s[1..][j..j + |t|] == t
    requires r == s[1..][..j] + n + s[1..][j + |t|..]
    ensures s[j + 1..j + 1 + |t|] == t
    ensures s == s[..j + 1] + t + s[j + 1 + |t|..]
    ensures [s[0]] + r == s[..j + 1] + n + s[j + 1 + |t|..]
  {
    assert s[j + 1..j + 1 + |t|] == s[1..][j..j + |t|];
    assert s[1..][..j] == s[1..j + 1];
    assert s[1..][j + |t|..] == s[j + 1 + |t|..];
    assert [s[0]] + s[1..j + 1] == s[..j + 1];
  }

  /** The text after inserting `new` as line k of the file. */
  function InsertLine(text: string, k: nat, added: string): string
    requires k <= |SplitKeepEnds(text)|
  {
    var lines := SplitKeepEnds(text);
    Concat(lines[..k] + [RStripChar(added, '\n') + "\n"] + lines[k..])
  }

  // ---------------------------------------------------------------------
  // The commands
  // ---------------------------------------------------------------------

  /** The arguments of one call of the tool. */
  datatype Call = Call(command: string, path: string, fileText: string, oldStr: string, newStr: string,
                       insertLine: int, viewRange: Option<seq<int>>)

  /** pathlib's test for an absolute POSIX path. */
  predicate IsAbsolute(path: string)
  {
    |path| > 0 && path[0] == '/'
  }

  /** resolve_path: an absolute path is used as given, unresolved; a
      relative one is joined to the root and handed to the file system's
      resolution, `resolve`. */
  function ResolvePath(repoPath: string, path: string, resolve: string -> Result<string>): Result<string>
  {
    if IsAbsolute(path) then Ok(path) else resolve(repoPath + "/" + path)
  }

  /** What reading a file in text mode gives: universal newlines turn
      "\r\n" and a lone "\r" into "\n". Writing in text mode on POSIX
      leaves "\n" as it is, so a text is written back unchanged. */
  function ReadText(raw: string): (r: string)
    ensures '\r' !in r
    ensures |r| <= |raw|
    decreases |raw|
  {
    if raw == [] then []
    else if raw[0] == '\r' then "\n" + ReadText(if |raw| > 1 && raw[1] == '\n' then raw[2..] else raw[1..])
    else [raw[0]] + ReadText(raw[1..])
  }

  /** A text without "\r" reads back exactly as stored. */
  lemma {:induction false} ReadTextPlain(raw: string)
    requires '\r' !in raw
    ensures ReadText(raw) == raw
    decreases |raw|
  {
    if raw != [] {
      assert raw[0] != '\r';
      assert '\r' !in raw[1..];
      ReadTextPlain(raw[1..]);
    }
  }

  /** A pattern holding "\r" never occurs in a text that has none, so an
      old_str with "\r" is never found in a file read in text mode. */
  lemma {:induction false} CarriageReturnNeverMatches(s: string, t: string)
    requires '\r' in t && '\r' !in s
    ensures Count(s, t) == 0
    decreases |s|
  {
    var k :| 0 <= k < |t| && t[k] == '\r';
    if |s| >= |t| {
      assert s[..|t|][k] == s[k];
      assert '\r' !in s[1..];
      CarriageReturnNeverMatches(s[1..], t);
    }
  }

  /** The tool's answer to a call on a repository whose files are `files` and
      whose directories are `dirs`, and the files afterwards. */
  function Answer(files: map<string, string>, dirs: set<string>, repoPath: string,
                  resolve: string -> Result<string>, walk: string -> string, call: Call): (string, map<string, string>)
  {
    match ResolvePath(repoPath, call.path, resolve)
    case Err(e) => ("Error during '" + call.command + "': " + e.message, files)
    case Ok(p) =>
      if !(repoPath <= p) then ("Error: Access outside repository is not allowed: " + p, files)
      else if call.command == "view" then
        if p in dirs then (walk(p), files)
        else if p in files then
          match ViewFile(ReadText(files[p]), call.viewRange)
          case Err(e) => ("Error during 'view': " + e.message, files)
          case Ok(v) => (v, files)
        else ("Error: " + p + " is not a file or directory.", files)
      else if call.command == "create" then
        if p in files || p in dirs then ("Error: " + p + " already exists.", files)
        else ("File created: " + p, files[p := call.fileText])
      else if call.command == "str_replace" then
        if p !in files then ("Error: File does not exist: " + p, files)
        else
          var occurrences := Count(ReadText(files[p]), call.oldStr);
          if occurrences == 0 then ("Error: old_str not found in " + p, files)
          else if occurrences > 1 then
            ("Error: old_str appears " + NatToString(occurrences) + " times, must be unique", files)
          else
            ("Successfully replaced content in " + p, files[p := ReplaceAll(ReadText(files[p]), call.oldStr, call.newStr)])
      else if call.command == "insert" then
        if p !in files then ("Error: File does not exist: " + p, files)
        else if call.insertLine < 0 || call.insertLine > |SplitKeepEnds(ReadText(files[p]))| then
          ("Error: insert_line " + IntToString(call.insertLine) + " out of range", files)
        else
          ("Inserted text at line " + IntToString(call.insertLine) + " in " + p,
           files[p := InsertLine(ReadText(files[p]), call.insertLine, call.newStr)])
      else if call.command == "undo_edit" then ("Error: Undo functionality not implemented for " + p, files)
      else ("Error: Unknown command '" + call.command + "'", files)
  }

  /** The repository the tool works on: the text of every file, the set of
      directories, and the repository root. */
  class EditorTool {
    var files: map<string, string>
    const dirs: set<string>
    const repoPath: string

    constructor (files0: map<string, string>, dirs0: set<string>, repoPath0: string)
      ensures files == files0 && dirs == dirs0 && repoPath == repoPath0
    {
      files := files0;
      dirs := dirs0;
      repoPath := repoPath0;
    }

    /** EditorTool.forward: answer one call and update the files. */
    method Forward(resolve: string -> Result<string>, walk: string -> string, call: Call) returns (result: string)
      modifies this
      ensures (result, files) == Answer(old(files), dirs, repoPath, resolve, walk, call)
    {
      var resolved := ResolvePath(repoPath, call.path, resolve);
      if resolved.Err? {
        return "Error during '" + call.command + "': " + resolved.error.message;
      }
      var p := resolved.value;
      if !(repoPath <= p) {
        return "Error: Access outside repository is not allowed: " + p;
      }
      if call.command == "view" {
        if p in dirs {
          result := walk(p);
        } else if p in files {
          var v := ViewFile(ReadText(files[p]), call.viewRange);
          result := if v.Err? then "Error during 'view': " + v.error.message else v.value;
        } else {
          result := "Error: " + p + " is not a file or directory.";
        }
      } else if call.command == "create" {
        if p in files || p in dirs {
          result := "Error: " + p + " already exists.";
        } else {
          files := files[p := call.fileText];
          result := "File created: " + p;
        }
      } else if call.command == "str_replace" {
        if p !in files {
          result := "Error: File does not exist: " + p;
        } else {
          var content := ReadText(files[p]);
          var occurrences := Count(content, call.oldStr);
          if occurrences == 0 {
            result := "Error: old_str not found in " + p;
          } else if occurrences > 1 {
            result := "Error: old_str appears " + NatToString(occurrences) + " times, must be unique";
          } else {
            files := files[p := ReplaceAll(content, call.oldStr, call.newStr)];
            result := "Successfully replaced content in " + p;
          }
        }
      } else if call.command == "insert" {
        if p !in files {
          result := "Error: File does not exist: " + p;
        } else {
          var content := SplitKeepEnds(ReadText(files[p]));
          if call.insertLine < 0 || call.insertLine > |content| {
            result := "Error: insert_line " + IntToString(call.insertLine) + " out of range";
          } else {
            content := content[..call.insertLine] + [RStripChar(call.newStr, '\n') + "\n"] + content[call.insertLine..];
            files := files[p := Concat(content)];
            result := "Inserted text at line " + IntToString(call.insertLine) + " in " + p;
          }
        }
      } else if call.command == "undo_edit" {
        result := "Error: Undo functionality not implemented for " + p;
      } else {
        result := "Error: Unknown command '" + call.command + "'";
      }
    }
  }

  // ---------------------------------------------------------------------
  // Properties of the commands
  // ---------------------------------------------------------------------

  /** Only create, a unique str_replace and an in-range insert change the
      files, and only the file at the resolved path. */
  lemma OnlyTargetChanges(files: map<string, string>, dirs: set<string>, repoPath: string,
                          resolve: string -> Result<string>, walk: string -> string, call: Call)
    ensures var after := Answer(files, dirs, repoPath, resolve, walk, call).1;
      after != files ==>
        && ResolvePath(repoPath, call.path, resolve).Ok?
        && repoPath <= ResolvePath(repoPath, call.path, resolve).value
        && (call.command == "create" || call.command == "str_replace" || call.command == "insert")
        && after.Keys == files.Keys + {ResolvePath(repoPath, call.path, resolve).value}
        && forall q :: q in files && q != ResolvePath(repoPath, call.path, resolve).value ==> after[q] == files[q]
  {
  }

  /** A path that does not resolve to a string starting with the repository
      root is refused, and nothing changes. */
  lemma OutsideRefused(files: map<string, string>, dirs: set<string>, repoPath: string,
                       resolve: string -> Result<string>, walk: string -> string, call: Call)
    requires ResolvePath(repoPath, call.path, resolve).Ok? && !(repoPath <= ResolvePath(repoPath, call.path, resolve).value)
    ensures Answer(files, dirs, repoPath, resolve, walk, call)
      == ("Error: Access outside repository is not allowed: " + ResolvePath(repoPath, call.path, resolve).value, files)
  {
  }

  /** The containment test compares strings, so a sibling directory whose
      name extends the root's ("/repo-other" next to "/repo") is let in. */
  lemma SiblingAdmitted(files: map<string, string>, dirs: set<string>, resolve: string -> Result<string>,
                        walk: string -> string, call: Call)
    requires call.command == "create" && call.path == "/repo-other/x"
    requires "/repo-other/x" !in files && "/repo-other/x" !in dirs
    ensures Answer(files, dirs, "/repo", resolve, walk, call).1 == files["/repo-other/x" := call.fileText]
  {
    assert "/repo" <= "/repo-other/x";
  }

  /** An absolute path is not resolved, so ".." components pass the
      containment test: "/repo/../etc/passwd" is created, which the file
      system places at "/etc/passwd", outside the repository. */
  lemma TraversalAdmitted(files: map<string, string>, dirs: set<string>, resolve: string -> Result<string>,
                          walk: string -> string, call: Call)
    requires call.command == "create" && call.path == "/repo/../etc/passwd"
    requires "/repo/../etc/passwd" !in files && "/repo/../etc/passwd" !in dirs
    ensures Answer(files, dirs, "/repo", resolve, walk, call)
      == ("File created: /repo/../etc/passwd", files["/repo/../etc/passwd" := call.fileText])
  {
    assert "/repo" <= "/repo/../etc/passwd";
    assert "create" != "view";
    assert "File created: " + "/repo/../etc/passwd" == "File created: /repo/../etc/passwd";
  }

  /** create makes a new file holding exactly file_text, and refuses an
      existing path. */
  lemma CreateRule(files: map<string, string>, dirs: set<string>, repoPath: string,
                   resolve: string -> Result<string>, walk: string -> string, call: Call)
    requires call.command == "create"
    requires ResolvePath(repoPath, call.path, resolve).Ok? && repoPath <= ResolvePath(repoPath, call.path, resolve).value
    ensures var p := ResolvePath(repoPath, call.path, resolve).value;
      var (result, after) := Answer(files, dirs, repoPath, resolve, walk, call);
      && (p in files || p in dirs ==> result == "Error: " + p + " already exists." && after == files)
      && (p !in files && p !in dirs ==> after == files[p := call.fileText] && after[p] == call.fileText)
  {
    assert "create" != "view";
  }

  /** str_replace: an error without change for zero or several occurrences;
      with exactly one, the file is the text around that occurrence with
      new_str in its place. */
  lemma StrReplaceRule(files: map<string, string>, dirs: set<string>, repoPath: string,
                       resolve: string -> Result<string>, walk: string -> string, call: Call)
    requires call.command == "str_replace"
    requires ResolvePath(repoPath, call.path, resolve).Ok? && repoPath <= ResolvePath(repoPath, call.path, resolve).value
    requires ResolvePath(repoPath, call.path, resolve).value in files
    ensures var p := ResolvePath(repoPath, call.path, resolve).value;
      var text := ReadText(files[p]);
      var (result, after) := Answer(files, dirs, repoPath, resolve, walk, call);
      && (Count(text, call.oldStr) == 0 ==> result == "Error: old_str not found in " + p && after == files)
      && (Count(text, call.oldStr) > 1 ==>
            result == "Error: old_str appears " + NatToString(Count(text, call.oldStr)) + " times, must be unique"
            && after == files)
      && (Count(text, call.oldStr) == 1 ==>
            exists i :: 0 <= i <= |text| - |call.oldStr| && text[i..i + |call.oldStr|] == call.oldStr
              && after == files[p := text[..i] + call.newStr + text[i + |call.oldStr|..]])
  {
    var p := ResolvePath(repoPath, call.path, resolve).value;
    var text := ReadText(files[p]);
    assert "str_replace" != "view" && "str_replace" != "create";
    if Count(text, call.oldStr) == 1 {
      var i := ReplaceUnique(text, call.oldStr, call.newStr);
      assert Answer(files, dirs, repoPath, resolve, walk, call).1
        == files[p := text[..i] + call.newStr + text[i + |call.oldStr|..]];
    }
  }

  /** A file with "\r\n" line ends is read with "\n" ones, and a
      str_replace writes those back: "x\r\ny\r\n" with x replaced by z
      becomes "z\ny\n". */
  lemma CrLfRewritten(dirs: set<string>, resolve: string -> Result<string>, walk: string -> string)
    ensures var call := Call("str_replace", "/repo/a", "", "x", "z", 0, None);
      Answer(map["/repo/a" := "x\r\ny\r\n"], dirs, "/repo", resolve, walk, call).1
        == map["/repo/a" := "z\ny\n"]
  {
    assert ReadText("x\r\ny\r\n") == "x\ny\n" by {
      assert "x\r\ny\r\n"[1..] == "\r\ny\r\n";
      assert "\r\ny\r\n"[2..] == "y\r\n";
      assert "y\r\n"[1..] == "\r\n";
      assert "\r\n"[2..] == "";
    }
    assert "x" <= "x\ny\n";
    assert Count("x\ny\n", "x") == 1 by {
      assert "x\ny\n"[1..] == "\ny\n";
      assert Count("\ny\n", "x") == 0 by {
        assert "\ny\n"[1..] == "y\n" && "y\n"[1..] == "\n" && "\n"[1..] == "";
      }
    }
    assert ReplaceAll("x\ny\n", "x", "z") == "z\ny\n" by {
      assert "x\ny\n"[1..] == "\ny\n";
      ReplaceAbsent("\ny\n", "x", "z");
    }
    assert "/repo" <= "/repo/a";
    assert "str_replace" != "view" && "str_replace" != "create";
  }

  /** insert: an out-of-range line number is an error without change;
      otherwise new_str (trailing newlines stripped, one added) becomes line
      insert_line and the other lines keep their order. */
  lemma InsertRule(files: map<string, string>, dirs: set<string>, repoPath: string,
                   resolve: string -> Result<string>, walk: string -> string, call: Call)
    requires call.command == "insert"
    requires ResolvePath(repoPath, call.path, resolve).Ok? && repoPath <= ResolvePath(repoPath, call.path, resolve).value
    requires ResolvePath(repoPath, call.path, resolve).value in files
    ensures var p := ResolvePath(repoPath, call.path, resolve).value;
      var lines := SplitKeepEnds(ReadText(files[p]));
      var (result, after) := Answer(files, dirs, repoPath, resolve, walk, call);
      && (call.insertLine < 0 || call.insertLine > |lines| ==>
            result == "Error: insert_line " + IntToString(call.insertLine) + " out of range" && after == files)
      && (0 <= call.insertLine <= |lines| ==>
            after == files[p := Concat(lines[..call.insertLine] + [RStripChar(call.newStr, '\n') + "\n"]
                                       + lines[call.insertLine..])])
  {
    assert "insert" != "view" && "insert" != "create" && "insert" != "str_replace";
  }

  /** When the inserted text holds no inner newline and the insert does not
      land after an unterminated last line, the file after an insert splits
      back into the old lines with the new one at insert_line. */
  lemma InsertedLines(text: string, k: nat, added: string)
    requires k <= |SplitKeepEnds(text)|
    requires Terminated(text) || k < |SplitKeepEnds(text)|
    requires '\n' !in RStripChar(added, '\n')
    ensures var lines := SplitKeepEnds(text);
      SplitKeepEnds(InsertLine(text, k, added)) == lines[..k] + [RStripChar(added, '\n') + "\n"] + lines[k..]
    ensures |SplitKeepEnds(InsertLine(text, k, added))| == |SplitKeepEnds(text)| + 1
  {
    var lines := SplitKeepEnds(text);
    var line := RStripChar(added, '\n') + "\n";
    SplitKeepEndsShaped(text);
    if k == |lines| && lines != [] {
      LastLineTerminated(text);
    }
    var out := lines[..k] + [line] + lines[k..];
    assert NoInnerNewline(line);
    assert EndsWithNewline(line);
    assert LineShaped(out) by {
      forall i | 0 <= i < |out|
        ensures out[i] != [] && NoInnerNewline(out[i])
        ensures i < |out| - 1 ==> EndsWithNewline(out[i])
      {
        if i < k {
          assert out[i] == lines[i];
        } else if i > k {
          assert out[i] == lines[i - 1];
        }
      }
    }
    SplitKeepEndsConcat(out);
  }

  /** The last line of a terminated text ends with "\n". */
  lemma LastLineTerminated(text: string)
    requires Terminated(text) && SplitKeepEnds(text) != []
    ensures EndsWithNewline(SplitKeepEnds(text)[|SplitKeepEnds(text)| - 1])
  {
    var lines := SplitKeepEnds(text);
    var n := |lines|;
    SplitKeepEndsShaped(text);
    ConcatSplitKeepEnds(text);
    assert lines == lines[..n - 1] + [lines[n - 1]];
    ConcatJoin(lines[..n - 1], [lines[n - 1]]);
    assert Concat([lines[n - 1]]) == lines[n - 1];
    assert text == Concat(lines[..n - 1]) + lines[n - 1];
  }

  /** Inserting after an unterminated last line glues the new text onto it:
      "a" with "b" inserted at line 1 becomes the single line "ab\n". */
  lemma InsertAfterUnterminatedLine()
    ensures SplitKeepEnds("a") == ["a"]
    ensures InsertLine("a", 1, "b") == "ab\n"
    ensures SplitKeepEnds(InsertLine("a", 1, "b")) == ["ab\n"]
  {
    assert SplitKeepEnds("a") == ["a"] by {
      LineEndIs("a", 1);
    }
    assert RStripChar("b", '\n') == "b";
    assert ["a"][..1] + ["b\n"] + ["a"][1..] == ["a", "b\n"];
    assert ["a", "b\n"][1..] == ["b\n"] && ["b\n"][1..] == [];
    assert Concat(["b\n"]) == "b\n";
    assert Concat(["a", "b\n"]) == "a" + "b\n" == "ab\n";
    var lines := SplitKeepEnds("a");
    assert RStripChar("b", '\n') + "\n" == "b\n";
    assert lines[..1] + [RStripChar("b", '\n') + "\n"] + lines[1..] == ["a", "b\n"];
    assert InsertLine("a", 1, "b") == "ab\n";
    LineEndIs("ab\n", 2);
    assert "ab\n"[3..] == [] && "ab\n"[..3] == "ab\n";
    assert SplitKeepEnds("ab\n") == ["ab\n"] + SplitKeepEnds([]);
  }
}
