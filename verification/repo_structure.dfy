/** The repository tree renderer: a directory listing drawn with box
    characters, entries in name order, hidden names skipped, and the list
    of the files it shows. The directory tree is a value; reading it from
    disk is not part of this model. */
module RepoStructure {
  import opened Text

  /** A path relative to the repository root, as its components. */
  type Path = seq<string>

  /** A directory entry: a regular file, a directory with its entries, or
      anything else a directory can hold (a socket, a dangling link). */
  datatype Entry =
    | File(name: string)
    | Dir(name: string, children: seq<Entry>)
    | Other(name: string)

  /** name.startswith(".") */
  predicate Hidden(name: string)
  {
    name != [] && name[0] == '.'
  }

  // ---------------------------------------------------------------------
  // Path.suffix
  // ---------------------------------------------------------------------

  /** str.rfind("."): the index of the last dot, or -1. */
  function LastDot(s: string): (r: int)
    ensures -1 <= r < |s|
    ensures r >= 0 ==> s[r] == '.'
    ensures forall j :: r < j < |s| ==> s[j] != '.'
  {
    if s == [] then -1
    else if s[|s| - 1] == '.' then |s| - 1
    else LastDot(s[..|s| - 1])
  }

  /** The final dot and what follows it, unless the dot leads the name or
      ends it. */
  function Suffix(name: string): string
  {
    var i := LastDot(name);
    if 0 < i < |name| - 1 then name[i..] else ""
  }

  /** The suffix is empty exactly when the last dot is missing, first or
      last; otherwise it is the tail of the name from that dot, at least one
      character after it and no dot among them. */
  lemma SuffixMeaning(name: string)
    ensures Suffix(name) == "" <==>
      forall i :: 0 < i < |name| - 1 && name[i] == '.' ==> exists j :: i < j < |name| && name[j] == '.'
    ensures Suffix(name) != "" ==>
      var x := Suffix(name);
      && 2 <= |x| < |name| && x[0] == '.' && '.' !in x[1..]
      && name == name[..|name| - |x|] + x
  {
    var i := LastDot(name);
    if 0 < i < |name| - 1 {
      var x := name[i..];
      assert forall j :: 1 <= j < |x| ==> x[j] == name[i + j];
      assert name == name[..i] + x;
    } else {
      forall k | 0 < k < |name| - 1 && name[k] == '.'
        ensures exists j :: k < j < |name| && name[j] == '.'
      {
        assert k < i < |name|;
      }
    }
  }

  /** Shown with a connector line: a directory, or an entry whose suffix is
      one of the extensions. */
  predicate Listed(e: Entry, ext: seq<string>)
  {
    e.Dir? || Suffix(e.name) in ext
  }

  /** Visible and listed. */
  predicate Shown(e: Entry, ext: seq<string>)
  {
    !Hidden(e.name) && Listed(e, ext)
  }

  // ---------------------------------------------------------------------
  // sorted(..., key=lambda p: p.name)
  // ---------------------------------------------------------------------

  /** Python's a <= b on strings: code point by code point. */
  predicate NameLe(a: string, b: string)
  {
    a == [] || (b != [] && (a[0] < b[0] || (a[0] == b[0] && NameLe(a[1..], b[1..]))))
  }

  lemma {:induction false} NameLeTotal(a: string, b: string)
    ensures NameLe(a, b) || NameLe(b, a)
  {
    if a != [] && b != [] && a[0] == b[0] {
      NameLeTotal(a[1..], b[1..]);
    }
  }

  predicate SortedByName(es: seq<Entry>)
  {
    forall k :: 0 < k < |es| ==> NameLe(es[k - 1].name, es[k].name)
  }

  /** e placed after every entry whose name is not greater than its own. */
  function InsertByName(es: seq<Entry>, e: Entry): (r: seq<Entry>)
    requires SortedByName(es)
    ensures |r| == |es| + 1 && (r[0] == e || (es != [] && r[0] == es[0]))
    ensures SortedByName(r)
    ensures multiset(r) == multiset(es) + multiset{e}
  {
    if es == [] then [e]
    else if NameLe(es[0].name, e.name) then
      var rest := InsertByName(es[1..], e);
      InsertBehindHead(es, e, rest);
      [es[0]] + rest
    else
      NameLeTotal(es[0].name, e.name);
      SortedCons(e, es);
      [e] + es
  }

  /** The recursive case of InsertByName: the head stays in front of the
      rest with e inserted. */
  lemma InsertBehindHead(es: seq<Entry>, e: Entry, rest: seq<Entry>)
    requires es != [] && SortedByName(es) && NameLe(es[0].name, e.name)
    requires |rest| > 0 && (rest[0] == e || (|es| > 1 && rest[0] == es[1]))
    requires SortedByName(rest) && multiset(rest) == multiset(es[1..]) + multiset{e}
    ensures SortedByName([es[0]] + rest)
    ensures multiset([es[0]] + rest) == multiset(es) + multiset{e}
  {
    assert es == [es[0]] + es[1..];
    SortedCons(es[0], rest);
  }

  /** An entry not after the head of a sorted list can go in front. */
  lemma SortedCons(x: Entry, rest: seq<Entry>)
    requires SortedByName(rest) && (rest == [] || NameLe(x.name, rest[0].name))
    ensures SortedByName([x] + rest)
  {
    var r := [x] + rest;
    forall k | 1 < k < |r|
      ensures NameLe(r[k - 1].name, r[k].name)
    {
      assert r[k - 1] == rest[k - 2] && r[k] == rest[k - 1];
    }
  }

  /** The entries in name order: sorted, and the same entries. */
  function SortByName(es: seq<Entry>): (r: seq<Entry>)
    ensures SortedByName(r)
    ensures multiset(r) == multiset(es)
  {
    if es == [] then []
    else
      assert es == es[..|es| - 1] + [es[|es| - 1]];
      InsertByName(SortByName(es[..|es| - 1]), es[|es| - 1])
  }

  /** Sorting neither adds nor drops an entry. */
  lemma SortKeepsEntries(es: seq<Entry>)
    ensures forall e :: e in SortByName(es) <==> e in es
  {
    var r := SortByName(es);
    forall e
      ensures e in r <==> e in es
    {
      assert e in r <==> e in multiset(r);
    }
  }

  // ---------------------------------------------------------------------
  // _generate_structure_recursive
  // ---------------------------------------------------------------------

  /** The connector of entry idx of n: the corner only at the very last. */
  function Connector(idx: nat, n: nat): string
  {
    if idx < n - 1 then "├── " else "└── "
  }

  /** What the children of entry idx of n are indented by. */
  function Indent(idx: nat, n: nat): string
  {
    if idx < n - 1 then "│   " else "    "
  }

  /** The directory's rendering and its included files. */
  function Walk(children: seq<Entry>, prefix: string, rel: Path, ext: seq<string>): (string, seq<Path>)
    decreases children, 1
  {
    var entries := SortByName(children);
    SortKeepsEntries(children);
    var (structure, files) := Items(children, entries, |entries|, prefix, rel, ext);
    (Join(structure, "\n"), files)
  }

  /** The structure list and the files after the first k sorted entries. */
  function Items(within: seq<Entry>, entries: seq<Entry>, k: nat, prefix: string, rel: Path, ext: seq<string>)
    : (seq<string>, seq<Path>)
    requires k <= |entries| && forall e :: e in entries ==> e in within
    decreases within, 0, k
  {
    if k == 0 then ([], [])
    else
      var entry := entries[k - 1];
      assert entry in within;
      var subtree := if entry.Dir? && Shown(entry, ext)
        then Walk(entry.children, prefix + Indent(k - 1, |entries|), rel + [entry.name], ext)
        else ("", []);
      Visit(Items(within, entries, k - 1, prefix, rel, ext), entry, k - 1, |entries|, prefix, rel, ext, subtree)
  }

  /** The structure list and the files after entry idx of n, given those
      before it and, for a directory, its own rendering and files. */
  function Visit(acc: (seq<string>, seq<Path>), entry: Entry, idx: nat, n: nat, prefix: string, rel: Path,
                 ext: seq<string>, subtree: (string, seq<Path>)): (seq<string>, seq<Path>)
  {
    var (structure, files) := acc;
    if !Shown(entry, ext) then acc
    else
      var structure1 := structure + [prefix + Connector(idx, n) + entry.name];
      var files1 := if entry.File? then files + [rel + [entry.name]] else files;
      if entry.Dir? then
        (if subtree.0 != "" then structure1 + [subtree.0] else structure1, files1 + subtree.1)
      else (structure1, files1)
  }

  /** _generate_structure_recursive, with the loop and the recursion of the
      original. */
  method GenerateRecursive(children: seq<Entry>, prefix: string, rel: Path, ext: seq<string>)
    returns (s: string, files: seq<Path>)
    ensures (s, files) == Walk(children, prefix, rel, ext)
    decreases children, 1
  {
    var entries := SortByName(children);
    SortKeepsEntries(children);
    var structure: seq<string> := [];
    files := [];
    for idx := 0 to |entries|
      invariant (structure, files) == Items(children, entries, idx, prefix, rel, ext)
    {
      structure, files := AddEntry(children, entries, idx, prefix, rel, ext, structure, files);
    }
    s := Join(structure, "\n");
  }

  /** One round of the loop over the sorted entries: a hidden or unlisted
      entry adds nothing; otherwise its line, then a listed file's path or a
      directory's own rendering (when not empty) and files. */
  method AddEntry(children: seq<Entry>, entries: seq<Entry>, idx: nat, prefix: string, rel: Path, ext: seq<string>,
                  structure0: seq<string>, files0: seq<Path>)
    returns (structure: seq<string>, files: seq<Path>)
    requires idx < |entries| && forall e :: e in entries ==> e in children
    requires (structure0, files0) == Items(children, entries, idx, prefix, rel, ext)
    ensures (structure, files) == Items(children, entries, idx + 1, prefix, rel, ext)
    decreases children, 0
  {
    structure, files := structure0, files0;
    var entry := entries[idx];
    assert entry in children;
    var subtreeSpec := if entry.Dir? && Shown(entry, ext)
      then Walk(entry.children, prefix + Indent(idx, |entries|), rel + [entry.name], ext)
      else ("", []);
    assert Items(children, entries, idx + 1, prefix, rel, ext)
      == Visit((structure0, files0), entry, idx, |entries|, prefix, rel, ext, subtreeSpec);
    if Hidden(entry.name) {
      return;
    }
    var relativePath := rel + [entry.name];
    if entry.Dir? || Suffix(entry.name) in ext {
      structure := structure + [prefix + Connector(idx, |entries|) + entry.name];
      if entry.File? && Suffix(entry.name) in ext {
        files := files + [relativePath];
      }
      if entry.Dir? {
        var subtree, subtreeFiles := GenerateRecursive(entry.children,
          prefix + Indent(idx, |entries|), relativePath, ext);
        if subtree != "" {
          structure := structure + [subtree];
        }
        files := files + subtreeFiles;
      }
    }
  }

  /** generate_structure: the rendering from the repository root. */
  method GenerateStructure(root: seq<Entry>, ext: seq<string>) returns (s: string, files: seq<Path>)
    ensures (s, files) == Walk(root, "", [], ext)
  {
    s, files := GenerateRecursive(root, "", [], ext);
  }

  // ---------------------------------------------------------------------
  // Properties
  // ---------------------------------------------------------------------

  /** A file the rendering includes: a visible regular file with one of the
      extensions, directly here or below visible directories. */
  predicate Included(children: seq<Entry>, rel: Path, ext: seq<string>, p: Path)
    decreases children, 1
  {
    exists e :: e in children && Contributes(children, e, rel, ext, p)
  }

  predicate Contributes(children: seq<Entry>, e: Entry, rel: Path, ext: seq<string>, p: Path)
    requires e in children
    decreases children, 0
  {
    && !Hidden(e.name)
    && ((e.File? && Suffix(e.name) in ext && p == rel + [e.name])
        || (e.Dir? && Included(e.children, rel + [e.name], ext, p)))
  }

  /** The file list holds exactly the included files: nothing hidden, nothing
      with another suffix, nothing that is not a regular file. */
  lemma {:induction false} FilesExactly(children: seq<Entry>, prefix: string, rel: Path, ext: seq<string>, p: Path)
    ensures p in Walk(children, prefix, rel, ext).1 <==> Included(children, rel, ext, p)
    decreases children, 1
  {
    var entries := SortByName(children);
    SortKeepsEntries(children);
    ItemsFiles(children, entries, |entries|, prefix, rel, ext, p);
    assert SomeContributes(children, entries, |entries|, rel, ext, p) <==>
      exists j :: 0 <= j < |entries| && Contributes(children, entries[j], rel, ext, p);
    if Included(children, rel, ext, p) {
      var e :| e in children && Contributes(children, e, rel, ext, p);
      var j :| 0 <= j < |entries| && entries[j] == e;
      assert Contributes(children, entries[j], rel, ext, p);
    }
  }

  lemma {:induction false} ItemsFiles(within: seq<Entry>, entries: seq<Entry>, k: nat, prefix: string, rel: Path,
                                      ext: seq<string>, p: Path)
    requires k <= |entries| && forall e :: e in entries ==> e in within
    ensures p in Items(within, entries, k, prefix, rel, ext).1 <==> SomeContributes(within, entries, k, rel, ext, p)
    decreases within, 0, k
  {
    if k > 0 {
      ItemsFiles(within, entries, k - 1, prefix, rel, ext, p);
      AddedFiles(within, entries, k - 1, prefix, rel, ext, p);
      ContributesStep(within, entries, k, rel, ext, p);
      InAppend(p, Items(within, entries, k - 1, prefix, rel, ext).1, ItemsAdded(within, entries, k - 1, prefix, rel, ext),
               Items(within, entries, k, prefix, rel, ext).1);
    }
  }

  /** The files one entry adds are the files it contributes. */
  lemma AddedFiles(within: seq<Entry>, entries: seq<Entry>, idx: nat, prefix: string, rel: Path,
                   ext: seq<string>, p: Path)
    requires idx < |entries| && forall e :: e in entries ==> e in within
    ensures p in ItemsAdded(within, entries, idx, prefix, rel, ext) <==> Contributes(within, entries[idx], rel, ext, p)
    decreases within, 0, idx
  {
    var e := entries[idx];
    assert e in within;
    if e.Dir? && !Hidden(e.name) {
      FilesExactly(e.children, prefix + Indent(idx, |entries|), rel + [e.name], ext, p);
    }
  }

  lemma InAppend<T>(x: T, a: seq<T>, b: seq<T>, all: seq<T>)
    requires all == a + b
    ensures x in all <==> x in a || x in b
  {
  }

  /** One of the first k entries contributes p. */
  predicate SomeContributes(within: seq<Entry>, entries: seq<Entry>, k: nat, rel: Path, ext: seq<string>, p: Path)
    requires k <= |entries| && forall e :: e in entries ==> e in within
  {
    exists j :: 0 <= j < k && Contributes(within, entries[j], rel, ext, p)
  }

  lemma ContributesStep(within: seq<Entry>, entries: seq<Entry>, k: nat, rel: Path, ext: seq<string>, p: Path)
    requires 0 < k <= |entries| && forall e :: e in entries ==> e in within
    ensures SomeContributes(within, entries, k, rel, ext, p) <==>
      SomeContributes(within, entries, k - 1, rel, ext, p) || Contributes(within, entries[k - 1], rel, ext, p)
  {
    if exists j :: 0 <= j < k && Contributes(within, entries[j], rel, ext, p) {
      var j :| 0 <= j < k && Contributes(within, entries[j], rel, ext, p);
      if j < k - 1 {
        assert exists j :: 0 <= j < k - 1 && Contributes(within, entries[j], rel, ext, p);
      }
    }
    if exists j :: 0 <= j < k - 1 && Contributes(within, entries[j], rel, ext, p) {
      var j :| 0 <= j < k - 1 && Contributes(within, entries[j], rel, ext, p);
      assert 0 <= j < k;
    }
    if Contributes(within, entries[k - 1], rel, ext, p) {
      assert 0 <= k - 1 < k;
    }
  }


  /** The files entry idx adds to the list. */
  function ItemsAdded(within: seq<Entry>, entries: seq<Entry>, idx: nat, prefix: string, rel: Path,
                      ext: seq<string>): (r: seq<Path>)
    requires idx < |entries| && forall e :: e in entries ==> e in within
    ensures Items(within, entries, idx + 1, prefix, rel, ext).1 == Items(within, entries, idx, prefix, rel, ext).1 + r
    decreases within, 0, idx + 1
  {
    var e := entries[idx];
    if !Shown(e, ext) then []
    else if e.File? then [rel + [e.name]]
    else if e.Dir? then
      assert e in within;
      Walk(e.children, prefix + Indent(idx, |entries|), rel + [e.name], ext).1
    else []
  }

  /** Every item of the structure list is a non-empty line or subtree, and
      there is none exactly when no entry so far is shown. */
  lemma {:induction false} ItemsLines(within: seq<Entry>, entries: seq<Entry>, k: nat, prefix: string, rel: Path,
                                      ext: seq<string>)
    requires k <= |entries| && forall e :: e in entries ==> e in within
    ensures var structure := Items(within, entries, k, prefix, rel, ext).0;
      && (forall s :: s in structure ==> s != "")
      && (structure == [] <==> forall j :: 0 <= j < k ==> !Shown(entries[j], ext))
  {
    if k > 0 {
      ItemsLines(within, entries, k - 1, prefix, rel, ext);
      var entry := entries[k - 1];
      assert entry in within;
      var subtree := if entry.Dir? && Shown(entry, ext)
        then Walk(entry.children, prefix + Indent(k - 1, |entries|), rel + [entry.name], ext)
        else ("", []);
      var acc := Items(within, entries, k - 1, prefix, rel, ext);
      assert Items(within, entries, k, prefix, rel, ext) == Visit(acc, entry, k - 1, |entries|, prefix, rel, ext, subtree);
      VisitLines(acc, entry, k - 1, |entries|, prefix, rel, ext, subtree);
      UnshownStep(entries, k, ext);
    }
  }

  lemma UnshownStep(entries: seq<Entry>, k: nat, ext: seq<string>)
    requires 0 < k <= |entries|
    ensures (forall j :: 0 <= j < k ==> !Shown(entries[j], ext)) <==>
            (forall j :: 0 <= j < k - 1 ==> !Shown(entries[j], ext)) && !Shown(entries[k - 1], ext)
  {
  }

  /** One step keeps every item non-empty, and adds one exactly when the
      entry is shown. */
  lemma VisitLines(acc: (seq<string>, seq<Path>), entry: Entry, idx: nat, n: nat, prefix: string, rel: Path,
                   ext: seq<string>, subtree: (string, seq<Path>))
    requires forall s :: s in acc.0 ==> s != ""
    ensures var structure := Visit(acc, entry, idx, n, prefix, rel, ext, subtree).0;
      && (forall s :: s in structure ==> s != "")
      && (structure == [] <==> acc.0 == [] && !Shown(entry, ext))
  {
    assert |Connector(idx, n)| == 4;
  }

  /** The rendering is empty exactly when no entry is shown; a directory with
      an empty rendering adds no line to its parent's. */
  lemma WalkEmpty(children: seq<Entry>, prefix: string, rel: Path, ext: seq<string>)
    ensures Walk(children, prefix, rel, ext).0 == "" <==> forall e :: e in children ==> !Shown(e, ext)
  {
    var entries := SortByName(children);
    SortKeepsEntries(children);
    var structure := Items(children, entries, |entries|, prefix, rel, ext).0;
    ItemsLines(children, entries, |entries|, prefix, rel, ext);
    JoinEmpty(structure, "\n");
    if !(forall e :: e in children ==> !Shown(e, ext)) {
      var e :| e in children && Shown(e, ext);
      var j :| 0 <= j < |entries| && entries[j] == e;
    }
  }

  /** A join of non-empty strings is empty only when there are none. */
  lemma JoinEmpty(ls: seq<string>, sep: string)
    requires forall s :: s in ls ==> s != ""
    ensures Join(ls, sep) == "" <==> ls == []
  {
    if |ls| > 1 {
      assert ls[0] in ls;
      assert |Join(ls, sep)| >= |ls[0]|;
    } else if |ls| == 1 {
      assert ls[0] in ls;
    }
  }

  /** The corner goes to the last entry of the whole sorted listing, even
      when that entry is not shown: with only ".py" files listed, a
      directory holding a.py and b.txt draws a.py with a tee and no corner
      at all. */
  lemma CornerFollowsUnshownEntry()
    ensures Walk([File("b.txt"), File("a.py")], "", [], [".py"]) == ("├── a.py", [["a.py"]])
  {
    var es := [File("b.txt"), File("a.py")];
    assert SortByName(es) == [File("a.py"), File("b.txt")] by {
      assert NameLe("a.py", "b.txt");
      assert SortByName([File("b.txt")]) == [File("b.txt")];
    }
    CornerItems();
    assert Join(["├── a.py"], "\n") == "├── a.py";
  }

  lemma CornerItems()
    ensures var es, entries := [File("b.txt"), File("a.py")], [File("a.py"), File("b.txt")];
      (forall e :: e in entries ==> e in es) &&
      Items(es, entries, 2, "", [], [".py"]) == (["├── a.py"], [["a.py"]])
  {
    var es := [File("b.txt"), File("a.py")];
    var entries := [File("a.py"), File("b.txt")];
    assert forall e :: e in entries ==> e in es;
    assert Suffix("a.py") == ".py" by {
      assert LastDot("a.py") == 1 by {
        assert "a.py"[..3] == "a.p";
        assert "a.p"[..2] == "a.";
      }
    }
    assert Suffix("b.txt") == ".txt" by {
      assert LastDot("b.txt") == 1 by {
        assert "b.txt"[..4] == "b.tx";
        assert "b.tx"[..3] == "b.t";
        assert "b.t"[..2] == "b.";
      }
    }
    assert Items(es, entries, 0, "", [], [".py"]) == ([], []);
    assert Shown(entries[0], [".py"]);
    assert Connector(0, 2) == "├── ";
    var line := "" + Connector(0, 2) + entries[0].name;
    assert line == "├── a.py";
    assert Items(es, entries, 1, "", [], [".py"]).0 == [line];
    assert Items(es, entries, 1, "", [], [".py"]).1 == [[] + [entries[0].name]];
    assert [] + [entries[0].name] == ["a.py"];
    assert !Shown(entries[1], [".py"]) by {
      assert ".txt" != ".py";
    }
  }
}
