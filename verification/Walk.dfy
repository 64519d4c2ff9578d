/** The pruned directory walk of the code scanner and of the dependency scanner (internal/scan/code/scanner.go,
    internal/deps/scanner.go). A tree is what the walk can read, its children in the order of the walk; a path is the
    list of names below the root. */
module Walk {
  import opened Paths
  import opened Text

  datatype Tree = File(name: string) | Dir(name: string, children: seq<Tree>)

  type Path = seq<string>

  const SKIP_DIRS: set<string> := {
    ".git", "node_modules", "vendor", "__pycache__", ".venv", "venv", "dist", "build", "target", "bin", "obj"}

  // ----- Exclusion --------------------------------------------------------------------------

  /** The path relative to the root, as text. */
  function Rel(path: Path): string { if path == [] then "." else PathText(path) }

  function TrimSuffix(s: string, suffix: string): string {
    if HasSuffix(s, suffix) then s[..|s| - |suffix|] else s
  }

  /** The string test for one prefix. */
  predicate Under(rel: string, prefix: string) {
    var p := TrimSuffix(prefix, "/");
    rel == p || HasPrefix(rel, p + "/")
  }

  predicate ExcludedBy(rel: string, prefixes: seq<string>) {
    exists prefix | prefix in prefixes :: Under(rel, prefix)
  }

  method Excluded(path: Path, prefixes: seq<string>) returns (r: bool)
    ensures r == ExcludedBy(Rel(path), prefixes)
  {
    if |prefixes| == 0 {
      return false;
    }
    var rel := Rel(path);
    for i := 0 to |prefixes|
      invariant forall prefix | prefix in prefixes[..i] :: !Under(rel, prefix)
    {
      assert prefixes[..i + 1] == prefixes[..i] + [prefixes[i]];
      var p := TrimSuffix(prefixes[i], "/");
      if rel == p || HasPrefix(rel, p + "/") {
        assert Under(rel, prefixes[i]);
        return true;
      }
    }
    assert prefixes[..|prefixes|] == prefixes;
    return false;
  }

  /** For a prefix written as a path, with or without a final slash, the string test is ancestry: the path is the
      prefix or lies below it, segment by segment. */
  lemma UnderIsAncestry(path: Path, ps: Path, slash: bool)
    requires path != [] && ps != [] && Segments(path) && Segments(ps)
    ensures Under(Rel(path), PathText(ps) + if slash then "/" else "") <==> ps <= path
  {
    hide Segment;
    var p := PathText(ps);
    TextNotSlashed(ps);
    assert TrimSuffix(p + if slash then "/" else "", "/") == p by {
      if slash {
        assert (p + "/")[|p|..] == "/";
      } else {
        assert p + "" == p && p[|p| - 1..] == [p[|p| - 1]];
      }
    }
    BelowIsAncestry(ps, path);
    TextInjective(path, ps);
  }

  /** Whatever the prefixes are, exclusion is inherited by everything below an excluded path. */
  lemma ExclusionInherited(a: Path, b: Path, prefixes: seq<string>)
    requires a != [] && a <= b && ExcludedBy(Rel(a), prefixes)
    ensures ExcludedBy(Rel(b), prefixes)
  {
    var prefix :| prefix in prefixes && Under(Rel(a), prefix);
    if a < b {
      var rest := b[|a|..];
      assert b == a + rest;
      JoinConcat(a, rest, "/");
      assert PathText(b) == PathText(a) + "/" + PathText(rest);
      InheritedText(PathText(a), PathText(rest), prefix);
    } else {
      assert a == b;
    }
    assert Under(Rel(b), prefix);
  }

  lemma InheritedText(a: string, rest: string, prefix: string)
    requires Under(a, prefix)
    ensures Under(a + "/" + rest, prefix)
  {
    var p := TrimSuffix(prefix, "/");
    if a == p {
      assert (a + "/" + rest)[..|p| + 1] == p + "/";
    } else {
      assert (a + "/" + rest)[..|p| + 1] == a[..|p| + 1];
    }
  }

  /** Some prefix stands for the root itself: it is `.` up to a final slash. */
  predicate RootExcluded(prefixes: seq<string>) {
    exists prefix | prefix in prefixes :: TrimSuffix(prefix, "/") == "."
  }

  lemma RootExcludedIs(prefixes: seq<string>)
    ensures ExcludedBy(Rel([]), prefixes) <==> RootExcluded(prefixes)
  {
    forall prefix | prefix in prefixes ensures Under(".", prefix) <==> TrimSuffix(prefix, "/") == "." {
      DotHasNothingAbove(TrimSuffix(prefix, "/"));
    }
  }

  lemma DotHasNothingAbove(p: string)
    ensures !HasPrefix(".", p + "/")
  {
    PrefixChars(".", p + "/");
    assert (p + "/")[|p|] == '/';
  }

  // ----- The walk, pruned and in full ------------------------------------------------------------

  /** All files of a tree that stands at a path, in walk order. */
  function AllFiles(t: Tree, at: Path): seq<Path>
    decreases t
  {
    match t
    case File(_) => [at]
    case Dir(_, children) => AllBelow(children, at)
  }

  function AllBelow(children: seq<Tree>, at: Path): seq<Path>
    decreases children
  {
    if children == [] then []
    else
      var last := children[|children| - 1];
      AllBelow(children[..|children| - 1], at) + AllFiles(last, at + [last.name])
  }

  /** The files that the pruned walk visits. */
  function Visited(t: Tree, at: Path, prefixes: seq<string>): seq<Path>
    decreases t
  {
    match t
    case File(_) => if ExcludedBy(Rel(at), prefixes) then [] else [at]
    case Dir(name, children) =>
      if name in SKIP_DIRS || ExcludedBy(Rel(at), prefixes) then [] else VisitedBelow(children, at, prefixes)
  }

  function VisitedBelow(children: seq<Tree>, at: Path, prefixes: seq<string>): seq<Path>
    decreases children
  {
    if children == [] then []
    else
      var last := children[|children| - 1];
      VisitedBelow(children[..|children| - 1], at, prefixes) + Visited(last, at + [last.name], prefixes)
  }

  lemma VisitedOneMore(children: seq<Tree>, i: nat, at: Path, prefixes: seq<string>)
    requires i < |children|
    ensures VisitedBelow(children[..i + 1], at, prefixes) ==
            VisitedBelow(children[..i], at, prefixes) + Visited(children[i], at + [children[i].name], prefixes)
  {
    assert children[..i + 1][..i] == children[..i];
  }

  /** The walk: a skipped or excluded directory is not entered. The caller handles the files in this order. */
  method WalkDir(t: Tree, at: Path, prefixes: seq<string>) returns (files: seq<Path>)
    ensures files == Visited(t, at, prefixes)
    decreases t
  {
    hide ExcludedBy, Rel;
    match t
    case Dir(name, children) =>
      if name in SKIP_DIRS {
        return [];
      }
      var excluded := Excluded(at, prefixes);
      if excluded {
        return [];
      }
      files := [];
      for i := 0 to |children|
        invariant files == VisitedBelow(children[..i], at, prefixes)
      {
        VisitedOneMore(children, i, at, prefixes);
        var more := WalkDir(children[i], at + [children[i].name], prefixes);
        files := files + more;
      }
      assert children[..|children|] == children;
    case File(_) =>
      var excluded := Excluded(at, prefixes);
      if excluded {
        return [];
      }
      return [at];
  }

  // ----- Pruning is filtering ------------------------------------------------------------------------

  /** The directories from a starting depth down to the file's own are not skipped, and the file is not excluded. */
  predicate Wanted(path: Path, from: nat, prefixes: seq<string>) {
    && (forall i | from <= i < |path| - 1 :: path[i] !in SKIP_DIRS)
    && !ExcludedBy(Rel(path), prefixes)
  }

  function Filter(paths: seq<Path>, from: nat, prefixes: seq<string>): seq<Path> {
    if paths == [] then []
    else
      var last := paths[|paths| - 1];
      Filter(paths[..|paths| - 1], from, prefixes) + if Wanted(last, from, prefixes) then [last] else []
  }

  lemma {:induction false} FilterConcat(a: seq<Path>, b: seq<Path>, from: nat, prefixes: seq<string>)
    ensures Filter(a + b, from, prefixes) == Filter(a, from, prefixes) + Filter(b, from, prefixes)
  {
    hide Wanted;
    if b == [] {
      assert a + b == a;
    } else {
      assert (a + b)[..|a + b| - 1] == a + b[..|b| - 1];
      FilterConcat(a, b[..|b| - 1], from, prefixes);
    }
  }

  lemma {:induction false} FilterNone(paths: seq<Path>, from: nat, prefixes: seq<string>)
    requires forall p | p in paths :: !Wanted(p, from, prefixes)
    ensures Filter(paths, from, prefixes) == []
  {
    hide Wanted;
    if paths != [] {
      FilterNone(paths[..|paths| - 1], from, prefixes);
    }
  }

  predicate AllUnder(paths: seq<Path>, at: Path) {
    forall i | 0 <= i < |paths| :: at < paths[i]
  }

  /** A later starting depth does not matter if the names in between are not skipped. */
  lemma {:induction false} FilterDeeper(paths: seq<Path>, at: Path, prefixes: seq<string>)
    requires at != [] && at[|at| - 1] !in SKIP_DIRS && AllUnder(paths, at)
    ensures Filter(paths, |at| - 1, prefixes) == Filter(paths, |at|, prefixes)
  {
    hide Wanted;
    if paths != [] {
      var last := paths[|paths| - 1];
      FilterDeeper(paths[..|paths| - 1], at, prefixes);
      WantedDeeper(last, at, prefixes);
    }
  }

  lemma WantedDeeper(path: Path, at: Path, prefixes: seq<string>)
    requires at != [] && at[|at| - 1] !in SKIP_DIRS && at < path
    ensures Wanted(path, |at| - 1, prefixes) <==> Wanted(path, |at|, prefixes)
  {
    hide ExcludedBy, Rel;
    assert path[|at| - 1] == at[|at| - 1];
  }

  lemma {:induction false} FilesBelow(t: Tree, at: Path)
    ensures forall i | 0 <= i < |AllFiles(t, at)| :: at <= AllFiles(t, at)[i]
    decreases t
  {
    match t
    case File(_) =>
    case Dir(_, children) => ChildrenBelow(children, at);
  }

  lemma {:induction false} ChildrenBelow(children: seq<Tree>, at: Path)
    ensures AllUnder(AllBelow(children, at), at)
    decreases children
  {
    if children != [] {
      var last := children[|children| - 1];
      ChildrenBelow(children[..|children| - 1], at);
      FilesBelow(last, at + [last.name]);
      var files := AllFiles(last, at + [last.name]);
      forall i | 0 <= i < |files| ensures at < files[i] {
        assert at + [last.name] <= files[i] && (at + [last.name])[..|at|] == at;
      }
    }
  }

  /** Below the root, pruning a subtree is filtering its files. */
  lemma {:induction false} PrunedBelow(t: Tree, at: Path, prefixes: seq<string>)
    requires at != [] && at[|at| - 1] == t.name
    ensures Visited(t, at, prefixes) == Filter(AllFiles(t, at), |at| - 1, prefixes)
    decreases t
  {
    hide ExcludedBy, Rel;
    match t
    case File(_) =>
      assert [at][..0] == [];
    case Dir(name, children) =>
      ChildrenBelow(children, at);
      var below := AllBelow(children, at);
      if name in SKIP_DIRS || ExcludedBy(Rel(at), prefixes) {
        forall p | p in below ensures !Wanted(p, |at| - 1, prefixes) {
          var i :| 0 <= i < |below| && below[i] == p;
          assert at < below[i] && p[|at| - 1] == name;
          if name !in SKIP_DIRS {
            ExclusionInherited(at, p, prefixes);
          }
        }
        FilterNone(below, |at| - 1, prefixes);
      } else {
        PrunedChildren(children, at, prefixes);
        FilterDeeper(below, at, prefixes);
      }
  }

  lemma {:induction false} PrunedChildren(children: seq<Tree>, at: Path, prefixes: seq<string>)
    ensures VisitedBelow(children, at, prefixes) == Filter(AllBelow(children, at), |at|, prefixes)
    decreases children
  {
    assert Filter([], |at|, prefixes) == [];
    hide Filter, AllFiles, Visited;
    if children != [] {
      var init, last := children[..|children| - 1], children[|children| - 1];
      PrunedChildren(init, at, prefixes);
      PrunedBelow(last, at + [last.name], prefixes);
      FilterConcat(AllBelow(init, at), AllFiles(last, at + [last.name]), |at|, prefixes);
    }
  }

  /** What the scanners promise: all files of the tree, without those below a skipped directory, the root included,
      and without the excluded ones. */
  function Promised(t: Tree, prefixes: seq<string>): seq<Path> {
    if t.Dir? && t.name in SKIP_DIRS then [] else Filter(AllFiles(t, []), 0, prefixes)
  }

  /** The pruned walk visits exactly the promised files, in order, unless a prefix stands for the root itself; then it
      visits nothing, and so differs exactly when something was promised. */
  lemma PrunedIsFilterIff(t: Tree, prefixes: seq<string>)
    ensures Visited(t, [], prefixes) == Promised(t, prefixes) <==>
            !RootExcluded(prefixes) || Promised(t, prefixes) == []
    ensures RootExcluded(prefixes) ==> Visited(t, [], prefixes) == []
  {
    hide ExcludedBy, Rel, RootExcluded;
    RootExcludedIs(prefixes);
    match t
    case File(_) =>
      var one: seq<Path> := [[]];
      assert one[..0] == [] && AllFiles(t, []) == one;
      assert Filter(one, 0, prefixes) == if Wanted([], 0, prefixes) then one else [];
    case Dir(name, children) =>
      PrunedChildren(children, [], prefixes);
  }

  /** The directories that are never entered. */
  predicate Skipped(name: string) {
    || name == ".git" || name == "node_modules" || name == "vendor" || name == "__pycache__" || name == ".venv"
    || name == "venv" || name == "dist" || name == "build" || name == "target" || name == "bin" || name == "obj"
  }

  lemma {:induction false} FilterMembers(paths: seq<Path>, from: nat, prefixes: seq<string>, path: Path)
    ensures path in Filter(paths, from, prefixes) <==> path in paths && Wanted(path, from, prefixes)
  {
    hide Wanted;
    if paths != [] {
      FilterMembers(paths[..|paths| - 1], from, prefixes, path);
      assert paths == paths[..|paths| - 1] + [paths[|paths| - 1]];
    }
  }

  /** A file of the tree is visited exactly if no directory above it, the root included, is one of those and nothing
      excludes it, unless a prefix stands for the root. */
  lemma VisitedIff(t: Tree, prefixes: seq<string>, path: Path)
    requires !RootExcluded(prefixes)
    ensures path in Visited(t, [], prefixes) <==>
            && path in AllFiles(t, []) && !(t.Dir? && Skipped(t.name))
            && (forall i | 0 <= i < |path| - 1 :: !Skipped(path[i])) && !ExcludedBy(Rel(path), prefixes)
  {
    hide ExcludedBy, Rel, RootExcluded, AllFiles, Visited, Filter;
    PrunedIsFilterIff(t, prefixes);
    FilterMembers(AllFiles(t, []), 0, prefixes, path);
    assert forall name :: Skipped(name) <==> name in SKIP_DIRS;
  }
}
