/** The dependency scan (internal/deps/scanner.go): every recognised manifest that the pruned walk visits is parsed, and
    every dependency is looked up in the catalog. The parsers are a parameter; a file that does not parse is skipped. */
module DepsScan {
  import opened Catalog
  import opened Findings
  import opened Manifest
  import opened Paths
  import opened Text
  import Walk

  datatype Parser =
    | GoMod | PackageLock | YarnLock | PipfileLock | Pom | Pyproject | PoetryLock | UvLock | CargoLock | GemfileLock
    | ComposerLock | Gradle | VersionCatalog | Requirements | Csproj

  datatype Spec = Spec(ecosystem: string, display: string, parser: Parser)

  const EXACT_MATCHERS: map<string, Spec> := map[
    "go.mod" := Spec("go", "Go modules", GoMod),
    "package-lock.json" := Spec("npm", "npm", PackageLock),
    "yarn.lock" := Spec("npm", "npm", YarnLock),
    "Pipfile.lock" := Spec("pypi", "PyPI", PipfileLock),
    "pom.xml" := Spec("maven", "Maven", Pom),
    "pyproject.toml" := Spec("pypi", "PyPI", Pyproject),
    "poetry.lock" := Spec("pypi", "PyPI", PoetryLock),
    "uv.lock" := Spec("pypi", "PyPI", UvLock),
    "Cargo.lock" := Spec("cargo", "Cargo", CargoLock),
    "Gemfile.lock" := Spec("rubygems", "RubyGems", GemfileLock),
    "composer.lock" := Spec("composer", "Composer", ComposerLock),
    "build.gradle" := Spec("maven", "Maven (Gradle)", Gradle),
    "build.gradle.kts" := Spec("maven", "Maven (Gradle)", Gradle),
    "libs.versions.toml" := Spec("maven", "Maven (Gradle catalog)", VersionCatalog)]

  predicate IsRequirementsFile(name: string) {
    && HasSuffix(name, ".txt")
    && (name == "requirements.txt" || HasPrefix(name, "requirements-") || HasSuffix(name, "-requirements.txt"))
  }

  /** An exact name first, then requirements files, then the one suffix. */
  function MatchManifest(name: string): Option<Spec> {
    if name in EXACT_MATCHERS then Some(EXACT_MATCHERS[name])
    else if IsRequirementsFile(name) then Some(Spec("pypi", "PyPI", Requirements))
    else if HasSuffix(name, ".csproj") then Some(Spec("nuget", "NuGet", Csproj))
    else None
  }

  type ParserTable = (Parser, string) -> Option<seq<ParsedDep>>

  /** What a scan runs on: the root and its tree, the parsers, the catalog, and case folding. */
  datatype Job = Job(
    root: string, tree: Walk.Tree, parse: ParserTable, catalog: seq<CatalogEntry>, lower: string -> string)
  {
    function FileText(path: Walk.Path): string { if path == [] then root else root + "/" + PathText(path) }
    function FileName(path: Walk.Path): string { if path == [] then tree.name else path[|path| - 1] }
  }

  // ----- The findings, by definition --------------------------------------------------------------

  function FindingFor(file: string, spec: Spec, dep: ParsedDep, e: CatalogEntry): Finding {
    Finding(file, dep.line, 0, if dep.version != "" then dep.name + " " + dep.version else dep.name, spec.display,
            e.severity, dep.snippet, e.ruleID, e.reason + " " + e.remediation, e.reference)
  }

  function ForEntries(file: string, spec: Spec, dep: ParsedDep, entries: seq<CatalogEntry>): seq<Finding> {
    if entries == [] then []
    else ForEntries(file, spec, dep, entries[..|entries| - 1]) + [FindingFor(file, spec, dep, entries[|entries| - 1])]
  }

  function ForDeps(job: Job, file: string, spec: Spec, deps: seq<ParsedDep>): seq<Finding> {
    if deps == [] then []
    else
      var dep := deps[|deps| - 1];
      ForDeps(job, file, spec, deps[..|deps| - 1])
      + ForEntries(file, spec, dep, Scan(job.catalog, spec.ecosystem, dep.name, dep.version, job.lower))
  }

  /** The dependencies of a file that is a manifest and parses. */
  function DepsIn(job: Job, path: Walk.Path): Option<(Spec, seq<ParsedDep>)> {
    match MatchManifest(job.FileName(path))
    case None => None
    case Some(spec) =>
      match job.parse(spec.parser, job.FileText(path))
      case None => None
      case Some(deps) => Some((spec, deps))
  }

  function ForFile(job: Job, path: Walk.Path): seq<Finding> {
    match DepsIn(job, path)
    case None => []
    case Some((spec, deps)) => ForDeps(job, job.FileText(path), spec, deps)
  }

  function ForFiles(job: Job, paths: seq<Walk.Path>): seq<Finding> {
    if paths == [] then [] else ForFiles(job, paths[..|paths| - 1]) + ForFile(job, paths[|paths| - 1])
  }

  // ----- The scan ------------------------------------------------------------------------------------

  method ScanDep(file: string, spec: Spec, dep: ParsedDep, index: CatalogIndex) returns (results: seq<Finding>)
    requires index.Valid()
    ensures results ==
            ForEntries(file, spec, dep, Scan(index.filed, spec.ecosystem, dep.name, dep.version, index.lower))
  {
    hide Scan, Indexes;
    var matches := index.Lookup(spec.ecosystem, dep.name, dep.version);
    results := [];
    if |matches| == 0 {
      return;
    }
    var display := dep.name;
    if dep.version != "" {
      display := dep.name + " " + dep.version;
    }
    for i := 0 to |matches|
      invariant results == ForEntries(file, spec, dep, matches[..i])
    {
      assert matches[..i + 1][..i] == matches[..i];
      var e := matches[i];
      results := results + [Finding(file, dep.line, 0, display, spec.display, e.severity, dep.snippet, e.ruleID,
                                    e.reason + " " + e.remediation, e.reference)];
    }
    assert matches[..|matches|] == matches;
  }

  /** One visited file. */
  method ScanManifest(job: Job, path: Walk.Path, index: CatalogIndex) returns (results: seq<Finding>)
    requires index.Valid() && index.filed == job.catalog && index.lower == job.lower
    ensures results == ForFile(job, path)
  {
    hide MatchManifest, ForEntries, Scan, Indexes, Job.FileText, Job.FileName;
    results := [];
    var spec := MatchManifest(job.FileName(path));
    if spec.None? {
      return;
    }
    var parsed := job.parse(spec.value.parser, job.FileText(path));
    if parsed.None? {
      return;
    }
    var deps := parsed.value;
    for j := 0 to |deps|
      invariant results == ForDeps(job, job.FileText(path), spec.value, deps[..j])
    {
      assert deps[..j + 1][..j] == deps[..j];
      var more := ScanDep(job.FileText(path), spec.value, deps[j], index);
      results := results + more;
    }
    assert deps[..|deps|] == deps;
  }

  /** The dependency scan of a tree, with the catalog behind its index. */
  method ScanPath(job: Job, prefixes: seq<string>, index: CatalogIndex) returns (results: seq<Finding>)
    requires index.Valid() && index.filed == job.catalog && index.lower == job.lower
    ensures results == ForFiles(job, Walk.Visited(job.tree, [], prefixes))
  {
    hide ForFile, Indexes, Walk.Visited;
    var files := Walk.WalkDir(job.tree, [], prefixes);
    results := [];
    for i := 0 to |files|
      invariant results == ForFiles(job, files[..i])
    {
      assert files[..i + 1][..i] == files[..i];
      var more := ScanManifest(job, files[i], index);
      results := results + more;
    }
    assert files[..|files|] == files;
  }

  // ----- What is reported ------------------------------------------------------------------------------

  /** The finding is that of some applicable catalog entry for some dependency. */
  predicate ReportedFor(job: Job, file: string, spec: Spec, dep: ParsedDep, f: Finding) {
    exists e | e in job.catalog ::
      Applies(e, spec.ecosystem, dep.name, dep.version, job.lower) && f == FindingFor(file, spec, dep, e)
  }

  predicate ReportedIn(job: Job, path: Walk.Path, f: Finding) {
    match DepsIn(job, path)
    case None => false
    case Some((spec, deps)) => exists dep | dep in deps :: ReportedFor(job, job.FileText(path), spec, dep, f)
  }

  lemma {:induction false} EntriesMembers(
    file: string, spec: Spec, dep: ParsedDep, entries: seq<CatalogEntry>, f: Finding)
    ensures f in ForEntries(file, spec, dep, entries) <==>
            exists e | e in entries :: f == FindingFor(file, spec, dep, e)
  {
    hide FindingFor;
    if entries != [] {
      EntriesMembers(file, spec, dep, entries[..|entries| - 1], f);
      assert entries == entries[..|entries| - 1] + [entries[|entries| - 1]];
    }
  }

  lemma ScanHolds(job: Job, spec: Spec, dep: ParsedDep, e: CatalogEntry)
    ensures e in Scan(job.catalog, spec.ecosystem, dep.name, dep.version, job.lower) <==>
            e in job.catalog && Applies(e, spec.ecosystem, dep.name, dep.version, job.lower)
  {
    hide Applies, Scan;
    ScanMembers(job.catalog, spec.ecosystem, dep.name, dep.version, job.lower, e);
    var scanned := Scan(job.catalog, spec.ecosystem, dep.name, dep.version, job.lower);
    assert e in scanned <==> multiset(scanned)[e] > 0;
    assert e in job.catalog <==> multiset(job.catalog)[e] > 0;
  }

  lemma OneDep(job: Job, file: string, spec: Spec, dep: ParsedDep, f: Finding)
    ensures f in ForEntries(file, spec, dep, Scan(job.catalog, spec.ecosystem, dep.name, dep.version, job.lower))
            <==> ReportedFor(job, file, spec, dep, f)
  {
    hide FindingFor, Applies, Scan, ForEntries;
    var found := Scan(job.catalog, spec.ecosystem, dep.name, dep.version, job.lower);
    EntriesMembers(file, spec, dep, found, f);
    forall e ensures e in found <==> e in job.catalog && Applies(e, spec.ecosystem, dep.name, dep.version, job.lower) {
      ScanHolds(job, spec, dep, e);
    }
  }

  lemma {:induction false} DepsMembers(job: Job, file: string, spec: Spec, deps: seq<ParsedDep>, f: Finding)
    ensures f in ForDeps(job, file, spec, deps) <==> exists dep | dep in deps :: ReportedFor(job, file, spec, dep, f)
  {
    hide ReportedFor, Scan, ForEntries;
    if deps != [] {
      var init, last := deps[..|deps| - 1], deps[|deps| - 1];
      DepsMembers(job, file, spec, init, f);
      OneDep(job, file, spec, last, f);
      assert forall dep :: dep in deps <==> dep in init || dep == last by {
        assert deps == init + [last];
      }
    }
  }

  lemma OneFile(job: Job, path: Walk.Path, f: Finding)
    ensures f in ForFile(job, path) <==> ReportedIn(job, path, f)
  {
    hide ForDeps, ReportedFor, DepsIn;
    if DepsIn(job, path).Some? {
      var (spec, deps) := DepsIn(job, path).value;
      DepsMembers(job, job.FileText(path), spec, deps, f);
    }
  }

  lemma {:induction false} FilesMembers(job: Job, paths: seq<Walk.Path>, f: Finding)
    ensures f in ForFiles(job, paths) <==> exists path | path in paths :: ReportedIn(job, path, f)
  {
    hide ForFile, ReportedIn;
    if paths != [] {
      var init, last := paths[..|paths| - 1], paths[|paths| - 1];
      FilesMembers(job, init, f);
      OneFile(job, last, f);
      assert forall path :: path in paths <==> path in init || path == last by {
        assert paths == init + [last];
      }
    }
  }

  /** The scan as a whole: unless a prefix stands for the root, a finding is reported exactly when some file that is
      neither excluded nor below a skipped directory is a manifest with a dependency to which an entry of the catalog
      applies. */
  lemma ReportedIff(job: Job, prefixes: seq<string>, f: Finding)
    requires !Walk.RootExcluded(prefixes)
    ensures f in ForFiles(job, Walk.Visited(job.tree, [], prefixes)) <==>
            exists path | path in Walk.Promised(job.tree, prefixes) :: ReportedIn(job, path, f)
  {
    hide ReportedIn, ForFiles, Walk.RootExcluded, Walk.Visited, Walk.Promised;
    Walk.PrunedIsFilterIff(job.tree, prefixes);
    FilesMembers(job, Walk.Promised(job.tree, prefixes), f);
  }

  // ----- Findings and file names in plain terms --------------------------------------------------------------

  /** The finding points at the dependency in its file and says what the entry says. */
  predicate PointsAt(f: Finding, file: string, spec: Spec, dep: ParsedDep, e: CatalogEntry) {
    && f.file == file && f.line == dep.line && f.column == 0 && f.snippet == dep.snippet
    && f.algorithm == (if dep.version == "" then dep.name else dep.name + " " + dep.version)
    && f.language == spec.display && f.severity == e.severity && f.rule == e.ruleID && f.reference == e.reference
    && f.remediation == e.reason + " " + e.remediation
  }

  /** A finding of a file points at one of its dependencies, for an entry of the catalog that applies to it; and every
      such entry has its finding. */
  lemma ReportedInDetail(job: Job, path: Walk.Path, f: Finding)
    ensures ReportedIn(job, path, f) <==>
            && DepsIn(job, path).Some?
            && var (spec, deps) := DepsIn(job, path).value;
               exists dep, e :: dep in deps && e in job.catalog
                                && Applies(e, spec.ecosystem, dep.name, dep.version, job.lower)
                                && PointsAt(f, job.FileText(path), spec, dep, e)
  {
    hide Applies, DepsIn, Job.FileText;
    if DepsIn(job, path).Some? {
      var (spec, deps) := DepsIn(job, path).value;
      if dep, e :| dep in deps && e in job.catalog && Applies(e, spec.ecosystem, dep.name, dep.version, job.lower)
                   && PointsAt(f, job.FileText(path), spec, dep, e) {
        assert f == FindingFor(job.FileText(path), spec, dep, e);
        assert ReportedFor(job, job.FileText(path), spec, dep, f);
      }
    }
  }

  /** No name of the table looks like a requirements file or a project file. */
  lemma ExactEnds(name: string)
    ensures name in EXACT_MATCHERS ==> name != "" && name[|name| - 1] != 't' && name[|name| - 1] != 'j'
  {}

  predicate RequirementsName(name: string) {
    name == "requirements.txt" || (HasPrefix(name, "requirements-") && HasSuffix(name, ".txt"))
    || HasSuffix(name, "-requirements.txt")
  }

  lemma SuffixEnds(name: string, suffix: string)
    requires suffix != "" && HasSuffix(name, suffix)
    ensures name != "" && name[|name| - 1] == suffix[|suffix| - 1]
  {
    assert name[|name| - |suffix|..][|suffix| - 1] == name[|name| - 1];
  }

  lemma RequirementsEnd(name: string)
    requires RequirementsName(name)
    ensures HasSuffix(name, ".txt") && IsRequirementsFile(name)
  {
    if HasSuffix(name, "-requirements.txt") {
      var tail := name[|name| - 17..];
      assert tail == "-requirements.txt";
      assert name[|name| - 4..] == tail[13..] == ".txt";
    }
  }

  /** Which other names are manifests: requirements files of Python and project files of NuGet, and nothing else. */
  lemma FamiliesMatched(name: string)
    ensures RequirementsName(name) ==> MatchManifest(name) == Some(Spec("pypi", "PyPI", Requirements))
    ensures HasSuffix(name, ".csproj") ==> MatchManifest(name) == Some(Spec("nuget", "NuGet", Csproj))
    ensures MatchManifest(name).Some? ==>
              name in EXACT_MATCHERS || RequirementsName(name) || HasSuffix(name, ".csproj")
  {
    ExactEnds(name);
    hide HasSuffix, HasPrefix, RequirementsName;
    IsRequirements(name);
    if HasSuffix(name, ".csproj") {
      SuffixEnds(name, ".csproj");
    }
    if RequirementsName(name) {
      RequirementsEnd(name);
      SuffixEnds(name, ".txt");
    }
  }

  lemma IsRequirements(name: string)
    ensures IsRequirementsFile(name) <==> RequirementsName(name)
  {
    hide HasPrefix;
    if RequirementsName(name) {
      RequirementsEnd(name);
    }
  }

  /** Different files have different names in the findings, and all of them start with the root. */
  lemma FileTextsDiffer(job: Job, a: Walk.Path, b: Walk.Path)
    requires Segments(a) && Segments(b)
    ensures job.FileText(a) == job.FileText(b) <==> a == b
    ensures HasPrefix(job.FileText(a), job.root)
  {
    hide PathText;
    if a != [] && b != [] {
      TextInjective(a, b);
      assert job.FileText(a)[|job.root| + 1..] == PathText(a) && job.FileText(b)[|job.root| + 1..] == PathText(b);
    }
    assert |job.FileText([])| == |job.root|;
  }

  predicate ParsedBy(name: string, parser: Parser) {
    MatchManifest(name).Some? && MatchManifest(name).value.parser == parser
  }

  /** Every format has its own parser. */
  lemma ParsersOfNames()
    ensures ParsedBy("go.mod", GoMod) && ParsedBy("pom.xml", Pom) && ParsedBy("build.gradle", Gradle)
    ensures ParsedBy("build.gradle.kts", Gradle) && ParsedBy("libs.versions.toml", VersionCatalog)
  {}

  lemma ParsersOfLocks()
    ensures ParsedBy("package-lock.json", PackageLock) && ParsedBy("yarn.lock", YarnLock)
    ensures ParsedBy("Pipfile.lock", PipfileLock) && ParsedBy("poetry.lock", PoetryLock) && ParsedBy("uv.lock", UvLock)
  {}

  lemma ParsersOfMoreLocks()
    ensures ParsedBy("Cargo.lock", CargoLock) && ParsedBy("Gemfile.lock", GemfileLock)
    ensures ParsedBy("composer.lock", ComposerLock) && ParsedBy("pyproject.toml", Pyproject)
  {}

  /** A file is judged by the last part of its name. */
  lemma FileNamesAreLast(job: Job, path: Walk.Path)
    requires path != [] && Segments(path)
    ensures job.FileName(path) == Base(job.FileText(path))
  {
    var text, name := PathText(path), path[|path| - 1];
    assert Segment(name);
    TextNotSlashed(path);
    var whole := job.root + "/" + text;
    assert whole[|whole| - 1] == text[|text| - 1];
    assert TrimRight(whole, IsSlash) == whole;
    var front := job.root;
    if |path| > 1 {
      TextEnds(path);
      front := job.root + "/" + PathText(path[..|path| - 1]);
      assert whole == front + "/" + name;
    }
    LastIndexBefore(front, '/', name);
    assert whole == front + ['/'] + name && whole[|front| + 1..] == name;
  }

  /** Entries, dependencies and files contribute one by one, in order. */
  lemma {:induction false} EntriesConcat(
    file: string, spec: Spec, dep: ParsedDep, a: seq<CatalogEntry>, b: seq<CatalogEntry>)
    ensures ForEntries(file, spec, dep, a + b) == ForEntries(file, spec, dep, a) + ForEntries(file, spec, dep, b)
  {
    hide FindingFor;
    if b == [] {
      assert a + b == a;
    } else {
      assert (a + b)[..|a + b| - 1] == a + b[..|b| - 1];
      EntriesConcat(file, spec, dep, a, b[..|b| - 1]);
    }
  }

  lemma {:induction false} DepsConcat(job: Job, file: string, spec: Spec, a: seq<ParsedDep>, b: seq<ParsedDep>)
    ensures ForDeps(job, file, spec, a + b) == ForDeps(job, file, spec, a) + ForDeps(job, file, spec, b)
  {
    hide ForEntries, Scan;
    if b == [] {
      assert a + b == a;
    } else {
      assert (a + b)[..|a + b| - 1] == a + b[..|b| - 1];
      DepsConcat(job, file, spec, a, b[..|b| - 1]);
    }
  }

  lemma {:induction false} FilesConcat(job: Job, a: seq<Walk.Path>, b: seq<Walk.Path>)
    ensures ForFiles(job, a + b) == ForFiles(job, a) + ForFiles(job, b)
  {
    hide ForFile;
    if b == [] {
      assert a + b == a;
    } else {
      assert (a + b)[..|a + b| - 1] == a + b[..|b| - 1];
      FilesConcat(job, a, b[..|b| - 1]);
    }
  }
}
