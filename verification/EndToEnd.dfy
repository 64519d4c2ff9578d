/** From an advisory to a deduplicated finding: what the importer, the catalog, the scan and the deduplication promise
    each other. */
module EndToEnd {
  import opened Text
  import opened Findings
  import opened Manifest
  import opened Versions
  import opened Catalog
  import opened DepsScan
  import Deduplication
  import Osv

  /** The generated catalog holds an imported entry field by field. */
  function Listed(e: Osv.ImportedEntry): CatalogEntry {
    CatalogEntry(e.ecosystem, e.name, e.affectedVersions, e.ruleID, e.severity, e.reason, e.remediation, e.reference)
  }

  /** With a version, an entry applies exactly if ecosystem and name agree up to case and its text matches. */
  lemma AppliesToVersion(e: Osv.ImportedEntry, eco: string, name: string, version: string, lower: string -> string)
    requires version != ""
    ensures Applies(Listed(e), eco, name, version, lower) <==>
            && lower(e.ecosystem) == lower(eco) && lower(e.name) == lower(name)
            && Osv.MatchedBy(e.affectedVersions, VersionOf(version))
  {
    hide Satisfies, ConstraintsOf, VersionOf;
  }

  /** The scan names an advisory for a pinned dependency only if the schema calls that version affected. */
  lemma ReportedIsAffected(v: Osv.Vulnerability, a: Osv.AffectedPackage, known: set<string>, lower: string -> string,
                           e: Osv.ImportedEntry, eco: string, name: string, version: string)
    requires Osv.Stems(v, a, known, lower, e) && Osv.Regular(a)
    requires version != "" && Applies(Listed(e), eco, name, version, lower)
    ensures Osv.Affected(a.ranges, VersionOf(version))
  {
    hide Osv.ConstraintText, Osv.MatchedBy, Osv.Affected, Applies, VersionOf, Osv.Regular;
    AppliesToVersion(e, eco, name, version, lower);
    Osv.ParsedIsNonNegative(version);
    RegularCompiles(a, VersionOf(version));
  }

  lemma RegularCompiles(a: Osv.AffectedPackage, ver: Version)
    requires Osv.ConstraintText(a.ranges).Some? && Osv.Regular(a) && Osv.NonNegative(ver)
    requires Osv.MatchedBy(Osv.ConstraintText(a.ranges).value, ver)
    ensures Osv.Affected(a.ranges, ver)
  {
    hide Osv.ConstraintText, Osv.MatchedBy, Osv.Affected;
    Osv.CompilerSound(a.ranges, ver);
  }

  /** If the range also meets the condition for exactness, no comma does harm and no other range adds a version, the
      scan names the advisory for exactly the affected versions of the package, in its ecosystem, up to case. */
  lemma ReportedIffAffected(v: Osv.Vulnerability, a: Osv.AffectedPackage, known: set<string>, lower: string -> string,
                            e: Osv.ImportedEntry, eco: string, name: string, version: string)
    requires Osv.Stems(v, a, known, lower, e) && Osv.Regular(a) && version != ""
    requires var bounds := Osv.Bounds(a.ranges[Osv.Chosen(a.ranges)].events);
             Osv.StartsOnce(bounds) || Osv.AllCancelled(bounds)
    requires Osv.CommasHarmless(a.ranges) && Osv.OthersAddNothing(a.ranges)
    ensures Applies(Listed(e), eco, name, version, lower) <==>
            && lower(e.ecosystem) == lower(eco) && lower(lower(a.name)) == lower(name)
            && Osv.Affected(a.ranges, VersionOf(version))
  {
    hide Osv.MatchedBy, Osv.Affected, Applies, VersionOf, Osv.CommasHarmless, Osv.OthersAddNothing, Osv.StartsOnce,
         Osv.AllCancelled, Osv.Bounds, Osv.AllWellFormed, Osv.AllReadable, Osv.HasIntroduced, Osv.ConstraintText;
    AppliesToVersion(e, eco, name, version, lower);
    Osv.ParsedIsNonNegative(version);
    Osv.PipelineExactIff(a.ranges);
  }

  /** Deduplication files a finding of the scan under the entry's rule and the dependency's name. */
  lemma FiledUnderName(f: Finding, file: string, spec: Spec, dep: ParsedDep, e: CatalogEntry)
    requires PointsAt(f, file, spec, dep, e) && dep.name != "" && ' ' !in dep.name
    ensures Deduplication.KeyOf(f) == Deduplication.Key(e.ruleID, dep.name)
  {
    Deduplication.PackageOfDisplay(dep.name, dep.version);
  }

  /** The files that deduplication ranks are those that the scan recognises by name, with requirements.txt. */
  lemma RankedAreRecognised(name: string)
    ensures name in Deduplication.MANIFEST_PRIORITY <==> name in EXACT_MATCHERS || name == "requirements.txt"
  {}

  const OURS := {"pypi", "npm", "go", "maven", "cargo", "rubygems", "composer", "nuget"}

  lemma ImporterEcosystems(eco: string)
    ensures eco in Osv.ECOSYSTEMS.Values <==> eco in OURS
  {
    var m := Osv.ECOSYSTEMS;
    assert m["PyPI"] == "pypi" && m["npm"] == "npm" && m["Go"] == "go" && m["Maven"] == "maven";
    assert m["crates.io"] == "cargo" && m["RubyGems"] == "rubygems" && m["Packagist"] == "composer";
    assert m["NuGet"] == "nuget";
  }

  predicate Scanned(name: string, eco: string) {
    MatchManifest(name).Some? && MatchManifest(name).value.ecosystem == eco
  }

  lemma TableEcosystems(name: string)
    ensures name in EXACT_MATCHERS ==> EXACT_MATCHERS[name].ecosystem in OURS
  {}

  lemma ScannedAreOurs(name: string, eco: string)
    requires Scanned(name, eco)
    ensures eco in OURS
  {
    TableEcosystems(name);
  }

  lemma TableNames()
    ensures Scanned("uv.lock", "pypi") && Scanned("yarn.lock", "npm") && Scanned("go.mod", "go")
    ensures Scanned("pom.xml", "maven")
  {}

  lemma MoreTableNames()
    ensures Scanned("Cargo.lock", "cargo") && Scanned("Gemfile.lock", "rubygems")
    ensures Scanned("composer.lock", "composer")
  {}

  lemma OursAreScanned(eco: string) returns (name: string)
    requires eco in OURS
    ensures Scanned(name, eco)
  {
    FamiliesMatched(".csproj");
    assert Scanned(".csproj", "nuget");
    hide Scanned;
    TableNames();
    MoreTableNames();
    name := if eco == "pypi" then "uv.lock" else if eco == "npm" then "yarn.lock" else if eco == "go" then "go.mod"
            else if eco == "maven" then "pom.xml" else if eco == "cargo" then "Cargo.lock"
            else if eco == "rubygems" then "Gemfile.lock" else if eco == "composer" then "composer.lock" else ".csproj";
  }

  /** The scan's ecosystems are exactly those that the importer writes. */
  lemma EcosystemsAgree(eco: string)
    ensures eco in Osv.ECOSYSTEMS.Values <==> exists name :: Scanned(name, eco)
  {
    hide Scanned;
    ImporterEcosystems(eco);
    if eco in OURS {
      var name := OursAreScanned(eco);
    }
    if name :| Scanned(name, eco) {
      ScannedAreOurs(name, eco);
    }
  }
}
