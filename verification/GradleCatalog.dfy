/** Gradle version catalogs (internal/deps/parsers.go): references between sections are resolved after the whole file
    is read, so the order of the sections does not matter. The regular expressions are parameters. */
module GradleCatalog {
  import opened Manifest
  import opened Text

  // ----- Lines ----------------------------------------------------------------------------

  /** The regular expressions, each with the groups it captures. */
  datatype Matchers = Matchers(
    simpleKV: string -> Option<(string, string)>,
    richVersion: string -> Option<(string, string)>,
    shortForm: string -> Option<(string, string, string)>,
    inlineTable: string -> Option<string>,
    moduleKey: string -> Option<(string, string)>,
    groupKey: string -> Option<string>,
    nameKey: string -> Option<string>,
    versionRefKey: string -> Option<string>,
    versionKey: string -> Option<string>)

  datatype Lib = Lib(group: string, artifact: string, version: string, versionRef: string, line: nat, snippet: string)

  function Or(o: Option<string>, d: string): string {
    match o case None => d case Some(x) => x
  }

  function VersionDef(trimmed: string, m: Matchers): Option<(string, string)> {
    if m.simpleKV(trimmed).Some? then m.simpleKV(trimmed) else m.richVersion(trimmed)
  }

  /** The library an inline table describes; a table without a group or an artifact describes none. */
  function InlineLib(inside: string, line: nat, snippet: string, m: Matchers): Option<Lib> {
    var (group, artifact) :=
      match m.moduleKey(inside)
      case Some((g, a)) => (g, a)
      case None => (Or(m.groupKey(inside), ""), Or(m.nameKey(inside), ""));
    var versionRef := Or(m.versionRefKey(inside), "");
    var version := if m.versionRefKey(inside).Some? then "" else Or(m.versionKey(inside), "");
    if group != "" && artifact != "" then Some(Lib(group, artifact, version, versionRef, line, snippet)) else None
  }

  function LibDef(trimmed: string, line: nat, m: Matchers): Option<Lib> {
    match m.shortForm(trimmed)
    case Some((g, a, v)) => Some(Lib(g, a, v, "", line, trimmed))
    case None =>
      match m.inlineTable(trimmed)
      case None => None
      case Some(inside) => InlineLib(inside, line, trimmed, m)
  }

  predicate Ignored(trimmed: string) { trimmed == "" || HasPrefix(trimmed, "#") }

  predicate IsHeader(trimmed: string) { !Ignored(trimmed) && HasPrefix(trimmed, "[") && HasSuffix(trimmed, "]") }

  // ----- The pass over the lines --------------------------------------------------------------

  datatype State = State(versions: map<string, string>, libs: seq<Lib>, section: string)

  function Step(st: State, raw: string, lineNum: nat, m: Matchers): State {
    var trimmed := TrimSpace(raw);
    if Ignored(trimmed) then st
    else if IsHeader(trimmed) then st.(section := Section(trimmed))
    else if st.section == "versions" then
      match VersionDef(trimmed, m)
      case None => st
      case Some((k, v)) => st.(versions := st.versions[k := v])
    else if st.section == "libraries" then
      match LibDef(trimmed, lineNum, m)
      case None => st
      case Some(lib) => st.(libs := st.libs + [lib])
    else st
  }

  /** The state after some lines, read from `st` on with `base` lines before them. */
  function After(st: State, lines: seq<string>, base: nat, m: Matchers): State {
    if lines == [] then st
    else Step(After(st, lines[..|lines| - 1], base, m), lines[|lines| - 1], base + |lines|, m)
  }

  const START := State(map[], [], "")

  function ResolvedVersion(lib: Lib, versions: map<string, string>): string {
    if lib.version == "" && lib.versionRef != "" then
      if lib.versionRef in versions then versions[lib.versionRef] else ""
    else lib.version
  }

  function DepOf(lib: Lib, versions: map<string, string>, lower: string -> string): ParsedDep {
    ParsedDep(lower(lib.group + ":" + lib.artifact), ResolvedVersion(lib, versions), lib.line, lib.snippet)
  }

  function DepsOf(libs: seq<Lib>, versions: map<string, string>, lower: string -> string): seq<ParsedDep> {
    seq(|libs|, i requires 0 <= i < |libs| => DepOf(libs[i], versions, lower))
  }

  function Parsed(lines: seq<string>, m: Matchers, lower: string -> string): seq<ParsedDep> {
    var st := After(START, lines, 0, m);
    DepsOf(st.libs, st.versions, lower)
  }

  /** The library of one line of the libraries section, the reading of its inline table included. */
  method ReadLib(trimmed: string, lineNum: nat, m: Matchers) returns (found: Option<Lib>)
    ensures found == LibDef(trimmed, lineNum, m)
  {
    var short := m.shortForm(trimmed);
    if short.Some? {
      return Some(Lib(short.value.0, short.value.1, short.value.2, "", lineNum, trimmed));
    }
    var table := m.inlineTable(trimmed);
    if table.None? {
      return None;
    }
    var inside := table.value;
    var lc := Lib("", "", "", "", lineNum, trimmed);
    var mm := m.moduleKey(inside);
    if mm.Some? {
      lc := lc.(group := mm.value.0, artifact := mm.value.1);
    } else {
      var g := m.groupKey(inside);
      if g.Some? {
        lc := lc.(group := g.value);
      }
      var n := m.nameKey(inside);
      if n.Some? {
        lc := lc.(artifact := n.value);
      }
    }
    var ref := m.versionRefKey(inside);
    if ref.Some? {
      lc := lc.(versionRef := ref.value);
    } else {
      var v := m.versionKey(inside);
      if v.Some? {
        lc := lc.(version := v.value);
      }
    }
    if lc.group != "" && lc.artifact != "" {
      return Some(lc);
    }
    return None;
  }

  lemma DepOfIs(lib: Lib, versions: map<string, string>, lower: string -> string)
    ensures DepOf(lib, versions, lower) ==
            ParsedDep(lower(lib.group + ":" + lib.artifact), ResolvedVersion(lib, versions), lib.line, lib.snippet)
  {}

  method ParseGradleVersionCatalog(lines: seq<string>, m: Matchers, lower: string -> string)
    returns (out: seq<ParsedDep>)
    ensures out == Parsed(lines, m, lower)
  {
    hide TrimSpace, HasPrefix, HasSuffix, Section, LibDef, DepOf;
    var versions: map<string, string> := map[];
    var libs: seq<Lib> := [];
    var section := "";
    for i := 0 to |lines|
      invariant State(versions, libs, section) == After(START, lines[..i], 0, m)
    {
      assert lines[..i + 1][..i] == lines[..i];
      var lineNum := i + 1;
      var trimmed := TrimSpace(lines[i]);
      if trimmed == "" || HasPrefix(trimmed, "#") {
        continue;
      }
      if HasPrefix(trimmed, "[") && HasSuffix(trimmed, "]") {
        section := Section(trimmed);
        continue;
      }
      if section == "versions" {
        var kv := m.simpleKV(trimmed);
        if kv.Some? {
          versions := versions[kv.value.0 := kv.value.1];
        } else {
          kv := m.richVersion(trimmed);
          if kv.Some? {
            versions := versions[kv.value.0 := kv.value.1];
          }
        }
      } else if section == "libraries" {
        var lib := ReadLib(trimmed, lineNum, m);
        if lib.Some? {
          libs := libs + [lib.value];
        }
      }
    }
    assert lines[..|lines|] == lines;
    out := [];
    for i := 0 to |libs|
      invariant |out| == i && forall j | 0 <= j < i :: out[j] == DepOf(libs[j], versions, lower)
    {
      var lc := libs[i];
      var v := lc.version;
      if v == "" && lc.versionRef != "" {
        v := if lc.versionRef in versions then versions[lc.versionRef] else "";
      }
      DepOfIs(lc, versions, lower);
      out := out + [ParsedDep(lower(lc.group + ":" + lc.artifact), v, lc.line, lc.snippet)];
    }
  }

  // ----- Files as sections --------------------------------------------------------------------

  /** A section: its header line and the lines below it, none of them a header. */
  datatype Part = Part(header: string, body: seq<string>) {
    predicate Valid() {
      IsHeader(TrimSpace(header)) && NoHeaders(body)
    }
    function Name(): string { Section(TrimSpace(header)) }
    function Lines(): seq<string> { [header] + body }
  }

  /** A whole file: some lines before the first header, then sections. Every file is of this form. */
  function FileLines(pre: seq<string>, parts: seq<Part>): seq<string> {
    if parts == [] then pre else FileLines(pre, parts[..|parts| - 1]) + parts[|parts| - 1].Lines()
  }

  predicate NoHeaders(lines: seq<string>) {
    forall i | 0 <= i < |lines| :: !IsHeader(TrimSpace(lines[i]))
  }

  predicate AllValid(parts: seq<Part>) {
    forall i | 0 <= i < |parts| :: parts[i].Valid()
  }

  /** Version definitions of some lines, on top of earlier ones. */
  function VersionsIn(versions: map<string, string>, body: seq<string>, m: Matchers): map<string, string> {
    if body == [] then versions
    else
      var before, t := VersionsIn(versions, body[..|body| - 1], m), TrimSpace(body[|body| - 1]);
      if Ignored(t) then before
      else
        match VersionDef(t, m)
        case None => before
        case Some((k, v)) => before[k := v]
  }

  /** The libraries of some lines; a library keeps its line number out of this. */
  function LibsIn(body: seq<string>, m: Matchers): seq<Lib> {
    if body == [] then []
    else
      var before, t := LibsIn(body[..|body| - 1], m), TrimSpace(body[|body| - 1]);
      if Ignored(t) || LibDef(t, 0, m).None? then before else before + [LibDef(t, 0, m).value]
  }

  /** The bodies of the sections with a name, in order. */
  function Named(parts: seq<Part>, name: string): seq<seq<string>> {
    if parts == [] then []
    else
      var last := parts[|parts| - 1];
      Named(parts[..|parts| - 1], name) + if last.Name() == name then [last.body] else []
  }

  function AllVersions(bodies: seq<seq<string>>, m: Matchers): map<string, string> {
    if bodies == [] then map[] else VersionsIn(AllVersions(bodies[..|bodies| - 1], m), bodies[|bodies| - 1], m)
  }

  function AllLibs(bodies: seq<seq<string>>, m: Matchers): seq<Lib> {
    if bodies == [] then [] else AllLibs(bodies[..|bodies| - 1], m) + LibsIn(bodies[|bodies| - 1], m)
  }

  /** Libraries without the place they were found at. */
  function Placeless(libs: seq<Lib>): (r: seq<Lib>)
    ensures |r| == |libs|
  {
    seq(|libs|, i requires 0 <= i < |libs| => libs[i].(line := 0))
  }

  lemma {:induction false} AfterConcat(st: State, a: seq<string>, b: seq<string>, base: nat, m: Matchers)
    ensures After(st, a + b, base, m) == After(After(st, a, base, m), b, base + |a|, m)
  {
    hide Step;
    if b == [] {
      assert a + b == a;
    } else {
      assert (a + b)[..|a + b| - 1] == a + b[..|b| - 1];
      AfterConcat(st, a, b[..|b| - 1], base, m);
    }
  }

  lemma LibDefPlaceless(t: string, line: nat, m: Matchers)
    ensures LibDef(t, line, m).Some? <==> LibDef(t, 0, m).Some?
    ensures LibDef(t, line, m).Some? ==> LibDef(t, line, m).value.(line := 0) == LibDef(t, 0, m).value
  {}

  lemma PlacelessOne(lib: Lib)
    ensures Placeless([lib]) == [lib.(line := 0)]
  {}

  lemma PlacelessNothing()
    ensures Placeless([]) == []
  {}

  lemma NameIs(p: Part)
    ensures p.Name() == Section(TrimSpace(p.header))
  {}

  lemma PlacelessConcat(a: seq<Lib>, b: seq<Lib>)
    ensures Placeless(a + b) == Placeless(a) + Placeless(b)
  {}

  /** The lines of one section add its definitions, and leave the section's name in place. */
  lemma {:induction false} BodyAdds(st: State, body: seq<string>, base: nat, m: Matchers)
    requires NoHeaders(body)
    ensures var after := After(st, body, base, m);
            && after.section == st.section
            && after.versions == (if st.section == "versions" then VersionsIn(st.versions, body, m) else st.versions)
            && Placeless(after.libs) == Placeless(st.libs) + if st.section == "libraries" then LibsIn(body, m) else []
  {
    hide TrimSpace, IsHeader, Ignored, LibDef, VersionDef, Placeless, Section;
    if body != [] {
      var init, t := body[..|body| - 1], TrimSpace(body[|body| - 1]);
      BodyAdds(st, init, base, m);
      var before := After(st, init, base, m);
      LibDefPlaceless(t, base + |body|, m);
      if LibDef(t, base + |body|, m).Some? {
        var lib := LibDef(t, base + |body|, m).value;
        PlacelessConcat(before.libs, [lib]);
        PlacelessOne(lib);
      }
    }
  }

  /** Versions come from the sections named `versions` alone, libraries from those named `libraries` alone. */
  lemma {:induction false} FileAdds(pre: seq<string>, parts: seq<Part>, m: Matchers)
    requires NoHeaders(pre) && AllValid(parts)
    ensures var st := After(START, FileLines(pre, parts), 0, m);
            && st.versions == AllVersions(Named(parts, "versions"), m)
            && Placeless(st.libs) == AllLibs(Named(parts, "libraries"), m)
  {
    hide TrimSpace, Section, IsHeader, Placeless, VersionsIn, LibsIn, Ignored, After, Named, AllVersions,
         AllLibs, Part.Name;
    NothingNamed(m);
    PlacelessNothing();
    if parts == [] {
      BodyAdds(START, pre, 0, m);
    } else {
      var init, last := parts[..|parts| - 1], parts[|parts| - 1];
      FileAdds(pre, init, m);
      AfterConcat(START, FileLines(pre, init), last.Lines(), 0, m);
      var st := After(START, FileLines(pre, init), 0, m);
      AfterConcat(st, [last.header], last.body, |FileLines(pre, init)|, m);
      HeaderOnly(st, last.header, |FileLines(pre, init)|, m);
      NameIs(last);
      BodyAdds(st.(section := last.Name()), last.body, |FileLines(pre, init)| + 1, m);
      NamedOneMore(parts, "versions", m);
      NamedOneMore(parts, "libraries", m);
    }
  }

  lemma NothingNamed(m: Matchers)
    ensures forall name :: Named([], name) == []
    ensures AllVersions([], m) == map[] && AllLibs([], m) == []
  {}

  lemma HeaderOnly(st: State, header: string, base: nat, m: Matchers)
    requires IsHeader(TrimSpace(header))
    ensures After(st, [header], base, m) == st.(section := Section(TrimSpace(header)))
  {
    hide TrimSpace, Section;
    assert [header][..0] == [];
  }

  lemma NamedOneMore(parts: seq<Part>, name: string, m: Matchers)
    requires parts != []
    ensures var init, last := parts[..|parts| - 1], parts[|parts| - 1];
            && AllVersions(Named(parts, name), m) ==
               (if last.Name() == name then VersionsIn(AllVersions(Named(init, name), m), last.body, m)
                else AllVersions(Named(init, name), m))
            && AllLibs(Named(parts, name), m) ==
               AllLibs(Named(init, name), m) + if last.Name() == name then LibsIn(last.body, m) else []
  {
    hide VersionsIn, LibsIn, Part.Name;
    var init, last := parts[..|parts| - 1], parts[|parts| - 1];
    var before := Named(init, name);
    if last.Name() == name {
      assert Named(parts, name)[..|before|] == before;
    } else {
      assert Named(parts, name) == before;
    }
  }

  // ----- Order independence ---------------------------------------------------------------------

  /** What does not depend on where a library stands in the file. */
  function Essence(deps: seq<ParsedDep>): seq<(string, string, string)> {
    seq(|deps|, i requires 0 <= i < |deps| => (deps[i].name, deps[i].version, deps[i].snippet))
  }

  lemma EssencePlaceless(a: seq<Lib>, b: seq<Lib>, versions: map<string, string>, lower: string -> string)
    requires Placeless(a) == Placeless(b)
    ensures Essence(DepsOf(a, versions, lower)) == Essence(DepsOf(b, versions, lower))
  {
    forall i | 0 <= i < |a|
      ensures Essence(DepsOf(a, versions, lower))[i] == Essence(DepsOf(b, versions, lower))[i]
    {
      assert Placeless(a)[i] == Placeless(b)[i];
    }
    assert |a| == |Placeless(a)| == |b|;
  }

  /** A file's dependencies are its libraries, in order, resolved against all its version definitions, wherever those
      stand. */
  lemma ParsedIs(pre: seq<string>, parts: seq<Part>, m: Matchers, lower: string -> string)
    requires NoHeaders(pre) && AllValid(parts)
    ensures Essence(Parsed(FileLines(pre, parts), m, lower)) ==
            Essence(DepsOf(AllLibs(Named(parts, "libraries"), m), AllVersions(Named(parts, "versions"), m), lower))
  {
    hide Essence, DepsOf, After, AllLibs, AllVersions, Named, Placeless, FileLines, Part.Valid;
    FileAdds(pre, parts, m);
    var st := After(START, FileLines(pre, parts), 0, m);
    var libs := AllLibs(Named(parts, "libraries"), m);
    PlacelessTwice(st.libs);
    EssencePlaceless(st.libs, libs, st.versions, lower);
  }

  lemma PlacelessTwice(libs: seq<Lib>)
    ensures Placeless(Placeless(libs)) == Placeless(libs)
  {}

  /** Moving sections about, without changing the order of two sections of the same name, changes no name, no resolved
      version and not the order of the libraries. */
  lemma SectionOrderIrrelevant(pre: seq<string>, a: seq<Part>, b: seq<Part>, m: Matchers, lower: string -> string)
    requires NoHeaders(pre) && AllValid(a) && AllValid(b)
    requires Named(a, "versions") == Named(b, "versions") && Named(a, "libraries") == Named(b, "libraries")
    ensures Essence(Parsed(FileLines(pre, a), m, lower)) == Essence(Parsed(FileLines(pre, b), m, lower))
  {
    hide Essence, Parsed, AllLibs, AllVersions, DepsOf, FileLines, Part.Valid, Named;
    ParsedIs(pre, a, m, lower);
    ParsedIs(pre, b, m, lower);
  }

  predicate DistinctNames(parts: seq<Part>) {
    forall i, j | 0 <= i < j < |parts| :: parts[i].Name() != parts[j].Name()
  }

  /** With distinct names, a section is found wherever it stands. */
  lemma {:induction false} NamedDistinct(parts: seq<Part>, name: string)
    requires DistinctNames(parts)
    ensures forall i | 0 <= i < |parts| && parts[i].Name() == name :: Named(parts, name) == [parts[i].body]
    ensures (forall i | 0 <= i < |parts| :: parts[i].Name() != name) ==> Named(parts, name) == []
  {
    hide Part.Name;
    if parts != [] {
      NamedDistinct(parts[..|parts| - 1], name);
    }
  }

  /** So any permutation of whole sections, no header repeated, leaves the result as it is. */
  lemma PermutedSections(pre: seq<string>, a: seq<Part>, b: seq<Part>, m: Matchers, lower: string -> string)
    requires NoHeaders(pre) && AllValid(a)
    requires DistinctNames(a) && DistinctNames(b) && multiset(a) == multiset(b)
    ensures Essence(Parsed(FileLines(pre, a), m, lower)) == Essence(Parsed(FileLines(pre, b), m, lower))
  {
    hide Essence, Parsed, FileLines, Part.Valid, Part.Name, DistinctNames, Named;
    SameMembers(a, b);
    assert AllValid(b) by {
      forall i | 0 <= i < |b| ensures b[i].Valid() {
        assert b[i] in a;
      }
    }
    SameNamed(a, b, "versions");
    SameNamed(a, b, "libraries");
    SectionOrderIrrelevant(pre, a, b, m, lower);
  }

  lemma SameMembers(a: seq<Part>, b: seq<Part>)
    requires multiset(a) == multiset(b)
    ensures forall p :: p in a <==> p in b
  {
    forall p ensures p in a <==> p in b {
      assert p in a <==> p in multiset(a);
      assert p in b <==> p in multiset(b);
    }
  }

  lemma SameNamed(a: seq<Part>, b: seq<Part>, name: string)
    requires DistinctNames(a) && DistinctNames(b) && forall p :: p in a <==> p in b
    ensures Named(a, name) == Named(b, name)
  {
    hide Part.Name, Named, DistinctNames;
    NamedDistinct(a, name);
    NamedDistinct(b, name);
    if i :| 0 <= i < |a| && a[i].Name() == name {
      assert a[i] in b;
    } else {
      forall j | 0 <= j < |b| ensures b[j].Name() != name {
        assert b[j] in a;
      }
    }
  }

  /** A reference that no section defines resolves to the empty version. */
  lemma UnresolvedIsEmpty(pre: seq<string>, parts: seq<Part>, i: nat, m: Matchers, lower: string -> string)
    requires NoHeaders(pre) && AllValid(parts)
    requires var libs := AllLibs(Named(parts, "libraries"), m);
             i < |libs| && libs[i].version == "" && libs[i].versionRef !in AllVersions(Named(parts, "versions"), m)
    ensures i < |Parsed(FileLines(pre, parts), m, lower)| && Parsed(FileLines(pre, parts), m, lower)[i].version == ""
  {
    hide Part.Valid, After;
    FileAdds(pre, parts, m);
    var st := After(START, FileLines(pre, parts), 0, m);
    assert Placeless(st.libs)[i] == st.libs[i].(line := 0);
  }

  lemma {:induction false} EveryFileIsSections(lines: seq<string>) returns (pre: seq<string>, parts: seq<Part>)
    ensures NoHeaders(pre) && AllValid(parts) && FileLines(pre, parts) == lines
  {
    hide IsHeader, TrimSpace;
    if lines == [] {
      pre, parts := [], [];
    } else {
      var init, raw := lines[..|lines| - 1], lines[|lines| - 1];
      var p, ps := EveryFileIsSections(init);
      assert lines == init + [raw];
      if IsHeader(TrimSpace(raw)) {
        pre, parts := p, ps + [Part(raw, [])];
        assert parts[..|ps|] == ps;
      } else if ps == [] {
        pre, parts := p + [raw], [];
      } else {
        var last := ps[|ps| - 1];
        assert last.Valid();
        pre, parts := p, ps[..|ps| - 1] + [Part(last.header, last.body + [raw])];
        assert parts[..|ps| - 1] == ps[..|ps| - 1];
        assert [last.header] + (last.body + [raw]) == last.Lines() + [raw];
      }
    }
  }

  predicate StandsAt(lib: Lib, lines: seq<string>) {
    1 <= lib.line <= |lines| && TrimSpace(lines[lib.line - 1]) == lib.snippet
  }

  predicate AllStand(libs: seq<Lib>, lines: seq<string>) {
    && (forall i | 0 <= i < |libs| :: StandsAt(libs[i], lines))
    && (forall i, j | 0 <= i < j < |libs| :: libs[i].line < libs[j].line)
  }

  /** Every library carries the number and the text of its own line, and line numbers increase. */
  lemma {:induction false} LinesAreTrue(lines: seq<string>, m: Matchers)
    ensures AllStand(After(START, lines, 0, m).libs, lines)
  {
    hide TrimSpace, Step;
    if lines != [] {
      var init, raw := lines[..|lines| - 1], lines[|lines| - 1];
      LinesAreTrue(init, m);
      var st := After(START, init, 0, m);
      var before, after := st.libs, Step(st, raw, |lines|, m).libs;
      StepLibs(st, raw, |lines|, m);
      OneMoreStands(before, after, lines);
    }
  }

  lemma OneMoreStands(before: seq<Lib>, after: seq<Lib>, lines: seq<string>)
    requires lines != [] && AllStand(before, lines[..|lines| - 1])
    requires after == before || (|after| == |before| + 1 && after[..|before|] == before
                                 && after[|before|].line == |lines|
                                 && after[|before|].snippet == TrimSpace(lines[|lines| - 1]))
    ensures AllStand(after, lines)
  {
    hide TrimSpace;
    var init := lines[..|lines| - 1];
    forall i | 0 <= i < |before|
      ensures StandsAt(before[i], lines) && before[i].line < |lines| && after[i] == before[i]
    {
      assert StandsAt(before[i], init);
      assert after[..|before|][i] == after[i];
    }
  }

  lemma StepLibs(st: State, raw: string, lineNum: nat, m: Matchers)
    ensures var after := Step(st, raw, lineNum, m).libs;
            after == st.libs || (|after| == |st.libs| + 1 && after[..|st.libs|] == st.libs
                                 && after[|st.libs|].line == lineNum && after[|st.libs|].snippet == TrimSpace(raw))
  {
    hide TrimSpace, Section, VersionDef, IsHeader, Ignored, LibDef;
    LibDefStands(TrimSpace(raw), lineNum, m);
  }

  lemma LibDefStands(t: string, line: nat, m: Matchers)
    ensures LibDef(t, line, m).Some? ==> LibDef(t, line, m).value.line == line && LibDef(t, line, m).value.snippet == t
  {}
}
