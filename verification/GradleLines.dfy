/** Gradle version catalogs line by line (internal/deps/parsers.go): which section a line stands in, what it defines,
    and which dependencies a file therefore has, told without the pass that collects them. */
module GradleLines {
  import opened GradleCatalog
  import opened Manifest
  import opened Text

  // ----- Sections --------------------------------------------------------------------------

  predicate HeaderNamed(raw: string, name: string) {
    IsHeader(TrimSpace(raw)) && Section(TrimSpace(raw)) == name
  }

  /** Line i stands in a section with the name: the last header above it, or the line itself, has that name. */
  predicate InSection(lines: seq<string>, i: nat, name: string) {
    && i < |lines|
    && exists h | 0 <= h <= i ::
         HeaderNamed(lines[h], name) && forall k | h < k <= i :: !IsHeader(TrimSpace(lines[k]))
  }

  lemma {:induction false} SectionIs(lines: seq<string>, name: string, m: Matchers)
    requires name != "" && lines != []
    ensures After(START, lines, 0, m).section == name <==> InSection(lines, |lines| - 1, name)
  {
    hide TrimSpace, Section, IsHeader, VersionDef, LibDef;
    var init, n := lines[..|lines| - 1], |lines| - 1;
    if IsHeader(TrimSpace(lines[n])) {
      HeaderSets(After(START, init, 0, m), lines[n], |lines|, m);
    } else {
      OthersKeep(After(START, init, 0, m), lines[n], |lines|, m);
      if init == [] {
        assert After(START, init, 0, m).section == "";
      } else {
        SectionIs(init, name, m);
        SectionLasts(lines, name);
      }
    }
  }

  lemma HeaderSets(st: State, raw: string, lineNum: nat, m: Matchers)
    requires IsHeader(TrimSpace(raw))
    ensures Step(st, raw, lineNum, m) == st.(section := Section(TrimSpace(raw)))
  {
    hide TrimSpace, Section, HasPrefix, HasSuffix;
  }

  lemma OthersKeep(st: State, raw: string, lineNum: nat, m: Matchers)
    requires !IsHeader(TrimSpace(raw))
    ensures Step(st, raw, lineNum, m).section == st.section
  {
    hide TrimSpace, Section, HasPrefix, HasSuffix;
  }

  lemma SectionLasts(lines: seq<string>, name: string)
    requires |lines| > 1 && !IsHeader(TrimSpace(lines[|lines| - 1]))
    ensures InSection(lines, |lines| - 1, name) <==> InSection(lines[..|lines| - 1], |lines| - 2, name)
  {
    hide TrimSpace, Section, IsHeader;
    var init, n := lines[..|lines| - 1], |lines| - 1;
    assert forall k | 0 <= k < n :: init[k] == lines[k];
    if InSection(lines, n, name) {
      var h :| 0 <= h <= n && HeaderNamed(lines[h], name) && forall k | h < k <= n :: !IsHeader(TrimSpace(lines[k]));
      assert h < n && HeaderNamed(init[h], name);
    }
    if InSection(init, n - 1, name) {
      var h :| 0 <= h <= n - 1 && HeaderNamed(init[h], name)
               && forall k | h < k <= n - 1 :: !IsHeader(TrimSpace(init[k]));
      assert HeaderNamed(lines[h], name);
      forall k | h < k <= n ensures !IsHeader(TrimSpace(lines[k])) {
        if k < n { assert lines[k] == init[k]; }
      }
    }
  }

  /** What stands below a line does not change the section it stands in. */
  lemma SectionOfPrefix(lines: seq<string>, n: nat, i: nat, name: string)
    requires i < n <= |lines|
    ensures InSection(lines[..n], i, name) <==> InSection(lines, i, name)
  {
    hide TrimSpace, Section, IsHeader;
    assert forall k | 0 <= k <= i :: lines[..n][k] == lines[k];
    if InSection(lines, i, name) {
      var h :| 0 <= h <= i && HeaderNamed(lines[h], name) && forall k | h < k <= i :: !IsHeader(TrimSpace(lines[k]));
      assert HeaderNamed(lines[..n][h], name);
    }
    if InSection(lines[..n], i, name) {
      var h :| 0 <= h <= i && HeaderNamed(lines[..n][h], name)
               && forall k | h < k <= i :: !IsHeader(TrimSpace(lines[..n][k]));
      forall k | h < k <= i ensures !IsHeader(TrimSpace(lines[k])) {
        assert lines[..n][k] == lines[k];
      }
    }
  }

  /** The line says something: it is neither empty nor a comment nor a header. */
  predicate Speaks(raw: string) {
    var t := TrimSpace(raw);
    t != "" && t[0] != '#' && !(t[0] == '[' && t[|t| - 1] == ']')
  }

  lemma SpeaksIs(raw: string)
    ensures Speaks(raw) <==> !Ignored(TrimSpace(raw)) && !IsHeader(TrimSpace(raw))
  {
    hide TrimSpace;
    var t := TrimSpace(raw);
    PrefixChars(t, "#");
    PrefixChars(t, "[");
    EndsInBracket(t);
  }

  lemma EndsInBracket(t: string)
    ensures HasSuffix(t, "]") <==> t != "" && t[|t| - 1] == ']'
  {
    if t != "" {
      assert t[|t| - 1..] == [t[|t| - 1]];
    }
  }

  // ----- Version definitions ----------------------------------------------------------------------

  /** Line j stands in a versions section and gives the version a name, in its simple or its rich form. */
  predicate Defines(lines: seq<string>, j: nat, name: string, version: string, m: Matchers) {
    && InSection(lines, j, "versions") && Speaks(lines[j])
    && var t := TrimSpace(lines[j]);
       m.simpleKV(t) == Some((name, version)) || (m.simpleKV(t).None? && m.richVersion(t) == Some((name, version)))
  }

  /** No line from j on defines the name. */
  ghost predicate Undefined(lines: seq<string>, j: nat, name: string, m: Matchers) {
    forall k: nat, v :: j <= k ==> !Defines(lines, k, name, v, m)
  }

  /** The last definition of the name, wherever in the file it stands, gives it this version. */
  ghost predicate LastDefined(lines: seq<string>, name: string, version: string, m: Matchers) {
    exists j: nat :: Defines(lines, j, name, version, m) && Undefined(lines, j + 1, name, m)
  }

  lemma DefinesOfPrefix(lines: seq<string>, n: nat, j: nat, name: string, version: string, m: Matchers)
    requires n <= |lines|
    ensures Defines(lines[..n], j, name, version, m) <==> Defines(lines, j, name, version, m) && j < n
  {
    hide TrimSpace, Speaks, InSection;
    if j < n {
      SectionOfPrefix(lines, n, j, "versions");
      assert lines[..n][j] == lines[j];
    } else {
      NotInside(lines[..n], j, "versions");
    }
  }

  lemma NotInside(lines: seq<string>, i: nat, name: string)
    requires i >= |lines|
    ensures !InSection(lines, i, name)
  {}

  /** One more line adds the definition it holds, if any. */
  lemma VersionsStep(lines: seq<string>, m: Matchers)
    requires lines != []
    ensures var n := |lines| - 1;
            var before, after := After(START, lines[..n], 0, m).versions, After(START, lines, 0, m).versions;
            && (forall name, v | Defines(lines, n, name, v, m) :: after == before[name := v])
            && ((forall name, v :: !Defines(lines, n, name, v, m)) ==> after == before)
  {
    hide TrimSpace, InSection, Section, LibDef, IsHeader, Ignored, Speaks;
    var n := |lines| - 1;
    SectionIs(lines, "versions", m);
    SpeaksIs(lines[n]);
    if !IsHeader(TrimSpace(lines[n])) {
      OthersKeep(After(START, lines[..n], 0, m), lines[n], |lines|, m);
    }
    if VersionDef(TrimSpace(lines[n]), m).Some? {
      var (name, v) := VersionDef(TrimSpace(lines[n]), m).value;
      assert Speaks(lines[n]) && InSection(lines, n, "versions") ==> Defines(lines, n, name, v, m);
    }
  }

  /** The versions that the pass collects are the last definitions. */
  lemma {:induction false} VersionsAreLast(lines: seq<string>, name: string, m: Matchers)
    ensures var versions := After(START, lines, 0, m).versions;
            if name in versions then LastDefined(lines, name, versions[name], m) else Undefined(lines, 0, name, m)
  {
    hide Defines, After;
    if lines == [] {
      NothingDefined(name, m);
    } else {
      var n := |lines| - 1;
      var before, after := After(START, lines[..n], 0, m).versions, After(START, lines, 0, m).versions;
      VersionsAreLast(lines[..n], name, m);
      VersionsStep(lines, m);
      UndefinedFrom(lines, name, m);
      if v :| Defines(lines, n, name, v, m) {
        assert after[name] == v;
      } else {
        assert name in after <==> name in before;
        assert name in before ==> after[name] == before[name];
        UndefinedAt(lines, n, name, m);
        LongerDefined(lines, name, m);
      }
    }
  }

  lemma NothingDefined(name: string, m: Matchers)
    ensures After(START, [], 0, m).versions == map[] && Undefined([], 0, name, m)
  {}

  lemma UndefinedFrom(lines: seq<string>, name: string, m: Matchers)
    ensures Undefined(lines, |lines|, name, m)
  {}

  lemma UndefinedAt(lines: seq<string>, n: nat, name: string, m: Matchers)
    requires Undefined(lines, n + 1, name, m) && !exists v :: Defines(lines, n, name, v, m)
    ensures Undefined(lines, n, name, m)
  {
    hide Defines;
    forall j: nat, v | n <= j ensures !Defines(lines, j, name, v, m) {
      if j == n {
        assert !Defines(lines, n, name, v, m);
      }
    }
  }

  /** A last line that does not define the name leaves its last definition where it is. */
  lemma LongerDefined(lines: seq<string>, name: string, m: Matchers)
    requires lines != [] && Undefined(lines, |lines| - 1, name, m)
    ensures var init := lines[..|lines| - 1];
            && (Undefined(init, 0, name, m) ==> Undefined(lines, 0, name, m))
            && forall v | LastDefined(init, name, v, m) :: LastDefined(lines, name, v, m)
  {
    hide Defines;
    var n := |lines| - 1;
    forall j: nat, v ensures Defines(lines[..n], j, name, v, m) <==> Defines(lines, j, name, v, m) && j < n {
      DefinesOfPrefix(lines, n, j, name, v, m);
    }
    forall v | LastDefined(lines[..n], name, v, m) ensures LastDefined(lines, name, v, m) {
      var j: nat :| Defines(lines[..n], j, name, v, m) && Undefined(lines[..n], j + 1, name, m);
      assert Defines(lines, j, name, v, m) && Undefined(lines, j + 1, name, m);
    }
  }

  // ----- Libraries ------------------------------------------------------------------------------------

  /** The inside of an inline table gives a group and an artifact, both not empty: by its module key if it has one, by
      its group and name keys otherwise. */
  predicate Coordinates(inside: string, group: string, artifact: string, m: Matchers) {
    && group != "" && artifact != ""
    && (m.moduleKey(inside) == Some((group, artifact))
        || (m.moduleKey(inside).None? && m.groupKey(inside) == Some(group) && m.nameKey(inside) == Some(artifact)))
  }

  /** The version an inline table means: what its version reference is defined as last, or nothing if it is not defined;
      without a reference, its own version, or nothing. */
  ghost predicate Versioned(lines: seq<string>, inside: string, version: string, m: Matchers) {
    match m.versionRefKey(inside)
    case Some(name) =>
      || (name != "" && LastDefined(lines, name, version, m))
      || ((name == "" || Undefined(lines, 0, name, m)) && version == "")
    case None => m.versionKey(inside) == Some(version) || (m.versionKey(inside).None? && version == "")
  }

  /** Line i stands in a libraries section and describes the dependency, by its short form or by an inline table. */
  ghost predicate Describes(lines: seq<string>, i: nat, d: ParsedDep, m: Matchers, lower: string -> string) {
    && InSection(lines, i, "libraries") && Speaks(lines[i])
    && var t := TrimSpace(lines[i]);
       && d.line == i + 1 && d.snippet == t
       && match m.shortForm(t)
          case Some((group, artifact, version)) => d.name == lower(group + ":" + artifact) && d.version == version
          case None =>
            && m.inlineTable(t).Some?
            && var inside := m.inlineTable(t).value;
               && Versioned(lines, inside, d.version, m)
               && exists group, artifact ::
                    Coordinates(inside, group, artifact, m) && d.name == lower(group + ":" + artifact)
  }

  /** Line i stands in a libraries section and defines the library. */
  predicate Holds(lines: seq<string>, i: nat, lib: Lib, m: Matchers) {
    InSection(lines, i, "libraries") && Speaks(lines[i]) && LibDef(TrimSpace(lines[i]), i + 1, m) == Some(lib)
  }

  lemma HoldsOfPrefix(lines: seq<string>, n: nat, i: nat, lib: Lib, m: Matchers)
    requires n <= |lines|
    ensures Holds(lines[..n], i, lib, m) <==> Holds(lines, i, lib, m) && i < n
  {
    hide TrimSpace, Speaks, InSection, LibDef;
    if i < n {
      SectionOfPrefix(lines, n, i, "libraries");
      assert lines[..n][i] == lines[i];
    } else {
      NotInside(lines[..n], i, "libraries");
    }
  }

  lemma LibsStep(lines: seq<string>, lib: Lib, m: Matchers)
    requires lines != []
    ensures var n := |lines| - 1;
            lib in After(START, lines, 0, m).libs <==>
            lib in After(START, lines[..n], 0, m).libs || Holds(lines, n, lib, m)
  {
    hide TrimSpace, InSection, Section, LibDef, IsHeader, Ignored, Speaks, VersionDef;
    var n := |lines| - 1;
    SectionIs(lines, "libraries", m);
    SpeaksIs(lines[n]);
    if !IsHeader(TrimSpace(lines[n])) {
      OthersKeep(After(START, lines[..n], 0, m), lines[n], |lines|, m);
    }
  }

  /** The libraries that the pass collects are those that lines of libraries sections define. */
  lemma {:induction false} LibsAre(lines: seq<string>, lib: Lib, m: Matchers)
    ensures lib in After(START, lines, 0, m).libs <==> exists i | 0 <= i < |lines| :: Holds(lines, i, lib, m)
  {
    hide Holds, Step;
    if lines != [] {
      var n := |lines| - 1;
      LibsAre(lines[..n], lib, m);
      LibsStep(lines, lib, m);
      forall i: nat ensures Holds(lines[..n], i, lib, m) <==> Holds(lines, i, lib, m) && i < n {
        HoldsOfPrefix(lines, n, i, lib, m);
      }
      if i :| 0 <= i < n && Holds(lines[..n], i, lib, m) {
        assert Holds(lines, i, lib, m);
      }
    }
  }

  /** A library's version is resolved against the last definitions. */
  lemma ResolvedIs(lines: seq<string>, inside: string, lib: Lib, version: string, m: Matchers)
    requires lib.versionRef == Or(m.versionRefKey(inside), "")
    requires lib.version == if m.versionRefKey(inside).Some? then "" else Or(m.versionKey(inside), "")
    ensures ResolvedVersion(lib, After(START, lines, 0, m).versions) == version <==>
            Versioned(lines, inside, version, m)
  {
    hide After, Undefined, LastDefined;
    if m.versionRefKey(inside).Some? && m.versionRefKey(inside).value != "" {
      var name := m.versionRefKey(inside).value;
      VersionsAreLast(lines, name, m);
      OneLast(lines, name, m);
    }
  }

  /** There is one last definition at most, and none of an undefined name. */
  lemma OneLast(lines: seq<string>, name: string, m: Matchers)
    ensures forall v, w :: LastDefined(lines, name, v, m) && LastDefined(lines, name, w, m) ==> v == w
    ensures Undefined(lines, 0, name, m) ==> forall v :: !LastDefined(lines, name, v, m)
  {
    hide InSection, TrimSpace, Speaks;
    forall v, w | LastDefined(lines, name, v, m) && LastDefined(lines, name, w, m) ensures v == w {
      var i: nat :| Defines(lines, i, name, v, m) && Undefined(lines, i + 1, name, m);
      var j: nat :| Defines(lines, j, name, w, m) && Undefined(lines, j + 1, name, m);
      assert i == j;
    }
  }

  lemma HeldIsDescribed(lines: seq<string>, i: nat, d: ParsedDep, m: Matchers, lower: string -> string)
    requires i < |lines| && InSection(lines, i, "libraries") && Speaks(lines[i])
    ensures Describes(lines, i, d, m, lower) <==>
            var def := LibDef(TrimSpace(lines[i]), i + 1, m);
            def.Some? && DepOf(def.value, After(START, lines, 0, m).versions, lower) == d
  {
    hide InSection, Speaks, TrimSpace, After, Versioned;
    var t := TrimSpace(lines[i]);
    if m.shortForm(t).None? && m.inlineTable(t).Some? {
      var inside := m.inlineTable(t).value;
      var def := LibDef(t, i + 1, m);
      if def.Some? {
        ResolvedIs(lines, inside, def.value, d.version, m);
        assert Coordinates(inside, def.value.group, def.value.artifact, m);
      }
    }
  }

  /** The dependencies of a file, told line by line: exactly those that lines of libraries sections describe, in the
      order of their lines. */
  lemma ParsedFromLines(lines: seq<string>, m: Matchers, lower: string -> string, d: ParsedDep)
    ensures d in Parsed(lines, m, lower) <==> exists i | 0 <= i < |lines| :: Describes(lines, i, d, m, lower)
    ensures forall i, j | 0 <= i < j < |Parsed(lines, m, lower)| ::
              Parsed(lines, m, lower)[i].line < Parsed(lines, m, lower)[j].line
  {
    hide After, DepOf, LibDef, TrimSpace, InSection, Speaks, Describes;
    var st := After(START, lines, 0, m);
    if k :| 0 <= k < |st.libs| && DepOf(st.libs[k], st.versions, lower) == d {
      LibsAre(lines, st.libs[k], m);
      var i :| 0 <= i < |lines| && Holds(lines, i, st.libs[k], m);
      HeldIsDescribed(lines, i, d, m, lower);
    }
    if i :| 0 <= i < |lines| && Describes(lines, i, d, m, lower) {
      DescribedStands(lines, i, d, m, lower);
      HeldIsDescribed(lines, i, d, m, lower);
      var lib := LibDef(TrimSpace(lines[i]), i + 1, m).value;
      assert Holds(lines, i, lib, m);
      LibsAre(lines, lib, m);
      var k :| 0 <= k < |st.libs| && st.libs[k] == lib;
      assert Parsed(lines, m, lower)[k] == d;
    }
    LinesAreTrue(lines, m);
    DepsKeepLines(st.libs, st.versions, lower);
  }

  lemma DescribedStands(lines: seq<string>, i: nat, d: ParsedDep, m: Matchers, lower: string -> string)
    requires Describes(lines, i, d, m, lower)
    ensures InSection(lines, i, "libraries") && Speaks(lines[i])
  {}

  lemma DepsKeepLines(libs: seq<Lib>, versions: map<string, string>, lower: string -> string)
    ensures forall i | 0 <= i < |libs| :: DepsOf(libs, versions, lower)[i].line == libs[i].line
  {}

  /** A library with a reference gets the value of its last definition, wherever in the file the two stand. */
  lemma DefinedIsResolved(lines: seq<string>, i: nat, j: nat, inside: string, group: string, artifact: string,
                          name: string, version: string, m: Matchers, lower: string -> string)
    requires i < |lines| && InSection(lines, i, "libraries") && Speaks(lines[i])
    requires m.shortForm(TrimSpace(lines[i])).None? && m.inlineTable(TrimSpace(lines[i])) == Some(inside)
    requires Coordinates(inside, group, artifact, m) && m.versionRefKey(inside) == Some(name) && name != ""
    requires Defines(lines, j, name, version, m) && Undefined(lines, j + 1, name, m)
    ensures ParsedDep(lower(group + ":" + artifact), version, i + 1, TrimSpace(lines[i])) in Parsed(lines, m, lower)
  {
    hide Parsed, InSection, Speaks, TrimSpace, Defines, Coordinates;
    var d := ParsedDep(lower(group + ":" + artifact), version, i + 1, TrimSpace(lines[i]));
    assert LastDefined(lines, name, version, m);
    assert Describes(lines, i, d, m, lower);
    ParsedFromLines(lines, m, lower, d);
  }
}
