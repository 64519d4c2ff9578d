/** Three-component versions and the constraint language of the catalog
    (internal/deps/version.go). Methods carry the names of the source; each is proved
    against a function, and the laws are proved about the functions. */
module Versions {
  import opened Text

  /** The largest Go `int` on a 64-bit platform: strconv.Atoi saturates there. */
  const MAX_INT: int := 0x7FFF_FFFF_FFFF_FFFF

  datatype Version = Version(major: int, minor: int, patch: int)

  const ZERO: Version := Version(0, 0, 0)

  // ----- Decimal numerals ---------------------------------------------------

  predicate IsDigit(c: char) { '0' <= c <= '9' }

  predicate IsDot(c: char) { c == '.' }

  predicate IsVersionChar(c: char) { IsDigit(c) || IsDot(c) }

  predicate AllDigits(s: string) { forall i | 0 <= i < |s| :: IsDigit(s[i]) }

  predicate AllVersionChars(s: string) { forall i | 0 <= i < |s| :: IsVersionChar(s[i]) }

  function Decimal(n: nat): (s: string)
    ensures s != "" && AllDigits(s)
  {
    var last := ['0' + (n % 10) as char];
    if n < 10 then last else Decimal(n / 10) + last
  }

  function Numeral(s: string): nat
    requires AllDigits(s)
  {
    if s == "" then 0
    else Numeral(s[..|s| - 1]) * 10 + (s[|s| - 1] - '0') as int
  }

  function Saturate(n: int): int {
    if n > MAX_INT then MAX_INT else n
  }

  /** strconv.Atoi with its error dropped. Only digits reach it, so the one syntax error
      is the empty string, which yields 0; a value out of range yields the bound. */
  function Atoi(s: string): int {
    if AllDigits(s) then Saturate(Numeral(s)) else 0
  }

  lemma {:induction false} NumeralOfDecimal(n: nat)
    ensures Numeral(Decimal(n)) == n
  {
    if n >= 10 {
      var s := Decimal(n);
      assert s[..|s| - 1] == Decimal(n / 10);
      NumeralOfDecimal(n / 10);
    }
  }

  // ----- Parsing and printing versions --------------------------------------

  /** Version.String for components that are not negative. */
  function Show(v: Version): string
    requires v.major >= 0 && v.minor >= 0 && v.patch >= 0
  {
    Decimal(v.major) + "." + Decimal(v.minor) + "." + Decimal(v.patch)
  }

  /** The characters ParseVersion strips from the left. */
  predicate IsLeader(c: char) { c in "v=<>~^!= " }

  /** The longest prefix made of digits and dots. */
  function VersionPrefix(s: string): (p: string)
    ensures AllVersionChars(p)
  {
    if s != "" && IsVersionChar(s[0]) then [s[0]] + VersionPrefix(s[1..]) else ""
  }

  function Component(parts: seq<string>, i: nat): int {
    if i < |parts| then Atoi(parts[i]) else 0
  }

  function Components(s: string): Version {
    if s == "" then ZERO
    else
      var parts := Split(s, '.');
      Version(Component(parts, 0), Component(parts, 1), Component(parts, 2))
  }

  function VersionOf(s: string): Version {
    Components(TrimRight(VersionPrefix(TrimLeft(TrimSpace(s), IsLeader)), IsDot))
  }

  lemma {:induction false} VersionPrefixIs(body: string, rest: string)
    requires AllVersionChars(body)
    requires rest == "" || !IsVersionChar(rest[0])
    ensures VersionPrefix(body + rest) == body
  {
    if body == "" {
      assert body + rest == rest;
    } else {
      assert (body + rest)[1..] == body[1..] + rest;
      VersionPrefixIs(body[1..], rest);
    }
  }

  method ParseVersion(s: string) returns (v: Version)
    ensures v == VersionOf(s)
  {
    var t := TrimSpace(s);
    t := TrimLeft(t, IsLeader);
    var cut := |t|;
    var i := 0;
    while i < |t|
      invariant 0 <= i <= |t| && cut == |t|
      invariant AllVersionChars(t[..i])
    {
      if !IsDigit(t[i]) && t[i] != '.' {
        cut := i;
        break;
      }
      i := i + 1;
    }
    assert t == t[..cut] + t[cut..];
    VersionPrefixIs(t[..cut], t[cut..]);
    t := TrimRight(t[..cut], IsDot);
    if t == "" {
      return ZERO;
    }
    var parts := Split(t, '.');
    v := ZERO;
    if |parts| > 0 {
      v := v.(major := Atoi(parts[0]));
    }
    if |parts| > 1 {
      v := v.(minor := Atoi(parts[1]));
    }
    if |parts| > 2 {
      v := v.(patch := Atoi(parts[2]));
    }
  }

  lemma VersionCharIsPlain(c: char)
    requires IsVersionChar(c)
    ensures !IsSpace(c) && !IsLeader(c)
  {}

  /** Whatever surrounds the dotted part is ignored: white space, then operator or `v` characters,
      in front; any suffix that starts with neither a digit nor a dot (a pre-release, build
      metadata, a distribution release) behind. */
  lemma SurroundingsIgnored(space: string, leaders: string, body: string, suffix: string)
    requires forall i | 0 <= i < |space| :: IsSpace(space[i])
    requires forall i | 0 <= i < |leaders| :: leaders[i] in "v=<>~^! "
    requires body != "" && AllVersionChars(body)
    requires suffix == "" || !IsVersionChar(suffix[0])
    ensures VersionOf(space + leaders + body + suffix) == VersionOf(body)
  {
    VersionCharIsPlain(body[0]);
    VersionCharIsPlain(body[|body| - 1]);
    BodyOfTrimmed(space, leaders, body, suffix);
    BodyOfTrimmed("", "", body, "");
    assert "" + "" + body + "" == body;
  }

  lemma BodyOfTrimmed(space: string, leaders: string, body: string, suffix: string)
    requires forall i | 0 <= i < |space| :: IsSpace(space[i])
    requires forall i | 0 <= i < |leaders| :: IsLeader(leaders[i])
    requires body != "" && AllVersionChars(body) && !IsLeader(body[0])
    requires !IsSpace(body[0]) && !IsSpace(body[|body| - 1])
    requires suffix == "" || !IsVersionChar(suffix[0])
    ensures VersionPrefix(TrimLeft(TrimSpace(space + leaders + body + suffix), IsLeader)) == body
  {
    TrimmedAround(space + leaders, body, suffix, IsSpace);
    TrimLeftOf(space, leaders, IsSpace);
    var lead, tail := TrimLeft(leaders, IsSpace), TrimRight(suffix, IsSpace);
    var front := TrimLeftSplits(leaders, IsSpace);
    var back := TrimRightSplits(suffix, IsSpace);
    assert forall i | 0 <= i < |lead| :: lead[i] == leaders[|front| + i];
    assert lead + body + tail == lead + (body + tail);
    TrimLeftOf(lead, body + tail, IsLeader);
    assert TrimLeft(body + tail, IsLeader) == body + tail;
    assert tail == "" || tail[0] == suffix[0];
    VersionPrefixIs(body, tail);
  }

  lemma {:induction false} PrefixIgnores(u: string, x: string)
    requires x == "" || !IsVersionChar(x[0])
    requires VersionPrefix(TrimLeft(x, IsLeader)) == ""
    ensures VersionPrefix(u + x) == VersionPrefix(u)
    ensures VersionPrefix(TrimLeft(u + x, IsLeader)) == VersionPrefix(TrimLeft(u, IsLeader))
  {
    if u == "" {
      assert u + x == x;
    } else {
      assert (u + x)[1..] == u[1..] + x;
      PrefixIgnores(u[1..], x);
    }
  }

  lemma {:induction false} SpacesThenComma(w: string, rest: string)
    requires Spaces(w)
    ensures VersionPrefix(TrimLeft(w + "," + rest, IsLeader)) == ""
    ensures !IsVersionChar((w + "," + rest)[0])
  {
    if w == "" {
      assert w + "," + rest == "," + rest;
    } else {
      assert (w + "," + rest)[1..] == w[1..] + "," + rest;
      SpacesThenComma(w[1..], rest);
    }
  }

  /** A version text ends at its first comma. */
  lemma CommaEndsVersion(a: string, b: string)
    requires ',' !in a
    ensures VersionOf(a + "," + b) == VersionOf(a)
  {
    hide VersionPrefix, IsSpace, IsLeader, IsVersionChar, TrimLeft, TrimRight;
    CommaIsNoSpace();
    TrimmedAround(a, ",", b, IsSpace);
    var t, back := TrimLeft(a, IsSpace), TrimRight(b, IsSpace);
    var w := TrimRightSplits(t, IsSpace);
    var u := TrimRight(t, IsSpace);
    assert t + "," + back == u + (w + "," + back);
    SpacesThenComma(w, back);
    PrefixIgnores(u, w + "," + back);
  }

  lemma CommaIsNoSpace()
    ensures !IsSpace(',')
  {}

  lemma ShowIsJoin(v: Version)
    requires v.major >= 0 && v.minor >= 0 && v.patch >= 0
    ensures Show(v) == Join([Decimal(v.major), Decimal(v.minor), Decimal(v.patch)], ".")
  {
    var parts := [Decimal(v.major), Decimal(v.minor), Decimal(v.patch)];
    JoinAppend(parts[..1], parts[1], ".");
    JoinAppend(parts[..2], parts[2], ".");
    assert parts[..1] + [parts[1]] == parts[..2];
    assert parts[..2] + [parts[2]] == parts;
  }

  lemma PlainVersionText(s: string)
    requires s != "" && AllVersionChars(s) && s[|s| - 1] != '.'
    ensures VersionOf(s) == Components(s)
  {
    VersionCharIsPlain(s[0]);
    VersionCharIsPlain(s[|s| - 1]);
    BodyOfTrimmed("", "", s, "");
    assert "" + "" + s + "" == s;
    hide Components, VersionPrefix, TrimSpace, TrimLeft;
  }

  lemma ComponentsOfParts(a: string, b: string, c: string)
    requires '.' !in a && '.' !in b && '.' !in c
    requires a != ""
    ensures Components(Join([a, b, c], ".")) == Version(Atoi(a), Atoi(b), Atoi(c))
  {
    SplitJoin([a, b, c], '.');
  }

  lemma ShowText(v: Version)
    requires v.major >= 0 && v.minor >= 0 && v.patch >= 0
    ensures AllVersionChars(Show(v)) && Show(v) != "" && Show(v)[|Show(v)| - 1] != '.'
  {
    var c := Decimal(v.patch);
    assert Show(v)[|Show(v)| - 1] == c[|c| - 1];
  }

  lemma NoDotInDecimal(n: nat)
    ensures '.' !in Decimal(n)
  {}

  /** Printing and parsing are inverse for components that fit a Go int, and a component
      that does not fit saturates. */
  lemma ParseShow(v: Version)
    requires v.major >= 0 && v.minor >= 0 && v.patch >= 0
    ensures VersionOf(Show(v)) == Version(Saturate(v.major), Saturate(v.minor), Saturate(v.patch))
  {
    ShowText(v);
    PlainVersionText(Show(v));
    ShowIsJoin(v);
    NoDotInDecimal(v.major);
    NoDotInDecimal(v.minor);
    NoDotInDecimal(v.patch);
    ComponentsOfParts(Decimal(v.major), Decimal(v.minor), Decimal(v.patch));
    NumeralOfDecimal(v.major);
    NumeralOfDecimal(v.minor);
    NumeralOfDecimal(v.patch);
  }

  predicate DottedPart(s: string) { s != "" && AllVersionChars(s) && '.' !in s }

  lemma {:induction false} DottedChars(parts: seq<string>)
    requires parts != [] && forall i | 0 <= i < |parts| :: DottedPart(parts[i])
    ensures var s := Join(parts, "."); s != "" && AllVersionChars(s) && s[|s| - 1] != '.'
  {
    if |parts| > 1 {
      DottedChars(parts[1..]);
      assert Join(parts, ".") == parts[0] + "." + Join(parts[1..], ".");
    }
  }

  lemma OfParts(parts: seq<string>)
    requires parts != [] && forall i | 0 <= i < |parts| :: DottedPart(parts[i])
    ensures VersionOf(Join(parts, ".")) == Version(Component(parts, 0), Component(parts, 1), Component(parts, 2))
  {
    hide VersionOf, Component, AllVersionChars;
    DottedChars(parts);
    PlainVersionText(Join(parts, "."));
    SplitJoin(parts, '.');
    assert "." == ['.'];
  }

  lemma DecimalIsPart(n: nat)
    ensures DottedPart(Decimal(n)) && Atoi(Decimal(n)) == Saturate(n)
  {
    NoDotInDecimal(n);
    NumeralOfDecimal(n);
  }

  /** A version with fewer components has zeros for the rest, and components after the third do not count. */
  lemma FewerComponents(a: nat, b: nat)
    ensures VersionOf(Decimal(a)) == Version(if a < 0x8000000000000000 then a else 0x7FFFFFFFFFFFFFFF, 0, 0)
    ensures VersionOf(Decimal(a) + "." + Decimal(b)) == Version(Saturate(a), Saturate(b), 0)
  {
    hide VersionOf, Decimal, DottedPart, Atoi;
    DecimalIsPart(a);
    DecimalIsPart(b);
    OfParts([Decimal(a)]);
    OfParts([Decimal(a), Decimal(b)]);
    JoinAppend([Decimal(a)], Decimal(b), ".");
  }

  lemma MoreComponents(a: nat, b: nat, c: nat, more: string)
    requires DottedPart(more)
    ensures VersionOf(Decimal(a) + "." + Decimal(b) + "." + Decimal(c) + "." + more) ==
            Version(Saturate(a), Saturate(b), Saturate(c))
  {
    hide VersionOf, Decimal, DottedPart, Atoi;
    DecimalIsPart(a);
    DecimalIsPart(b);
    DecimalIsPart(c);
    OfParts([Decimal(a), Decimal(b), Decimal(c), more]);
    JoinAppend([Decimal(a)], Decimal(b), ".");
    JoinAppend([Decimal(a), Decimal(b)], Decimal(c), ".");
    JoinAppend([Decimal(a), Decimal(b), Decimal(c)], more, ".");
    assert [Decimal(a)] + [Decimal(b)] == [Decimal(a), Decimal(b)];
    assert [Decimal(a), Decimal(b)] + [Decimal(c)] == [Decimal(a), Decimal(b), Decimal(c)];
    assert [Decimal(a), Decimal(b), Decimal(c)] + [more] == [Decimal(a), Decimal(b), Decimal(c), more];
  }

  // ----- Ordering -----------------------------------------------------------

  function CmpInt(a: int, b: int): int {
    if a < b then -1 else if a > b then 1 else 0
  }

  function Compare(a: Version, b: Version): int {
    var c := CmpInt(a.major, b.major);
    if c != 0 then c
    else
      var d := CmpInt(a.minor, b.minor);
      if d != 0 then d else CmpInt(a.patch, b.patch)
  }

  /** Compare is a total order whose equivalence is equality. */
  lemma CompareIsTotalOrder(a: Version, b: Version, c: Version)
    ensures Compare(a, b) == 0 <==> a == b
    ensures Compare(a, b) == -Compare(b, a)
    ensures Compare(a, b) <= 0 && Compare(b, c) <= 0 ==> Compare(a, c) <= 0
    ensures Compare(a, b) < 0 && Compare(b, c) <= 0 ==> Compare(a, c) < 0
    ensures Compare(a, b) <= 0 && Compare(b, c) < 0 ==> Compare(a, c) < 0
  {}

  /** Older: by the major component, then by the minor one, then by the patch. */
  predicate Less(a: Version, b: Version) {
    a.major < b.major || (a.major == b.major && (a.minor < b.minor || (a.minor == b.minor && a.patch < b.patch)))
  }

  /** Compare is that lexicographic order, told by a sign. */
  lemma CompareIsLexicographic(a: Version, b: Version)
    ensures Compare(a, b) == if Less(a, b) then -1 else if Less(b, a) then 1 else 0
  {}

  // ----- Constraints --------------------------------------------------------

  datatype ConstraintOp = OpAny | OpLT | OpLE | OpGT | OpGE | OpEQ | OpNE

  datatype Constraint = Constraint(op: ConstraintOp, ver: Version) {
    predicate Matches(v: Version) {
      var cmp := Compare(v, ver);
      match op
      case OpAny => true
      case OpLT => cmp < 0
      case OpLE => cmp <= 0
      case OpGT => cmp > 0
      case OpGE => cmp >= 0
      case OpEQ => cmp == 0
      case OpNE => cmp != 0
    }
  }

  predicate Satisfies(cs: seq<Constraint>, v: Version) {
    forall i | 0 <= i < |cs| :: cs[i].Matches(v)
  }

  method MatchAll(cs: seq<Constraint>, v: Version) returns (ok: bool)
    ensures ok <==> Satisfies(cs, v)
  {
    for i := 0 to |cs|
      invariant Satisfies(cs[..i], v)
    {
      if !cs[i].Matches(v) {
        return false;
      }
      assert cs[..i + 1] == cs[..i] + [cs[i]];
    }
    assert cs[..|cs|] == cs;
    return true;
  }

  /** Longest operators first; a bare version is an exact match. */
  function ClauseOf(s: string): Constraint {
    if HasPrefix(s, "<=") then Constraint(OpLE, VersionOf(TrimSpace(s[2..])))
    else if HasPrefix(s, ">=") then Constraint(OpGE, VersionOf(TrimSpace(s[2..])))
    else if HasPrefix(s, "!=") then Constraint(OpNE, VersionOf(TrimSpace(s[2..])))
    else if HasPrefix(s, "==") then Constraint(OpEQ, VersionOf(TrimSpace(s[2..])))
    else if HasPrefix(s, "<") then Constraint(OpLT, VersionOf(TrimSpace(s[1..])))
    else if HasPrefix(s, ">") then Constraint(OpGT, VersionOf(TrimSpace(s[1..])))
    else if HasPrefix(s, "=") then Constraint(OpEQ, VersionOf(TrimSpace(s[1..])))
    else Constraint(OpEQ, VersionOf(TrimSpace(s)))
  }

  /** An operator of two characters, or of one that `=` does not follow, then anything, is that operator on the version
      that follows; without an operator it is equality. */
  lemma OperatorsMean(rest: string, v: Version)
    ensures var w := VersionOf(TrimSpace(rest));
            && (ClauseOf("<=" + rest).Matches(v) <==> !Less(w, v))
            && (ClauseOf(">=" + rest).Matches(v) <==> !Less(v, w))
            && (ClauseOf("!=" + rest).Matches(v) <==> v != w) && (ClauseOf("==" + rest).Matches(v) <==> v == w)
            && (!HasPrefix(rest, "=") ==>
                  && (ClauseOf("<" + rest).Matches(v) <==> Less(v, w))
                  && (ClauseOf(">" + rest).Matches(v) <==> Less(w, v))
                  && (ClauseOf("=" + rest).Matches(v) <==> v == w))
            && (rest == "" || rest[0] !in "<>!=" ==> (ClauseOf(rest).Matches(v) <==> v == w))
  {
    hide VersionOf, TrimSpace, Compare, ClauseOf;
    CompareIsLexicographic(v, VersionOf(TrimSpace(rest)));
    CompareIsTotalOrder(v, VersionOf(TrimSpace(rest)), v);
    TwoCharacters(rest);
    if !HasPrefix(rest, "=") {
      OneCharacter(rest);
    }
    if rest == "" || rest[0] !in "<>!=" {
      NoOperator(rest);
    }
  }

  lemma TwoCharacters(rest: string)
    ensures ClauseOf("<=" + rest).op == OpLE && ClauseOf("<=" + rest).ver == VersionOf(TrimSpace(rest))
    ensures ClauseOf(">=" + rest).op == OpGE && ClauseOf(">=" + rest).ver == VersionOf(TrimSpace(rest))
    ensures ClauseOf("!=" + rest).op == OpNE && ClauseOf("!=" + rest).ver == VersionOf(TrimSpace(rest))
    ensures ClauseOf("==" + rest).op == OpEQ && ClauseOf("==" + rest).ver == VersionOf(TrimSpace(rest))
  {
    hide VersionOf, TrimSpace;
    assert ("<=" + rest)[2..] == rest && (">=" + rest)[2..] == rest;
    assert ("!=" + rest)[2..] == rest && ("==" + rest)[2..] == rest;
  }

  lemma OneCharacter(rest: string)
    requires !HasPrefix(rest, "=")
    ensures ClauseOf("<" + rest) == Constraint(OpLT, VersionOf(TrimSpace(rest)))
    ensures ClauseOf(">" + rest) == Constraint(OpGT, VersionOf(TrimSpace(rest)))
    ensures ClauseOf("=" + rest) == Constraint(OpEQ, VersionOf(TrimSpace(rest)))
  {
    hide VersionOf, TrimSpace;
    PrefixChars(rest, "=");
    assert ("<" + rest)[1..] == rest && (">" + rest)[1..] == rest && ("=" + rest)[1..] == rest;
    assert rest != "" ==> ("<" + rest)[1] == rest[0] && (">" + rest)[1] == rest[0] && ("=" + rest)[1] == rest[0];
  }

  lemma NoOperator(rest: string)
    requires rest == "" || rest[0] !in "<>!="
    ensures ClauseOf(rest) == Constraint(OpEQ, VersionOf(TrimSpace(rest)))
  {
    hide VersionOf, TrimSpace;
    if rest != "" {
      assert rest[0] != '<' && rest[0] != '>' && rest[0] != '!' && rest[0] != '=';
    }
  }

  /** None stands for the error of a blank part. */
  function PartClause(part: string): Option<Constraint> {
    var s := TrimSpace(part);
    if s == "" then None else Some(ClauseOf(s))
  }

  /** None stands for the error. Blank text is the empty set, which matches everything. */
  function ConstraintsOf(text: string): Option<seq<Constraint>> {
    var s := TrimSpace(text);
    if s == "" then Some([]) else MapAll(Split(s, ','), PartClause)
  }

  predicate SomeBlank(parts: seq<string>) {
    exists i | 0 <= i < |parts| :: TrimSpace(parts[i]) == ""
  }

  /** Each part gives the clause of its trimmed text. */
  predicate ClauseByClause(parts: seq<string>, cs: seq<Constraint>) {
    && |cs| == |parts|
    && forall i | 0 <= i < |parts| :: TrimSpace(parts[i]) != "" && cs[i] == ClauseOf(TrimSpace(parts[i]))
  }

  /** Text that is not blank is an error exactly if a part between its commas is blank; otherwise its parts give the
      clauses, in order. */
  lemma ErrorIffBlankPart(text: string)
    requires TrimSpace(text) != ""
    ensures var parts := Split(TrimSpace(text), ',');
            match ConstraintsOf(text)
            case None => SomeBlank(parts)
            case Some(cs) => ClauseByClause(parts, cs)
  {
    hide TrimSpace, Split, ClauseOf, SomeBlank, ClauseByClause;
    ClausesOfParts(Split(TrimSpace(text), ','));
  }

  lemma {:induction false} ClausesOfParts(parts: seq<string>)
    ensures match MapAll(parts, PartClause)
            case None => SomeBlank(parts)
            case Some(cs) => ClauseByClause(parts, cs)
  {
    hide TrimSpace, ClauseOf;
    if parts != [] {
      ClausesOfParts(parts[1..]);
      if TrimSpace(parts[0]) != "" && MapAll(parts, PartClause).None? {
        var i :| 0 <= i < |parts[1..]| && TrimSpace(parts[1..][i]) == "";
        assert TrimSpace(parts[i + 1]) == "";
      }
    }
  }

  method ParseSingleConstraint(text: string) returns (c: Option<Constraint>)
    ensures c == if text == "" then None else Some(ClauseOf(text))
  {
    var s := text;
    if s == "" {
      return None;
    }
    var op: ConstraintOp;
    if HasPrefix(s, "<=") {
      op := OpLE;
      s := s[2..];
    } else if HasPrefix(s, ">=") {
      op := OpGE;
      s := s[2..];
    } else if HasPrefix(s, "!=") {
      op := OpNE;
      s := s[2..];
    } else if HasPrefix(s, "==") {
      op := OpEQ;
      s := s[2..];
    } else if HasPrefix(s, "<") {
      op := OpLT;
      s := s[1..];
    } else if HasPrefix(s, ">") {
      op := OpGT;
      s := s[1..];
    } else if HasPrefix(s, "=") {
      op := OpEQ;
      s := s[1..];
    } else {
      op := OpEQ;
    }
    var v := ParseVersion(TrimSpace(s));
    return Some(Constraint(op, v));
  }

  method ParseConstraints(text: string) returns (result: Option<seq<Constraint>>)
    ensures result == ConstraintsOf(text)
  {
    hide ClauseOf, Split, TrimSpace;
    var s := TrimSpace(text);
    if s == "" {
      return Some([]);
    }
    var out: seq<Constraint> := [];
    var parts := Split(s, ',');
    for i := 0 to |parts|
      invariant MapAll(parts[..i], PartClause) == Some(out)
    {
      var c := ParseSingleConstraint(TrimSpace(parts[i]));
      assert c == PartClause(parts[i]);
      MapAllAppend(parts[..i], parts[i], PartClause);
      assert parts[..i] + [parts[i]] == parts[..i + 1];
      if c.None? {
        MapAllFails(parts, i, PartClause);
        return None;
      }
      out := out + [c.value];
    }
    assert parts[..|parts|] == parts;
    return Some(out);
  }

  /** Without `!=` a constraint set denotes an interval: no hole between two matching versions. */
  lemma ConvexWithoutNE(cs: seq<Constraint>, lo: Version, v: Version, hi: Version)
    requires forall i | 0 <= i < |cs| :: cs[i].op != OpNE
    requires Satisfies(cs, lo) && Satisfies(cs, hi)
    requires Compare(lo, v) <= 0 && Compare(v, hi) <= 0
    ensures Satisfies(cs, v)
  {
    forall i | 0 <= i < |cs| ensures cs[i].Matches(v) {
      assert cs[i].Matches(lo) && cs[i].Matches(hi);
    }
  }

  /** A `!=` clause does punch a hole. */
  lemma HoleWithNE()
    ensures exists cs, lo, v, hi ::
              Satisfies(cs, lo) && Satisfies(cs, hi) && Compare(lo, v) <= 0 && Compare(v, hi) <= 0 && !Satisfies(cs, v)
  {
    var cs := [Constraint(OpNE, Version(1, 2, 3))];
    var v := Version(1, 2, 3);
    assert !cs[0].Matches(v);
    assert Satisfies(cs, Version(1, 2, 2)) && Satisfies(cs, Version(1, 2, 4)) && !Satisfies(cs, v);
    assert Compare(Version(1, 2, 2), v) <= 0 && Compare(v, Version(1, 2, 4)) <= 0;
  }

  /** A window `>=lo,<hi` and the catalog entries on either side of it partition all versions. */
  lemma WindowPartitions(lo: Version, hi: Version, v: Version)
    requires Compare(lo, hi) <= 0
    ensures multiset{Satisfies([Constraint(OpLT, lo)], v),
                     Satisfies([Constraint(OpGE, lo), Constraint(OpLT, hi)], v),
                     Satisfies([Constraint(OpGE, hi)], v)}[true] == 1
  {
    CompareIsTotalOrder(v, lo, hi);
    var window := [Constraint(OpGE, lo), Constraint(OpLT, hi)];
    assert Satisfies(window, v) <==> window[0].Matches(v) && window[1].Matches(v);
    assert Satisfies([Constraint(OpLT, lo)], v) <==> [Constraint(OpLT, lo)][0].Matches(v);
    assert Satisfies([Constraint(OpGE, hi)], v) <==> [Constraint(OpGE, hi)][0].Matches(v);
  }
}
