/** Comparing a scan with a baseline (internal/findings/baseline.go): fingerprints, new and resolved findings. */
module Baseline {
  import opened Findings
  import opened Text

  // ----- Fingerprints -----------------------------------------------------------------------

  function AlgorithmName(s: string): string {
    var i := Index(s, ' ');
    if i <= 0 || HasPrefix(s[i + 1..], "ELF-") || HasPrefix(s, "ELF-") then s else s[..i]
  }

  function Fingerprint(f: Finding): string {
    f.rule + "|" + f.file + "|" + AlgorithmName(f.algorithm)
  }

  /** Stripping a version twice is stripping it once. */
  lemma AlgorithmNameIdempotent(s: string)
    ensures AlgorithmName(AlgorithmName(s)) == AlgorithmName(s)
  {
    hide HasPrefix;
    var i := Index(s, ' ');
    if i > 0 {
      assert ' ' !in s[..i];
    }
  }

  lemma ElfPrefix(name: string, rest: string)
    requires ' ' !in name
    ensures HasPrefix(name + " " + rest, "ELF-") <==> HasPrefix(name, "ELF-")
  {
    var s, elf := name + " " + rest, "ELF-";
    PrefixChars(s, elf);
    PrefixChars(name, elf);
    assert s[|name|] == ' ' && forall i | 0 <= i < 4 :: elf[i] != ' ';
    assert forall i | 0 <= i < |name| :: s[i] == name[i];
  }

  /** What the name is, for every text: up to the first space, but the whole text if there is no space, if it starts
      with a space, or if `ELF-` stands at the start or behind that space. */
  lemma AlgorithmNameIs(name: string, rest: string)
    requires ' ' !in name
    ensures AlgorithmName(name) == name
    ensures AlgorithmName(name + " " + rest) ==
            if name == "" || HasPrefix(name, "ELF-") || HasPrefix(rest, "ELF-") then name + " " + rest else name
  {
    hide HasPrefix;
    var s := name + [' '] + rest;
    assert s == name + " " + rest;
    IndexAfter(name, ' ', rest);
    assert s[|name| + 1..] == rest && s[..|name|] == name;
    ElfPrefix(name, rest);
  }

  /** A version bump does not change the name, and so not the fingerprint. */
  lemma VersionBumpKeepsName(name: string, v1: string, v2: string)
    requires name != "" && ' ' !in name && !HasPrefix(name + " ", "ELF-")
    requires !HasPrefix(v1, "ELF-") && !HasPrefix(v2, "ELF-")
    ensures AlgorithmName(name + " " + v1) == AlgorithmName(name + " " + v2) == name
  {
    OneVersion(name, v1);
    OneVersion(name, v2);
  }

  lemma OneVersion(name: string, v: string)
    requires name != "" && ' ' !in name && !HasPrefix(name + " ", "ELF-") && !HasPrefix(v, "ELF-")
    ensures AlgorithmName(name + " " + v) == name
  {
    var s := name + [' '] + v;
    assert s == name + " " + v;
    IndexAfter(name, ' ', v);
    assert s[|name| + 1..] == v && s[..|name|] == name;
    NoElf(name, v);
  }

  lemma NoElf(name: string, v: string)
    requires ' ' !in name && !HasPrefix(name + " ", "ELF-")
    ensures !HasPrefix(name + " " + v, "ELF-")
  {
    var s, elf := name + " " + v, "ELF-";
    PrefixChars(s, elf);
    PrefixChars(name + " ", elf);
    assert s[|name|] == ' ' && forall i | 0 <= i < 4 :: elf[i] != ' ';
    if |name| >= 4 {
      assert s[..4] == (name + " ")[..4];
    }
  }

  /** The separator does not occur in the first two parts. */
  predicate Unambiguous(f: Finding) { '|' !in f.rule && '|' !in f.file }

  lemma FirstParts(f: Finding)
    requires Unambiguous(f)
    ensures var s := Fingerprint(f);
            && Index(s, '|') == |f.rule| && s[..|f.rule|] == f.rule
            && var rest := s[|f.rule| + 1..];
               Index(rest, '|') == |f.file| && rest[..|f.file|] == f.file
               && rest[|f.file| + 1..] == AlgorithmName(f.algorithm)
  {
    hide AlgorithmName, Index;
    var name := AlgorithmName(f.algorithm);
    var rest := f.file + ['|'] + name;
    var s := f.rule + ['|'] + rest;
    assert Fingerprint(f) == s;
    IndexAfter(f.rule, '|', rest);
    assert s[|f.rule| + 1..] == rest;
    IndexAfter(f.file, '|', name);
  }

  /** Fingerprints are equal exactly when rule, file and algorithm name are, if neither rule nor file holds a bar. */
  lemma FingerprintIsComponents(f: Finding, g: Finding)
    requires Unambiguous(f) && Unambiguous(g)
    ensures Fingerprint(f) == Fingerprint(g) <==>
            f.rule == g.rule && f.file == g.file && AlgorithmName(f.algorithm) == AlgorithmName(g.algorithm)
  {
    hide AlgorithmName, Index;
    FirstParts(f);
    FirstParts(g);
  }

  /** With a bar in the rule or in the file two different findings can have one fingerprint. */
  lemma BarsCollide(f: Finding, a: string, b: string, c: string)
    ensures Fingerprint(f.(rule := a + "|" + b, file := c)) == Fingerprint(f.(rule := a, file := b + "|" + c))
  {
    var name := AlgorithmName(f.algorithm);
    assert (a + "|" + b) + "|" + c + "|" + name == a + "|" + (b + "|" + c) + "|" + name;
  }

  predicate SameParts(f: Finding, g: Finding) {
    f.rule == g.rule && f.file == g.file && AlgorithmName(f.algorithm) == AlgorithmName(g.algorithm)
  }

  /** The fingerprint tells the finding's parts apart from those of every other finding. */
  ghost predicate Identifies(f: Finding) {
    forall g: Finding | Fingerprint(g) == Fingerprint(f) :: SameParts(f, g)
  }

  /** What follows a bar in the name is never itself the name of an algorithm. */
  predicate NoNameInside(name: string) {
    forall i | 0 <= i < |name| :: name[i] == '|' ==> AlgorithmName(name[i + 1..]) != name[i + 1..]
  }

  /** A rule with a bar: the finding shares its fingerprint with one of a shorter rule and the same name. */
  lemma RuleWithBar(f: Finding) returns (g: Finding)
    requires '|' in f.rule
    ensures Fingerprint(g) == Fingerprint(f) && g.rule != f.rule && g.algorithm == f.algorithm
  {
    var i := Index(f.rule, '|');
    var a, b := f.rule[..i], f.rule[i + 1..];
    BarsCollide(f, a, b, f.file);
    assert f.rule == a + "|" + b;
    g := f.(rule := a, file := b + "|" + f.file);
    assert f.(rule := a + "|" + b, file := f.file) == f;
  }

  lemma FileWithBar(f: Finding) returns (g: Finding)
    requires '|' in f.file
    ensures Fingerprint(g) == Fingerprint(f) && g.rule != f.rule && g.algorithm == f.algorithm
  {
    var i := Index(f.file, '|');
    var b, c := f.file[..i], f.file[i + 1..];
    BarsCollide(f, f.rule, b, c);
    assert f.file == b + "|" + c;
    g := f.(rule := f.rule + "|" + b, file := c);
    assert f.(rule := f.rule, file := b + "|" + c) == f;
    assert |g.rule| > |f.rule|;
  }

  /** A name that holds another one after a bar: the finding shares its fingerprint with one of that name. */
  lemma NameWithBar(f: Finding, i: nat) returns (g: Finding)
    requires var name := AlgorithmName(f.algorithm);
             i < |name| && name[i] == '|' && AlgorithmName(name[i + 1..]) == name[i + 1..]
    ensures Fingerprint(g) == Fingerprint(f) && g.file != f.file
  {
    hide AlgorithmName;
    var name := AlgorithmName(f.algorithm);
    var x, y := name[..i], name[i + 1..];
    assert name == x + "|" + y;
    g := f.(file := f.file + "|" + x, algorithm := y);
    assert f.rule + "|" + f.file + "|" + (x + "|" + y) == f.rule + "|" + (f.file + "|" + x) + "|" + y;
    assert |g.file| > |f.file|;
  }

  lemma PlacesOfBars(f: Finding)
    ensures var s, name := Fingerprint(f), AlgorithmName(f.algorithm);
            var first, second := |f.rule|, |f.rule| + 1 + |f.file|;
            && |s| == second + 1 + |name| && s[first] == '|' && s[second] == '|'
            && s[..first] == f.rule && s[first + 1..second] == f.file && s[second + 1..] == name
  {
    hide AlgorithmName;
  }

  lemma OneBarBefore(f: Finding)
    requires Unambiguous(f)
    ensures forall p | 0 <= p < |f.rule| + 1 + |f.file| && Fingerprint(f)[p] == '|' :: p == |f.rule|
  {
    hide AlgorithmName;
    var s := Fingerprint(f);
    assert forall p | 0 <= p < |f.rule| :: s[p] == f.rule[p];
    assert forall p | |f.rule| < p < |f.rule| + 1 + |f.file| :: s[p] == f.file[p - |f.rule| - 1];
  }

  lemma PartsDetermined(f: Finding, g: Finding)
    requires Unambiguous(f) && NoNameInside(AlgorithmName(f.algorithm)) && Fingerprint(g) == Fingerprint(f)
    ensures SameParts(f, g)
  {
    AlgorithmNameIdempotent(g.algorithm);
    OneBarBefore(f);
    PlacesOfBars(f);
    PlacesOfBars(g);
    hide AlgorithmName, Fingerprint;
    var s, name := Fingerprint(f), AlgorithmName(f.algorithm);
    var r, q := |f.rule| + 1 + |f.file|, |g.rule| + 1 + |g.file|;
    assert q <= r;
  }

  /** The exact condition: a fingerprint identifies rule, file and algorithm name if and only if neither rule nor file
      holds a bar and no name stands after a bar in the algorithm name. */
  lemma IdentifiesIff(f: Finding)
    ensures Identifies(f) <==> Unambiguous(f) && NoNameInside(AlgorithmName(f.algorithm))
  {
    hide Fingerprint, AlgorithmName;
    if Unambiguous(f) && NoNameInside(AlgorithmName(f.algorithm)) {
      forall g: Finding | Fingerprint(g) == Fingerprint(f) ensures SameParts(f, g) {
        PartsDetermined(f, g);
      }
    } else if '|' in f.rule {
      var g := RuleWithBar(f);
      assert !SameParts(f, g);
    } else if '|' in f.file {
      var g := FileWithBar(f);
      assert !SameParts(f, g);
    } else {
      var name := AlgorithmName(f.algorithm);
      var i: nat :| i < |name| && name[i] == '|' && AlgorithmName(name[i + 1..]) == name[i + 1..];
      var g := NameWithBar(f, i);
      assert !SameParts(f, g);
    }
  }

  /** Among findings whose names hold no bar, and most do not, the condition is that rule and file hold none. */
  lemma IdentifiesAmongPlainNames(f: Finding)
    requires '|' !in AlgorithmName(f.algorithm)
    ensures (forall g: Finding | '|' !in AlgorithmName(g.algorithm) && Fingerprint(g) == Fingerprint(f) ::
               SameParts(f, g))
            <==> Unambiguous(f)
  {
    hide Fingerprint, AlgorithmName;
    IdentifiesIff(f);
    if '|' in f.rule {
      var g := RuleWithBar(f);
      assert !SameParts(f, g);
    } else if '|' in f.file {
      var g := FileWithBar(f);
      assert !SameParts(f, g);
    }
  }

  // ----- New and resolved findings ------------------------------------------------------------

  function Prints(fs: seq<Finding>): set<string> {
    set f | f in fs :: Fingerprint(f)
  }

  /** The findings whose fingerprint is not among the given ones, in order. */
  function Unseen(fs: seq<Finding>, seen: set<string>): seq<Finding> {
    if fs == [] then []
    else
      var last := fs[|fs| - 1];
      Unseen(fs[..|fs| - 1], seen) + if Fingerprint(last) in seen then [] else [last]
  }

  method Collect(fs: seq<Finding>) returns (seen: set<string>)
    ensures seen == Prints(fs)
  {
    hide Fingerprint;
    seen := {};
    for i := 0 to |fs|
      invariant seen == Prints(fs[..i])
    {
      assert fs[..i + 1] == fs[..i] + [fs[i]];
      seen := seen + {Fingerprint(fs[i])};
    }
    assert fs[..|fs|] == fs;
  }

  method Without(fs: seq<Finding>, seen: set<string>) returns (out: seq<Finding>)
    ensures out == Unseen(fs, seen)
  {
    hide Fingerprint;
    out := [];
    for i := 0 to |fs|
      invariant out == Unseen(fs[..i], seen)
    {
      assert fs[..i + 1][..i] == fs[..i];
      if Fingerprint(fs[i]) !in seen {
        out := out + [fs[i]];
      }
    }
    assert fs[..|fs|] == fs;
  }

  /** Findings of the scan that the baseline does not have. */
  method Diff(current: seq<Finding>, baseline: seq<Finding>) returns (out: seq<Finding>)
    ensures out == Unseen(current, Prints(baseline))
  {
    var seen := Collect(baseline);
    out := Without(current, seen);
  }

  /** Findings of the baseline that the scan no longer has: the difference with its sides swapped. */
  method Resolved(current: seq<Finding>, baseline: seq<Finding>) returns (out: seq<Finding>)
    ensures out == Unseen(baseline, Prints(current))
  {
    var seen := Collect(current);
    out := Without(baseline, seen);
  }

  lemma {:induction false} UnseenMembers(fs: seq<Finding>, seen: set<string>, f: Finding)
    ensures f in Unseen(fs, seen) <==> f in fs && Fingerprint(f) !in seen
  {
    hide Fingerprint;
    if fs != [] {
      UnseenMembers(fs[..|fs| - 1], seen, f);
      assert fs == fs[..|fs| - 1] + [fs[|fs| - 1]];
    }
  }

  lemma UnseenPrints(fs: seq<Finding>, seen: set<string>)
    ensures Prints(Unseen(fs, seen)) == Prints(fs) - seen
  {
    hide Fingerprint, Unseen;
    forall f ensures f in Unseen(fs, seen) <==> f in fs && Fingerprint(f) !in seen {
      UnseenMembers(fs, seen, f);
    }
    forall p | p in Prints(fs) - seen ensures p in Prints(Unseen(fs, seen)) {
      var f :| f in fs && Fingerprint(f) == p;
      assert f in Unseen(fs, seen);
    }
  }

  /** Together they are a patch: taking the resolved fingerprints out of the baseline and putting the new ones in gives
      the fingerprints of the scan, and the two never overlap. */
  lemma PatchLaw(current: seq<Finding>, baseline: seq<Finding>)
    ensures var added, resolved := Unseen(current, Prints(baseline)), Unseen(baseline, Prints(current));
            && Prints(current) == (Prints(baseline) - Prints(resolved)) + Prints(added)
            && Prints(added) !! Prints(baseline) && Prints(resolved) !! Prints(current)
  {
    hide Prints, Unseen;
    UnseenPrints(current, Prints(baseline));
    UnseenPrints(baseline, Prints(current));
  }

  /** A scan compared with itself, or with more, adds nothing. */
  lemma NothingNew(current: seq<Finding>, baseline: seq<Finding>)
    ensures Unseen(current, Prints(baseline)) == [] <==> Prints(current) <= Prints(baseline)
  {
    hide Fingerprint;
    var added := Unseen(current, Prints(baseline));
    UnseenPrints(current, Prints(baseline));
    if added != [] {
      assert Fingerprint(added[0]) in Prints(added);
    } else {
      assert Prints(added) == {};
    }
  }

  /** Comparing works part by part, so that what is new keeps its order and its repetitions. */
  lemma {:induction false} UnseenConcat(a: seq<Finding>, b: seq<Finding>, seen: set<string>)
    ensures Unseen(a + b, seen) == Unseen(a, seen) + Unseen(b, seen)
  {
    hide Fingerprint;
    if b == [] {
      assert a + b == a;
    } else {
      assert (a + b)[..|a + b| - 1] == a + b[..|b| - 1];
      UnseenConcat(a, b[..|b| - 1], seen);
    }
  }

  /** A finding of the scan is new, on its parts, exactly when the baseline has none of its rule, file and algorithm
      name. */
  lemma NewOnComponents(current: seq<Finding>, baseline: seq<Finding>, f: Finding)
    requires Unambiguous(f) && forall g | g in baseline :: Unambiguous(g)
    ensures f in Unseen(current, Prints(baseline)) <==>
            f in current && !exists g :: g in baseline && g.rule == f.rule && g.file == f.file
                                         && AlgorithmName(g.algorithm) == AlgorithmName(f.algorithm)
  {
    hide Fingerprint, AlgorithmName;
    UnseenMembers(current, Prints(baseline), f);
    forall g | g in baseline ensures Fingerprint(g) == Fingerprint(f) <==> SameParts(f, g) {
      FingerprintIsComponents(f, g);
    }
  }
}
