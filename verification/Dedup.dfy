/** Collapsing duplicate dependency findings (internal/deps/dedup.go): the in-place pass with its index map, and the
    closed form it computes. */
module Deduplication {
  import opened Findings
  import opened Paths
  import opened Text

  const MANIFEST_PRIORITY: map<string, nat> := map[
    "uv.lock" := 50, "poetry.lock" := 40, "Pipfile.lock" := 30, "pyproject.toml" := 20, "requirements.txt" := 10,
    "yarn.lock" := 20, "package-lock.json" := 10, "go.mod" := 10, "pom.xml" := 10, "build.gradle" := 10,
    "build.gradle.kts" := 10, "libs.versions.toml" := 20, "Cargo.lock" := 10, "Gemfile.lock" := 10,
    "composer.lock" := 10]

  /** The rank of the manifest a finding comes from; zero for a file that is not listed. */
  function Priority(f: Finding): nat {
    var base := Base(f.file);
    if base in MANIFEST_PRIORITY then MANIFEST_PRIORITY[base] else 0
  }

  function DepPackageName(algo: string): string {
    var i := Index(algo, ' ');
    if i > 0 then algo[..i] else algo
  }

  predicate IsDep(f: Finding) { HasPrefix(f.rule, "FIPS-DEP-") }

  datatype Key = Key(rule: string, pkg: string)

  function KeyOf(f: Finding): Key { Key(f.rule, DepPackageName(f.algorithm)) }

  // ----- The closed form ------------------------------------------------------------------

  /** A place in the result: a code finding, or the dependency findings of one key. */
  datatype Slot = Code(finding: Finding) | Dep(key: Key)

  function SlotOf(f: Finding): Slot { if IsDep(f) then Dep(KeyOf(f)) else Code(f) }

  function Slots(fs: seq<Finding>): (r: seq<Slot>)
    ensures |r| == |fs|
  {
    seq(|fs|, i requires 0 <= i < |fs| => SlotOf(fs[i]))
  }

  /** A place for a slot, unless it is the slot of a key that has one. */
  function Place(slots: seq<Slot>, s: Slot): seq<Slot> {
    if s.Dep? && s in slots then slots else slots + [s]
  }

  function PlaceAll(slots: seq<Slot>, more: seq<Slot>): seq<Slot> {
    if more == [] then slots else Place(PlaceAll(slots, more[..|more| - 1]), more[|more| - 1])
  }

  /** The places of the result: every code finding, and each key where it first occurs. */
  function Skeleton(fs: seq<Finding>): seq<Slot> { PlaceAll([], Slots(fs)) }

  /** The finding kept for a key: a later one only if its manifest ranks strictly higher. */
  function Best(fs: seq<Finding>, k: Key): Option<Finding> {
    if fs == [] then None
    else Better(Best(fs[..|fs| - 1], k), Offered(fs[|fs| - 1], k))
  }

  function Offered(f: Finding, k: Key): Option<Finding> {
    if SlotOf(f) == Dep(k) then Some(f) else None
  }

  function Better(a: Option<Finding>, b: Option<Finding>): Option<Finding> {
    if a.None? then b
    else if b.None? || Priority(b.value) <= Priority(a.value) then a
    else b
  }

  predicate Filled(slots: seq<Slot>, fs: seq<Finding>, out: seq<Finding>) {
    && |out| == |slots|
    && forall j | 0 <= j < |out| :: Fills(slots[j], fs, out[j])
  }

  predicate Fills(s: Slot, fs: seq<Finding>, f: Finding) {
    match s
    case Code(g) => f == g
    case Dep(k) => Best(fs, k) == Some(f)
  }

  lemma {:induction false} BestExists(fs: seq<Finding>, k: Key)
    ensures Best(fs, k).Some? <==> Dep(k) in Slots(fs)
    ensures Best(fs, k).Some? ==> SlotOf(Best(fs, k).value) == Dep(k)
  {
    if fs != [] {
      var init, last := fs[..|fs| - 1], fs[|fs| - 1];
      BestExists(init, k);
      assert Slots(fs) == Slots(init) + [SlotOf(last)];
    }
  }

  /** The finding kept is the earliest of those of maximal manifest priority. */
  lemma {:induction false} BestIsEarliestMaximum(fs: seq<Finding>, k: Key) returns (i: nat)
    requires Dep(k) in Slots(fs)
    ensures i < |fs| && Best(fs, k) == Some(fs[i]) && SlotOf(fs[i]) == Dep(k)
    ensures forall j | 0 <= j < |fs| && SlotOf(fs[j]) == Dep(k) ::
              if j < i then Priority(fs[j]) < Priority(fs[i]) else Priority(fs[j]) <= Priority(fs[i])
  {
    hide Priority, SlotOf;
    var init, last := fs[..|fs| - 1], fs[|fs| - 1];
    assert Slots(fs) == Slots(init) + [SlotOf(last)];
    BestExists(init, k);
    if Dep(k) in Slots(init) {
      i := BestIsEarliestMaximum(init, k);
      if SlotOf(last) == Dep(k) && Priority(last) > Priority(init[i]) {
        i := |init|;
      }
    } else {
      i := |init|;
      forall j | 0 <= j < |init| ensures SlotOf(fs[j]) != Dep(k) {
        assert Slots(init)[j] == SlotOf(fs[j]);
      }
    }
  }

  lemma {:induction false} PlaceAllMembers(slots: seq<Slot>, more: seq<Slot>, s: Slot)
    ensures s in PlaceAll(slots, more) <==> s in slots || s in more
  {
    if more != [] {
      PlaceAllMembers(slots, more[..|more| - 1], s);
      assert more == more[..|more| - 1] + [more[|more| - 1]];
    }
  }

  /** The closed form. */
  function Value(s: Slot, fs: seq<Finding>): Finding
    requires s.Dep? ==> s in Slots(fs)
  {
    match s
    case Code(g) => g
    case Dep(k) => BestExists(fs, k); Best(fs, k).value
  }

  lemma SkeletonMembers(fs: seq<Finding>)
    ensures forall s :: s in Skeleton(fs) <==> s in Slots(fs)
  {
    forall s ensures s in Skeleton(fs) <==> s in Slots(fs) {
      PlaceAllMembers([], Slots(fs), s);
    }
  }

  function Deduped(fs: seq<Finding>): (out: seq<Finding>)
    ensures |out| == |Skeleton(fs)|
  {
    SkeletonMembers(fs);
    seq(|Skeleton(fs)|, j requires 0 <= j < |Skeleton(fs)| => Value(Skeleton(fs)[j], fs))
  }

  lemma FilledIsDeduped(fs: seq<Finding>, out: seq<Finding>)
    requires Filled(Skeleton(fs), fs, out)
    ensures out == Deduped(fs)
  {
    hide Skeleton;
    forall j | 0 <= j < |out| ensures out[j] == Deduped(fs)[j] {
      assert Fills(Skeleton(fs)[j], fs, out[j]);
    }
  }

  // ----- The pass ---------------------------------------------------------------------------

  /** What the index map must say: where each key's place is. */
  ghost predicate Indexes(best: map<Key, nat>, slots: seq<Slot>) {
    && (forall k | k in best :: best[k] < |slots| && slots[best[k]] == Dep(k))
    && (forall k :: Dep(k) in slots ==> k in best)
  }

  lemma SkeletonOfNothing()
    ensures Skeleton([]) == []
  {}

  lemma SkeletonOneMore(fs: seq<Finding>, i: nat)
    requires i < |fs|
    ensures Skeleton(fs[..i + 1]) == Place(Skeleton(fs[..i]), SlotOf(fs[i]))
  {
    hide SlotOf;
    assert Slots(fs[..i + 1])[..i] == Slots(fs[..i]);
  }

  lemma BestOneMore(fs: seq<Finding>, i: nat, k: Key)
    requires i < |fs|
    ensures Best(fs[..i + 1], k) == Better(Best(fs[..i], k), Offered(fs[i], k))
  {
    assert fs[..i + 1][..i] == fs[..i];
  }

  /** Places of other keys are not affected by a finding. */
  lemma FillsStays(s: Slot, fs: seq<Finding>, i: nat, f: Finding)
    requires i < |fs| && Fills(s, fs[..i], f) && (s.Dep? ==> s != SlotOf(fs[i]))
    ensures Fills(s, fs[..i + 1], f)
  {
    if s.Dep? {
      BestOneMore(fs, i, s.key);
    }
  }

  lemma {:induction false} PlaceAllDistinct(more: seq<Slot>)
    ensures forall i, j | 0 <= i < j < |PlaceAll([], more)| :: PlaceAll([], more)[i].Dep? ==>
              PlaceAll([], more)[i] != PlaceAll([], more)[j]
  {
    if more != [] {
      PlaceAllDistinct(more[..|more| - 1]);
    }
  }

  method Dedup(fs: seq<Finding>) returns (out: seq<Finding>)
    ensures out == Deduped(fs)
  {
    hide Skeleton, Priority, Best, KeyOf, IsDep;
    var best: map<Key, nat> := map[];
    out := [];
    SkeletonOfNothing();
    assert fs[..0] == [];
    for i := 0 to |fs|
      invariant Filled(Skeleton(fs[..i]), fs[..i], out)
      invariant Indexes(best, Skeleton(fs[..i]))
    {
      ghost var slots := Skeleton(fs[..i]);
      var f := fs[i];
      SkeletonOneMore(fs, i);
      if !IsDep(f) {
        KeepFilled(fs, i, out);
        out := out + [f];
        continue;
      }
      var k := KeyOf(f);
      BestOneMore(fs, i, k);
      SkeletonMembers(fs[..i]);
      BestExists(fs[..i], k);
      if k in best {
        var existing := best[k];
        assert Fills(slots[existing], fs[..i], out[existing]);
        ReplaceFilled(fs, i, out, existing, k);
        if Priority(f) > Priority(out[existing]) {
          out := out[existing := f];
        }
        continue;
      }
      KeepFilled(fs, i, out);
      best := best[k := |out|];
      out := out + [f];
    }
    assert fs[..|fs|] == fs;
    FilledIsDeduped(fs, out);
  }

  lemma KeepFilled(fs: seq<Finding>, i: nat, out: seq<Finding>)
    requires i < |fs| && Filled(Skeleton(fs[..i]), fs[..i], out)
    requires SlotOf(fs[i]).Dep? ==> SlotOf(fs[i]) !in Skeleton(fs[..i])
    ensures Filled(Skeleton(fs[..i + 1]), fs[..i + 1], out + [fs[i]])
  {
    hide Skeleton, IsDep, KeyOf, Best, Priority;
    var slots, f := Skeleton(fs[..i]), fs[i];
    SkeletonOneMore(fs, i);
    forall j | 0 <= j < |out| ensures Fills(slots[j], fs[..i + 1], out[j]) {
      assert Fills(slots[j], fs[..i], out[j]);
      FillsStays(slots[j], fs, i, out[j]);
    }
    if IsDep(f) {
      SkeletonMembers(fs[..i]);
      BestExists(fs[..i], KeyOf(f));
      BestOneMore(fs, i, KeyOf(f));
    }
  }

  lemma ReplaceFilled(fs: seq<Finding>, i: nat, out: seq<Finding>, existing: nat, k: Key)
    requires i < |fs| && Filled(Skeleton(fs[..i]), fs[..i], out) && SlotOf(fs[i]) == Dep(k)
    requires existing < |out| && Skeleton(fs[..i])[existing] == Dep(k)
    ensures Filled(Skeleton(fs[..i + 1]), fs[..i + 1],
                   if Priority(fs[i]) > Priority(out[existing]) then out[existing := fs[i]] else out)
  {
    hide Skeleton, SlotOf, Best, Priority;
    var slots, f := Skeleton(fs[..i]), fs[i];
    SkeletonOneMore(fs, i);
    BestOneMore(fs, i, k);
    assert Fills(slots[existing], fs[..i], out[existing]);
    forall j | 0 <= j < |out| && j != existing ensures Fills(slots[j], fs[..i + 1], out[j]) {
      OnePlace(fs[..i], j, existing);
      assert Fills(slots[j], fs[..i], out[j]);
      FillsStays(slots[j], fs, i, out[j]);
    }
  }

  lemma OnePlace(fs: seq<Finding>, i: nat, j: nat)
    requires i < |Skeleton(fs)| && j < |Skeleton(fs)| && i != j && Skeleton(fs)[j].Dep?
    ensures Skeleton(fs)[i] != Skeleton(fs)[j]
  {
    PlaceAllDistinct(Slots(fs));
  }

  // ----- Laws -----------------------------------------------------------------------------------

  /** All code findings are kept, in order. */
  function CodeOnly(slots: seq<Slot>): seq<Finding> {
    if slots == [] then []
    else CodeOnly(slots[..|slots| - 1]) + match slots[|slots| - 1] case Code(f) => [f] case Dep(_) => []
  }

  lemma CodeOnlyAppend(slots: seq<Slot>, s: Slot)
    ensures CodeOnly(slots + [s]) == CodeOnly(slots) + match s case Code(f) => [f] case Dep(_) => []
  {
    assert (slots + [s])[..|slots|] == slots;
  }

  lemma {:induction false} PlaceAllKeepsCode(more: seq<Slot>)
    ensures CodeOnly(PlaceAll([], more)) == CodeOnly(more)
  {
    if more != [] {
      PlaceAllKeepsCode(more[..|more| - 1]);
      CodeOnlyAppend(PlaceAll([], more[..|more| - 1]), more[|more| - 1]);
    }
  }

  /** The result's own slots are the skeleton. */
  lemma SlotsOfDeduped(fs: seq<Finding>)
    ensures Slots(Deduped(fs)) == Skeleton(fs)
  {
    hide Skeleton, Best, IsDep, KeyOf;
    SkeletonMembers(fs);
    forall j | 0 <= j < |Skeleton(fs)| ensures SlotOf(Deduped(fs)[j]) == Skeleton(fs)[j] {
      var s := Skeleton(fs)[j];
      if s.Dep? {
        BestExists(fs, s.key);
      } else {
        CodeSlot(fs, s);
      }
    }
  }

  lemma CodeSlot(fs: seq<Finding>, s: Slot)
    requires s in Slots(fs) && s.Code?
    ensures SlotOf(s.finding) == s
  {
    var i :| 0 <= i < |fs| && Slots(fs)[i] == s;
  }

  lemma CodeFindingsKept(fs: seq<Finding>)
    ensures CodeOnly(Slots(Deduped(fs))) == CodeOnly(Slots(fs))
  {
    SlotsOfDeduped(fs);
    PlaceAllKeepsCode(Slots(fs));
  }

  lemma {:induction false} PlaceAllConcat(slots: seq<Slot>, a: seq<Slot>, b: seq<Slot>)
    ensures PlaceAll(slots, a + b) == PlaceAll(PlaceAll(slots, a), b)
  {
    if b == [] {
      assert a + b == a;
    } else {
      assert (a + b)[..|a + b| - 1] == a + b[..|b| - 1];
      PlaceAllConcat(slots, a, b[..|b| - 1]);
    }
  }

  /** Placing the places of a list does what placing the list does. */
  lemma {:induction false} PlaceAllTwice(slots: seq<Slot>, more: seq<Slot>)
    ensures PlaceAll(slots, PlaceAll([], more)) == PlaceAll(slots, more)
  {
    if more != [] {
      var init, last := more[..|more| - 1], more[|more| - 1];
      var places := PlaceAll([], init);
      PlaceAllTwice(slots, init);
      if last.Dep? && last in places {
        PlaceAllMembers([], init, last);
        PlaceAllMembers(slots, init, last);
      } else {
        assert (places + [last])[..|places|] == places;
      }
    }
  }

  lemma BetterAssociative(a: Option<Finding>, b: Option<Finding>, c: Option<Finding>)
    ensures Better(Better(a, b), c) == Better(a, Better(b, c))
  {
    hide Priority;
  }

  lemma BetterThanNothing(x: Option<Finding>)
    ensures Better(x, None) == x
  {}

  lemma {:induction false} BestConcat(a: seq<Finding>, b: seq<Finding>, k: Key)
    ensures Best(a + b, k) == Better(Best(a, k), Best(b, k))
  {
    hide Better, Offered;
    BetterThanNothing(Best(a, k));
    if b == [] {
      assert a + b == a;
    } else {
      assert (a + b)[..|a + b| - 1] == a + b[..|b| - 1];
      BestConcat(a, b[..|b| - 1], k);
      BetterAssociative(Best(a, k), Best(b[..|b| - 1], k), Offered(b[|b| - 1], k));
    }
  }

  lemma {:induction false} BestOfOne(fs: seq<Finding>, i: nat, k: Key)
    requires i < |fs| && SlotOf(fs[i]) == Dep(k)
    requires forall j | 0 <= j < |fs| && j != i :: SlotOf(fs[j]) != Dep(k)
    ensures Best(fs, k) == Some(fs[i])
  {
    hide SlotOf, Priority;
    if i < |fs| - 1 {
      BestOfOne(fs[..|fs| - 1], i, k);
    } else {
      BestExists(fs[..i], k);
    }
  }

  /** Deduplication does not change which finding is kept for a key. */
  lemma BestOfDeduped(fs: seq<Finding>, k: Key)
    ensures Best(Deduped(fs), k) == Best(fs, k)
  {
    hide Skeleton, SlotOf, Best;
    SlotsOfDeduped(fs);
    SkeletonMembers(fs);
    BestExists(fs, k);
    BestExists(Deduped(fs), k);
    if Dep(k) in Skeleton(fs) {
      var i :| 0 <= i < |Skeleton(fs)| && Skeleton(fs)[i] == Dep(k);
      var out := Deduped(fs);
      forall j | 0 <= j < |out| ensures SlotOf(out[j]) == Skeleton(fs)[j] {
        assert Slots(out)[j] == SlotOf(out[j]);
      }
      forall j | 0 <= j < |out| && j != i ensures SlotOf(out[j]) != Dep(k) {
        OnePlace(fs, j, i);
      }
      BestOfOne(out, i, k);
    }
  }

  lemma SlotsConcat(a: seq<Finding>, b: seq<Finding>)
    ensures Slots(a + b) == Slots(a) + Slots(b)
  {}

  /** The same places and the same best findings give the same result. */
  lemma DedupedBy(a: seq<Finding>, b: seq<Finding>)
    requires Skeleton(a) == Skeleton(b) && forall k :: Best(a, k) == Best(b, k)
    ensures Deduped(a) == Deduped(b)
  {
    hide Skeleton, Best;
    SkeletonMembers(a);
    SkeletonMembers(b);
    forall j | 0 <= j < |Skeleton(a)| ensures Deduped(a)[j] == Deduped(b)[j] {
      var s := Skeleton(a)[j];
      assert s in Skeleton(a);
      assert Value(s, a) == Value(s, b);
    }
  }

  /** Deduplicating the parts of a scan first changes nothing. */
  lemma DedupOfParts(a: seq<Finding>, b: seq<Finding>)
    ensures Deduped(a + b) == Deduped(Deduped(a) + Deduped(b))
  {
    var x, y := Deduped(a), Deduped(b);
    assert Skeleton(a + b) == Skeleton(x + y) by {
      hide Deduped, Slots;
      SlotsConcat(a, b);
      SlotsConcat(x, y);
      SlotsOfDeduped(a);
      SlotsOfDeduped(b);
      PlaceAllConcat([], Slots(a), Slots(b));
      PlaceAllConcat([], Slots(x), Slots(y));
      PlaceAllTwice([], Slots(a));
      PlaceAllTwice(Skeleton(a), Slots(b));
    }
    forall k ensures Best(a + b, k) == Best(x + y, k) {
      hide Best, Better, Deduped;
      BestConcat(a, b, k);
      BestConcat(x, y, k);
      BestOfDeduped(a, k);
      BestOfDeduped(b, k);
    }
    hide Best, Skeleton, Deduped;
    DedupedBy(a + b, x + y);
  }

  /** Deduplicating twice is deduplicating once. */
  lemma DedupIdempotent(fs: seq<Finding>)
    ensures Deduped(Deduped(fs)) == Deduped(fs)
  {
    DedupOfParts(fs, []);
    assert Deduped([]) == [];
    assert fs + [] == fs && Deduped(fs) + [] == Deduped(fs);
  }

  // ----- Keys and priorities in plain terms ------------------------------------------------------

  /** The scan writes a dependency as its name and its version: deduplication sees the name again. */
  lemma PackageOfDisplay(name: string, version: string)
    requires ' ' !in name
    ensures DepPackageName(name) == name
    ensures DepPackageName(name + " " + version) == if name == "" then " " + version else name
  {
    IndexAfter(name, ' ', version);
    assert name + " " + version == name + [' '] + version;
    assert (name + " " + version)[..|name|] == name;
  }

  /** The name of a file in a directory. */
  lemma BaseOfFile(dir: string, name: string)
    requires name != "" && '/' !in name
    ensures Base(dir + "/" + name) == name && Base(name) == name
  {
    var p := dir + ['/'] + name;
    assert p == dir + "/" + name && p[|p| - 1] == name[|name| - 1] && !IsSlash(name[|name| - 1]);
    LastIndexBefore(dir, '/', name);
    assert p[|dir| + 1..] == name;
    assert TrimRight(p, IsSlash) == p && TrimRight(name, IsSlash) == name;
  }

  function InFile(f: Finding, dir: string, name: string): Finding { f.(file := dir + "/" + name) }

  lemma PriorityInFile(f: Finding, dir: string, name: string)
    requires name != "" && '/' !in name
    ensures Priority(InFile(f, dir, name)) == if name in MANIFEST_PRIORITY then MANIFEST_PRIORITY[name] else 0
  {
    hide Base;
    BaseOfFile(dir, name);
  }

  /** Lock files outrank the manifests they are made from, whatever directories they stand in. */
  lemma PythonOrder(f: Finding, d1: string, d2: string, d3: string, d4: string, d5: string)
    ensures Priority(InFile(f, d1, "uv.lock")) > Priority(InFile(f, d2, "poetry.lock"))
              > Priority(InFile(f, d3, "Pipfile.lock")) > Priority(InFile(f, d4, "pyproject.toml"))
              > Priority(InFile(f, d5, "requirements.txt")) > 0
  {
    hide Priority, InFile;
    PythonLocks(f, d1, d2, d3);
    PythonManifests(f, d3, d4, d5);
  }

  lemma PythonLocks(f: Finding, d1: string, d2: string, d3: string)
    ensures Priority(InFile(f, d1, "uv.lock")) > Priority(InFile(f, d2, "poetry.lock"))
              > Priority(InFile(f, d3, "Pipfile.lock"))
  {
    hide Priority;
    PriorityInFile(f, d1, "uv.lock");
    PriorityInFile(f, d2, "poetry.lock");
    PriorityInFile(f, d3, "Pipfile.lock");
  }

  lemma PythonManifests(f: Finding, d3: string, d4: string, d5: string)
    ensures Priority(InFile(f, d3, "Pipfile.lock")) > Priority(InFile(f, d4, "pyproject.toml"))
              > Priority(InFile(f, d5, "requirements.txt")) > 0
  {
    hide Priority;
    PriorityInFile(f, d3, "Pipfile.lock");
    PriorityInFile(f, d4, "pyproject.toml");
    PriorityInFile(f, d5, "requirements.txt");
  }

  lemma NodeOrder(f: Finding, d1: string, d2: string)
    ensures Priority(InFile(f, d1, "yarn.lock")) > Priority(InFile(f, d2, "package-lock.json")) > 0
  {
    hide Priority;
    PriorityInFile(f, d1, "yarn.lock");
    PriorityInFile(f, d2, "package-lock.json");
  }

  lemma GradleOrder(f: Finding, d1: string, d2: string, d3: string)
    ensures Priority(InFile(f, d1, "libs.versions.toml")) > Priority(InFile(f, d2, "build.gradle"))
              == Priority(InFile(f, d3, "build.gradle.kts")) > 0
  {
    hide Priority;
    PriorityInFile(f, d1, "libs.versions.toml");
    PriorityInFile(f, d2, "build.gradle");
    PriorityInFile(f, d3, "build.gradle.kts");
  }

  /** The findings of rules that are not about dependencies. */
  function Others(fs: seq<Finding>): seq<Finding> {
    if fs == [] then []
    else
      var last := fs[|fs| - 1];
      Others(fs[..|fs| - 1]) + if HasPrefix(last.rule, "FIPS-DEP-") then [] else [last]
  }

  lemma {:induction false} OthersAreCode(fs: seq<Finding>)
    ensures Others(fs) == CodeOnly(Slots(fs))
  {
    hide KeyOf, HasPrefix;
    if fs != [] {
      OthersAreCode(fs[..|fs| - 1]);
      assert Slots(fs)[..|fs| - 1] == Slots(fs[..|fs| - 1]);
    }
  }

  /** They pass through untouched, in order. */
  lemma OthersKept(fs: seq<Finding>)
    ensures Others(Deduped(fs)) == Others(fs)
  {
    hide Others, Deduped, Slots;
    CodeFindingsKept(fs);
    OthersAreCode(fs);
    OthersAreCode(Deduped(fs));
  }
}
