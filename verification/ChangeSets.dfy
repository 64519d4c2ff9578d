/** The layer model of the OCI Image Format Specification, layer section ("Applying Changesets", "Whiteouts",
    "Opaque Whiteout"), on paths as lists of segments, and when the streaming overlay computes it. */
module ChangeSets {
  import opened Bytes
  import opened Text
  import opened Paths
  import opened Layers
  import opened Overlay

  // ----- The specification ------------------------------------------------------------

  type Path = seq<string>

  /** The path an entry name stands for: empty and `.` segments do not count. */
  function PathOf(name: string): Path { Significant(Split(name, '/')) }

  predicate Whiteouts(path: Path) {
    path != [] && HasPrefix(path[|path| - 1], ".wh.")
  }

  /** The whiteout hides the file at path k of the layers below: a whole path with all under it, or, for the opaque
      marker, everything under its directory. */
  predicate Hides(path: Path, k: Path) {
    && Whiteouts(path)
    && var dir, last := path[..|path| - 1], path[|path| - 1];
       if last == ".wh..wh..opq" then dir < k else dir + [last[4..]] <= k
  }

  /** The entry is the layer's own version of the path. */
  predicate At(e: Entry, k: Path) {
    !Whiteouts(PathOf(e.name)) && PathOf(e.name) == k
  }

  /** The entry puts something other than a directory above the path. */
  predicate Blocks(e: Entry, k: Path) {
    !Whiteouts(PathOf(e.name)) && PathOf(e.name) < k && !e.kind.Directory?
  }

  function LastAt(es: seq<Entry>, k: Path): Option<Entry> {
    if es == [] then None
    else if At(es[|es| - 1], k) then Some(es[|es| - 1])
    else LastAt(es[..|es| - 1], k)
  }

  predicate Hidden(es: seq<Entry>, k: Path) {
    exists i | 0 <= i < |es| :: Hides(PathOf(es[i].name), k) || Blocks(es[i], k)
  }

  /** The contents of the regular file at a path in the assembled image: the topmost layer that has the path
      decides; a whiteout hides what is in the layers below it, never what its own layer adds. */
  function OciFile(layers: seq<Layer>, k: Path): Option<seq<Byte>> {
    if layers == [] then None
    else
      var top := layers[|layers| - 1].entries;
      match LastAt(top, k)
      case Some(e) => if e.kind.Regular? then Some(e.data) else None
      case None => if Hidden(top, k) then None else OciFile(layers[..|layers| - 1], k)
  }

  // ----- Path functions of the code, on segments -----------------------------------------

  predicate Plain(s: string) { Segment(s) && s != "." && s != ".." }

  predicate Normal(path: Path) {
    path != [] && forall i | 0 <= i < |path| :: Plain(path[i])
  }

  lemma {:induction false} SignificantKeeps(parts: seq<string>)
    requires forall i | 0 <= i < |parts| :: Plain(parts[i])
    ensures Significant(parts) == parts
  {
    if parts != [] {
      SignificantKeeps(parts[1..]);
    }
  }

  lemma {:induction false} SignificantConcat(a: seq<string>, b: seq<string>)
    ensures Significant(a + b) == Significant(a) + Significant(b)
  {
    if a == [] {
      assert a + b == b;
    } else {
      assert (a + b)[1..] == a[1..] + b;
      SignificantConcat(a[1..], b);
    }
  }

  lemma SignificantOne(name: string)
    ensures Significant([name]) == if name == "" || name == "." then [] else [name]
  {
    assert [name][1..] == [];
  }

  /** A relative directory and a name, cleaned. */
  lemma CleanOf(dir: Path, name: string)
    requires Normal(dir) && (name == "" || Plain(name))
    ensures Clean(PathText(dir) + "/" + name) == PathText(dir + if name == "" then [] else [name])
  {
    hide Split, Join, Significant;
    var s := PathText(dir) + "/" + name;
    SplitConcat(dir, name);
    SplitWhole(name, '/');
    SignificantKeeps(dir);
    SignificantConcat(dir, [name]);
    SignificantOne(name);
    TextNotSlashed(dir);
    assert s[0] == PathText(dir)[0];
    var path := dir + if name == "" then [] else [name];
    assert Significant(Split(s, '/')) == path;
    TextNotSlashed(path);
  }

  lemma BaseOf(path: Path)
    requires Normal(path)
    ensures Base(PathText(path)) == path[|path| - 1]
  {
    var p, last := PathText(path), path[|path| - 1];
    TextNotSlashed(path);
    assert TrimRight(p, IsSlash) == p;
    if |path| > 1 {
      TextEnds(path);
      var init := PathText(path[..|path| - 1]);
      LastIndexBefore(init, '/', last);
      assert p == init + ['/'] + last;
    }
  }

  lemma DirOf(path: Path)
    requires Normal(path)
    ensures Dir(PathText(path)) == if |path| == 1 then "." else PathText(path[..|path| - 1])
  {
    var p, last := PathText(path), path[|path| - 1];
    if |path| > 1 {
      TextEnds(path);
      var init := PathText(path[..|path| - 1]);
      LastIndexBefore(init, '/', last);
      assert p == init + ['/'] + last;
      assert p[..|init| + 1] == init + "/" + "";
      CleanOf(path[..|path| - 1], "");
      assert path[..|path| - 1] + [] == path[..|path| - 1];
    } else {
      assert p[..0] == "";
      CleanEmpty();
    }
  }

  lemma CleanEmpty()
    ensures Clean("") == "."
  {
    assert Split("", '/') == [""];
    assert [""][1..] == [];
  }

  lemma CleanHere(name: string)
    requires Plain(name)
    ensures Clean("." + "/" + name) == name
  {
    hide Split, Significant;
    var s := "." + "/" + name;
    SplitFirst(".", '/', name);
    assert "." + ['/'] + name == s;
    SplitWhole(name, '/');
    SignificantConcat(["."], [name]);
    SignificantOne(".");
    SignificantOne(name);
    assert Significant(Split(s, '/')) == [name];
    assert s[0] == '.';
  }

  lemma TargetOf(path: Path)
    requires Normal(path) && Whiteouts(path) && Plain(path[|path| - 1][4..])
    ensures WhiteoutTarget(PathText(path)) == PathText(path[..|path| - 1] + [path[|path| - 1][4..]])
  {
    hide Base, Dir, Clean;
    var dir, name := path[..|path| - 1], path[|path| - 1][4..];
    BaseOf(path);
    DirOf(path);
    if |path| > 1 {
      CleanOf(dir, name);
    } else {
      CleanHere(name);
      assert dir + [name] == [name];
    }
  }

  /** The whiteout is the opaque marker, or it names something. */
  predicate Proper(path: Path) {
    Normal(path) && Whiteouts(path) && (path[|path| - 1] == OPAQUE || Plain(path[|path| - 1][4..]))
  }

  /** What the code takes a whiteout to cover: the files below a directory other than the root, or one single path. */
  lemma CoversIs(path: Path, k: Path)
    requires Proper(path) && Normal(k)
    ensures var dir, last := path[..|path| - 1], path[|path| - 1];
            Covers(PathText(path), PathText(k)) <==>
            if last == OPAQUE then dir != [] && dir < k else k == dir + [last[4..]]
  {
    hide Base, Dir, WhiteoutTarget;
    var dir, last := path[..|path| - 1], path[|path| - 1];
    BaseOf(path);
    if last == OPAQUE {
      DirOf(path);
      if dir == [] {
        NotBelowHere(k);
      } else {
        BelowIsAncestry(dir, k);
      }
    } else {
      TargetOf(path);
      TextInjective(k, dir + [last[4..]]);
    }
  }

  /** A normal path does not start with the text of the current directory. */
  lemma NotBelowHere(k: Path)
    requires Normal(k)
    ensures !HasPrefix(PathText(k), "./") && !HasPrefix(PathText(k), "/")
  {
    var text, first := PathText(k), k[0];
    assert Plain(first);
    TextNotSlashed(k);
    PrefixChars(text, "./");
    PrefixChars(text, "/");
    assert |k| > 1 ==> text == first + "/" + PathText(k[1..]);
    assert |first| > 1 ==> text[1] == first[1] && first[1] != '/';
  }

  // ----- Entries as the specification expects them ------------------------------------------

  /** The code reads the entry's name as the path it stands for. */
  predicate Canonical(e: Entry) {
    var path := PathOf(e.name);
    if path == [] then DocumentedPath(e.name) == ""
    else Normal(path) && DocumentedPath(e.name) == PathText(path)
  }

  /** A directory entry, which the code passes over however its name is written. */
  predicate PlainDirectory(e: Entry) {
    && e.kind.Directory? && !Whiteouts(PathOf(e.name))
    && (DocumentedPath(e.name) != "" ==> !IsWhiteout(DocumentedPath(e.name)))
  }

  /** The entry is named as the specification has it: by a path, and a whiteout names something. */
  predicate WellNamed(e: Entry) {
    (Canonical(e) || PlainDirectory(e)) && (Whiteouts(PathOf(e.name)) ==> Proper(PathOf(e.name)))
  }

  /** The entry takes away what the layers below have at k. */
  predicate Clears(e: Entry, k: Path) {
    Hides(PathOf(e.name), k) || Blocks(e, k)
  }

  predicate WellNamedImage(layers: seq<Layer>) {
    forall i, j | 0 <= i < |layers| && 0 <= j < |layers[i].entries| :: WellNamed(layers[i].entries[j])
  }

  /** A path of the table of tracked files. */
  predicate Tracked(k: Path, interesting: set<string>) {
    Normal(k) && !Whiteouts(k) && PathText(k) in interesting
  }

  // ----- The specification's closed form ---------------------------------------------------------

  /** An entry and the number of its layer. */
  datatype Placed = Placed(layer: nat, e: Entry)

  function PlacedIn(layer: nat, es: seq<Entry>): (ps: seq<Placed>)
    ensures |ps| == |es|
  {
    seq(|es|, i requires 0 <= i < |es| => Placed(layer, es[i]))
  }

  /** The stream of entries of an image, each with the number of its layer. */
  function Placing(layers: seq<Layer>): seq<Placed> {
    if layers == [] then []
    else Placing(layers[..|layers| - 1]) + PlacedIn(|layers| - 1, layers[|layers| - 1].entries)
  }

  lemma {:induction false} PlacingIsStream(layers: seq<Layer>)
    ensures |Placing(layers)| == |Stream(layers)|
    ensures forall i | 0 <= i < |Placing(layers)| ::
              Placing(layers)[i].e == Stream(layers)[i] && Placing(layers)[i].layer < |layers|
  {
    if layers != [] {
      PlacingIsStream(layers[..|layers| - 1]);
    }
  }

  /** A later entry takes k away from an earlier one: by an entry of its own for k, or, from a layer above, by hiding k
      or by standing in its way. */
  predicate Takes(a: Placed, b: Placed, k: Path) {
    At(b.e, k) || (a.layer < b.layer && Clears(b.e, k))
  }

  /** Entry i puts the file at k, and nothing later takes it away. */
  predicate Stands(ps: seq<Placed>, i: nat, k: Path) {
    && i < |ps| && At(ps[i].e, k) && ps[i].e.kind.Regular?
    && forall j | i < j < |ps| :: !Takes(ps[i], ps[j], k)
  }

  lemma {:induction false} LastAtIs(es: seq<Entry>, k: Path) returns (i: nat)
    requires LastAt(es, k).Some?
    ensures i < |es| && At(es[i], k) && es[i] == LastAt(es, k).value
    ensures forall j | i < j < |es| :: !At(es[j], k)
  {
    hide At;
    if At(es[|es| - 1], k) {
      i := |es| - 1;
    } else {
      i := LastAtIs(es[..|es| - 1], k);
    }
  }

  lemma {:induction false} NoLastAt(es: seq<Entry>, k: Path)
    requires LastAt(es, k) == None
    ensures forall j | 0 <= j < |es| :: !At(es[j], k)
  {
    hide At;
    if es != [] {
      NoLastAt(es[..|es| - 1], k);
    }
  }

  lemma OnlyLastStands(ps: seq<Placed>, n: nat, i: nat, k: Path)
    requires n < |ps| && At(ps[n].e, k) && forall j | n < j < |ps| :: !At(ps[j].e, k)
    requires Stands(ps, i, k)
    ensures i == n
  {
    hide At, Clears;
  }

  /** A layer with an entry of its own for k decides alone. */
  lemma OwnEntryDecides(below: seq<Placed>, layer: nat, es: seq<Entry>, k: Path)
    requires LastAt(es, k).Some?
    ensures var ps, e := below + PlacedIn(layer, es), LastAt(es, k).value;
            && (e.kind.Regular? <==> exists i: nat :: Stands(ps, i, k))
            && forall i: nat | Stands(ps, i, k) :: ps[i].e == e
  {
    hide At, Clears;
    var top := PlacedIn(layer, es);
    var ps := below + top;
    var m := LastAtIs(es, k);
    var n := |below| + m;
    assert ps[n] == Placed(layer, es[m]);
    forall j | n < j < |ps| ensures !Takes(ps[n], ps[j], k) {
      assert ps[j] == Placed(layer, es[j - |below|]);
    }
    if es[m].kind.Regular? {
      assert Stands(ps, n, k);
    }
    assert forall j | n < j < |ps| :: !At(ps[j].e, k);
    forall i: nat | Stands(ps, i, k) ensures i == n {
      OnlyLastStands(ps, n, i, k);
    }
  }

  lemma HiddenIsCleared(es: seq<Entry>, k: Path)
    ensures Hidden(es, k) <==> exists j | 0 <= j < |es| :: Clears(es[j], k)
  {
    hide Hides, Blocks, PathOf;
    if j :| 0 <= j < |es| && Clears(es[j], k) {
      assert Hides(PathOf(es[j].name), k) || Blocks(es[j], k);
    }
    if Hidden(es, k) {
      var j :| 0 <= j < |es| && (Hides(PathOf(es[j].name), k) || Blocks(es[j], k));
      assert Clears(es[j], k);
    }
  }

  /** A layer without an entry for k leaves it alone or hides it. */
  lemma NoEntryPasses(below: seq<Placed>, layer: nat, es: seq<Entry>, i: nat, k: Path)
    requires LastAt(es, k) == None && forall j | 0 <= j < |below| :: below[j].layer < layer
    ensures Stands(below + PlacedIn(layer, es), i, k) <==> Stands(below, i, k) && !Hidden(es, k)
  {
    NoLastAt(es, k);
    HiddenIsCleared(es, k);
    hide At, Clears, Hidden, LastAt;
    var ps := below + PlacedIn(layer, es);
    assert forall j | 0 <= j < |below| :: ps[j] == below[j];
    assert forall j | 0 <= j < |es| :: ps[|below| + j] == Placed(layer, es[j]);
    if Stands(ps, i, k) {
      StandsBelow(below, layer, es, i, k);
      forall j | 0 <= j < |es| ensures !Clears(es[j], k) {
        assert !Takes(ps[i], ps[|below| + j], k);
      }
      forall j | i < j < |below| ensures !Takes(below[i], below[j], k) {
        assert !Takes(ps[i], ps[j], k);
      }
    }
    if Stands(below, i, k) && !Hidden(es, k) {
      forall j | i < j < |ps| ensures !Takes(ps[i], ps[j], k) {
        if j >= |below| {
          assert ps[j].e == es[j - |below|];
        }
      }
    }
  }

  lemma StandsBelow(below: seq<Placed>, layer: nat, es: seq<Entry>, i: nat, k: Path)
    requires Stands(below + PlacedIn(layer, es), i, k) && forall j | 0 <= j < |es| :: !At(es[j], k)
    ensures i < |below|
  {
    hide At, Clears;
    var ps := below + PlacedIn(layer, es);
    assert forall j | 0 <= j < |es| :: ps[|below| + j].e == es[j];
  }

  /** The specification has a file at k exactly when some entry puts it there and nothing later takes it away, and then
      it is that entry's. */
  lemma {:induction false} SpecificationClosedForm(layers: seq<Layer>, k: Path)
    ensures OciFile(layers, k).Some? <==> exists i: nat :: Stands(Placing(layers), i, k)
    ensures forall i: nat | Stands(Placing(layers), i, k) :: OciFile(layers, k) == Some(Placing(layers)[i].e.data)
  {
    hide Stands, LastAt, Hidden, PlacedIn;
    if layers == [] {
      NothingStands(k);
    } else {
      var lower, top := layers[..|layers| - 1], layers[|layers| - 1].entries;
      var below := Placing(lower);
      SpecificationClosedForm(lower, k);
      PlacingIsStream(lower);
      assert Placing(layers) == below + PlacedIn(|layers| - 1, top);
      if LastAt(top, k).Some? {
        OwnEntryDecides(below, |layers| - 1, top, k);
      } else {
        assert OciFile(layers, k) == if Hidden(top, k) then None else OciFile(lower, k);
        forall i: nat
          ensures Stands(Placing(layers), i, k) <==> Stands(below, i, k) && !Hidden(top, k)
          ensures Stands(below, i, k) ==> i < |below| && Placing(layers)[i] == below[i]
        {
          NoEntryPasses(below, |layers| - 1, top, i, k);
          StandsInside(below, i, k);
        }
      }
    }
  }

  lemma NothingStands(k: Path)
    ensures forall i: nat :: !Stands([], i, k)
  {}

  lemma StandsInside(ps: seq<Placed>, i: nat, k: Path)
    ensures Stands(ps, i, k) ==> i < |ps|
  {}

  // ----- Code and specification -------------------------------------------------------------------

  /** The code holds contents at k that are too long for it, or that a later entry took away: an opaque marker, a
      whiteout of a directory, or an entry that is not a regular file, none of which it noticed. */
  ghost predicate Held(ps: seq<Placed>, es: seq<Entry>, k: Path, norm: string -> string, interesting: set<string>)
    requires |ps| == |es|
  {
    exists i: nat :: LiveAt(es, i, PathText(k), norm, interesting)
      && (|es[i].data| > 104857600 || exists j | i < j < |ps| :: Takes(ps[i], ps[j], k))
  }

  /** The code deleted the file that stands at k: for a whiteout of its own layer. */
  ghost predicate Lost(ps: seq<Placed>, k: Path, norm: string -> string) {
    exists i: nat, j: nat :: Stands(ps, i, k) && i < j < |ps| && Deletes(ps[j].e, PathText(k), norm)
  }

  /** The code writes where the specification has a regular file, and deletes only what the specification hides. */
  predicate Agrees(e: Entry, k: Path, norm: string -> string, interesting: set<string>) {
    && (Writes(e, PathText(k), norm, interesting) <==> At(e, k) && e.kind.Regular?)
    && (Deletes(e, PathText(k), norm) ==> Hides(PathOf(e.name), k))
  }

  /** A well-named entry agrees, with names normalised as documented: it is a write where the specification has a file,
      and a deletion where the specification hides k by an opaque marker below the root or by a whiteout of k itself. */
  lemma EntryAgrees(e: Entry, k: Path, interesting: set<string>)
    requires Tracked(k, interesting) && WellNamed(e)
    ensures Agrees(e, k, DocumentedPath, interesting)
    ensures Deletes(e, PathText(k), DocumentedPath) <==>
            var path := PathOf(e.name);
            && Hides(path, k)
            && (if path[|path| - 1] == OPAQUE then |path| > 1 else k == path[..|path| - 1] + [path[|path| - 1][4..]])
  {
    hide DocumentedPath, Base, Covers, Significant, Split, Join;
    var path := PathOf(e.name);
    BaseOf(k);
    TextNotSlashed(k);
    if Canonical(e) && path != [] {
      TextInjective(path, k);
      BaseOf(path);
      TextNotSlashed(path);
      if Whiteouts(path) {
        CoversIs(path, k);
      }
    }
  }

  /** So it does with names normalised as the code does it. */
  lemma EntryAgreesInCode(e: Entry, k: Path, interesting: set<string>)
    requires Tracked(k, interesting) && WellNamed(e) && Trackable(PathText(k))
    ensures Agrees(e, k, NormalizePath, interesting)
  {
    hide Tracked, WellNamed, Trackable, Writes, Deletes, At, Hides, Dropped;
    EntryAgrees(e, k, interesting);
    SameWrites(e, PathText(k), interesting);
  }

  /** A file that nothing later takes away is the code's if the code does not delete it. */
  lemma StandsIsLive(ps: seq<Placed>, es: seq<Entry>, i: nat, k: Path, norm: string -> string, interesting: set<string>)
    requires |ps| == |es| && forall j | 0 <= j < |es| :: ps[j].e == es[j] && Agrees(es[j], k, norm, interesting)
    requires Stands(ps, i, k) && forall j | i < j < |es| :: !Deletes(es[j], PathText(k), norm)
    ensures LiveAt(es, i, PathText(k), norm, interesting)
  {
    hide At, Writes, Deletes, Hides, Clears;
    assert Agrees(es[i], k, norm, interesting);
    forall j | i < j < |es| ensures !Writes(es[j], PathText(k), norm, interesting) {
      assert !Takes(ps[i], ps[j], k) && Agrees(es[j], k, norm, interesting);
    }
  }

  /** Contents that the code holds and nothing later takes away are the specification's. */
  lemma LiveStands(ps: seq<Placed>, es: seq<Entry>, i: nat, k: Path, norm: string -> string, interesting: set<string>)
    requires |ps| == |es| && forall j | 0 <= j < |es| :: ps[j].e == es[j] && Agrees(es[j], k, norm, interesting)
    requires LiveAt(es, i, PathText(k), norm, interesting)
    ensures Stands(ps, i, k) <==> forall j | i < j < |ps| :: !Takes(ps[i], ps[j], k)
    ensures forall m: nat | Stands(ps, m, k) :: m == i
    ensures forall j | i < j < |es| :: !Deletes(es[j], PathText(k), norm)
  {
    hide At, Writes, Deletes, Hides, Clears;
    assert Agrees(es[i], k, norm, interesting);
    forall m: nat | Stands(ps, m, k) ensures m == i {
      assert Agrees(es[m], k, norm, interesting);
    }
  }

  /** For either normalisation: the overlay holds the specification's file, or none where there is none, exactly when
      it neither holds what it should not nor has lost what it should hold. */
  lemma OverlayIsSpecificationIff(layers: seq<Layer>, k: Path, norm: string -> string, interesting: set<string>)
    requires forall j | 0 <= j < |Stream(layers)| :: Agrees(Stream(layers)[j], k, norm, interesting)
    requires |Placing(layers)| == |Stream(layers)|
    ensures Lookup(ApplyAll(map[], Stream(layers), norm, interesting), PathText(k)) == OciFile(layers, k)
            <==> !Held(Placing(layers), Stream(layers), k, norm, interesting) && !Lost(Placing(layers), k, norm)
  {
    hide Agrees, Stands, LiveAt, ApplyAll, Takes, OciFile, Stream, Placing;
    var es, ps := Stream(layers), Placing(layers);
    PlacingIsStream(layers);
    ClosedForm(es, PathText(k), norm, interesting);
    SpecificationClosedForm(layers, k);
    if i: nat :| LiveAt(es, i, PathText(k), norm, interesting) {
      forall m: nat | LiveAt(es, m, PathText(k), norm, interesting) ensures m == i {
        LiveUnique(es, i, m, PathText(k), norm, interesting);
      }
      LiveInside(es, i, PathText(k), norm, interesting);
      LiveStands(ps, es, i, k, norm, interesting);
      assert Held(ps, es, k, norm, interesting) <==>
             |es[i].data| > MAX_FILE_BYTES || exists j | i < j < |ps| :: Takes(ps[i], ps[j], k);
    } else if i: nat :| Stands(ps, i, k) {
      StandsInside(ps, i, k);
      if forall j | i < j < |es| :: !Deletes(es[j], PathText(k), norm) {
        StandsIsLive(ps, es, i, k, norm, interesting);
      } else {
        var j :| i < j < |es| && Deletes(es[j], PathText(k), norm);
        assert Deletes(ps[j].e, PathText(k), norm);
        assert Lost(ps, k, norm);
      }
    }
  }

  lemma LiveInside(es: seq<Entry>, i: nat, k: string, norm: string -> string, interesting: set<string>)
    requires LiveAt(es, i, k, norm, interesting)
    ensures i < |es|
  {}

  function Lookup(files: Files, k: string): Option<seq<Byte>> {
    if k in files then Some(files[k]) else None
  }

  /** The code is right about k. */
  ghost predicate Right(layers: seq<Layer>, k: Path, norm: string -> string, interesting: set<string>) {
    PlacingIsStream(layers);
    !Held(Placing(layers), Stream(layers), k, norm, interesting) && !Lost(Placing(layers), k, norm)
  }

  /** For any image of well-named entries, in any order: the code computes the specification's file at a tracked path,
      or its absence, exactly when it holds nothing there that is too long or was taken away, and has not deleted the
      file for a whiteout of its own layer. */
  lemma CodeIsSpecificationIff(layers: seq<Layer>, k: Path, interesting: set<string>)
    requires Tracked(k, interesting) && WellNamedImage(layers) && !Contains(PathText(k), "..")
    ensures Lookup(ApplyAll(map[], Stream(layers), NormalizePath, interesting), PathText(k)) == OciFile(layers, k)
            <==> Right(layers, k, NormalizePath, interesting)
  {
    TrackedIsTrackable(k, interesting);
    hide Tracked, Trackable, Agrees, OciFile, ApplyAll, Held, Lost, WellNamed, Contains, Stream, Placing;
    StreamNamed(layers);
    PlacingIsStream(layers);
    var es := Stream(layers);
    forall j | 0 <= j < |es| ensures Agrees(es[j], k, NormalizePath, interesting) {
      EntryAgreesInCode(es[j], k, interesting);
    }
    OverlayIsSpecificationIff(layers, k, NormalizePath, interesting);
  }

  /** The same with names normalised as the documentation has it. */
  lemma DocumentationIsSpecificationIff(layers: seq<Layer>, k: Path, interesting: set<string>)
    requires Tracked(k, interesting) && WellNamedImage(layers)
    ensures Lookup(ApplyAll(map[], Stream(layers), DocumentedPath, interesting), PathText(k)) == OciFile(layers, k)
            <==> Right(layers, k, DocumentedPath, interesting)
  {
    hide Tracked, Agrees, OciFile, ApplyAll, Held, Lost, WellNamed, Stream, Placing;
    StreamNamed(layers);
    PlacingIsStream(layers);
    var es := Stream(layers);
    forall j | 0 <= j < |es| ensures Agrees(es[j], k, DocumentedPath, interesting) {
      EntryAgrees(es[j], k, interesting);
    }
    OverlayIsSpecificationIff(layers, k, DocumentedPath, interesting);
  }

  lemma {:induction false} StreamNamed(layers: seq<Layer>)
    requires WellNamedImage(layers)
    ensures forall j | 0 <= j < |Stream(layers)| :: WellNamed(Stream(layers)[j])
  {
    hide WellNamed;
    if layers != [] {
      StreamNamed(layers[..|layers| - 1]);
    }
  }

  // ----- The table of the scanner ----------------------------------------------------------------------

  /** The paths that the scanner extracts. */
  const TABLE: seq<Path> := [
    ["etc", "os-release"], ["usr", "lib", "os-release"], ["var", "lib", "dpkg", "status"],
    ["lib", "apk", "db", "installed"],
    ["etc", "system-fips"], ["etc", "crypto-policies", "back-ends", "openssl.config"],
    ["etc", "crypto-policies", "state", "current"], ["var", "lib", "rpm", "rpmdb.sqlite"],
    ["usr", "lib", "sysimage", "rpm", "rpmdb.sqlite"]]

  function Interesting(): set<string> { set path | path in TABLE :: PathText(path) }

  /** Two dots never stand next to each other. */
  predicate NoDotPair(s: string) { forall i | 0 <= i < |s| - 1 :: s[i] != '.' || s[i + 1] != '.' }

  /** A name that neither the path functions nor the whiteouts treat in a special way. */
  predicate Ordinarily(s: string) { s != "" && s[0] != '.' && '/' !in s && NoDotPair(s) }

  lemma OrdinaryName(s: string)
    requires Ordinarily(s)
    ensures Plain(s) && !HasPrefix(s, ".wh.")
  {
    PrefixChars(s, ".wh.");
  }

  lemma {:induction false} OrdinaryPath(path: Path)
    requires path != [] && forall i | 0 <= i < |path| :: Ordinarily(path[i])
    ensures NoDotPair(PathText(path))
  {
    if |path| > 1 {
      OrdinaryPath(path[1..]);
      var first, rest := path[0], PathText(path[1..]);
      var s := first + "/" + rest;
      forall i | 0 <= i < |s| - 1 ensures s[i] != '.' || s[i + 1] != '.' {
        if i + 1 < |first| {
          assert s[i] == first[i] && s[i + 1] == first[i + 1];
        } else if i > |first| {
          assert s[i] == rest[i - |first| - 1] && s[i + 1] == rest[i - |first|];
        }
      }
    }
  }

  lemma NoPairNoDots(s: string)
    requires NoDotPair(s)
    ensures !Contains(s, "..")
  {
    forall i | 0 <= i <= |s| ensures !HasPrefix(s[i..], "..") {
      PrefixChars(s[i..], "..");
      if i < |s| - 1 {
        assert s[i..][0] == s[i] && s[i..][1] == s[i + 1];
      }
    }
  }

  lemma TableNames()
    ensures forall path, i | path in TABLE && 0 <= i < |path| :: Ordinarily(path[i])
    ensures forall path | path in TABLE :: path != []
  {
    TableNames1();
    TableNames2();
    TableNames3();
    hide Ordinarily;
    forall path, i | path in TABLE && 0 <= i < |path| ensures Ordinarily(path[i]) {
      assert path[i] in {"etc", "usr", "var", "lib", "os-release", "dpkg", "status", "apk", "db", "installed",
        "system-fips", "crypto-policies", "back-ends", "openssl.config",
        "state", "current", "rpm", "rpmdb.sqlite", "sysimage"};
    }
  }

  lemma TableNames1()
    ensures Ordinarily("etc") && Ordinarily("usr") && Ordinarily("var") && Ordinarily("lib") && Ordinarily("os-release")
    ensures Ordinarily("dpkg") && Ordinarily("status") && Ordinarily("apk") && Ordinarily("db")
  {}

  lemma TableNames2()
    ensures Ordinarily("installed") && Ordinarily("system-fips")
    ensures Ordinarily("crypto-policies") && Ordinarily("back-ends")
  {}

  lemma TableNames3()
    ensures Ordinarily("openssl.config") && Ordinarily("state") && Ordinarily("current") && Ordinarily("rpm")
    ensures Ordinarily("rpmdb.sqlite") && Ordinarily("sysimage")
  {}

  lemma TablePath(k: Path)
    requires k in TABLE
    ensures k != [] && forall i | 0 <= i < |k| :: Ordinarily(k[i])
  {
    hide Ordinarily;
    TableNames();
  }

  lemma TableIsTracked(k: Path)
    requires k in TABLE
    ensures Tracked(k, Interesting()) && !Contains(PathText(k), "..")
  {
    hide Ordinarily, Plain, NoDotPair, Contains;
    TablePath(k);
    forall i | 0 <= i < |k| ensures Plain(k[i]) && !HasPrefix(k[i], ".wh.") {
      OrdinaryName(k[i]);
    }
    OrdinaryPath(k);
    NoPairNoDots(PathText(k));
  }

  /** For each path the scanner extracts: the scan of an image finds the file of the specification, or its absence,
      exactly when it holds nothing there that is too long or was taken away, and has not deleted the file for a
      whiteout of its own layer. */
  lemma TableFilesAreSpecificationIff(layers: seq<Layer>, k: Path)
    requires k in TABLE && WellNamedImage(layers)
    ensures Lookup(ApplyAll(map[], Stream(layers), NormalizePath, Interesting()), PathText(k)) == OciFile(layers, k)
            <==> Right(layers, k, NormalizePath, Interesting())
  {
    hide OciFile, ApplyAll, WellNamedImage, Tracked, Right;
    TableIsTracked(k);
    CodeIsSpecificationIff(layers, k, Interesting());
  }

  /** The whiteout of a path: the same path with the prefix in its last name. */
  function WhiteoutOf(path: Path): Path
    requires path != []
  {
    path[..|path| - 1] + [".wh." + path[|path| - 1]]
  }

  lemma NormalText(path: Path)
    requires Normal(path)
    ensures PathOf(PathText(path)) == path && DocumentedPath(PathText(path)) == PathText(path)
  {
    TextSplits(path);
    SignificantKeeps(path);
    NotBelowHere(path);
    TextNotSlashed(path);
  }

  lemma WhiteoutText(path: Path)
    requires path != [] && forall i | 0 <= i < |path| :: Ordinarily(path[i])
    ensures Proper(WhiteoutOf(path)) && WhiteoutOf(path)[|path| - 1] != OPAQUE
    ensures NoDotPair(PathText(WhiteoutOf(path)))
  {
    var w, name := WhiteoutOf(path), path[|path| - 1];
    var last := ".wh." + name;
    assert last[4..] == name;
    forall i | 0 <= i < |path| ensures Plain(path[i]) {
      OrdinaryName(path[i]);
    }
    assert Plain(last) by { NameOfWhiteout(name); }
    assert w[|path| - 1] == last && HasPrefix(last, ".wh.");
    assert last != OPAQUE by { assert OPAQUE[4] == '.' && last[4] == name[0]; }
    assert NoDotPair(last);
    if |path| > 1 {
      var init := path[..|path| - 1];
      OrdinaryPath(init);
      TextEnds(w);
      assert w[..|w| - 1] == init;
      PairAcross(PathText(init), last);
    }
  }

  lemma NameOfWhiteout(name: string)
    requires Ordinarily(name)
    ensures Plain(".wh." + name) && NoDotPair(".wh." + name)
  {
    assert '/' !in ".wh.";
  }

  lemma PairAcross(a: string, b: string)
    requires NoDotPair(a) && NoDotPair(b)
    ensures NoDotPair(a + "/" + b)
  {
    var s := a + "/" + b;
    forall i | 0 <= i < |s| - 1 ensures s[i] != '.' || s[i + 1] != '.' {
      if i + 1 < |a| {
        assert s[i] == a[i] && s[i + 1] == a[i + 1];
      } else if i > |a| {
        assert s[i] == b[i - |a| - 1] && s[i + 1] == b[i - |a|];
      }
    }
  }

  // ----- Failing images ----------------------------------------------------------------------------------

  function OneLayer(file: Entry, marker: Entry): seq<Layer> { [Layer([file, marker], true)] }

  function TwoLayers(file: Entry, marker: Entry): seq<Layer> { [Layer([file], true), Layer([marker], true)] }

  lemma BothAreStream(file: Entry, marker: Entry)
    ensures Stream(OneLayer(file, marker)) == [file, marker] == Stream(TwoLayers(file, marker))
    ensures WellNamed(file) && WellNamed(marker) ==>
              WellNamedImage(OneLayer(file, marker)) && WellNamedImage(TwoLayers(file, marker))
  {
    hide WellNamed;
    var one, two := OneLayer(file, marker), TwoLayers(file, marker);
    assert one[..0] == [] && two[..1] == [two[0]] && two[..1][..0] == [];
    assert Stream(two[..1]) == [file];
  }

  /** What the specification makes of a file and a marker that hides it: from above the marker wins, in one layer the
      file. */
  lemma MarkerAboveOrBeside(file: Entry, marker: Entry, k: Path)
    requires At(file, k) && file.kind.Regular? && Hides(PathOf(marker.name), k)
    ensures OciFile(TwoLayers(file, marker), k) == None
    ensures OciFile(OneLayer(file, marker), k) == Some(file.data)
  {
    hide PathOf;
    var two, top := TwoLayers(file, marker), [marker];
    assert !At(marker, k);
    assert top[..0] == [] && [file, marker][..1] == [file] && [file][..0] == [];
    assert LastAt([], k) == None && LastAt(top, k) == None;
    assert Hidden(top, k) by { assert Hides(PathOf(top[0].name), k); }
    assert two[..1] == [two[0]] && two[1].entries == top;
    assert LastAt([file], k) == Some(file) && LastAt([file, marker], k) == LastAt([file, marker][..1], k);
  }

  /** What the code makes of them: the marker deletes the file or it does not. */
  lemma MarkerInStream(file: Entry, marker: Entry, k: string, norm: string -> string, interesting: set<string>)
    requires Writes(file, k, norm, interesting) && !Writes(marker, k, norm, interesting)
    ensures k in ApplyAll(map[], [file, marker], norm, interesting) <==> !Deletes(marker, k, norm)
  {
    hide Writes, Deletes, ApplyAll;
    var es := [file, marker];
    ClosedForm(es, k, norm, interesting);
    assert LiveAt(es, 0, k, norm, interesting) <==> !Deletes(es[1], k, norm);
    assert forall i: nat | LiveAt(es, i, k, norm, interesting) :: i == 0;
  }

  /** The whiteout of a directory hides what is below it, and it is no whiteout of that. */
  lemma DirectoryWhiteout(dir: Path, k: Path)
    requires dir != [] && dir <= k && WhiteoutOf(dir)[|dir| - 1] != OPAQUE
    ensures var w := WhiteoutOf(dir);
            Hides(w, k) && (k == w[..|w| - 1] + [w[|w| - 1][4..]] <==> dir == k)
  {
    var w := WhiteoutOf(dir);
    assert w[..|w| - 1] + [w[|w| - 1][4..]] == dir;
  }

  lemma OrdinaryIsNormal(path: Path)
    requires path != [] && forall i | 0 <= i < |path| :: Ordinarily(path[i])
    ensures Normal(path) && !Whiteouts(path)
  {
    hide Ordinarily;
    forall i | 0 <= i < |path| ensures Plain(path[i]) && !HasPrefix(path[i], ".wh.") {
      OrdinaryName(path[i]);
    }
  }

  lemma WellNamedText(path: Path, kind: Kind, data: seq<Byte>)
    requires Normal(path) && (Whiteouts(path) ==> Proper(path))
    ensures var e := Entry(PathText(path), kind, |data|, data, true);
            WellNamed(e) && PathOf(e.name) == path
  {
    hide Proper, Whiteouts, DocumentedPath, Normal;
    NormalText(path);
  }

  /** The code refuses no path without two dots in a row. */
  lemma NotRefused(path: Path)
    requires Normal(path) && NoDotPair(PathText(path))
    ensures NormalizePath(PathText(path)) != ""
  {
    NotBelowHere(path);
    NoPairNoDots(PathText(path));
    TextNotSlashed(path);
  }

  lemma TrackedIsTrackable(k: Path, interesting: set<string>)
    requires Tracked(k, interesting) && !Contains(PathText(k), "..")
    ensures Trackable(PathText(k))
  {
    hide Contains;
    TextNotSlashed(k);
    BaseOf(k);
  }

  /** A regular file at a path, and the whiteout of the path or of a directory above it. */
  function FileAt(k: Path, data: seq<Byte>): Entry { Entry(PathText(k), Regular, |data|, data, true) }

  function MarkerOf(dir: Path): Entry
    requires dir != []
  {
    Entry(PathText(WhiteoutOf(dir)), Regular, 0, [], true)
  }

  lemma FileAndMarker(k: Path, dir: Path, data: seq<Byte>, interesting: set<string>)
    requires Tracked(k, interesting) && !Contains(PathText(k), "..") && dir != [] && dir <= k
    requires forall i | 0 <= i < |k| :: Ordinarily(k[i])
    ensures var file, marker := FileAt(k, data), MarkerOf(dir);
            && WellNamed(file) && WellNamed(marker) && At(file, k) && Hides(PathOf(marker.name), k)
            && (PathText(k) in ApplyAll(map[], [file, marker], NormalizePath, interesting) <==> dir != k)
  {
    var w := WhiteoutOf(dir);
    OrdinaryIsNormal(k);
    WhiteoutText(dir);
    assert Normal(w);
    NotRefused(w);
    DirectoryWhiteout(dir, k);
    TrackedIsTrackable(k, interesting);
    hide Ordinarily, NoDotPair, Contains, Tracked, Trackable, Hides, Normal, Proper, WellNamed, PathText, PathOf,
         ApplyAll, NormalizePath, DocumentedPath, Writes, Deletes;
    WellNamedText(k, Regular, data);
    WellNamedText(w, Regular, []);
    var file, marker := FileAt(k, data), MarkerOf(dir);
    assert At(file, k) && !At(marker, k) by { WhiteoutIsNoEntry(marker, k); }
    EntryAgreesInCode(file, k, interesting);
    EntryAgreesInCode(marker, k, interesting);
    EntryAgrees(marker, k, interesting);
    SameWrites(marker, PathText(k), interesting);
    MarkerInStream(file, marker, PathText(k), NormalizePath, interesting);
  }

  lemma WhiteoutIsNoEntry(e: Entry, k: Path)
    requires Hides(PathOf(e.name), k)
    ensures !At(e, k)
  {
    hide PathOf;
  }

  lemma FailingImages(k: Path, dir: Path, data: seq<Byte>, interesting: set<string>)
    requires Tracked(k, interesting) && !Contains(PathText(k), "..") && dir != [] && dir <= k
    requires forall i | 0 <= i < |k| :: Ordinarily(k[i])
    ensures var one, two := OneLayer(FileAt(k, data), MarkerOf(dir)), TwoLayers(FileAt(k, data), MarkerOf(dir));
            && WellNamedImage(one) && WellNamedImage(two) && Stream(one) == Stream(two)
            && (PathText(k) in ApplyAll(map[], Stream(one), NormalizePath, interesting) <==> dir != k)
            && OciFile(one, k) == Some(data) && OciFile(two, k) == None
  {
    FileAndMarker(k, dir, data, interesting);
    hide Ordinarily, Contains, Tracked, WellNamedImage, WellNamed, ApplyAll, OciFile, Stream, NormalizePath, PathText,
         PathOf, At, Hides;
    BothAreStream(FileAt(k, data), MarkerOf(dir));
    MarkerAboveOrBeside(FileAt(k, data), MarkerOf(dir), k);
  }

  /** The failing images for directories: at every path of the table and for every directory above it, a file in a first
      layer and a second layer that removes the directory. The code keeps the file, the specification does not. */
  lemma RemovedDirectoryStays(k: Path, dir: Path, data: seq<Byte>)
    requires k in TABLE && dir != [] && dir < k
    ensures var layers := TwoLayers(FileAt(k, data), MarkerOf(dir));
            && WellNamedImage(layers)
            && PathText(k) in ApplyAll(map[], Stream(layers), NormalizePath, Interesting())
            && OciFile(layers, k) == None
  {
    hide Ordinarily, Contains, Tracked, WellNamedImage, ApplyAll, OciFile, Stream, NormalizePath, Interesting, PathText,
         OneLayer, TwoLayers, FileAt, MarkerOf;
    TablePath(k);
    TableIsTracked(k);
    FailingImages(k, dir, data, Interesting());
  }

  /** The failing images for whiteouts within a layer: at every path of the table, one layer with a file and after it
      the whiteout of that file. The code deletes the file; the specification keeps it, as a whiteout applies to the
      layers below alone. */
  lemma WhiteoutOfOwnLayerDeletes(k: Path, data: seq<Byte>)
    requires k in TABLE
    ensures var layers := OneLayer(FileAt(k, data), MarkerOf(k));
            && WellNamedImage(layers)
            && PathText(k) !in ApplyAll(map[], Stream(layers), NormalizePath, Interesting())
            && OciFile(layers, k) == Some(data)
  {
    hide Ordinarily, Contains, Tracked, WellNamedImage, ApplyAll, OciFile, Stream, NormalizePath, Interesting, PathText,
         OneLayer, TwoLayers, FileAt, MarkerOf;
    TablePath(k);
    TableIsTracked(k);
    FailingImages(k, k, data, Interesting());
  }
}
