/** What the merged files mean: a closed form over the whole entry stream, and the difference between the code and its
    documentation on opaque markers. */
module Overlay {
  import opened Bytes
  import opened Paths
  import opened Text
  import opened Layers

  // ----- The closed form -------------------------------------------------------------

  /** The entry stores contents at key k. */
  predicate Writes(e: Entry, k: string, norm: string -> string, interesting: set<string>) {
    norm(e.name) == k && k != "" && !IsWhiteout(k) && e.kind.Regular? && k in interesting
  }

  /** The entry is a whiteout that covers key k. */
  predicate Deletes(e: Entry, k: string, norm: string -> string) {
    norm(e.name) != "" && IsWhiteout(norm(e.name)) && Covers(norm(e.name), k)
  }

  /** Entry i is the last write of k, and nothing later deletes k. */
  predicate LiveAt(es: seq<Entry>, i: nat, k: string, norm: string -> string, interesting: set<string>) {
    && i < |es| && Writes(es[i], k, norm, interesting)
    && forall j | i < j < |es| :: !Writes(es[j], k, norm, interesting) && !Deletes(es[j], k, norm)
  }

  lemma ApplyAt(files: Files, e: Entry, k: string, norm: string -> string, interesting: set<string>)
    ensures var after := Apply(files, e, norm, interesting);
            && (Writes(e, k, norm, interesting) ==> k in after && after[k] == Capped(e.data))
            && (Deletes(e, k, norm) ==> k !in after)
            && (!Writes(e, k, norm, interesting) && !Deletes(e, k, norm) ==>
                  (k in after <==> k in files) && (k in files ==> after[k] == files[k]))
  {}

  lemma NotBoth(e: Entry, k: string, norm: string -> string, interesting: set<string>)
    ensures !(Writes(e, k, norm, interesting) && Deletes(e, k, norm))
  {}

  /** A key is present after a stream exactly when its last write has no later whiteout covering it, and then it
      holds that write's bytes, up to the size cap. */
  lemma {:induction false} ClosedForm(es: seq<Entry>, k: string, norm: string -> string, interesting: set<string>)
    ensures var files := ApplyAll(map[], es, norm, interesting);
            && (k in files <==> exists i: nat :: LiveAt(es, i, k, norm, interesting))
            && (forall i: nat | LiveAt(es, i, k, norm, interesting) :: k in files && files[k] == Capped(es[i].data))
  {
    hide Writes, Deletes, Apply;
    if es != [] {
      var init, last := es[..|es| - 1], es[|es| - 1];
      var before := ApplyAll(map[], init, norm, interesting);
      ClosedForm(init, k, norm, interesting);
      ApplyAt(before, last, k, norm, interesting);
      NotBoth(last, k, norm, interesting);
      if Writes(last, k, norm, interesting) {
        assert LiveAt(es, |es| - 1, k, norm, interesting);
      } else if Deletes(last, k, norm) {
        assert forall i: nat :: !LiveAt(es, i, k, norm, interesting);
      } else {
        forall i: nat ensures LiveAt(es, i, k, norm, interesting) <==> LiveAt(init, i, k, norm, interesting) {
          LiveAppend(init, last, i, k, norm, interesting);
          assert init + [last] == es;
        }
        forall i: nat | LiveAt(es, i, k, norm, interesting) ensures es[i] == init[i] {
          assert LiveAt(init, i, k, norm, interesting);
        }
      }
    }
  }

  lemma LiveAppend(init: seq<Entry>, last: Entry, i: nat, k: string, norm: string -> string, interesting: set<string>)
    requires !Writes(last, k, norm, interesting) && !Deletes(last, k, norm)
    ensures LiveAt(init + [last], i, k, norm, interesting) <==> LiveAt(init, i, k, norm, interesting)
  {
    var es := init + [last];
    assert es[|init|] == last;
    assert forall j | 0 <= j < |init| :: es[j] == init[j];
    if LiveAt(init, i, k, norm, interesting) {
      forall j | i < j < |es| ensures !Writes(es[j], k, norm, interesting) && !Deletes(es[j], k, norm) {
        if j < |init| { assert es[j] == init[j]; }
      }
    }
    if LiveAt(es, i, k, norm, interesting) {
      assert i != |init|;
      forall j | i < j < |init| ensures !Writes(init[j], k, norm, interesting) && !Deletes(init[j], k, norm) {
        assert es[j] == init[j];
      }
    }
  }

  // ----- Opaque markers are never honoured ----------------------------------------------

  lemma ContainsAt(s: string, sub: string, i: nat)
    requires i + |sub| <= |s| && s[i..i + |sub|] == sub
    ensures Contains(s, sub)
  {
    assert s[i..][..|sub|] == sub;
    assert HasPrefix(s[i..], sub);
  }

  /** The base name is a stretch of the path. */
  lemma BaseWithin(p: string) returns (i: nat)
    requires p != "" && Base(p) != "/"
    ensures i + |Base(p)| <= |p| && p[i..i + |Base(p)|] == Base(p)
  {
    var s := TrimRight(p, IsSlash);
    var gone := TrimRightSplits(p, IsSlash);
    i := LastIndex(s, '/') + 1;
    assert p[..|s|] == s;
  }

  lemma ContainsWithin(s: string, i: nat, part: string, j: nat, sub: string)
    requires i + |part| <= |s| && s[i..i + |part|] == part
    requires j + |sub| <= |part| && part[j..j + |sub|] == sub
    ensures Contains(s, sub)
  {
    assert forall k | 0 <= k < |part| :: s[i + k] == part[k];
    assert forall k | 0 <= k < |sub| :: part[j + k] == sub[k];
    assert s[i + j..i + j + |sub|] == sub;
    ContainsAt(s, sub, i + j);
  }

  lemma OpaqueHasDots()
    ensures |OPAQUE| == 12 && OPAQUE[3..5] == ".."
  {}

  /** No entry name whatsoever gets past the normalisation as an opaque marker: the marker's own name holds two
      dots in a row. */
  lemma OpaqueNeverReached(name: string)
    ensures NormalizePath(name) == "" || !IsOpaque(NormalizePath(name))
  {
    var p := NormalizePath(name);
    if p != "" && Base(p) == OPAQUE {
      var i := BaseWithin(p);
      OpaqueHasDots();
      ContainsWithin(p, i, OPAQUE, 3, "..");
    }
  }

  // ----- Code and documentation -----------------------------------------------------------

  /** A whiteout the documentation honours and the code drops because of its name. */
  predicate Dropped(e: Entry, k: string) {
    Deletes(e, k, DocumentedPath) && NormalizePath(e.name) == ""
  }

  /** A tracked path as it occurs in the table. */
  predicate Trackable(k: string) {
    k != "" && !Contains(k, "..") && !IsWhiteout(k)
  }

  lemma {:induction false} SplitPartWithin(s: string, sep: char, part: string)
    requires part in Split(s, sep)
    ensures Contains(s, part)
    decreases |s|
  {
    var i := Index(s, sep);
    if i < 0 {
      ContainsAt(s, part, 0);
    } else if part == s[..i] {
      ContainsAt(s, part, 0);
    } else {
      SplitPartWithin(s[i + 1..], sep, part);
      var j :| 0 <= j <= |s[i + 1..]| && HasPrefix(s[i + 1..][j..], part);
      assert s[i + 1..][j..] == s[i + 1 + j..];
    }
  }

  /** Where the code keeps a name, the documentation keeps the same name. */
  lemma KeptByBoth(name: string)
    ensures NormalizePath(name) != "" ==> DocumentedPath(name) == NormalizePath(name)
  {
    var s := TrimPrefix(TrimPrefix(name, "./"), "/");
    if ".." in Split(s, '/') {
      SplitPartWithin(s, '/', "..");
    }
  }

  lemma SameWrites(e: Entry, k: string, interesting: set<string>)
    requires Trackable(k)
    ensures Writes(e, k, NormalizePath, interesting) <==> Writes(e, k, DocumentedPath, interesting)
    ensures Deletes(e, k, DocumentedPath) <==> Deletes(e, k, NormalizePath) || Dropped(e, k)
  {
    KeptByBoth(e.name);
  }

  /** The code keeps k although a later marker, dropped for its name, should have deleted it. */
  ghost predicate WronglyKept(es: seq<Entry>, k: string, interesting: set<string>) {
    exists i: nat, j: nat :: LiveAt(es, i, k, NormalizePath, interesting) && i < j < |es| && Dropped(es[j], k)
  }

  lemma LiveDocumented(es: seq<Entry>, i: nat, k: string, interesting: set<string>)
    requires Trackable(k)
    ensures LiveAt(es, i, k, DocumentedPath, interesting) <==>
            LiveAt(es, i, k, NormalizePath, interesting) && forall j | i < j < |es| :: !Dropped(es[j], k)
  {
    forall j | 0 <= j < |es|
      ensures Writes(es[j], k, NormalizePath, interesting) <==> Writes(es[j], k, DocumentedPath, interesting)
      ensures Deletes(es[j], k, DocumentedPath) <==> Deletes(es[j], k, NormalizePath) || Dropped(es[j], k)
    {
      SameWrites(es[j], k, interesting);
    }
  }

  /** Code and documentation agree on a tracked path exactly when no whiteout whose name holds two dots in a row
      (an opaque marker, or the whiteout of a dot file) should have deleted what the code keeps. */
  lemma AsDocumentedIff(es: seq<Entry>, k: string, interesting: set<string>)
    requires Trackable(k)
    ensures var code := ApplyAll(map[], es, NormalizePath, interesting);
            var documented := ApplyAll(map[], es, DocumentedPath, interesting);
            && (k in documented ==> k in code && code[k] == documented[k])
            && ((k in code <==> k in documented) <==> !WronglyKept(es, k, interesting))
  {
    ClosedForm(es, k, NormalizePath, interesting);
    ClosedForm(es, k, DocumentedPath, interesting);
    forall i: nat
      ensures LiveAt(es, i, k, DocumentedPath, interesting) <==>
              LiveAt(es, i, k, NormalizePath, interesting) && forall j | i < j < |es| :: !Dropped(es[j], k)
    {
      LiveDocumented(es, i, k, interesting);
    }
    if WronglyKept(es, k, interesting) {
      var i: nat, j: nat :| LiveAt(es, i, k, NormalizePath, interesting) && i < j < |es| && Dropped(es[j], k);
      forall m: nat ensures !LiveAt(es, m, k, DocumentedPath, interesting) {
        if LiveAt(es, m, k, NormalizePath, interesting) {
          LiveUnique(es, i, m, k, NormalizePath, interesting);
        }
      }
    }
  }

  lemma LiveUnique(es: seq<Entry>, i: nat, j: nat, k: string, norm: string -> string, interesting: set<string>)
    requires LiveAt(es, i, k, norm, interesting) && LiveAt(es, j, k, norm, interesting)
    ensures i == j
  {}

  /** Whenever a file is followed by an opaque marker for its directory, the documentation deletes the file and the
      code keeps it. */
  lemma OpaqueMarkerIgnored(file: Entry, marker: Entry, k: string, interesting: set<string>)
    requires Trackable(k) && Writes(file, k, NormalizePath, interesting)
    requires DocumentedPath(marker.name) != "" && IsOpaque(DocumentedPath(marker.name))
    requires HasPrefix(k, Dir(DocumentedPath(marker.name)) + "/")
    ensures k in ApplyAll(map[], [file, marker], NormalizePath, interesting)
    ensures k !in ApplyAll(map[], [file, marker], DocumentedPath, interesting)
  {
    var es := [file, marker];
    KeptByBoth(marker.name);
    OpaqueNeverReached(marker.name);
    assert HasPrefix(OPAQUE, ".wh.");
    assert Dropped(marker, k);
    ClosedForm(es, k, NormalizePath, interesting);
    assert LiveAt(es, 0, k, NormalizePath, interesting);
    assert WronglyKept(es, k, interesting) by { assert Dropped(es[1], k); }
    AsDocumentedIff(es, k, interesting);
  }

  lemma NoSuchPrefix(s: string, prefix: string, c: char)
    requires prefix != "" && prefix[0] == c && c !in s
    ensures !HasPrefix(s, prefix)
  {
    PrefixChars(s, prefix);
  }

  lemma NoDots(s: string)
    requires '.' !in s
    ensures !Contains(s, "..")
  {
    forall i | 0 <= i <= |s| ensures !HasPrefix(s[i..], "..") {
      NoSuchPrefix(s[i..], "..", '.');
    }
  }

  lemma BaseAfter(dir: string, name: string)
    requires '/' !in name && name != ""
    ensures Base(dir + "/" + name) == name
  {
    var p := dir + "/" + name;
    assert p[|p| - 1] == name[|name| - 1];
    assert TrimRight(p, IsSlash) == p;
    LastIndexBefore(dir, '/', name);
    assert dir + ['/'] + name == p;
  }

  lemma DirAfter(dir: string, name: string)
    requires '/' !in dir && '/' !in name && dir != "" && dir != "."
    ensures Dir(dir + "/" + name) == dir
  {
    var p := dir + "/" + name;
    LastIndexBefore(dir, '/', name);
    assert dir + ['/'] + name == p;
    assert p[..|dir| + 1] == dir + ['/'];
    var parts := [dir, ""];
    SplitJoin(parts, '/');
    assert Join(parts, ['/']) == dir + ['/'];
    assert parts[1..] == [""] && [""][1..] == [];
    assert Significant([""]) == [];
    assert Significant(parts) == [dir];
  }

  lemma NotTrimmed(dir: string, name: string)
    requires '/' !in dir && dir != "" && dir != "."
    ensures var p := dir + "/" + name; TrimPrefix(TrimPrefix(p, "./"), "/") == p
  {
    var p := dir + "/" + name;
    assert p[0] == dir[0] && p[1] == (if |dir| == 1 then '/' else dir[1]);
    PrefixChars(p, "./");
    PrefixChars(p, "/");
  }

  lemma TwoSegments(dir: string, name: string)
    requires '/' !in dir && '/' !in name
    ensures Split(dir + "/" + name, '/') == [dir, name]
  {
    SplitJoin([dir, name], '/');
    assert Join([dir, name], ['/']) == dir + ['/'] + name;
  }

  lemma PlainFile(dir: string, name: string)
    requires '/' !in dir && '/' !in name && '.' !in dir && '.' !in name && dir != "" && name != ""
    ensures NormalizePath(dir + "/" + name) == dir + "/" + name && Trackable(dir + "/" + name)
  {
    NoDots(dir + "/" + name);
    NotTrimmed(dir, name);
    BaseAfter(dir, name);
    NoSuchPrefix(name, ".wh.", '.');
  }

  lemma PlainMarker(dir: string)
    requires '/' !in dir && '.' !in dir && dir != ""
    ensures var m := dir + "/" + OPAQUE; DocumentedPath(m) == m && IsOpaque(m) && Dir(m) == dir
  {
    NotTrimmed(dir, OPAQUE);
    TwoSegments(dir, OPAQUE);
    BaseAfter(dir, OPAQUE);
    DirAfter(dir, OPAQUE);
    assert ".." != dir;
  }

  /** Such an image: a first layer with a plain file in a directory, and a second one that makes the directory
      opaque. */
  lemma OpaqueDirectoryIgnored(dir: string, name: string)
    requires '/' !in dir && '/' !in name && '.' !in dir && '.' !in name && dir != "" && name != ""
    ensures var k := dir + "/" + name;
            var file := Entry(k, Regular, 0, [], true);
            var marker := Entry(dir + "/" + OPAQUE, Regular, 0, [], true);
            && k in ApplyAll(map[], [file, marker], NormalizePath, {k})
            && k !in ApplyAll(map[], [file, marker], DocumentedPath, {k})
  {
    var k, m := dir + "/" + name, dir + "/" + OPAQUE;
    PlainFile(dir, name);
    PlainMarker(dir);
    PrefixChars(k, dir + "/");
    hide NormalizePath, DocumentedPath, Dir, Base, ApplyAll, Contains, IsOpaque;
    assert Writes(Entry(k, Regular, 0, [], true), k, NormalizePath, {k});
    OpaqueMarkerIgnored(Entry(k, Regular, 0, [], true), Entry(m, Regular, 0, [], true), k, {k});
  }
}
