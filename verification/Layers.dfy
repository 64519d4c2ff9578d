/** The streaming image overlay (internal/container/layers.go): layers are merged entry by entry into a small
    in-memory file system. Decompression and tar decoding are not modelled: a layer is its decoded entries. */
module Layers {
  import opened Bytes
  import opened Paths
  import opened Text

  datatype Kind = Regular | Directory | Other

  /** One tar entry; `intact` is false when reading its contents fails. */
  datatype Entry = Entry(name: string, kind: Kind, size: int, data: seq<Byte>, intact: bool)

  /** `complete` is false when the stream breaks off after the entries. */
  datatype Layer = Layer(entries: seq<Entry>, complete: bool)

  const MAX_FILE_BYTES := 100 * 1024 * 1024
  const MAX_ELF_BYTES := 50 * 1024 * 1024
  const MAX_ELF_INSPECTIONS := 100

  // ----- Paths ------------------------------------------------------------------

  function TrimPrefix(s: string, prefix: string): string {
    if HasPrefix(s, prefix) then s[|prefix|..] else s
  }

  /** normalizePath: every name with two dots in a row is refused, wherever they stand. */
  function NormalizePath(name: string): string {
    var s := TrimPrefix(TrimPrefix(name, "./"), "/");
    if s == "" || Contains(s, "..") then "" else s
  }

  /** What the comment on normalizePath promises: only a parent-traversal segment is refused. */
  function DocumentedPath(name: string): string {
    var s := TrimPrefix(TrimPrefix(name, "./"), "/");
    if s == "" || ".." in Split(s, '/') then "" else s
  }

  const OPAQUE := ".wh..wh..opq"

  predicate IsWhiteout(p: string) { HasPrefix(Base(p), ".wh.") }

  predicate IsOpaque(p: string) { Base(p) == OPAQUE }

  /** The path that a whiteout entry names. */
  function WhiteoutTarget(p: string): string {
    JoinPath(Dir(p), TrimPrefix(Base(p), ".wh."))
  }

  /** Whether the whiteout at path p deletes the key k. */
  predicate Covers(p: string, k: string) {
    if IsOpaque(p) then HasPrefix(k, Dir(p) + "/") else k == WhiteoutTarget(p)
  }

  // ----- One entry, as a function ---------------------------------------------------

  function Capped(data: seq<Byte>): seq<Byte> {
    if |data| <= MAX_FILE_BYTES then data else data[..MAX_FILE_BYTES]
  }

  type Files = map<string, seq<Byte>>

  /** The effect of an entry on the tracked files, for a given normalisation of names. */
  function Apply(files: Files, e: Entry, norm: string -> string, interesting: set<string>): Files {
    var p := norm(e.name);
    if p == "" then files
    else if IsWhiteout(p) then map k | k in files && !Covers(p, k) :: files[k]
    else if e.kind.Regular? && p in interesting then files[p := Capped(e.data)]
    else files
  }

  function ApplyAll(files: Files, es: seq<Entry>, norm: string -> string, interesting: set<string>): Files {
    if es == [] then files
    else Apply(ApplyAll(files, es[..|es| - 1], norm, interesting), es[|es| - 1], norm, interesting)
  }

  /** The keys under a directory prefix are deleted one by one. */
  method DeleteUnder<T>(m: map<string, T>, prefix: string) returns (out: map<string, T>)
    ensures out == map k | k in m && !HasPrefix(k, prefix) :: m[k]
    ensures |out| <= |m|
  {
    out := m;
    var keys := m.Keys;
    while keys != {}
      invariant keys <= m.Keys && |out| <= |m|
      invariant out == map k | k in m && (k in keys || !HasPrefix(k, prefix)) :: m[k]
      decreases keys
    {
      var k :| k in keys;
      if HasPrefix(k, prefix) {
        out := out - {k};
      }
      keys := keys - {k};
    }
  }

  // ----- The in-memory file system ------------------------------------------------------

  const ELF_MAGIC: seq<Byte> := [0x7F, 0x45, 0x4C, 0x46]

  const ELF_BINARY_DIRS: seq<string> := [
    "usr/bin/", "usr/sbin/", "bin/", "sbin/", "usr/local/bin/", "usr/local/sbin/", "opt/", "app/", "srv/",
    "usr/lib/python3/", "usr/lib/python3.11/", "usr/lib/python3.12/"]

  predicate IsELFCandidate(p: string) {
    exists i | 0 <= i < |ELF_BINARY_DIRS| :: HasPrefix(p, ELF_BINARY_DIRS[i])
  }

  predicate HasELFMagic(data: seq<Byte>) {
    |data| >= 4 && data[..4] == ELF_MAGIC
  }

  /** Everything an ImageFS holds. */
  datatype Image = Image(files: Files, elfNeeded: map<string, seq<string>>, elfInspected: nat)

  function Uncovered<T>(m: map<string, T>, p: string): map<string, T> {
    map k | k in m && !Covers(p, k) :: m[k]
  }

  /** The next inspection is still allowed, and the path and size are worth one. */
  predicate Inspects(img: Image, e: Entry, p: string) {
    IsELFCandidate(p) && img.elfInspected < MAX_ELF_INSPECTIONS && 0 < e.size <= MAX_ELF_BYTES
  }

  /** The merge needs the contents of this entry and cannot read them. */
  predicate Fails(img: Image, e: Entry, interesting: set<string>) {
    var p := NormalizePath(e.name);
    p != "" && !IsWhiteout(p) && e.kind.Regular? && !e.intact && (p in interesting || Inspects(img, e, p))
  }

  function ElfHead(data: seq<Byte>): seq<Byte> {
    if |data| <= MAX_ELF_BYTES then data else data[..MAX_ELF_BYTES]
  }

  function WithBinary(img: Image, p: string, needed: seq<string>): Image {
    img.(elfNeeded := if |needed| > 0 then img.elfNeeded[p := needed] else img.elfNeeded,
         elfInspected := img.elfInspected + 1)
  }

  /** The effect of one entry that does not fail. */
  function Step(img: Image, e: Entry, interesting: set<string>, extract: seq<Byte> -> seq<string>): Image {
    var p := NormalizePath(e.name);
    if p == "" then img
    else if IsWhiteout(p) then img.(files := Uncovered(img.files, p), elfNeeded := Uncovered(img.elfNeeded, p))
    else if !e.kind.Regular? then img
    else if p in interesting then img.(files := img.files[p := Capped(e.data)])
    else if Inspects(img, e, p) && HasELFMagic(ElfHead(e.data)) then WithBinary(img, p, extract(ElfHead(e.data)))
    else img
  }

  /** Entries in order, up to the first that fails. */
  function Run(img: Image, es: seq<Entry>, interesting: set<string>, extract: seq<Byte> -> seq<string>): (Image, bool) {
    if es == [] then (img, true)
    else
      var (before, ok) := Run(img, es[..|es| - 1], interesting, extract);
      var last := es[|es| - 1];
      if !ok || Fails(before, last, interesting) then (before, false)
      else (Step(before, last, interesting, extract), true)
  }

  lemma RunOneMore(img: Image, es: seq<Entry>, i: nat, interesting: set<string>, extract: seq<Byte> -> seq<string>)
    requires i < |es|
    ensures var (before, ok) := Run(img, es[..i], interesting, extract);
            Run(img, es[..i + 1], interesting, extract) ==
            if !ok || Fails(before, es[i], interesting) then (before, false)
            else (Step(before, es[i], interesting, extract), true)
  {
    assert es[..i + 1][..i] == es[..i];
  }

  /** After a failure nothing changes any more. */
  lemma {:induction false} RunStops(
    img: Image, es: seq<Entry>, i: nat, interesting: set<string>, extract: seq<Byte> -> seq<string>)
    requires i <= |es| && !Run(img, es[..i], interesting, extract).1
    ensures Run(img, es, interesting, extract) == Run(img, es[..i], interesting, extract)
  {
    if i == |es| {
      assert es[..i] == es;
    } else {
      var init := es[..|es| - 1];
      assert init[..i] == es[..i];
      RunStops(img, init, i, interesting, extract);
    }
  }

  /** Inspection is bounded, and every recorded binary was inspected. */
  predicate Bounded(img: Image) {
    |img.elfNeeded| <= img.elfInspected <= MAX_ELF_INSPECTIONS
  }

  lemma UncoveredIsSmaller<T>(m: map<string, T>, p: string)
    ensures |Uncovered(m, p)| <= |m|
  {
    Subsize(Uncovered(m, p).Keys, m.Keys);
  }

  lemma {:induction false} Subsize(a: set<string>, b: set<string>)
    requires a <= b
    ensures |a| <= |b|
  {
    if a != {} {
      var x :| x in a;
      Subsize(a - {x}, b - {x});
    }
  }

  lemma StepKeepsBound(img: Image, e: Entry, interesting: set<string>, extract: seq<Byte> -> seq<string>)
    requires Bounded(img)
    ensures Bounded(Step(img, e, interesting, extract))
  {
    hide NormalizePath, IsWhiteout, IsELFCandidate, HasELFMagic, Uncovered, Capped;
    var p := NormalizePath(e.name);
    UncoveredIsSmaller(img.elfNeeded, p);
    PutGrowsByOne(img.elfNeeded, p, extract(ElfHead(e.data)));
  }

  lemma PutGrowsByOne<T>(m: map<string, T>, k: string, v: T)
    ensures |m[k := v]| <= |m| + 1
  {
    assert m[k := v].Keys == m.Keys + {k};
  }

  lemma StepFiles(img: Image, e: Entry, interesting: set<string>, extract: seq<Byte> -> seq<string>)
    ensures Step(img, e, interesting, extract).files == Apply(img.files, e, NormalizePath, interesting)
  {
    hide NormalizePath, IsWhiteout, IsELFCandidate, HasELFMagic, Capped, Covers;
  }

  /** No stream of entries, whatever their order, sizes and contents, gets more than 100 binaries inspected. */
  lemma {:induction false} RunKeepsBound(
    img: Image, es: seq<Entry>, interesting: set<string>, extract: seq<Byte> -> seq<string>)
    requires Bounded(img)
    ensures Bounded(Run(img, es, interesting, extract).0)
  {
    if es != [] {
      RunKeepsBound(img, es[..|es| - 1], interesting, extract);
      StepKeepsBound(Run(img, es[..|es| - 1], interesting, extract).0, es[|es| - 1], interesting, extract);
    }
  }

  /** The tracked files do not depend on the ELF side of the state: a run applies a prefix of the entries, all of
      them unless one fails. */
  lemma {:induction false} RunApplies(
    img: Image, es: seq<Entry>, interesting: set<string>, extract: seq<Byte> -> seq<string>)
    returns (n: nat)
    ensures n <= |es| && (Run(img, es, interesting, extract).1 <==> n == |es|)
    ensures Run(img, es, interesting, extract).0.files == ApplyAll(img.files, es[..n], NormalizePath, interesting)
  {
    hide Fails, Step, Apply;
    if es == [] {
      n := 0;
    } else {
      var init, last := es[..|es| - 1], es[|es| - 1];
      n := RunApplies(img, init, interesting, extract);
      assert init[..n] == es[..n];
      if n == |init| && !Fails(Run(img, init, interesting, extract).0, last, interesting) {
        n := |es|;
        StepFiles(Run(img, init, interesting, extract).0, last, interesting, extract);
        assert es[..n] == es && init[..|init|] == init;
      }
    }
  }

  class ImageFS {
    var files: Files
    var elfNeeded: map<string, seq<string>>
    var elfInspected: nat
    const interesting: set<string>
    /** The dynamic dependencies of an ELF binary; decoding them is not modelled. */
    const extractNeeded: seq<Byte> -> seq<string>

    function State(): Image
      reads this
    {
      Image(files, elfNeeded, elfInspected)
    }

    ghost predicate Valid()
      reads this
    {
      Bounded(State())
    }

    constructor (interesting: set<string>, extractNeeded: seq<Byte> -> seq<string>)
      ensures Valid() && State() == Image(map[], map[], 0)
      ensures this.interesting == interesting && this.extractNeeded == extractNeeded
    {
      files, elfNeeded, elfInspected := map[], map[], 0;
      this.interesting, this.extractNeeded := interesting, extractNeeded;
    }

    /** A whiteout: one opaque directory, or one path. */
    method Whiteout(p: string)
      requires IsWhiteout(p)
      modifies this
      ensures files == Uncovered(old(files), p) && elfNeeded == Uncovered(old(elfNeeded), p)
      ensures elfInspected == old(elfInspected)
    {
      hide Base, Dir, JoinPath;
      if Base(p) == OPAQUE {
        var prefix := Dir(p) + "/";
        files := DeleteUnder(files, prefix);
        elfNeeded := DeleteUnder(elfNeeded, prefix);
      } else {
        var deleted := JoinPath(Dir(p), TrimPrefix(Base(p), ".wh."));
        files := files - {deleted};
        elfNeeded := elfNeeded - {deleted};
      }
    }

    /** A regular file: contents of a tracked path, or a binary worth an inspection. Fails when it cannot be read. */
    method TakeFile(p: string, e: Entry) returns (ok: bool)
      requires p == NormalizePath(e.name) && p != "" && !IsWhiteout(p) && e.kind.Regular?
      modifies this
      ensures ok == !Fails(old(State()), e, interesting)
      ensures State() == if ok then Step(old(State()), e, interesting, extractNeeded) else old(State())
    {
      hide NormalizePath, IsWhiteout, HasELFMagic, IsELFCandidate, Capped, ElfHead;
      if p in interesting {
        if !e.intact {
          return false;
        }
        files := files[p := Capped(e.data)];
      } else if IsELFCandidate(p) && elfInspected < MAX_ELF_INSPECTIONS && 0 < e.size <= MAX_ELF_BYTES {
        if !e.intact {
          return false;
        }
        var data := ElfHead(e.data);
        if !HasELFMagic(data) {
          return true;
        }
        var needed := extractNeeded(data);
        if |needed| > 0 {
          elfNeeded := elfNeeded[p := needed];
        }
        elfInspected := elfInspected + 1;
      }
      return true;
    }

    /** Merges one layer: the entries in order, until one fails or the stream ends. */
    method MergeLayer(layer: Layer) returns (ok: bool)
      requires Valid()
      modifies this
      ensures Valid()
      ensures State() == Run(old(State()), layer.entries, interesting, extractNeeded).0
      ensures ok == (Run(old(State()), layer.entries, interesting, extractNeeded).1 && layer.complete)
    {
      ghost var start := State();
      assert Run(start, [], interesting, extractNeeded) == (start, true);
      hide NormalizePath, Base, Run, Uncovered, HasPrefix, Bounded, Inspects, WithBinary, Capped, HasELFMagic;
      var es := layer.entries;
      assert es[..0] == [] && es[..|es|] == es;
      RunKeepsBound(start, es, interesting, extractNeeded);
      for i := 0 to |es|
        invariant Run(start, es[..i], interesting, extractNeeded) == (State(), true)
      {
        RunOneMore(start, es, i, interesting, extractNeeded);
        var e := es[i];
        var p := NormalizePath(e.name);
        if p == "" {
          continue;
        }
        if HasPrefix(Base(p), ".wh.") {
          Whiteout(p);
          continue;
        }
        if e.kind != Regular {
          continue;
        }
        hide Fails, Step;
        var taken := TakeFile(p, e);
        if !taken {
          RunStops(start, es, i + 1, interesting, extractNeeded);
          return false;
        }
      }
      return layer.complete;
    }
  }

  /** The decoded entries of an image, lowest layer first. */
  function Stream(layers: seq<Layer>): seq<Entry> {
    if layers == [] then [] else Stream(layers[..|layers| - 1]) + layers[|layers| - 1].entries
  }

  lemma StreamOneMore(layers: seq<Layer>, i: nat)
    requires i < |layers|
    ensures Stream(layers[..i + 1]) == Stream(layers[..i]) + layers[i].entries
  {
    assert layers[..i + 1][..i] == layers[..i];
  }

  lemma {:induction false} ApplyAllConcat(
    files: Files, a: seq<Entry>, b: seq<Entry>, norm: string -> string, interesting: set<string>)
    ensures ApplyAll(files, a + b, norm, interesting) ==
            ApplyAll(ApplyAll(files, a, norm, interesting), b, norm, interesting)
  {
    if b == [] {
      assert a + b == a;
    } else {
      assert (a + b)[..|a + b| - 1] == a + b[..|b| - 1];
      ApplyAllConcat(files, a, b[..|b| - 1], norm, interesting);
    }
  }

  lemma {:induction false} StreamConcat(a: seq<Layer>, b: seq<Layer>)
    ensures Stream(a + b) == Stream(a) + Stream(b)
  {
    if b == [] {
      assert a + b == a;
    } else {
      assert (a + b)[..|a + b| - 1] == a + b[..|b| - 1];
      StreamConcat(a, b[..|b| - 1]);
    }
  }

  /** Running over two streams is running over the second from where the first ends, if it does not fail. */
  lemma {:induction false} RunConcat(
    img: Image, a: seq<Entry>, b: seq<Entry>, interesting: set<string>, extract: seq<Byte> -> seq<string>)
    ensures var (mid, ok) := Run(img, a, interesting, extract);
            Run(img, a + b, interesting, extract) == if ok then Run(mid, b, interesting, extract) else (mid, false)
  {
    hide Fails, Step;
    if b == [] {
      assert a + b == a;
    } else {
      assert (a + b)[..|a + b| - 1] == a + b[..|b| - 1];
      RunConcat(img, a, b[..|b| - 1], interesting, extract);
    }
  }

  predicate AllComplete(layers: seq<Layer>) {
    forall i | 0 <= i < |layers| :: layers[i].complete
  }

  lemma RunIsOverlay(es: seq<Entry>, interesting: set<string>, extract: seq<Byte> -> seq<string>)
    requires Run(Image(map[], map[], 0), es, interesting, extract).1
    ensures Run(Image(map[], map[], 0), es, interesting, extract).0.files
            == ApplyAll(map[], es, NormalizePath, interesting)
  {
    hide Run, ApplyAll;
    var n := RunApplies(Image(map[], map[], 0), es, interesting, extract);
    assert es[..|es|] == es;
  }

  lemma LayerRuns(
    layers: seq<Layer>, i: nat, img: Image, interesting: set<string>, extract: seq<Byte> -> seq<string>)
    requires i < |layers| && AllComplete(layers[..i])
    requires Run(Image(map[], map[], 0), Stream(layers[..i]), interesting, extract) == (img, true)
    ensures Run(Image(map[], map[], 0), Stream(layers[..i + 1]), interesting, extract)
            == Run(img, layers[i].entries, interesting, extract)
    ensures layers[i].complete ==> AllComplete(layers[..i + 1])
  {
    hide Run, Stream;
    StreamOneMore(layers, i);
    RunConcat(Image(map[], map[], 0), Stream(layers[..i]), layers[i].entries, interesting, extract);
  }

  /** What fails on some of the layers fails on all of them. */
  lemma FailureStays(
    layers: seq<Layer>, i: nat, interesting: set<string>, extract: seq<Byte> -> seq<string>)
    requires i < |layers|
    requires !layers[i].complete || !Run(Image(map[], map[], 0), Stream(layers[..i + 1]), interesting, extract).1
    ensures !AllComplete(layers) || !Run(Image(map[], map[], 0), Stream(layers), interesting, extract).1
  {
    hide Run, Stream;
    assert layers == layers[..i + 1] + layers[i + 1..];
    StreamConcat(layers[..i + 1], layers[i + 1..]);
    RunConcat(Image(map[], map[], 0), Stream(layers[..i + 1]), Stream(layers[i + 1..]), interesting, extract);
  }

  /** The layers of an image, lowest first; the first failure ends the scan of the image. It succeeds if every layer is
      complete and no entry fails, and then holds what the run over all entries in order leaves. */
  method MergeImage(layers: seq<Layer>, interesting: set<string>, extractNeeded: seq<Byte> -> seq<string>)
    returns (ok: bool, files: Files, elfNeeded: map<string, seq<string>>)
    ensures ok <==> AllComplete(layers) && Run(Image(map[], map[], 0), Stream(layers), interesting, extractNeeded).1
    ensures ok ==>
              var img := Run(Image(map[], map[], 0), Stream(layers), interesting, extractNeeded).0;
              files == img.files && elfNeeded == img.elfNeeded
    ensures ok ==> files == ApplyAll(map[], Stream(layers), NormalizePath, interesting)
    ensures |elfNeeded| <= 100
  {
    ghost var start := Image(map[], map[], 0);
    assert Run(start, Stream([]), interesting, extractNeeded) == (start, true) && AllComplete([]);
    hide Apply, ApplyAll, Run, Stream, AllComplete, NormalizePath;
    var fs := new ImageFS(interesting, extractNeeded);
    assert layers[..0] == [] && layers[..|layers|] == layers;
    for i := 0 to |layers|
      invariant fs.Valid() && fresh(fs) && fs.interesting == interesting && fs.extractNeeded == extractNeeded
      invariant Run(start, Stream(layers[..i]), interesting, extractNeeded) == (fs.State(), true)
      invariant AllComplete(layers[..i])
    {
      LayerRuns(layers, i, fs.State(), interesting, extractNeeded);
      ok := fs.MergeLayer(layers[i]);
      if !ok {
        FailureStays(layers, i, interesting, extractNeeded);
        return false, fs.files, fs.elfNeeded;
      }
    }
    RunIsOverlay(Stream(layers), interesting, extractNeeded);
    return true, fs.files, fs.elfNeeded;
  }
}
