/** Which binaries of an image are inspected and what is kept of them (internal/container/layers.go), told by the stream
    of entries alone. */
module Binaries {
  import opened Bytes
  import opened Text
  import opened Layers
  import opened Overlay

  const EMPTY := Image(map[], map[], 0)

  /** The contents as they are read: fifty mebibytes at most. */
  function Head(e: Entry): seq<Byte> {
    if |e.data| <= 52428800 then e.data else e.data[..52428800]
  }

  /** A regular file where binaries live, of a decent size, that is none of the extracted files and starts like ELF. */
  predicate Worth(e: Entry, interesting: set<string>) {
    var p := NormalizePath(e.name);
    && p != "" && !IsWhiteout(p) && e.kind.Regular? && p !in interesting && IsELFCandidate(p)
    && 1 <= e.size <= 52428800 && |Head(e)| >= 4 && Head(e)[..4] == [0x7F, 0x45, 0x4C, 0x46]
  }

  function Counted(es: seq<Entry>, interesting: set<string>): nat {
    if es == [] then 0
    else Counted(es[..|es| - 1], interesting) + if Worth(es[|es| - 1], interesting) then 1 else 0
  }

  /** One of the first hundred that are worth it. */
  predicate Inspected(es: seq<Entry>, i: nat, interesting: set<string>) {
    i < |es| && Worth(es[i], interesting) && Counted(es[..i], interesting) < 100
  }

  /** Entry i gives the path its dependencies. */
  predicate Records(es: seq<Entry>, i: nat, p: string, interesting: set<string>, extract: seq<Byte> -> seq<string>) {
    Inspected(es, i, interesting) && NormalizePath(es[i].name) == p && extract(Head(es[i])) != []
  }

  /** Nothing later records the path again or deletes it. */
  predicate Stays(es: seq<Entry>, i: nat, p: string, interesting: set<string>, extract: seq<Byte> -> seq<string>) {
    && Records(es, i, p, interesting, extract)
    && forall j | i < j < |es| :: !Records(es, j, p, interesting, extract) && !Deletes(es[j], p, NormalizePath)
  }

  lemma InspectsIsWorth(img: Image, e: Entry, interesting: set<string>)
    ensures var p := NormalizePath(e.name);
            (p != "" && !IsWhiteout(p) && e.kind.Regular? && p !in interesting && Inspects(img, e, p)
             && HasELFMagic(ElfHead(e.data)))
            <==> Worth(e, interesting) && img.elfInspected < 100
    ensures ElfHead(e.data) == Head(e)
  {
    hide NormalizePath, IsWhiteout, IsELFCandidate;
  }

  lemma StepBinaries(img: Image, e: Entry, p: string, interesting: set<string>, extract: seq<Byte> -> seq<string>)
    ensures var after := Step(img, e, interesting, extract);
            var taken := Worth(e, interesting) && img.elfInspected < 100;
            && after.elfInspected == img.elfInspected + (if taken then 1 else 0)
            && (taken && NormalizePath(e.name) == p && extract(Head(e)) != [] ==>
                  p in after.elfNeeded && after.elfNeeded[p] == extract(Head(e)))
            && (!(taken && NormalizePath(e.name) == p && extract(Head(e)) != []) ==>
                  && (p in after.elfNeeded <==> p in img.elfNeeded && !Deletes(e, p, NormalizePath))
                  && (p in after.elfNeeded ==> after.elfNeeded[p] == img.elfNeeded[p]))
  {
    InspectsIsWorth(img, e, interesting);
    hide NormalizePath, IsWhiteout, Inspects, HasELFMagic, ElfHead, Head, Worth, Capped, Covers;
  }

  lemma RecordsOfPrefix(es: seq<Entry>, n: nat, i: nat, p: string, interesting: set<string>,
                        extract: seq<Byte> -> seq<string>)
    requires n <= |es|
    ensures Records(es[..n], i, p, interesting, extract) <==> Records(es, i, p, interesting, extract) && i < n
  {
    hide NormalizePath, Worth;
    if i < n {
      assert es[..n][..i] == es[..i] && es[..n][i] == es[i];
    }
  }

  /** What is recorded when no entry fails: the first hundred binaries that are worth it are inspected, and a path holds
      the dependencies that the last of them found there, unless a whiteout behind it covers the path. */
  lemma {:induction false} BinariesClosedForm(es: seq<Entry>, p: string, interesting: set<string>,
                                              extract: seq<Byte> -> seq<string>)
    requires Run(EMPTY, es, interesting, extract).1
    ensures var img := Run(EMPTY, es, interesting, extract).0;
            && img.elfInspected == (if Counted(es, interesting) < 100 then Counted(es, interesting) else 100)
            && (p in img.elfNeeded <==> exists i: nat :: Stays(es, i, p, interesting, extract))
            && forall i: nat | Stays(es, i, p, interesting, extract) ::
                 p in img.elfNeeded && img.elfNeeded[p] == extract(Head(es[i]))
  {
    hide Worth, Step, Deletes, Fails, Head, NormalizePath;
    if es != [] {
      var n := |es| - 1;
      var init, last := es[..n], es[n];
      BinariesClosedForm(init, p, interesting, extract);
      var before := Run(EMPTY, init, interesting, extract).0;
      StepBinaries(before, last, p, interesting, extract);
      forall i: nat
        ensures Records(init, i, p, interesting, extract) <==> Records(es, i, p, interesting, extract) && i < n
      {
        RecordsOfPrefix(es, n, i, p, interesting, extract);
      }
      if Records(es, n, p, interesting, extract) {
        assert Stays(es, n, p, interesting, extract);
      } else {
        StaysLonger(es, p, interesting, extract);
        if p in before.elfNeeded && !Deletes(last, p, NormalizePath) {
          var i: nat :| Stays(init, i, p, interesting, extract);
          assert Stays(es, i, p, interesting, extract);
        }
      }
    }
  }

  lemma StaysLonger(es: seq<Entry>, p: string, interesting: set<string>, extract: seq<Byte> -> seq<string>)
    requires es != [] && !Records(es, |es| - 1, p, interesting, extract)
    requires forall i: nat :: Records(es[..|es| - 1], i, p, interesting, extract)
                              <==> Records(es, i, p, interesting, extract) && i < |es| - 1
    ensures forall i: nat :: Stays(es, i, p, interesting, extract) <==>
              Stays(es[..|es| - 1], i, p, interesting, extract) && !Deletes(es[|es| - 1], p, NormalizePath)
  {
    hide Records, Deletes;
    var n := |es| - 1;
    forall i: nat ensures Stays(es, i, p, interesting, extract) <==>
                    Stays(es[..n], i, p, interesting, extract) && !Deletes(es[n], p, NormalizePath)
    {
      assert forall j | 0 <= j < n :: es[..n][j] == es[j];
      if Stays(es, i, p, interesting, extract) {
        RecordsInside(es, i, p, interesting, extract);
      }
      if Stays(es[..n], i, p, interesting, extract) && !Deletes(es[n], p, NormalizePath) {
        forall j | i < j < |es|
          ensures !Records(es, j, p, interesting, extract) && !Deletes(es[j], p, NormalizePath)
        {
          if j < n { assert es[..n][j] == es[j]; }
        }
      }
    }
  }

  lemma RecordsInside(es: seq<Entry>, i: nat, p: string, interesting: set<string>, extract: seq<Byte> -> seq<string>)
    requires Records(es, i, p, interesting, extract)
    ensures i < |es|
  {}

  /** The merge has to read the contents of entry i: it is an extracted file, or a regular file where binaries live, of
      a decent size, while fewer than a hundred have been inspected. */
  predicate Needed(es: seq<Entry>, i: nat, interesting: set<string>) {
    && i < |es|
    && var p := NormalizePath(es[i].name);
       && p != "" && !IsWhiteout(p) && es[i].kind.Regular?
       && (p in interesting
           || (IsELFCandidate(p) && 1 <= es[i].size <= 52428800 && Counted(es[..i], interesting) < 100))
  }

  predicate Broken(es: seq<Entry>, i: nat, interesting: set<string>) {
    Needed(es, i, interesting) && !es[i].intact
  }

  lemma BrokenOfPrefix(es: seq<Entry>, n: nat, i: nat, interesting: set<string>)
    requires n <= |es|
    ensures Broken(es[..n], i, interesting) <==> Broken(es, i, interesting) && i < n
  {
    hide NormalizePath, IsWhiteout, IsELFCandidate;
    if i < n {
      assert es[..n][..i] == es[..i] && es[..n][i] == es[i];
    }
  }

  lemma FailsIsBroken(img: Image, es: seq<Entry>, n: nat, interesting: set<string>)
    requires n < |es|
    requires img.elfInspected == if Counted(es[..n], interesting) < 100 then Counted(es[..n], interesting) else 100
    ensures Fails(img, es[n], interesting) <==> Broken(es, n, interesting)
  {
    hide NormalizePath, IsWhiteout, IsELFCandidate, Counted;
  }

  /** The merge fails exactly when it has to read an entry whose contents cannot be read. */
  lemma {:induction false} RunFailsIff(es: seq<Entry>, interesting: set<string>, extract: seq<Byte> -> seq<string>)
    ensures !Run(EMPTY, es, interesting, extract).1 <==> exists i: nat :: Broken(es, i, interesting)
  {
    hide Broken, Fails, Step, Counted;
    if es == [] {
      NothingBroken(interesting);
    } else {
      var n := |es| - 1;
      var init := es[..n];
      RunFailsIff(init, interesting, extract);
      forall i: nat ensures Broken(init, i, interesting) <==> Broken(es, i, interesting) && i < n {
        BrokenOfPrefix(es, n, i, interesting);
      }
      if Run(EMPTY, init, interesting, extract).1 {
        BinariesClosedForm(init, "", interesting, extract);
        FailsIsBroken(Run(EMPTY, init, interesting, extract).0, es, n, interesting);
      }
      forall i: nat | Broken(es, i, interesting) ensures i <= n {
        BrokenInside(es, i, interesting);
      }
    }
  }

  lemma NothingBroken(interesting: set<string>)
    ensures forall i: nat :: !Broken([], i, interesting)
  {}

  lemma BrokenInside(es: seq<Entry>, i: nat, interesting: set<string>)
    requires Broken(es, i, interesting)
    ensures i < |es|
  {}
}
