/** In-source waivers (internal/findings/waiver.go). Files are a parameter: for every path, the waiver markers of each
    line, as the regular expression finds them, or nothing for a file that cannot be opened. */
module Waivers {
  import opened Findings
  import opened Text

  datatype Waiver = Waiver(rule: string, reason: string, file: string, line: int)

  /** One marker: the rule, or `*`, and the reason. */
  datatype Mark = Mark(rule: string, reason: string)

  type FileMarks = seq<seq<Mark>>

  type FileWaivers = map<int, seq<Waiver>>

  // ----- The definition without a cache --------------------------------------------------------

  predicate Matches(rule: string, f: Finding) { rule == "*" || rule == f.rule }

  /** The markers of a line, counted from one. */
  function MarksOn(marks: FileMarks, line: int): seq<Mark> {
    if 1 <= line <= |marks| then marks[line - 1] else []
  }

  predicate MarkedOn(marks: FileMarks, line: int, f: Finding) {
    exists mark | mark in MarksOn(marks, line) :: Matches(mark.rule, f)
  }

  /** A finding with a line in a readable file is waived by a marker on that line or the line above. */
  predicate Waived(files: string -> Option<FileMarks>, f: Finding) {
    && f.file != "" && f.line != 0
    && files(f.file).Some?
    && (MarkedOn(files(f.file).value, f.line, f) || MarkedOn(files(f.file).value, f.line - 1, f))
  }

  /** The findings that are, or are not, waived, in order. */
  function Where(fs: seq<Finding>, files: string -> Option<FileMarks>, waived: bool): seq<Finding> {
    if fs == [] then []
    else
      var last := fs[|fs| - 1];
      Where(fs[..|fs| - 1], files, waived) + if Waived(files, last) == waived then [last] else []
  }

  // ----- The implementation ----------------------------------------------------------------------

  /** The waivers of one line. */
  function LineWaivers(marks: seq<Mark>, path: string, line: int): (r: seq<Waiver>)
    ensures |r| == |marks|
  {
    seq(|marks|, i requires 0 <= i < |marks| => Waiver(marks[i].rule, marks[i].reason, path, line))
  }

  /** The waivers of a file by line; a line without markers has no entry. */
  function ByLine(marks: FileMarks, path: string): FileWaivers {
    map n: int | 0 < n <= |marks| && MarksOn(marks, n) != [] :: LineWaivers(MarksOn(marks, n), path, n)
  }

  function Loaded(files: string -> Option<FileMarks>, path: string): FileWaivers {
    match files(path) case None => map[] case Some(marks) => ByLine(marks, path)
  }

  method LoadFile(files: string -> Option<FileMarks>, path: string, cache: map<string, FileWaivers>)
    returns (w: FileWaivers, cache': map<string, FileWaivers>)
    requires forall p | p in cache :: cache[p] == Loaded(files, p)
    ensures w == Loaded(files, path)
    ensures forall p | p in cache' :: cache'[p] == Loaded(files, p)
  {
    if path in cache {
      return cache[path], cache;
    }
    var out: FileWaivers := map[];
    var f := files(path);
    if f.None? {
      return out, cache[path := out];
    }
    var lines := f.value;
    for ln := 0 to |lines|
      invariant out == ByLine(lines[..ln], path)
    {
      var n := ln + 1;
      var found: seq<Waiver> := [];
      for m := 0 to |lines[ln]|
        invariant found == LineWaivers(lines[ln][..m], path, n)
      {
        found := found + [Waiver(lines[ln][m].rule, lines[ln][m].reason, path, n)];
      }
      assert lines[ln][..|lines[ln]|] == lines[ln];
      if found != [] {
        out := out[n := found];
      }
      ByLineOneMore(lines, ln, path);
    }
    assert lines[..|lines|] == lines;
    return out, cache[path := out];
  }

  lemma ByLineOneMore(marks: FileMarks, i: nat, path: string)
    requires i < |marks|
    ensures ByLine(marks[..i + 1], path) ==
            if marks[i] == [] then ByLine(marks[..i], path)
            else ByLine(marks[..i], path)[i + 1 := LineWaivers(marks[i], path, i + 1)]
  {
    hide LineWaivers;
    var a, b := marks[..i + 1], marks[..i];
    assert forall n | 1 <= n <= i :: MarksOn(a, n) == MarksOn(b, n);
    assert MarksOn(a, i + 1) == marks[i];
  }

  predicate Hit(ws: FileWaivers, line: int, f: Finding) {
    line in ws && exists w | w in ws[line] :: Matches(w.rule, f)
  }

  /** Looking a line up finds a match exactly when the line is marked. */
  lemma LookupIsMarked(marks: FileMarks, path: string, line: int, f: Finding)
    ensures MarkedOn(marks, line, f) <==> Hit(ByLine(marks, path), line, f)
  {
    hide Matches;
    var ms, ws := MarksOn(marks, line), LineWaivers(MarksOn(marks, line), path, line);
    if ms != [] {
      assert ByLine(marks, path)[line] == ws;
      assert forall i | 0 <= i < |ms| :: ws[i].rule == ms[i].rule && ms[i] in ms && ws[i] in ws;
    }
  }

  /** The waivers of a line are tried in order. */
  method MatchLine(ws: FileWaivers, line: int, f: Finding) returns (matched: bool)
    ensures matched == Hit(ws, line, f)
  {
    if line !in ws {
      return false;
    }
    var i := 0;
    while i < |ws[line]|
      invariant i <= |ws[line]| && forall w | w in ws[line][..i] :: !Matches(w.rule, f)
    {
      if ws[line][i].rule == "*" || ws[line][i].rule == f.rule {
        assert Matches(ws[line][i].rule, f);
        return true;
      }
      assert ws[line][..i + 1] == ws[line][..i] + [ws[line][i]];
      i := i + 1;
    }
    assert ws[line][..i] == ws[line];
    return false;
  }

  lemma WaivedIsHit(files: string -> Option<FileMarks>, f: Finding)
    ensures Waived(files, f) <==>
            f.file != "" && f.line != 0 &&
            (Hit(Loaded(files, f.file), f.line, f) || Hit(Loaded(files, f.file), f.line - 1, f))
  {
    assert forall line :: !Hit(map[], line, f);
    hide ByLine, Matches, MarkedOn, Hit;
    if files(f.file).Some? {
      LookupIsMarked(files(f.file).value, f.file, f.line, f);
      LookupIsMarked(files(f.file).value, f.file, f.line - 1, f);
    }
  }

  /** The cached pass computes the cache-free definition. */
  method ApplyWaivers(fs: seq<Finding>, files: string -> Option<FileMarks>)
    returns (kept: seq<Finding>, waived: seq<Finding>)
    ensures kept == Where(fs, files, false) && waived == Where(fs, files, true)
  {
    hide Waived, Loaded, Hit;
    kept, waived := [], [];
    var cache: map<string, FileWaivers> := map[];
    for i := 0 to |fs|
      invariant kept == Where(fs[..i], files, false) && waived == Where(fs[..i], files, true)
      invariant forall p | p in cache :: cache[p] == Loaded(files, p)
    {
      assert fs[..i + 1][..i] == fs[..i];
      var f := fs[i];
      WaivedIsHit(files, f);
      if f.file == "" || f.line == 0 {
        kept := kept + [f];
        continue;
      }
      var ws;
      ws, cache := LoadFile(files, f.file, cache);
      if |ws| == 0 {
        NoHit(ws, f.line, f);
        NoHit(ws, f.line - 1, f);
        kept := kept + [f];
        continue;
      }
      var matched := MatchLine(ws, f.line, f);
      if !matched {
        matched := MatchLine(ws, f.line - 1, f);
      }
      if matched {
        waived := waived + [f];
      } else {
        kept := kept + [f];
      }
    }
    assert fs[..|fs|] == fs;
  }

  lemma NoHit(ws: FileWaivers, line: int, f: Finding)
    requires |ws| == 0
    ensures !Hit(ws, line, f)
  {}

  // ----- Laws ----------------------------------------------------------------------------------------

  /** How the two results make up the input: `take[i]` says where finding i went. */
  ghost predicate Interleaved(fs: seq<Finding>, kept: seq<Finding>, waived: seq<Finding>, take: seq<bool>)
    decreases |fs|
  {
    && |take| == |fs|
    && if fs == [] then kept == [] && waived == []
       else
         var last, t := fs[|fs| - 1], take[..|fs| - 1];
         if take[|fs| - 1]
         then waived != [] && waived[|waived| - 1] == last
              && Interleaved(fs[..|fs| - 1], kept, waived[..|waived| - 1], t)
         else kept != [] && kept[|kept| - 1] == last && Interleaved(fs[..|fs| - 1], kept[..|kept| - 1], waived, t)
  }

  lemma WhereLast(fs: seq<Finding>, files: string -> Option<FileMarks>)
    requires fs != []
    ensures var init, last := fs[..|fs| - 1], fs[|fs| - 1];
            if Waived(files, last)
            then Where(fs, files, true) == Where(init, files, true) + [last]
                 && Where(fs, files, false) == Where(init, files, false)
            else Where(fs, files, false) == Where(init, files, false) + [last]
                 && Where(fs, files, true) == Where(init, files, true)
  {
    hide Waived;
  }

  /** The two lists make up the input in its order, each finding in the list that its waivers say. */
  lemma {:induction false} PartitionInOrder(fs: seq<Finding>, files: string -> Option<FileMarks>)
    returns (take: seq<bool>)
    ensures Interleaved(fs, Where(fs, files, false), Where(fs, files, true), take)
    ensures |take| == |fs| && forall i | 0 <= i < |fs| :: take[i] == Waived(files, fs[i])
  {
    hide Waived;
    if fs == [] {
      take := [];
    } else {
      var init, last := fs[..|fs| - 1], fs[|fs| - 1];
      var t := PartitionInOrder(init, files);
      take := t + [Waived(files, last)];
      assert take[..|init|] == t;
      var kept, waived := Where(init, files, false), Where(init, files, true);
      WhereLast(fs, files);
      hide Where;
      if Waived(files, last) {
        assert (waived + [last])[..|waived|] == waived;
      } else {
        assert (kept + [last])[..|kept|] == kept;
      }
    }
  }

  /** No finding is lost and none is invented. */
  lemma {:induction false} PartitionIsWhole(fs: seq<Finding>, files: string -> Option<FileMarks>)
    ensures multiset(fs) == multiset(Where(fs, files, false)) + multiset(Where(fs, files, true))
  {
    hide Waived;
    if fs != [] {
      PartitionIsWhole(fs[..|fs| - 1], files);
      assert fs == fs[..|fs| - 1] + [fs[|fs| - 1]];
    }
  }

  /** Findings that have no place in a readable file are never waived, whatever the markers say. */
  lemma PlacelessKept(files: string -> Option<FileMarks>, f: Finding)
    requires f.file == "" || f.line == 0 || files(f.file).None?
    ensures !Waived(files, f)
  {}

  /** One marker alone, on line n of one file, waives exactly the findings of that file on that line and the next, of
      its rule, or of any rule if it is a star. */
  lemma OneMarkerWaives(files: string -> Option<FileMarks>, path: string, marks: FileMarks, n: int, mark: Mark,
                        f: Finding)
    requires path != "" && files(path) == Some(marks) && 1 <= n <= |marks| && marks[n - 1] == [mark]
    requires forall i | 0 <= i < |marks| && i != n - 1 :: marks[i] == []
    requires f.file == path
    ensures Waived(files, f) <==>
            (f.line == n || f.line == n + 1) && (mark.rule == "*" || mark.rule == f.rule)
  {
    assert MarksOn(marks, n) == [mark];
    assert mark in MarksOn(marks, n);
    assert forall line | line != n :: MarksOn(marks, line) == [];
  }

  /** Markers only add to what is waived, and those of one file do not reach another. */
  lemma MoreMarkersWaiveMore(less: string -> Option<FileMarks>, more: string -> Option<FileMarks>, f: Finding)
    requires less(f.file).Some? ==>
               && more(f.file).Some?
               && forall line, mark | mark in MarksOn(less(f.file).value, line) ::
                    mark in MarksOn(more(f.file).value, line)
    ensures Waived(less, f) ==> Waived(more, f)
  {
    hide MarksOn, Matches;
    if Waived(less, f) {
      MarkedMore(less(f.file).value, more(f.file).value, f.line, f);
      MarkedMore(less(f.file).value, more(f.file).value, f.line - 1, f);
    }
  }

  lemma MarkedMore(less: FileMarks, more: FileMarks, line: int, f: Finding)
    requires forall mark | mark in MarksOn(less, line) :: mark in MarksOn(more, line)
    ensures MarkedOn(less, line, f) ==> MarkedOn(more, line, f)
  {
    hide MarksOn, Matches;
  }
}
