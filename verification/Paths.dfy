/** Slash-separated paths and the segments they stand for. */
module Paths {
  import opened Text

  // ----- Go's path functions ----------------------------------------------------------------

  function Significant(parts: seq<string>): seq<string> {
    if parts == [] then []
    else (if parts[0] == "" || parts[0] == "." then [] else [parts[0]]) + Significant(parts[1..])
  }

  /** path.Clean, for a path without `..` segments. */
  function Clean(s: string): string {
    var body := Join(Significant(Split(s, '/')), "/");
    if s != "" && s[0] == '/' then "/" + body else if body == "" then "." else body
  }

  predicate IsSlash(c: char) { c == '/' }

  function Base(p: string): string {
    if p == "" then "."
    else
      var s := TrimRight(p, IsSlash);
      if s == "" then "/" else s[LastIndex(s, '/') + 1..]
  }

  function Dir(p: string): string {
    Clean(p[..LastIndex(p, '/') + 1])
  }

  /** path.Join of a directory, which is never empty, and a name. */
  function JoinPath(dir: string, name: string): string {
    if name == "" then Clean(dir) else Clean(dir + "/" + name)
  }

  // ----- Segments -----------------------------------------------------------------------------

  predicate Segment(s: string) { s != "" && '/' !in s }

  predicate Segments(parts: seq<string>) {
    forall i | 0 <= i < |parts| :: Segment(parts[i])
  }

  function PathText(parts: seq<string>): string { Join(parts, "/") }

  lemma TextSplits(parts: seq<string>)
    requires parts != [] && Segments(parts)
    ensures Split(PathText(parts), '/') == parts
  {
    SplitJoin(parts, '/');
    assert "/" == ['/'];
  }

  /** Splitting is undone by joining, so different segments give different texts. */
  lemma TextInjective(a: seq<string>, b: seq<string>)
    requires a != [] && b != [] && Segments(a) && Segments(b)
    ensures PathText(a) == PathText(b) <==> a == b
  {
    TextSplits(a);
    TextSplits(b);
  }

  lemma SplitConcat(a: seq<string>, rest: string)
    requires a != [] && Segments(a)
    ensures Split(PathText(a) + "/" + rest, '/') == a + Split(rest, '/')
  {
    TextSplits(a);
    SplitJoined(PathText(a), '/', rest);
  }

  /** The string test for "below a directory" is proper ancestry, segment by segment. */
  lemma BelowIsAncestry(a: seq<string>, b: seq<string>)
    requires a != [] && b != [] && Segments(a) && Segments(b)
    ensures HasPrefix(PathText(b), PathText(a) + "/") <==> a < b
  {
    if a < b {
      var rest := b[|a|..];
      assert b == a + rest;
      JoinConcat(a, rest, "/");
      PrefixOf(PathText(a) + "/", PathText(rest));
    }
    if HasPrefix(PathText(b), PathText(a) + "/") {
      var rest := PathText(b)[|PathText(a)| + 1..];
      assert PathText(b) == PathText(a) + "/" + rest;
      SplitConcat(a, rest);
      TextSplits(b);
    }
  }

  lemma PrefixOf(a: string, b: string)
    ensures HasPrefix(a + b, a)
  {}

  lemma TextEnds(parts: seq<string>)
    requires |parts| > 1
    ensures var init, last := parts[..|parts| - 1], parts[|parts| - 1];
            PathText(parts) == PathText(init) + "/" + last
  {
    var init, last := parts[..|parts| - 1], parts[|parts| - 1];
    assert parts == init + [last];
    JoinAppend(init, last, "/");
  }

  /** A path starts and ends as its first and last segments do. */
  lemma TextNotSlashed(parts: seq<string>)
    requires parts != [] && Segments(parts)
    ensures var p := PathText(parts); p != "" && p[0] == parts[0][0] && p[0] != '/' && p[|p| - 1] != '/'
  {
    var last := parts[|parts| - 1];
    assert Segment(last) && Segment(parts[0]);
    assert last[|last| - 1] != '/';
    if |parts| > 1 {
      TextEnds(parts);
      assert PathText(parts) == parts[0] + "/" + PathText(parts[1..]);
    }
  }
}
