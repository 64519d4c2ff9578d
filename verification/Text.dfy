/** The parts of Go's `strings` package that the scanner's parsers are written with.
    A Go string is modelled as the sequence of its characters. */
module Text {

  datatype Option<+T> = None | Some(value: T)

  // ----- Searching ----------------------------------------------------------

  predicate HasPrefix(s: string, prefix: string) {
    |prefix| <= |s| && s[..|prefix|] == prefix
  }

  lemma PrefixChars(s: string, prefix: string)
    ensures HasPrefix(s, prefix) <==> |prefix| <= |s| && forall i | 0 <= i < |prefix| :: s[i] == prefix[i]
  {}

  predicate HasSuffix(s: string, suffix: string) {
    |suffix| <= |s| && s[|s| - |suffix|..] == suffix
  }

  /** strings.Contains: some position of `s` starts with `sub`. */
  predicate Contains(s: string, sub: string) {
    exists i | 0 <= i <= |s| :: HasPrefix(s[i..], sub)
  }

  /** strings.Index for a one-character needle, and bytes.IndexByte: the first position, or -1. */
  function Index<T(==)>(s: seq<T>, c: T): (i: int)
    ensures -1 <= i < |s|
    ensures i >= 0 ==> s[i] == c
    ensures forall k | 0 <= k < (if i < 0 then |s| else i) :: s[k] != c
  {
    if s == [] then -1
    else if s[0] == c then 0
    else
      var j := Index(s[1..], c);
      if j < 0 then -1 else j + 1
  }

  /** strings.LastIndex for a one-character needle: the last position, or -1. */
  function LastIndex(s: string, c: char): (i: int)
    ensures -1 <= i < |s|
    ensures i >= 0 ==> s[i] == c
    ensures forall k | i < k < |s| :: s[k] != c
  {
    if s == [] then -1
    else if s[|s| - 1] == c then |s| - 1
    else LastIndex(s[..|s| - 1], c)
  }

  lemma IndexIs(s: string, c: char, i: nat)
    requires i < |s| && s[i] == c
    requires forall k | 0 <= k < i :: s[k] != c
    ensures Index(s, c) == i
  {}

  lemma LastIndexIs(s: string, c: char, i: nat)
    requires i < |s| && s[i] == c
    requires forall k | i < k < |s| :: s[k] != c
    ensures LastIndex(s, c) == i
  {}

  /** The first separator after a part that does not hold it is the one that was put there. */
  lemma IndexAfter(a: string, c: char, b: string)
    requires c !in a
    ensures Index(a + [c] + b, c) == |a|
  {
    IndexIs(a + [c] + b, c, |a|);
  }

  /** The last separator before a part that does not hold it is the one that was put there. */
  lemma LastIndexBefore(a: string, c: char, b: string)
    requires c !in b
    ensures LastIndex(a + [c] + b, c) == |a|
  {
    LastIndexIs(a + [c] + b, c, |a|);
  }

  // ----- Splitting and joining ----------------------------------------------

  /** strings.Split for a one-character separator: never empty. */
  function Split(s: string, sep: char): (parts: seq<string>)
    ensures |parts| > 0
    decreases |s|
  {
    var i := Index(s, sep);
    if i < 0 then [s] else [s[..i]] + Split(s[i + 1..], sep)
  }

  function Join(parts: seq<string>, sep: string): string {
    if |parts| == 0 then ""
    else if |parts| == 1 then parts[0]
    else parts[0] + sep + Join(parts[1..], sep)
  }

  /** A part without the separator is split off whole. */
  lemma SplitFirst(head: string, sep: char, rest: string)
    requires sep !in head
    ensures Split(head + [sep] + rest, sep) == [head] + Split(rest, sep)
  {
    var s := head + [sep] + rest;
    IndexAfter(head, sep, rest);
    assert s[..|head|] == head;
    assert s[|head| + 1..] == rest;
  }

  lemma SplitWhole(s: string, sep: char)
    requires sep !in s
    ensures Split(s, sep) == [s]
  {}

  /** Splitting distributes over joining, whatever the parts hold. */
  lemma {:induction false} SplitJoined(a: string, sep: char, b: string)
    ensures Split(a + [sep] + b, sep) == Split(a, sep) + Split(b, sep)
    decreases |a|
  {
    hide Split, Index;
    var i := Index(a, sep);
    if i < 0 {
      SplitWhole(a, sep);
      SplitFirst(a, sep, b);
    } else {
      var head, rest := a[..i], a[i + 1..];
      var more := rest + [sep] + b;
      assert a == head + [sep] + rest;
      assert a + [sep] + b == head + [sep] + more;
      SplitJoined(rest, sep, b);
      SplitFirst(head, sep, more);
      SplitFirst(head, sep, rest);
      assert [head] + (Split(rest, sep) + Split(b, sep)) == ([head] + Split(rest, sep)) + Split(b, sep);
    }
  }

  lemma {:induction false} SplitJoin(parts: seq<string>, sep: char)
    requires |parts| > 0
    requires forall i | 0 <= i < |parts| :: sep !in parts[i]
    ensures Split(Join(parts, [sep]), sep) == parts
  {
    hide Split;
    if |parts| == 1 {
      SplitWhole(parts[0], sep);
    } else {
      var rest := Join(parts[1..], [sep]);
      SplitFirst(parts[0], sep, rest);
      SplitJoin(parts[1..], sep);
    }
  }

  lemma {:induction false} JoinAppend(parts: seq<string>, last: string, sep: string)
    requires |parts| > 0
    ensures Join(parts + [last], sep) == Join(parts, sep) + sep + last
  {
    if |parts| == 1 {
      assert (parts + [last])[1..] == [last];
    } else {
      assert (parts + [last])[1..] == parts[1..] + [last];
      JoinAppend(parts[1..], last, sep);
    }
  }

  lemma {:induction false} JoinConcat(a: seq<string>, b: seq<string>, sep: string)
    requires |a| > 0 && |b| > 0
    ensures Join(a + b, sep) == Join(a, sep) + sep + Join(b, sep)
  {
    if |a| == 1 {
      assert (a + b)[1..] == b;
    } else {
      assert (a + b)[1..] == a[1..] + b;
      JoinConcat(a[1..], b, sep);
    }
  }

  // ----- Trimming -----------------------------------------------------------

  /** unicode.IsSpace. */
  predicate IsSpace(c: char) {
    var n := c as int;
    || 0x09 <= n <= 0x0D || n == 0x20 || n == 0x85 || n == 0xA0 || n == 0x1680
    || 0x2000 <= n <= 0x200A || n == 0x2028 || n == 0x2029 || n == 0x202F || n == 0x205F || n == 0x3000
  }

  predicate Spaces(s: string) { forall i | 0 <= i < |s| :: IsSpace(s[i]) }

  function TrimLeft(s: string, cut: char -> bool): string {
    if s != [] && cut(s[0]) then TrimLeft(s[1..], cut) else s
  }

  function TrimRight(s: string, cut: char -> bool): string {
    if s != [] && cut(s[|s| - 1]) then TrimRight(s[..|s| - 1], cut) else s
  }

  /** strings.Trim with a cut set given as a predicate. */
  function TrimBoth(s: string, cut: char -> bool): string {
    TrimRight(TrimLeft(s, cut), cut)
  }

  function TrimSpace(s: string): string {
    TrimBoth(s, IsSpace)
  }

  /** Nothing is left to trim at the ends of `s`. */
  predicate Tight(s: string, cut: char -> bool) {
    s == [] || (!cut(s[0]) && !cut(s[|s| - 1]))
  }

  lemma TightStays(s: string, cut: char -> bool)
    requires Tight(s, cut)
    ensures TrimBoth(s, cut) == s
  {}

  lemma {:induction false} TrimLeftOf(a: string, b: string, cut: char -> bool)
    requires forall i | 0 <= i < |a| :: cut(a[i])
    ensures TrimLeft(a + b, cut) == TrimLeft(b, cut)
  {
    if a == [] {
      assert a + b == b;
    } else {
      assert (a + b)[1..] == a[1..] + b;
      TrimLeftOf(a[1..], b, cut);
    }
  }

  lemma {:induction false} TrimRightOf(a: string, b: string, cut: char -> bool)
    requires forall i | 0 <= i < |b| :: cut(b[i])
    ensures TrimRight(a + b, cut) == TrimRight(a, cut)
  {
    if b == [] {
      assert a + b == a;
    } else {
      assert (a + b)[..|a + b| - 1] == a + b[..|b| - 1];
      TrimRightOf(a, b[..|b| - 1], cut);
    }
  }

  /** What trimming on the right leaves is a prefix, it ends tight, and only `cut` characters went. */
  lemma {:induction false} TrimRightSplits(s: string, cut: char -> bool) returns (gone: string)
    ensures s == TrimRight(s, cut) + gone
    ensures forall i | 0 <= i < |gone| :: cut(gone[i])
    ensures TrimRight(s, cut) == [] || !cut(TrimRight(s, cut)[|TrimRight(s, cut)| - 1])
  {
    if s != [] && cut(s[|s| - 1]) {
      var init, last := s[..|s| - 1], s[|s| - 1];
      var g := TrimRightSplits(init, cut);
      assert TrimRight(s, cut) == TrimRight(init, cut);
      hide TrimRight;
      gone := g + [last];
      assert s == init + [last];
      assert TrimRight(init, cut) + gone == (TrimRight(init, cut) + g) + [last];
    } else {
      gone := [];
    }
  }

  lemma {:induction false} TrimLeftSplits(s: string, cut: char -> bool) returns (gone: string)
    ensures s == gone + TrimLeft(s, cut)
    ensures forall i | 0 <= i < |gone| :: cut(gone[i])
    ensures TrimLeft(s, cut) == [] || !cut(TrimLeft(s, cut)[0])
  {
    if s != [] && cut(s[0]) {
      var first, tail := s[0], s[1..];
      var g := TrimLeftSplits(tail, cut);
      assert TrimLeft(s, cut) == TrimLeft(tail, cut);
      hide TrimLeft;
      gone := [first] + g;
      assert s == [first] + tail;
      assert gone + TrimLeft(tail, cut) == [first] + (g + TrimLeft(tail, cut));
    } else {
      gone := [];
    }
  }

  /** Trimming the right end of a string that starts with a kept character only shortens its tail. */
  lemma {:induction false} TrimRightKeepsHead(a: string, b: string, cut: char -> bool)
    requires a != [] && !cut(a[|a| - 1])
    ensures TrimRight(a + b, cut) == a + TrimRight(b, cut)
  {
    if b != [] && cut(b[|b| - 1]) {
      assert (a + b)[..|a + b| - 1] == a + b[..|b| - 1];
      TrimRightKeepsHead(a, b[..|b| - 1], cut);
    } else if b == [] {
      assert a + b == a;
    }
  }

  /** Trimming is not disturbed by `cut` characters added at either end. */
  lemma TrimBothOf(a: string, s: string, b: string, cut: char -> bool)
    requires forall i | 0 <= i < |a| :: cut(a[i])
    requires forall i | 0 <= i < |b| :: cut(b[i])
    ensures TrimBoth(a + s + b, cut) == TrimBoth(s, cut)
  {
    assert a + s + b == a + (s + b);
    TrimLeftOf(a, s + b, cut);
    var g := TrimLeftSplits(s, cut);
    var t := TrimLeft(s, cut);
    assert s + b == g + (t + b);
    TrimLeftOf(g, t + b, cut);
    if t == [] {
      assert t + b == b;
      TrimLeftOf(b, [], cut);
      assert b + [] == b;
    } else {
      assert TrimLeft(t + b, cut) == t + b;
      TrimRightOf(t, b, cut);
    }
  }

  /** Trimming white space at both ends eats into the outer parts only. */
  lemma TrimmedAround(front: string, body: string, back: string, cut: char -> bool)
    requires body != "" && !cut(body[0]) && !cut(body[|body| - 1])
    ensures TrimBoth(front + body + back, cut) == TrimLeft(front, cut) + body + TrimRight(back, cut)
  {
    var lead := TrimLeft(front, cut);
    var gone := TrimLeftSplits(front, cut);
    assert front + body + back == gone + (lead + body + back);
    TrimLeftOf(gone, lead + body + back, cut);
    assert (lead + body + back)[0] == if lead == "" then body[0] else lead[0];
    assert (lead + body)[|lead + body| - 1] == body[|body| - 1];
    TrimRightKeepsHead(lead + body, back, cut);
  }

  /** A text that starts with a kept character keeps it, and what precedes that text is not touched. */
  lemma TrimTail(head: string, last: string, cut: char -> bool)
    requires last != "" && !cut(last[0])
    ensures TrimRight(head + last, cut) == head + TrimRight(last, cut)
    ensures TrimRight(last, cut) != "" && TrimRight(last, cut)[0] == last[0]
  {
    var first, rest := [last[0]], last[1..];
    assert last == first + rest;
    assert head + last == (head + first) + rest;
    TrimRightKeepsHead(head + first, rest, cut);
    TrimRightKeepsHead(first, rest, cut);
  }

  lemma TrimRightWithin(s: string, c: char, cut: char -> bool)
    requires c !in s
    ensures c !in TrimRight(s, cut)
  {
    var gone := TrimRightSplits(s, cut);
    assert forall x | x in TrimRight(s, cut) :: x in TrimRight(s, cut) + gone;
  }

  lemma TrimIsTight(s: string, cut: char -> bool)
    ensures Tight(TrimBoth(s, cut), cut)
    ensures TrimBoth(TrimBoth(s, cut), cut) == TrimBoth(s, cut)
  {
    var front := TrimLeftSplits(s, cut);
    var t := TrimLeft(s, cut);
    var back := TrimRightSplits(t, cut);
    TightStays(TrimBoth(s, cut), cut);
  }

  /** Trimming the right end first does not matter. */
  lemma TrimRightFirst(s: string, cut: char -> bool)
    ensures TrimBoth(TrimRight(s, cut), cut) == TrimBoth(s, cut)
  {
    var gone := TrimRightSplits(s, cut);
    var t := TrimRight(s, cut);
    TrimBothOf("", t, gone, cut);
    assert "" + t + gone == s;
  }

  /** Trimming a text trims its last part, unless the separator itself could be trimmed. */
  lemma {:induction false} SplitTrimRight(s: string, sep: char, cut: char -> bool)
    requires !cut(sep)
    ensures var parts := Split(s, sep);
            Split(TrimRight(s, cut), sep) == parts[..|parts| - 1] + [TrimRight(parts[|parts| - 1], cut)]
    decreases |s|
  {
    hide Split, TrimRight, Index;
    var i := Index(s, sep);
    if i < 0 {
      TrimRightWithin(s, sep, cut);
      SplitWhole(s, sep);
      SplitWhole(TrimRight(s, cut), sep);
    } else {
      var head, rest := s[..i], s[i + 1..];
      assert s == (head + [sep]) + rest;
      TrimRightKeepsHead(head + [sep], rest, cut);
      SplitTrimRight(rest, sep, cut);
      SplitFirst(head, sep, rest);
      SplitFirst(head, sep, TrimRight(rest, cut));
      var parts := Split(rest, sep);
      assert ([head] + parts)[..|parts|] == [head] + parts[..|parts| - 1];
    }
  }

  // ----- Parsing parts one by one -------------------------------------------------

  /** Parse every part, or fail with the first that does not parse. */
  function MapAll<T>(parts: seq<string>, parse: string -> Option<T>): Option<seq<T>> {
    if parts == [] then Some([])
    else if parse(parts[0]).None? then None
    else
      match MapAll(parts[1..], parse)
      case None => None
      case Some(rest) => Some([parse(parts[0]).value] + rest)
  }

  lemma {:induction false} MapAllAppend<T>(parts: seq<string>, last: string, parse: string -> Option<T>)
    ensures MapAll(parts + [last], parse) ==
            if MapAll(parts, parse).None? || parse(last).None? then None
            else Some(MapAll(parts, parse).value + [parse(last).value])
  {
    var all := parts + [last];
    if parts == [] {
      assert all[1..] == [];
      if parse(last).Some? {
        assert [parse(last).value] + [] == [] + [parse(last).value];
      }
    } else {
      assert all[0] == parts[0] && all[1..] == parts[1..] + [last];
      MapAllAppend(parts[1..], last, parse);
      if MapAll(all, parse).Some? {
        var first, rest := parse(parts[0]).value, MapAll(parts[1..], parse).value;
        assert [first] + (rest + [parse(last).value]) == ([first] + rest) + [parse(last).value];
      }
    }
  }

  lemma {:induction false} MapAllFails<T>(parts: seq<string>, i: nat, parse: string -> Option<T>)
    requires i < |parts| && parse(parts[i]).None?
    ensures MapAll(parts, parse).None?
  {
    if i > 0 {
      MapAllFails(parts[1..], i - 1, parse);
    }
  }

  lemma {:induction false} MapAllConcat<T>(a: seq<string>, b: seq<string>, parse: string -> Option<T>)
    ensures MapAll(a + b, parse) ==
            if MapAll(a, parse).None? || MapAll(b, parse).None? then None
            else Some(MapAll(a, parse).value + MapAll(b, parse).value)
  {
    if a == [] {
      assert a + b == b;
      if MapAll(b, parse).Some? {
        assert [] + MapAll(b, parse).value == MapAll(b, parse).value;
      }
    } else {
      assert (a + b)[0] == a[0] && (a + b)[1..] == a[1..] + b;
      MapAllConcat(a[1..], b, parse);
      if MapAll(a + b, parse).Some? {
        var first := parse(a[0]).value;
        assert [first] + (MapAll(a[1..], parse).value + MapAll(b, parse).value)
               == ([first] + MapAll(a[1..], parse).value) + MapAll(b, parse).value;
      }
    }
  }
}
