/** Two entries of the shipped catalog (internal/deps/osv_entries.go) whose advisories name several intervals: their
    text matches no version at all. */
module ShippedEntries {
  import opened Osv
  import opened Text
  import opened Versions

  // ----- Windows ------------------------------------------------------------------------

  /** An interval as an advisory lists it: from one version up to, but not with, another. */
  datatype Window = Window(from: string, until: string)

  function WindowEvents(ws: seq<Window>): seq<Event> {
    if ws == [] then []
    else
      var last := ws[|ws| - 1];
      WindowEvents(ws[..|ws| - 1]) + [Event(last.from, "", ""), Event("", last.until, "")]
  }

  /** The clauses of the emitted text; the lower bound 0 has none. */
  function WindowClauses(ws: seq<Window>): seq<string> {
    if ws == [] then []
    else
      var last := ws[|ws| - 1];
      WindowClauses(ws[..|ws| - 1]) + (if last.from == "0" then [] else [">=" + last.from]) + ["<" + last.until]
  }

  predicate PlainText(s: string) { s != "" && s[0] != '=' && ',' !in s }

  predicate PlainWindows(ws: seq<Window>) {
    forall i | 0 <= i < |ws| :: PlainText(ws[i].from) && PlainText(ws[i].until)
  }

  /** The intervals stand in version order, and none is empty. */
  predicate InOrder(ws: seq<Window>) {
    && (forall i | 0 <= i < |ws| :: Compare(VersionOf(ws[i].from), VersionOf(ws[i].until)) < 0)
    && (forall i | 0 <= i < |ws| - 1 :: Compare(VersionOf(ws[i].until), VersionOf(ws[i + 1].from)) <= 0)
  }

  lemma EventClausesAppend(init: seq<Event>, e: Event)
    ensures EventClauses(init + [e]) ==
            EventClauses(init) + (if EventClause(e).Some? then [EventClause(e).value] else [])
  {
    assert (init + [e])[..|init|] == init;
  }

  lemma WindowEventsOneMore(ws: seq<Window>)
    requires ws != []
    ensures var w := ws[|ws| - 1];
            var lower, upper := Event(w.from, "", ""), Event("", w.until, "");
            WindowEvents(ws) == (WindowEvents(ws[..|ws| - 1]) + [lower]) + [upper]
  {}

  lemma {:induction false} ClausesOfWindows(ws: seq<Window>)
    requires PlainWindows(ws)
    ensures EventClauses(WindowEvents(ws)) == WindowClauses(ws)
  {
    if ws != [] {
      var init, w := ws[..|ws| - 1], ws[|ws| - 1];
      var lower, upper := Event(w.from, "", ""), Event("", w.until, "");
      assert PlainText(w.from) && PlainText(w.until);
      assert EventClause(upper) == Some("<" + w.until);
      assert EventClause(lower) == if w.from == "0" then None else Some(">=" + w.from);
      ClausesOfWindows(init);
      WindowEventsOneMore(ws);
      hide EventClauses, EventClause, WindowEvents;
      EventClausesAppend(WindowEvents(init), lower);
      EventClausesAppend(WindowEvents(init) + [lower], upper);
    }
  }

  lemma {:induction false} WindowsWellFormed(ws: seq<Window>)
    requires PlainWindows(ws)
    ensures AllWellFormed(WindowEvents(ws)) && AllPrintable(WindowEvents(ws))
  {
    if ws != [] {
      assert PlainText(ws[|ws| - 1].from) && PlainText(ws[|ws| - 1].until);
      WindowsWellFormed(ws[..|ws| - 1]);
    }
  }

  lemma ChainAppend(bounds: seq<Bound>, b: Bound)
    requires bounds == [] ==> b.From?
    requires bounds != [] ==> Chain(bounds) && Before(bounds[|bounds| - 1], b)
    ensures Chain(bounds + [b])
  {
    var more := bounds + [b];
    forall k | 0 <= k < |more| - 1 ensures Before(more[k], more[k + 1]) {
      if k + 1 < |bounds| {
        assert Before(bounds[k], bounds[k + 1]);
      }
    }
  }

  lemma {:induction false} WindowsChain(ws: seq<Window>)
    requires ws != [] && PlainWindows(ws) && InOrder(ws)
    ensures var bs := Bounds(WindowEvents(ws));
            && Chain(bs) && |bs| == 2 * |ws| && bs[0] == From(VersionOf(ws[0].from))
            && bs[|bs| - 1] == Until(VersionOf(ws[|ws| - 1].until))
  {
    hide VersionOf, Compare, Chain;
    var init, w := ws[..|ws| - 1], ws[|ws| - 1];
    var lower, upper := Event(w.from, "", ""), Event("", w.until, "");
    assert PlainText(w.from) && PlainText(w.until);
    assert BoundOf(lower) == From(VersionOf(w.from)) && BoundOf(upper) == Until(VersionOf(w.until));
    var before := Bounds(WindowEvents(init));
    WindowEventsOneMore(ws);
    BoundsAppend(WindowEvents(init) + [lower]);
    BoundsAppend(WindowEvents(ws));
    assert (WindowEvents(init) + [lower])[..|WindowEvents(init)|] == WindowEvents(init);
    assert WindowEvents(ws)[..|WindowEvents(ws)| - 1] == WindowEvents(init) + [lower];
    assert Bounds(WindowEvents(ws)) == (before + [BoundOf(lower)]) + [BoundOf(upper)];
    if init != [] {
      assert InOrder(init) && Compare(VersionOf(ws[|ws| - 2].until), VersionOf(ws[|ws| - 1].from)) <= 0;
      WindowsChain(init);
    } else {
      assert before == [];
    }
    ChainAppend(before, BoundOf(lower));
    ChainAppend(before + [BoundOf(lower)], BoundOf(upper));
  }

  lemma {:induction false} WindowEventsConcat(a: seq<Window>, b: seq<Window>)
    ensures WindowEvents(a + b) == WindowEvents(a) + WindowEvents(b)
  {
    if b == [] {
      assert a + b == a;
    } else {
      assert (a + b)[..|a + b| - 1] == a + b[..|b| - 1];
      WindowEventsConcat(a, b[..|b| - 1]);
    }
  }

  /** Events whose bounds chain as they are listed are listed in version order. */
  lemma ChainIsSorted(order: seq<Event>)
    requires Chain(Bounds(order))
    ensures Sorted(Bounds(order))
  {
    forall i, j | 0 <= i < j < |order| ensures Compare(Bounds(order)[i].ver, Bounds(order)[j].ver) <= 0 {
      BoundsOrdered(Bounds(order), i, j);
    }
  }

  /** Two or more disjoint windows, the last of them possibly listed out of its place: the advisory's text matches no
      version, although its least version is affected. */
  lemma WindowsAreDead(first: seq<Window>, last: seq<Window>, rest: seq<Window>, v: Version)
    requires first != [] && |first| + |last| + |rest| >= 2
    requires PlainWindows(first + last + rest) && InOrder(first + last + rest)
    requires NonNegative(v)
    ensures var listed := first + rest + last;
            var ranges := [Range("ECOSYSTEM", WindowEvents(listed))];
            && Intervals(WindowEvents(listed))
            && ConstraintText(ranges) == Some(Join(WindowClauses(listed), ","))
            && !Satisfies(Imported(ranges), v)
            && AffectedBy(WindowEvents(listed), VersionOf(first[0].from))
  {
    var listed, sorted := first + rest + last, first + last + rest;
    var events, order := WindowEvents(listed), WindowEvents(sorted);
    ListedWindows(first, last, rest);
    WindowsChain(sorted);
    ChainIsSorted(order);
    hide VersionOf, Compare, WindowEvents, WindowClauses, Chain, Sorted, InOrder, PlainWindows, AffectedBy,
         Compiled, Satisfies;
    assert IsSortOf(order, events);
    assert |events| == |multiset(events)| == |order| > 2;
    LowestIsAffected(events, order);
    MoreIntervalsMatchNothing(events, v);
    assert |WindowClauses(listed)| > 0;
    assert Chosen([Range("ECOSYSTEM", events)]) == 0;
    CompileThenParse(events);
  }

  lemma ListedWindows(first: seq<Window>, last: seq<Window>, rest: seq<Window>)
    requires first != [] && PlainWindows(first + last + rest)
    ensures var listed, sorted := first + rest + last, first + last + rest;
            && multiset(WindowEvents(sorted)) == multiset(WindowEvents(listed))
            && AllWellFormed(WindowEvents(listed)) && AllPrintable(WindowEvents(listed))
            && EventClauses(WindowEvents(listed)) == WindowClauses(listed) && WindowClauses(listed) != []
  {
    var listed, sorted := first + rest + last, first + last + rest;
    WindowEventsConcat(first + rest, last);
    WindowEventsConcat(first, rest);
    WindowEventsConcat(first + last, rest);
    WindowEventsConcat(first, last);
    assert PlainWindows(listed) by {
      forall i | 0 <= i < |listed| ensures PlainText(listed[i].from) && PlainText(listed[i].until) {
        assert listed[i] in first || listed[i] in rest || listed[i] in last;
        assert listed[i] in sorted;
      }
    }
    ClausesOfWindows(listed);
    WindowsWellFormed(listed);
  }

  lemma SmallDecimals()
    ensures Decimal(0) == "0" && Decimal(1) == "1" && Decimal(2) == "2" && Decimal(3) == "3" && Decimal(5) == "5"
    ensures Decimal(6) == "6" && Decimal(8) == "8" && Decimal(9) == "9"
    ensures Decimal(10) == "10" && Decimal(17) == "17" && Decimal(18) == "18"
  {}

  lemma TextOfVersion(v: Version, major: string, minor: string, patch: string)
    requires 0 <= v.major < 100 && 0 <= v.minor < 100 && 0 <= v.patch < 100
    requires Decimal(v.major) == major && Decimal(v.minor) == minor && Decimal(v.patch) == patch
    ensures VersionOf(major + "." + minor + "." + patch) == v
  {
    hide VersionOf, Decimal;
    ParseShow(v);
  }

  // ----- The entries ---------------------------------------------------------------------

  /** The intervals behind PYSEC-2022-166. */
  const PYSEC_2022_166: seq<Window> := [Window("0", "2.9.3"), Window("2.10.0", "2.10.1")]

  lemma Versions166()
    ensures VersionOf("2.9.3") == Version(2, 9, 3)
    ensures VersionOf("2.10.0") == Version(2, 10, 0)
    ensures VersionOf("2.10.1") == Version(2, 10, 1)
  {
    SmallDecimals();
    hide VersionOf, Decimal;
    TextOfVersion(Version(2, 9, 3), "2", "9", "3");
    assert "2" + "." + "9" + "." + "3" == "2.9.3";
    TextOfVersion(Version(2, 10, 0), "2", "10", "0");
    assert "2" + "." + "10" + "." + "0" == "2.10.0";
    TextOfVersion(Version(2, 10, 1), "2", "10", "1");
    assert "2" + "." + "10" + "." + "1" == "2.10.1";
  }

  lemma InOrder166()
    ensures InOrder(PYSEC_2022_166) && PlainWindows(PYSEC_2022_166)
  {
    Versions166();
    ZeroText();
    hide VersionOf;
    assert PlainText("0") && PlainText("2.9.3") && PlainText("2.10.0") && PlainText("2.10.1");
  }

  lemma WindowClausesAppend(ws: seq<Window>, w: Window)
    ensures WindowClauses(ws + [w]) ==
            WindowClauses(ws) + (if w.from == "0" then [] else [">=" + w.from]) + ["<" + w.until]
  {
    assert (ws + [w])[..|ws|] == ws;
  }

  /** One more window in the text. */
  lemma TextOneMore(ws: seq<Window>, w: Window, text: string, longer: string)
    requires WindowClauses(ws) != [] && w.from != "0" && Join(WindowClauses(ws), ",") == text
    requires text + ",>=" + w.from + ",<" + w.until == longer
    ensures WindowClauses(ws + [w]) != [] && Join(WindowClauses(ws + [w]), ",") == longer
  {
    WindowClausesAppend(ws, w);
    var clauses := WindowClauses(ws);
    JoinAppend(clauses, ">=" + w.from, ",");
    JoinAppend(clauses + [">=" + w.from], "<" + w.until, ",");
    assert WindowClauses(ws + [w]) == (clauses + [">=" + w.from]) + ["<" + w.until];
    assert text + "," + (">=" + w.from) + "," + ("<" + w.until) == longer;
  }

  /** The text of a first window from zero. */
  lemma FirstText(w: Window)
    requires w.from == "0"
    ensures WindowClauses([w]) != [] && Join(WindowClauses([w]), ",") == "<" + w.until
  {
    assert WindowClauses([]) == [];
    WindowClausesAppend([], w);
    assert [] + [w] == [w];
    assert WindowClauses([w]) == ["<" + w.until];
  }

  lemma Text166()
    ensures Join(WindowClauses(PYSEC_2022_166), ",") == "<2.9.3,>=2.10.0,<2.10.1"
  {
    hide WindowClauses, Join;
    var first, second := PYSEC_2022_166[0], PYSEC_2022_166[1];
    FirstText(first);
    Literal166();
    TextOneMore([first], second, "<2.9.3", "<2.9.3,>=2.10.0,<2.10.1");
    assert [first] + [second] == PYSEC_2022_166;
  }

  lemma Literal166()
    ensures "<" + "2.9.3" == "<2.9.3"
    ensures "<2.9.3" + ",>=" + "2.10.0" + ",<" + "2.10.1" == "<2.9.3,>=2.10.0,<2.10.1"
  {}

  /** The shipped text of PYSEC-2022-166 matches no version, although version 0.0.0 is affected. */
  lemma ShippedEntryIsDead(v: Version)
    requires NonNegative(v)
    ensures var ranges := [Range("ECOSYSTEM", WindowEvents(PYSEC_2022_166))];
            && ConstraintText(ranges) == Some("<2.9.3,>=2.10.0,<2.10.1")
            && !Satisfies(Imported(ranges), v)
            && AffectedBy(ranges[0].events, ZERO)
  {
    InOrder166();
    Text166();
    ZeroText();
    hide VersionOf, WindowEvents, WindowClauses, InOrder, Satisfies, AffectedBy;
    var ws := PYSEC_2022_166;
    assert ws + [] + [] == ws;
    WindowsAreDead(ws, [], [], v);
  }

  /** The intervals behind PYSEC-2018-19: the last one listed belongs after the first. */
  const FIRST_19: seq<Window> := [Window("0", "1.17.6")]
  const REST_19: seq<Window> := [
    Window("2.0.0", "2.0.8"), Window("2.1.0", "2.1.5"), Window("2.2.0", "2.2.3"), Window("2.3.0", "2.3.2")]
  const LAST_19: seq<Window> := [Window("1.18.0", "1.18.5")]

  lemma Versions19()
    ensures VersionOf("1.17.6") == Version(1, 17, 6)
    ensures VersionOf("1.18.0") == Version(1, 18, 0) && VersionOf("1.18.5") == Version(1, 18, 5)
    ensures VersionOf("2.0.0") == Version(2, 0, 0) && VersionOf("2.0.8") == Version(2, 0, 8)
  {
    SmallDecimals();
    hide VersionOf, Decimal;
    TextOfVersion(Version(1, 17, 6), "1", "17", "6");
    assert "1" + "." + "17" + "." + "6" == "1.17.6";
    TextOfVersion(Version(1, 18, 0), "1", "18", "0");
    assert "1" + "." + "18" + "." + "0" == "1.18.0";
    TextOfVersion(Version(1, 18, 5), "1", "18", "5");
    assert "1" + "." + "18" + "." + "5" == "1.18.5";
    TextOfVersion(Version(2, 0, 0), "2", "0", "0");
    assert "2" + "." + "0" + "." + "0" == "2.0.0";
    TextOfVersion(Version(2, 0, 8), "2", "0", "8");
    assert "2" + "." + "0" + "." + "8" == "2.0.8";
  }

  lemma MoreVersions19()
    ensures VersionOf("2.1.0") == Version(2, 1, 0) && VersionOf("2.1.5") == Version(2, 1, 5)
    ensures VersionOf("2.2.0") == Version(2, 2, 0) && VersionOf("2.2.3") == Version(2, 2, 3)
    ensures VersionOf("2.3.0") == Version(2, 3, 0) && VersionOf("2.3.2") == Version(2, 3, 2)
  {
    SmallDecimals();
    hide VersionOf, Decimal;
    TextOfVersion(Version(2, 1, 0), "2", "1", "0");
    assert "2" + "." + "1" + "." + "0" == "2.1.0";
    TextOfVersion(Version(2, 1, 5), "2", "1", "5");
    assert "2" + "." + "1" + "." + "5" == "2.1.5";
    TextOfVersion(Version(2, 2, 0), "2", "2", "0");
    assert "2" + "." + "2" + "." + "0" == "2.2.0";
    TextOfVersion(Version(2, 2, 3), "2", "2", "3");
    assert "2" + "." + "2" + "." + "3" == "2.2.3";
    TextOfVersion(Version(2, 3, 0), "2", "3", "0");
    assert "2" + "." + "3" + "." + "0" == "2.3.0";
    TextOfVersion(Version(2, 3, 2), "2", "3", "2");
    assert "2" + "." + "3" + "." + "2" == "2.3.2";
  }

  lemma InOrder19()
    ensures InOrder(FIRST_19 + LAST_19 + REST_19) && PlainWindows(FIRST_19 + LAST_19 + REST_19)
  {
    Versions19();
    MoreVersions19();
    ZeroText();
    hide VersionOf;
    assert PlainText("0") && PlainText("1.17.6") && PlainText("1.18.0") && PlainText("1.18.5");
    assert PlainText("2.0.0") && PlainText("2.0.8") && PlainText("2.1.0") && PlainText("2.1.5");
    assert PlainText("2.2.0") && PlainText("2.2.3") && PlainText("2.3.0") && PlainText("2.3.2");
  }

  /** The text that the catalog ships for it, window by window. */
  const TEXT_19_0: string := "<1.17.6"
  const TEXT_19_1: string := "<1.17.6,>=2.0.0,<2.0.8"
  const TEXT_19_2: string := "<1.17.6,>=2.0.0,<2.0.8,>=2.1.0,<2.1.5"
  const TEXT_19_3: string := "<1.17.6,>=2.0.0,<2.0.8,>=2.1.0,<2.1.5,>=2.2.0,<2.2.3"
  const TEXT_19_4: string := "<1.17.6,>=2.0.0,<2.0.8,>=2.1.0,<2.1.5,>=2.2.0,<2.2.3,>=2.3.0,<2.3.2"
  const TEXT_19_5: string := "<1.17.6,>=2.0.0,<2.0.8,>=2.1.0,<2.1.5,>=2.2.0,<2.2.3,>=2.3.0,<2.3.2,>=1.18.0,<1.18.5"

  lemma Extends1()
    ensures TEXT_19_0 + ",>=" + "2.0.0" + ",<" + "2.0.8" == TEXT_19_1
  {}

  lemma Extends2()
    ensures TEXT_19_1 + ",>=" + "2.1.0" + ",<" + "2.1.5" == TEXT_19_2
  {}

  lemma Extends3()
    ensures TEXT_19_2 + ",>=" + "2.2.0" + ",<" + "2.2.3" == TEXT_19_3
  {}

  lemma Extends4()
    ensures TEXT_19_3 + ",>=" + "2.3.0" + ",<" + "2.3.2" == TEXT_19_4
  {}

  lemma Extends5()
    ensures TEXT_19_4 + ",>=" + "1.18.0" + ",<" + "1.18.5" == TEXT_19_5
  {}

  lemma FirstText19()
    ensures WindowClauses(FIRST_19) != [] && Join(WindowClauses(FIRST_19), ",") == TEXT_19_0
  {
    hide WindowClauses, Join;
    FirstText(FIRST_19[0]);
    assert FIRST_19 == [FIRST_19[0]];
    assert "<" + "1.17.6" == TEXT_19_0;
  }

  lemma Text19()
    ensures Join(WindowClauses(FIRST_19 + REST_19 + LAST_19), ",") == TEXT_19_5
  {
    hide WindowClauses, Join;
    FirstText19();
    Extends1();
    TextOneMore(FIRST_19, REST_19[0], TEXT_19_0, TEXT_19_1);
    Extends2();
    TextOneMore(FIRST_19 + [REST_19[0]], REST_19[1], TEXT_19_1, TEXT_19_2);
    Extends3();
    TextOneMore(FIRST_19 + [REST_19[0]] + [REST_19[1]], REST_19[2], TEXT_19_2, TEXT_19_3);
    Extends4();
    TextOneMore(FIRST_19 + [REST_19[0]] + [REST_19[1]] + [REST_19[2]], REST_19[3], TEXT_19_3, TEXT_19_4);
    Extends5();
    TextOneMore(FIRST_19 + [REST_19[0]] + [REST_19[1]] + [REST_19[2]] + [REST_19[3]], LAST_19[0], TEXT_19_4, TEXT_19_5);
    assert FIRST_19 + REST_19 + LAST_19
           == FIRST_19 + [REST_19[0]] + [REST_19[1]] + [REST_19[2]] + [REST_19[3]] + [LAST_19[0]];
  }

  /** The shipped text of PYSEC-2018-19, whose intervals are not even listed in order, matches no version either. */
  lemma UnorderedEntryIsDead(v: Version)
    requires NonNegative(v)
    ensures var listed := FIRST_19 + REST_19 + LAST_19;
            var ranges := [Range("ECOSYSTEM", WindowEvents(listed))];
            && ConstraintText(ranges) == Some(TEXT_19_5)
            && !Satisfies(Imported(ranges), v)
            && AffectedBy(ranges[0].events, ZERO)
  {
    InOrder19();
    Text19();
    ZeroText();
    hide VersionOf, WindowEvents, WindowClauses, InOrder, Satisfies, AffectedBy;
    WindowsAreDead(FIRST_19, LAST_19, REST_19, v);
  }
}
