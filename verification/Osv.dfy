/** The OSV importer (internal/osv/osv.go): affected-version events are printed as
    constraint text, which the catalog later parses and evaluates. The meaning of the
    source is the evaluation algorithm of the OSV Schema, section "Evaluation", over
    three-component versions. */
module Osv {
  import opened Text
  import opened Versions

  /** One boundary of a range. The schema populates exactly one of `introduced`, `fixed`, `last_affected` and `limit`;
      the importer does not read `limit`, so that such an event arrives empty. */
  datatype Event = Event(introduced: string, fixed: string, lastAffected: string)

  datatype Range = Range(kind: string, events: seq<Event>)

  // ----- The compiler: ranges to constraint text -----------------------------

  function EventClause(e: Event): Option<string> {
    if e.fixed != "" then Some("<" + e.fixed)
    else if e.lastAffected != "" then Some("<=" + e.lastAffected)
    else if e.introduced != "" && e.introduced != "0" then Some(">=" + e.introduced)
    else None
  }

  function EventClauses(events: seq<Event>): seq<string> {
    if events == [] then []
    else
      var last := events[|events| - 1];
      EventClauses(events[..|events| - 1]) +
      (match EventClause(last) case Some(c) => [c] case None => [])
  }

  /** The range the importer encodes: the first that is not a GIT range and yields a clause. */
  function Chosen(ranges: seq<Range>): (i: nat)
    ensures i <= |ranges|
    ensures i < |ranges| ==> ranges[i].kind != "GIT" && EventClauses(ranges[i].events) != []
    ensures forall k | 0 <= k < i :: ranges[k].kind == "GIT" || EventClauses(ranges[k].events) == []
  {
    if ranges == [] then 0
    else if ranges[0].kind != "GIT" && EventClauses(ranges[0].events) != [] then 0
    else 1 + Chosen(ranges[1..])
  }

  function ConstraintText(ranges: seq<Range>): Option<string> {
    var i := Chosen(ranges);
    if i < |ranges| then Some(Join(EventClauses(ranges[i].events), ",")) else None
  }

  method RangesToConstraint(ranges: seq<Range>) returns (text: string, encodable: bool)
    ensures encodable <==> ConstraintText(ranges).Some?
    ensures text == if encodable then ConstraintText(ranges).value else ""
  {
    for r := 0 to |ranges|
      invariant forall k | 0 <= k < r :: ranges[k].kind == "GIT" || EventClauses(ranges[k].events) == []
    {
      if ranges[r].kind == "GIT" {
        continue;
      }
      var events := ranges[r].events;
      var clauses: seq<string> := [];
      for i := 0 to |events|
        invariant clauses == EventClauses(events[..i])
      {
        assert events[..i + 1][..i] == events[..i];
        var e := events[i];
        if e.fixed != "" {
          clauses := clauses + ["<" + e.fixed];
        } else if e.lastAffected != "" {
          clauses := clauses + ["<=" + e.lastAffected];
        } else if e.introduced != "" && e.introduced != "0" {
          clauses := clauses + [">=" + e.introduced];
        }
      }
      assert events[..|events|] == events;
      if |clauses| == 0 {
        continue;
      }
      assert Chosen(ranges) == r;
      return Join(clauses, ","), true;
    }
    return "", false;
  }

  // ----- Reading the text back ------------------------------------------------

  /** The clause an event stands for. */
  function EventConstraint(e: Event): Option<Constraint> {
    if e.fixed != "" then Some(Constraint(OpLT, VersionOf(e.fixed)))
    else if e.lastAffected != "" then Some(Constraint(OpLE, VersionOf(e.lastAffected)))
    else if e.introduced != "" && e.introduced != "0" then Some(Constraint(OpGE, VersionOf(e.introduced)))
    else None
  }

  function Compiled(events: seq<Event>): seq<Constraint> {
    if events == [] then []
    else
      var last := events[|events| - 1];
      Compiled(events[..|events| - 1]) +
      (match EventConstraint(last) case Some(c) => [c] case None => [])
  }

  /** What the text format demands of version strings: no comma, and no `=` right after `<`. */
  predicate Printable(e: Event) {
    && ',' !in e.introduced && ',' !in e.fixed && ',' !in e.lastAffected
    && (e.fixed != "" ==> e.fixed[0] != '=')
  }

  predicate AllPrintable(events: seq<Event>) {
    forall i | 0 <= i < |events| :: Printable(events[i])
  }

  /** Trimming the right end first, or trimming twice, does not change the parsed version. */
  lemma VersionOfTrimmed(s: string)
    ensures VersionOf(TrimSpace(TrimRight(s, IsSpace))) == VersionOf(s)
  {
    TrimRightFirst(s, IsSpace);
    TrimIsTight(s, IsSpace);
  }

  lemma TrimAfterOperator(op: string, s: string)
    requires op != "" && !IsSpace(op[0]) && !IsSpace(op[|op| - 1])
    ensures TrimSpace(op + s) == op + TrimRight(s, IsSpace)
  {
    TrimmedAround("", op, s, IsSpace);
    assert "" + op + s == op + s;
  }

  /** An operator followed by text with no `=` in front is read as the one-character operator. */
  lemma LessThanClause(t: string)
    ensures t == "" || t[0] != '=' ==> ClauseOf("<" + t) == Constraint(OpLT, VersionOf(TrimSpace(t)))
    ensures t != "" && t[0] == '=' ==> ClauseOf("<" + t).op == OpLE
  {
    hide VersionOf, TrimSpace;
    var s := "<" + t;
    assert s[1..] == t;
    assert HasPrefix(s, "<=") <==> t != "" && t[0] == '=' by {
      if t != "" { assert s[..2] == ['<', t[0]]; }
    }
    assert s[..1] == "<";
  }

  /** A printed upper bound is read back as that bound exactly when it does not begin with `=`. */
  lemma FixedReadsBack(f: string)
    requires f != ""
    ensures ClauseOf(TrimSpace("<" + f)) == Constraint(OpLT, VersionOf(f)) <==> f[0] != '='
  {
    TrimAfterOperator("<", f);
    TrimRightHead(f);
    LessThanClause(TrimRight(f, IsSpace));
    VersionOfTrimmed(f);
  }

  lemma TrimRightHead(f: string)
    requires f != ""
    ensures TrimRight(f, IsSpace) == "" || TrimRight(f, IsSpace)[0] == f[0]
    ensures f[0] == '=' ==> TrimRight(f, IsSpace) != ""
  {
    var gone := TrimRightSplits(f, IsSpace);
    if TrimRight(f, IsSpace) == "" {
      assert f == gone;
    }
  }

  lemma OperatorReadsBack(op: string, s: string)
    requires op == "<=" || op == ">="
    ensures ClauseOf(TrimSpace(op + s)) == Constraint(if op == "<=" then OpLE else OpGE, VersionOf(s))
  {
    TrimAfterOperator(op, s);
    var t := op + TrimRight(s, IsSpace);
    assert t[2..] == TrimRight(s, IsSpace) && t[..2] == op;
    VersionOfTrimmed(s);
  }

  /** A part that opens a clause: not blank, and it carries no comma. */
  predicate Opens(part: string) {
    part != "" && ',' !in part && !IsSpace(part[0])
  }

  lemma ClauseReadsBack(e: Event)
    requires Printable(e) && EventClause(e).Some?
    ensures var c := EventClause(e).value;
            Opens(c) && PartClause(c) == EventConstraint(e)
  {
    if e.fixed != "" {
      FixedReadsBack(e.fixed);
      TrimAfterOperator("<", e.fixed);
    } else if e.lastAffected != "" {
      OperatorReadsBack("<=", e.lastAffected);
      TrimAfterOperator("<=", e.lastAffected);
    } else {
      OperatorReadsBack(">=", e.introduced);
      TrimAfterOperator(">=", e.introduced);
    }
  }

  lemma {:induction false} ClausesReadBack(events: seq<Event>)
    requires AllPrintable(events)
    ensures MapAll(EventClauses(events), PartClause) == Some(Compiled(events))
    ensures forall i | 0 <= i < |EventClauses(events)| :: Opens(EventClauses(events)[i])
  {
    if events != [] {
      var init, last := events[..|events| - 1], events[|events| - 1];
      ClausesReadBack(init);
      ClausesAppendEvent(events);
      if EventClause(last).Some? {
        ClauseReadsBack(last);
        MapAllAppend(EventClauses(init), EventClause(last).value, PartClause);
      } else {
        assert EventClauses(events) == EventClauses(init) && Compiled(events) == Compiled(init);
      }
    }
  }

  lemma ClausesAppendEvent(events: seq<Event>)
    requires events != []
    ensures var init, last := events[..|events| - 1], events[|events| - 1];
            EventClauses(events) ==
            EventClauses(init) + (if EventClause(last).Some? then [EventClause(last).value] else [])
    ensures var init, last := events[..|events| - 1], events[|events| - 1];
            Compiled(events) ==
            Compiled(init) + (if EventConstraint(last).Some? then [EventConstraint(last).value] else [])
    ensures EventClause(events[|events| - 1]).Some? == EventConstraint(events[|events| - 1]).Some?
  {}

  lemma TrimKeepsOpening(last: string)
    requires Opens(last)
    ensures TrimRight(last, IsSpace) != "" && ',' !in TrimRight(last, IsSpace)
    ensures PartClause(TrimRight(last, IsSpace)) == PartClause(last)
  {
    TrimTail("", last, IsSpace);
    TrimRightWithin(last, ',', IsSpace);
    TrimRightFirst(last, IsSpace);
  }

  /** Trailing white space of the last part is all that trimming the joined text removes. */
  lemma TrimJoined(init: seq<string>, last: string)
    requires Opens(last)
    requires forall i | 0 <= i < |init| :: Opens(init[i])
    ensures TrimSpace(Join(init + [last], ",")) == Join(init + [TrimRight(last, IsSpace)], ",")
  {
    var cut := TrimRight(last, IsSpace);
    if init == [] {
      assert init + [last] == [last] && init + [cut] == [cut];
      TrimKeepsOpening(last);
      assert TrimLeft(last, IsSpace) == last;
    } else {
      JoinAppend(init, last, ",");
      JoinAppend(init, cut, ",");
      var head := Join(init, ",") + ",";
      TrimTail(head, last, IsSpace);
      JoinHead(init);
      assert (head + last)[0] == init[0][0];
      assert TrimLeft(head + last, IsSpace) == head + last;
    }
  }

  lemma JoinHead(parts: seq<string>)
    requires parts != [] && parts[0] != ""
    ensures Join(parts, ",") != "" && Join(parts, ",")[0] == parts[0][0]
  {}

  /** Joined parts are split again, the last one trimmed on the right. */
  lemma SplitTrimmed(init: seq<string>, last: string)
    requires Opens(last)
    requires forall i | 0 <= i < |init| :: Opens(init[i])
    ensures ConstraintsOf(Join(init + [last], ",")) == MapAll(init + [TrimRight(last, IsSpace)], PartClause)
  {
    TrimJoined(init, last);
    TrimKeepsOpening(last);
    var parts := init + [TrimRight(last, IsSpace)];
    SplitJoin(parts, ',');
    JoinHead(parts);
  }

  /** Printing the events and parsing the text yields the clauses the events stand for. */
  lemma CompileThenParse(events: seq<Event>)
    requires AllPrintable(events)
    requires EventClauses(events) != []
    ensures ConstraintsOf(Join(EventClauses(events), ",")) == Some(Compiled(events))
  {
    hide EventClauses, Compiled, PartClause, TrimRight;
    var parts := EventClauses(events);
    ClausesReadBack(events);
    var init, last := parts[..|parts| - 1], parts[|parts| - 1];
    assert parts == init + [last];
    assert forall i | 0 <= i < |init| :: init[i] == parts[i];
    SplitTrimmed(init, last);
    TrimKeepsOpening(last);
    MapAllAppend(init, last, PartClause);
    MapAllAppend(init, TrimRight(last, IsSpace), PartClause);
  }

  // ----- The meaning of a range: OSV evaluation -------------------------------

  /** The schema's rule for an event, limits apart. */
  predicate WellFormed(e: Event) {
    || (e.introduced != "" && e.fixed == "" && e.lastAffected == "")
    || (e.introduced == "" && e.fixed != "" && e.lastAffected == "")
    || (e.introduced == "" && e.fixed == "" && e.lastAffected != "")
  }

  predicate AllWellFormed(events: seq<Event>) {
    forall i | 0 <= i < |events| :: WellFormed(events[i])
  }

  /** One event of the evaluation loop. */
  function Effect(e: Event, v: Version, vulnerable: bool): bool {
    if e.introduced != "" && Compare(v, VersionOf(e.introduced)) >= 0 then true
    else if e.fixed != "" && Compare(v, VersionOf(e.fixed)) >= 0 then false
    else if e.lastAffected != "" && Compare(v, VersionOf(e.lastAffected)) > 0 then false
    else vulnerable
  }

  function Evaluate(events: seq<Event>, v: Version): bool {
    if events == [] then false
    else Effect(events[|events| - 1], v, Evaluate(events[..|events| - 1], v))
  }

  /** What a well-formed event says, without its text. */
  datatype Bound = From(ver: Version) | Until(ver: Version) | Through(ver: Version) {
    predicate Admits(v: Version) {
      match this
      case From(b) => Compare(v, b) >= 0
      case Until(b) => Compare(v, b) < 0
      case Through(b) => Compare(v, b) <= 0
    }
  }

  function BoundOf(e: Event): Bound {
    if e.introduced != "" then From(VersionOf(e.introduced))
    else if e.fixed != "" then Until(VersionOf(e.fixed))
    else Through(VersionOf(e.lastAffected))
  }

  function Bounds(events: seq<Event>): seq<Bound> {
    seq(|events|, i requires 0 <= i < |events| => BoundOf(events[i]))
  }

  predicate Sorted(bounds: seq<Bound>) {
    forall i, j | 0 <= i < j < |bounds| :: Compare(bounds[i].ver, bounds[j].ver) <= 0
  }

  /** `order` is a way to sort the events of a range; ties may fall either way. */
  ghost predicate IsSortOf(order: seq<Event>, events: seq<Event>) {
    Sorted(Bounds(order)) && multiset(order) == multiset(events)
  }

  /** v is affected by the events of a range, however ties are sorted. */
  ghost predicate AffectedBy(events: seq<Event>, v: Version) {
    forall order | IsSortOf(order, events) :: Evaluate(order, v)
  }

  /** Version v is affected by some range. GIT ranges speak of commits, not versions. */
  ghost predicate Affected(ranges: seq<Range>, v: Version) {
    exists i | 0 <= i < |ranges| :: ranges[i].kind != "GIT" && AffectedBy(ranges[i].events, v)
  }

  predicate HasIntroduced(events: seq<Event>) {
    exists i | 0 <= i < |events| :: events[i].introduced != ""
  }

  /** The zero version is the least a version text can denote. */
  predicate NonNegative(v: Version) { v.major >= 0 && v.minor >= 0 && v.patch >= 0 }

  lemma ParsedIsNonNegative(s: string)
    ensures NonNegative(VersionOf(s))
  {}

  lemma ZeroText()
    ensures VersionOf("0") == ZERO
  {
    PlainVersionText("0");
    assert Split("0", '.') == ["0"];
  }

  // The same evaluation over bounds.

  function BoundEffect(b: Bound, v: Version, vulnerable: bool): bool {
    if b.From? then (b.Admits(v) || vulnerable) else (b.Admits(v) && vulnerable)
  }

  function EvaluateBounds(bounds: seq<Bound>, v: Version): bool {
    if bounds == [] then false
    else BoundEffect(bounds[|bounds| - 1], v, EvaluateBounds(bounds[..|bounds| - 1], v))
  }

  predicate AllAdmit(bounds: seq<Bound>, v: Version) {
    forall i | 0 <= i < |bounds| :: bounds[i].Admits(v)
  }

  lemma EffectOfBound(e: Event, v: Version, x: bool)
    requires WellFormed(e)
    ensures Effect(e, v, x) == BoundEffect(BoundOf(e), v, x)
  {}

  lemma {:induction false} EvaluateByBounds(events: seq<Event>, v: Version)
    requires AllWellFormed(events)
    ensures Evaluate(events, v) == EvaluateBounds(Bounds(events), v)
  {
    if events != [] {
      var init := events[..|events| - 1];
      assert forall i | 0 <= i < |init| :: init[i] == events[i];
      EvaluateByBounds(init, v);
      var bs := Bounds(events);
      assert bs[..|bs| - 1] == Bounds(init);
      EffectOfBound(events[|events| - 1], v, Evaluate(init, v));
    }
  }

  // ----- Soundness --------------------------------------------------------------

  /** A clause demands what its bound says; the dropped `introduced: 0` demands nothing. */
  lemma ConstraintOfBound(e: Event, v: Version)
    requires WellFormed(e) && NonNegative(v)
    ensures BoundOf(e).Admits(v) <==>
            match EventConstraint(e) case Some(c) => c.Matches(v) case None => true
  {
    ZeroText();
    hide VersionOf;
  }

  lemma SatisfiesAppend(cs: seq<Constraint>, c: Constraint, v: Version)
    ensures Satisfies(cs + [c], v) <==> Satisfies(cs, v) && c.Matches(v)
  {
    assert (cs + [c])[|cs|] == c;
    assert forall i | 0 <= i < |cs| :: (cs + [c])[i] == cs[i];
  }

  lemma AllAdmitAppend(bounds: seq<Bound>, b: Bound, v: Version)
    ensures AllAdmit(bounds + [b], v) <==> AllAdmit(bounds, v) && b.Admits(v)
  {
    assert (bounds + [b])[|bounds|] == b;
    assert forall i | 0 <= i < |bounds| :: (bounds + [b])[i] == bounds[i];
  }

  lemma CompiledStep(events: seq<Event>, v: Version)
    requires events != [] && WellFormed(events[|events| - 1]) && NonNegative(v)
    ensures Satisfies(Compiled(events), v) <==>
            Satisfies(Compiled(events[..|events| - 1]), v) && BoundOf(events[|events| - 1]).Admits(v)
  {
    var init, last := events[..|events| - 1], events[|events| - 1];
    ClausesAppendEvent(events);
    ConstraintOfBound(last, v);
    if EventConstraint(last).Some? {
      SatisfiesAppend(Compiled(init), EventConstraint(last).value, v);
    } else {
      assert Compiled(events) == Compiled(init);
    }
  }

  lemma {:induction false} CompiledMeans(events: seq<Event>, v: Version)
    requires AllWellFormed(events) && NonNegative(v)
    ensures Satisfies(Compiled(events), v) <==> AllAdmit(Bounds(events), v)
  {
    if events != [] {
      var init := events[..|events| - 1];
      assert AllWellFormed(init) by {
        assert forall i | 0 <= i < |init| :: init[i] == events[i];
      }
      CompiledMeans(init, v);
      CompiledStep(events, v);
      BoundsAppend(events);
      AllAdmitAppend(Bounds(init), BoundOf(events[|events| - 1]), v);
    }
  }

  lemma BoundsAppend(events: seq<Event>)
    requires events != []
    ensures Bounds(events) == Bounds(events[..|events| - 1]) + [BoundOf(events[|events| - 1])]
  {}

  /** No upper bound switches v off. */
  predicate NothingSwitchesOff(bounds: seq<Bound>, v: Version) {
    forall i | 0 <= i < |bounds| :: bounds[i].From? || bounds[i].Admits(v)
  }

  /** When no event switches v off, evaluation ends on exactly if some event switches it on. */
  lemma {:induction false} EvaluateOn(bounds: seq<Bound>, v: Version)
    requires NothingSwitchesOff(bounds, v)
    ensures EvaluateBounds(bounds, v) <==> exists i | 0 <= i < |bounds| :: bounds[i].From? && bounds[i].Admits(v)
  {
    if bounds != [] {
      var init := bounds[..|bounds| - 1];
      assert forall i | 0 <= i < |init| :: init[i] == bounds[i];
      EvaluateOn(init, v);
    }
  }

  lemma SameMembers<T>(order: seq<T>, events: seq<T>)
    requires multiset(order) == multiset(events)
    ensures forall e :: e in order <==> e in events
  {
    assert forall e :: e in order <==> e in multiset(order);
    assert forall e :: e in events <==> e in multiset(events);
  }

  lemma RangeSound(events: seq<Event>, v: Version)
    requires AllWellFormed(events) && HasIntroduced(events) && NonNegative(v)
    requires Satisfies(Compiled(events), v)
    ensures AffectedBy(events, v)
  {
    CompiledMeans(events, v);
    forall order | IsSortOf(order, events) ensures Evaluate(order, v) {
      SameMembers(order, events);
      forall i | 0 <= i < |order| ensures WellFormed(order[i]) && BoundOf(order[i]).Admits(v) {
        assert order[i] in events;
        var k :| 0 <= k < |events| && events[k] == order[i];
        assert Bounds(events)[k].Admits(v);
      }
      EvaluateByBounds(order, v);
      EvaluateOn(Bounds(order), v);
      var k :| 0 <= k < |events| && events[k].introduced != "";
      assert events[k] in order;
      var j :| 0 <= j < |order| && order[j] == events[k];
      assert Bounds(order)[j].From?;
    }
  }

  function Insert<T>(x: T, sorted: seq<T>, key: T -> Version): seq<T> {
    if sorted == [] || Compare(key(x), key(sorted[0])) <= 0 then [x] + sorted
    else [sorted[0]] + Insert(x, sorted[1..], key)
  }

  predicate Ascending<T>(xs: seq<T>, key: T -> Version) {
    forall i, j | 0 <= i < j < |xs| :: Compare(key(xs[i]), key(xs[j])) <= 0
  }

  lemma {:induction false} InsertMembers<T>(x: T, sorted: seq<T>, key: T -> Version)
    ensures multiset(Insert(x, sorted, key)) == multiset([x]) + multiset(sorted)
    ensures forall y | y in Insert(x, sorted, key) :: y == x || y in sorted
  {
    if sorted != [] && Compare(key(x), key(sorted[0])) > 0 {
      InsertMembers(x, sorted[1..], key);
      assert sorted == [sorted[0]] + sorted[1..];
    }
  }

  lemma AscendingCons<T>(x: T, rest: seq<T>, key: T -> Version)
    requires Ascending(rest, key)
    requires forall y | y in rest :: Compare(key(x), key(y)) <= 0
    ensures Ascending([x] + rest, key)
  {}

  lemma {:induction false} InsertAscends<T>(x: T, sorted: seq<T>, key: T -> Version)
    requires Ascending(sorted, key)
    ensures Ascending(Insert(x, sorted, key), key)
  {
    if sorted == [] || Compare(key(x), key(sorted[0])) <= 0 {
      forall y | y in sorted ensures Compare(key(x), key(y)) <= 0 {
        var i :| 0 <= i < |sorted| && sorted[i] == y;
        if i > 0 { CompareIsTotalOrder(key(x), key(sorted[0]), key(y)); }
      }
      AscendingCons(x, sorted, key);
    } else {
      var first, rest := sorted[0], sorted[1..];
      assert forall i | 0 <= i < |rest| :: rest[i] == sorted[i + 1];
      InsertAscends(x, rest, key);
      InsertMembers(x, rest, key);
      CompareIsTotalOrder(key(first), key(x), key(x));
      AscendingCons(first, Insert(x, rest, key), key);
    }
  }

  lemma {:induction false} SortBy<T>(xs: seq<T>, key: T -> Version) returns (order: seq<T>)
    ensures Ascending(order, key) && multiset(order) == multiset(xs)
  {
    order := [];
    if xs != [] {
      var rest := SortBy(xs[1..], key);
      InsertAscends(xs[0], rest, key);
      InsertMembers(xs[0], rest, key);
      order := Insert(xs[0], rest, key);
      assert xs == [xs[0]] + xs[1..];
    }
  }

  function VersionKey(e: Event): Version { BoundOf(e).ver }

  /** Every range can be sorted, so AffectedBy speaks of at least one evaluation. */
  lemma SortExists(events: seq<Event>) returns (order: seq<Event>)
    ensures IsSortOf(order, events)
  {
    order := SortBy(events, VersionKey);
    forall i, j | 0 <= i < j < |order|
      ensures Compare(Bounds(order)[i].ver, Bounds(order)[j].ver) <= 0
    {
      assert Compare(VersionKey(order[i]), VersionKey(order[j])) <= 0;
    }
  }

  /** A version the clauses match is affected exactly when the range has an `introduced` event: without
      one, the text matches versions the advisory does not name. */
  lemma SoundIffIntroduced(events: seq<Event>, v: Version)
    requires AllWellFormed(events) && NonNegative(v)
    requires Satisfies(Compiled(events), v)
    ensures AffectedBy(events, v) <==> HasIntroduced(events)
  {
    if HasIntroduced(events) {
      RangeSound(events, v);
    } else {
      var order := SortExists(events);
      CompiledMeans(events, v);
      SameMembers(order, events);
      forall i | 0 <= i < |order|
        ensures WellFormed(order[i]) && BoundOf(order[i]).Admits(v) && !BoundOf(order[i]).From?
      {
        assert order[i] in events;
        var k :| 0 <= k < |events| && events[k] == order[i];
        assert Bounds(events)[k].Admits(v);
      }
      EvaluateByBounds(order, v);
      EvaluateOn(Bounds(order), v);
    }
  }

  /** The constraint set the catalog ends up with for the ranges. */
  function Imported(ranges: seq<Range>): seq<Constraint>
    requires ConstraintText(ranges).Some?
  {
    match ConstraintsOf(ConstraintText(ranges).value) case Some(cs) => cs case None => []
  }

  // Soundness of the text needs less than reading it back exactly: a comma in a version string splits its clause, and
  // the first piece still demands what the event says.

  /** The catalog applies the constraint text to the version. */
  predicate MatchedBy(text: string, v: Version) {
    match ConstraintsOf(text) case Some(cs) => Satisfies(cs, v) case None => false
  }

  /** The text format reads an upper bound with `=` in front as another operator. */
  predicate Readable(e: Event) {
    e.fixed != "" ==> e.fixed[0] != '='
  }

  predicate AllReadable(events: seq<Event>) {
    forall i | 0 <= i < |events| :: Readable(events[i])
  }

  /** A version string up to its first comma. */
  function FirstPiece(s: string): string {
    var i := Index(s, ',');
    if i < 0 then s else s[..i]
  }

  lemma PieceVersion(s: string)
    ensures VersionOf(FirstPiece(s)) == VersionOf(s)
  {
    hide VersionOf;
    var i := Index(s, ',');
    if i >= 0 {
      CommaEndsVersion(s[..i], s[i + 1..]);
      assert s[..i] + "," + s[i + 1..] == s;
    }
  }

  lemma PieceOfClause(op: string, s: string)
    requires ',' !in op
    ensures Split(op + s, ',')[0] == op + FirstPiece(s)
  {
    hide Split;
    var i := Index(s, ',');
    if i < 0 {
      SplitWhole(op + s, ',');
    } else {
      SplitFirst(op + s[..i], ',', s[i + 1..]);
      assert op + s == op + s[..i] + [','] + s[i + 1..];
    }
  }

  lemma BareOperator(op: string)
    requires op == "<" || op == "<=" || op == ">="
    ensures PartClause(op) ==
            Some(Constraint(if op == "<" then OpLT else if op == "<=" then OpLE else OpGE, VersionOf("")))
  {
    TightStays(op, IsSpace);
    assert op[|op|..] == "" && TrimSpace("") == "";
    if op == "<" {
      LessThanClause("");
      assert "<" + "" == "<";
    } else {
      OperatorReadsBack(op, "");
      assert op + "" == op;
    }
  }

  /** The first piece of a clause demands what the event says. */
  lemma PieceReadsBack(e: Event)
    requires Readable(e) && EventClause(e).Some?
    ensures PartClause(Split(EventClause(e).value, ',')[0]) == EventConstraint(e)
  {
    hide VersionOf, Split, ClauseOf, Index;
    var op, s := "<", e.fixed;
    if e.fixed == "" {
      op, s := if e.lastAffected != "" then "<=" else ">=",
               if e.lastAffected != "" then e.lastAffected else e.introduced;
    }
    PieceOfClause(op, s);
    PieceVersion(s);
    PieceReads(op, s, FirstPiece(s));
  }

  lemma PieceReads(op: string, s: string, piece: string)
    requires op == "<" || op == "<=" || op == ">="
    requires s != "" && piece <= s && (op == "<" ==> s[0] != '=')
    ensures PartClause(op + piece) ==
            Some(Constraint(if op == "<" then OpLT else if op == "<=" then OpLE else OpGE, VersionOf(piece)))
  {
    hide VersionOf, ClauseOf;
    if piece == "" {
      BareOperator(op);
      assert op + piece == op;
    } else {
      TrimAfterOperator(op, piece);
      if op == "<" {
        FixedReadsBack(piece);
      } else {
        OperatorReadsBack(op, piece);
      }
    }
  }

  /** The constraints of a text that is split at commas but not trimmed. */
  function Pieces(text: string): Option<seq<Constraint>> { MapAll(Split(text, ','), PartClause) }

  lemma {:induction false} PiecesDemand(events: seq<Event>, v: Version)
    requires AllReadable(events) && EventClauses(events) != []
    requires var cs := Pieces(Join(EventClauses(events), ",")); cs.Some? && Satisfies(cs.value, v)
    ensures Satisfies(Compiled(events), v)
  {
    hide PartClause, Split, EventClause, EventConstraint, Satisfies, VersionOf;
    var init, last := events[..|events| - 1], events[|events| - 1];
    assert AllReadable(init) by {
      assert forall i | 0 <= i < |init| :: init[i] == events[i];
    }
    ClausesAppendEvent(events);
    hide EventClauses, Compiled;
    if EventClause(last).None? {
      assert EventClauses(events) == EventClauses(init) && Compiled(events) == Compiled(init);
      PiecesDemand(init, v);
    } else {
      var before, c := EventClauses(init), EventClause(last).value;
      if before == [] {
        assert EventClauses(events) == [c];
        NothingCompiled(init);
        SatisfiesNothing(v);
      } else {
        JoinAppend(before, c, ",");
        SplitJoined(Join(before, ","), ',', c);
        MapAllConcat(Split(Join(before, ","), ','), Split(c, ','), PartClause);
        SatisfiesBoth(Pieces(Join(before, ",")).value, Pieces(c).value, v);
        PiecesDemand(init, v);
      }
      ClauseDemands(last, v);
      SatisfiesAppend(Compiled(init), EventConstraint(last).value, v);
    }
  }

  lemma {:induction false} NothingCompiled(events: seq<Event>)
    requires EventClauses(events) == []
    ensures Compiled(events) == []
  {
    if events != [] {
      ClausesAppendEvent(events);
      NothingCompiled(events[..|events| - 1]);
    }
  }

  lemma SatisfiesNothing(v: Version)
    ensures Satisfies([], v)
  {}

  lemma SatisfiesBoth(a: seq<Constraint>, b: seq<Constraint>, v: Version)
    requires Satisfies(a + b, v)
    ensures Satisfies(a, v) && Satisfies(b, v)
  {
    assert forall i | 0 <= i < |a| :: (a + b)[i] == a[i];
    assert forall i | 0 <= i < |b| :: (a + b)[|a| + i] == b[i];
  }

  lemma ClauseDemands(e: Event, v: Version)
    requires Readable(e) && EventClause(e).Some?
    requires var cs := Pieces(EventClause(e).value); cs.Some? && Satisfies(cs.value, v)
    ensures EventConstraint(e).Some? && EventConstraint(e).value.Matches(v)
  {
    hide PartClause, Split, EventClause, EventConstraint, VersionOf, Constraint.Matches;
    PieceReadsBack(e);
    var cs := Pieces(EventClause(e).value).value;
    assert Some(cs[0]) == EventConstraint(e);
    assert cs[0].Matches(v);
  }

  /** Trimming the whole text only trims its last piece, which is trimmed anyway. */
  lemma TrimmedPieces(text: string)
    ensures Pieces(TrimRight(text, IsSpace)) == Pieces(text)
  {
    hide Split, TrimRight, PartClause;
    CommaIsNoSpace();
    SplitTrimRight(text, ',', IsSpace);
    var parts := Split(text, ',');
    var init, last := parts[..|parts| - 1], parts[|parts| - 1];
    assert parts == init + [last];
    TrimmedPart(last);
    MapAllAppend(init, last, PartClause);
    MapAllAppend(init, TrimRight(last, IsSpace), PartClause);
  }

  lemma TrimmedPart(part: string)
    ensures PartClause(TrimRight(part, IsSpace)) == PartClause(part)
  {
    TrimRightFirst(part, IsSpace);
  }

  lemma {:induction false} ClausesOpen(events: seq<Event>)
    ensures forall i | 0 <= i < |EventClauses(events)| ::
              EventClauses(events)[i] != "" && !IsSpace(EventClauses(events)[i][0])
  {
    if events != [] {
      ClausesAppendEvent(events);
      ClausesOpen(events[..|events| - 1]);
    }
  }

  lemma TextOfClauses(parts: seq<string>)
    requires parts != [] && parts[0] != "" && !IsSpace(parts[0][0])
    ensures ConstraintsOf(Join(parts, ",")) == Pieces(Join(parts, ","))
  {
    hide Split, PartClause, IsSpace, Join;
    var text := Join(parts, ",");
    JoinHead(parts);
    assert TrimSpace(text) == TrimRight(text, IsSpace);
    TrimTail("", text, IsSpace);
    assert "" + text == text;
    TrimmedPieces(text);
  }

  /** The compiler is sound: whatever the emitted text matches, commas or not, is affected according to the schema. */
  lemma CompilerSound(ranges: seq<Range>, v: Version)
    requires ConstraintText(ranges).Some?
    requires var events := ranges[Chosen(ranges)].events;
             AllWellFormed(events) && AllReadable(events) && HasIntroduced(events)
    requires NonNegative(v)
    ensures MatchedBy(ConstraintText(ranges).value, v) ==> Affected(ranges, v)
  {
    hide Satisfies, Compiled, AffectedBy, EventClauses, Pieces, ConstraintsOf;
    var events := ranges[Chosen(ranges)].events;
    ClausesOpen(events);
    TextOfClauses(EventClauses(events));
    if MatchedBy(ConstraintText(ranges).value, v) {
      PiecesDemand(events, v);
      RangeSound(events, v);
      assert AffectedBy(ranges[Chosen(ranges)].events, v);
    }
  }

  /** A range that is given up without text holds only `introduced: 0` events, so it denotes
      nothing when empty and every version otherwise. */
  lemma {:induction false} NoClausesMeansAllOrNothing(events: seq<Event>, v: Version)
    requires AllWellFormed(events) && NonNegative(v)
    requires EventClauses(events) == []
    ensures forall i | 0 <= i < |events| :: events[i].introduced == "0"
    ensures AffectedBy(events, v) <==> events != []
  {
    OnlyZeroEvents(events);
    if events == [] {
      assert Bounds(events) == [];
      assert IsSortOf([], events);
      assert !Evaluate([], v);
    } else {
      assert events[0].introduced != "";
      RangeSound(events, v);
    }
  }

  lemma {:induction false} OnlyZeroEvents(events: seq<Event>)
    requires AllWellFormed(events)
    requires EventClauses(events) == []
    ensures Compiled(events) == []
    ensures forall i | 0 <= i < |events| :: events[i].introduced == "0"
  {
    if events != [] {
      var init, last := events[..|events| - 1], events[|events| - 1];
      assert forall i | 0 <= i < |init| :: init[i] == events[i];
      ClausesAppendEvent(events);
      assert WellFormed(last);
      OnlyZeroEvents(init);
    }
  }

  // ----- Exactness ----------------------------------------------------------------

  /** Version order of neighbouring bounds: an interval holds its lower bound, and the next
      lower bound is no longer in the previous interval. */
  predicate Before(a: Bound, b: Bound) {
    match (a, b)
    case (From(_), Until(_)) => Compare(a.ver, b.ver) < 0
    case (From(_), Through(_)) => Compare(a.ver, b.ver) <= 0
    case (Until(_), From(_)) => Compare(a.ver, b.ver) <= 0
    case (Through(_), From(_)) => Compare(a.ver, b.ver) < 0
    case _ => false
  }

  /** Disjoint, non-empty intervals in version order: lower and upper bounds alternate, and the last
      interval may be open above. */
  predicate Chain(bounds: seq<Bound>) {
    && |bounds| > 0 && bounds[0].From?
    && (forall k | 0 <= k < |bounds| - 1 :: Before(bounds[k], bounds[k + 1]))
  }

  /** The events bound disjoint intervals, in whatever order they are listed. */
  ghost predicate Intervals(events: seq<Event>) {
    AllWellFormed(events) && exists order | IsSortOf(order, events) :: Chain(Bounds(order))
  }

  /** v is in the interval that opens at bound k. */
  predicate InInterval(bounds: seq<Bound>, k: nat, v: Version)
    requires k < |bounds|
  {
    bounds[k].Admits(v) && (k + 1 < |bounds| ==> bounds[k + 1].Admits(v))
  }

  lemma {:induction false} BoundsOrdered(bounds: seq<Bound>, i: nat, j: nat)
    requires Chain(bounds) && i <= j < |bounds|
    ensures Compare(bounds[i].ver, bounds[j].ver) <= 0
    ensures bounds[j].From? <==> j % 2 == 0
    decreases j
  {
    if j > 0 {
      assert Before(bounds[j - 1], bounds[j]);
      BoundsOrdered(bounds, if i < j then i else i - 1, j - 1);
      CompareIsTotalOrder(bounds[i].ver, bounds[j - 1].ver, bounds[j].ver);
    }
  }

  lemma ChainPrefix(bounds: seq<Bound>)
    requires Chain(bounds) && |bounds| > 1
    ensures Chain(bounds[..|bounds| - 1])
  {
    var init := bounds[..|bounds| - 1];
    forall k | 0 <= k < |init| - 1 ensures Before(init[k], init[k + 1]) {
      assert Before(bounds[k], bounds[k + 1]);
    }
  }

  /** A version at or above a lower bound is past every earlier interval. */
  lemma PastEarlier(bounds: seq<Bound>, k: nat, m: nat, v: Version)
    requires Chain(bounds) && k % 2 == 0 && m % 2 == 0 && k < m < |bounds|
    requires bounds[m].Admits(v)
    ensures !bounds[k + 1].Admits(v)
  {
    BoundsOrdered(bounds, k + 2, m);
    BoundsOrdered(bounds, k + 1, k + 1);
    BoundsOrdered(bounds, k + 2, k + 2);
    assert Before(bounds[k + 1], bounds[k + 2]);
    var hi, next, last := bounds[k + 1].ver, bounds[k + 2].ver, bounds[m].ver;
    CompareIsTotalOrder(hi, next, last);
    CompareIsTotalOrder(hi, last, v);
    CompareIsTotalOrder(v, last, hi);
    CompareIsTotalOrder(v, hi, hi);
  }

  /** Evaluating intervals in version order is membership in their union, the last one open above or not. */
  lemma {:induction false} EvaluateIsUnion(bounds: seq<Bound>, v: Version)
    requires Chain(bounds)
    ensures EvaluateBounds(bounds, v) <==> exists k | 0 <= k < |bounds| && k % 2 == 0 :: InInterval(bounds, k, v)
    decreases |bounds|
  {
    hide Compare;
    var n := |bounds|;
    var init, last := bounds[..n - 1], bounds[n - 1];
    BoundsOrdered(bounds, n - 1, n - 1);
    assert EvaluateBounds(bounds, v) == BoundEffect(last, v, EvaluateBounds(init, v));
    if n == 1 {
      assert init == [] && InInterval(bounds, 0, v) == last.Admits(v);
    } else {
      ChainPrefix(bounds);
      EvaluateIsUnion(init, v);
      assert forall k | 0 <= k < n - 2 && k % 2 == 0 :: InInterval(init, k, v) == InInterval(bounds, k, v);
      if last.From? {
        assert InInterval(bounds, n - 1, v) == last.Admits(v);
      } else {
        UnionClosed(bounds, v);
      }
    }
  }

  /** Closing the last interval keeps the versions of the earlier ones. */
  lemma UnionClosed(bounds: seq<Bound>, v: Version)
    requires Chain(bounds) && |bounds| > 1 && |bounds| % 2 == 0
    ensures var init, last := bounds[..|bounds| - 1], bounds[|bounds| - 1];
            (last.Admits(v) && exists k | 0 <= k < |init| && k % 2 == 0 :: InInterval(init, k, v))
            <==> exists k | 0 <= k < |bounds| && k % 2 == 0 :: InInterval(bounds, k, v)
  {
    hide Compare;
    var n := |bounds|;
    var init, lo, last := bounds[..n - 1], bounds[n - 2], bounds[n - 1];
    BoundsOrdered(bounds, n - 2, n - 2);
    BoundsOrdered(bounds, n - 1, n - 1);
    assert Before(lo, last);
    assert forall k | 0 <= k < n - 2 && k % 2 == 0 :: InInterval(init, k, v) == InInterval(bounds, k, v);
    assert InInterval(init, n - 2, v) == lo.Admits(v);
    assert InInterval(bounds, n - 2, v) == (lo.Admits(v) && last.Admits(v));
    if !last.Admits(v) {
      BelowLowerIsBelowUpper(lo, last, v);
      forall k | 0 <= k < n - 2 && k % 2 == 0 ensures !InInterval(bounds, k, v) {
        PastEarlier(bounds, k, n - 2, v);
      }
    }
  }

  lemma BelowLowerIsBelowUpper(lo: Bound, hi: Bound, v: Version)
    requires Before(lo, hi) && lo.From?
    ensures lo.Admits(v) || hi.Admits(v)
  {
    CompareIsTotalOrder(v, lo.ver, hi.ver);
  }

  lemma SameBounds(order: seq<Event>, events: seq<Event>, v: Version)
    requires multiset(order) == multiset(events)
    ensures |order| == |events|
    ensures AllAdmit(Bounds(order), v) <==> AllAdmit(Bounds(events), v)
    ensures AllWellFormed(order) <==> AllWellFormed(events)
  {
    assert |order| == |multiset(order)| == |multiset(events)| == |events|;
    BoundsWithin(order, events, v);
    BoundsWithin(events, order, v);
  }

  lemma BoundsWithin(a: seq<Event>, b: seq<Event>, v: Version)
    requires multiset(a) == multiset(b)
    ensures AllAdmit(Bounds(b), v) ==> AllAdmit(Bounds(a), v)
    ensures AllWellFormed(b) ==> AllWellFormed(a)
  {
    SameMembers(a, b);
    forall i | 0 <= i < |a| ensures exists k | 0 <= k < |b| :: b[k] == a[i] && Bounds(b)[k] == Bounds(a)[i] {
      assert a[i] in b;
      var k :| 0 <= k < |b| && b[k] == a[i];
      assert Bounds(b)[k] == Bounds(a)[i];
    }
  }

  lemma SingleInterval(bounds: seq<Bound>, v: Version)
    requires Chain(bounds) && |bounds| <= 2
    ensures EvaluateBounds(bounds, v) <==> AllAdmit(bounds, v)
  {
    hide Compare, EvaluateBounds;
    EvaluateIsUnion(bounds, v);
    assert InInterval(bounds, 0, v) <==> AllAdmit(bounds, v);
  }

  /** One interval, closed or open above, compiles exactly. */
  lemma OneIntervalExact(events: seq<Event>, v: Version)
    requires Intervals(events) && |events| <= 2 && NonNegative(v)
    ensures Satisfies(Compiled(events), v) <==> AffectedBy(events, v)
  {
    hide Satisfies, Compiled, Compare, Chain, AllAdmit, EvaluateBounds, Evaluate, Sorted, VersionOf, HasIntroduced,
         AllWellFormed;
    var order :| IsSortOf(order, events) && Chain(Bounds(order));
    CompiledMeans(events, v);
    SameBounds(order, events, v);
    IntroducedOf(order, events);
    if Satisfies(Compiled(events), v) {
      RangeSound(events, v);
    }
    if AffectedBy(events, v) {
      assert Evaluate(order, v);
      EvaluateByBounds(order, v);
      SingleInterval(Bounds(order), v);
    }
  }

  lemma IntroducedOf(order: seq<Event>, events: seq<Event>)
    requires multiset(order) == multiset(events) && Chain(Bounds(order))
    ensures HasIntroduced(events)
  {
    SameMembers(order, events);
    assert Bounds(order)[0].From? && order[0] in events;
  }

  /** Three or more bounds, that is two or more intervals, compile to text that matches nothing at all. */
  lemma MoreIntervalsMatchNothing(events: seq<Event>, v: Version)
    requires Intervals(events) && |events| > 2 && NonNegative(v)
    ensures !Satisfies(Compiled(events), v)
  {
    hide Satisfies, Compiled, Compare;
    var order :| IsSortOf(order, events) && Chain(Bounds(order));
    CompiledMeans(events, v);
    SameBounds(order, events, v);
    var bs := Bounds(order);
    if bs[2].Admits(v) {
      PastEarlier(bs, 0, 2, v);
    }
  }

  /** The least lower bound is affected, however ties are sorted. */
  lemma LowestIsAffected(events: seq<Event>, order: seq<Event>)
    requires AllWellFormed(events) && IsSortOf(order, events) && Chain(Bounds(order))
    ensures AffectedBy(events, Bounds(order)[0].ver)
  {
    var bs := Bounds(order);
    var v := bs[0].ver;
    forall j | 0 <= j < |bs| ensures bs[j].From? || bs[j].Admits(v) {
      LowestBelowUppers(bs, j);
    }
    forall other | IsSortOf(other, events) ensures Evaluate(other, v) {
      SameBounds(other, events, v);
      SameMembers(other, order);
      forall i | 0 <= i < |other| ensures Bounds(other)[i].From? || Bounds(other)[i].Admits(v) {
        assert other[i] in order;
        var k :| 0 <= k < |order| && order[k] == other[i];
        assert Bounds(other)[i] == bs[k];
      }
      assert order[0] in other;
      var k :| 0 <= k < |other| && other[k] == order[0];
      CompareIsTotalOrder(v, v, v);
      assert Bounds(other)[k] == bs[0] && bs[0].Admits(v);
      EvaluateByBounds(other, v);
      EvaluateOn(Bounds(other), v);
    }
  }

  lemma LowestBelowUppers(bounds: seq<Bound>, j: nat)
    requires Chain(bounds) && j < |bounds|
    ensures bounds[j].From? || bounds[j].Admits(bounds[0].ver)
  {
    if !bounds[j].From? {
      BoundsOrdered(bounds, 0, j - 1);
      BoundsOrdered(bounds, j - 1, j);
      assert Before(bounds[j - 1], bounds[j]);
      CompareIsTotalOrder(bounds[0].ver, bounds[j - 1].ver, bounds[j].ver);
    }
  }

  lemma BoundIsNonNegative(e: Event)
    ensures NonNegative(BoundOf(e).ver)
  {
    ParsedIsNonNegative(e.introduced);
    ParsedIsNonNegative(e.fixed);
    ParsedIsNonNegative(e.lastAffected);
  }

  lemma AffectedButUnmatched(events: seq<Event>) returns (v: Version)
    requires Intervals(events) && |events| > 2
    ensures NonNegative(v) && AffectedBy(events, v) && !Satisfies(Compiled(events), v)
  {
    hide Satisfies, Compiled, AffectedBy, VersionOf;
    var order :| IsSortOf(order, events) && Chain(Bounds(order));
    v := Bounds(order)[0].ver;
    BoundIsNonNegative(order[0]);
    LowestIsAffected(events, order);
    MoreIntervalsMatchNothing(events, v);
  }

  // When any range compiles exactly.

  /** The clauses of the events match exactly the affected versions. */
  ghost predicate Exact(events: seq<Event>) {
    forall v | NonNegative(v) :: Satisfies(Compiled(events), v) <==> AffectedBy(events, v)
  }

  /** All lower bounds are x, and no upper bound excludes x. */
  predicate StartsOnceAt(bounds: seq<Bound>, x: Version) {
    From(x) in bounds && forall b | b in bounds :: if b.From? then b.ver == x else b.Admits(x)
  }

  predicate StartsOnce(bounds: seq<Bound>) {
    exists i | 0 <= i < |bounds| :: StartsOnceAt(bounds, bounds[i].ver)
  }

  /** Every version that is introduced is fixed in the same breath. */
  predicate AllCancelled(bounds: seq<Bound>) {
    forall b | b in bounds && b.From? :: Until(b.ver) in bounds
  }

  /** Sorted, with lower bounds before upper bounds of the same version. */
  predicate LowersFirst(bounds: seq<Bound>) {
    forall i, j | 0 <= i < j < |bounds| ::
      Compare(bounds[i].ver, bounds[j].ver) < 0
      || (bounds[i].ver == bounds[j].ver && (bounds[i].From? || !bounds[j].From?))
  }

  /** A sort key that tells lower from upper bounds of one version. */
  function TieKey(e: Event): Version {
    var b := BoundOf(e);
    Version(b.ver.major, b.ver.minor, 2 * b.ver.patch + if b.From? then 0 else 1)
  }

  lemma SortLowersFirst(events: seq<Event>) returns (order: seq<Event>)
    ensures IsSortOf(order, events) && LowersFirst(Bounds(order))
  {
    hide VersionOf;
    order := SortBy(events, TieKey);
    forall i, j | 0 <= i < j < |order|
      ensures Compare(Bounds(order)[i].ver, Bounds(order)[j].ver) <= 0
      ensures Compare(Bounds(order)[i].ver, Bounds(order)[j].ver) < 0
              || (Bounds(order)[i].ver == Bounds(order)[j].ver && (Bounds(order)[i].From? || !Bounds(order)[j].From?))
    {
      assert Compare(TieKey(order[i]), TieKey(order[j])) <= 0;
      TieKeyOrders(order[i], order[j]);
    }
  }

  lemma TieKeyOrders(a: Event, b: Event)
    requires Compare(TieKey(a), TieKey(b)) <= 0
    ensures Compare(BoundOf(a).ver, BoundOf(b).ver) < 0
            || (BoundOf(a).ver == BoundOf(b).ver && (BoundOf(a).From? || !BoundOf(b).From?))
  {
    hide BoundOf;
  }

  lemma {:induction false} OffWithoutStart(bounds: seq<Bound>, v: Version)
    requires forall i | 0 <= i < |bounds| :: bounds[i].From? ==> !bounds[i].Admits(v)
    ensures !EvaluateBounds(bounds, v)
  {
    hide Compare;
    if bounds != [] {
      OffWithoutStart(bounds[..|bounds| - 1], v);
    }
  }

  /** After an upper bound that excludes v, and with no later lower bound below v, evaluation ends off. */
  lemma {:induction false} OffAfter(bounds: seq<Bound>, u: nat, v: Version)
    requires u < |bounds| && !bounds[u].From? && !bounds[u].Admits(v)
    requires forall i | u < i < |bounds| :: bounds[i].From? ==> !bounds[i].Admits(v)
    ensures !EvaluateBounds(bounds, v)
  {
    hide Compare;
    if u < |bounds| - 1 {
      OffAfter(bounds[..|bounds| - 1], u, v);
    }
  }

  /** After a lower bound below v, and with no later upper bound that excludes v, evaluation ends on. */
  lemma {:induction false} OnAfter(bounds: seq<Bound>, f: nat, v: Version)
    requires f < |bounds| && bounds[f].From? && bounds[f].Admits(v)
    requires forall i | f < i < |bounds| :: bounds[i].From? || bounds[i].Admits(v)
    ensures EvaluateBounds(bounds, v)
  {
    hide Compare;
    if f < |bounds| - 1 {
      OnAfter(bounds[..|bounds| - 1], f, v);
    }
  }

  lemma SameBoundMembers(order: seq<Event>, events: seq<Event>)
    requires multiset(order) == multiset(events)
    ensures forall b :: b in Bounds(order) <==> b in Bounds(events)
    ensures AllWellFormed(order) <==> AllWellFormed(events)
  {
    BoundMembersWithin(order, events);
    BoundMembersWithin(events, order);
    SameBounds(order, events, ZERO);
  }

  lemma BoundMembersWithin(a: seq<Event>, b: seq<Event>)
    requires multiset(a) == multiset(b)
    ensures forall x | x in Bounds(a) :: x in Bounds(b)
  {
    SameMembers(a, b);
    forall x | x in Bounds(a) ensures x in Bounds(b) {
      var i :| 0 <= i < |a| && Bounds(a)[i] == x;
      assert a[i] in b;
      var k :| 0 <= k < |b| && b[k] == a[i];
      assert Bounds(b)[k] == x;
    }
  }

  /** A version that is introduced and not fixed in the same breath is affected, however ties are sorted. */
  lemma UncancelledIsAffected(events: seq<Event>, x: Version)
    requires AllWellFormed(events) && From(x) in Bounds(events) && Until(x) !in Bounds(events)
    ensures AffectedBy(events, x)
  {
    forall order | IsSortOf(order, events) ensures Evaluate(order, x) {
      SameBoundMembers(order, events);
      var bs := Bounds(order);
      var f: nat :| f < |bs| && bs[f] == From(x);
      CompareIsTotalOrder(x, x, x);
      forall i | f < i < |bs| ensures bs[i].From? || bs[i].Admits(x) {
        assert Compare(bs[f].ver, bs[i].ver) <= 0 && bs[i] in bs;
        CompareIsTotalOrder(x, bs[i].ver, x);
      }
      hide Compare;
      OnAfter(bs, f, x);
      EvaluateByBounds(order, x);
    }
  }

  /** A range that starts once misses no affected version. */
  lemma StartsOnceMatches(events: seq<Event>, x: Version, v: Version)
    requires AllWellFormed(events) && StartsOnceAt(Bounds(events), x) && AffectedBy(events, v)
    ensures AllAdmit(Bounds(events), v)
  {
    hide LowersFirst, EvaluateBounds, VersionOf, Compare;
    var order := SortLowersFirst(events);
    SameBoundMembers(order, events);
    assert Evaluate(order, v);
    EvaluateByBounds(order, v);
    StartsOnceOn(Bounds(order), x, v);
    AdmittedMembers(Bounds(order), v);
  }

  lemma StartsOnceOn(bounds: seq<Bound>, x: Version, v: Version)
    requires LowersFirst(bounds) && StartsOnceAt(bounds, x) && EvaluateBounds(bounds, v)
    ensures AllAdmit(bounds, v)
  {
    hide EvaluateBounds, LowersFirst;
    if Compare(v, x) < 0 {
      OffWithoutStart(bounds, v);
    }
    forall u | 0 <= u < |bounds| ensures bounds[u].Admits(v) {
      assert bounds[u] in bounds;
      if !bounds[u].Admits(v) {
        assert !bounds[u].From?;
        forall i | u < i < |bounds| ensures !bounds[i].From? {
          assert bounds[i] in bounds;
          NoStartAfter(bounds, u, i, x);
        }
        OffAfter(bounds, u, v);
      }
    }
  }

  /** Behind an upper bound that admits the one start, that start does not stand. */
  lemma NoStartAfter(bounds: seq<Bound>, u: nat, i: nat, x: Version)
    requires LowersFirst(bounds) && u < i < |bounds|
    requires !bounds[u].From? && bounds[u].Admits(x)
    ensures bounds[i] != From(x)
  {
    CompareIsTotalOrder(x, bounds[u].ver, x);
  }

  /** Where every start is cancelled, no version is affected. */
  lemma CancelledIsUnaffected(events: seq<Event>, v: Version)
    requires AllWellFormed(events) && AllCancelled(Bounds(events))
    ensures !AffectedBy(events, v)
  {
    hide LowersFirst, EvaluateBounds, VersionOf;
    var order := SortLowersFirst(events);
    SameBoundMembers(order, events);
    EvaluateByBounds(order, v);
    CancelledIsOff(Bounds(order), v);
  }

  lemma CancelledIsOff(bounds: seq<Bound>, v: Version)
    requires LowersFirst(bounds) && AllCancelled(bounds)
    ensures !EvaluateBounds(bounds, v)
  {
    hide EvaluateBounds;
    if f: nat :| f < |bounds| && bounds[f].From? && bounds[f].Admits(v) {
      var last := LastStart(bounds, f, v);
      var x := bounds[last].ver;
      assert bounds[last] in bounds && Until(x) in bounds;
      var u: nat :| u < |bounds| && bounds[u] == Until(x);
      StartBeforeFix(bounds, last, u);
      OffAfter(bounds, u, v);
    } else {
      OffWithoutStart(bounds, v);
    }
  }

  lemma StartBeforeFix(bounds: seq<Bound>, f: nat, u: nat)
    requires LowersFirst(bounds) && f < |bounds| && u < |bounds|
    requires bounds[f].From? && !bounds[u].From? && bounds[f].ver == bounds[u].ver
    ensures f < u
  {}

  /** The last lower bound that admits v. */
  lemma LastStart(bounds: seq<Bound>, f: nat, v: Version) returns (last: nat)
    requires f < |bounds| && bounds[f].From? && bounds[f].Admits(v)
    ensures last < |bounds| && bounds[last].From? && bounds[last].Admits(v)
    ensures forall i | last < i < |bounds| :: bounds[i].From? ==> !bounds[i].Admits(v)
    decreases |bounds| - f
  {
    if i: nat :| f < i < |bounds| && bounds[i].From? && bounds[i].Admits(v) {
      last := LastStart(bounds, i, v);
    } else {
      last := f;
    }
  }

  lemma BoundsNonNegative(events: seq<Event>)
    ensures forall b | b in Bounds(events) :: NonNegative(b.ver)
  {
    forall b | b in Bounds(events) ensures NonNegative(b.ver) {
      var i :| 0 <= i < |events| && Bounds(events)[i] == b;
      BoundIsNonNegative(events[i]);
    }
  }

  lemma ExactIfCondition(events: seq<Event>)
    requires AllWellFormed(events) && HasIntroduced(events)
    requires StartsOnce(Bounds(events)) || AllCancelled(Bounds(events))
    ensures Exact(events)
  {
    var bs := Bounds(events);
    forall v | NonNegative(v) ensures Satisfies(Compiled(events), v) <==> AffectedBy(events, v) {
      hide AffectedBy, Compare, VersionOf, Satisfies, Compiled;
      CompiledMeans(events, v);
      if AllAdmit(bs, v) {
        RangeSound(events, v);
      }
      if AffectedBy(events, v) {
        if i :| 0 <= i < |bs| && StartsOnceAt(bs, bs[i].ver) {
          StartsOnceMatches(events, bs[i].ver, v);
        } else {
          CancelledIsUnaffected(events, v);
        }
      }
    }
  }

  /** A start that nothing cancels, but which is not the only one or is excluded, is affected and not matched; or
      another start is. */
  lemma ConditionIfExact(events: seq<Event>)
    requires AllWellFormed(events) && Exact(events) && !AllCancelled(Bounds(events))
    ensures StartsOnce(Bounds(events))
  {
    var bs := Bounds(events);
    var start :| start in bs && start.From? && Until(start.ver) !in bs;
    var x := start.ver;
    BoundsNonNegative(events);
    UncancelledIsAffected(events, x);
    CompiledMeans(events, x);
    assert AllAdmit(bs, x);
    forall b | b in bs ensures if b.From? then b.ver == x else b.Admits(x) {
      var i :| 0 <= i < |bs| && bs[i] == b;
      assert bs[i].Admits(x);
      if b.From? && b.ver != x {
        EarlierStart(events, b.ver, x);
      }
    }
    assert StartsOnceAt(bs, x);
    var i :| 0 <= i < |bs| && bs[i] == start;
    assert StartsOnceAt(bs, bs[i].ver);
  }

  lemma AdmittedMembers(bounds: seq<Bound>, v: Version)
    requires AllAdmit(bounds, v)
    ensures forall b | b in bounds :: b.Admits(v)
  {}

  /** Of two starts, the earlier one is affected and not matched, if all bounds admit the later one. */
  lemma EarlierStart(events: seq<Event>, z: Version, x: Version)
    requires AllWellFormed(events) && From(z) in Bounds(events) && From(x) in Bounds(events) && z != x
    requires AllAdmit(Bounds(events), x) && NonNegative(z)
    ensures AffectedBy(events, z) && !Satisfies(Compiled(events), z)
  {
    var bs := Bounds(events);
    var i, j :| 0 <= i < |bs| && bs[i] == From(z) && 0 <= j < |bs| && bs[j] == From(x);
    assert bs[i].Admits(x);
    CompareIsTotalOrder(x, z, x);
    AdmittedMembers(bs, x);
    assert !Until(z).Admits(x);
    UncancelledIsAffected(events, z);
    CompiledMeans(events, z);
    assert !bs[j].Admits(z);
  }

  /** Without a start no version is affected; the clauses match none exactly if some version zero is fixed. */
  lemma ExactWithoutStart(events: seq<Event>)
    requires AllWellFormed(events) && !HasIntroduced(events)
    ensures Exact(events) <==> Until(ZERO) in Bounds(events)
  {
    hide Satisfies, Compiled, AffectedBy, HasIntroduced, AllWellFormed, Bounds, AllAdmit;
    forall v | NonNegative(v)
      ensures !AffectedBy(events, v)
      ensures Satisfies(Compiled(events), v) <==> AllAdmit(Bounds(events), v)
    {
      WithoutStartAt(events, v);
    }
    if Until(ZERO) in Bounds(events) {
      forall v | NonNegative(v) ensures !AllAdmit(Bounds(events), v) {
        NothingBelowZero(Bounds(events), v);
      }
    } else {
      ZeroIsAdmitted(events);
    }
  }

  lemma WithoutStartAt(events: seq<Event>, v: Version)
    requires AllWellFormed(events) && !HasIntroduced(events) && NonNegative(v)
    ensures !AffectedBy(events, v)
    ensures Satisfies(Compiled(events), v) <==> AllAdmit(Bounds(events), v)
  {
    CompiledMeans(events, v);
    CancelledIsUnaffected(events, v);
  }

  lemma NothingBelowZero(bs: seq<Bound>, v: Version)
    requires Until(ZERO) in bs && NonNegative(v)
    ensures !AllAdmit(bs, v)
  {
    var i :| 0 <= i < |bs| && bs[i] == Until(ZERO);
    assert !bs[i].Admits(v);
  }

  lemma ZeroIsAdmitted(events: seq<Event>)
    requires AllWellFormed(events) && !HasIntroduced(events) && Until(ZERO) !in Bounds(events)
    ensures AllAdmit(Bounds(events), ZERO)
  {
    var bs := Bounds(events);
    BoundsNonNegative(events);
    forall i | 0 <= i < |bs| ensures bs[i].Admits(ZERO) {
      assert bs[i] in bs && NonNegative(bs[i].ver) && events[i].introduced == "";
    }
  }

  /** When the compiler is exact, for any range that obeys the schema's rule for events: if it has starts, exactly when
      either they all are one version that no upper bound excludes, or each of them is cancelled by a fix of the same
      version; if it has none, exactly when version zero is fixed. */
  lemma ExactIff(events: seq<Event>)
    requires AllWellFormed(events)
    ensures Exact(events) <==>
            if HasIntroduced(events) then StartsOnce(Bounds(events)) || AllCancelled(Bounds(events))
            else Until(ZERO) in Bounds(events)
  {
    hide Exact, StartsOnce, AllCancelled, Bounds;
    if HasIntroduced(events) {
      if StartsOnce(Bounds(events)) || AllCancelled(Bounds(events)) {
        ExactIfCondition(events);
      } else if Exact(events) {
        ConditionIfExact(events);
      }
    } else {
      ExactWithoutStart(events);
    }
  }

  /** On disjoint intervals, whatever their order in the list and whether or not the last is open above, the condition
      is that there is one interval. */
  lemma ExactIffOneInterval(events: seq<Event>)
    requires Intervals(events)
    ensures Exact(events) <==> |events| <= 2
    ensures StartsOnce(Bounds(events)) || AllCancelled(Bounds(events)) <==> |events| <= 2
  {
    hide Satisfies, Compiled, AffectedBy, StartsOnce, AllCancelled, Bounds;
    if |events| <= 2 {
      forall v | NonNegative(v) ensures Satisfies(Compiled(events), v) <==> AffectedBy(events, v) {
        OneIntervalExact(events, v);
      }
    } else {
      var v := AffectedButUnmatched(events);
    }
    var order :| IsSortOf(order, events) && Chain(Bounds(order));
    IntroducedOf(order, events);
    ExactIff(events);
  }

  // The whole pipeline.

  /** Splitting the text at commas inside version strings adds no demand that matters. */
  ghost predicate CommasHarmless(ranges: seq<Range>)
    requires ConstraintText(ranges).Some?
  {
    forall v | NonNegative(v) ::
      Satisfies(Compiled(ranges[Chosen(ranges)].events), v) ==> MatchedBy(ConstraintText(ranges).value, v)
  }

  /** No range but the encoded one affects a version that the encoded one does not. */
  ghost predicate OthersAddNothing(ranges: seq<Range>)
    requires ConstraintText(ranges).Some?
  {
    forall i, v | 0 <= i < |ranges| && ranges[i].kind != "GIT" && NonNegative(v) ::
      AffectedBy(ranges[i].events, v) ==> AffectedBy(ranges[Chosen(ranges)].events, v)
  }

  /** A text whose version strings hold no comma is split as it was joined. */
  lemma PlainTextHarmless(ranges: seq<Range>)
    requires ConstraintText(ranges).Some? && AllPrintable(ranges[Chosen(ranges)].events)
    ensures CommasHarmless(ranges)
  {
    hide Satisfies, Compiled;
    CompileThenParse(ranges[Chosen(ranges)].events);
  }

  lemma MatchedIsCompiled(ranges: seq<Range>, v: Version)
    requires ConstraintText(ranges).Some? && AllReadable(ranges[Chosen(ranges)].events)
    requires MatchedBy(ConstraintText(ranges).value, v)
    ensures Satisfies(Compiled(ranges[Chosen(ranges)].events), v)
  {
    hide Satisfies, Compiled, EventClauses, Pieces, ConstraintsOf;
    var events := ranges[Chosen(ranges)].events;
    ClausesOpen(events);
    TextOfClauses(EventClauses(events));
    PiecesDemand(events, v);
  }

  /** Whole pipeline: the catalog matches exactly the affected versions if and only if the encoded range compiles
      exactly, no comma does harm, and no other range adds a version. */
  lemma PipelineExactIff(ranges: seq<Range>)
    requires ConstraintText(ranges).Some?
    requires var events := ranges[Chosen(ranges)].events;
             AllWellFormed(events) && AllReadable(events) && HasIntroduced(events)
    ensures
      (forall v | NonNegative(v) :: Affected(ranges, v) <==> MatchedBy(ConstraintText(ranges).value, v))
      <==>
      (var bounds := Bounds(ranges[Chosen(ranges)].events);
       (StartsOnce(bounds) || AllCancelled(bounds)) && CommasHarmless(ranges) && OthersAddNothing(ranges))
  {
    hide Satisfies, Compiled, AffectedBy, MatchedBy, ConstraintText, Bounds, StartsOnce, AllCancelled, HasIntroduced,
         AllWellFormed, AllReadable;
    ChosenIsEncoded(ranges);
    var c := Chosen(ranges);
    var events := ranges[c].events;
    ExactIff(events);
    forall v | NonNegative(v)
      ensures MatchedBy(ConstraintText(ranges).value, v) ==> Satisfies(Compiled(events), v)
      ensures Satisfies(Compiled(events), v) ==> AffectedBy(events, v)
      ensures AffectedBy(events, v) ==> Affected(ranges, v)
    {
      if MatchedBy(ConstraintText(ranges).value, v) {
        MatchedIsCompiled(ranges, v);
      }
      if Satisfies(Compiled(events), v) {
        RangeSound(events, v);
      }
      assert AffectedBy(ranges[c].events, v) ==> Affected(ranges, v);
    }
  }

  lemma ChosenIsEncoded(ranges: seq<Range>)
    requires ConstraintText(ranges).Some?
    ensures Chosen(ranges) < |ranges| && ranges[Chosen(ranges)].kind != "GIT"
  {}

  // ----- From a vulnerability to catalog entries -------------------------------------

  datatype AffectedPackage = AffectedPackage(ecosystem: string, name: string, ranges: seq<Range>)

  datatype Vulnerability = Vulnerability(id: string, summary: string, affected: seq<AffectedPackage>)

  datatype ImportedEntry = ImportedEntry(
    ecosystem: string, name: string, affectedVersions: string, ruleID: string,
    severity: string, reason: string, remediation: string, reference: string)

  const ECOSYSTEMS: map<string, string> := map[
    "PyPI" := "pypi", "npm" := "npm", "Go" := "go", "Maven" := "maven", "crates.io" := "cargo",
    "RubyGems" := "rubygems", "Packagist" := "composer", "NuGet" := "nuget"]

  function AdvisoryURL(id: string): string { "https://osv.dev/vulnerability/" + id }

  /** The allow-list key of a package; `lower` is the case folding of Go's strings.ToLower. */
  function PackageKey(a: AffectedPackage, lower: string -> string): string {
    lower(a.ecosystem) + ":" + lower(a.name)
  }

  predicate Qualifies(a: AffectedPackage, known: set<string>, lower: string -> string) {
    a.ecosystem in ECOSYSTEMS && PackageKey(a, lower) in known && ConstraintText(a.ranges).Some?
  }

  function EntryFor(v: Vulnerability, a: AffectedPackage, lower: string -> string): ImportedEntry
    requires a.ecosystem in ECOSYSTEMS && ConstraintText(a.ranges).Some?
  {
    var summary := TrimSpace(v.summary);
    ImportedEntry(
      ECOSYSTEMS[a.ecosystem], lower(a.name), ConstraintText(a.ranges).value, "OSV-" + v.id, "MEDIUM",
      (if summary == "" then v.id else summary) + " (imported from osv.dev)",
      "Upgrade to a fixed version. See " + AdvisoryURL(v.id) + " for details.", AdvisoryURL(v.id))
  }

  function EntriesOf(v: Vulnerability, affected: seq<AffectedPackage>, known: set<string>, lower: string -> string)
    : seq<ImportedEntry>
  {
    if affected == [] then []
    else
      var a := affected[|affected| - 1];
      EntriesOf(v, affected[..|affected| - 1], known, lower) +
      (if Qualifies(a, known, lower) then [EntryFor(v, a, lower)] else [])
  }

  method ToEntries(v: Vulnerability, known: set<string>, lower: string -> string) returns (out: seq<ImportedEntry>)
    ensures out == EntriesOf(v, v.affected, known, lower)
  {
    out := [];
    for i := 0 to |v.affected|
      invariant out == EntriesOf(v, v.affected[..i], known, lower)
    {
      assert v.affected[..i + 1][..i] == v.affected[..i];
      var a := v.affected[i];
      if a.ecosystem !in ECOSYSTEMS {
        continue;
      }
      var eco := ECOSYSTEMS[a.ecosystem];
      if lower(a.ecosystem) + ":" + lower(a.name) !in known {
        continue;
      }
      var constraint, encodable := RangesToConstraint(a.ranges);
      if !encodable {
        continue;
      }
      var summary := TrimSpace(v.summary);
      if summary == "" {
        summary := v.id;
      }
      out := out + [ImportedEntry(
        eco, lower(a.name), constraint, "OSV-" + v.id, "MEDIUM", summary + " (imported from osv.dev)",
        "Upgrade to a fixed version. See " + AdvisoryURL(v.id) + " for details.", AdvisoryURL(v.id))];
    }
    assert v.affected[..|v.affected|] == v.affected;
  }

  /** The encoded range of a package obeys the schema, and no upper bound in it starts with `=`. */
  predicate Regular(a: AffectedPackage)
    requires ConstraintText(a.ranges).Some?
  {
    var events := a.ranges[Chosen(a.ranges)].events;
    AllWellFormed(events) && AllReadable(events) && HasIntroduced(events)
  }

  /** Every emitted entry stems from an allow-listed package of the advisory, and every version its
      text matches is affected according to that package's ranges, if those obey the schema. */
  lemma {:induction false} EntriesSound(v: Vulnerability, affected: seq<AffectedPackage>, known: set<string>,
                                        lower: string -> string, e: ImportedEntry)
    requires e in EntriesOf(v, affected, known, lower)
    ensures exists a | a in affected ::
              && Qualifies(a, known, lower) && e == EntryFor(v, a, lower)
              && (Regular(a) ==> forall ver | NonNegative(ver) ::
                    MatchedBy(e.affectedVersions, ver) ==> Affected(a.ranges, ver))
  {
    var init, a := affected[..|affected| - 1], affected[|affected| - 1];
    if e in EntriesOf(v, init, known, lower) {
      EntriesSound(v, init, known, lower, e);
    } else {
      assert a in affected;
      assert e == EntryFor(v, a, lower);
      forall ver | Regular(a) && NonNegative(ver)
        ensures MatchedBy(e.affectedVersions, ver) ==> Affected(a.ranges, ver)
      {
        CompilerSound(a.ranges, ver);
      }
    }
  }

  /** The entry is what the advisory says about the package, field by field; the package is allow-listed under its
      ecosystem and name, folded. */
  predicate Stems(v: Vulnerability, a: AffectedPackage, known: set<string>, lower: string -> string, e: ImportedEntry)
  {
    && a.ecosystem in ECOSYSTEMS && e.ecosystem == ECOSYSTEMS[a.ecosystem]
    && lower(a.ecosystem) + ":" + lower(a.name) in known && e.name == lower(a.name)
    && ConstraintText(a.ranges) == Some(e.affectedVersions)
    && e.ruleID == "OSV-" + v.id && e.severity == "MEDIUM" && e.reference == "https://osv.dev/vulnerability/" + v.id
    && e.reason == (if TrimSpace(v.summary) == "" then v.id else TrimSpace(v.summary)) + " (imported from osv.dev)"
    && e.remediation == "Upgrade to a fixed version. See " + ("https://osv.dev/vulnerability/" + v.id) + " for details."
  }

  lemma StemsIsQualified(v: Vulnerability, a: AffectedPackage, known: set<string>, lower: string -> string,
                            e: ImportedEntry)
    ensures Stems(v, a, known, lower, e) <==> Qualifies(a, known, lower) && e == EntryFor(v, a, lower)
  {
    hide ConstraintText, TrimSpace;
  }

  /** Exactly the allow-listed packages with encodable ranges give entries, and what they give is the advisory's. */
  lemma {:induction false} EntriesAre(v: Vulnerability, affected: seq<AffectedPackage>, known: set<string>,
                                      lower: string -> string, e: ImportedEntry)
    ensures e in EntriesOf(v, affected, known, lower) <==> exists a :: a in affected && Stems(v, a, known, lower, e)
  {
    hide Stems, Qualifies, ConstraintText, TrimSpace;
    if affected != [] {
      var init, last := affected[..|affected| - 1], affected[|affected| - 1];
      assert affected == init + [last];
      EntriesAre(v, init, known, lower, e);
      StemsIsQualified(v, last, known, lower, e);
    }
  }

  /** Packages give their entries one by one, in order. */
  lemma {:induction false} EntriesConcat(v: Vulnerability, a: seq<AffectedPackage>, b: seq<AffectedPackage>,
                                         known: set<string>, lower: string -> string)
    ensures EntriesOf(v, a + b, known, lower) == EntriesOf(v, a, known, lower) + EntriesOf(v, b, known, lower)
  {
    hide Qualifies;
    if b == [] {
      assert a + b == a;
    } else {
      assert (a + b)[..|a + b| - 1] == a + b[..|b| - 1];
      EntriesConcat(v, a, b[..|b| - 1], known, lower);
    }
  }
}
