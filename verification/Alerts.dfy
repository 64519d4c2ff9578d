/** The alert decision (internal/server/alerts.go): which destinations are sent which findings of a
    finished scan, given the record of the previous one. */
module Alerts {
  import opened Text
  import opened Findings

  /** A persisted scan result. Its summary is a count over the findings and is not kept. */
  datatype ScanRecord = ScanRecord(
    id: string, targetID: string, startedAt: int, duration: int, error: string, findings: seq<Finding>)

  datatype AlertDestination = AlertDestination(
    id: string, name: string, url: string, minSeverity: string, addedAt: int)

  datatype AlertType = InitialFindings | NewFindings

  /** One payload handed to a destination. */
  datatype Delivery = Delivery(
    destination: AlertDestination, alertType: AlertType, scanID: string, findings: seq<Finding>)

  // ----- Keys and severities ---------------------------------------------------

  function FindingKey(f: Finding): string {
    f.rule + "|" + f.algorithm + "|" + f.file
  }

  function Keys(fs: seq<Finding>): set<string> {
    set i | 0 <= i < |fs| :: FindingKey(fs[i])
  }

  /** strings.ToUpper as far as a comparison with ASCII words can tell: besides the ASCII letters, only the
      dotless i and the long s have an ASCII capital. */
  function Upper(s: string): string {
    if s == "" then "" else [Capital(s[0])] + Upper(s[1..])
  }

  function Capital(c: char): char {
    if 'a' <= c <= 'z' then c - 'a' + 'A'
    else if c as int == 0x131 then 'I' else if c as int == 0x17F then 'S' else c
  }

  const SEV_RANK: map<string, int> := map["HIGH" := 3, "MEDIUM" := 2, "LOW" := 1]

  /** A severity that is not in the table has the map's zero value. */
  function Rank(severity: string): int {
    if severity in SEV_RANK then SEV_RANK[severity] else 0
  }

  /** An unknown threshold means HIGH. */
  function Threshold(minSeverity: string): int {
    if Upper(minSeverity) in SEV_RANK then SEV_RANK[Upper(minSeverity)] else 3
  }

  // ----- Keys and severities in plain terms ---------------------------------------

  /** One finding as far as alerts can tell: the same rule, algorithm and file, whatever the line. */
  predicate SameThing(f: Finding, g: Finding) {
    f.rule == g.rule && f.algorithm == g.algorithm && f.file == g.file
  }

  /** The separator occurs in neither of the first two parts. */
  predicate BarFree(f: Finding) { '|' !in f.rule && '|' !in f.algorithm }

  lemma KeyParts(f: Finding)
    requires BarFree(f)
    ensures var s := FindingKey(f);
            && Index(s, '|') == |f.rule| && s[..|f.rule|] == f.rule
            && var rest := s[|f.rule| + 1..];
               Index(rest, '|') == |f.algorithm| && rest[..|f.algorithm|] == f.algorithm
               && rest[|f.algorithm| + 1..] == f.file
  {
    hide Index;
    var rest := f.algorithm + ['|'] + f.file;
    var s := f.rule + ['|'] + rest;
    assert FindingKey(f) == s;
    IndexAfter(f.rule, '|', rest);
    assert s[|f.rule| + 1..] == rest;
    IndexAfter(f.algorithm, '|', f.file);
  }

  /** Keys are equal exactly when rule, algorithm and file are, if neither rule nor algorithm holds a bar. */
  lemma KeyIsComponents(f: Finding, g: Finding)
    requires BarFree(f) && BarFree(g)
    ensures FindingKey(f) == FindingKey(g) <==> f.rule == g.rule && f.algorithm == g.algorithm && f.file == g.file
  {
    hide Index;
    KeyParts(f);
    KeyParts(g);
  }

  lemma BarsOfKey(f: Finding)
    ensures var s := FindingKey(f);
            var first, second := |f.rule|, |f.rule| + 1 + |f.algorithm|;
            && |s| == second + 1 + |f.file| && s[first] == '|' && s[second] == '|'
            && s[..first] == f.rule && s[first + 1..second] == f.algorithm && s[second + 1..] == f.file
  {}

  lemma OnlyTwoBars(f: Finding)
    requires BarFree(f) && '|' !in f.file
    ensures forall p | 0 <= p < |FindingKey(f)| && FindingKey(f)[p] == '|' ::
              p == |f.rule| || p == |f.rule| + 1 + |f.algorithm|
  {
    var s := FindingKey(f);
    var second := |f.rule| + 1 + |f.algorithm|;
    assert forall p | 0 <= p < |f.rule| :: s[p] == f.rule[p];
    assert forall p | |f.rule| < p < second :: s[p] == f.algorithm[p - |f.rule| - 1];
    assert forall p | second < p < |s| :: s[p] == f.file[p - second - 1];
  }

  /** A bar in one of the parts: another finding has the same key. */
  lemma KeyWithBar(f: Finding) returns (g: Finding)
    requires '|' in f.rule || '|' in f.algorithm || '|' in f.file
    ensures FindingKey(g) == FindingKey(f) && !SameThing(f, g)
  {
    if '|' in f.rule {
      var x, y := AtBar(f.rule);
      g := f.(rule := x, algorithm := y + "|" + f.algorithm);
      BarsMove(x, y, f.algorithm, f.file);
    } else if '|' in f.algorithm {
      var x, y := AtBar(f.algorithm);
      g := f.(rule := f.rule + "|" + x, algorithm := y);
      BarsMove(f.rule, x, y, f.file);
    } else {
      var x, y := AtBar(f.file);
      g := f.(algorithm := f.algorithm + "|" + x, file := y);
      BarsMove(f.rule, f.algorithm, x, y);
    }
  }

  lemma AtBar(s: string) returns (x: string, y: string)
    requires '|' in s
    ensures s == x + "|" + y && |x| < |s| && |y| < |s|
  {
    var i := Index(s, '|');
    x, y := s[..i], s[i + 1..];
  }

  lemma BarsMove(a: string, b: string, c: string, d: string)
    ensures a + "|" + (b + "|" + c) + "|" + d == (a + "|" + b) + "|" + c + "|" + d
    ensures a + "|" + (b + "|" + c) + "|" + d == a + "|" + b + "|" + (c + "|" + d)
  {}

  /** The exact condition: a key tells rule, algorithm and file apart from those of every other finding if and only if
      none of the three holds a bar. */
  lemma KeyIdentifiesIff(f: Finding)
    ensures (forall g: Finding | FindingKey(g) == FindingKey(f) :: SameThing(f, g))
            <==> '|' !in f.rule && '|' !in f.algorithm && '|' !in f.file
  {
    if '|' in f.rule || '|' in f.algorithm || '|' in f.file {
      var g := KeyWithBar(f);
    } else {
      OnlyTwoBars(f);
      BarsOfKey(f);
      forall g: Finding | FindingKey(g) == FindingKey(f) ensures SameThing(f, g) {
        BarsOfKey(g);
      }
    }
  }

  /** The text is a word, each letter written in one of the given ways. */
  predicate Spelled(s: string, letters: seq<string>) {
    |s| == |letters| && forall i | 0 <= i < |s| :: s[i] in letters[i]
  }

  /** A finding of this severity is worth telling a destination with this threshold: HIGH always, MEDIUM if the
      threshold says medium or low, LOW if it says low, in capitals or not. */
  predicate WorthTelling(severity: string, minSeverity: string) {
    var low := Spelled(minSeverity, ["Ll", "Oo", "Ww"]);
    var medium := Spelled(minSeverity, ["Mm", "Ee", "Dd", "Ii\U{131}", "Uu", "Mm"]);
    severity == "HIGH" || (severity == "MEDIUM" && (medium || low)) || (severity == "LOW" && low)
  }

  lemma {:induction false} UpperChars(s: string)
    ensures |Upper(s)| == |s|
    ensures forall i | 0 <= i < |s| :: Upper(s)[i] == Capital(s[i])
  {
    hide Capital;
    if s != "" {
      UpperChars(s[1..]);
    }
  }

  lemma CapitalsOf(c: char)
    ensures (Capital(c) == 'L' <==> c in "Ll") && (Capital(c) == 'O' <==> c in "Oo")
    ensures (Capital(c) == 'W' <==> c in "Ww") && (Capital(c) == 'M' <==> c in "Mm")
    ensures (Capital(c) == 'E' <==> c in "Ee") && (Capital(c) == 'D' <==> c in "Dd")
    ensures (Capital(c) == 'I' <==> c in "Ii\U{131}") && (Capital(c) == 'U' <==> c in "Uu")
  {}

  lemma UpperIsWord(s: string, word: string, letters: seq<string>)
    requires |word| == |letters|
    requires forall i, c | 0 <= i < |word| :: Capital(c) == word[i] <==> c in letters[i]
    ensures Upper(s) == word <==> Spelled(s, letters)
  {
    hide Capital;
    UpperChars(s);
    if Spelled(s, letters) {
      assert forall i | 0 <= i < |s| :: Capital(s[i]) == word[i];
    }
  }

  /** The rank table and the threshold mean just that; an unknown severity is never worth telling and an unknown
      threshold counts as HIGH. */
  lemma RankIsWorth(severity: string, minSeverity: string)
    ensures Rank(severity) >= Threshold(minSeverity) <==> WorthTelling(severity, minSeverity)
  {
    hide Capital, Upper, Spelled;
    forall c {
      CapitalsOf(c);
    }
    UpperIsWord(minSeverity, "LOW", ["Ll", "Oo", "Ww"]);
    UpperIsWord(minSeverity, "MEDIUM", ["Mm", "Ee", "Dd", "Ii\U{131}", "Uu", "Mm"]);
  }

  // ----- Filtering loops ----------------------------------------------------------

  /** The findings whose key is not among `keys`, in order. */
  function Fresh(fs: seq<Finding>, keys: set<string>): seq<Finding> {
    if fs == [] then []
    else
      var last := fs[|fs| - 1];
      Fresh(fs[..|fs| - 1], keys) + (if FindingKey(last) !in keys then [last] else [])
  }

  method DiffFindings(current: seq<Finding>, previous: seq<Finding>) returns (out: seq<Finding>)
    ensures out == Fresh(current, Keys(previous))
  {
    var prev: set<string> := {};
    for i := 0 to |previous|
      invariant prev == Keys(previous[..i])
    {
      assert Keys(previous[..i + 1]) == Keys(previous[..i]) + {FindingKey(previous[i])} by {
        KeysAppend(previous[..i], previous[i]);
        assert previous[..i] + [previous[i]] == previous[..i + 1];
      }
      prev := prev + {FindingKey(previous[i])};
    }
    assert previous[..|previous|] == previous;
    out := [];
    for i := 0 to |current|
      invariant out == Fresh(current[..i], prev)
    {
      assert current[..i + 1][..i] == current[..i];
      if FindingKey(current[i]) !in prev {
        out := out + [current[i]];
      }
    }
    assert current[..|current|] == current;
  }

  lemma KeysAppend(fs: seq<Finding>, f: Finding)
    ensures Keys(fs + [f]) == Keys(fs) + {FindingKey(f)}
  {
    assert (fs + [f])[|fs|] == f;
    assert forall i | 0 <= i < |fs| :: (fs + [f])[i] == fs[i];
    forall k ensures k in Keys(fs + [f]) <==> k in Keys(fs) + {FindingKey(f)} {
      if k in Keys(fs) {
        var i :| 0 <= i < |fs| && FindingKey(fs[i]) == k;
        assert FindingKey((fs + [f])[i]) == k;
      } else if k == FindingKey(f) {
        assert FindingKey((fs + [f])[|fs|]) == k;
      }
    }
  }

  /** Filtering works part by part, so that what is kept keeps its order and its repetitions. */
  lemma {:induction false} FreshConcat(a: seq<Finding>, b: seq<Finding>, keys: set<string>)
    ensures Fresh(a + b, keys) == Fresh(a, keys) + Fresh(b, keys)
  {
    hide FindingKey;
    if b == [] {
      assert a + b == a;
    } else {
      assert (a + b)[..|a + b| - 1] == a + b[..|b| - 1];
      FreshConcat(a, b[..|b| - 1], keys);
    }
  }

  /** The findings of at least the given rank, in order. */
  function AtLeast(fs: seq<Finding>, threshold: int): seq<Finding> {
    if fs == [] then []
    else
      var last := fs[|fs| - 1];
      AtLeast(fs[..|fs| - 1], threshold) + (if Rank(last.severity) >= threshold then [last] else [])
  }

  method FilterBySeverity(fs: seq<Finding>, minSev: string) returns (out: seq<Finding>)
    ensures out == AtLeast(fs, Threshold(minSev))
  {
    var key := Upper(minSev);
    var thresh: int;
    if key in SEV_RANK {
      thresh := SEV_RANK[key];
    } else {
      thresh := SEV_RANK["HIGH"];
    }
    out := [];
    for i := 0 to |fs|
      invariant out == AtLeast(fs[..i], thresh)
    {
      assert fs[..i + 1][..i] == fs[..i];
      if Rank(fs[i].severity) >= thresh {
        out := out + [fs[i]];
      }
    }
    assert fs[..|fs|] == fs;
  }

  // ----- The decision ----------------------------------------------------------------

  /** What goes out, one payload per destination with something to tell. */
  function Deliveries(dests: seq<AlertDestination>, alertType: AlertType, scanID: string, fs: seq<Finding>)
    : seq<Delivery>
  {
    if dests == [] then []
    else
      var d := dests[|dests| - 1];
      var filtered := AtLeast(fs, Threshold(d.minSeverity));
      Deliveries(dests[..|dests| - 1], alertType, scanID, fs) +
      (if filtered == [] then [] else [Delivery(d, alertType, scanID, filtered)])
  }

  /** The decision given what the two store reads returned; None stands for a read that failed, and for
      a previous record that is not there. */
  function Decide(dests: Option<seq<AlertDestination>>, rec: ScanRecord, prevScanID: string, prev: Option<ScanRecord>)
    : seq<Delivery>
  {
    if rec.error != "" || rec.findings == [] || dests.None? then []
    else if prevScanID == "" || prev.None? then Deliveries(dests.value, InitialFindings, rec.id, rec.findings)
    else Deliveries(dests.value, NewFindings, rec.id, Fresh(rec.findings, Keys(prev.value.findings)))
  }

  lemma {:induction false} NothingToDeliver(dests: seq<AlertDestination>, alertType: AlertType, scanID: string)
    ensures Deliveries(dests, alertType, scanID, []) == []
  {
    if dests != [] {
      NothingToDeliver(dests[..|dests| - 1], alertType, scanID);
    }
  }

  method DispatchAlerts(
    dests: Option<seq<AlertDestination>>, rec: ScanRecord, prevScanID: string, prev: Option<ScanRecord>)
    returns (sent: seq<Delivery>)
    ensures sent == Decide(dests, rec, prevScanID, prev)
  {
    sent := [];
    if rec.error != "" || |rec.findings| == 0 {
      return;
    }
    if dests.None? || |dests.value| == 0 {
      return;
    }
    var newOnes: seq<Finding>;
    var alertType := NewFindings;
    if prevScanID == "" {
      newOnes := rec.findings;
      alertType := InitialFindings;
    } else if prev.Some? {
      newOnes := DiffFindings(rec.findings, prev.value.findings);
    } else {
      newOnes := rec.findings;
      alertType := InitialFindings;
    }
    var ds := dests.value;
    if |newOnes| == 0 {
      NothingToDeliver(ds, alertType, rec.id);
      return;
    }
    for i := 0 to |ds|
      invariant sent == Deliveries(ds[..i], alertType, rec.id, newOnes)
    {
      assert ds[..i + 1][..i] == ds[..i];
      var filtered := FilterBySeverity(newOnes, ds[i].minSeverity);
      if |filtered| == 0 {
        continue;
      }
      sent := sent + [Delivery(ds[i], alertType, rec.id, filtered)];
    }
    assert ds[..|ds|] == ds;
  }

  // ----- What the decision means ------------------------------------------------------

  /** A finding is new to a destination: its key was not in the previous record, and it is severe enough. */
  predicate NewTo(f: Finding, d: AlertDestination, before: set<string>) {
    FindingKey(f) !in before && Rank(f.severity) >= Threshold(d.minSeverity)
  }

  /** The new findings of a record for a destination, in order and with repetitions. */
  function NewOnes(fs: seq<Finding>, d: AlertDestination, before: set<string>): seq<Finding> {
    if fs == [] then []
    else
      var last := fs[|fs| - 1];
      NewOnes(fs[..|fs| - 1], d, before) + (if NewTo(last, d, before) then [last] else [])
  }

  /** The two filters of the code together select the new findings. */
  lemma {:induction false} FiltersSelectNew(fs: seq<Finding>, d: AlertDestination, before: set<string>)
    ensures AtLeast(Fresh(fs, before), Threshold(d.minSeverity)) == NewOnes(fs, d, before)
  {
    if fs != [] {
      var init, last := fs[..|fs| - 1], fs[|fs| - 1];
      FiltersSelectNew(init, d, before);
      if FindingKey(last) !in before {
        assert Fresh(fs, before)[..|Fresh(fs, before)| - 1] == Fresh(init, before);
      } else {
        assert Fresh(fs, before) == Fresh(init, before);
      }
    }
  }

  lemma {:induction false} FreshOfNothing(fs: seq<Finding>)
    ensures Fresh(fs, {}) == fs
  {
    if fs != [] {
      FreshOfNothing(fs[..|fs| - 1]);
    }
  }

  lemma {:induction false} NewOnesMembers(fs: seq<Finding>, d: AlertDestination, before: set<string>)
    ensures forall f :: f in NewOnes(fs, d, before) <==> f in fs && NewTo(f, d, before)
  {
    if fs != [] {
      var init, last := fs[..|fs| - 1], fs[|fs| - 1];
      NewOnesMembers(init, d, before);
      assert fs == init + [last];
    }
  }

  /** What a scan should send, told by the previous record alone: no record at all counts as an empty one. */
  function Expected(dests: seq<AlertDestination>, rec: ScanRecord, prev: Option<ScanRecord>): seq<Delivery> {
    if dests == [] then []
    else
      var d := dests[|dests| - 1];
      var news := NewOnes(rec.findings, d, if prev.Some? then Keys(prev.value.findings) else {});
      Expected(dests[..|dests| - 1], rec, prev) +
      (if news == [] then []
       else [Delivery(d, if prev.Some? then NewFindings else InitialFindings, rec.id, news)])
  }

  lemma {:induction false} DeliveriesAsExpected(dests: seq<AlertDestination>, rec: ScanRecord, prev: Option<ScanRecord>)
    ensures Expected(dests, rec, prev) ==
            if prev.Some? then Deliveries(dests, NewFindings, rec.id, Fresh(rec.findings, Keys(prev.value.findings)))
            else Deliveries(dests, InitialFindings, rec.id, rec.findings)
  {
    FreshOfNothing(rec.findings);
    if dests != [] {
      DeliveriesAsExpected(dests[..|dests| - 1], rec, prev);
      FiltersSelectNew(rec.findings, dests[|dests| - 1], if prev.Some? then Keys(prev.value.findings) else {});
    }
  }

  /** When the destinations can be read, the decision is as expected, given the previous record; no link, and a link
      whose record cannot be read, count as no record. A failed scan sends nothing, and without destinations nothing can
      be sent. */
  lemma DecideAsExpected(dests: seq<AlertDestination>, rec: ScanRecord, prevScanID: string, prev: Option<ScanRecord>)
    ensures Decide(Some(dests), rec, prevScanID, prev) ==
            if rec.error == "" then Expected(dests, rec, if prevScanID == "" then None else prev) else []
    ensures Decide(None, rec, prevScanID, prev) == []
  {
    DeliveriesAsExpected(dests, rec, if prevScanID == "" then None else prev);
    if rec.findings == [] {
      NothingToDeliver(dests, if prevScanID != "" && prev.Some? then NewFindings else InitialFindings, rec.id);
    }
  }

  /** A record without findings sends nothing, so that a failed scan may count as an empty one. */
  lemma {:induction false} NothingExpected(dests: seq<AlertDestination>, rec: ScanRecord, prev: Option<ScanRecord>)
    requires rec.findings == []
    ensures Expected(dests, rec, prev) == []
  {
    if dests != [] {
      NothingExpected(dests[..|dests| - 1], rec, prev);
    }
  }

  /** Whether a payload for destination d tells about a key. */
  predicate Tells(sent: seq<Delivery>, d: AlertDestination, key: string) {
    exists i | 0 <= i < |sent| :: sent[i].destination == d && key in Keys(sent[i].findings)
  }

  /** The key is raised: it is in the record at or above the destination's threshold and was not there before. */
  predicate Raised(rec: ScanRecord, prev: Option<ScanRecord>, d: AlertDestination, key: string) {
    && (exists i | 0 <= i < |rec.findings| ::
          FindingKey(rec.findings[i]) == key && Rank(rec.findings[i].severity) >= Threshold(d.minSeverity))
    && (prev.Some? ==> key !in Keys(prev.value.findings))
  }

  lemma TellsAppend(a: seq<Delivery>, b: seq<Delivery>, d: AlertDestination, key: string)
    ensures Tells(a + b, d, key) <==> Tells(a, d, key) || Tells(b, d, key)
  {
    assert forall i | 0 <= i < |a| :: (a + b)[i] == a[i];
    assert forall i | 0 <= i < |b| :: (a + b)[|a| + i] == b[i];
  }

  lemma KeyOfNewOnes(fs: seq<Finding>, d: AlertDestination, before: set<string>, key: string)
    ensures key in Keys(NewOnes(fs, d, before)) <==>
            key !in before &&
            exists i | 0 <= i < |fs| :: FindingKey(fs[i]) == key && Rank(fs[i].severity) >= Threshold(d.minSeverity)
  {
    var news := NewOnes(fs, d, before);
    NewOnesMembers(fs, d, before);
    if key in Keys(news) {
      var k :| 0 <= k < |news| && FindingKey(news[k]) == key;
      assert news[k] in fs;
      var i :| 0 <= i < |fs| && fs[i] == news[k];
    }
    if i :| 0 <= i < |fs| && FindingKey(fs[i]) == key && Rank(fs[i].severity) >= Threshold(d.minSeverity)
            && key !in before {
      assert fs[i] in news;
      var k :| 0 <= k < |news| && news[k] == fs[i];
      assert FindingKey(news[k]) == key;
    }
  }

  /** A destination hears of a key exactly when it is registered and the key is raised. */
  lemma {:induction false} ToldIffRaised(dests: seq<AlertDestination>, rec: ScanRecord, prev: Option<ScanRecord>,
                                         d: AlertDestination, key: string)
    ensures Tells(Expected(dests, rec, prev), d, key) <==> d in dests && Raised(rec, prev, d, key)
  {
    if dests != [] {
      var init, last := dests[..|dests| - 1], dests[|dests| - 1];
      var before := if prev.Some? then Keys(prev.value.findings) else {};
      assert dests == init + [last];
      ToldIffRaised(init, rec, prev, d, key);
      var news := NewOnes(rec.findings, last, before);
      var one := if news == [] then []
                 else [Delivery(last, if prev.Some? then NewFindings else InitialFindings, rec.id, news)];
      TellsAppend(Expected(init, rec, prev), one, d, key);
      KeyOfNewOnes(rec.findings, last, before, key);
      if one != [] {
        assert one[0].findings == news;
      }
    }
  }

  lemma {:induction false} NoNewOnes(fs: seq<Finding>, d: AlertDestination, before: set<string>)
    requires forall i | 0 <= i < |fs| :: FindingKey(fs[i]) in before
    ensures NewOnes(fs, d, before) == []
  {
    if fs != [] {
      NoNewOnes(fs[..|fs| - 1], d, before);
    }
  }

  /** A re-scan that finds nothing with a new key sends nothing at all. */
  lemma {:induction false} UnchangedIsSilent(dests: seq<AlertDestination>, rec: ScanRecord, prev: ScanRecord)
    requires Keys(rec.findings) <= Keys(prev.findings)
    ensures Expected(dests, rec, Some(prev)) == []
  {
    if dests != [] {
      UnchangedIsSilent(dests[..|dests| - 1], rec, prev);
      forall i | 0 <= i < |rec.findings| ensures FindingKey(rec.findings[i]) in Keys(prev.findings) {
        assert FindingKey(rec.findings[i]) in Keys(rec.findings);
      }
      NoNewOnes(rec.findings, dests[|dests| - 1], Keys(prev.findings));
    }
  }

  // ----- What a destination is told, in plain terms ---------------------------------------

  /** Some payload for destination d holds the finding. */
  predicate Told(sent: seq<Delivery>, d: AlertDestination, f: Finding) {
    exists i | 0 <= i < |sent| :: sent[i].destination == d && f in sent[i].findings
  }

  /** The finding is in the record, worth telling, and nothing in the previous record was the same thing. */
  predicate Newsworthy(rec: ScanRecord, prev: Option<ScanRecord>, d: AlertDestination, f: Finding) {
    && f in rec.findings && WorthTelling(f.severity, d.minSeverity)
    && (prev.Some? ==> forall g | g in prev.value.findings :: !SameThing(f, g))
  }

  predicate PreviousBarFree(prev: Option<ScanRecord>) {
    prev.Some? ==> forall g | g in prev.value.findings :: BarFree(g)
  }

  lemma KeyIsNew(f: Finding, fs: seq<Finding>)
    requires BarFree(f) && forall g | g in fs :: BarFree(g)
    ensures FindingKey(f) !in Keys(fs) <==> forall g | g in fs :: !SameThing(f, g)
  {
    hide FindingKey;
    if FindingKey(f) in Keys(fs) {
      var i :| 0 <= i < |fs| && FindingKey(fs[i]) == FindingKey(f);
      KeyIsComponents(f, fs[i]);
      assert fs[i] in fs && SameThing(f, fs[i]);
    }
    if g :| g in fs && SameThing(f, g) {
      KeyIsComponents(f, g);
      var i :| 0 <= i < |fs| && fs[i] == g;
      assert FindingKey(fs[i]) in Keys(fs);
    }
  }

  lemma ToldAppend(a: seq<Delivery>, b: seq<Delivery>, d: AlertDestination, f: Finding)
    ensures Told(a + b, d, f) <==> Told(a, d, f) || Told(b, d, f)
  {
    assert forall i | 0 <= i < |a| :: (a + b)[i] == a[i];
    assert forall i | 0 <= i < |b| :: (a + b)[|a| + i] == b[i];
  }

  /** A destination is told of a finding if and only if it is registered and the finding is newsworthy: on rules,
      algorithms, files and severities as they are written. */
  lemma {:induction false} ToldIffNewsworthy(dests: seq<AlertDestination>, rec: ScanRecord, prev: Option<ScanRecord>,
                                             d: AlertDestination, f: Finding)
    requires BarFree(f) && PreviousBarFree(prev)
    ensures Told(Expected(dests, rec, prev), d, f) <==> d in dests && Newsworthy(rec, prev, d, f)
  {
    hide FindingKey, Keys, WorthTelling, Rank, Threshold, SameThing, BarFree;
    if dests != [] {
      var init, last := dests[..|dests| - 1], dests[|dests| - 1];
      var before := if prev.Some? then Keys(prev.value.findings) else {};
      assert dests == init + [last];
      ToldIffNewsworthy(init, rec, prev, d, f);
      var news := NewOnes(rec.findings, last, before);
      var one := if news == [] then []
                 else [Delivery(last, if prev.Some? then NewFindings else InitialFindings, rec.id, news)];
      ToldAppend(Expected(init, rec, prev), one, d, f);
      NewOnesMembers(rec.findings, last, before);
      RankIsWorth(f.severity, last.minSeverity);
      if prev.Some? {
        KeyIsNew(f, prev.value.findings);
      }
      if one != [] {
        assert one[0].findings == news;
      }
    }
  }

  /** The destinations of payloads, in order. */
  function Receivers(sent: seq<Delivery>): seq<AlertDestination> {
    seq(|sent|, i requires 0 <= i < |sent| => sent[i].destination)
  }

  /** The payload tells of some findings of this very scan, and says whether it is the first. */
  predicate PayloadRight(p: Delivery, rec: ScanRecord, prev: Option<ScanRecord>) {
    && p.scanID == rec.id && (p.alertType == InitialFindings <==> prev.None?)
    && p.findings != [] && multiset(p.findings) <= multiset(rec.findings)
  }

  /** Every payload is right, and each registration gets one at most. */
  lemma {:induction false} PayloadsAreRight(dests: seq<AlertDestination>, rec: ScanRecord, prev: Option<ScanRecord>)
    ensures var sent := Expected(dests, rec, prev);
            && multiset(Receivers(sent)) <= multiset(dests)
            && forall i | 0 <= i < |sent| :: PayloadRight(sent[i], rec, prev)
  {
    hide NewOnes, PayloadRight;
    if dests != [] {
      var init, last := dests[..|dests| - 1], dests[|dests| - 1];
      PayloadsAreRight(init, rec, prev);
      assert dests == init + [last];
      var before := Expected(init, rec, prev);
      var news := NewOnes(rec.findings, last, if prev.Some? then Keys(prev.value.findings) else {});
      if news != [] {
        var one := Delivery(last, if prev.Some? then NewFindings else InitialFindings, rec.id, news);
        assert Expected(dests, rec, prev) == before + [one];
        OnePayload(last, rec, prev);
        OneReceiver(before, one, init);
      } else {
        assert Expected(dests, rec, prev) == before;
      }
    } else {
      assert Receivers([]) == [];
    }
  }

  lemma OnePayload(d: AlertDestination, rec: ScanRecord, prev: Option<ScanRecord>)
    ensures var news := NewOnes(rec.findings, d, if prev.Some? then Keys(prev.value.findings) else {});
            news != [] ==>
              PayloadRight(Delivery(d, if prev.Some? then NewFindings else InitialFindings, rec.id, news), rec, prev)
  {
    NewOnesWithin(rec.findings, d, if prev.Some? then Keys(prev.value.findings) else {});
  }

  lemma OneReceiver(before: seq<Delivery>, one: Delivery, dests: seq<AlertDestination>)
    requires multiset(Receivers(before)) <= multiset(dests)
    ensures multiset(Receivers(before + [one])) <= multiset(dests + [one.destination])
  {
    assert Receivers(before + [one]) == Receivers(before) + [one.destination];
  }

  lemma {:induction false} NewOnesWithin(fs: seq<Finding>, d: AlertDestination, before: set<string>)
    ensures multiset(NewOnes(fs, d, before)) <= multiset(fs)
  {
    hide NewTo;
    if fs != [] {
      NewOnesWithin(fs[..|fs| - 1], d, before);
      assert fs == fs[..|fs| - 1] + [fs[|fs| - 1]];
    }
  }

  /** An edge on rules, algorithms, files and severities as written: a key is raised exactly when the record has
      the thing, worth telling, and the previous record has it not. */
  lemma RaisedOnComponents(rec: ScanRecord, prev: Option<ScanRecord>, d: AlertDestination, f: Finding)
    requires BarFree(f) && PreviousBarFree(Some(rec)) && PreviousBarFree(prev)
    ensures Raised(rec, prev, d, FindingKey(f)) <==>
            && (exists g :: g in rec.findings && SameThing(f, g) && WorthTelling(g.severity, d.minSeverity))
            && (prev.Some? ==> forall g | g in prev.value.findings :: !SameThing(f, g))
  {
    hide FindingKey, WorthTelling, Rank, Threshold, BarFree;
    if prev.Some? {
      KeyIsNew(f, prev.value.findings);
    }
    forall g | g in rec.findings
      ensures (FindingKey(g) == FindingKey(f) <==> SameThing(f, g))
              && (Rank(g.severity) >= Threshold(d.minSeverity) <==> WorthTelling(g.severity, d.minSeverity))
    {
      KeyIsComponents(f, g);
      RankIsWorth(g.severity, d.minSeverity);
    }
    if g :| g in rec.findings && SameThing(f, g) && WorthTelling(g.severity, d.minSeverity) {
      var i :| 0 <= i < |rec.findings| && rec.findings[i] == g;
      assert FindingKey(rec.findings[i]) == FindingKey(f);
    }
    if i :| 0 <= i < |rec.findings| && FindingKey(rec.findings[i]) == FindingKey(f)
            && Rank(rec.findings[i].severity) >= Threshold(d.minSeverity) {
      assert rec.findings[i] in rec.findings;
    }
  }
}
