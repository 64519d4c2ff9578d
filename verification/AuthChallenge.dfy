/** Authentication challenges (internal/registry/client.go): splitting on separators outside quotes, and reading the
    scheme and parameters of a `WWW-Authenticate` value (section 11.6.1 of RFC 9110, section 3 of RFC 6750). */
module AuthChallenge {
  import opened Text

  const QUOTE: char := '"'

  // ----- Splitting outside quotes -----------------------------------------------------------

  /** Whether the end of `s` is inside quotes: the number of quotes in it is odd. */
  predicate InQuote(s: string) {
    s != "" && (InQuote(s[..|s| - 1]) != (s[|s| - 1] == QUOTE))
  }

  /** What is read so far: finished fields and the one being read. */
  function Scanned(s: string, sep: char): (seq<string>, string) {
    if s == "" then ([], "")
    else
      var (fields, buf) := Scanned(s[..|s| - 1], sep);
      var c := s[|s| - 1];
      if c == sep && c != QUOTE && !InQuote(s[..|s| - 1]) then (fields + [buf], "") else (fields, buf + [c])
  }

  /** All fields, the last one, possibly empty, included. */
  function AllFields(s: string, sep: char): seq<string> {
    Scanned(s, sep).0 + [Scanned(s, sep).1]
  }

  /** The fields as returned: an empty last one is dropped. */
  function Fields(s: string, sep: char): seq<string> {
    var (fields, buf) := Scanned(s, sep);
    if buf == "" then fields else fields + [buf]
  }

  method SplitQuoted(s: string, sep: char) returns (out: seq<string>)
    ensures out == Fields(s, sep)
  {
    out := [];
    var buf := "";
    var inQuote := false;
    for i := 0 to |s|
      invariant (out, buf) == Scanned(s[..i], sep)
      invariant inQuote == InQuote(s[..i])
    {
      var c := s[i];
      assert s[..i + 1][..i] == s[..i];
      if c == QUOTE {
        inQuote := !inQuote;
        buf := buf + [c];
      } else if c == sep && !inQuote {
        out := out + [buf];
        buf := "";
      } else {
        buf := buf + [c];
      }
    }
    assert s[..|s|] == s;
    if |buf| > 0 {
      out := out + [buf];
    }
  }

  /** Splitting loses nothing: rejoining all fields gives the input. */
  lemma {:induction false} AllFieldsRejoin(s: string, sep: char)
    ensures Join(AllFields(s, sep), [sep]) == s
  {
    if s != "" {
      var init, c := s[..|s| - 1], s[|s| - 1];
      AllFieldsRejoin(init, sep);
      var (fields, buf) := Scanned(init, sep);
      assert s == init + [c];
      if c == sep && c != QUOTE && !InQuote(init) {
        JoinAppend(fields + [buf], "", [sep]);
      } else if fields == [] {
        assert AllFields(s, sep) == [buf + [c]] && AllFields(init, sep) == [buf];
      } else {
        JoinAppend(fields, buf, [sep]);
        JoinAppend(fields, buf + [c], [sep]);
      }
    }
  }

  /** So the returned fields rejoin to the input, or to the input without one final separator. */
  lemma FieldsRejoin(s: string, sep: char)
    ensures Join(Fields(s, sep), [sep]) == s
         || Join(Fields(s, sep), [sep]) + [sep] == s
  {
    AllFieldsRejoin(s, sep);
    var (fields, buf) := Scanned(s, sep);
    if buf == "" {
      if fields == [] {
        assert AllFields(s, sep) == [""];
      } else {
        JoinAppend(fields, "", [sep]);
      }
    }
  }

  /** Every separator inside the field follows an odd number of quotes of that field. */
  predicate Guarded(field: string, sep: char) {
    forall k | 0 <= k < |field| :: field[k] == sep ==> InQuote(field[..k])
  }

  /** A list of fields is a reading of a text: only the last one may end inside quotes. */
  predicate Reading(fields: seq<string>, sep: char) {
    && fields != []
    && (forall i | 0 <= i < |fields| :: Guarded(fields[i], sep))
    && (forall i | 0 <= i < |fields| - 1 :: !InQuote(fields[i]))
  }

  lemma {:induction false} InQuoteConcat(a: string, b: string)
    ensures InQuote(a + b) == (InQuote(a) != InQuote(b))
  {
    if b == "" {
      assert a + b == a;
    } else {
      assert (a + b)[..|a + b| - 1] == a + b[..|b| - 1];
      InQuoteConcat(a, b[..|b| - 1]);
    }
  }

  lemma {:induction false} NoQuotes(s: string)
    requires QUOTE !in s
    ensures !InQuote(s)
  {
    if s != "" {
      NoQuotes(s[..|s| - 1]);
    }
  }

  lemma GuardedOneMore(field: string, c: char, sep: char)
    requires Guarded(field, sep) && (c == sep ==> InQuote(field))
    ensures Guarded(field + [c], sep)
  {
    var longer := field + [c];
    assert longer[..|field|] == field;
    forall k | 0 <= k < |longer| && longer[k] == sep ensures InQuote(longer[..k]) {
      if k < |field| {
        assert longer[..k] == field[..k];
      }
    }
  }

  /** The fields are a reading of the input: separators in them are quoted, and no quote spans two of them. */
  lemma {:induction false} AllFieldsAreReading(s: string, sep: char)
    requires sep != QUOTE
    ensures Reading(AllFields(s, sep), sep)
    ensures InQuote(s) == InQuote(Scanned(s, sep).1)
  {
    if s != "" {
      var init, c := s[..|s| - 1], s[|s| - 1];
      AllFieldsAreReading(init, sep);
      var (fields, buf) := Scanned(init, sep);
      assert buf == AllFields(init, sep)[|fields|] && Guarded(buf, sep);
      if c == sep && !InQuote(init) {
        forall i | 0 <= i < |AllFields(s, sep)| - 1 ensures !InQuote(AllFields(s, sep)[i]) {
          if i < |fields| {
            assert AllFields(s, sep)[i] == AllFields(init, sep)[i];
          }
        }
        forall i | 0 <= i < |AllFields(s, sep)| ensures Guarded(AllFields(s, sep)[i], sep) {
          if i <= |fields| {
            assert AllFields(s, sep)[i] == AllFields(init, sep)[i];
          }
        }
      } else {
        GuardedOneMore(buf, c, sep);
        assert (buf + [c])[..|buf|] == buf;
        forall i | 0 <= i < |fields|
          ensures Guarded(AllFields(s, sep)[i], sep) && !InQuote(AllFields(s, sep)[i])
        {
          assert AllFields(s, sep)[i] == AllFields(init, sep)[i];
        }
      }
    }
  }

  /** Reading on through one guarded part only fills the field. */
  lemma {:induction false} ScanPart(s: string, part: string, sep: char)
    requires sep != QUOTE && Guarded(part, sep)
    requires Scanned(s, sep).1 == "" && !InQuote(s)
    ensures Scanned(s + part, sep) == (Scanned(s, sep).0, part)
    ensures InQuote(s + part) == InQuote(part)
  {
    if part == "" {
      assert s + part == s;
    } else {
      var init, c := part[..|part| - 1], part[|part| - 1];
      forall k | 0 <= k < |init| && init[k] == sep ensures InQuote(init[..k]) {
        assert init[..k] == part[..k] && part[k] == sep;
      }
      ScanPart(s, init, sep);
      InQuoteConcat(s, part);
      assert (s + part)[..|s + part| - 1] == s + init;
      assert part == init + [c];
    }
  }

  /** Splitting inverts joining, and a text has no other reading than the one computed. */
  lemma {:induction false} ReadingIsUnique(fields: seq<string>, sep: char)
    requires sep != QUOTE && Reading(fields, sep)
    ensures AllFields(Join(fields, [sep]), sep) == fields
    ensures InQuote(Join(fields, [sep])) == InQuote(fields[|fields| - 1])
  {
    var init, last := fields[..|fields| - 1], fields[|fields| - 1];
    assert fields == init + [last] && Guarded(last, sep);
    if init == [] {
      ScanPart("", last, sep);
      assert "" + last == last && Join(fields, [sep]) == last;
    } else {
      var before := Join(init, [sep]);
      JoinAppend(init, last, [sep]);
      ReadingIsUnique(init, sep);
      var s := before + [sep];
      assert s[..|before|] == before && !InQuote(init[|init| - 1]);
      assert Scanned(s, sep) == (init, "");
      ScanPart(s, last, sep);
    }
  }

  // ----- Challenges --------------------------------------------------------------------------

  predicate IsQuote(c: char) { c == QUOTE }

  predicate IsBlank(c: char) { c == ' ' || c == '\t' }

  /** strings.IndexAny for blanks: the first position, or -1. */
  function IndexBlank(s: string): (i: int)
    ensures -1 <= i < |s|
    ensures i >= 0 ==> IsBlank(s[i])
    ensures forall k | 0 <= k < (if i < 0 then |s| else i) :: !IsBlank(s[k])
  {
    if s == "" then -1
    else if IsBlank(s[0]) then 0
    else
      var j := IndexBlank(s[1..]);
      if j < 0 then -1 else j + 1
  }

  /** One `key=value` part; a part without an equals sign is passed over. */
  function ParamOf(part: string): Option<(string, string)> {
    var t := TrimSpace(part);
    var i := Index(t, '=');
    if i < 0 then None
    else Some((TrimSpace(t[..i]), TrimBoth(TrimSpace(t[i + 1..]), IsQuote)))
  }

  function ParamsOf(parts: seq<string>): map<string, string> {
    if parts == [] then map[]
    else
      var before := ParamsOf(parts[..|parts| - 1]);
      match ParamOf(parts[|parts| - 1])
      case None => before
      case Some((k, v)) => before[k := v]
  }

  function ChallengeOf(text: string): (string, map<string, string>) {
    var s := TrimSpace(text);
    var i := IndexBlank(s);
    if i > 0 then (s[..i], ParamsOf(Fields(TrimSpace(s[i + 1..]), ','))) else (s, map[])
  }

  lemma ParamSplit(part: string)
    ensures var kv := TrimSpace(part);
            var eq := Index(kv, '=');
            ParamOf(part) ==
            if eq < 0 then None else Some((TrimSpace(kv[..eq]), TrimBoth(TrimSpace(kv[eq + 1..]), IsQuote)))
  {}

  method ParseAuthChallenge(text: string) returns (scheme: string, params: map<string, string>)
    ensures (scheme, params) == ChallengeOf(text)
  {
    hide TrimSpace, IndexBlank, Fields, ParamOf;
    params := map[];
    var s := TrimSpace(text);
    var i := IndexBlank(s);
    if i > 0 {
      scheme := s[..i];
      s := TrimSpace(s[i + 1..]);
    } else {
      scheme := s;
      return;
    }
    var parts := SplitQuoted(s, ',');
    for n := 0 to |parts|
      invariant params == ParamsOf(parts[..n])
    {
      assert parts[..n + 1][..n] == parts[..n];
      var kv := TrimSpace(parts[n]);
      var eq := Index(kv, '=');
      ParamSplit(parts[n]);
      if eq < 0 {
        continue;
      }
      var k := TrimSpace(kv[..eq]);
      var v := TrimSpace(kv[eq + 1..]);
      v := TrimBoth(v, IsQuote);
      params := params[k := v];
    }
    assert parts[..|parts|] == parts;
  }

  // ----- Rendered challenges -------------------------------------------------------------------

  /** A parameter as a server may write it, with white space around each of its parts; its value is a quoted string or
      a bare token. */
  datatype Param = Param(
    front: string, key: string, beforeEq: string, afterEq: string, quoted: bool, value: string, back: string)
  {
    function Written(): string { if quoted then "\"" + value + "\"" else value }
    function Lead(): string { front + key + beforeEq + "=" + afterEq }
    function Core(): string { key + beforeEq + "=" + afterEq + Written() }
    function Show(): string { front + Core() + back }
  }

  predicate ValidKey(key: string) {
    key != "" && Tight(key, IsSpace) && '=' !in key && ',' !in key && QUOTE !in key
  }

  /** A bare value: more than a token may be, but no comma and no white space at its ends. */
  predicate ValidBare(value: string) { value != "" && Tight(value, IsSpace) && ',' !in value }

  /** Any quoted value without a double quote will do: commas, equals signs and spaces included. */
  predicate ValidParam(p: Param) {
    && Spaces(p.front) && Spaces(p.beforeEq) && Spaces(p.afterEq) && Spaces(p.back)
    && ValidKey(p.key) && QUOTE !in p.value && (p.quoted || ValidBare(p.value))
  }

  lemma WrittenReads(p: Param)
    requires ValidParam(p)
    ensures p.Written() != "" && Tight(p.Written(), IsSpace) && TrimBoth(p.Written(), IsQuote) == p.value
  {
    QuoteIsNoSpace();
    hide IsSpace, TrimLeft, TrimRight, TrimBoth;
    TightStays(p.value, IsQuote);
    if p.quoted {
      TrimBothOf("\"", p.value, "\"", IsQuote);
    }
  }

  function Shown(ps: seq<Param>): seq<string> {
    seq(|ps|, i requires 0 <= i < |ps| => ps[i].Show())
  }

  /** The parameters as a map: a repeated key takes its last value. */
  function Meant(ps: seq<Param>): map<string, string> {
    if ps == [] then map[] else Meant(ps[..|ps| - 1])[ps[|ps| - 1].key := ps[|ps| - 1].value]
  }

  lemma SpacesPlain(s: string)
    requires Spaces(s)
    ensures '=' !in s && ',' !in s && QUOTE !in s
  {}

  lemma QuoteIsNoSpace()
    ensures !IsSpace(QUOTE)
  {}

  lemma ShowParses(p: Param)
    requires ValidParam(p)
    ensures ParamOf(p.Show()) == Some((p.key, p.value))
  {
    hide IsSpace, TrimLeft, TrimRight, TrimBoth;
    SpacesPlain(p.beforeEq);
    WrittenReads(p);
    var written := p.Written();
    var left, right := p.key + p.beforeEq, p.afterEq + written;
    var core := p.Core();
    assert core == left + ['='] + right;
    assert core[0] == p.key[0] && core[|core| - 1] == written[|written| - 1];
    TrimBothOf(p.front, core, p.back, IsSpace);
    TightStays(core, IsSpace);
    IndexAfter(left, '=', right);
    assert core[..|left|] == left && core[|left| + 1..] == right;
    TrimBothOf("", p.key, p.beforeEq, IsSpace);
    TightStays(p.key, IsSpace);
    assert "" + p.key + p.beforeEq == left;
    TrimBothOf(p.afterEq, written, "", IsSpace);
    TightStays(written, IsSpace);
    assert p.afterEq + written + "" == right;
  }

  /** A text without quotes and commas, then a quoted text, then a text without either, is one field. */
  lemma QuotedIsGuarded(a: string, v: string, b: string)
    requires ',' !in a && QUOTE !in a && QUOTE !in v && ',' !in b && QUOTE !in b
    ensures var s := a + "\"" + v + "\"" + b; Guarded(s, ',') && !InQuote(s)
  {
    var open := a + "\"";
    var closed := open + v + "\"";
    var s := closed + b;
    assert s == a + "\"" + v + "\"" + b;
    assert InQuote("\"") by { assert "\""[..0] == ""; }
    NoQuotes(a);
    NoQuotes(v);
    NoQuotes(b);
    InQuoteConcat(a, "\"");
    InQuoteConcat(open, v);
    InQuoteConcat(open + v, "\"");
    InQuoteConcat(closed, b);
    assert forall k | 0 <= k < |a| :: s[k] == a[k];
    assert forall k | |closed| <= k < |s| :: s[k] == b[k - |closed|];
    forall k | 0 <= k < |s| && s[k] == ',' ensures InQuote(s[..k]) {
      assert |open| <= k < |open| + |v|;
      assert s[..k] == open + v[..k - |open|];
      NoQuotes(v[..k - |open|]);
      InQuoteConcat(open, v[..k - |open|]);
    }
  }

  lemma NotInConcat(a: string, b: string, c: char)
    requires c !in a && c !in b
    ensures c !in a + b
  {}

  /** What stands before the value: no comma and no double quote. */
  lemma LeadIsPlain(p: Param)
    requires ValidParam(p)
    ensures ',' !in p.Lead() && QUOTE !in p.Lead() && p.Show() == p.Lead() + p.Written() + p.back
  {
    SpacesPlain(p.front);
    SpacesPlain(p.beforeEq);
    SpacesPlain(p.afterEq);
    hide Spaces;
    assert p.key + p.beforeEq + "=" + p.afterEq + p.Written() == p.Core();
    forall c | c == ',' || c == QUOTE ensures c !in p.Lead() {
      NotInConcat(p.front, p.key, c);
      NotInConcat(p.front + p.key, p.beforeEq, c);
      NotInConcat(p.front + p.key + p.beforeEq, "=", c);
      NotInConcat(p.front + p.key + p.beforeEq + "=", p.afterEq, c);
    }
  }

  lemma ShowIsField(p: Param)
    requires ValidParam(p)
    ensures Guarded(p.Show(), ',') && !InQuote(p.Show())
  {
    SpacesPlain(p.back);
    LeadIsPlain(p);
    hide Guarded, InQuote, Spaces, ValidKey, p.Show, p.Lead;
    if p.quoted {
      QuotedIsGuarded(p.Lead(), p.value, p.back);
      assert p.Lead() + p.Written() + p.back == p.Lead() + "\"" + p.value + "\"" + p.back;
    } else {
      PlainIsGuarded(p.Lead(), p.value, p.back);
    }
  }

  lemma PlainIsGuarded(a: string, v: string, b: string)
    requires ',' !in a && QUOTE !in a && ',' !in v && QUOTE !in v && ',' !in b && QUOTE !in b
    ensures Guarded(a + v + b, ',') && !InQuote(a + v + b)
  {
    NoQuotes(a + v + b);
  }

  lemma {:induction false} ShownParse(ps: seq<Param>)
    requires forall i | 0 <= i < |ps| :: ValidParam(ps[i])
    ensures ParamsOf(Shown(ps)) == Meant(ps)
  {
    hide ParamOf, ValidParam;
    if ps != [] {
      ShownParse(ps[..|ps| - 1]);
      assert Shown(ps)[..|ps| - 1] == Shown(ps[..|ps| - 1]);
      ShowParses(ps[|ps| - 1]);
    }
  }

  lemma ShownSplit(ps: seq<Param>)
    requires ps != [] && forall i | 0 <= i < |ps| :: ValidParam(ps[i])
    ensures Fields(Join(Shown(ps), ","), ',') == Shown(ps)
  {
    var parts := Shown(ps);
    forall i | 0 <= i < |parts| ensures Guarded(parts[i], ',') && !InQuote(parts[i]) {
      ShowIsField(ps[i]);
    }
    ReadingIsUnique(parts, ',');
    assert AllFields(Join(parts, ","), ',') == parts;
    assert parts[|parts| - 1] != "";
  }

  /** A list of parameters starts with the first one's text and ends with the last one's. */
  lemma {:induction false} JoinEnds(parts: seq<string>, sep: string)
    requires parts != [] && parts[0] != "" && parts[|parts| - 1] != ""
    ensures var s := Join(parts, sep);
            s != "" && s[0] == parts[0][0] && s[|s| - 1] == parts[|parts| - 1][|parts[|parts| - 1]| - 1]
  {
    if |parts| > 1 {
      JoinAppend(parts[..|parts| - 1], parts[|parts| - 1], sep);
      assert parts == parts[..|parts| - 1] + [parts[|parts| - 1]];
      assert Join(parts, sep) == parts[0] + (sep + Join(parts[1..], sep));
    }
  }

  lemma BlankIsSpace(c: char)
    requires IsBlank(c)
    ensures IsSpace(c)
  {}

  /** The challenge, as written by a server: white space may stand before, between and after everything. */
  function Challenge(lead: string, scheme: string, blank: char, gap: string, ps: seq<Param>, trail: string): string {
    lead + scheme + [blank] + gap + Join(Shown(ps), ",") + trail
  }

  predicate ValidScheme(scheme: string) {
    scheme != "" && Tight(scheme, IsSpace) && ' ' !in scheme && '\t' !in scheme
  }

  lemma SchemeHasNoBlank(scheme: string)
    requires ValidScheme(scheme)
    ensures forall i | 0 <= i < |scheme| :: !IsBlank(scheme[i])
  {}

  lemma IndexBlankAfter(a: string, c: char, b: string)
    requires IsBlank(c) && forall i | 0 <= i < |a| :: !IsBlank(a[i])
    ensures IndexBlank(a + [c] + b) == |a|
  {
    var s := a + [c] + b;
    assert forall i | 0 <= i < |a| :: s[i] == a[i];
    assert s[|a|] == c;
  }

  /** Parsing inverts writing: for any scheme and parameters, the scheme and exactly the parameters come back. (The
      white space around the whole parameter list belongs to `gap` and `trail`.) */
  lemma ParseInvertsShow(lead: string, scheme: string, blank: char, gap: string, ps: seq<Param>, trail: string)
    requires Spaces(lead) && Spaces(gap) && Spaces(trail) && (blank == ' ' || blank == '\t') && ValidScheme(scheme)
    requires forall i | 0 <= i < |ps| :: ValidParam(ps[i])
    requires ps != [] ==> ps[0].front == "" && ps[|ps| - 1].back == ""
    ensures ChallengeOf(Challenge(lead, scheme, blank, gap, ps, trail)) == (scheme, Meant(ps))
  {
    assert IsBlank(blank);
    hide ChallengeOf, ParamsOf, Fields, ValidParam, Join, Shown, Meant, Tight, ValidScheme, IsSpace, IsBlank;
    if ps == [] {
      NoParams(lead, scheme, blank, gap, trail);
    } else {
      ListIsTight(ps);
      SchemeAndList(lead, scheme, blank, gap, Join(Shown(ps), ","), trail);
      ShownSplit(ps);
      ShownParse(ps);
    }
  }

  lemma NoParams(lead: string, scheme: string, blank: char, gap: string, trail: string)
    requires Spaces(lead) && Spaces(gap) && Spaces(trail) && IsBlank(blank) && ValidScheme(scheme)
    ensures ChallengeOf(Challenge(lead, scheme, blank, gap, [], trail)) == (scheme, map[])
    ensures Meant([]) == map[]
  {
    hide ChallengeOf, ValidScheme, IsSpace, IsBlank;
    BlankIsSpace(blank);
    var back := [blank] + gap + trail;
    SchemeAlone(lead, scheme, back);
    assert Join(Shown([]), ",") == "";
    assert Challenge(lead, scheme, blank, gap, [], trail) == lead + scheme + back;
  }

  lemma SchemeAlone(lead: string, scheme: string, trail: string)
    requires Spaces(lead) && Spaces(trail) && ValidScheme(scheme)
    ensures ChallengeOf(lead + scheme + trail) == (scheme, map[])
  {
    SchemeHasNoBlank(scheme);
    hide IsSpace, IsBlank, TrimLeft, TrimRight, TrimBoth;
    TrimBothOf(lead, scheme, trail, IsSpace);
    TightStays(scheme, IsSpace);
  }

  lemma SchemeAndList(lead: string, scheme: string, blank: char, gap: string, list: string, trail: string)
    requires Spaces(lead) && Spaces(gap) && Spaces(trail) && IsBlank(blank) && ValidScheme(scheme)
    requires list != "" && Tight(list, IsSpace)
    ensures ChallengeOf(lead + scheme + [blank] + gap + list + trail) == (scheme, ParamsOf(Fields(list, ',')))
  {
    SchemeHasNoBlank(scheme);
    hide IsSpace, IsBlank, Fields, ParamsOf, IndexBlank, TrimLeft, TrimRight, TrimBoth, Tight;
    var body := scheme + [blank] + (gap + list);
    assert lead + scheme + [blank] + gap + list + trail == lead + body + trail;
    TightTogether(scheme, [blank] + gap, list);
    assert body == scheme + ([blank] + gap) + list;
    TrimBothOf(lead, body, trail, IsSpace);
    TightStays(body, IsSpace);
    IndexBlankAfter(scheme, blank, gap + list);
    assert body[..|scheme|] == scheme && body[|scheme| + 1..] == gap + list;
    TrimBothOf(gap, list, "", IsSpace);
    TightStays(list, IsSpace);
    assert gap + list + "" == gap + list;
  }

  lemma TightTogether(a: string, mid: string, b: string)
    requires a != "" && b != "" && Tight(a, IsSpace) && Tight(b, IsSpace)
    ensures Tight(a + mid + b, IsSpace)
  {
    hide IsSpace;
    var s := a + mid + b;
    assert s[0] == a[0] && s[|s| - 1] == b[|b| - 1];
  }

  lemma ShowEnds(p: Param)
    requires ValidParam(p)
    ensures p.Show() != ""
    ensures p.front == "" ==> !IsSpace(p.Show()[0])
    ensures p.back == "" ==> !IsSpace(p.Show()[|p.Show()| - 1])
  {
    hide IsSpace, TrimLeft, TrimRight, TrimBoth;
    WrittenReads(p);
    var core, written := p.Core(), p.Written();
    assert core[0] == p.key[0] && core[|core| - 1] == written[|written| - 1];
  }

  lemma ListIsTight(ps: seq<Param>)
    requires ps != [] && forall i | 0 <= i < |ps| :: ValidParam(ps[i])
    requires ps[0].front == "" && ps[|ps| - 1].back == ""
    ensures var list := Join(Shown(ps), ","); list != "" && Tight(list, IsSpace)
  {
    hide IsSpace, Join, ValidParam;
    ShowEnds(ps[0]);
    ShowEnds(ps[|ps| - 1]);
    JoinEnds(Shown(ps), ",");
  }

  lemma {:induction false} KeyIsNew(ps: seq<Param>, k: string)
    requires forall j | 0 <= j < |ps| :: ps[j].key != k
    ensures k !in Meant(ps)
  {
    if ps != [] {
      KeyIsNew(ps[..|ps| - 1], k);
    }
  }

  /** With distinct keys every parameter is found under its key, and there are no others. */
  lemma {:induction false} MeantDistinct(ps: seq<Param>)
    requires forall j, k | 0 <= j < k < |ps| :: ps[j].key != ps[k].key
    ensures forall i | 0 <= i < |ps| :: ps[i].key in Meant(ps) && Meant(ps)[ps[i].key] == ps[i].value
    ensures |Meant(ps)| == |ps|
  {
    if ps != [] {
      var init, last := ps[..|ps| - 1], ps[|ps| - 1];
      MeantDistinct(init);
      KeyIsNew(init, last.key);
      var before := Meant(init);
      assert Meant(ps) == before[last.key := last.value];
      forall i | 0 <= i < |ps| ensures ps[i].key in Meant(ps) && Meant(ps)[ps[i].key] == ps[i].value {
        if i < |init| {
          assert ps[i] == init[i];
        }
      }
      assert Meant(ps).Keys == before.Keys + {last.key};
    }
  }

  /** An empty last field is dropped, and no other. */
  lemma EmptyLastDropped(s: string, sep: char)
    ensures var all := AllFields(s, sep);
            Fields(s, sep) == if all[|all| - 1] == "" then all[..|all| - 1] else all
  {}
}
