/** Lock files as they are written (internal/deps/parsers.go): the regular expression for `key = "value"`, how a line
    becomes a token, and the reading of a whole file as the inverse of writing it. */
module LockFileText {
  import opened LockFile
  import opened Manifest
  import opened Text

  // ----- The regular expression ^([A-Za-z0-9_-]+)\s*=\s*"([^"]+)" ------------------------------

  predicate IsKeyChar(c: char) {
    'A' <= c <= 'Z' || 'a' <= c <= 'z' || '0' <= c <= '9' || c == '_' || c == '-'
  }

  /** White space in a regular expression: ASCII only. */
  predicate IsGap(c: char) { c == ' ' || c == '\t' || c == '\n' || c == '\r' || c as int == 12 }

  /** How many characters at the start are of the class. */
  function Span(s: string, among: char -> bool): (n: nat)
    ensures n <= |s|
  {
    if s != "" && among(s[0]) then 1 + Span(s[1..], among) else 0
  }

  /** What stands behind a character, after white space. */
  function Past(s: string, c: char): Option<string> {
    var n := Span(s, IsGap);
    if n < |s| && s[n] == c then Some(s[n + 1..]) else None
  }

  /** The text up to the next double quote, if it is not empty. */
  function Quoted(s: string): Option<string> {
    var n := Index(s, '"');
    if n > 0 then Some(s[..n]) else None
  }

  /** The key and the value, if the expression matches at the start of the text. No two of its parts compete for a
      character, so the greedy match is the only one. */
  function MatchKeyValue(s: string): Option<(string, string)> {
    var n := Span(s, IsKeyChar);
    var afterEq := Past(s[n..], '=');
    var afterQuote := if afterEq.Some? then Past(afterEq.value, '"') else None;
    var value := if afterQuote.Some? then Quoted(afterQuote.value) else None;
    if n > 0 && value.Some? then Some((s[..n], value.value)) else None
  }

  lemma {:induction false} SpanOf(a: string, b: string, among: char -> bool)
    requires forall i | 0 <= i < |a| :: among(a[i])
    requires b != "" && !among(b[0])
    ensures Span(a + b, among) == |a|
  {
    if a == "" {
      assert a + b == b;
    } else {
      assert (a + b)[1..] == a[1..] + b;
      SpanOf(a[1..], b, among);
    }
  }

  // ----- Lines with a key ----------------------------------------------------------------------

  /** A line that gives a key a value: indented, with white space around the equals sign, and with anything behind the
      closing quote. */
  datatype KeyLine = KeyLine(indent: string, gap1: string, gap2: string, value: string, tail: string, back: string) {
    function Text(key: string): string { key + gap1 + "=" + gap2 + "\"" + value + "\"" + tail }
    function Raw(key: string): string { indent + Text(key) + back }
    predicate Valid() {
      && Spaces(indent) && Spaces(back) && Gaps(gap1) && Gaps(gap2)
      && value != "" && '"' !in value && (tail == "" || !IsSpace(tail[|tail| - 1]))
    }
  }

  predicate Gaps(s: string) { forall i | 0 <= i < |s| :: IsGap(s[i]) }

  predicate IsKey(key: string) { key != "" && forall i | 0 <= i < |key| :: IsKeyChar(key[i]) }

  lemma PastOf(gap: string, c: char, rest: string)
    requires Gaps(gap) && !IsGap(c)
    ensures Past(gap + [c] + rest, c) == Some(rest)
  {
    hide Span;
    var s := gap + [c] + rest;
    assert s == gap + ([c] + rest);
    SpanOf(gap, [c] + rest, IsGap);
    assert s[|gap| + 1..] == rest;
  }

  lemma QuotedOf(value: string, tail: string)
    requires value != "" && '"' !in value
    ensures Quoted(value + "\"" + tail) == Some(value)
  {
    IndexAfter(value, '"', tail);
    assert value + "\"" + tail == value + ['"'] + tail;
    assert (value + "\"" + tail)[..|value|] == value;
  }

  /** The expression matches a written line and captures its key and its value. */
  lemma KeyLineMatches(key: string, l: KeyLine)
    requires IsKey(key) && l.Valid()
    ensures MatchKeyValue(l.Text(key)) == Some((key, l.value))
  {
    hide Span, Past, Quoted, Gaps;
    var s := l.Text(key);
    var inner := l.value + "\"" + l.tail;
    var afterEq := l.gap2 + ['"'] + inner;
    var afterKey := l.gap1 + ['='] + afterEq;
    assert s == key + afterKey;
    FirstOfGap(l.gap1, '=', afterEq);
    SpanOf(key, afterKey, IsKeyChar);
    assert s[|key|..] == afterKey && s[..|key|] == key;
    PastOf(l.gap1, '=', afterEq);
    PastOf(l.gap2, '"', inner);
    QuotedOf(l.value, l.tail);
  }

  lemma FirstOfGap(gap: string, c: char, rest: string)
    requires Gaps(gap) && !IsKeyChar(c)
    ensures !IsKeyChar((gap + [c] + rest)[0])
  {
    assert (gap + [c] + rest)[0] == if gap == "" then c else gap[0];
  }

  /** A trimmed line that is neither empty nor a comment nor in brackets, and in which the matcher finds a key and a
      value, is that key with that value, with any indentation. */
  lemma KeyLinesAreRead(front: string, text: string, back: string, matchKV: Matcher, key: string, value: string)
    requires Spaces(front) && Spaces(back) && text != "" && Tight(text, IsSpace)
    requires text[0] != '#' && !(text[0] == '[' && text[|text| - 1] == ']')
    requires matchKV(text) == Some((key, value))
    ensures Classify(front + text + back, matchKV) == KeyValue(key, value, text)
  {
    hide IsSpace, TrimLeft, TrimRight, TrimBoth, Section;
    TrimBothOf(front, text, back, IsSpace);
    TightStays(text, IsSpace);
    PrefixChars(text, "#");
    PrefixChars(text, "[");
    PrefixChars(text, "[[");
  }

  /** A comment or an empty line says nothing, and no more does a line without brackets that the matcher refuses. */
  lemma OtherLinesAreRead(front: string, text: string, back: string, matchKV: Matcher)
    requires Spaces(front) && Spaces(back) && Tight(text, IsSpace)
    ensures text == "" || text[0] == '#' ==> Classify(front + text + back, matchKV) == Blank
    ensures text != "" && text[0] != '#' && text[0] != '[' && matchKV(text).None? ==>
              Classify(front + text + back, matchKV) == Other
  {
    hide IsSpace, TrimLeft, TrimRight, TrimBoth, Section;
    TrimBothOf(front, text, back, IsSpace);
    TightStays(text, IsSpace);
    PrefixChars(text, "#");
    PrefixChars(text, "[");
    PrefixChars(text, "[[");
  }

  /** A written line with a key is read as that key with that value. */
  lemma KeyLineIsRead(key: string, l: KeyLine)
    requires IsKey(key) && l.Valid()
    ensures Classify(l.Raw(key), MatchKeyValue) == KeyValue(key, l.value, l.Text(key))
  {
    var text := l.Text(key);
    assert text[0] == key[0];
    assert IsKeyChar(key[0]) && !IsSpace(key[0]);
    assert text[|text| - 1] == if l.tail == "" then '"' else l.tail[|l.tail| - 1];
    hide IsSpace, MatchKeyValue;
    KeyLineMatches(key, l);
    KeyLinesAreRead(l.indent, text, l.back, MatchKeyValue, key, l.value);
  }

  // ----- Files as they are written ------------------------------------------------------------------

  /** The line is not in brackets. */
  predicate Plain(raw: string) {
    var t := TrimSpace(raw);
    t == "" || t[0] != '[' || t[|t| - 1] != ']'
  }

  /** A line around the name and the version of a package: empty, a comment, or anything else that is not in brackets
      and gives neither of those two keys a value. */
  predicate Beside(raw: string) {
    var t := TrimSpace(raw);
    Plain(raw) && (t == "" || t[0] == '#' || MatchKeyValue(t).None? || MatchKeyValue(t).value.0 !in {"name", "version"})
  }

  predicate AllPlain(lines: seq<string>) { forall i | 0 <= i < |lines| :: Plain(lines[i]) }

  predicate AllBeside(lines: seq<string>) { forall i | 0 <= i < |lines| :: Beside(lines[i]) }

  /** A subsection of a package, like `[package.dependencies]`. */
  datatype Sub = Sub(name: string, lines: seq<string>) {
    function Lines(): seq<string> { ["[package." + name + "]"] + lines }
    predicate Valid() { SectionName("package." + name) && AllPlain(lines) }
  }

  /** A package, or any other table. */
  datatype Item =
    | Package(before: seq<string>, name: KeyLine, between: seq<string>, version: KeyLine, after: seq<string>,
              subs: seq<Sub>)
    | Single(section: string, rest: seq<string>)
    | Double(section: string, rest: seq<string>)
  {
    function Lines(): seq<string> {
      match this
      case Package(before, name, between, version, after, subs) =>
        ["[[package]]"] + before + [name.Raw("name")] + between + [version.Raw("version")] + after + SubText(subs)
      case Single(section, rest) => ["[" + section + "]"] + rest
      case Double(section, rest) => ["[[" + section + "]]"] + rest
    }

    predicate Valid() {
      match this
      case Package(before, name, between, version, after, subs) =>
        && AllBeside(before) && AllBeside(between) && AllBeside(after) && name.Valid() && version.Valid()
        && forall i | 0 <= i < |subs| :: subs[i].Valid()
      case Single(section, rest) => SectionName(section) && !HasPrefix(section, "package.") && AllPlain(rest)
      case Double(section, rest) => SectionName(section) && section != "package" && AllPlain(rest)
    }
  }

  function SubText(subs: seq<Sub>): seq<string> {
    if subs == [] then [] else SubText(subs[..|subs| - 1]) + subs[|subs| - 1].Lines()
  }

  function FileLines(items: seq<Item>): seq<string> {
    if items == [] then [] else FileLines(items[..|items| - 1]) + items[|items| - 1].Lines()
  }

  /** The packages of a file: lower-cased name, version, the line of the header, counted from one, and the name line. */
  function Packages(above: nat, items: seq<Item>, lower: string -> string): seq<ParsedDep> {
    if items == [] then []
    else
      var init, last := items[..|items| - 1], items[|items| - 1];
      Packages(above, init, lower) + PackageOf(above + |FileLines(init)| + 1, last, lower)
  }

  function PackageOf(line: nat, item: Item, lower: string -> string): seq<ParsedDep> {
    match item
    case Package(_, name, _, version, _, _) =>
      [ParsedDep(lower(name.value), version.value, line, name.Text("name"))]
    case _ => []
  }

  // ----- Reading inverts writing -----------------------------------------------------------------------

  lemma ClassifiedConcat(a: seq<string>, b: seq<string>, matchKV: Matcher)
    ensures Classified(a + b, matchKV) == Classified(a, matchKV) + Classified(b, matchKV)
  {
    hide Classify;
  }

  lemma PlainClosesNothing(raw: string)
    requires Plain(raw)
    ensures !IsHeader(Classify(raw, MatchKeyValue))
  {
    hide TrimSpace, MatchKeyValue, Section;
    var t := TrimSpace(raw);
    PrefixChars(t, "[");
    PrefixChars(t, "[[");
    if HasSuffix(t, "]") {
      assert t[|t| - 1] == ']';
    }
  }

  lemma BesideIsNoise(raw: string)
    requires Beside(raw)
    ensures IsNoise(Classify(raw, MatchKeyValue))
  {
    PlainClosesNothing(raw);
    hide TrimSpace, MatchKeyValue, Section;
    PrefixChars(TrimSpace(raw), "#");
  }

  lemma BesideAreNoise(lines: seq<string>)
    requires AllBeside(lines)
    ensures Noise(Classified(lines, MatchKeyValue))
  {
    hide Classify, Beside;
    forall i | 0 <= i < |lines| ensures IsNoise(Classified(lines, MatchKeyValue)[i]) {
      BesideIsNoise(lines[i]);
    }
  }

  lemma PlainCloseNothing(lines: seq<string>)
    requires AllPlain(lines)
    ensures forall i | 0 <= i < |lines| :: !IsHeader(Classified(lines, MatchKeyValue)[i])
  {
    hide Classify, Plain;
    forall i | 0 <= i < |lines| ensures !IsHeader(Classified(lines, MatchKeyValue)[i]) {
      PlainClosesNothing(lines[i]);
    }
  }

  lemma HeaderIs(section: string)
    requires SectionName(section)
    ensures Classify("[" + section + "]", MatchKeyValue) == Table(section)
    ensures Classify("[[" + section + "]]", MatchKeyValue) == ArrayTable(section)
  {
    hide Classify;
    HeadersAreRead("", section, "", MatchKeyValue);
    assert "" + "[" + section + "]" + "" == "[" + section + "]";
    assert "" + "[[" + section + "]]" + "" == "[[" + section + "]]";
  }

  lemma PackageHeaderIs()
    ensures Classify("[[package]]", MatchKeyValue) == ArrayTable("package")
  {
    hide Classify;
    HeaderIs("package");
    assert "[[" + "package" + "]]" == "[[package]]";
  }

  lemma PackageTextIsTable(name: string)
    ensures HasPrefix("package." + name, "package.") && "[package." + name + "]" == "[" + ("package." + name) + "]"
  {}

  /** Subsections start with a table of the package and close nothing. */
  lemma {:induction false} SubsAreOwn(subs: seq<Sub>)
    requires forall i | 0 <= i < |subs| :: subs[i].Valid()
    ensures var ts := Classified(SubText(subs), MatchKeyValue);
            && (ts != [] ==> ts[0].Table?)
            && forall i | 0 <= i < |ts| :: !Closes(ts[i])
  {
    hide Classify, HasPrefix;
    if subs != [] {
      var init, last := subs[..|subs| - 1], subs[|subs| - 1];
      SubsAreOwn(init);
      ClassifiedConcat(SubText(init), last.Lines(), MatchKeyValue);
      SubIsOwn(last);
    }
  }

  lemma SubIsOwn(sub: Sub)
    requires sub.Valid()
    ensures var ts := Classified(sub.Lines(), MatchKeyValue);
            |ts| > 0 && ts[0].Table? && forall i | 0 <= i < |ts| :: !Closes(ts[i])
  {
    hide Classify, HasPrefix, Plain, SectionName;
    PackageTextIsTable(sub.name);
    HeaderIs("package." + sub.name);
    PlainCloseNothing(sub.lines);
    assert Classified(sub.Lines(), MatchKeyValue)[1..] == Classified(sub.lines, MatchKeyValue);
  }

  /** The block that an item is read as. */
  function BlockOf(item: Item): Block {
    match item
    case Package(before, name, between, version, after, subs) =>
      Block.Package(OwnTokens(before, name, between, version, after), Classified(SubText(subs), MatchKeyValue))
    case Single(section, rest) => Unrelated(Table(section), Classified(rest, MatchKeyValue))
    case Double(section, rest) => Unrelated(ArrayTable(section), Classified(rest, MatchKeyValue))
  }

  function OwnTokens(before: seq<string>, name: KeyLine, between: seq<string>, version: KeyLine, after: seq<string>)
    : seq<Token>
  {
    Classified(before, MatchKeyValue) + [KeyValue("name", name.value, name.Text("name"))]
    + Classified(between, MatchKeyValue) + [KeyValue("version", version.value, version.Text("version"))]
    + Classified(after, MatchKeyValue)
  }

  lemma OneLine(raw: string)
    ensures Classified([raw], MatchKeyValue) == [Classify(raw, MatchKeyValue)]
  {
    hide Classify;
  }

  lemma ClassifiedParts(h: string, a: seq<string>, x: string, b: seq<string>, y: string, c: seq<string>, d: seq<string>)
    ensures Classified([h] + a + [x] + b + [y] + c + d, MatchKeyValue) ==
            [Classify(h, MatchKeyValue)]
            + (Classified(a, MatchKeyValue) + [Classify(x, MatchKeyValue)] + Classified(b, MatchKeyValue)
               + [Classify(y, MatchKeyValue)] + Classified(c, MatchKeyValue))
            + Classified(d, MatchKeyValue)
  {
    hide Classify, Classified;
    OneLine(h);
    OneLine(x);
    OneLine(y);
    ClassifiedConcat([h], a, MatchKeyValue);
    ClassifiedConcat([h] + a, [x], MatchKeyValue);
    ClassifiedConcat([h] + a + [x], b, MatchKeyValue);
    ClassifiedConcat([h] + a + [x] + b, [y], MatchKeyValue);
    ClassifiedConcat([h] + a + [x] + b + [y], c, MatchKeyValue);
    ClassifiedConcat([h] + a + [x] + b + [y] + c, d, MatchKeyValue);
  }

  lemma TheTwoKeys()
    ensures IsKey("name") && IsKey("version")
  {}

  lemma PackageTokens(item: Item)
    requires item.Package? && item.Valid()
    ensures Classified(item.Lines(), MatchKeyValue) == BlockOf(item).Tokens()
  {
    hide Classify, Classified, AllBeside, KeyLine.Valid, KeyLine.Raw, KeyLine.Text, SubText, IsKey, Sub.Valid;
    PackageHeaderIs();
    TheTwoKeys();
    KeyLineIsRead("name", item.name);
    KeyLineIsRead("version", item.version);
    ClassifiedParts("[[package]]", item.before, item.name.Raw("name"), item.between, item.version.Raw("version"),
                    item.after, SubText(item.subs));
  }

  lemma PackageIsBlock(item: Item)
    requires item.Package? && item.Valid()
    ensures Classified(item.Lines(), MatchKeyValue) == BlockOf(item).Tokens()
    ensures BlockOf(item).Valid()
  {
    hide Classified, OwnTokens, Closes, SubText, Item.Lines, Block.Tokens, AllBeside, KeyLine.Valid, Sub.Valid;
    PackageTokens(item);
    OwnAreNoHeaders(item);
    SubsAreOwn(item.subs);
  }

  lemma OwnAreNoHeaders(item: Item)
    requires item.Package? && item.Valid()
    ensures var own := OwnTokens(item.before, item.name, item.between, item.version, item.after);
            forall i | 0 <= i < |own| :: !IsHeader(own[i])
  {
    hide Classify, Classified, AllBeside, KeyLine.Valid;
    BesideAreNoise(item.before);
    BesideAreNoise(item.between);
    BesideAreNoise(item.after);
  }

  lemma TableIsBlock(item: Item)
    requires !item.Package? && item.Valid()
    ensures Classified(item.Lines(), MatchKeyValue) == BlockOf(item).Tokens()
    ensures BlockOf(item).Valid()
  {
    HeaderIs(item.section);
    PlainCloseNothing(item.rest);
    hide Classify, Classified, SectionName, AllPlain, HasPrefix;
    var header := if item.Single? then "[" + item.section + "]" else "[[" + item.section + "]]";
    OneLine(header);
    ClassifiedConcat([header], item.rest, MatchKeyValue);
  }

  function BlocksOf(items: seq<Item>): (blocks: seq<Block>)
    ensures |blocks| == |items|
  {
    seq(|items|, i requires 0 <= i < |items| => BlockOf(items[i]))
  }

  lemma {:induction false} ItemsAreBlocks(items: seq<Item>)
    requires forall i | 0 <= i < |items| :: items[i].Valid()
    ensures Classified(FileLines(items), MatchKeyValue) == AllTokens(BlocksOf(items))
    ensures |FileLines(items)| == |AllTokens(BlocksOf(items))|
    ensures forall i | 0 <= i < |items| :: BlocksOf(items)[i].Valid()
  {
    hide Classify, Classified, Item.Valid, Item.Lines, Block.Valid, Block.Tokens, BlockOf;
    if items == [] {
      NothingClassified();
    } else {
      var init, last := items[..|items| - 1], items[|items| - 1];
      ItemsAreBlocks(init);
      if last.Package? {
        PackageIsBlock(last);
      } else {
        TableIsBlock(last);
      }
      ClassifiedConcat(FileLines(init), last.Lines(), MatchKeyValue);
      assert BlocksOf(items)[..|items| - 1] == BlocksOf(init);
    }
  }

  lemma NothingClassified()
    ensures Classified([], MatchKeyValue) == []
  {}

  /** The meaning of one item, at the line of its header. */
  lemma ItemMeans(item: Item, line: nat, lower: string -> string)
    requires item.Valid() && (item.Package? ==> lower(item.name.value) != "")
    ensures DepsIn(BlockOf(item), line, lower) == PackageOf(line, item, lower)
  {
    if item.Package? {
      var text := item.name.Text("name");
      assert text[0] == 'n';
      BesideAreNoise(item.before);
      BesideAreNoise(item.between);
      BesideAreNoise(item.after);
      hide Classified, Noise, DepOf, KeyLine.Text, KeyLine.Valid, AllBeside;
      NoisyPackage(Classified(item.before, MatchKeyValue), item.name.value, text,
                   Classified(item.between, MatchKeyValue), item.version.value, item.version.Text("version"),
                   Classified(item.after, MatchKeyValue), line, lower);
    }
  }

  lemma PackagesOneMore(above: nat, items: seq<Item>, lower: string -> string)
    requires items != []
    ensures var init, last := items[..|items| - 1], items[|items| - 1];
            && FileLines(items) == FileLines(init) + last.Lines()
            && Packages(above, items, lower) ==
               Packages(above, init, lower) + PackageOf(above + |FileLines(init)| + 1, last, lower)
  {
    hide Item.Lines, KeyLine.Text;
  }

  lemma MeaningOneMore(items: seq<Item>, lower: string -> string)
    requires items != [] && forall i | 0 <= i < |items| :: items[i].Valid()
    ensures var init, last := items[..|items| - 1], items[|items| - 1];
            Meaning(BlocksOf(items), lower) ==
            Meaning(BlocksOf(init), lower) + DepsIn(BlockOf(last), |FileLines(init)| + 1, lower)
  {
    hide Item.Valid, BlockOf, DepsIn, FileLines, BlocksOf, Meaning, AllTokens;
    ItemsAreBlocks(items[..|items| - 1]);
    BlocksPrefix(items);
    OneMoreBlock(BlocksOf(items), lower);
  }

  lemma BlocksPrefix(items: seq<Item>)
    requires items != []
    ensures BlocksOf(items)[..|items| - 1] == BlocksOf(items[..|items| - 1])
    ensures BlocksOf(items)[|items| - 1] == BlockOf(items[|items| - 1])
  {
    hide BlockOf;
  }

  lemma PackageMoved(line: nat, above: nat, item: Item, lower: string -> string)
    ensures Shifted(PackageOf(line, item, lower), above) == PackageOf(above + line, item, lower)
  {}

  lemma NoItems(above: nat, lower: string -> string)
    ensures Shifted(Meaning(BlocksOf([]), lower), above) == Packages(above, [], lower)
  {}

  lemma {:induction false} ItemsMean(above: nat, items: seq<Item>, lower: string -> string)
    requires forall i | 0 <= i < |items| :: items[i].Valid()
    requires forall i | 0 <= i < |items| && items[i].Package? :: lower(items[i].name.value) != ""
    ensures Shifted(Meaning(BlocksOf(items), lower), above) == Packages(above, items, lower)
  {
    hide Item.Valid, Item.Lines, BlockOf, DepsIn, FileLines, Packages, PackageOf, Meaning, Shifted, BlocksOf;
    if items == [] {
      NoItems(above, lower);
    } else {
      var init, last := items[..|items| - 1], items[|items| - 1];
      ItemsMean(above, init, lower);
      MeaningOneMore(items, lower);
      PackagesOneMore(above, items, lower);
      var line := |FileLines(init)| + 1;
      ItemMeans(last, line, lower);
      ShiftedConcat(Meaning(BlocksOf(init), lower), DepsIn(BlockOf(last), line, lower), above);
      PackageMoved(line, above, last, lower);
    }
  }

  /** Reading inverts writing: of a file of packages and other tables, whatever lines, comments, keys and subsections
      stand around, exactly the packages come back, in order, each with its lower-cased name and its version, at the
      line of its header. */
  lemma WrittenFileIsRead(pre: seq<string>, items: seq<Item>, lower: string -> string)
    requires AllPlain(pre) && forall i | 0 <= i < |items| :: items[i].Valid()
    requires forall i | 0 <= i < |items| && items[i].Package? :: lower(items[i].name.value) != ""
    ensures Parsed(Classified(pre + FileLines(items), MatchKeyValue), lower) == Packages(|pre|, items, lower)
  {
    hide Classified, Item.Valid, Item.Lines, Parsed, Packages, Meaning, Shifted, AllTokens, Block.Valid, FileLines;
    ClassifiedConcat(pre, FileLines(items), MatchKeyValue);
    PlainCloseNothing(pre);
    ItemsAreBlocks(items);
    ItemsMean(|pre|, items, lower);
    assert |Classified(pre, MatchKeyValue)| == |pre|;
    ParsedIsMeaning(Classified(pre, MatchKeyValue), BlocksOf(items), lower);
  }

  /** The line of every package is a header line. */
  lemma {:induction false} LinesAreHeaders(pre: seq<string>, items: seq<Item>, lower: string -> string)
    ensures forall d | d in Packages(|pre|, items, lower) :: AtHeader(d.line, pre + FileLines(items))
  {
    if items != [] {
      hide Item.Lines, FileLines, Packages, KeyLine.Text;
      var init, last := items[..|items| - 1], items[|items| - 1];
      LinesAreHeaders(pre, init, lower);
      PackagesOneMore(|pre|, items, lower);
      assert pre + FileLines(items) == (pre + FileLines(init)) + last.Lines();
      if last.Package? {
        HeaderFirst(last);
      }
    } else {
      assert Packages(|pre|, items, lower) == [];
    }
  }

  predicate AtHeader(line: nat, lines: seq<string>) {
    1 <= line <= |lines| && lines[line - 1] == "[[package]]"
  }

  lemma HeaderFirst(item: Item)
    requires item.Package?
    ensures item.Lines() != [] && item.Lines()[0] == "[[package]]"
  {}
}
