/** Lock files made of `[[package]]` blocks (internal/deps/parsers.go): the line-by-line machine, and the reading of
    a file as blocks that it implements. The regular expression for `key = "value"` and the case folding are
    parameters. */
module LockFile {
  import opened Manifest
  import opened Text

  // ----- Lines ----------------------------------------------------------------------------

  datatype Token =
    | Blank
    | ArrayTable(section: string)
    | Table(section: string)
    | KeyValue(key: string, value: string, text: string)
    | Other

  type Matcher = string -> Option<(string, string)>

  function Classify(raw: string, matchKV: Matcher): Token {
    var trimmed := TrimSpace(raw);
    if trimmed == "" || HasPrefix(trimmed, "#") then Blank
    else if HasPrefix(trimmed, "[[") && HasSuffix(trimmed, "]]") then ArrayTable(Section(trimmed))
    else if HasPrefix(trimmed, "[") && HasSuffix(trimmed, "]") then Table(Section(trimmed))
    else
      match matchKV(trimmed)
      case None => Other
      case Some((k, v)) => KeyValue(k, v, trimmed)
  }

  function Classified(lines: seq<string>, matchKV: Matcher): (ts: seq<Token>)
    ensures |ts| == |lines|
  {
    seq(|lines|, i requires 0 <= i < |lines| => Classify(lines[i], matchKV))
  }

  // ----- The machine ------------------------------------------------------------------------

  datatype State = State(out: seq<ParsedDep>, cur: ParsedDep, start: nat, inPackage: bool, inSub: bool)

  const NO_DEP := ParsedDep("", "", 0, "")
  const START := State([], NO_DEP, 0, false, false)

  function Finished(cur: ParsedDep, start: nat): ParsedDep {
    cur.(line := start, snippet := if cur.snippet == "" then cur.name + " " + cur.version else cur.snippet)
  }

  function Flush(st: State): State {
    st.(out := if st.cur.name != "" then st.out + [Finished(st.cur, st.start)] else st.out, cur := NO_DEP, start := 0)
  }

  function Step(st: State, t: Token, lineNum: nat, lower: string -> string): State {
    match t
    case Blank => st
    case Other => st
    case ArrayTable(s) =>
      if s == "package" then Flush(st).(inPackage := true, inSub := false, start := lineNum)
      else Flush(st).(inPackage := false, inSub := false)
    case Table(s) =>
      if st.inPackage && HasPrefix(s, "package.") then st.(inSub := true)
      else Flush(st).(inPackage := false, inSub := false)
    case KeyValue(k, v, text) =>
      if !st.inPackage || st.inSub then st
      else if k == "name" then st.(cur := st.cur.(name := lower(v), snippet := text))
      else if k == "version" then st.(cur := st.cur.(version := v))
      else st
  }

  function After(ts: seq<Token>, lower: string -> string): State {
    if ts == [] then START else Step(After(ts[..|ts| - 1], lower), ts[|ts| - 1], |ts|, lower)
  }

  function Parsed(ts: seq<Token>, lower: string -> string): seq<ParsedDep> {
    Flush(After(ts, lower)).out
  }

  method ParsePackageArrayTOML(lines: seq<string>, matchKV: Matcher, lower: string -> string)
    returns (out: seq<ParsedDep>)
    ensures out == Parsed(Classified(lines, matchKV), lower)
  {
    ghost var ts := Classified(lines, matchKV);
    hide TrimSpace, Section, HasPrefix, HasSuffix, After;
    NothingRead(lower);
    assert ts[..0] == [];
    out := [];
    var cur := NO_DEP;
    var curStartLine: nat := 0;
    var inPackage, inPackageSubsection := false, false;
    for i := 0 to |lines|
      invariant State(out, cur, curStartLine, inPackage, inPackageSubsection) == After(ts[..i], lower)
    {
      AfterOneMore(ts, i, lower);
      var lineNum := i + 1;
      var trimmed := TrimSpace(lines[i]);
      if trimmed == "" || HasPrefix(trimmed, "#") {
        continue;
      }
      if HasPrefix(trimmed, "[[") && HasSuffix(trimmed, "]]") {
        var section := Section(trimmed);
        out, cur, curStartLine := FlushPackage(out, cur, curStartLine);
        if section == "package" {
          inPackage := true;
          inPackageSubsection := false;
          curStartLine := lineNum;
        } else {
          inPackage := false;
          inPackageSubsection := false;
        }
        continue;
      }
      if HasPrefix(trimmed, "[") && HasSuffix(trimmed, "]") {
        var section := Section(trimmed);
        if inPackage && HasPrefix(section, "package.") {
          inPackageSubsection := true;
          continue;
        }
        out, cur, curStartLine := FlushPackage(out, cur, curStartLine);
        inPackage := false;
        inPackageSubsection := false;
        continue;
      }
      if !inPackage || inPackageSubsection {
        continue;
      }
      var m := matchKV(trimmed);
      if m.None? {
        continue;
      }
      if m.value.0 == "name" {
        cur := cur.(name := lower(m.value.1), snippet := trimmed);
      } else if m.value.0 == "version" {
        cur := cur.(version := m.value.1);
      }
    }
    assert ts[..|ts|] == ts;
    out, cur, curStartLine := FlushPackage(out, cur, curStartLine);
  }

  method FlushPackage(out: seq<ParsedDep>, cur: ParsedDep, curStartLine: nat)
    returns (out': seq<ParsedDep>, cur': ParsedDep, curStartLine': nat)
    ensures out' == (if cur.name != "" then out + [Finished(cur, curStartLine)] else out)
    ensures cur' == NO_DEP && curStartLine' == 0
  {
    out' := out;
    if cur.name != "" {
      var dep := cur.(line := curStartLine);
      if dep.snippet == "" {
        dep := dep.(snippet := dep.name + " " + dep.version);
      }
      out' := out + [dep];
    }
    cur', curStartLine' := NO_DEP, 0;
  }

  lemma NothingRead(lower: string -> string)
    ensures After([], lower) == START
  {}

  lemma AfterOneMore(ts: seq<Token>, i: nat, lower: string -> string)
    requires i < |ts|
    ensures After(ts[..i + 1], lower) == Step(After(ts[..i], lower), ts[i], i + 1, lower)
  {
    assert ts[..i + 1][..i] == ts[..i];
  }

  lemma AfterSplit(ts: seq<Token>, t: Token, lower: string -> string)
    ensures After(ts + [t], lower) == Step(After(ts, lower), t, |ts| + 1, lower)
  {
    assert (ts + [t])[..|ts|] == ts;
  }

  // ----- Files as blocks --------------------------------------------------------------------

  /** A header that ends the package block before it. A `[package.*]` table does not: it is a part of the block. */
  predicate Closes(t: Token) {
    t.ArrayTable? || (t.Table? && !HasPrefix(t.section, "package."))
  }

  predicate IsHeader(t: Token) { t.ArrayTable? || t.Table? }

  /** A package with its own lines and its subsections, or any other table with everything up to the next header that
      could start a block. */
  datatype Block =
    | Package(own: seq<Token>, subs: seq<Token>)
    | Unrelated(header: Token, rest: seq<Token>)
  {
    predicate Valid() {
      match this
      case Package(own, subs) =>
        && (forall i | 0 <= i < |own| :: !IsHeader(own[i]))
        && (subs != [] ==> subs[0].Table?)
        && (forall i | 0 <= i < |subs| :: !Closes(subs[i]))
      case Unrelated(header, rest) =>
        Closes(header) && header != ArrayTable("package") && forall i | 0 <= i < |rest| :: !Closes(rest[i])
    }

    function Tokens(): (ts: seq<Token>)
      ensures ts != []
    {
      match this
      case Package(own, subs) => [ArrayTable("package")] + own + subs
      case Unrelated(header, rest) => [header] + rest
    }
  }

  function AllTokens(blocks: seq<Block>): seq<Token> {
    if blocks == [] then [] else AllTokens(blocks[..|blocks| - 1]) + blocks[|blocks| - 1].Tokens()
  }

  /** The value and the text of the last line with a key. */
  function LastValue(own: seq<Token>, key: string): Option<(string, string)> {
    if own == [] then None
    else
      var t := own[|own| - 1];
      if t.KeyValue? && t.key == key then Some((t.value, t.text)) else LastValue(own[..|own| - 1], key)
  }

  /** The dependency a package's own lines describe; its subsections do not matter. */
  function DepOf(own: seq<Token>, line: nat, lower: string -> string): seq<ParsedDep> {
    var version := match LastValue(own, "version") case None => "" case Some((v, _)) => v;
    match LastValue(own, "name")
    case None => []
    case Some((v, text)) =>
      if lower(v) == "" then [] else [Finished(ParsedDep(lower(v), version, 0, text), line)]
  }

  /** The dependencies of a list of blocks, each at the line of its header. */
  function Meaning(blocks: seq<Block>, lower: string -> string): seq<ParsedDep> {
    if blocks == [] then []
    else
      var before, last := blocks[..|blocks| - 1], blocks[|blocks| - 1];
      Meaning(before, lower) + DepsIn(last, |AllTokens(before)| + 1, lower)
  }

  function DepsIn(b: Block, line: nat, lower: string -> string): seq<ParsedDep> {
    if b.Package? then DepOf(b.own, line, lower) else []
  }

  /** The same dependencies, further down in a file. */
  function Shifted(deps: seq<ParsedDep>, offset: nat): (r: seq<ParsedDep>)
    ensures |r| == |deps|
  {
    seq(|deps|, i requires 0 <= i < |deps| => deps[i].(line := deps[i].line + offset))
  }

  // ----- Concatenation at headers -----------------------------------------------------------

  /** A package is under way only after its header, and nothing is under way otherwise. */
  lemma {:induction false} StateSound(ts: seq<Token>, lower: string -> string)
    ensures var st := After(ts, lower);
            (st.inPackage ==> st.start > 0) && (!st.inPackage ==> st.cur == NO_DEP && st.start == 0)
  {
    if ts != [] {
      StateSound(ts[..|ts| - 1], lower);
    }
  }

  /** The state of a machine that started `offset` lines earlier, with `before` already found. */
  function Moved(st: State, before: seq<ParsedDep>, offset: nat): State {
    st.(out := before + Shifted(st.out, offset), start := if st.start == 0 then 0 else st.start + offset)
  }

  lemma ShiftedAppend(deps: seq<ParsedDep>, d: ParsedDep, offset: nat)
    ensures Shifted(deps + [d], offset) == Shifted(deps, offset) + [d.(line := d.line + offset)]
  {}

  lemma StepMoved(st: State, t: Token, lineNum: nat, before: seq<ParsedDep>, offset: nat, lower: string -> string)
    requires lineNum > 0
    requires (st.inPackage ==> st.start > 0) && (!st.inPackage ==> st.cur == NO_DEP && st.start == 0)
    ensures Step(Moved(st, before, offset), t, lineNum + offset, lower) ==
            Moved(Step(st, t, lineNum, lower), before, offset)
  {
    hide HasPrefix, Shifted;
    FlushMoved(st, before, offset);
  }

  lemma FlushMoved(st: State, before: seq<ParsedDep>, offset: nat)
    requires st.cur.name != "" ==> st.start > 0
    ensures Flush(Moved(st, before, offset)) == Moved(Flush(st), before, offset)
  {
    ShiftedAppend(st.out, Finished(st.cur, st.start), offset);
  }

  lemma {:induction false} AfterMoved(a: seq<Token>, b: seq<Token>, lower: string -> string)
    requires b != [] && Closes(b[0])
    ensures After(a + b, lower) == Moved(After(b, lower), Parsed(a, lower), |a|)
  {
    hide HasPrefix;
    var init, last := b[..|b| - 1], b[|b| - 1];
    assert (a + b)[..|a + b| - 1] == a + init;
    if init == [] {
      assert a + init == a;
      assert After(b, lower) == Step(START, last, 1, lower);
      StateSound(a, lower);
    } else {
      AfterMoved(a, init, lower);
      StateSound(init, lower);
      StepMoved(After(init, lower), last, |b|, Parsed(a, lower), |a|, lower);
    }
  }

  /** Parsing distributes over concatenation at a header that closes blocks: the second part is parsed as if it were a
      file of its own, with its line numbers moved. */
  lemma ParsedConcat(a: seq<Token>, b: seq<Token>, lower: string -> string)
    requires b == [] || Closes(b[0])
    ensures Parsed(a + b, lower) == Parsed(a, lower) + Shifted(Parsed(b, lower), |a|)
  {
    hide Step, HasPrefix;
    if b == [] {
      assert a + b == a;
    } else {
      AfterMoved(a, b, lower);
      StateSound(b, lower);
      FlushMoved(After(b, lower), Parsed(a, lower), |a|);
    }
  }

  // ----- Single blocks ------------------------------------------------------------------------

  /** Outside packages nothing happens until the next header that closes blocks. */
  lemma {:induction false} NothingOutside(ts: seq<Token>, rest: seq<Token>, lower: string -> string)
    requires After(ts, lower) == START && forall i | 0 <= i < |rest| :: !Closes(rest[i])
    ensures After(ts + rest, lower) == START
  {
    hide HasPrefix;
    if rest == [] {
      assert ts + rest == ts;
    } else {
      var init, last := rest[..|rest| - 1], rest[|rest| - 1];
      NothingOutside(ts, init, lower);
      assert ts + rest == (ts + init) + [last];
      AfterSplit(ts + init, last, lower);
    }
  }

  function OwnState(own: seq<Token>, lower: string -> string): ParsedDep {
    var version := match LastValue(own, "version") case None => "" case Some((v, _)) => v;
    match LastValue(own, "name")
    case None => ParsedDep("", version, 0, "")
    case Some((v, text)) => ParsedDep(lower(v), version, 0, text)
  }

  lemma {:induction false} OwnLines(own: seq<Token>, lower: string -> string)
    requires forall i | 0 <= i < |own| :: !IsHeader(own[i])
    ensures After([ArrayTable("package")] + own, lower) == State([], OwnState(own, lower), 1, true, false)
  {
    var head := [ArrayTable("package")];
    assert After(head, lower) == Step(START, head[0], 1, lower);
    hide HasPrefix, After;
    if own == [] {
      assert head + own == head;
    } else {
      var init, last := own[..|own| - 1], own[|own| - 1];
      OwnLines(init, lower);
      assert head + own == (head + init) + [last];
      AfterSplit(head + init, last, lower);
    }
  }

  /** In the subsections of a package nothing is taken up, whatever their keys are. */
  lemma {:induction false} SubLines(ts: seq<Token>, subs: seq<Token>, lower: string -> string)
    requires After(ts, lower).inPackage
    requires subs != [] && subs[0].Table? && forall i | 0 <= i < |subs| :: !Closes(subs[i])
    ensures After(ts + subs, lower) == After(ts, lower).(inSub := true)
  {
    hide HasPrefix, After;
    var init, last := subs[..|subs| - 1], subs[|subs| - 1];
    assert ts + subs == (ts + init) + [last];
    AfterSplit(ts + init, last, lower);
    if init == [] {
      assert ts + init == ts;
      assert !Closes(last);
    } else {
      SubLines(ts, init, lower);
    }
  }

  lemma BlockParsed(b: Block, lower: string -> string)
    requires b.Valid()
    ensures Parsed(b.Tokens(), lower) == DepsIn(b, 1, lower)
  {
    hide HasPrefix, After;
    NothingRead(lower);
    match b
    case Package(own, subs) =>
      OwnLines(own, lower);
      var head := [ArrayTable("package")] + own;
      if subs != [] {
        SubLines(head, subs, lower);
      } else {
        assert head + subs == head;
      }
    case Unrelated(header, rest) =>
      AfterSplit([], header, lower);
      assert [] + [header] == [header];
      NothingOutside([header], rest, lower);
  }

  // ----- Whole files ----------------------------------------------------------------------------

  /** The machine computes the meaning of the file: exactly the packages, in order, each with its header's line, the
      lower-cased name and the version of its own lines, whatever comments, other keys, subsections and unrelated
      tables stand in between. */
  lemma {:induction false} ParsedIsMeaning(pre: seq<Token>, blocks: seq<Block>, lower: string -> string)
    requires forall i | 0 <= i < |pre| :: !Closes(pre[i])
    requires forall i | 0 <= i < |blocks| :: blocks[i].Valid()
    ensures Parsed(pre + AllTokens(blocks), lower) == Shifted(Meaning(blocks, lower), |pre|)
  {
    hide HasPrefix, Parsed, Block.Tokens, Block.Valid, DepsIn, Shifted, Closes, AllTokens, Meaning;
    NoBlocks(lower);
    if blocks == [] {
      assert pre + [] == pre && [] + pre == pre;
      NothingOutside([], pre, lower);
      ParsedOfStart(pre, lower);
      assert Shifted([], |pre|) == [];
    } else {
      var before, last := blocks[..|blocks| - 1], blocks[|blocks| - 1];
      var a, b := pre + AllTokens(before), last.Tokens();
      var deps := DepsIn(last, |AllTokens(before)| + 1, lower);
      ParsedIsMeaning(pre, before, lower);
      OneMoreBlock(blocks, lower);
      assert pre + (AllTokens(before) + b) == a + b;
      FirstCloses(last);
      ParsedConcat(a, b, lower);
      BlockParsed(last, lower);
      ShiftedConcat(Meaning(before, lower), deps, |pre|);
      DepMoved(last, |AllTokens(before)|, |pre|, lower);
    }
  }

  lemma ParsedOfStart(ts: seq<Token>, lower: string -> string)
    requires After(ts, lower) == START
    ensures Parsed(ts, lower) == []
  {}

  lemma NoBlocks(lower: string -> string)
    ensures AllTokens([]) == [] && Meaning([], lower) == []
  {}

  lemma OneMoreBlock(blocks: seq<Block>, lower: string -> string)
    requires blocks != []
    ensures var before, last := blocks[..|blocks| - 1], blocks[|blocks| - 1];
            && AllTokens(blocks) == AllTokens(before) + last.Tokens()
            && Meaning(blocks, lower) == Meaning(before, lower) + DepsIn(last, |AllTokens(before)| + 1, lower)
  {}

  lemma FirstCloses(b: Block)
    requires b.Valid()
    ensures Closes(b.Tokens()[0])
  {}

  lemma ShiftedConcat(a: seq<ParsedDep>, b: seq<ParsedDep>, offset: nat)
    ensures Shifted(a + b, offset) == Shifted(a, offset) + Shifted(b, offset)
  {}

  lemma DepMoved(b: Block, n: nat, offset: nat, lower: string -> string)
    ensures Shifted(DepsIn(b, 1, lower), offset + n) == Shifted(DepsIn(b, n + 1, lower), offset)
  {
    hide LastValue;
  }

  /** Every file is such a list of blocks after some lines that belong to none, so the statement above is about every
      file. */
  lemma {:induction false} EveryFileIsBlocks(ts: seq<Token>) returns (pre: seq<Token>, blocks: seq<Block>)
    ensures ts == pre + AllTokens(blocks)
    ensures forall i | 0 <= i < |pre| :: !Closes(pre[i])
    ensures forall i | 0 <= i < |blocks| :: blocks[i].Valid()
  {
    hide Closes, Block.Valid, Block.Tokens;
    if ts == [] {
      pre, blocks := [], [];
    } else {
      var init, t := ts[..|ts| - 1], ts[|ts| - 1];
      var p, bs := EveryFileIsBlocks(init);
      assert ts == init + [t];
      if Closes(t) {
        var b := Opened(t);
        pre, blocks := p, bs + [b];
        assert blocks[..|bs|] == bs;
      } else if bs == [] {
        pre, blocks := p + [t], [];
      } else {
        var longer := LastLonger(bs, t);
        pre, blocks := p, longer;
      }
    }
  }

  lemma LastLonger(bs: seq<Block>, t: Token) returns (blocks: seq<Block>)
    requires bs != [] && !Closes(t) && forall i | 0 <= i < |bs| :: bs[i].Valid()
    ensures AllTokens(blocks) == AllTokens(bs) + [t]
    ensures forall i | 0 <= i < |blocks| :: blocks[i].Valid()
  {
    hide Closes, Block.Valid, Block.Tokens;
    var longer := Longer(bs[|bs| - 1], t);
    blocks := bs[..|bs| - 1] + [longer];
    assert blocks[..|bs| - 1] == bs[..|bs| - 1];
  }

  lemma Opened(t: Token) returns (b: Block)
    requires Closes(t)
    ensures b.Valid() && b.Tokens() == [t]
  {
    hide HasPrefix;
    b := if t == ArrayTable("package") then Package([], []) else Unrelated(t, []);
  }

  /** A line that closes nothing belongs to the block before it. */
  lemma Longer(b: Block, t: Token) returns (longer: Block)
    requires b.Valid() && !Closes(t)
    ensures longer.Valid() && longer.Tokens() == b.Tokens() + [t]
  {
    hide HasPrefix;
    match b
    case Package(own, subs) =>
      if subs == [] && !t.Table? {
        longer := Package(own + [t], []);
        assert [ArrayTable("package")] + (own + [t]) + [] == [ArrayTable("package")] + own + [] + [t];
      } else {
        longer := Package(own, subs + [t]);
        assert [ArrayTable("package")] + own + (subs + [t]) == [ArrayTable("package")] + own + subs + [t];
      }
    case Unrelated(header, rest) =>
      longer := Unrelated(header, rest + [t]);
      assert [header] + (rest + [t]) == [header] + rest + [t];
  }

  // ----- Lines as they are written ----------------------------------------------------------------

  predicate IsNoise(t: Token) {
    !IsHeader(t) && (t.KeyValue? ==> t.key != "name" && t.key != "version")
  }

  predicate Noise(ts: seq<Token>) { forall i | 0 <= i < |ts| :: IsNoise(ts[i]) }

  lemma {:induction false} LastValueOver(own: seq<Token>, noise: seq<Token>, key: string)
    requires Noise(noise) && (key == "name" || key == "version")
    ensures LastValue(own + noise, key) == LastValue(own, key)
  {
    if noise == [] {
      assert own + noise == own;
    } else {
      var init := noise[..|noise| - 1];
      assert (own + noise)[..|own + noise| - 1] == own + init;
      assert IsNoise(noise[|noise| - 1]);
      LastValueOver(own, init, key);
    }
  }

  lemma LastValueHere(own: seq<Token>, t: Token, key: string)
    requires t.KeyValue?
    ensures LastValue(own + [t], key) == if t.key == key then Some((t.value, t.text)) else LastValue(own, key)
  {
    assert (own + [t])[..|own|] == own;
  }

  /** A package written as a name line and a version line with anything else around them gives that dependency. */
  lemma NoisyPackage(n1: seq<Token>, name: string, text: string, n2: seq<Token>, version: string, vtext: string,
                     n3: seq<Token>, line: nat, lower: string -> string)
    requires Noise(n1) && Noise(n2) && Noise(n3) && lower(name) != "" && text != ""
    ensures var own := n1 + [KeyValue("name", name, text)] + n2 + [KeyValue("version", version, vtext)] + n3;
            DepOf(own, line, lower) == [ParsedDep(lower(name), version, line, text)]
  {
    var nameLine, versionLine := KeyValue("name", name, text), KeyValue("version", version, vtext);
    var a := n1 + [nameLine];
    var b := a + n2;
    var c := b + [versionLine];
    hide LastValue, Noise;
    LastValueHere(n1, nameLine, "name");
    LastValueOver(a, n2, "name");
    LastValueHere(b, versionLine, "name");
    LastValueOver(c, n3, "name");
    LastValueHere(b, versionLine, "version");
    LastValueOver(c, n3, "version");
  }

  predicate SectionName(s: string) {
    s != "" && Tight(s, IsSpace) && Tight(s, IsBracket)
  }

  lemma Bracketed(open: string, s: string, close: string)
    requires SectionName(s)
    requires open == "[" || open == "[["
    requires close == (if open == "[" then "]" else "]]")
    ensures Section(open + s + close) == s && TrimSpace(open + s + close) == open + s + close
  {
    hide TrimLeft, TrimRight;
    var t := open + s + close;
    TrimBothOf(open, s, close, IsBracket);
    TightStays(s, IsBracket);
    TightStays(s, IsSpace);
    assert t[0] == '[' && t[|t| - 1] == ']';
    TightStays(t, IsSpace);
  }

  /** White space inside the brackets does not belong to the name. */
  lemma PaddedName(open: string, a: string, s: string, b: string, close: string)
    requires SectionName(s) && Spaces(a) && Spaces(b)
    requires forall i | 0 <= i < |open| :: open[i] == '['
    requires forall i | 0 <= i < |close| :: close[i] == ']'
    ensures Section(open + a + s + b + close) == s
  {
    SpacesAreNoBrackets(a);
    SpacesAreNoBrackets(b);
    hide TrimLeft, TrimRight, IsSpace;
    var inside := a + s + b;
    assert inside[0] == if a == "" then s[0] else a[0];
    assert inside[|inside| - 1] == if b == "" then s[|s| - 1] else b[|b| - 1];
    assert open + a + s + b + close == open + inside + close;
    TrimBothOf(open, inside, close, IsBracket);
    TightStays(inside, IsBracket);
    TrimBothOf(a, s, b, IsSpace);
    TightStays(s, IsSpace);
  }

  lemma SpacesAreNoBrackets(s: string)
    requires Spaces(s)
    ensures forall i | 0 <= i < |s| :: !IsBracket(s[i])
  {}

  lemma SingleBracket(s: string)
    requires SectionName(s)
    ensures !HasPrefix("[" + s + "]", "[[")
  {
    var t := "[" + s + "]";
    assert t[1] == s[0] && !IsBracket(s[0]);
    assert "[["[1] == '[';
    PrefixChars(t, "[[");
  }

  /** Section headers are read as such, with any indentation. */
  lemma HeadersAreRead(front: string, s: string, back: string, matchKV: Matcher)
    requires SectionName(s) && Spaces(front) && Spaces(back)
    ensures Classify(front + "[[" + s + "]]" + back, matchKV) == ArrayTable(s)
    ensures Classify(front + "[" + s + "]" + back, matchKV) == Table(s)
  {
    hide IsSpace, IsBracket, TrimLeft, TrimRight, TrimBoth, Section;
    var double, single := "[[" + s + "]]", "[" + s + "]";
    TrimBothOf(front, double, back, IsSpace);
    TrimBothOf(front, single, back, IsSpace);
    assert front + "[[" + s + "]]" + back == front + double + back;
    assert front + "[" + s + "]" + back == front + single + back;
    Bracketed("[[", s, "]]");
    Bracketed("[", s, "]");
    assert double[..2] == "[[" && double[|double| - 2..] == "]]";
    assert single[..1] == "[" && single[|single| - 1..] == "]";
    SingleBracket(s);
    PrefixChars(double, "#");
    PrefixChars(single, "#");
  }
}
