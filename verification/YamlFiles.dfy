/** Whole YAML files in the block style, line by line: what is read from them, and that an edit accepts them. */
module YamlFiles {
  import opened Units
  import opened Rows
  import Toml
  import opened Yaml
  import opened YamlProofs
  import opened YamlNames

  // ----- Lines -----

  /** A blank line or a comment; a key and what it is set to; an item; anything else; or something behind a tab. */
  datatype Line =
    | Remark(spaces: nat, comment: Option<Text>)
    | Pair(indent: nat, word: Text, quote: Option<Unit>, gap: nat, rest: Text)
    | Item(indent: nat, rest: Text)
    | Other(indent: nat, rest: Text)
    | Tabbed(indent: nat, rest: Text)

  function LineText(line: Line): Text {
    match line
    case Remark(spaces, comment) => Spaces(spaces) + (match comment case None => [] case Some(words) => [HASH] + words)
    case Pair(indent, word, quote, gap, rest) => Spaces(indent) + NameText(Name(word, quote)) + Spaces(gap) + [COLON] + rest
    case Item(indent, rest) => Spaces(indent) + [DASH] + rest
    case Other(indent, rest) => Spaces(indent) + rest
    case Tabbed(indent, rest) => Spaces(if indent == 0 then 0 else indent - 1) + ([TAB] + rest)
  }

  predicate IsKeyUnit(u: Unit) {
    IsPlainUnit(u) || u == DOLLAR
  }

  /** Nothing, or a space first. */
  predicate SetOff(rest: Text) {
    LF !in rest && (rest == [] || (rest[0] == SPACE && rest[|rest| - 1] != CR))
  }

  predicate IsPlainLine(line: Line) {
    match line
    case Remark(_, comment) => comment.Some? ==> forall i :: 0 <= i < |comment.value| ==> !IsBreak(comment.value[i])
    case Pair(_, word, quote, _, rest) =>
      && word != [] && (forall i :: 0 <= i < |word| ==> IsKeyUnit(word[i])) && word[0] != DASH
      && (quote == None || quote == Some(QUOTE) || quote == Some(APOSTROPHE)) && SetOff(rest)
    case Item(_, rest) => SetOff(rest) && !Colon(rest)
    case Other(_, rest) => Starts(rest) && IsOther(rest)
    case Tabbed(indent, rest) => indent > 0 && Starts(rest)
  }

  /** Something that is no comment starts here, and the line ends where it is said to. */
  predicate Starts(rest: Text) {
    rest != [] && !IsSpace(rest[0]) && rest[0] != HASH && LF !in rest && rest[|rest| - 1] != CR
  }

  /** Neither a key nor an item: without a colon, or started by what starts no key; and no dash alone. */
  predicate IsOther(rest: Text)
    requires rest != []
  {
    && (COLON !in rest || !(IsKeyUnit(rest[0]) || rest[0] == QUOTE || rest[0] == APOSTROPHE))
    && (rest[0] == DASH ==> |rest| > 1 && rest[1] != SPACE)
  }

  function Texts(lines: seq<Line>): (texts: seq<Text>)
    ensures |texts| == |lines|
  {
    seq(|lines|, i requires 0 <= i < |lines| => LineText(lines[i]))
  }

  predicate ArePlain(lines: seq<Line>) {
    forall i :: 0 <= i < |lines| ==> IsPlainLine(lines[i])
  }

  lemma TextsOn(a: seq<Line>, b: seq<Line>)
    ensures Texts(a + b) == Texts(a) + Texts(b)
  {
  }

  // ----- What a line is taken for -----

  lemma RemarkIs(line: Line)
    requires line.Remark? && IsPlainLine(line)
    ensures !Content(LineText(line)) && IsLine(LineText(line))
  {
    var tail := match line.comment case None => [] case Some(words) => [HASH] + words;
    TrimSpaces(line.spaces, tail);
    if line.comment.Some? {
      assert tail[1..] == line.comment.value;
    }
  }

  lemma ItemIs(line: Line, key: Text)
    requires line.Item? && IsPlainLine(line) && IsWord(key)
    ensures var t := LineText(line);
      && Content(t) && Indent(t) == line.indent && Yaml.IsItem(t) && !Named(key, t) && !TabIndented(t) && !IsKey(t) && IsLine(t)
  {
    hide Colon, IsKey;
    ItemStarts(line);
    ItemNoKey(line);
    var s := [DASH] + line.rest;
    assert key[0] in key;
    assert s[0] == DASH;
    assert line.rest != [] ==> s[1] == line.rest[0];
  }

  lemma ItemStarts(line: Line)
    requires line.Item?
    ensures var s := [DASH] + line.rest;
      LineText(line) == Spaces(line.indent) + s && StripSpaces(LineText(line)) == s && TrimStart(LineText(line)) == s
  {
    var s := [DASH] + line.rest;
    assert LineText(line) == Spaces(line.indent) + s;
    SpacesStripped(line.indent, s);
  }

  lemma ItemNoKey(line: Line)
    requires line.Item? && IsPlainLine(line)
    ensures !IsKey(LineText(line))
  {
    hide StripSpaces, LineText;
    ItemStarts(line);
    var s := [DASH] + line.rest;
    assert s[1..] == line.rest;
    assert Run(line.rest, true) == 0;
    assert Run(s, true) == 1;
  }

  /** Without a colon nothing is named, and no key is. */
  lemma {:induction false} StripHas(s: Text)
    ensures forall u <- StripSpaces(s) :: u in s
  {
    if s != [] && s[0] == SPACE {
      StripHas(s[1..]);
    }
  }

  lemma NoColon(s: Text, n: nat)
    requires COLON !in s && n <= |s|
    ensures !Colon(s[n..]) && !ColonEnds(s[n..])
  {
    StripHas(s[n..]);
    var t := StripSpaces(s[n..]);
    assert t != [] ==> t[0] in t;
    assert forall u <- s[n..] :: u in s;
  }

  lemma OtherIs(line: Line, key: Text)
    requires line.Other? && IsPlainLine(line) && IsWord(key)
    ensures var t := LineText(line);
      && Content(t) && Indent(t) == line.indent && !Yaml.IsItem(t) && !Named(key, t) && !TabIndented(t) && !IsKey(t) && IsLine(t)
  {
    hide Colon, ColonEnds;
    var s := line.rest;
    SpacesStripped(line.indent, s);
    assert key[0] in key;
    if COLON !in s {
      NoColon(s, Run(s, true));
      NoColon(s, QuotedRun(s, QUOTE, BACKSLASH));
      NoColon(s, QuotedRun(s, APOSTROPHE, APOSTROPHE));
      NoNames(s, key);
    }
  }

  lemma NoNames(s: Text, key: Text)
    requires COLON !in s
    ensures key <= s ==> !Colon(s[|key|..])
    ensures Quoted(key, QUOTE) <= s ==> !Colon(s[|key| + 2..])
    ensures Quoted(key, APOSTROPHE) <= s ==> !Colon(s[|key| + 2..])
  {
    hide Colon;
    if |key| <= |s| {
      NoColon(s, |key|);
    }
    if |key| + 2 <= |s| {
      NoColon(s, |key| + 2);
    }
  }

  lemma TabbedIs(line: Line, key: Text)
    requires line.Tabbed? && IsPlainLine(line) && IsWord(key)
    ensures var t := LineText(line);
      && Content(t) && Indent(t) == line.indent && !Yaml.IsItem(t) && !Named(key, t) && TabIndented(t) && !IsKey(t) && IsLine(t)
  {
    hide StripSpaces, TrimStart, Colon;
    var s := [TAB] + line.rest;
    SpacesStripped(line.indent - 1, s);
    TabTrims(line.indent - 1, line.rest);
    StartedByTab(s, key);
  }

  lemma StartedByTab(s: Text, key: Text)
    requires s != [] && s[0] == TAB && IsWord(key)
    ensures !(key <= s) && !(Quoted(key, QUOTE) <= s) && !(Quoted(key, APOSTROPHE) <= s)
    ensures Run(s, true) == 0 && QuotedRun(s, QUOTE, BACKSLASH) == 0 && QuotedRun(s, APOSTROPHE, APOSTROPHE) == 0
  {
    assert key[0] in key;
  }

  lemma TabTrims(n: nat, rest: Text)
    requires rest != [] && !IsSpace(rest[0])
    ensures TrimStart(Spaces(n) + ([TAB] + rest)) == rest
  {
    TrimSpaces(n, [TAB] + rest);
    assert ([TAB] + rest)[1..] == rest;
  }

  lemma PairStarts(line: Line)
    requires line.Pair? && IsPlainLine(line)
    ensures var s := NameText(Name(line.word, line.quote)) + (Spaces(line.gap) + ([COLON] + line.rest));
      && LineText(line) == Spaces(line.indent) + s && s != []
      && StripSpaces(LineText(line)) == s && TrimStart(LineText(line)) == s
      && s[0] != SPACE && s[0] != HASH && s[0] != TAB && s[0] != DASH && !IsSpace(s[0])
  {
    hide StripSpaces, TrimStart;
    var name := NameText(Name(line.word, line.quote));
    var s := name + (Spaces(line.gap) + ([COLON] + line.rest));
    NameStarts(line);
    assert s[0] == name[0];
    SpacesStripped(line.indent, s);
    assert LineText(line) == Spaces(line.indent) + s;
  }

  lemma NameStarts(line: Line)
    requires line.Pair? && IsPlainLine(line)
    ensures var name := NameText(Name(line.word, line.quote));
      name != [] && name[0] != SPACE && name[0] != HASH && name[0] != TAB && name[0] != DASH && !IsSpace(name[0]) && LF !in name
  {
  }

  lemma PairIs(line: Line, key: Text)
    requires line.Pair? && IsPlainLine(line) && IsWord(key)
    ensures var t := LineText(line);
      && Content(t) && Indent(t) == line.indent && !Yaml.IsItem(t) && !TabIndented(t) && IsLine(t)
  {
    hide StripSpaces, TrimStart, NameText, IsSpace;
    PairStarts(line);
    NameStarts(line);
    var t := LineText(line);
    assert t[|t| - 1] == if line.rest == [] then COLON else line.rest[|line.rest| - 1];
  }

  lemma ColonAfter(gap: nat, rest: Text)
    ensures Colon(Spaces(gap) + ([COLON] + rest))
    ensures (rest == [] || rest[0] == SPACE) ==> ColonEnds(Spaces(gap) + ([COLON] + rest))
  {
    SpacesStripped(gap, [COLON] + rest);
  }

  lemma WordUnits(key: Text)
    requires IsWord(key)
    ensures forall i :: 0 <= i < |key| ==> IsWordUnit(key[i])
  {
    assert forall i :: 0 <= i < |key| ==> key[i] in key;
  }

  lemma PlainNamed(word: Text, gap: nat, rest: Text, key: Text)
    requires word != [] && (forall i :: 0 <= i < |word| ==> IsKeyUnit(word[i])) && IsWord(key)
    ensures var s := word + (Spaces(gap) + ([COLON] + rest));
      key <= s && Colon(s[|key|..]) <==> key == word
  {
    var after := Spaces(gap) + ([COLON] + rest);
    var s := word + after;
    ColonAfter(gap, rest);
    assert s[|word|..] == after;
    assert s[|word|] == SPACE || s[|word|] == COLON;
    WordUnits(key);
    if key <= s {
      assert forall i :: 0 <= i < |key| ==> s[i] == key[i];
      if |key| < |word| {
        assert s[|key|..][0] == word[|key|];
      } else if |key| == |word| {
        assert key == s[..|word|] == word;
      }
    }
  }

  lemma QuotedNamed(word: Text, quote: Unit, gap: nat, rest: Text, key: Text)
    requires word != [] && (forall i :: 0 <= i < |word| ==> IsKeyUnit(word[i])) && IsWord(key)
    requires quote == QUOTE || quote == APOSTROPHE
    ensures var s := [quote] + word + [quote] + (Spaces(gap) + ([COLON] + rest));
      && (Quoted(key, quote) <= s && Colon(s[|key| + 2..]) <==> key == word)
      && !(key <= s)
      && (forall other :: other != quote ==> !(Quoted(key, other) <= s))
  {
    hide Colon;
    var after := Spaces(gap) + ([COLON] + rest);
    var s := [quote] + word + [quote] + after;
    ColonAfter(gap, rest);
    assert s[|word| + 2..] == after;
    assert s[0] == quote && key[0] in key;
    assert forall i :: 0 <= i < |word| ==> s[i + 1] == word[i];
    assert s[|word| + 1] == quote;
    WordUnits(key);
    if Quoted(key, quote) <= s {
      var q := Quoted(key, quote);
      assert forall i :: 0 <= i < |key| ==> q[i + 1] == key[i] && q[i + 1] == s[i + 1];
      assert q[|key| + 1] == s[|key| + 1] == quote;
      if |key| == |word| {
        assert key == word;
      }
    }
    forall other | other != quote ensures !(Quoted(key, other) <= s) {
      assert Quoted(key, other)[0] == other;
    }
  }

  /** A pair names its own word and no other. */
  lemma PairNames(line: Line, key: Text)
    requires line.Pair? && IsPlainLine(line) && IsWord(key)
    ensures Named(key, LineText(line)) <==> key == line.word
  {
    hide StripSpaces, TrimStart, Colon;
    PairStarts(line);
    var after := Spaces(line.gap) + ([COLON] + line.rest);
    if line.quote.None? {
      PlainNamed(line.word, line.gap, line.rest, key);
      assert (line.word + after)[0] == line.word[0];
      assert Quoted(key, QUOTE)[0] == QUOTE && Quoted(key, APOSTROPHE)[0] == APOSTROPHE;
    } else {
      QuotedNamed(line.word, line.quote.value, line.gap, line.rest, key);
    }
  }

  lemma {:induction false} KeyRuns(word: Text, rest: Text)
    requires forall i :: 0 <= i < |word| ==> IsKeyUnit(word[i])
    requires rest != [] && !IsKeyUnit(rest[0])
    ensures Run(word + rest, true) == |word|
  {
    if word == [] {
      assert word + rest == rest;
    } else {
      assert (word + rest)[1..] == word[1..] + rest;
      KeyRuns(word[1..], rest);
    }
  }

  lemma QuoteRunsOn(word: Text, quote: Unit, barred: Unit, rest: Text)
    requires quote !in word && barred !in word
    ensures QuotedRun([quote] + word + [quote] + rest, quote, barred) == |word| + 2
  {
    var s := [quote] + word + [quote] + rest;
    assert s[1..] == word + ([quote] + rest);
    FindIn(word, [quote] + rest, quote);
    assert s[1..][..|word|] == word;
  }

  lemma PairIsKey(line: Line)
    requires line.Pair? && IsPlainLine(line)
    ensures IsKey(LineText(line))
  {
    hide StripSpaces, TrimStart, Run, QuotedRun, ColonEnds;
    PairStarts(line);
    var after := Spaces(line.gap) + ([COLON] + line.rest);
    var s := NameText(Name(line.word, line.quote)) + after;
    ColonAfter(line.gap, line.rest);
    assert after[0] == SPACE || after[0] == COLON;
    if line.quote.None? {
      KeyRuns(line.word, after);
      assert s[|line.word|..] == after;
    } else {
      var quote := line.quote.value;
      assert forall u <- line.word :: IsKeyUnit(u);
      QuoteRunsOn(line.word, quote, if quote == QUOTE then BACKSLASH else APOSTROPHE, after);
      assert s == [quote] + line.word + [quote] + after;
      assert s[|line.word| + 2..] == after;
    }
  }

  lemma PairAfter(line: Line)
    requires line.Pair? && IsPlainLine(line)
    ensures After(LineText(line)) == line.rest && Find(LineText(line), COLON) < |LineText(line)|
  {
    var front := Spaces(line.indent) + NameText(Name(line.word, line.quote)) + Spaces(line.gap);
    assert LineText(line) == front + ([COLON] + line.rest);
    assert forall u <- line.word :: IsKeyUnit(u);
    assert COLON !in front;
    FindIn(front, [COLON] + line.rest, COLON);
  }

  // ----- The lines with something on them -----

  function Filled(lines: seq<Line>): seq<Line> {
    if lines == [] then [] else (if lines[0].Remark? then [] else [lines[0]]) + Filled(lines[1..])
  }

  lemma {:induction false} FilledOn(a: seq<Line>, b: seq<Line>)
    ensures Filled(a + b) == Filled(a) + Filled(b)
  {
    if a == [] {
      assert a + b == b;
    } else {
      assert (a + b)[1..] == a[1..] + b;
      FilledOn(a[1..], b);
    }
  }

  lemma {:induction false} FilledAre(lines: seq<Line>)
    requires ArePlain(lines)
    ensures ArePlain(Filled(lines)) && forall line <- Filled(lines) :: !line.Remark? && line in lines
  {
    hide IsPlainLine;
    if lines != [] {
      FilledAre(lines[1..]);
    }
  }

  /** A word to look for that no line has. */
  const ANY: Text := [97]

  lemma LineIs(line: Line)
    requires IsPlainLine(line)
    ensures var t := LineText(line);
      && IsLine(t) && Bare(t) == t && (Content(t) <==> !line.Remark?)
      && (!line.Remark? ==> Indent(t) == line.indent)
      && (!line.Remark? ==> (TabIndented(t) <==> line.Tabbed?) && (IsKey(t) <==> line.Pair?) && (Yaml.IsItem(t) <==> line.Item?))
  {
    hide Content, Indent, TabIndented, IsKey, Yaml.IsItem, Named, IsPlainLine, LineText;
    AnyIsWord();
    match line
    case Remark(_, _) => RemarkIs(line);
    case Pair(_, _, _, _, _) => PairIs(line, ANY); PairIsKey(line);
    case Item(_, _) => ItemIs(line, ANY);
    case Other(_, _) => OtherIs(line, ANY);
    case Tabbed(_, _) => TabbedIs(line, ANY);
  }

  lemma AnyIsWord()
    ensures IsWord(ANY)
  {
  }

  lemma {:induction false} ContentsFilled(lines: seq<Line>)
    requires ArePlain(lines)
    ensures Contents(Texts(lines)) == Texts(Filled(lines))
  {
    hide Content, IsPlainLine, LineText, Bare;
    if lines != [] {
      LineIs(lines[0]);
      ContentsFilled(lines[1..]);
      assert Texts(lines)[1..] == Texts(lines[1..]);
      var first := if lines[0].Remark? then [] else [lines[0]];
      TextsOn(first, Filled(lines[1..]));
    }
  }

  /** No line at `indent` sets `key`. */
  predicate Free(lines: seq<Line>, indent: nat, key: Text) {
    forall i :: 0 <= i < |lines| && lines[i].Pair? && lines[i].indent == indent ==> lines[i].word != key
  }

  lemma FreeSets(line: Line, indent: nat, key: Text)
    requires IsPlainLine(line) && !line.Remark? && IsWord(key)
    ensures Sets(key, indent, LineText(line)) <==> line.Pair? && line.indent == indent && line.word == key
    ensures Heads(key, LineText(line)) <==> line.Pair? && line.indent == 0 && line.word == key
  {
    hide Content, Indent, Named, IsPlainLine, LineText, TabIndented, IsKey, Yaml.IsItem;
    LineIs(line);
    if line.Pair? {
      PairNames(line, key);
    } else if line.Item? {
      ItemIs(line, key);
    } else if line.Other? {
      OtherIs(line, key);
    } else {
      TabbedIs(line, key);
    }
  }

  lemma FreeTexts(lines: seq<Line>, indent: nat, key: Text)
    requires ArePlain(lines) && Free(lines, indent, key) && IsWord(key)
    ensures forall text <- Texts(Filled(lines)) :: !Sets(key, indent, text)
    ensures indent == 0 ==> forall text <- Texts(Filled(lines)) :: !Heads(key, text)
  {
    hide Sets, Heads, IsPlainLine, LineText, Filled;
    var filled := Filled(lines);
    FilledAre(lines);
    forall text <- Texts(filled) ensures !Sets(key, indent, text) && (indent == 0 ==> !Heads(key, text)) {
      var i :| 0 <= i < |filled| && text == LineText(filled[i]);
      assert filled[i] in lines;
      var j :| 0 <= j < |lines| && lines[j] == filled[i];
      FreeSets(filled[i], indent, key);
    }
  }

  // ----- A file -----

  /** A block's lines: the first that has something on it is a pair at `indent`, none has less, and what is neither pair nor item more; `started`: it was before. */
  predicate Even(lines: seq<Line>, indent: nat, started: bool) {
    lines == [] ||
    match lines[0]
    case Remark(_, _) => Even(lines[1..], indent, started)
    case Pair(n, _, _, _, _) => n >= indent && (started || n == indent) && Even(lines[1..], indent, true)
    case Item(n, _) => started && n >= indent && Even(lines[1..], indent, true)
    case Other(n, _) => started && n > indent && Even(lines[1..], indent, true)
    case Tabbed(_, _) => false
  }

  /** Lines at the top of a file: none but pairs start in its first column, and none is the map's. */
  predicate Beside(lines: seq<Line>, map_: Text) {
    && ArePlain(lines) && Free(lines, 0, map_)
    && forall i :: 0 <= i < |lines| ==> !lines[i].Tabbed? && (lines[i].Item? || lines[i].Other? ==> lines[i].indent > 0)
  }

  /** What comes after a block: something in the first column, if anything. */
  predicate Resumes(lines: seq<Line>, indent: nat) {
    Filled(lines) != [] ==> Filled(lines)[0].Pair? && Filled(lines)[0].indent == indent
  }

  /** A file with a map: lines beside it, its title, its block, and lines beside it again. */
  datatype Page = Page(before: seq<Line>, quote: Option<Unit>, gap: nat, end: End, block: seq<Line>, after: seq<Line>)

  function Title(page: Page, map_: Text): Line {
    Pair(0, map_, page.quote, page.gap, EndText(page.end))
  }

  function PageLines(page: Page, map_: Text): seq<Line> {
    page.before + [Title(page, map_)] + page.block + page.after
  }

  predicate IsPage(page: Page, map_: Text, indent: nat) {
    && IsWord(map_) && indent > 0
    && Beside(page.before, map_) && Beside(page.after, map_) && Resumes(page.after, 0)
    && IsEnd(page.end) && (page.end.comment.Some? ==> !EndsInReturn(page.end.comment.value)) && IsPlainLine(Title(page, map_))
    && ArePlain(page.block) && Even(page.block, indent, false)
  }

  predicate EndsInReturn(s: Text) {
    s != [] && s[|s| - 1] == CR
  }

  lemma {:induction false} EvenFilled(lines: seq<Line>, indent: nat, started: bool)
    requires Even(lines, indent, started)
    ensures forall line <- Filled(lines) :: !line.Remark? && line.indent >= indent
    ensures !started && Filled(lines) != [] ==> Filled(lines)[0].Pair? && Filled(lines)[0].indent == indent
    ensures forall line <- lines :: line in Filled(lines) || line.Remark?
  {
    if lines != [] {
      EvenFilled(lines[1..], indent, started || !lines[0].Remark?);
      assert lines == [lines[0]] + lines[1..];
    }
  }

  lemma NoneAtTop(lines: seq<Line>, indent: nat)
    requires ArePlain(lines) && Even(lines, indent, false) && indent > 0
    ensures forall text <- Texts(Filled(lines)) :: !IsTop(text)
  {
    hide IsPlainLine, LineText, Filled, Indent, Content;
    var filled := Filled(lines);
    FilledAre(lines);
    EvenFilled(lines, indent, false);
    forall text <- Texts(filled) ensures !IsTop(text) {
      var i :| 0 <= i < |filled| && text == LineText(filled[i]);
      assert filled[i] in filled;
      LineIs(filled[i]);
    }
  }

  lemma ResumesAtTop(lines: seq<Line>)
    requires ArePlain(lines) && Resumes(lines, 0)
    ensures var texts := Texts(Filled(lines)); texts == [] || IsTop(texts[0])
  {
    hide IsPlainLine, LineText, Filled, Indent, Content;
    FilledAre(lines);
    if Filled(lines) != [] {
      LineIs(Filled(lines)[0]);
    }
  }

  /** Of such a file the map's block is read, and nothing else. */
  lemma PageReads(page: Page, map_: Text, indent: nat, key: Text)
    requires IsPage(page, map_, indent)
    ensures ListOf(Contents(Texts(PageLines(page, map_))), map_, key) == NamesOf(key, Texts(Filled(page.block)))
  {
    hide IsPlainLine, LineText, Filled, Even, ListOf, NamesOf, IsTop, Heads, Contents, IsEnd, Resumes, Free, IsWord;
    var before, title, after := page.before, Title(page, map_), page.after;
    var all := PageLines(page, map_);
    AllPlain(page, map_, indent);
    ContentsFilled(all);
    FilledOn(before + [title] + page.block, after);
    FilledOn(before + [title], page.block);
    FilledOn(before, [title]);
    FilledOne(title);
    TextsOn(Filled(before) + [title] + Filled(page.block), Filled(after));
    TextsOn(Filled(before) + [title], Filled(page.block));
    TextsOn(Filled(before), [title]);
    FreeTexts(before, 0, map_);
    FreeTexts(after, 0, map_);
    FreeSets(title, 0, map_);
    NoneAtTop(page.block, indent);
    ResumesAtTop(after);
    assert Texts([title]) == [LineText(title)];
    ReadsBlock(map_, key, Texts(Filled(before)), LineText(title), Texts(Filled(page.block)), Texts(Filled(after)));
  }

  lemma FilledOne(line: Line)
    ensures !line.Remark? ==> Filled([line]) == [line]
  {
    var lines := [line];
    assert lines[1..] == [];
  }

  lemma AllPlain(page: Page, map_: Text, indent: nat)
    requires IsPage(page, map_, indent)
    ensures ArePlain(PageLines(page, map_)) && PageLines(page, map_) != []
    ensures forall text <- Texts(PageLines(page, map_)) :: IsLine(text)
  {
    hide IsPlainLine, LineText, Even, IsEnd, Resumes, Free, IsWord, IsLine;
    var all := PageLines(page, map_);
    forall i | 0 <= i < |all| ensures IsPlainLine(all[i]) {
    }
    forall text <- Texts(all) ensures IsLine(text) {
      var i :| 0 <= i < |all| && text == LineText(all[i]);
      LineIs(all[i]);
    }
  }

  lemma {:induction false} ContentsSame(rows: seq<Text>, texts: seq<Text>)
    requires |rows| == |texts| && forall i :: 0 <= i < |rows| ==> Bare(rows[i]) == texts[i] && Bare(texts[i]) == texts[i]
    ensures Contents(rows) == Contents(texts)
  {
    hide Content, Bare;
    if rows != [] {
      ContentsSame(rows[1..], texts[1..]);
    }
  }

  /** Reading the file is reading its lines. */
  lemma FileReads(page: Page, map_: Text, indent: nat, crlf: bool, key: Text)
    requires IsPage(page, map_, indent)
    ensures List(FileOf(Texts(PageLines(page, map_)), crlf), map_, key) == NamesOf(key, Texts(Filled(page.block)))
  {
    hide IsPage, IsLine, FileOf, Split, Filled, ListOf, NamesOf, Contents, Bare, LineText, IsPlainLine;
    var lines := PageLines(page, map_);
    AllPlain(page, map_, indent);
    FileRows(Texts(lines), crlf);
    forall i | 0 <= i < |lines| ensures Bare(Texts(lines)[i]) == Texts(lines)[i] {
      LineIs(lines[i]);
    }
    ContentsSame(Split(FileOf(Texts(lines), crlf)), Texts(lines));
    PageReads(page, map_, indent, key);
  }

  // ----- A list in it -----

  /** One line under a key whose value is not on its own line: an item's name, or a remark. */
  datatype Listed = One(indent: nat, gap: nat, name: Name, end: End) | Aside(spaces: nat, comment: Option<Text>)

  function ListedLine(listed: Listed): Line {
    match listed
    case One(indent, gap, name, end) => Item(indent, Spaces(gap) + NameText(name) + EndText(end))
    case Aside(spaces, comment) => Remark(spaces, comment)
  }

  predicate IsListed(listed: Listed, indent: nat) {
    match listed
    case One(n, gap, name, end) =>
      n >= indent && gap > 0 && IsName(name) && IsEnd(end) && (end.comment.Some? ==> !EndsInReturn(end.comment.value))
    case Aside(spaces, comment) => IsPlainLine(Remark(spaces, comment))
  }

  function ListedLines(listed: seq<Listed>): (lines: seq<Line>)
    ensures |lines| == |listed|
  {
    seq(|listed|, i requires 0 <= i < |listed| => ListedLine(listed[i]))
  }

  function ListedNames(listed: seq<Listed>): seq<Text> {
    if listed == [] then []
    else (if listed[0].One? then [listed[0].name.text] else []) + ListedNames(listed[1..])
  }

  lemma ItemNames(listed: Listed, indent: nat)
    requires IsListed(listed, indent) && listed.One?
    ensures IsPlainLine(ListedLine(listed)) && ItemName(LineText(ListedLine(listed))) == Some(listed.name.text)
  {
    hide Scalar, StripComment, NameText, EndText, IsEnd, IsName;
    var line, value := ListedLine(listed), NameText(listed.name);
    NameEnds(listed.name);
    ListedIsPlain(listed, indent);
    var s := [DASH] + line.rest;
    assert LineText(line) == Spaces(line.indent) + s;
    SpacesStripped(line.indent, s);
    assert s[1..] == Spaces(listed.gap) + (value + EndText(listed.end));
    assert (value + EndText(listed.end))[0] == value[0];
    SpacesStripped(listed.gap, value + EndText(listed.end));
    CommentGoes(value, listed.end);
    assert s[1] == SPACE;
    StrippedName(value, if listed.end.comment.Some? then 0 else listed.end.spaces);
    NameReads(listed.name);
    assert value + [] == value + Spaces(0);
  }

  lemma StrippedName(value: Text, n: nat)
    requires value != [] && !IsSpace(value[0]) && !IsSpace(value[|value| - 1]) && Toml.NoBreaks(value)
    ensures Toml.NoBreaks(value + Spaces(n)) && Scalar(value + Spaces(n)) == Scalar(value)
  {
    hide Run, QuotedRun;
    TrimBetween(0, value, n);
    TrimBetween(0, value, 0);
    assert Spaces(0) + value + Spaces(n) == value + Spaces(n);
    assert Spaces(0) + value + Spaces(0) == value;
  }

  lemma ListedIsPlain(listed: Listed, indent: nat)
    requires IsListed(listed, indent)
    ensures IsPlainLine(ListedLine(listed))
  {
    if listed.One? {
      NameEnds(listed.name);
      var rest := ListedLine(listed).rest;
      assert rest[0] == SPACE;
      assert rest[|rest| - 1] == EndOf(NameText(listed.name), listed.end);
      NamesNoColon(listed.gap, listed.name, EndText(listed.end));
    }
  }

  lemma NamesNoColon(gap: nat, name: Name, end: Text)
    requires IsName(name)
    ensures !Colon(Spaces(gap) + NameText(name) + end)
  {
    var t := NameText(name);
    assert Spaces(gap) + t + end == Spaces(gap) + (t + end);
    NameEnds(name);
    SpacesStripped(gap, t + end);
  }

  /** The last unit of a value and what follows it. */
  function EndOf(value: Text, end: End): Unit
    requires value != []
  {
    if end.comment.Some? then if end.comment.value == [] then HASH else end.comment.value[|end.comment.value| - 1]
    else if end.spaces > 0 then SPACE else value[|value| - 1]
  }

  lemma {:induction false} ItemsNamed(listed: seq<Listed>, indent: nat, rest: seq<Text>)
    requires (forall i :: 0 <= i < |listed| ==> IsListed(listed[i], indent)) && (rest == [] || Ends(indent, rest[0]))
    ensures Items(indent, Texts(Filled(ListedLines(listed))) + rest) == Ok(ListedNames(listed))
  {
    hide IsListed, ItemName, Ends, LineText, ListedLine, IsPlainLine, IsName, NameText, Items;
    var lines := ListedLines(listed);
    if listed == [] {
      assert Texts(Filled(lines)) + rest == rest;
      ItemsEnd(rest, indent);
    } else {
      assert lines[1..] == ListedLines(listed[1..]);
      ItemsNamed(listed[1..], indent, rest);
      ListedKind(listed[0]);
      var more := Texts(Filled(lines[1..])) + rest;
      if listed[0].One? {
        ItemNames(listed[0], indent);
        ItemGoesOn(listed[0], indent);
        TextsOn([lines[0]], Filled(lines[1..]));
        assert Texts(Filled(lines)) + rest == [LineText(lines[0])] + more;
        ItemThenRest(LineText(lines[0]), more, indent);
      } else {
        assert [] + Filled(lines[1..]) == Filled(lines[1..]) && [] + ListedNames(listed[1..]) == ListedNames(listed[1..]);
      }
    }
  }

  lemma ItemsEnd(rest: seq<Text>, indent: int)
    requires rest == [] || Ends(indent, rest[0])
    ensures Items(indent, rest) == Ok([])
  {
  }

  lemma ItemThenRest(text: Text, more: seq<Text>, indent: int)
    requires !Ends(indent, text) && ItemName(text).Some? && Items(indent, more).Ok?
    ensures Items(indent, [text] + more) == Ok([ItemName(text).value] + Items(indent, more).value)
  {
    hide Ends, ItemName;
    assert ([text] + more)[1..] == more;
  }

  lemma ListedKind(listed: Listed)
    ensures ListedLine(listed).Remark? <==> !listed.One?
  {
  }

  lemma ItemGoesOn(listed: Listed, indent: nat)
    requires IsListed(listed, indent) && listed.One?
    ensures !Ends(indent, LineText(ListedLine(listed)))
  {
    hide Content, Indent, Yaml.IsItem, LineText, IsPlainLine, IsKey, TabIndented;
    ListedIsPlain(listed, indent);
    LineIs(ListedLine(listed));
  }

  /** A key of a block, with nothing else at its indentation that sets it. */
  lemma KeyFound(inside: seq<Line>, entry: Line, rest: seq<Line>, indent: nat, key: Text)
    requires ArePlain(inside) && IsPlainLine(entry) && ArePlain(rest) && IsWord(key)
    requires entry.Pair? && entry.indent == indent && entry.word == key && Free(inside, indent, key) && Free(rest, indent, key)
    requires Even(inside, indent, false)
    ensures var block := Texts(Filled(inside + [entry] + rest)); var at := |Filled(inside)|;
      && at < |block| && block[at] == LineText(entry) && block[at + 1..] == Texts(Filled(rest))
      && Indent(block[0]) == indent && Setting(key, indent, block) == at
      && Setting(key, indent, block[at + 1..]) == |block| - at - 1
  {
    hide Sets, IsPlainLine, LineText, Filled, Even, Indent, Setting, IsWord, Free, Content, IsKey, Yaml.IsItem, TabIndented;
    FilledOn(inside + [entry], rest);
    FilledOn(inside, [entry]);
    FilledOne(entry);
    TextsOn(Filled(inside) + [entry], Filled(rest));
    TextsOn(Filled(inside), [entry]);
    assert Texts([entry]) == [LineText(entry)];
    FreeTexts(inside, indent, key);
    FreeTexts(rest, indent, key);
    FreeSets(entry, indent, key);
    OnlySetting(key, indent, Texts(Filled(inside)), LineText(entry), Texts(Filled(rest)));
    EvenFilled(inside, indent, false);
    FilledAre(inside);
    LineIs(if Filled(inside) == [] then entry else Filled(inside)[0]);
  }

  /** The names a list under a key is written with, on the key's own line or on lines of their own. */
  datatype Written = OnLine(pad: nat, slots: seq<Slot>, end: End) | Below(end: End, listed: seq<Listed>)

  predicate IsWritten(written: Written, indent: nat) {
    match written
    case OnLine(pad, slots, end) =>
      && pad > 0 && IsEnd(end) && (end.comment.Some? ==> !EndsInReturn(end.comment.value))
      && (forall i :: 0 <= i < |slots| ==> IsSlot(slots[i]))
    case Below(end, listed) =>
      && IsEnd(end) && (end.comment.Some? ==> !EndsInReturn(end.comment.value))
      && (forall i :: 0 <= i < |listed| ==> IsListed(listed[i], indent))
  }

  function ValueText(written: Written): Text {
    match written
    case OnLine(pad, slots, end) => Spaces(pad) + ListText(slots) + EndText(end)
    case Below(end, _) => EndText(end)
  }

  function LinesBelow(written: Written): seq<Line> {
    if written.OnLine? then [] else ListedLines(written.listed)
  }

  function WrittenNames(written: Written): seq<Text> {
    if written.OnLine? then SlotNames(written.slots) else ListedNames(written.listed)
  }

  function EntryLine(key: Text, indent: nat, quote: Option<Unit>, gap: nat, written: Written): Line {
    Pair(indent, key, quote, gap, ValueText(written))
  }

  /** A block with a list in it. */
  function BlockWith(inside: seq<Line>, entry: Line, written: Written, more: seq<Line>): seq<Line> {
    inside + [entry] + (LinesBelow(written) + more)
  }

  lemma BelowPlain(written: Written, indent: nat)
    requires IsWritten(written, indent)
    ensures ArePlain(LinesBelow(written)) && forall i :: 0 <= i < |LinesBelow(written)| ==> !LinesBelow(written)[i].Pair?
  {
    hide IsPlainLine, IsListed, ListedLine;
    var lines := LinesBelow(written);
    forall i | 0 <= i < |lines| ensures IsPlainLine(lines[i]) && !lines[i].Pair? {
      ListedIsPlain(written.listed[i], indent);
      NoPair(written.listed[i]);
    }
  }

  lemma NoPair(listed: Listed)
    ensures !ListedLine(listed).Pair?
  {
  }

  /** A list is read as the names it is written with, in order, however it is written. */
  lemma ListIsRead(page: Page, map_: Text, indent: nat, crlf: bool, key: Text, inside: seq<Line>, quote: Option<Unit>, gap: nat, written: Written, more: seq<Line>)
    requires IsPage(page, map_, indent) && IsWord(key)
    requires page.block == BlockWith(inside, EntryLine(key, indent, quote, gap, written), written, more)
    requires IsWritten(written, indent) && Free(inside, indent, key) && Free(more, indent, key) && Resumes(more, indent)
    requires IsPlainLine(EntryLine(key, indent, quote, gap, written)) && ArePlain(inside) && ArePlain(more) && Even(inside, indent, false)
    ensures List(FileOf(Texts(PageLines(page, map_)), crlf), map_, key) == Ok(Some(WrittenNames(written)))
  {
    hide IsPage, IsPlainLine, LineText, Filled, Even, FileOf, List, NamesOf, IsWritten, WrittenNames, LinesBelow, IsWord, Setting, Indent, After, Items, Free, Resumes, ValueText;
    var entry, rest := EntryLine(key, indent, quote, gap, written), LinesBelow(written) + more;
    FileReads(page, map_, indent, crlf, key);
    BelowPlain(written, indent);
    RestFree(LinesBelow(written), more, indent, key);
    KeyFound(inside, entry, rest, indent, key);
    PairAfter(entry);
    var block, at := Texts(Filled(page.block)), |Filled(inside)|;
    if written.OnLine? {
      OnLineNames(key, indent, block, at, written);
    } else {
      BelowNames(key, indent, block, at, written, more);
    }
  }

  lemma RestFree(lines: seq<Line>, more: seq<Line>, indent: nat, key: Text)
    requires ArePlain(lines) && ArePlain(more) && Free(more, indent, key) && forall i :: 0 <= i < |lines| ==> !lines[i].Pair?
    ensures ArePlain(lines + more) && Free(lines + more, indent, key)
  {
    hide IsPlainLine;
  }

  lemma OnLineNames(key: Text, indent: nat, block: seq<Text>, at: nat, written: Written)
    requires written.OnLine? && IsWritten(written, indent)
    requires at < |block| && Indent(block[0]) == indent && Setting(key, indent, block) == at
    requires Setting(key, indent, block[at + 1..]) == |block| - at - 1 && After(block[at]) == ValueText(written)
    ensures NamesOf(key, block) == Ok(Some(WrittenNames(written)))
  {
    hide Setting, Items, After, Indent, FlowNames, StripComment, Trim, IsSlot, ListText, EndText, IsEnd, SlotNames;
    ListReads(written.slots);
    ValueLeft(written.pad, ListText(written.slots), written.end);
  }

  lemma BelowNames(key: Text, indent: nat, block: seq<Text>, at: nat, written: Written, more: seq<Line>)
    requires written.Below? && IsWritten(written, indent) && ArePlain(more) && Resumes(more, indent)
    requires at < |block| && Indent(block[0]) == indent && Setting(key, indent, block) == at
    requires Setting(key, indent, block[at + 1..]) == |block| - at - 1 && After(block[at]) == ValueText(written)
    requires block[at + 1..] == Texts(Filled(LinesBelow(written) + more))
    ensures NamesOf(key, block) == Ok(Some(WrittenNames(written)))
  {
    hide Setting, Items, After, Indent, StripComment, Trim, IsListed, EndText, IsEnd, ListedNames, Filled, Ends, IsPlainLine, LineText;
    var end := written.end;
    if end.comment.Some? {
      assert IsEnd(end);
    }
    NothingHere(end);
    FilledOn(LinesBelow(written), more);
    TextsOn(Filled(LinesBelow(written)), Filled(more));
    ResumesEnds(more, indent);
    ItemsNamed(written.listed, indent, Texts(Filled(more)));
  }

  lemma NothingHere(end: End)
    requires IsEnd(end)
    ensures Trim(StripComment(EndText(end))) == []
  {
    hide StripComment, Trim;
    NothingLeft(0, end);
    assert Spaces(0) + EndText(end) == EndText(end);
  }

  lemma ResumesEnds(more: seq<Line>, indent: nat)
    requires ArePlain(more) && Resumes(more, indent)
    ensures var texts := Texts(Filled(more)); texts == [] || Ends(indent, texts[0])
  {
    hide Filled, LineText, IsPlainLine, Indent, Content, Yaml.IsItem, IsKey, TabIndented;
    FilledAre(more);
    if Filled(more) != [] {
      LineIs(Filled(more)[0]);
    }
  }
}
