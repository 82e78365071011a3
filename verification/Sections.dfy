/** A Codex config as it is written, table after table: which of its lines a rewrite keeps. */
module Sections {
  import opened Units
  import opened Rows
  import Strings
  import StrictJson
  import opened Values
  import opened Toml
  import opened TomlProofs

  /** Spaces and tabs. */
  predicate Blank(s: Text) {
    forall i :: 0 <= i < |s| ==> s[i] == SPACE || s[i] == TAB
  }

  /** A table's name: no bracket or line break in it, and no blank at either end. */
  predicate IsName(name: Text) {
    && name != [] && !IsSpace(name[0]) && !IsSpace(name[|name| - 1])
    && forall u <- name :: u != LBRACKET && u != RBRACKET && !IsBreak(u)
  }

  /** A header as it is written: a name in one bracket or two, blanks around everything, and perhaps a comment. */
  datatype Heading = Heading(lead: Text, twice: bool, pad: Text, name: Text, gap: Text, after: Text, comment: Option<Text>)

  function Line(h: Heading): Text {
    h.lead + Brackets(LBRACKET, h.twice) + h.pad + h.name + h.gap + Brackets(RBRACKET, h.twice) + h.after
    + match h.comment case None => [] case Some(words) => [HASH] + words
  }

  function Brackets(bracket: Unit, twice: bool): Text {
    if twice then [bracket, bracket] else [bracket]
  }

  predicate IsHeading(h: Heading) {
    && Blank(h.lead) && Blank(h.pad) && Blank(h.gap) && Blank(h.after) && IsName(h.name)
    && (h.comment.Some? ==> forall u <- h.comment.value :: !IsBreak(u))
  }

  /** A line that opens no table: nothing on it but blanks, or something else than a bracket first. */
  predicate IsBody(line: Text) {
    exists n: nat :: n <= |line| && Blank(line[..n]) && (n == |line| || (!IsSpace(line[n]) && line[n] != LBRACKET))
  }

  datatype Section = Section(heading: Heading, body: seq<Text>)

  predicate IsSection(s: Section) {
    IsHeading(s.heading) && forall line <- s.body :: IsBody(line)
  }

  function LinesOf(sections: seq<Section>): seq<Text> {
    if sections == [] then [] else [Line(sections[0].heading)] + sections[0].body + LinesOf(sections[1..])
  }

  /** The sections of tables that are not `mcp_servers.melra` and not below it. */
  function NotMelra(sections: seq<Section>): seq<Section> {
    if sections == [] then []
    else
      var name := sections[0].heading.name;
      (if name == MELRA || (|name| > |MELRA| && name[..|MELRA|] == MELRA && name[|MELRA|] == DOT) then [] else [sections[0]])
      + NotMelra(sections[1..])
  }

  // ----- Headers -----

  lemma {:induction false} TrimBlank(a: Text, b: Text)
    requires Blank(a)
    ensures TrimStart(a + b) == TrimStart(b)
  {
    if a == [] {
      assert a + b == b;
    } else {
      assert (a + b)[1..] == a[1..] + b;
      TrimBlank(a[1..], b);
    }
  }

  lemma {:induction false} TrimBlankEnd(a: Text, b: Text)
    requires Blank(b)
    ensures TrimEnd(a + b) == TrimEnd(a)
  {
    if b == [] {
      assert a + b == a;
    } else {
      assert (a + b)[..|a + b| - 1] == a + b[..|b| - 1];
      TrimBlankEnd(a, b[..|b| - 1]);
    }
  }

  lemma NothingTrimmed()
    ensures TrimStart([]) == [] && TrimEnd([]) == []
  {
  }

  lemma AfterName(h: Heading)
    requires IsHeading(h)
    ensures var after := h.after + match h.comment case None => [] case Some(words) => [HASH] + words;
      EndsHeader(after) && EndsHeader([RBRACKET] + after)
  {
    var comment: Text := match h.comment case None => [] case Some(words) => [HASH] + words;
    var after := h.after + comment;
    TrimBlank(h.after, comment);
    NothingTrimmed();
    assert ([RBRACKET] + after)[1..] == after;
    if h.comment.Some? {
      assert comment[1..] == h.comment.value;
    }
    assert after != [] ==> after[0] != RBRACKET;
  }

  lemma InnerIs(pad: Text, name: Text, gap: Text, after: Text)
    requires Blank(pad) && Blank(gap) && IsName(name) && EndsHeader(after)
    ensures Inner(pad + name + gap + [RBRACKET] + after) == Some(name)
  {
    hide EndsHeader;
    var front := pad + name + gap;
    var s := front + [RBRACKET] + after;
    assert RBRACKET !in front;
    assert s == front + ([RBRACKET] + after);
    FindIn(front, [RBRACKET] + after, RBRACKET);
    assert s[..|front|] == front && s[|front| + 1..] == after;
    TrimBlank(pad, name + gap);
    assert front == pad + (name + gap);
    assert (name + gap)[0] == name[0];
    assert TrimStart(name + gap) == name + gap;
    TrimBlankEnd(name, gap);
    ShownIsTrimmed(name);
  }

  /** A heading is read as its name. */
  lemma HeadingReads(h: Heading)
    requires IsHeading(h)
    ensures Header(Line(h)) == Some(h.name)
  {
    hide EndsHeader, Inner, Blank, IsName, TrimStart, IsSpace, Find;
    var after := h.after + match h.comment case None => [] case Some(words) => [HASH] + words;
    var front := h.pad + h.name + h.gap;
    AfterName(h);
    var rest := Brackets(LBRACKET, h.twice) + (front + Brackets(RBRACKET, h.twice) + after);
    LineParts(h, after);
    TrimBlank(h.lead, rest);
    assert rest[0] == LBRACKET;
    Bracketless();
    Unspaced(rest);
    if h.twice {
      assert rest[2..] == front + [RBRACKET] + ([RBRACKET] + after);
      InnerIs(h.pad, h.name, h.gap, [RBRACKET] + after);
    } else {
      assert rest[1..] == front + [RBRACKET] + after;
      InnerIs(h.pad, h.name, h.gap, after);
      OneBracket(h.pad, h.name, front + [RBRACKET] + after);
    }
  }

  lemma LineParts(h: Heading, after: Text)
    requires after == h.after + match h.comment case None => [] case Some(words) => [HASH] + words
    ensures Line(h) == h.lead + (Brackets(LBRACKET, h.twice) + (h.pad + h.name + h.gap + Brackets(RBRACKET, h.twice) + after))
  {
    hide Brackets;
    var open, close := Brackets(LBRACKET, h.twice), Brackets(RBRACKET, h.twice);
    var tail := match h.comment case None => [] case Some(words) => [HASH] + words;
    assert h.lead + open + h.pad + h.name + h.gap + close + h.after + tail
      == h.lead + (open + (h.pad + h.name + h.gap + close + (h.after + tail)));
  }

  lemma Bracketless()
    ensures !IsSpace(LBRACKET)
  {
  }

  lemma OneBracket(pad: Text, name: Text, rest: Text)
    requires Blank(pad) && IsName(name) && pad + name <= rest
    ensures rest != [] && rest[0] != LBRACKET
  {
    assert (pad + name)[0] == rest[0];
    if pad == [] {
      assert rest[0] == name[0] && name[0] in name;
    } else {
      assert rest[0] == pad[0];
    }
  }

  lemma BodyReads(line: Text)
    requires IsBody(line)
    ensures Header(line).None?
  {
    var n: nat :| n <= |line| && Blank(line[..n]) && (n == |line| || (!IsSpace(line[n]) && line[n] != LBRACKET));
    assert line == line[..n] + line[n..];
    TrimBlank(line[..n], line[n..]);
  }

  // ----- What the filter keeps -----

  lemma {:induction false} BodyKept(body: seq<Text>, skipping: bool)
    requires forall line <- body :: IsBody(line)
    ensures Kept(body, skipping) == (if skipping then [] else body) && SkippingAfter(body, skipping) == skipping
  {
    hide Header, IsBody;
    if body != [] {
      BodyReads(body[0]);
      BodyKept(body[1..], skipping);
    }
  }

  lemma IsMelraIs(name: Text)
    ensures IsMelra(name) <==> name == MELRA || (|name| > |MELRA| && name[..|MELRA|] == MELRA && name[|MELRA|] == DOT)
  {
    var dotted := MELRA + [DOT];
    if dotted <= name {
      assert name[..|dotted|] == dotted;
      assert name[..|MELRA|] == dotted[..|MELRA|] == MELRA;
      assert name[|MELRA|] == dotted[|MELRA|];
    }
    if |name| > |MELRA| && name[..|MELRA|] == MELRA && name[|MELRA|] == DOT {
      assert name[..|dotted|] == dotted;
    }
  }

  lemma {:induction false} SectionsKept(sections: seq<Section>, skipping: bool)
    requires forall s <- sections :: IsSection(s)
    ensures Kept(LinesOf(sections), skipping) == LinesOf(NotMelra(sections))
  {
    hide Header, IsMelra, IsBody, IsHeading, Line, Kept;
    if sections == [] {
      NothingKept(skipping);
    } else {
      var s, rest := sections[0], sections[1..];
      var line, skips := Line(s.heading), IsMelra(s.heading.name);
      assert s in sections && IsSection(s);
      HeadingReads(s.heading);
      IsMelraIs(s.heading.name);
      KeptOn([line] + s.body, LinesOf(rest), skipping);
      KeptOn([line], s.body, skipping);
      KeptOne(line, skipping);
      BodyKept(s.body, skips);
      SectionsKept(rest, skips);
      OneMore(s, NotMelra(rest));
    }
  }

  lemma OneMore(s: Section, rest: seq<Section>)
    ensures LinesOf([s] + rest) == [Line(s.heading)] + s.body + LinesOf(rest) && [] + rest == rest
  {
    assert ([s] + rest)[1..] == rest;
  }

  lemma NothingKept(skipping: bool)
    ensures Kept([], skipping) == [] && LinesOf([]) == []
  {
  }

  // ----- Whole files -----

  lemma FileLines(lines: seq<Text>, crlf: bool)
    requires lines != [] && forall line <- lines :: IsLine(line)
    ensures Lines(FileOf(lines, crlf)) == lines
  {
    hide FileOf, Split;
    FileRows(lines, crlf);
  }

  /**
   * Of a file written as lines that open no table and then tables, a rewrite keeps the first lines and every table whole, in
   * its order, that is neither `mcp_servers.melra` nor below it, and nothing of those that are; but for blanks at the end.
   */
  lemma TablesSurvive(preamble: seq<Text>, sections: seq<Section>, crlf: bool, entry: Entry)
    requires (forall line <- preamble :: IsBody(line)) && forall s <- sections :: IsSection(s)
    requires var lines := preamble + LinesOf(sections); lines != [] && forall line <- lines :: IsLine(line)
    ensures var existing, rest := FileOf(preamble + LinesOf(sections), crlf), Trimmed(preamble + LinesOf(NotMelra(sections)));
      Split(WithTables(existing, entry)) == (if rest == [] then [] else rest + [[]]) + Split(CodexToml(entry))
  {
    hide Kept, IsBody, IsSection, LinesOf, NotMelra, Lines, Split, Survivors, Trimmed, CodexToml, WithTables, IsLine;
    var lines := preamble + LinesOf(sections);
    FileLines(lines, crlf);
    KeptOn(preamble, LinesOf(sections), false);
    BodyKept(preamble, false);
    SectionsKept(sections, false);
    assert lines[..|lines|] == lines;
    KeepsTheRest(lines, |lines|);
    RestIsKept(FileOf(lines, crlf), entry);
  }

  // ----- The launch such a file tells -----

  /** A line of a table: a command or arguments as JSON writes them, with any blanks around the parts; either with nothing, with a line separator in it, or in single quotes, which JSON does not read; or anything else. */
  datatype Row =
    | Command(lead: Text, gap: Text, pad: Text, end: Text, command: Text)
    | Args(lead: Text, gap: Text, pad: Text, end: Text, args: seq<Text>)
    | Broken(lead: Text, listed: bool, gap: Text, pad: Text, value: Text, end: Text)
    | Other(line: Text)

  function RowLine(row: Row): Text {
    match row
    case Command(lead, gap, pad, end, command) => lead + COMMAND + gap + [EQUALS] + pad + Strings.Quote(command) + end
    case Args(lead, gap, pad, end, args) => lead + ARGS + gap + [EQUALS] + pad + StrictJson.List(args) + end
    case Broken(lead, listed, gap, pad, value, end) => lead + (if listed then ARGS else COMMAND) + gap + [EQUALS] + pad + value + end
    case Other(line) => line
  }

  predicate IsRow(row: Row) {
    if row.Other? then
      exists n: nat :: n <= |row.line| && Blank(row.line[..n])
        && (n == |row.line| || (!IsSpace(row.line[n]) && row.line[n] != LBRACKET))
        && !(COMMAND <= row.line[n..]) && !(ARGS <= row.line[n..])
    else
      && Blank(row.lead) && Blank(row.gap) && Blank(row.pad) && Blank(row.end)
      && (row.Command? ==> Plain(row.command)) && (row.Args? ==> AllPlain(row.args))
      && (row.Broken? ==> IsUnread(row.value))
  }

  predicate IsUnread(value: Text) {
    value == [] ||
      (!IsSpace(value[0]) && !IsSpace(value[|value| - 1])
       && (value[0] == 39 || exists i :: 0 <= i < |value| && (value[i] == 0x2028 || value[i] == 0x2029)))
  }

  datatype Table = Table(heading: Heading, rows: seq<Row>)

  predicate IsTable(t: Table) {
    IsHeading(t.heading) && forall row <- t.rows :: IsRow(row)
  }

  function RowLines(rows: seq<Row>): seq<Text> {
    if rows == [] then [] else [RowLine(rows[0])] + RowLines(rows[1..])
  }

  function TableLines(tables: seq<Table>): seq<Text> {
    if tables == [] then [] else [Line(tables[0].heading)] + RowLines(tables[0].rows) + TableLines(tables[1..])
  }

  /** The last command and the last arguments in MELRA's own table. */
  datatype Told = Told(command: Option<Text>, args: seq<Text>)

  function ToldBy(rows: seq<Row>, told: Told): Told {
    if rows == [] then told
    else
      ToldBy(rows[1..],
        match rows[0]
        case Command(_, _, _, _, command) => told.(command := Some(command))
        case Args(_, _, _, _, args) => told.(args := args)
        case _ => told)
  }

  function ToldIn(tables: seq<Table>, told: Told): Told {
    if tables == [] then told
    else ToldIn(tables[1..], if tables[0].heading.name == MELRA then ToldBy(tables[0].rows, told) else told)
  }

  /** A setting, whatever the blanks around its parts: read when it has a value on one line. */
  lemma SettingReads(lead: Text, key: Text, gap: Text, pad: Text, value: Text, end: Text)
    requires Blank(lead) && Blank(gap) && Blank(pad) && Blank(end) && IsBare(key)
    requires value != [] ==> !IsSpace(value[0]) && !IsSpace(value[|value| - 1])
    ensures var line := lead + key + gap + [EQUALS] + pad + value + end;
      ValueAfter(key, line) == (if value == [] || !NoBreaks(value) then None else Some(value)) && Header(line).None?
  {
    hide Blank, NoBreaks;
    var tail := pad + value + end;
    var rest := key + (gap + ([EQUALS] + tail));
    assert lead + key + gap + [EQUALS] + pad + value + end == lead + rest;
    TrimBlank(lead, rest);
    assert rest[0] == key[0];
    assert TrimStart(rest) == rest;
    assert rest[|key|..] == gap + ([EQUALS] + tail);
    TrimBlank(gap, [EQUALS] + tail);
    assert TrimStart([EQUALS] + tail) == [EQUALS] + tail;
    assert ([EQUALS] + tail)[1..] == tail;
    ValueTrimmed(pad, value, end);
  }

  lemma ValueTrimmed(pad: Text, value: Text, end: Text)
    requires Blank(pad) && Blank(end) && (value != [] ==> !IsSpace(value[0]) && !IsSpace(value[|value| - 1]))
    ensures TrimEnd(TrimStart(pad + value + end)) == value
  {
    hide Blank, TrimStart, TrimEnd, IsSpace;
    Assoc(pad, value, end);
    TrimBlank(pad, value + end);
    if value == [] {
      TrimBlank(end, []);
      assert end + [] == end && [] + end == end;
      NothingTrimmed();
    } else {
      Unspaced(value + end);
      TrimBlankEnd(value, end);
      ShownIsTrimmed(value);
    }
  }

  lemma Unspaced(s: Text)
    requires s != [] && !IsSpace(s[0])
    ensures TrimStart(s) == s
  {
  }

  lemma RowReads(row: Row, r: Reading)
    requires IsRow(row)
    ensures Header(RowLine(row)).None?
    ensures ReadLine(RowLine(row), r) ==
      if !r.inside then r
      else match row
        case Command(_, _, _, _, command) => r.(command := Some(Str(command)))
        case Args(_, _, _, _, args) => r.(args := args)
        case _ => r
  {
    hide Header, ValueAfter, StrictJson.Parse, StringsOf, Strings.Quote, StrictJson.List, Blank, IsBare, Shown;
    NamesAre();
    match row
    case Command(lead, gap, pad, end, command) =>
      QuoteShown(command);
      ShownIsNoBreak(Strings.Quote(command));
      SettingReads(lead, COMMAND, gap, pad, Strings.Quote(command), end);
      StrictJson.QuoteParses(command);
    case Args(lead, gap, pad, end, args) =>
      ListShown(args);
      ShownIsNoBreak(StrictJson.List(args));
      SettingReads(lead, ARGS, gap, pad, StrictJson.List(args), end);
      var rest := gap + [EQUALS] + pad + StrictJson.List(args) + end;
      KeysDiffer(rest);
      OtherKey(lead, COMMAND, ARGS + rest);
      assert RowLine(row) == lead + (ARGS + rest);
      StrictJson.ListParses(args);
      TextsBack(args);
      ListStrings(args);
    case Broken(lead, listed, gap, pad, value, end) =>
      BrokenReads(lead, if listed then ARGS else COMMAND, gap, pad, value, end);
    case Other(line) => OtherReads(line);
  }

  lemma BrokenReads(lead: Text, key: Text, gap: Text, pad: Text, value: Text, end: Text)
    requires Blank(lead) && Blank(gap) && Blank(pad) && Blank(end) && IsUnread(value) && (key == ARGS || key == COMMAND)
    ensures var line := lead + key + gap + [EQUALS] + pad + value + end;
      Header(line).None? && forall r :: ReadLine(line, r) == r
  {
    hide Header, ValueAfter, Blank, IsBare, StrictJson.Parse;
    NamesAre();
    SettingReads(lead, key, gap, pad, value, end);
    if value != [] && value[0] == 39 {
      SingleUnparsed(value);
    } else if value != [] {
      var i :| 0 <= i < |value| && (value[i] == 0x2028 || value[i] == 0x2029);
      assert value[i] in value && IsBreak(value[i]);
    }
    var rest := gap + [EQUALS] + pad + value + end;
    assert lead + key + gap + [EQUALS] + pad + value + end == lead + (key + rest);
    KeysDiffer(rest);
    if key == ARGS {
      OtherKey(lead, COMMAND, key + rest);
    } else {
      OtherKey(lead, ARGS, key + rest);
    }
  }

  lemma SingleUnparsed(value: Text)
    requires value != [] && value[0] == 39
    ensures StrictJson.Parse(value).None?
  {
  }

  lemma ListStrings(list: seq<Text>)
    ensures StringsOf(Arr(seq(|list|, i requires 0 <= i < |list| => Str(list[i])))) == list
  {
    TextsBack(list);
  }

  lemma ShownIsNoBreak(s: Text)
    requires Shown(s, true)
    ensures NoBreaks(s)
    ensures s != [] && (s[0] == QUOTE || s[0] == LBRACKET) ==> !IsSpace(s[0])
    ensures s != [] && (s[|s| - 1] == QUOTE || s[|s| - 1] == RBRACKET) ==> !IsSpace(s[|s| - 1])
  {
  }

  lemma KeysDiffer(rest: Text)
    ensures !(COMMAND <= ARGS + rest) && ARGS + rest != [] && !IsSpace((ARGS + rest)[0])
    ensures !(ARGS <= COMMAND + rest) && COMMAND + rest != [] && !IsSpace((COMMAND + rest)[0])
  {
    assert (COMMAND + rest)[0] == COMMAND[0];
    assert (ARGS + rest)[0] == ARGS[0] && COMMAND[0] != ARGS[0];
  }

  lemma OtherKey(lead: Text, key: Text, rest: Text)
    requires Blank(lead) && !(key <= rest) && (rest == [] || !IsSpace(rest[0]))
    ensures ValueAfter(key, lead + rest).None?
  {
    TrimBlank(lead, rest);
  }

  lemma OtherReads(line: Text)
    requires IsRow(Other(line))
    ensures Header(line).None? && ValueAfter(COMMAND, line).None? && ValueAfter(ARGS, line).None?
  {
    hide ValueAfter, Header;
    var n: nat :| n <= |line| && Blank(line[..n]) && (n == |line| || (!IsSpace(line[n]) && line[n] != LBRACKET))
      && !(COMMAND <= line[n..]) && !(ARGS <= line[n..]);
    assert line == line[..n] + line[n..];
    assert IsBody(line);
    BodyReads(line);
    OtherKey(line[..n], COMMAND, line[n..]);
    OtherKey(line[..n], ARGS, line[n..]);
  }

  function Reads(inside: bool, told: Told): Reading {
    Reading(inside, match told.command case None => None case Some(s) => Some(Str(s)), told.args)
  }

  lemma {:induction false} RowsRead(rows: seq<Row>, inside: bool, told: Told)
    requires forall row <- rows :: IsRow(row)
    ensures ReadLines(RowLines(rows), Reads(inside, told)) == Reads(inside, if inside then ToldBy(rows, told) else told)
  {
    hide IsRow, RowLine, ReadLine;
    if rows != [] {
      var row := rows[0];
      RowReads(row, Reads(inside, told));
      var next := match row
        case Command(_, _, _, _, command) => told.(command := Some(command))
        case Args(_, _, _, _, args) => told.(args := args)
        case _ => told;
      assert (([RowLine(row)] + RowLines(rows[1..]))[1..]) == RowLines(rows[1..]);
      RowsRead(rows[1..], inside, if inside then next else told);
    }
  }

  lemma {:induction false} TablesRead(tables: seq<Table>, inside: bool, told: Told) returns (after: bool)
    requires forall t <- tables :: IsTable(t)
    ensures ReadLines(TableLines(tables), Reads(inside, told)) == Reads(after, ToldIn(tables, told))
  {
    hide ReadLine, ReadLines, RowLines, Line, ToldBy, IsHeading, IsRow;
    after := inside;
    if tables == [] {
      NothingRead(Reads(inside, told));
    } else {
      var t := tables[0];
      assert t in tables && IsTable(t);
      var line, rest := Line(t.heading), TableLines(tables[1..]);
      HeadingReads(t.heading);
      ReadOn([line] + RowLines(t.rows), rest, Reads(inside, told));
      ReadOn([line], RowLines(t.rows), Reads(inside, told));
      ReadOne(line, Reads(inside, told));
      HeadingTells(t.heading, Reads(inside, told));
      var own := t.heading.name == MELRA;
      RowsRead(t.rows, own, told);
      after := TablesRead(tables[1..], own, if own then ToldBy(t.rows, told) else told);
    }
  }

  lemma NothingRead(r: Reading)
    ensures ReadLines([], r) == r
  {
  }

  lemma HeadingTells(h: Heading, r: Reading)
    requires IsHeading(h)
    ensures ReadLine(Line(h), r) == r.(inside := h.name == MELRA)
  {
    hide Header, Line;
    HeadingReads(h);
  }

  lemma {:induction false} BodyUnread(body: seq<Text>, r: Reading)
    requires !r.inside && forall line <- body :: IsBody(line)
    ensures ReadLines(body, r) == r
  {
    hide IsBody, Header;
    if body != [] {
      BodyReads(body[0]);
      BodyUnread(body[1..], r);
    }
  }

  /** The launch of a file so written: the last command and the last arguments in MELRA's own table, and no other table's. */
  lemma LaunchTold(preamble: seq<Text>, tables: seq<Table>, crlf: bool)
    requires (forall line <- preamble :: IsBody(line)) && forall t <- tables :: IsTable(t)
    requires var lines := preamble + TableLines(tables); lines != [] && forall line <- lines :: IsLine(line)
    ensures var told := ToldIn(tables, Told(None, []));
      Launch(FileOf(preamble + TableLines(tables), crlf))
        == match told.command case None => None case Some(command) => Some([command] + told.args)
  {
    hide IsBody, IsTable, TableLines, ReadLines, Lines, ToldIn, IsLine;
    var lines, start := preamble + TableLines(tables), Reads(false, Told(None, []));
    FileLines(lines, crlf);
    ReadOn(preamble, TableLines(tables), start);
    BodyUnread(preamble, start);
    var after := TablesRead(tables, false, Told(None, []));
  }
}
