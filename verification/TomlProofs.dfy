/** MELRA's tables are read back as they were put in, and putting them in again changes nothing. */
module TomlProofs {
  import opened Units
  import opened Rows
  import opened Editor
  import Strings
  import StrictJson
  import opened Values
  import opened Toml

  // ----- Lines -----

  function BareAll(rows: seq<Text>): (r: seq<Text>)
    ensures |r| == |rows|
  {
    seq(|rows|, i requires 0 <= i < |rows| => Bare(rows[i]))
  }

  lemma LinesBetween(a: Text, b: Text)
    ensures Lines(a + [LF] + b) == BareAll(Split(a)) + Lines(b)
  {
    hide Split;
    SplitBetween(a, b);
    var rows, first, last := Split(a + [LF] + b), Split(a), Split(b);
    forall i | 0 <= i < |rows| ensures Lines(a + [LF] + b)[i] == (BareAll(first) + Lines(b))[i] {
      assert rows[i] == if i < |first| then first[i] else last[i - |first|];
    }
  }

  lemma {:induction false} ReadOn(a: seq<Text>, b: seq<Text>, r: Reading)
    ensures ReadLines(a + b, r) == ReadLines(b, ReadLines(a, r))
  {
    hide ReadLine;
    if a == [] {
      assert a + b == b;
    } else {
      assert (a + b)[1..] == a[1..] + b;
      ReadOn(a[1..], b, ReadLine(a[0], r));
    }
  }

  lemma ReadOne(line: Text, r: Reading)
    ensures ReadLines([line], r) == ReadLine(line, r)
  {
    hide ReadLine;
    var lines := [line];
    assert |lines[1..]| == 0;
  }

  // ----- What is quoted -----

  /** A string without the two separators JSON leaves as they are. */
  predicate Plain(s: Text) {
    0x2028 !in s && 0x2029 !in s
  }

  lemma UnitShown(u: Unit)
    ensures forall v <- Strings.EscapeUnit(u) :: v >= 32 && (v == 0x2028 || v == 0x2029 ==> v == u)
  {
  }

  /** On one line, whatever was in it, and without a separator unless one was. */
  predicate Shown(s: Text, plain: bool) {
    forall v <- s :: v >= 32 && (plain ==> v != 0x2028 && v != 0x2029)
  }

  lemma {:induction false} EscapeShown(s: Text)
    ensures Shown(Strings.Escape(s), Plain(s))
  {
    if s == [] {
    } else if |s| >= 2 && Strings.IsLead(s[0]) && Strings.IsTrail(s[1]) {
      EscapeShown(s[2..]);
      assert s == s[..2] + s[2..];
    } else {
      EscapeShown(s[1..]);
      UnitShown(s[0]);
      assert s == [s[0]] + s[1..];
    }
  }

  lemma QuoteShown(s: Text)
    ensures Shown(Strings.Quote(s), Plain(s))
    ensures var q := Strings.Quote(s); q != [] && q[0] == QUOTE && q[|q| - 1] == QUOTE
  {
    EscapeShown(s);
  }

  predicate AllPlain(list: seq<Text>) {
    forall s <- list :: Plain(s)
  }

  lemma {:induction false} ListRestShown(list: seq<Text>)
    ensures var rest := StrictJson.ListRest(list);
      Shown(rest, AllPlain(list)) && rest != [] && rest[|rest| - 1] == RBRACKET
  {
    hide Strings.Quote, Plain;
    if list != [] {
      QuoteShown(list[0]);
      ListRestShown(list[1..]);
      assert AllPlain(list) ==> Plain(list[0]) && AllPlain(list[1..]);
    }
  }

  lemma ListShown(list: seq<Text>)
    ensures var text := StrictJson.List(list);
      text != [] && Shown(text, AllPlain(list)) && text[0] == LBRACKET && text[|text| - 1] == RBRACKET
  {
    ListRestShown(list);
  }

  /** What begins and ends with something shown is not trimmed, and shows on one line. */
  lemma ShownIsTrimmed(s: Text)
    requires s != [] && !IsSpace(s[0]) && !IsSpace(s[|s| - 1])
    ensures TrimStart(s) == s && TrimEnd(s) == s
  {
  }

  // ----- The rows of MELRA's tables -----

  /** A key as TOML has it bare: it begins no table and breaks no line. */
  predicate IsBare(key: Text) {
    key != [] && !IsSpace(key[0]) && key[0] != LBRACKET && Shown(key, false)
  }

  predicate BareKeys(env: seq<(Text, Text)>) {
    forall pair <- env :: IsBare(pair.0)
  }

  lemma SettingIs(key: Text, value: Text)
    requires IsBare(key) && value != [] && !IsSpace(value[0]) && !IsSpace(value[|value| - 1])
    ensures Header(Setting(key, value)).None?
    ensures NoBreaks(value) ==> ValueAfter(key, Setting(key, value)) == Some(value)
  {
    var line := Setting(key, value);
    assert line[0] == key[0];
    assert line[..|key|] == key;
    var after := [SPACE, EQUALS, SPACE] + value;
    assert line[|key|..] == after;
    assert after[1..] == [EQUALS, SPACE] + value;
    var t := [EQUALS, SPACE] + value;
    assert TrimStart(after) == t;
    assert t[1..] == [SPACE] + value;
    assert ([SPACE] + value)[1..] == value;
    assert TrimStart(t[1..]) == value;
    ShownIsTrimmed(value);
  }

  lemma {:induction false} FindPast(s: Text, u: Unit)
    requires u !in s
    ensures Find(s + [u], u) == |s|
  {
    if s != [] {
      assert (s + [u])[1..] == s[1..] + [u];
      FindPast(s[1..], u);
    }
  }

  lemma BracketedIs(name: Text)
    requires name != [] && RBRACKET !in name && name[0] != LBRACKET && !IsSpace(name[0]) && !IsSpace(name[|name| - 1])
    ensures Header(Bracketed(name)) == Some(name)
  {
    var line := Bracketed(name);
    assert line[1..] == name + [RBRACKET];
    FindPast(name, RBRACKET);
    var s := name + [RBRACKET];
    assert s[..|name|] == name && s[|name| + 1..] == [];
    ShownIsTrimmed(name);
  }

  /** A row that joins and splits as itself. */
  predicate IsRow(row: Text) {
    LF !in row && (row == [] || row[|row| - 1] != CR)
  }

  lemma {:induction false} EnvRowsAre(env: seq<(Text, Text)>)
    requires BareKeys(env)
    ensures forall row <- EnvRows(env) :: IsRow(row) && Header(row).None?
  {
    hide Header, Strings.Quote, IsBare;
    if env != [] {
      EnvRowIs(env[0].0, env[0].1);
      EnvRowsAre(env[1..]);
    }
  }

  lemma EnvRowIs(key: Text, value: Text)
    requires IsBare(key)
    ensures var row := Setting(key, Strings.Quote(value)); IsRow(row) && Header(row).None?
  {
    hide Header, ValueAfter, Strings.Quote;
    QuoteShown(value);
    SettingIs(key, Strings.Quote(value));
  }

  lemma NamesAre()
    ensures Header(Bracketed(MELRA)) == Some(MELRA) && Header(Bracketed(MELRA + ENV)) == Some(MELRA + ENV)
    ensures IsRow(Bracketed(MELRA)) && IsRow(Bracketed(MELRA + ENV))
    ensures IsMelra(MELRA) && IsMelra(MELRA + ENV) && MELRA + ENV != MELRA
    ensures IsBare(COMMAND) && IsBare(ARGS)
  {
    hide Header;
    BracketedIs(MELRA);
    var env := MELRA + ENV;
    assert env == [109, 99, 112, 95, 115, 101, 114, 118, 101, 114, 115, 46, 109, 101, 108, 114, 97, 46, 101, 110, 118];
    BracketedIs(env);
    assert (MELRA + [DOT]) == env[..|MELRA| + 1];
  }

  lemma TableRowsAre(entry: Entry)
    requires BareKeys(entry.env)
    ensures forall row <- TableRows(entry) :: IsRow(row)
    ensures Lines(CodexToml(entry)) == TableRows(entry)
  {
    hide Header, Strings.Quote, StrictJson.List, Bracketed, ValueAfter, Join, Split;
    NamesAre();
    QuoteShown(entry.command);
    ListShown(entry.args);
    EnvRowsAre(entry.env);
    var rows := TableRows(entry);
    assert forall row <- rows :: IsRow(row);
    SplitJoin(rows);
    forall i | 0 <= i < |rows| ensures Bare(rows[i]) == rows[i] {
      assert IsRow(rows[i]);
    }
  }

  // ----- Reading back -----

  lemma {:induction false} ReadNothing(lines: seq<Text>, r: Reading)
    requires !r.inside && forall line <- lines :: Header(line).None?
    ensures ReadLines(lines, r) == r
  {
    hide Header;
    if lines != [] {
      ReadNothing(lines[1..], r);
    }
  }

  lemma {:induction false} TextsBack(list: seq<Text>)
    ensures TextsOf(seq(|list|, i requires 0 <= i < |list| => Str(list[i]))) == list
  {
    if list != [] {
      var items := seq(|list|, i requires 0 <= i < |list| => Str(list[i]));
      assert items[1..] == seq(|list[1..]|, i requires 0 <= i < |list[1..]| => Str(list[1..][i]));
      TextsBack(list[1..]);
    }
  }

  lemma CommandRead(command: Text, r: Reading)
    requires Plain(command) && r.inside
    ensures ReadLine(Setting(COMMAND, Strings.Quote(command)), r) == r.(command := Some(Str(command)))
  {
    hide Header, Strings.Quote, StrictJson.Parse, ValueAfter;
    NamesAre();
    QuoteShown(command);
    SettingIs(COMMAND, Strings.Quote(command));
    StrictJson.QuoteParses(command);
  }

  lemma ArgsRead(args: seq<Text>, r: Reading)
    requires AllPlain(args) && r.inside
    ensures ReadLine(Setting(ARGS, StrictJson.List(args)), r) == r.(args := args)
  {
    hide Header, StrictJson.List, StrictJson.Parse, ValueAfter;
    NamesAre();
    ListShown(args);
    SettingIs(ARGS, StrictJson.List(args));
    NotCommand(StrictJson.List(args));
    StrictJson.ListParses(args);
    TextsBack(args);
  }

  lemma NotCommand(value: Text)
    ensures ValueAfter(COMMAND, Setting(ARGS, value)).None?
  {
    var line := Setting(ARGS, value);
    assert line[0] == ARGS[0] && COMMAND[0] != ARGS[0];
    assert TrimStart(line) == line;
  }

  /** Whatever was read before, MELRA's tables leave the entry's own command and arguments. */
  lemma TablesRead(entry: Entry, r: Reading)
    requires Plain(entry.command) && AllPlain(entry.args) && BareKeys(entry.env)
    ensures LaunchOf(ReadLines(TableRows(entry), r)) == Some([entry.command] + entry.args)
  {
    hide Header, Strings.Quote, StrictJson.List, Bracketed, Setting, ReadLine, Plain, AllPlain, BareKeys;
    var r1 := r.(inside := true);
    var r2 := r1.(command := Some(Str(entry.command)));
    var r3 := r2.(args := entry.args);
    var r4 := r3.(inside := false);
    TableHeads(r, r3);
    CommandRead(entry.command, r1);
    ArgsRead(entry.args, r2);
    EmptyRead(r3);
    var rest := EnvRows(entry.env) + [[]];
    EnvRowsAre(entry.env);
    EmptyRead(r4);
    ReadNothing(rest, r4);
    var rows := TableRows(entry);
    var a, b, c, d, e := rows[0], rows[1], rows[2], rows[3], rows[4];
    ReadFive(a, b, c, d, e, rest, r);
    assert rows == [a, b, c, d, e] + rest;
  }

  lemma TableHeads(r: Reading, r3: Reading)
    ensures ReadLine(Bracketed(MELRA), r) == r.(inside := true)
    ensures ReadLine(Bracketed(MELRA + ENV), r3) == r3.(inside := false)
  {
    hide Header, Bracketed;
    NamesAre();
  }

  lemma EmptyRead(r: Reading)
    ensures Header([]).None? && ReadLine([], r) == r
  {
  }

  lemma ReadFive(a: Text, b: Text, c: Text, d: Text, e: Text, rest: seq<Text>, r: Reading)
    ensures ReadLines([a, b, c, d, e] + rest, r) ==
      ReadLines(rest, ReadLine(e, ReadLine(d, ReadLine(c, ReadLine(b, ReadLine(a, r))))))
  {
    hide ReadLine;
    ReadOn([a], [b, c, d, e] + rest, r);
    ReadOne(a, r);
    assert [a] + ([b, c, d, e] + rest) == [a, b, c, d, e] + rest;
    var r1 := ReadLine(a, r);
    ReadOn([b], [c, d, e] + rest, r1);
    ReadOne(b, r1);
    assert [b] + ([c, d, e] + rest) == [b, c, d, e] + rest;
    var r2 := ReadLine(b, r1);
    ReadOn([c], [d, e] + rest, r2);
    ReadOne(c, r2);
    assert [c] + ([d, e] + rest) == [c, d, e] + rest;
    var r3 := ReadLine(c, r2);
    ReadOn([d], [e] + rest, r3);
    ReadOne(d, r3);
    assert [d] + ([e] + rest) == [d, e] + rest;
    ReadOn([e], rest, ReadLine(d, r3));
    ReadOne(e, ReadLine(d, r3));
  }

  /** Of any file, once MELRA's tables are in it, the launch read is the entry's command followed by its arguments. */
  lemma ReadsBack(existing: Text, entry: Entry)
    requires Plain(entry.command) && AllPlain(entry.args) && BareKeys(entry.env)
    ensures Launch(WithTables(existing, entry)) == Some([entry.command] + entry.args)
  {
    hide Lines, ReadLines, LaunchOf, CodexToml, TableRows, Plain, AllPlain, BareKeys, WithoutTables;
    var kept := WithoutTables(existing);
    var start := Reading(false, None, []);
    TableRowsAre(entry);
    if kept == [] {
      TablesRead(entry, start);
    } else {
      assert kept + [LF, LF] + CodexToml(entry) == (kept + [LF]) + [LF] + CodexToml(entry);
      LinesBetween(kept + [LF], CodexToml(entry));
      ReadOn(BareAll(Split(kept + [LF])), TableRows(entry), start);
      TablesRead(entry, ReadLines(BareAll(Split(kept + [LF])), start));
    }
  }

  // ----- Putting the tables in again -----

  /** The kept lines come back as they are: none ends in a carriage return, and the last one opens no table of MELRA's. */
  predicate Steady(others: seq<Text>) {
    && (forall row <- others :: !EndsInReturn(row))
    && (others != [] ==> !OpensMelra(others[|others| - 1]))
  }

  lemma {:induction false} TrimEndIs(s: Text)
    ensures TrimEnd(s) <= s && TrimEnd(TrimEnd(s)) == TrimEnd(s)
    ensures TrimEnd(s) == [] || !IsSpace(TrimEnd(s)[|TrimEnd(s)| - 1])
    ensures TrimEnd(s + [LF]) == TrimEnd(s)
  {
    assert (s + [LF])[..|s|] == s;
    if s != [] && IsSpace(s[|s| - 1]) {
      TrimEndIs(s[..|s| - 1]);
    }
  }

  // ----- The rest of the file -----

  /** Rows without the blank ones at the end, and without the blanks at the end of the last. */
  function Trimmed(rows: seq<Text>): (r: seq<Text>)
    ensures r != [] ==> r[|r| - 1] != []
  {
    if rows == [] then []
    else
      var last := TrimEnd(rows[|rows| - 1]);
      if last == [] then Trimmed(rows[..|rows| - 1]) else rows[..|rows| - 1] + [last]
  }

  lemma {:induction false} TrimEndOn(a: Text, b: Text)
    ensures TrimEnd(a + b) == if TrimEnd(b) == [] then TrimEnd(a) else a + TrimEnd(b)
  {
    if b == [] {
      assert a + b == a;
    } else {
      assert (a + b)[|a + b| - 1] == b[|b| - 1];
      assert (a + b)[..|a + b| - 1] == a + b[..|b| - 1];
      if IsSpace(b[|b| - 1]) {
        TrimEndOn(a, b[..|b| - 1]);
      }
    }
  }

  lemma {:induction false} TrimmedText(rows: seq<Text>)
    ensures TrimEnd(Join(rows)) == Join(Trimmed(rows))
  {
    hide Join, IsSpace;
    if rows == [] {
      NothingJoined();
    } else {
      var front, last := rows[..|rows| - 1], rows[|rows| - 1];
      assert rows == front + [last];
      if front == [] {
        OneJoined(last);
        NothingJoined();
        if TrimEnd(last) != [] {
          OneJoined(TrimEnd(last));
        }
      } else {
        OneJoined(last);
        JoinBetween(front, [last]);
        TrimEndOn(Join(front) + [LF], last);
        TrimEndOn(Join(front), [LF]);
        LineIsSpace();
        TrimmedText(front);
        if TrimEnd(last) != [] {
          OneJoined(TrimEnd(last));
          JoinBetween(front, [TrimEnd(last)]);
        }
      }
    }
  }

  lemma LineIsSpace()
    ensures TrimEnd([LF]) == []
  {
  }

  lemma OneJoined(row: Text)
    ensures Join([row]) == row && [] + [row] == [row]
  {
  }

  lemma NothingJoined()
    ensures Join([]) == []
  {
  }

  lemma {:induction false} TrimmedAre(rows: seq<Text>)
    ensures var r := Trimmed(rows);
      && |r| <= |rows|
      && (r != [] ==>
            && r[..|r| - 1] == rows[..|r| - 1] && r[|r| - 1] == TrimEnd(rows[|r| - 1])
            && !IsSpace(r[|r| - 1][|r[|r| - 1]| - 1]))
  {
    hide IsSpace;
    if rows != [] {
      TrimEndIs(rows[|rows| - 1]);
      TrimmedAre(rows[..|rows| - 1]);
    }
  }

  /** The file's lines that are in none of MELRA's tables, but for blanks at their end. */
  ghost function Others(existing: Text): seq<Text> {
    var lines := Lines(existing);
    Trimmed(Survivors(lines, |lines|))
  }

  /** The rows of what is kept are those lines. */
  lemma KeptRows(existing: Text)
    ensures var others := Others(existing);
      && WithoutTables(existing) == Join(others)
      && Split(WithoutTables(existing)) == (if others == [] then [[]] else others)
      && (WithoutTables(existing) == [] <==> others == [])
  {
    hide Lines, Kept, Survivors, Trimmed, Join, Split, IsSpace;
    var lines := Lines(existing);
    assert lines[..|lines|] == lines;
    KeepsTheRest(lines, |lines|);
    var left := Kept(lines, false);
    TrimmedText(left);
    TrimmedAre(left);
    KeptOpensNone(lines, false);
    LinesHaveNoFeeds(existing);
    var others := Trimmed(left);
    if others == [] {
      NothingJoined();
      SplitRow([]);
    } else {
      NoFeeds(left, others);
      SplitJoin(others);
      if Join(others) == [] {
        SplitRow([]);
      }
    }
  }

  lemma NoFeeds(left: seq<Text>, others: seq<Text>)
    requires 0 < |others| <= |left| && others[..|others| - 1] == left[..|others| - 1]
    requires others[|others| - 1] == TrimEnd(left[|others| - 1]) && forall row <- left :: LF !in row
    ensures forall row <- others :: LF !in row
  {
    var n := |others| - 1;
    TrimEndIs(left[n]);
    forall i | 0 <= i < |others| ensures LF !in others[i] {
      if i < n {
        assert others[i] == others[..n][i] == left[..n][i];
      }
      assert left[i] in left;
    }
  }

  /**
   * The rewritten file is the lines that are in none of MELRA's tables, as they were but for blanks at their end, an empty
   * line if there is any, and MELRA's tables.
   */
  lemma RestIsKept(existing: Text, entry: Entry)
    ensures var others := Others(existing);
      Split(WithTables(existing, entry)) == (if others == [] then [] else others + [[]]) + Split(CodexToml(entry))
  {
    hide WithoutTables, CodexToml, Split, Others;
    KeptRows(existing);
    var kept, tables := WithoutTables(existing), CodexToml(entry);
    if kept == [] {
      assert [] + Split(tables) == Split(tables);
    } else {
      assert kept + [LF, LF] + tables == kept + [LF] + [] + [LF] + tables;
      assert kept + [LF] == kept + [LF] + [];
      SplitBetween(kept + [LF], tables);
      SplitBetween(kept, []);
      SplitRow([]);
    }
  }

  lemma {:induction false} KeptOpensNone(lines: seq<Text>, skipping: bool)
    ensures forall line <- Kept(lines, skipping) :: !OpensMelra(line) && line in lines
  {
    hide Header, IsMelra;
    if lines != [] {
      KeptOpensNone(lines[1..], Skips(lines[0], skipping));
    }
  }

  lemma {:induction false} KeepsAll(lines: seq<Text>)
    requires forall line <- lines :: !OpensMelra(line)
    ensures Kept(lines, false) == lines && !SkippingAfter(lines, false)
  {
    hide Header, IsMelra;
    if lines != [] {
      assert !OpensMelra(lines[0]);
      KeepsAll(lines[1..]);
    }
  }

  lemma {:induction false} KeptIsShorter(lines: seq<Text>, skipping: bool)
    ensures |Join(Kept(lines, skipping))| <= |Join(lines)|
    ensures lines != [] && SkippingAfter(lines, skipping) && lines[|lines| - 1] != [] ==>
      |Join(Kept(lines, skipping))| < |Join(lines)|
  {
    hide Skips;
    if |lines| == 1 {
      KeptOne(lines[0], skipping);
      assert lines == [lines[0]];
    } else if lines != [] {
      var rest := Kept(lines[1..], Skips(lines[0], skipping));
      KeptIsShorter(lines[1..], Skips(lines[0], skipping));
      JoinFirst(lines[0], rest);
      JoinFirst(lines[0], lines[1..]);
      assert [lines[0]] + lines[1..] == lines;
      assert [] + rest == rest;
    }
  }

  lemma {:induction false} NoneKept(lines: seq<Text>)
    requires forall line <- lines :: Header(line).None?
    ensures Kept(lines, true) == []
  {
    hide Header;
    if lines != [] {
      NoneKept(lines[1..]);
    }
  }

  /** All of MELRA's own tables are taken out. */
  lemma TablesGo(entry: Entry, skipping: bool)
    requires BareKeys(entry.env)
    ensures Kept(TableRows(entry), skipping) == []
  {
    hide Header, Strings.Quote, StrictJson.List, Bracketed, Setting, IsMelra, BareKeys, ValueAfter, Kept;
    var rows := TableRows(entry);
    var first, last := [rows[1], rows[2], rows[3]], EnvRows(entry.env) + [[]];
    NamesAre();
    QuoteShown(entry.command);
    ListShown(entry.args);
    SettingIs(COMMAND, Strings.Quote(entry.command));
    SettingIs(ARGS, StrictJson.List(entry.args));
    EmptyRead(Reading(false, None, []));
    EnvRowsAre(entry.env);
    assert rows == [rows[0]] + (first + ([rows[4]] + last));
    KeptOne(rows[0], skipping);
    KeptOn([rows[0]], first + ([rows[4]] + last), skipping);
    NoneKept(first);
    SkipsOn(first);
    KeptOn(first, [rows[4]] + last, true);
    KeptOne(rows[4], true);
    KeptOn([rows[4]], last, true);
    NoneKept(last);
  }

  lemma {:induction false} SkipsOn(lines: seq<Text>)
    requires forall line <- lines :: Header(line).None?
    ensures SkippingAfter(lines, true)
  {
    hide Header;
    if lines != [] {
      SkipsOn(lines[1..]);
    }
  }

  /** What a second run keeps, `bare` being the lines of what the first one kept. */
  function Again(bare: seq<Text>): Text {
    TrimEnd(Join(Kept(bare, false) + if SkippingAfter(bare, false) then [] else [[]]))
  }

  lemma SecondKeeps(kept: Text, entry: Entry)
    requires BareKeys(entry.env)
    ensures WithoutTables(kept + [LF, LF] + CodexToml(entry)) == Again(BareAll(Split(kept)))
  {
    hide Header, CodexToml, TableRows, BareKeys, Lines, Kept, SkippingAfter;
    var bare := BareAll(Split(kept));
    assert kept + [LF, LF] + CodexToml(entry) == (kept + [LF]) + [LF] + CodexToml(entry);
    LinesBetween(kept + [LF], CodexToml(entry));
    TableRowsAre(entry);
    assert kept + [LF] == kept + [LF] + [];
    SplitBetween(kept, []);
    assert BareAll(Split(kept) + [[]]) == bare + [[]];
    KeptOn(bare + [[]], TableRows(entry), false);
    TablesGo(entry, SkippingAfter(bare + [[]], false));
    KeptOn(bare, [[]], false);
    KeptOne([], SkippingAfter(bare, false));
    EmptyRead(Reading(false, None, []));
    assert Kept(bare + [[]], false) + [] == Kept(bare + [[]], false);
    assert Kept(bare, false) + [] == Kept(bare, false);
  }

  predicate EndsInReturn(row: Text) {
    row != [] && row[|row| - 1] == CR
  }

  lemma CrLfIn(a: Text, b: Text)
    requires HasCrLf(a) || HasCrLf(b) || (EndsInReturn(a) && b != [] && b[0] == LF)
    ensures HasCrLf(a + b)
  {
    if HasCrLf(a) {
      var i :| 0 <= i < |a| - 1 && a[i] == CR && a[i + 1] == LF;
      assert (a + b)[i] == CR && (a + b)[i + 1] == LF;
    } else if HasCrLf(b) {
      var i :| 0 <= i < |b| - 1 && b[i] == CR && b[i + 1] == LF;
      assert (a + b)[|a| + i] == CR && (a + b)[|a| + i + 1] == LF;
    } else {
      assert (a + b)[|a| - 1] == CR && (a + b)[|a| - 1 + 1] == LF;
    }
  }

  lemma CrLfOf(a: Text, b: Text)
    requires HasCrLf(a + b)
    ensures HasCrLf(a) || HasCrLf(b) || (EndsInReturn(a) && b != [] && b[0] == LF)
  {
    var i :| 0 <= i < |a + b| - 1 && (a + b)[i] == CR && (a + b)[i + 1] == LF;
    if i + 1 < |a| {
      assert a[i] == CR && a[i + 1] == LF;
    } else if i >= |a| {
      assert b[i - |a|] == CR && b[i - |a| + 1] == LF;
    }
  }

  lemma ReturnsBetween(row: Text, rest: Text)
    requires LF !in row
    ensures HasCrLf(row + [LF] + rest) <==> EndsInReturn(row) || HasCrLf(rest)
  {
    var end := [LF] + rest;
    assert row + [LF] + rest == row + end;
    if HasCrLf(row + end) {
      CrLfOf(row, end);
      if HasCrLf(end) {
        CrLfOf([LF], rest);
      }
    }
    if HasCrLf(rest) {
      CrLfIn([LF], rest);
    }
    if EndsInReturn(row) || HasCrLf(rest) {
      CrLfIn(row, end);
    }
  }

  /** Making the lines bare shortens the text by a carriage return each; what has none keeps its lines. */
  lemma {:induction false} BareIsShorter(rows: seq<Text>)
    requires rows != [] && (forall row <- rows :: LF !in row) && !EndsInReturn(rows[|rows| - 1])
    ensures |Join(BareAll(rows))| <= |Join(rows)|
    ensures if HasCrLf(Join(rows)) then |Join(BareAll(rows))| < |Join(rows)| else BareAll(rows) == rows
  {
    if |rows| > 1 {
      assert BareAll(rows) == [Bare(rows[0])] + BareAll(rows[1..]);
      JoinFirst(Bare(rows[0]), BareAll(rows[1..]));
      JoinFirst(rows[0], rows[1..]);
      assert [rows[0]] + rows[1..] == rows;
      ReturnsBetween(rows[0], Join(rows[1..]));
      BareIsShorter(rows[1..]);
    } else {
      assert rows == [rows[0]];
    }
  }

  /** None of the lines kept but the last, once trimmed, opens a table of MELRA's. */
  lemma KeptLines(existing: Text)
    ensures var kept := WithoutTables(existing); var rows := Split(kept);
      && !EndsInReturn(rows[|rows| - 1]) && Join(rows) == kept
      && forall row <- rows[..|rows| - 1] :: !OpensMelra(row)
  {
    hide Header, IsMelra, OpensMelra, Split, Lines, Kept, Survivors, Trimmed, IsSpace;
    var lines := Lines(existing);
    assert lines[..|lines|] == lines;
    KeepsTheRest(lines, |lines|);
    KeptRows(existing);
    KeptOpensNone(lines, false);
    var left, others := Kept(lines, false), Others(existing);
    TrimmedAre(left);
    JoinSplit(WithoutTables(existing));
    ReturnIsSpace();
    if others != [] {
      var m := |others| - 1;
      assert forall row <- left[..m] :: row in left;
    }
  }

  lemma ReturnIsSpace()
    ensures IsSpace(CR)
  {
  }

  lemma LinesHaveNoFeeds(text: Text)
    ensures forall line <- Lines(text) :: LF !in line
  {
    var rows := Split(text);
    forall i | 0 <= i < |rows| ensures LF !in Lines(text)[i] {
      assert LF !in rows[i];
    }
  }

  lemma {:induction false} ReturnsInJoin(rows: seq<Text>)
    requires rows != [] && (forall row <- rows :: LF !in row) && !EndsInReturn(rows[|rows| - 1])
    ensures HasCrLf(Join(rows)) <==> exists row <- rows :: EndsInReturn(row)
  {
    hide HasCrLf;
    if |rows| > 1 {
      ReturnsInJoin(rows[1..]);
      ReturnsBetween(rows[0], Join(rows[1..]));
      assert rows == [rows[0]] + rows[1..];
    } else {
      assert rows == [rows[0]];
      NoPair(rows[0]);
    }
  }

  lemma NoPair(row: Text)
    requires LF !in row
    ensures !HasCrLf(row)
  {
  }

  lemma SteadyMeans(existing: Text)
    ensures var kept := WithoutTables(existing); var rows := Split(kept);
      Steady(Others(existing)) <==> !HasCrLf(kept) && !OpensMelra(rows[|rows| - 1])
  {
    hide HasCrLf, Header, IsMelra, Split, Others, EndsInReturn;
    KeptRows(existing);
    KeptLines(existing);
    ReturnsInJoin(Split(WithoutTables(existing)));
    EmptyRead(Reading(false, None, []));
    EmptyStays();
  }

  lemma EmptyStays()
    ensures !EndsInReturn([])
  {
  }

  lemma SteadyStays(existing: Text)
    requires Steady(Others(existing))
    ensures Again(BareAll(Split(WithoutTables(existing)))) == WithoutTables(existing)
  {
    hide Header, IsMelra, OpensMelra, Split, HasCrLf, Lines, Kept, SkippingAfter, Steady, Others;
    var kept := WithoutTables(existing);
    var rows := Split(kept);
    SteadyMeans(existing);
    KeptLines(existing);
    BareIsShorter(rows);
    assert forall row <- rows :: !OpensMelra(row) by {
      assert rows == rows[..|rows| - 1] + [rows[|rows| - 1]];
    }
    KeepsAll(rows);
    JoinBetween(rows, [[]]);
    assert kept + [LF] + [] == kept + [LF];
    TrimEndIs(Join(Kept(Lines(existing), false)));
    TrimEndIs(kept);
  }

  lemma AgainIsShort(bare: seq<Text>)
    ensures |Again(bare)| <= |Join(Kept(bare, false))|
  {
    hide Kept, SkippingAfter;
    var left := Kept(bare, false);
    if SkippingAfter(bare, false) {
      assert left + [] == left;
      TrimEndIs(Join(left));
    } else if left == [] {
      assert left + [[]] == [[]];
    } else {
      JoinBetween(left, [[]]);
      assert Join(left) + [LF] + [] == Join(left) + [LF];
      TrimEndIs(Join(left));
    }
  }

  lemma UnsteadyShrinks(existing: Text)
    requires !Steady(Others(existing))
    ensures |Again(BareAll(Split(WithoutTables(existing))))| < |WithoutTables(existing)|
  {
    hide Header, IsMelra, Split, HasCrLf, WithoutTables, Again, Steady, Others;
    var kept := WithoutTables(existing);
    var rows := Split(kept);
    SteadyMeans(existing);
    KeptLines(existing);
    BareIsShorter(rows);
    AgainIsShort(BareAll(rows));
    KeptIsShorter(BareAll(rows), false);
    if !HasCrLf(kept) {
      var last := rows[|rows| - 1];
      assert rows == rows[..|rows| - 1] + [last];
      KeptOn(rows[..|rows| - 1], [last], false);
      KeptOne(last, SkippingAfter(rows[..|rows| - 1], false));
      EmptyRead(Reading(false, None, []));
    }
  }

  /** A second run is byte for byte the first one exactly when the lines it kept are steady. */
  lemma TwiceExactly(existing: Text, entry: Entry)
    requires BareKeys(entry.env)
    ensures var once := WithTables(existing, entry);
      WithTables(once, entry) == once <==> Steady(Others(existing))
  {
    hide CodexToml, BareKeys, Steady, Again, WithoutTables, Split, Others;
    var kept := WithoutTables(existing);
    KeptRows(existing);
    if kept == [] {
      OnlyTables(entry);
    } else {
      SecondKeeps(kept, entry);
      if Steady(Others(existing)) {
        SteadyStays(existing);
      } else {
        UnsteadyShrinks(existing);
      }
    }
  }

  lemma OnlyTables(entry: Entry)
    requires BareKeys(entry.env)
    ensures Steady([]) && WithoutTables(CodexToml(entry)) == []
  {
    hide CodexToml, TableRows, BareKeys, Lines;
    TableRowsAre(entry);
    TablesGo(entry, false);
    assert Split([]) == [[]];
    EmptyRead(Reading(false, None, []));
  }

  const STRAY: Text := [97, CR, CR, LF, 98]

  lemma StrayLines()
    ensures Lines(STRAY) == [[97, CR], [98]]
  {
    var a, b: Text := [97, CR, CR], [98];
    assert STRAY == a + [LF] + b;
    SplitBetween(a, b);
    SplitRow(a);
    SplitRow(b);
    assert Split(STRAY) == [a, b];
    assert Bare(a) == [97, CR];
  }

  lemma StrayKept()
    ensures WithoutTables(STRAY) == [97, CR, LF, 98]
  {
    hide Lines;
    StrayLines();
    var lines: seq<Text> := [[97, CR], [98]];
    assert Header(lines[0]).None? && Header(lines[1]).None?;
    KeepsAll(lines);
    var first, last: Text := [97, CR], [98];
    JoinFirst(first, [last]);
    assert lines == [first] + [last];
    assert first + [LF] + last == [97, CR, LF, 98];
  }

  /** A line ending in two carriage returns loses one each time. */
  lemma StrayReturn(entry: Entry)
    requires BareKeys(entry.env)
    ensures WithTables(WithTables(STRAY, entry), entry) != WithTables(STRAY, entry)
  {
    hide WithTables, BareKeys, WithoutTables, OpensMelra, Steady, Others;
    StrayKept();
    SteadyMeans(STRAY);
    var kept := WithoutTables(STRAY);
    assert kept[1] == CR && kept[1 + 1] == LF;
    TwiceExactly(STRAY, entry);
  }
}
