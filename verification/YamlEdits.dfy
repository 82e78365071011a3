/** Which YAML files an edit takes, line by line, and which it refuses. */
module YamlEdits {
  import opened Units
  import opened Rows
  import opened Unions
  import opened Editor
  import Toml
  import opened Yaml
  import opened YamlProofs
  import opened YamlNames
  import opened YamlFiles

  // ----- What the rows of lines are taken for -----

  /** Rows that hold these lines. */
  ghost predicate AreRows(rows: seq<Text>, lines: seq<Line>) {
    |rows| == |lines| && forall i :: 0 <= i < |rows| ==> IsPlainLine(lines[i]) && Bare(rows[i]) == LineText(lines[i])
  }

  predicate IsTitle(line: Line, map_: Text) {
    line.Pair? && line.indent == 0 && line.word == map_
  }

  lemma RowIs(row: Text, line: Line, key: Text)
    requires IsPlainLine(line) && Bare(row) == LineText(line) && IsWord(key)
    ensures IsChildRow(row) <==> !line.Remark?
    ensures IsChildRow(row) ==>
      && Indent(Bare(row)) == line.indent && (TabIndented(Bare(row)) <==> line.Tabbed?)
      && (IsKey(Bare(row)) <==> line.Pair?) && (Yaml.IsItem(Bare(row)) <==> line.Item?)
    ensures IsTopRow(row) <==> !line.Remark? && line.indent == 0
    ensures Heads(key, Bare(row)) <==> IsTitle(line, key)
  {
    hide Content, Indent, TabIndented, IsKey, Yaml.IsItem, LineText, IsPlainLine, Named;
    LineIs(line);
    if line.Remark? {
      RemarkNamesNothing(line, key);
    } else {
      FreeSets(line, 0, key);
    }
  }

  lemma RemarkNamesNothing(line: Line, key: Text)
    requires line.Remark? && IsPlainLine(line) && IsWord(key)
    ensures !Heads(key, LineText(line))
  {
    var tail := match line.comment case None => [] case Some(words) => [HASH] + words;
    SpacesStripped(line.spaces, tail);
    WordUnits(key);
    if tail != [] {
      assert tail[0] == HASH;
    }
  }

  // ----- A title -----

  /** Nothing but a comment, which a space sets off, stands behind the colon. */
  ghost predicate Opens(rest: Text) {
    exists end :: IsEnd(end) && rest == EndText(end)
  }

  lemma TitleOpens(line: Line)
    requires line.Pair? && IsPlainLine(line)
    ensures OpensBlock(LineText(line)) <==> Opens(line.rest)
  {
    hide StripSpaces, LineText, EndText, IsEnd;
    PairAfter(line);
    RestSetOff(line);
    if Opens(line.rest) {
      var end :| IsEnd(end) && line.rest == EndText(end);
      EndIsNothing(end);
    }
    var left := StripSpaces(line.rest);
    if left == [] || (left[0] == HASH && Toml.NoBreaks(left[1..])) {
      var end := EndOf(line.rest);
    }
  }

  lemma RestSetOff(line: Line)
    requires line.Pair? && IsPlainLine(line)
    ensures line.rest != [] ==> line.rest[0] == SPACE
  {
  }

  lemma EndIsNothing(end: End)
    requires IsEnd(end)
    ensures var rest := StripSpaces(EndText(end)); rest == [] || (rest[0] == HASH && Toml.NoBreaks(rest[1..]))
  {
    var tail := match end.comment case None => [] case Some(words) => [HASH] + words;
    SpacesStripped(end.spaces, tail);
    if end.comment.Some? {
      assert tail[1..] == end.comment.value;
    }
  }

  lemma {:induction false} SpacesThen(s: Text) returns (n: nat)
    ensures s == Spaces(n) + StripSpaces(s)
    ensures n == 0 ==> StripSpaces(s) == s
  {
    if s != [] && s[0] == SPACE {
      var m := SpacesThen(s[1..]);
      n := m + 1;
      assert s == [SPACE] + s[1..] && Spaces(n) == [SPACE] + Spaces(m);
    } else {
      n := 0;
      assert Spaces(0) + s == s;
    }
  }

  lemma EndOf(rest: Text) returns (end: End)
    requires rest != [] ==> rest[0] == SPACE
    requires var left := StripSpaces(rest); left == [] || (left[0] == HASH && Toml.NoBreaks(left[1..]))
    ensures IsEnd(end) && rest == EndText(end)
  {
    var n := SpacesThen(rest);
    var left := StripSpaces(rest);
    if left == [] {
      end := End(n, None);
    } else {
      end := End(n, Some(left[1..]));
      assert left == [HASH] + left[1..];
    }
  }

  // ----- What an edit takes -----

  /** Line `k` belongs to the block below line `i`: there is something on it, and nothing in the first column since. */
  predicate InBlock(lines: seq<Line>, i: int, k: int) {
    0 <= i < k < |lines| && !lines[k].Remark? && forall m :: i < m <= k && !lines[m].Remark? ==> lines[m].indent > 0
  }

  /** A block's lines are no less deep than its first one, and those as deep are pairs, or items behind the first. */
  ghost predicate EvenBelow(lines: seq<Line>, i: nat) {
    forall j, k :: InBlock(lines, i, j) && InBlock(lines, i, k) && j <= k && (forall m :: i < m < j ==> lines[m].Remark?) ==>
      lines[k].indent >= lines[j].indent && (lines[k].indent == lines[j].indent ==> lines[k].Pair? || (lines[k].Item? && j < k))
  }

  /** No tab indents a line; only pairs stand in the first column; and the map, if there, is there once, with a block of even lines below it. */
  ghost predicate Acceptable(lines: seq<Line>, map_: Text) {
    && (forall i :: 0 <= i < |lines| ==> FitsColumn(lines[i]))
    && (forall i, j :: 0 <= i < j < |lines| && IsTitle(lines[i], map_) ==> !IsTitle(lines[j], map_))
    && forall i :: 0 <= i < |lines| && IsTitle(lines[i], map_) ==> Opens(lines[i].rest) && EvenBelow(lines, i)
  }

  predicate FitsColumn(line: Line) {
    line.Remark? || (!line.Tabbed? && (line.indent == 0 ==> line.Pair?))
  }

  lemma MappingIs(rows: seq<Text>, lines: seq<Line>)
    requires AreRows(rows, lines)
    ensures PlainMapping(rows) <==> forall i :: 0 <= i < |lines| ==> FitsColumn(lines[i])
  {
    hide Content, Indent, TabIndented, IsKey, LineText, IsPlainLine, Bare, Heads, IsChildRow;
    AnyIsWord();
    forall i | 0 <= i < |rows|
      ensures (IsChildRow(rows[i]) ==> !TabIndented(Bare(rows[i])) && (IsTop(Bare(rows[i])) ==> IsKey(Bare(rows[i]))))
        <==> FitsColumn(lines[i])
    {
      RowIs(rows[i], lines[i], ANY);
    }
  }

  /** The first title, and whether it is the only one. */
  lemma HeaderIs(map_: Text, rows: seq<Text>, lines: seq<Line>)
    requires AreRows(rows, lines) && IsWord(map_)
    ensures var b := Header(map_, rows);
      && (forall i :: 0 <= i < b ==> !IsTitle(lines[i], map_))
      && (b < |rows| ==> IsTitle(lines[b], map_))
      && (b < |rows| ==> (Header(map_, rows[b + 1..]) == |rows| - b - 1 <==> forall j :: b < j < |lines| ==> !IsTitle(lines[j], map_)))
  {
    hide Content, Indent, TabIndented, IsKey, LineText, IsPlainLine, Bare, Heads, IsTitle, Header;
    forall i | 0 <= i < |rows| ensures Heads(map_, Bare(rows[i])) <==> IsTitle(lines[i], map_) {
      RowIs(rows[i], lines[i], map_);
    }
    var b := Header(map_, rows);
    RowsHeads(map_, rows);
    if b < |rows| {
      var rest := rows[b + 1..];
      RowsHeads(map_, rest);
      assert forall i :: 0 <= i < |rest| ==> rest[i] == rows[b + 1 + i];
      if Header(map_, rest) == |rest| {
        forall j | b < j < |lines| ensures !IsTitle(lines[j], map_) {
          assert rest[j - b - 1] == rows[j];
        }
      }
    }
  }

  /** The rows an edit takes for the block below row `b` hold what belongs to it, and remarks. */
  lemma BlockIs(rows: seq<Text>, lines: seq<Line>, b: nat)
    requires AreRows(rows, lines) && b < |rows|
    ensures var n := BlockRows(rows[b + 1..]);
      forall k :: InBlock(lines, b, k) <==> b < k <= b + n && IsChildRow(rows[k])
  {
    hide Content, Indent, TabIndented, IsKey, LineText, IsPlainLine, Bare, Heads, BlockRows, IsChildRow, IsTopRow, Yaml.IsItem;
    var rest := rows[b + 1..];
    var n := BlockRows(rest);
    BlockRowsAre(rest);
    AnyIsWord();
    assert forall k :: 0 <= k < |rest| ==> rest[k] == rows[b + 1 + k];
    forall k | 0 <= k < |rows|
      ensures IsChildRow(rows[k]) <==> !lines[k].Remark?
      ensures IsTopRow(rows[k]) <==> !lines[k].Remark? && lines[k].indent == 0
    {
      RowIs(rows[k], lines[k], ANY);
    }
    forall k | b < k <= b + n ensures !IsTopRow(rows[k]) {
      assert rest[k - b - 1] == rows[k];
    }
    if n < |rest| {
      assert IsTopRow(rows[b + 1 + n]);
    }
  }

  lemma {:induction false} FirstChildIs(block: seq<Text>, i: nat) returns (f: nat)
    requires i < |block| && IsChildRow(block[i])
    ensures f <= i && IsChildRow(block[f]) && ChildIndent(block) == Indent(Bare(block[f]))
    ensures forall m :: 0 <= m < f ==> !IsChildRow(block[m])
    decreases i
  {
    hide Content, Indent, Bare;
    if IsChildRow(block[0]) {
      f := 0;
    } else {
      f := FirstChildIs(block[1..], i - 1);
      f := f + 1;
      assert forall m :: 0 < m < f ==> block[m] == block[1..][m - 1];
    }
  }

  /** What one line of a block is judged by, in terms of its row. */
  predicate FitsRow(indent: int, block: seq<Text>, i: nat)
    requires i < |block|
  {
    var text := Bare(block[i]);
    && Indent(text) >= indent
    && (Indent(text) == indent ==> IsKey(text) || (Yaml.IsItem(text) && exists j :: 0 <= j < i && IsChildRow(block[j])))
  }

  predicate FitsBlock(lines: seq<Line>, j: nat, k: nat)
    requires j <= k < |lines| && !lines[j].Remark? && !lines[k].Remark?
  {
    lines[k].indent >= lines[j].indent && (lines[k].indent == lines[j].indent ==> lines[k].Pair? || (lines[k].Item? && j < k))
  }

  /** A line of a block, judged by its row or against the block's first one. */
  lemma FitsTheSame(rows: seq<Text>, lines: seq<Line>, b: nat, n: nat, j: nat, k: nat)
    requires AreRows(rows, lines) && b < j <= k <= b + n < |rows| && IsChildRow(rows[j]) && IsChildRow(rows[k])
    requires forall m :: b < m < j ==> !IsChildRow(rows[m])
    ensures !lines[j].Remark? && !lines[k].Remark?
    ensures FitsRow(Indent(Bare(rows[j])), rows[b + 1..][..n], k - b - 1) <==> FitsBlock(lines, j, k)
  {
    hide Content, Indent, TabIndented, IsKey, LineText, IsPlainLine, Bare, Heads, IsChildRow, Yaml.IsItem;
    var block := rows[b + 1..][..n];
    AnyIsWord();
    RowIs(rows[j], lines[j], ANY);
    RowIs(rows[k], lines[k], ANY);
    assert forall m :: 0 <= m < n ==> block[m] == rows[b + 1 + m];
    if j < k {
      assert IsChildRow(block[j - b - 1]);
    }
  }

  lemma FitsEach(indent: int, block: seq<Text>)
    ensures EvenBlock(indent, block) <==> forall i :: 0 <= i < |block| && IsChildRow(block[i]) ==> FitsRow(indent, block, i)
  {
    hide Indent, IsChildRow, Bare, IsKey, Yaml.IsItem;
  }

  /** Below a title whose first line of a block is `j`, all are measured against that one. */
  lemma BelowFirst(lines: seq<Line>, b: nat, j: nat)
    requires InBlock(lines, b, j) && forall m :: b < m < j ==> lines[m].Remark?
    ensures forall k :: InBlock(lines, b, k) ==> j <= k < |lines| && !lines[j].Remark? && !lines[k].Remark?
    ensures EvenBelow(lines, b) <==> forall k :: InBlock(lines, b, k) ==> FitsBlock(lines, j, k)
  {
  }

  lemma NoneBelow(lines: seq<Line>, b: nat)
    requires forall k :: !InBlock(lines, b, k)
    ensures EvenBelow(lines, b)
  {
  }

  lemma EvenIs(rows: seq<Text>, lines: seq<Line>, b: nat)
    requires AreRows(rows, lines) && b < |rows|
    ensures var block := rows[b + 1..][..BlockRows(rows[b + 1..])]; EvenBlock(ChildIndent(block), block) <==> EvenBelow(lines, b)
  {
    hide Content, Indent, TabIndented, IsKey, LineText, IsPlainLine, Bare, Heads, BlockRows, ChildIndent, IsChildRow, Yaml.IsItem, InBlock, FitsRow, FitsBlock, EvenBlock, EvenBelow, AreRows;
    var n := BlockRows(rows[b + 1..]);
    var block := rows[b + 1..][..n];
    assert |rows| == |lines| by { SameCount(rows, lines); }
    BlockIs(rows, lines, b);
    assert forall m :: 0 <= m < n ==> block[m] == rows[b + 1 + m];
    FitsEach(ChildIndent(block), block);
    if i :| 0 <= i < n && IsChildRow(block[i]) {
      var f := FirstChildIs(block, i);
      var j := b + 1 + f;
      FirstRemarks(rows, lines, b, n, j);
      BelowFirst(lines, b, j);
      forall k | InBlock(lines, b, k)
        ensures j <= k < |lines| && !lines[j].Remark? && !lines[k].Remark?
        ensures IsChildRow(block[k - b - 1]) && (FitsRow(ChildIndent(block), block, k - b - 1) <==> FitsBlock(lines, j, k))
      {
        FitsTheSame(rows, lines, b, n, j, k);
      }
      forall i | 0 <= i < n && IsChildRow(block[i]) ensures InBlock(lines, b, b + 1 + i) {
      }
    } else {
      forall m | b < m <= b + n ensures !IsChildRow(rows[m]) {
        assert block[m - b - 1] == rows[m];
      }
      NoneBelow(lines, b);
    }
  }

  lemma SameCount(rows: seq<Text>, lines: seq<Line>)
    requires AreRows(rows, lines)
    ensures |rows| == |lines|
  {
  }

  /** Before the first line of a block there are remarks. */
  lemma FirstRemarks(rows: seq<Text>, lines: seq<Line>, b: nat, n: nat, j: nat)
    requires AreRows(rows, lines) && b < j <= b + n < |rows|
    requires forall m :: b < m < j ==> !IsChildRow(rows[m])
    ensures forall m :: b < m < j ==> lines[m].Remark?
  {
    hide Content, Indent, TabIndented, IsKey, LineText, IsPlainLine, Bare, Heads, IsChildRow, Yaml.IsItem;
    AnyIsWord();
    forall m | b < m < j ensures lines[m].Remark? {
      RowIs(rows[m], lines[m], ANY);
    }
  }

  // ----- The whole file -----

  /** An edit of rows goes through exactly when what it refuses is not there. */
  lemma EditRowsOk(rows: seq<Text>, map_: Text, key: Text, entry: seq<Text>, cr: Text)
    requires (forall line <- entry :: |line| >= 2) && Header(map_, rows) < |rows|
    ensures var b := Header(map_, rows); var block := rows[b + 1..][..BlockRows(rows[b + 1..])];
      EditRows(rows, map_, key, entry, cr).Ok? <==>
        Header(map_, rows[b + 1..]) == |rows| - b - 1 && OpensBlock(Bare(rows[b])) && EvenBlock(ChildIndent(block), block)
  {
    hide Bare, Header, OpensBlock, EvenBlock, BlockRows, ChildIndent, Out, EditedBlock;
  }

  lemma AcceptsRows(rows: seq<Text>, lines: seq<Line>, map_: Text, key: Text, entry: seq<Text>, cr: Text)
    requires AreRows(rows, lines) && IsWord(map_) && forall line <- entry :: |line| >= 2
    ensures Acceptable(lines, map_) <==>
      PlainMapping(rows) && (Header(map_, rows) == |rows| || EditRows(rows, map_, key, entry, cr).Ok?)
  {
    hide LineText, IsPlainLine, Bare, Header, PlainMapping, EditRows, OpensBlock, EvenBlock, EvenBelow, BlockRows, ChildIndent, Opens, FitsColumn, IsTitle, IsWord;
    MappingIs(rows, lines);
    HeaderIs(map_, rows, lines);
    var b := Header(map_, rows);
    if b < |rows| {
      EditRowsOk(rows, map_, key, entry, cr);
      assert IsTitle(lines[b], map_);
      TitleIsPair(lines[b], map_);
      TitleOpens(lines[b]);
      EvenIs(rows, lines, b);
    }
  }

  lemma TitleIsPair(line: Line, map_: Text)
    requires IsTitle(line, map_)
    ensures line.Pair?
  {
  }

  lemma RowsOf(lines: seq<Line>, crlf: bool)
    requires lines != [] && ArePlain(lines)
    ensures AreRows(Split(FileOf(Texts(lines), crlf)), lines)
  {
    hide FileOf, Split, LineText, IsPlainLine, Bare, IsLine;
    LinesPlain(lines);
    FileRows(Texts(lines), crlf);
  }

  lemma LinesPlain(lines: seq<Line>)
    requires ArePlain(lines)
    ensures forall text <- Texts(lines) :: IsLine(text) && Bare(text) == text
  {
    hide IsPlainLine, LineText, IsLine, Bare;
    forall text <- Texts(lines) ensures IsLine(text) && Bare(text) == text {
      var i :| 0 <= i < |lines| && text == LineText(lines[i]);
      LineIs(lines[i]);
    }
  }

  /** An edit of a file of such lines goes through exactly when they are acceptable, whatever the entry. */
  lemma AcceptsExactly(lines: seq<Line>, map_: Text, crlf: bool, key: Text, entry: seq<Text>)
    requires lines != [] && ArePlain(lines) && IsWord(map_) && forall line <- entry :: |line| >= 2
    ensures WithEntry(FileOf(Texts(lines), crlf), map_, key, entry).Ok? <==> Acceptable(lines, map_)
  {
    hide FileOf, Split, LineText, IsPlainLine, Bare, Header, EditRows, PlainMapping, Join, Out, HasCrLf, Acceptable, AreRows;
    var text := FileOf(Texts(lines), crlf);
    RowsOf(lines, crlf);
    AcceptsRows(Split(text), lines, map_, key, entry, if HasCrLf(text) then [CR] else []);
  }

  // ----- A page is acceptable -----

  lemma {:induction false} EvenAt(lines: seq<Line>, indent: nat, started: bool, i: nat)
    requires Even(lines, indent, started) && i < |lines| && !lines[i].Remark?
    ensures lines[i].indent >= indent && !lines[i].Tabbed?
    ensures lines[i].indent == indent ==> lines[i].Pair? || (lines[i].Item? && (started || exists j :: 0 <= j < i && !lines[j].Remark?))
    ensures !started && (forall j :: 0 <= j < i ==> lines[j].Remark?) ==> lines[i].indent == indent
    decreases i
  {
    if i > 0 {
      var rest := lines[1..];
      EvenAt(rest, indent, started || !lines[0].Remark?, i - 1);
      if j :| 0 <= j < i - 1 && !rest[j].Remark? {
        assert !lines[j + 1].Remark?;
      }
      assert (forall j :: 0 <= j < i ==> lines[j].Remark?) ==> forall j :: 0 <= j < i - 1 ==> rest[j] == lines[j + 1];
    }
  }

  /** The first line of those after a block that has something on it. */
  lemma {:induction false} FirstFilled(lines: seq<Line>, i: nat) returns (first: nat)
    requires i < |lines| && !lines[i].Remark?
    ensures first <= i && Filled(lines) != [] && lines[first] == Filled(lines)[0] && !lines[first].Remark?
    decreases i
  {
    if lines[0].Remark? {
      first := FirstFilled(lines[1..], i - 1);
      first := first + 1;
    } else {
      first := 0;
    }
  }

  /** What a line of a page is, by where it stands. */
  lemma LineOf(page: Page, map_: Text, indent: nat, i: nat)
    requires IsPage(page, map_, indent) && i < |PageLines(page, map_)|
    ensures var line, b := PageLines(page, map_)[i], |page.before|;
      FitsColumn(line) && (IsTitle(line, map_) <==> i == b) && (i == b ==> line == Title(page, map_))
  {
    hide IsPlainLine, Even, Resumes, IsEnd, IsWord;
    var line, b := PageLines(page, map_)[i], |page.before|;
    if i < b {
      assert line == page.before[i];
    } else if b < i <= b + |page.block| {
      assert line == page.block[i - b - 1];
      if !line.Remark? {
        EvenAt(page.block, indent, false, i - b - 1);
      }
    } else if i > b {
      assert line == page.after[i - b - 1 - |page.block|];
    }
  }

  lemma BelowTitle(page: Page, map_: Text, indent: nat, k: nat)
    requires IsPage(page, map_, indent) && InBlock(PageLines(page, map_), |page.before|, k)
    ensures var b := |page.before|; k <= b + |page.block| && PageLines(page, map_)[k] == page.block[k - b - 1]
  {
    hide IsPlainLine, Even, IsEnd, IsWord, Beside, Resumes;
    var b := |page.before|;
    if k > b + |page.block| {
      var first := ResumesBefore(page, map_, indent, k);
    }
  }

  /** Behind a block, what comes first stands in the first column. */
  lemma ResumesBefore(page: Page, map_: Text, indent: nat, k: nat) returns (first: nat)
    requires IsPage(page, map_, indent)
    requires var lines := PageLines(page, map_); |page.before| + |page.block| < k < |lines| && !lines[k].Remark?
    ensures |page.before| < first <= k
    ensures var line := PageLines(page, map_)[first]; !line.Remark? && line.indent == 0
  {
    hide IsPlainLine, Even, IsEnd, IsWord, Beside, Filled;
    var a, lines := |page.before| + 1 + |page.block|, PageLines(page, map_);
    assert lines[k] == page.after[k - a];
    var i := FirstFilled(page.after, k - a);
    first := a + i;
    assert lines[first] == page.after[i];
  }

  lemma PageIsEven(page: Page, map_: Text, indent: nat)
    requires IsPage(page, map_, indent)
    ensures EvenBelow(PageLines(page, map_), |page.before|)
  {
    hide IsPage, Even, PageLines;
    var b, lines := |page.before|, PageLines(page, map_);
    assert Even(page.block, indent, false) by { BlockEven(page, map_, indent); }
    forall j, k | InBlock(lines, b, j) && InBlock(lines, b, k) && j <= k && (forall m :: b < m < j ==> lines[m].Remark?)
      ensures !lines[j].Remark? && !lines[k].Remark? && FitsBlock(lines, j, k)
    {
      IsInBlock(lines, b, j);
      IsInBlock(lines, b, k);
      BelowTitle(page, map_, indent, j);
      BelowTitle(page, map_, indent, k);
      BlockRemarks(page, map_, indent, j);
      EvenAt(page.block, indent, false, j - b - 1);
      EvenAt(page.block, indent, false, k - b - 1);
      if i :| 0 <= i < k - b - 1 && !page.block[i].Remark? {
        assert !(forall i :: 0 <= i < k - b - 1 ==> page.block[i].Remark?);
      }
    }
  }

  lemma IsInBlock(lines: seq<Line>, b: nat, k: nat)
    requires InBlock(lines, b, k)
    ensures b < k < |lines| && !lines[k].Remark?
  {
  }

  lemma BlockEven(page: Page, map_: Text, indent: nat)
    requires IsPage(page, map_, indent)
    ensures Even(page.block, indent, false)
  {
  }

  lemma BlockRemarks(page: Page, map_: Text, indent: nat, j: nat)
    requires |page.before| < j <= |page.before| + |page.block| && j < |PageLines(page, map_)|
    requires forall m :: |page.before| < m < j ==> PageLines(page, map_)[m].Remark?
    ensures forall i :: 0 <= i < j - |page.before| - 1 ==> page.block[i].Remark?
  {
    forall i | 0 <= i < j - |page.before| - 1 ensures page.block[i].Remark? {
      assert PageLines(page, map_)[|page.before| + 1 + i] == page.block[i];
    }
  }

  lemma PageAcceptable(page: Page, map_: Text, indent: nat)
    requires IsPage(page, map_, indent)
    ensures IsWord(map_) && Acceptable(PageLines(page, map_), map_)
  {
    hide IsPlainLine, Even, Resumes, IsWord, EvenBelow, FitsColumn, IsTitle, PageLines, Beside, EndText, IsEnd;
    forall i | 0 <= i < |PageLines(page, map_)|
      ensures var line, b := PageLines(page, map_)[i], |page.before|;
        FitsColumn(line) && (IsTitle(line, map_) <==> i == b) && (i == b ==> line == Title(page, map_))
    {
      LineOf(page, map_, indent, i);
    }
    PageIsEven(page, map_, indent);
    assert Opens(Title(page, map_).rest);
  }

  // ----- A union -----

  /** A union with a list that is there goes through, keeps what is listed in its order, and adds what was missing behind it. */
  lemma UnionAdds(page: Page, map_: Text, indent: nat, crlf: bool, key: Text, inside: seq<Line>, quote: Option<Unit>, gap: nat, written: Written, more: seq<Line>, names: seq<Text>)
    requires IsPage(page, map_, indent) && IsWord(key)
    requires page.block == BlockWith(inside, EntryLine(key, indent, quote, gap, written), written, more)
    requires IsWritten(written, indent) && Free(inside, indent, key) && Free(more, indent, key) && Resumes(more, indent)
    requires IsPlainLine(EntryLine(key, indent, quote, gap, written)) && ArePlain(inside) && ArePlain(more) && Even(inside, indent, false)
    requires AllNameable(WrittenNames(written) + Missing(names, WrittenNames(written)))
    ensures var listed := WrittenNames(written); var next := WithListUnion(FileOf(Texts(PageLines(page, map_)), crlf), map_, key, names);
      && next.Ok?
      && YamlProofs.Listed(next.value, map_, key) == listed + Missing(names, listed)
  {
    hide IsPage, IsPlainLine, Even, FileOf, List, IsWritten, WrittenNames, IsWord, Free, Resumes, AllNameable, Missing, WithEntry, ListEntry, PageLines, Texts, EntryLine, BlockWith, Acceptable, ArePlain;
    ListIsRead(page, map_, indent, crlf, key, inside, quote, gap, written, more);
    var text, listed := FileOf(Texts(PageLines(page, map_)), crlf), WrittenNames(written);
    AllPlain(page, map_, indent);
    PageAcceptable(page, map_, indent);
    AcceptsExactly(PageLines(page, map_), map_, crlf, key, ListEntry(key, listed + Missing(names, listed)));
    UnionReadsBack(text, map_, key, names);
  }

  // ----- Lists that are not there, or there twice -----

  lemma FileListed(lines: seq<Line>, map_: Text, crlf: bool, key: Text)
    requires lines != [] && ArePlain(lines)
    ensures List(FileOf(Texts(lines), crlf), map_, key) == ListOf(Texts(Filled(lines)), map_, key)
  {
    hide FileOf, Split, LineText, IsPlainLine, Bare, IsLine, ListOf, Contents, Filled;
    LinesPlain(lines);
    FileRows(Texts(lines), crlf);
    ContentsSame(Split(FileOf(Texts(lines), crlf)), Texts(lines));
    ContentsFilled(lines);
  }

  lemma {:induction false} HeadingFound(map_: Text, texts: seq<Text>, i: nat)
    requires i < |texts| && Heads(map_, texts[i])
    ensures Heading(map_, texts) < |texts|
  {
    if !Heads(map_, texts[0]) {
      HeadingFound(map_, texts[1..], i - 1);
    }
  }

  /** Without a title there is no list. */
  lemma NoTitle(lines: seq<Line>, map_: Text, crlf: bool, key: Text)
    requires lines != [] && ArePlain(lines) && Free(lines, 0, map_) && IsWord(map_)
    ensures List(FileOf(Texts(lines), crlf), map_, key) == Ok(None)
  {
    hide FileOf, LineText, IsPlainLine, Heads, Heading, NamesOf, IsWord, Filled, Free;
    FileListed(lines, map_, crlf, key);
    FreeTexts(lines, 0, map_);
    var texts := Texts(Filled(lines));
    HeadingOn(map_, texts, []);
    NoHeading(map_);
    assert texts + [] == texts;
  }

  lemma NoHeading(map_: Text)
    ensures Heading(map_, []) == 0
  {
  }

  /** With two titles it is refused. */
  lemma TwoTitles(a: seq<Line>, title: Line, b: seq<Line>, again: Line, c: seq<Line>, map_: Text, crlf: bool, key: Text)
    requires ArePlain(a) && ArePlain(b) && ArePlain(c) && IsPlainLine(title) && IsPlainLine(again) && IsWord(map_)
    requires IsTitle(title, map_) && IsTitle(again, map_) && Free(a, 0, map_)
    ensures List(FileOf(Texts(a + [title] + (b + [again] + c)), crlf), map_, key) == Refused
  {
    hide FileOf, LineText, IsPlainLine, Heads, Heading, NamesOf, IsWord, Filled, Free, Texts;
    var rest := b + [again] + c;
    FileListed(a + [title] + rest, map_, crlf, key);
    FilledParts(a, title, rest);
    FilledParts(b, again, c);
    FreeTexts(a, 0, map_);
    FreeSets(title, 0, map_);
    FreeSets(again, 0, map_);
    var before, texts := Texts(Filled(a)), Texts(Filled(rest));
    assert texts[|Texts(Filled(b))|] == LineText(again);
    HeadingFound(map_, texts, |Texts(Filled(b))|);
    HeadingOn(map_, before, [LineText(title)] + texts);
    FirstHeads(map_, LineText(title), texts);
    assert before + [LineText(title)] + texts == before + ([LineText(title)] + texts);
    assert (before + [LineText(title)] + texts)[|before| + 1..] == texts;
  }

  lemma FirstHeads(map_: Text, text: Text, rest: seq<Text>)
    requires Heads(map_, text)
    ensures Heading(map_, [text] + rest) == 0
  {
  }

  lemma FilledParts(a: seq<Line>, line: Line, b: seq<Line>)
    requires !line.Remark?
    ensures Texts(Filled(a + [line] + b)) == Texts(Filled(a)) + [LineText(line)] + Texts(Filled(b))
  {
    hide Filled, LineText;
    FilledOn(a + [line], b);
    FilledOn(a, [line]);
    FilledOne(line);
    TextsOn(Filled(a) + [line], Filled(b));
    TextsOn(Filled(a), [line]);
    assert Texts([line]) == [LineText(line)];
  }

  /** A block that does not set the key lists nothing. */
  lemma NoKey(page: Page, map_: Text, indent: nat, crlf: bool, key: Text)
    requires IsPage(page, map_, indent) && IsWord(key) && Free(page.block, indent, key)
    ensures List(FileOf(Texts(PageLines(page, map_)), crlf), map_, key) == Ok(None)
  {
    hide IsPlainLine, LineText, Filled, Even, FileOf, List, IsWord, Sets, Setting, Indent, Beside, Resumes, IsEnd, PageLines, Texts, Free, Content, IsKey, Yaml.IsItem, TabIndented;
    FileReads(page, map_, indent, crlf, key);
    FreeTexts(page.block, indent, key);
    var block := Texts(Filled(page.block));
    FirstIndent(page.block, indent);
    SettingOn(key, indent, block, []);
    NoSetting(key, indent);
    assert block + [] == block;
  }

  lemma NoSetting(key: Text, indent: int)
    ensures Setting(key, indent, []) == 0
  {
  }

  lemma FirstIndent(lines: seq<Line>, indent: nat)
    requires ArePlain(lines) && Even(lines, indent, false)
    ensures var texts := Texts(Filled(lines)); texts != [] ==> Indent(texts[0]) == indent
  {
    hide IsPlainLine, LineText, Filled, Even, Indent, Content, IsKey, Yaml.IsItem, TabIndented;
    FilledAre(lines);
    EvenFilled(lines, indent, false);
    if Filled(lines) != [] {
      LineIs(Filled(lines)[0]);
    }
  }

  lemma {:induction false} SettingFound(key: Text, indent: int, block: seq<Text>, i: nat)
    requires i < |block| && Sets(key, indent, block[i])
    ensures Setting(key, indent, block) < |block|
  {
    if !Sets(key, indent, block[0]) {
      SettingFound(key, indent, block[1..], i - 1);
    }
  }

  /** A block that sets it twice is refused. */
  lemma KeyTwice(page: Page, map_: Text, indent: nat, crlf: bool, key: Text, a: seq<Line>, entry: Line, b: seq<Line>, again: Line, c: seq<Line>)
    requires IsPage(page, map_, indent) && IsWord(key) && page.block == a + [entry] + (b + [again] + c) && Free(a, indent, key)
    requires entry.Pair? && entry.indent == indent && entry.word == key && again.Pair? && again.indent == indent && again.word == key
    ensures List(FileOf(Texts(PageLines(page, map_)), crlf), map_, key) == Refused
  {
    hide IsPlainLine, LineText, Filled, Even, FileOf, List, IsWord, Sets, Setting, Indent, Beside, Resumes, IsEnd, PageLines, Texts, Free, FlowNames, Items, StripComment, Trim, After;
    var rest := b + [again] + c;
    FileReads(page, map_, indent, crlf, key);
    PartsPlain(page.block, a, entry, b, again, c);
    FilledParts(a, entry, rest);
    FilledParts(b, again, c);
    FreeTexts(a, indent, key);
    FreeSets(entry, indent, key);
    FreeSets(again, indent, key);
    FirstIndent(page.block, indent);
    var before, texts := Texts(Filled(a)), Texts(Filled(rest));
    assert texts[|Texts(Filled(b))|] == LineText(again);
    SettingFound(key, indent, texts, |Texts(Filled(b))|);
    SettingOn(key, indent, before, [LineText(entry)] + texts);
    SettingHere(key, indent, LineText(entry), texts);
    assert before + [LineText(entry)] + texts == before + ([LineText(entry)] + texts);
    assert (before + [LineText(entry)] + texts)[|before| + 1..] == texts;
  }

  lemma PartsPlain(block: seq<Line>, a: seq<Line>, entry: Line, b: seq<Line>, again: Line, c: seq<Line>)
    requires ArePlain(block) && block == a + [entry] + (b + [again] + c)
    ensures ArePlain(a) && IsPlainLine(entry) && IsPlainLine(again)
  {
    hide IsPlainLine;
    assert forall i :: 0 <= i < |a| ==> a[i] == block[i];
    assert entry == block[|a|] && again == block[|a| + 1 + |b|];
  }
}
