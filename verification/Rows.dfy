/** Text as lines, for the editors that work line by line. */
module Rows {
  import opened Units

  /** `split("\n")`: the lines of a text, one at least. */
  function Split(text: Text): (rows: seq<Text>)
    ensures rows != [] && forall row <- rows :: LF !in row
  {
    if text == [] then [[]]
    else
      var rest := Split(text[1..]);
      if text[0] == LF then [[]] + rest else [[text[0]] + rest[0]] + rest[1..]
  }

  function Join(rows: seq<Text>): Text {
    if rows == [] then []
    else if |rows| == 1 then rows[0]
    else rows[0] + [LF] + Join(rows[1..])
  }

  /** `replace(/\r$/, "")` of a line. */
  function Bare(row: Text): Text {
    if row != [] && row[|row| - 1] == CR then row[..|row| - 1] else row
  }

  lemma JoinFirst(row: Text, rows: seq<Text>)
    ensures Join([row] + rows) == if rows == [] then row else row + [LF] + Join(rows)
  {
    assert ([row] + rows)[1..] == rows;
  }

  /** A unit before the first line. */
  lemma JoinUnit(u: Unit, rows: seq<Text>)
    requires rows != []
    ensures Join([[u] + rows[0]] + rows[1..]) == [u] + Join(rows)
  {
    hide Join;
    var rest := rows[1..];
    JoinFirst([u] + rows[0], rest);
    JoinFirst(rows[0], rest);
    assert [rows[0]] + rest == rows;
    if rest != [] {
      UnitFirst(u, rows[0], Join(rest));
    }
  }

  lemma UnitFirst(u: Unit, row: Text, rest: Text)
    ensures [u] + row + [LF] + rest == [u] + (row + [LF] + rest)
  {
  }

  lemma JoinNothing()
    ensures Join([[]]) == []
  {
  }

  lemma {:induction false} JoinSplit(text: Text)
    ensures Join(Split(text)) == text
  {
    hide Join;
    if text == [] {
      JoinNothing();
    } else {
      JoinSplit(text[1..]);
      var rest := Split(text[1..]);
      if text[0] == LF {
        JoinFirst([], rest);
        assert [] + [LF] + text[1..] == text;
      } else {
        JoinUnit(text[0], rest);
        assert [text[0]] + text[1..] == text;
      }
    }
  }

  lemma {:induction false} SplitJoin(rows: seq<Text>)
    requires rows != [] && forall row <- rows :: LF !in row
    ensures Split(Join(rows)) == rows
  {
    if |rows| == 1 {
      SplitRow(rows[0]);
    } else {
      SplitJoin(rows[1..]);
      SplitOn(rows[0], Join(rows[1..]));
      assert rows[0] + [LF] + Join(rows[1..]) == rows[0] + ([LF] + Join(rows[1..]));
    }
  }

  lemma {:induction false} SplitRow(row: Text)
    requires LF !in row
    ensures Split(row) == [row]
  {
    if row != [] {
      SplitRow(row[1..]);
      assert [row[0]] + row[1..] == row;
    }
  }

  lemma {:induction false} SplitOn(row: Text, rest: Text)
    requires LF !in row
    ensures Split(row + ([LF] + rest)) == [row] + Split(rest)
  {
    var text := row + ([LF] + rest);
    if row == [] {
      assert text == [LF] + rest && text[1..] == rest;
    } else {
      assert text[1..] == row[1..] + ([LF] + rest);
      SplitOn(row[1..], rest);
      assert [row[0]] + row[1..] == row;
      assert Split(text[1..])[1..] == Split(rest);
    }
  }

  /** The lines of two texts with a line feed between. */
  lemma {:induction false} SplitBetween(a: Text, b: Text)
    ensures Split(a + [LF] + b) == Split(a) + Split(b)
  {
    JoinSplit(a);
    JoinSplit(b);
    JoinBetween(Split(a), Split(b));
    SplitJoin(Split(a) + Split(b));
  }

  lemma {:induction false} JoinBetween(a: seq<Text>, b: seq<Text>)
    requires a != [] && b != []
    ensures Join(a + b) == Join(a) + [LF] + Join(b)
  {
    assert (a + b)[1..] == a[1..] + b;
    if |a| > 1 {
      JoinBetween(a[1..], b);
    } else {
      assert a[1..] + b == b;
    }
  }

  // ----- A file from its lines -----

  /** The text of lines, each but the last ended by a line feed, or by a carriage return and a line feed. */
  function FileOf(lines: seq<Text>, crlf: bool): Text {
    if lines == [] then []
    else if |lines| == 1 then lines[0]
    else lines[0] + (if crlf then [CR, LF] else [LF]) + FileOf(lines[1..], crlf)
  }

  /** A line that ends where it is said to. */
  predicate IsLine(line: Text) {
    LF !in line && (line == [] || line[|line| - 1] != CR)
  }

  /** The rows of such a file: the lines, each but the last with its carriage return. */
  lemma {:induction false} FileRows(lines: seq<Text>, crlf: bool)
    requires lines != [] && forall line <- lines :: IsLine(line)
    ensures var rows := Split(FileOf(lines, crlf));
      |rows| == |lines| && forall i :: 0 <= i < |rows| ==>
        rows[i] == (lines[i] + if crlf && i < |rows| - 1 then [CR] else []) && Bare(rows[i]) == lines[i]
  {
    hide Split;
    if |lines| == 1 {
      assert lines[0] in lines;
      SplitRow(lines[0]);
      assert lines[0] + [] == lines[0];
    } else {
      FileRows(lines[1..], crlf);
      assert lines[0] in lines;
      var row := lines[0] + if crlf then [CR] else [];
      assert FileOf(lines, crlf) == row + [LF] + FileOf(lines[1..], crlf);
      SplitBetween(row, FileOf(lines[1..], crlf));
      SplitRow(row);
      EndedRow(lines[0], crlf);
    }
  }

  lemma EndedRow(line: Text, crlf: bool)
    requires IsLine(line)
    ensures Bare(line + if crlf then [CR] else []) == line
  {
  }
}
