/** JSON.stringify told row by row: how deep each row of a value is set in, and what stands on it. */
module Printing {
  import opened Units
  import opened Json
  import Strings
  import opened Editor
  import opened Layout

  datatype Row = Row(depth: nat, text: Text)

  function Atom(j: Json): Text
    requires !j.Arr? && !j.Obj?
  {
    match j
    case Null => [110, 117, 108, 108]
    case Bool(b) => if b then [116, 114, 117, 101] else [102, 97, 108, 115, 101]
    case Num(literal) => literal
    case Str(s) => Strings.Quote(s)
  }

  /** The rows of a value: a bracket, what it holds one step deeper, and the bracket that closes it. */
  function RowsOf(j: Json, pad: Text): (rows: seq<Row>)
    ensures rows != [] && rows[0].depth == 0
    decreases j, 0
  {
    match j
    case Arr(items) =>
      if items == [] then [Row(0, [91, 93])] else [Row(0, [91])] + ItemRows(items, pad) + [Row(0, [93])]
    case Obj(members) =>
      if members == [] then [Row(0, [123, 125])] else [Row(0, [123])] + FieldRows(members, pad) + [Row(0, [125])]
    case _ => [Row(0, Atom(j))]
  }

  function ItemRows(items: seq<Json>, pad: Text): (rows: seq<Row>)
    requires items != []
    ensures rows != []
    decreases items, 1
  {
    var first := Deeper(RowsOf(items[0], pad));
    if |items| == 1 then first else Comma(first) + ItemRows(items[1..], pad)
  }

  function FieldRows(members: seq<Field>, pad: Text): (rows: seq<Row>)
    requires members != []
    ensures rows != []
    decreases members, 1
  {
    var first := Titled(Strings.Quote(members[0].key) + [58] + pad, Deeper(RowsOf(members[0].value, pad)));
    if |members| == 1 then first else Comma(first) + FieldRows(members[1..], pad)
  }

  function Deeper(rows: seq<Row>): (deeper: seq<Row>)
    ensures |deeper| == |rows|
    ensures rows != [] ==> deeper[0].depth == rows[0].depth + 1
  {
    if rows == [] then [] else [Row(rows[0].depth + 1, rows[0].text)] + Deeper(rows[1..])
  }

  function Titled(title: Text, rows: seq<Row>): seq<Row>
    requires rows != []
  {
    [Row(rows[0].depth, title + rows[0].text)] + rows[1..]
  }

  function Comma(rows: seq<Row>): seq<Row>
    requires rows != []
  {
    rows[..|rows| - 1] + [Row(rows[|rows| - 1].depth, rows[|rows| - 1].text + [44])]
  }

  function Times(gap: Text, n: nat): Text {
    if n == 0 then [] else gap + Times(gap, n - 1)
  }

  /** Every row on a line of its own, `line` before it and `gap` for each step in. */
  function Page(rows: seq<Row>, gap: Text, line: Text): Text {
    if rows == [] then [] else line + Times(gap, rows[0].depth) + rows[0].text + Page(rows[1..], gap, line)
  }

  lemma {:induction false} PageOn(a: seq<Row>, b: seq<Row>, gap: Text, line: Text)
    ensures Page(a + b, gap, line) == Page(a, gap, line) + Page(b, gap, line)
  {
    if a == [] {
      assert a + b == b;
    } else {
      assert (a + b)[1..] == a[1..] + b;
      PageOn(a[1..], b, gap, line);
    }
  }

  lemma PageOne(row: Row, gap: Text, line: Text)
    ensures Page([row], gap, line) == line + Times(gap, row.depth) + row.text
    ensures row.depth == 0 ==> Page([row], gap, line) == line + row.text
  {
    assert [row][1..] == [];
    assert line + Times(gap, row.depth) + row.text + [] == line + Times(gap, row.depth) + row.text;
    assert line + [] == line;
  }

  lemma {:induction false} PageDeeper(rows: seq<Row>, gap: Text, line: Text)
    ensures Page(Deeper(rows), gap, line) == Page(rows, gap, line + gap)
  {
    if rows != [] {
      PageDeeper(rows[1..], gap, line);
      Assoc(line, gap, Times(gap, rows[0].depth));
      assert Deeper(rows)[1..] == Deeper(rows[1..]);
    }
  }

  lemma PageComma(rows: seq<Row>, gap: Text, line: Text)
    requires rows != []
    ensures Page(Comma(rows), gap, line) == Page(rows, gap, line) + [44]
  {
    hide Page;
    var front, last := rows[..|rows| - 1], rows[|rows| - 1];
    assert rows == front + [last];
    PageOn(front, [last], gap, line);
    PageOn(front, [Row(last.depth, last.text + [44])], gap, line);
    PageOne(last, gap, line);
    PageOne(Row(last.depth, last.text + [44]), gap, line);
    Assoc(line + Times(gap, last.depth), last.text, [44]);
    Assoc(Page(front, gap, line), line + Times(gap, last.depth) + last.text, [44]);
  }

  /** A title stands behind what sets its row in. */
  lemma PageTitled(title: Text, rows: seq<Row>, gap: Text, line: Text, text: Text)
    requires rows != [] && rows[0].depth == 1 && Page(rows, gap, line) == line + gap + text
    ensures Page(Titled(title, rows), gap, line) == line + gap + (title + text)
  {
    hide Page;
    var rest := Page(rows[1..], gap, line);
    PageFirst(rows, gap, line);
    PageFirst(Titled(title, rows), gap, line);
    assert Titled(title, rows)[1..] == rows[1..];
    Cancel(line + gap, rows[0].text + rest, text);
    Assoc(title, rows[0].text, rest);
  }

  lemma PageFirst(rows: seq<Row>, gap: Text, line: Text)
    requires rows != [] && rows[0].depth == 1
    ensures Page(rows, gap, line) == line + gap + (rows[0].text + Page(rows[1..], gap, line))
  {
    assert Times(gap, 1) == gap + Times(gap, 0);
    assert gap + [] == gap;
    Assoc(line + gap, rows[0].text, Page(rows[1..], gap, line));
  }

  lemma Cancel(a: Text, b: Text, c: Text)
    requires a + b == a + c
    ensures b == c
  {
    assert b == (a + b)[|a|..] && c == (a + c)[|a|..];
  }

  // ----- What is written is these rows -----

  lemma {:induction false} RowsAre(j: Json, gap: Text, line: Text)
    ensures Page(RowsOf(j, Pad(gap)), gap, line) == line + Serialize(j, gap, line)
    decreases j, 0
  {
    hide Page, Times, SerializeItems, SerializeFields, ItemRows, FieldRows, Pad;
    match j
    case Arr(items) =>
      if items == [] {
        PageOne(Row(0, [91, 93]), gap, line);
      } else {
        ItemsAre(items, gap, line);
        Bracketed(91, 93, ItemRows(items, Pad(gap)), SerializeItems(items, gap, line), gap, line);
      }
    case Obj(members) =>
      if members == [] {
        PageOne(Row(0, [123, 125]), gap, line);
      } else {
        FieldsAre(members, gap, line);
        Bracketed(123, 125, FieldRows(members, Pad(gap)), SerializeFields(members, gap, line), gap, line);
      }
    case _ => PageOne(Row(0, Atom(j)), gap, line);
  }

  lemma Bracketed(open: Unit, close: Unit, inside: seq<Row>, text: Text, gap: Text, line: Text)
    requires Page(inside, gap, line) + (line + [close]) == line + gap + text
    ensures Page([Row(0, [open])] + inside + [Row(0, [close])], gap, line) == line + ([open] + line + gap + text)
  {
    hide Page;
    PageOn([Row(0, [open])] + inside, [Row(0, [close])], gap, line);
    PageOn([Row(0, [open])], inside, gap, line);
    PageOne(Row(0, [open]), gap, line);
    PageOne(Row(0, [close]), gap, line);
    Assoc(line + [open], Page(inside, gap, line), line + [close]);
    assert line + [open] + (line + gap + text) == line + ([open] + line + gap + text);
  }

  lemma Separated(first: Text, a: Text, b: Text, gap: Text, line: Text, value: Text, rest: Text)
    requires first == line + gap + value && b == line + gap + rest
    ensures first + [44] + b == line + gap + (value + ([44] + line + gap + rest))
  {
    assert [44] + b == [44] + line + gap + rest;
    Assoc(first, [44], b);
    Assoc(line + gap, value, [44] + b);
  }

  lemma {:induction false} ItemsAre(items: seq<Json>, gap: Text, line: Text)
    requires items != []
    ensures Page(ItemRows(items, Pad(gap)), gap, line) + (line + [93]) == line + gap + SerializeItems(items, gap, line)
    decreases items, 1
  {
    hide Page, Serialize, RowsOf, Pad;
    var first, value := Deeper(RowsOf(items[0], Pad(gap))), Serialize(items[0], gap, line + gap);
    RowsAre(items[0], gap, line + gap);
    PageDeeper(RowsOf(items[0], Pad(gap)), gap, line);
    if |items| == 1 {
      Assoc(line + gap, value, line + [93]);
    } else {
      var rest := ItemRows(items[1..], Pad(gap));
      ItemsAre(items[1..], gap, line);
      OneThenRest(first, rest, value, SerializeItems(items[1..], gap, line), line + [93], gap, line);
    }
  }

  lemma OneThenRest(first: seq<Row>, rest: seq<Row>, value: Text, more: Text, end: Text, gap: Text, line: Text)
    requires first != [] && Page(first, gap, line) == line + gap + value
    requires Page(rest, gap, line) + end == line + gap + more
    ensures Page(Comma(first) + rest, gap, line) + end == line + gap + (value + ([44] + line + gap + more))
  {
    hide Page;
    PageOn(Comma(first), rest, gap, line);
    PageComma(first, gap, line);
    Assoc(Page(first, gap, line) + [44], Page(rest, gap, line), end);
    Separated(Page(first, gap, line), value, line + gap + more, gap, line, value, more);
  }

  lemma {:induction false} FieldsAre(members: seq<Field>, gap: Text, line: Text)
    requires members != []
    ensures Page(FieldRows(members, Pad(gap)), gap, line) + (line + [125]) == line + gap + SerializeFields(members, gap, line)
    decreases members, 1
  {
    hide Page, Serialize, RowsOf, Pad, Strings.Quote;
    var title := Strings.Quote(members[0].key) + [58] + Pad(gap);
    var deep, value := Deeper(RowsOf(members[0].value, Pad(gap))), Serialize(members[0].value, gap, line + gap);
    RowsAre(members[0].value, gap, line + gap);
    PageDeeper(RowsOf(members[0].value, Pad(gap)), gap, line);
    PageTitled(title, deep, gap, line, value);
    if |members| == 1 {
      Assoc(line + gap, title + value, line + [125]);
    } else {
      FieldsAre(members[1..], gap, line);
      OneThenRest(
        Titled(title, deep), FieldRows(members[1..], Pad(gap)), title + value,
        SerializeFields(members[1..], gap, line), line + [125], gap, line);
      Assoc(title, value, [44] + line + gap + SerializeFields(members[1..], gap, line));
    }
  }

  // ----- What an edit writes -----

  /** A value on one line is its rows one after another; otherwise each row is a line, set in by the file's own unit and a space behind each colon. */
  lemma RenderIs(data: Json, style: Style, indent: Text, inline: bool)
    requires IsStyle(style)
    ensures inline ==> Render(data, style, indent, inline) == Page(RowsOf(data, []), [], [])
    ensures !inline ==>
      var gap := if |style.unit| <= 10 then style.unit else style.unit[..10];
      style.eol + indent + Render(data, style, indent, inline) == Page(RowsOf(data, [32]), gap, style.eol + indent)
  {
    hide Page, RowsOf, Serialize, ReplaceLines;
    if inline {
      RowsAre(data, [], []);
      assert [] + Serialize(data, [], []) == Serialize(data, [], []);
    } else {
      var gap, eol := Gap(style.unit), style.eol + indent;
      assert LF !in gap by {
        assert forall i :: 0 <= i < |style.unit| ==> style.unit[i] != LF;
      }
      ReplaceSerialized(data, gap, [LF], eol);
      OneLine(eol);
      RowsAre(data, gap, eol);
    }
  }

  lemma OneLine(eol: Text)
    ensures ReplaceLines([LF], eol) == eol
  {
    assert [LF][1..] == [];
    assert eol + [] == eol;
  }
}
