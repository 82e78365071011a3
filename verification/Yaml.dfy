/** A list of names in a block-style YAML file: read, and extended by editing whole lines. */
module Yaml {
  import opened Units
  import opened Unions
  import opened Rows
  import opened Editor
  import Strings
  import Toml

  const HASH: Unit := 35
  const DASH: Unit := 45
  const APOSTROPHE: Unit := 39
  const UNDERSCORE: Unit := 95
  const DOLLAR: Unit := 36

  datatype Result<T> = Ok(value: T) | Refused

  // ----- What one line is -----

  function StripSpaces(s: Text): Text {
    if s != [] && s[0] == SPACE then StripSpaces(s[1..]) else s
  }

  function Spaces(n: nat): (s: Text)
    ensures |s| == n
  {
    seq(n, _ => SPACE)
  }

  /** Neither blank nor a comment. */
  predicate Content(text: Text) {
    var s := TrimStart(text);
    s != [] && !(s[0] == HASH && Toml.NoBreaks(s[1..]))
  }

  /** Where the first thing that is not blank stands. */
  function Indent(text: Text): (indent: int)
    ensures indent >= -1 && (Content(text) ==> indent >= 0)
  {
    if TrimStart(text) == [] then -1 else |text| - |TrimStart(text)|
  }

  predicate IsWordUnit(u: Unit) {
    65 <= u <= 90 || 97 <= u <= 122 || 48 <= u <= 57 || u == UNDERSCORE
  }

  /** Then, past spaces, a colon. */
  predicate Colon(s: Text) {
    var t := StripSpaces(s);
    t != [] && t[0] == COLON
  }

  function Quoted(key: Text, quote: Unit): Text {
    [quote] + key + [quote]
  }

  /** The line sets `key`, plain or quoted. */
  predicate Named(key: Text, text: Text) {
    var s := StripSpaces(text);
    || (key <= s && Colon(s[|key|..]))
    || (Quoted(key, QUOTE) <= s && Colon(s[|key| + 2..]))
    || (Quoted(key, APOSTROPHE) <= s && Colon(s[|key| + 2..]))
  }

  /** How long a run of name units starts `s`; a plain key may hold `$` too. */
  function Run(s: Text, dollar: bool): (n: nat)
    ensures n <= |s|
  {
    if s == [] || !(IsWordUnit(s[0]) || s[0] == DOT || s[0] == DASH || (dollar && s[0] == DOLLAR)) then 0
    else 1 + Run(s[1..], dollar)
  }

  /** Past a colon, a space or the end of the line. */
  predicate ColonEnds(s: Text) {
    var t := StripSpaces(s);
    t != [] && t[0] == COLON && (|t| == 1 || t[1] == SPACE)
  }

  /** The length of what `quote` opens at the start of `s`, closed, without another of `barred` inside. */
  function QuotedRun(s: Text, quote: Unit, barred: Unit): (n: nat)
    ensures n <= |s|
  {
    if s == [] || s[0] != quote then 0
    else
      var k := Find(s[1..], quote);
      if k == |s| - 1 || barred in s[1..][..k] then 0 else k + 2
  }

  /** The line is a key of a plain mapping. */
  predicate IsKey(text: Text) {
    var s := StripSpaces(text);
    || (Run(s, true) > 0 && ColonEnds(s[Run(s, true)..]))
    || (QuotedRun(s, QUOTE, BACKSLASH) > 0 && ColonEnds(s[QuotedRun(s, QUOTE, BACKSLASH)..]))
    || (QuotedRun(s, APOSTROPHE, APOSTROPHE) > 0 && ColonEnds(s[QuotedRun(s, APOSTROPHE, APOSTROPHE)..]))
  }

  predicate IsItem(text: Text) {
    var s := StripSpaces(text);
    s != [] && s[0] == DASH && (|s| == 1 || s[1] == SPACE)
  }

  /** A key with nothing but a comment after it. */
  predicate OpensBlock(text: Text) {
    var k := Find(text, COLON);
    k < |text| &&
    var rest := StripSpaces(text[k + 1..]);
    rest == [] || (rest[0] == HASH && Toml.NoBreaks(rest[1..]))
  }

  predicate TabIndented(text: Text) {
    var s := StripSpaces(text);
    s != [] && s[0] == TAB
  }

  // ----- Values -----

  /** Past blanks, a comment to the end of the line. */
  predicate CommentAt(s: Text) {
    var t := TrimStart(s);
    s != [] && IsSpace(s[0]) && t != [] && t[0] == HASH && Toml.NoBreaks(t[1..])
  }

  /** `s` up to the first comment that blanks set off. */
  function StripComment(s: Text): (t: Text)
    ensures t <= s
  {
    if s == [] || CommentAt(s) then [] else [s[0]] + StripComment(s[1..])
  }

  function Trim(s: Text): Text {
    TrimEnd(TrimStart(s))
  }

  /** A plain or quoted name. */
  function Scalar(text: Text): Option<Text> {
    var t := Trim(text);
    if t != [] && Run(t, false) == |t| then Some(t)
    else if QuotedRun(t, QUOTE, BACKSLASH) == |t| && t != [] then Some(t[1..|t| - 1])
    else if QuotedRun(t, APOSTROPHE, APOSTROPHE) == |t| && t != [] then Some(t[1..|t| - 1])
    else None
  }

  /** The names of `pieces`, empty ones aside; None when one is no name. */
  function Scalars(pieces: seq<Text>): Option<seq<Text>> {
    if pieces == [] then Some([])
    else
      var rest := Scalars(pieces[1..]);
      if Trim(pieces[0]) == [] then rest
      else if rest.None? || Scalar(Trim(pieces[0])).None? then None
      else Some([Scalar(Trim(pieces[0])).value] + rest.value)
  }

  function Pieces(s: Text): (pieces: seq<Text>)
    ensures pieces != []
  {
    if s == [] then [[]]
    else
      var rest := Pieces(s[1..]);
      if s[0] == COMMA then [[]] + rest else [[s[0]] + rest[0]] + rest[1..]
  }

  /** The names of a one-line list. */
  function FlowNames(value: Text): Option<seq<Text>> {
    if |value| < 2 || value[0] != LBRACKET || value[|value| - 1] != RBRACKET
      || !Toml.NoBreaks(value[1..|value| - 1]) then None
    else Scalars(Pieces(value[1..|value| - 1]))
  }

  /** The name an item line holds. */
  function ItemName(text: Text): Option<Text> {
    var s := StripSpaces(text);
    if |s| < 2 || s[0] != DASH || s[1] != SPACE then Scalar([])
    else
      var name := StripComment(StripSpaces(s[1..]));
      if Toml.NoBreaks(name) then Scalar(name) else Scalar([])
  }

  // ----- yamlList -----

  /** The lines with something on them, without their carriage returns. */
  function Contents(rows: seq<Text>): seq<Text> {
    if rows == [] then []
    else (if Content(Bare(rows[0])) then [Bare(rows[0])] else []) + Contents(rows[1..])
  }

  predicate IsTop(text: Text) {
    Indent(text) == 0
  }

  predicate Heads(map_: Text, text: Text) {
    IsTop(text) && Named(map_, text)
  }

  /** How many of `texts` head the map, and where the first one is. */
  function Heading(map_: Text, texts: seq<Text>): (n: nat)
    ensures n <= |texts|
  {
    if texts == [] || Heads(map_, texts[0]) then 0 else 1 + Heading(map_, texts[1..])
  }

  /** The lines before the next one at the top. */
  function Block(texts: seq<Text>): seq<Text> {
    if texts == [] || IsTop(texts[0]) then [] else [texts[0]] + Block(texts[1..])
  }

  predicate Sets(key: Text, indent: int, text: Text) {
    Indent(text) == indent && Named(key, text)
  }

  function Setting(key: Text, indent: int, block: seq<Text>): (n: nat)
    ensures n <= |block|
  {
    if block == [] || Sets(key, indent, block[0]) then 0 else 1 + Setting(key, indent, block[1..])
  }

  /** A line that ends the items under a key at `indent`. */
  predicate Ends(indent: int, text: Text) {
    Indent(text) < indent || (Indent(text) == indent && !IsItem(text))
  }

  function Items(indent: int, texts: seq<Text>): Result<seq<Text>> {
    if texts == [] || Ends(indent, texts[0]) then Ok([])
    else
      var rest := Items(indent, texts[1..]);
      if ItemName(texts[0]).None? || rest.Refused? then Refused
      else Ok([ItemName(texts[0]).value] + rest.value)
  }

  function After(text: Text): Text {
    var k := Find(text, COLON);
    if k < |text| then text[k + 1..] else text
  }

  function NamesOf(key: Text, block: seq<Text>): Result<Option<seq<Text>>> {
    if block == [] then Ok(None)
    else
      var indent := Indent(block[0]);
      var at := Setting(key, indent, block);
      if at == |block| then Ok(None)
      else if Setting(key, indent, block[at + 1..]) < |block| - at - 1 then Refused
      else
        var value := Trim(StripComment(After(block[at])));
        if value != [] then
          var names := FlowNames(value);
          if names.None? then Refused else Ok(Some(names.value))
        else
          match Items(indent, block[at + 1..])
          case Refused => Refused
          case Ok(names) => Ok(Some(names))
  }

  /** The names listed under `key` of the map, None when it is not there. */
  function ListOf(texts: seq<Text>, map_: Text, key: Text): Result<Option<seq<Text>>> {
    var start := Heading(map_, texts);
    if start == |texts| then Ok(None)
    else if Heading(map_, texts[start + 1..]) < |texts| - start - 1 then Refused
    else NamesOf(key, Block(texts[start + 1..]))
  }

  function List(yaml: Text, map_: Text, key: Text): Result<Option<seq<Text>>> {
    ListOf(Contents(Split(yaml)), map_, key)
  }

  // ----- withMelraYamlEntry -----

  /** What the editor is told of a file's rows: where its map is headed, and where that block ends. */
  function Header(map_: Text, rows: seq<Text>): (n: nat)
    ensures n <= |rows|
  {
    if rows == [] || Heads(map_, Bare(rows[0])) then 0 else 1 + Header(map_, rows[1..])
  }

  predicate IsChildRow(row: Text) {
    Content(Bare(row))
  }

  predicate IsTopRow(row: Text) {
    IsChildRow(row) && IsTop(Bare(row))
  }

  /** How many rows there are before the next one with something at the top. */
  function BlockRows(rows: seq<Text>): (n: nat)
    ensures n <= |rows|
  {
    if rows == [] || IsTopRow(rows[0]) then 0 else 1 + BlockRows(rows[1..])
  }

  /** The indent of a block's first child, two when it has none. */
  function ChildIndent(block: seq<Text>): nat {
    if block == [] then 2
    else if IsChildRow(block[0]) then Indent(Bare(block[0]))
    else ChildIndent(block[1..])
  }

  /** At the block's own indent, and no item: what comes before is over. */
  predicate Sibling(indent: int, row: Text) {
    IsChildRow(row) && Indent(Bare(row)) == indent && !IsItem(Bare(row))
  }

  predicate IsOld(key: Text, indent: int, row: Text) {
    IsChildRow(row) && Sets(key, indent, Bare(row))
  }

  /** Row `i` of a block belongs to an entry under `key`: from its line to the last one deeper. */
  predicate Dropped(key: Text, indent: int, block: seq<Text>, i: nat) {
    exists c, d :: 0 <= c <= i <= d < |block| && Region(key, indent, block, c, d)
  }

  predicate Region(key: Text, indent: int, block: seq<Text>, c: nat, d: nat)
    requires c <= d < |block|
  {
    IsOld(key, indent, block[c]) && IsChildRow(block[d]) && forall e :: c < e <= d ==> !Sibling(indent, block[e])
  }

  /** Where the first entry under `key` is, or past the last child. */
  function FirstOld(key: Text, indent: int, block: seq<Text>): (n: nat)
    ensures n <= |block|
    ensures n < |block| ==> IsOld(key, indent, block[n])
    ensures forall i :: 0 <= i < n ==> !IsOld(key, indent, block[i])
  {
    if block == [] || IsOld(key, indent, block[0]) then 0
    else
      var n := 1 + FirstOld(key, indent, block[1..]);
      assert forall i :: 0 < i < n ==> block[i] == block[1..][i - 1];
      n
  }

  function PastChildren(block: seq<Text>): (n: nat)
    ensures n <= |block|
    ensures forall i :: n <= i < |block| ==> !IsChildRow(block[i])
  {
    if block == [] then 0
    else if IsChildRow(block[|block| - 1]) then |block|
    else PastChildren(block[..|block| - 1])
  }

  function Place(key: Text, indent: int, block: seq<Text>): (n: nat)
    ensures n <= |block|
  {
    if FirstOld(key, indent, block) < |block| then FirstOld(key, indent, block) else PastChildren(block)
  }

  /** The rows from `i` on that are not dropped. */
  function Left(key: Text, indent: int, block: seq<Text>, i: nat): seq<Text>
    requires i <= |block|
    decreases |block| - i
  {
    if i == |block| then []
    else (if Dropped(key, indent, block, i) then [] else [block[i]]) + Left(key, indent, block, i + 1)
  }

  /** The entry's own rows, at the block's indent. */
  function Out(entry: seq<Text>, indent: nat, cr: Text): (rows: seq<Text>)
    requires forall line <- entry :: |line| >= 2
    ensures |rows| == |entry|
  {
    seq(|entry|, i requires 0 <= i < |entry| => Spaces(indent) + entry[i][2..] + cr)
  }

  /** The block with `out` in place of every earlier entry under `key`. */
  function EditedBlock(key: Text, indent: int, block: seq<Text>, out: seq<Text>): seq<Text> {
    var at := Place(key, indent, block);
    block[..at] + out + Left(key, indent, block, at)
  }

  /** A block whose every child can be told to be deeper, or a sibling the editor knows. */
  predicate EvenBlock(indent: int, block: seq<Text>) {
    forall i :: 0 <= i < |block| && IsChildRow(block[i]) ==>
      var text := Bare(block[i]);
      && Indent(text) >= indent
      && (Indent(text) == indent ==>
            IsKey(text) || (IsItem(text) && exists j :: 0 <= j < i && IsChildRow(block[j])))
  }

  predicate PlainMapping(rows: seq<Text>) {
    forall i :: 0 <= i < |rows| && IsChildRow(rows[i]) ==>
      !TabIndented(Bare(rows[i])) && (IsTop(Bare(rows[i])) ==> IsKey(Bare(rows[i])))
  }

  /** The rows with the entry in them; refused when the file is not written as both clients write it. */
  function EditRows(rows: seq<Text>, map_: Text, key: Text, entry: seq<Text>, cr: Text): Result<seq<Text>>
    requires forall line <- entry :: |line| >= 2
  {
    var start := Header(map_, rows);
    if start == |rows| then Refused
    else
      var rest := rows[start + 1..];
      var n := BlockRows(rest);
      var block := rest[..n];
      var indent := ChildIndent(block);
      if Header(map_, rest) < |rest| || !OpensBlock(Bare(rows[start])) || !EvenBlock(indent, block) then Refused
      else Ok(rows[..start + 1] + EditedBlock(key, indent, block, Out(entry, indent, cr)) + rest[n..])
  }

  /** The file with `entry` under `key` of the map `map_`, which is added when there is none. */
  function WithEntry(yaml: Text, map_: Text, key: Text, entry: seq<Text>): Result<Text>
    requires forall line <- entry :: |line| >= 2
  {
    var rows, cr := Split(yaml), if HasCrLf(yaml) then [CR] else [];
    if !PlainMapping(rows) then Refused
    else if Header(map_, rows) == |rows| then
      var separator := if yaml == [] || yaml[|yaml| - 1] == LF then [] else cr + [LF];
      Ok(yaml + separator + (map_ + [COLON]) + cr + [LF] + Join(Out(entry, 2, cr)) + [LF])
    else
      match EditRows(rows, map_, key, entry, cr)
      case Refused => Refused
      case Ok(edited) => Ok(Join(edited))
  }

  /** The rows an earlier entry under `key` takes up, and where the first one starts. */
  method OldEntries(key: Text, indent: int, block: seq<Text>) returns (drop: set<nat>, first: Option<nat>)
    ensures forall i: nat :: i in drop <==> i < |block| && Dropped(key, indent, block, i)
    ensures first == if FirstOld(key, indent, block) < |block| then Some(FirstOld(key, indent, block)) else None
  {
    hide IsOld, Sibling, IsChildRow;
    drop, first := {}, None;
    for position := 0 to |block|
      invariant forall i: nat :: i in drop <==> i < |block| && DroppedFrom(key, indent, block, position, i)
      invariant first == if FirstOld(key, indent, block) < position then Some(FirstOld(key, indent, block)) else None
    {
      if IsOld(key, indent, block[position]) {
        if first.None? {
          first := Some(position);
        }
        var last := LastDeeper(key, indent, block, position);
        drop := AddRange(drop, position, last);
        DroppedNow(key, indent, block, position, last);
      } else {
        NoneDroppedNow(key, indent, block, position);
      }
    }
  }

  method AddRange(drop: set<nat>, from: nat, last: nat) returns (more: set<nat>)
    requires from <= last
    ensures forall i :: i in more <==> i in drop || from <= i <= last
  {
    more := drop;
    for index := from to last + 1
      invariant forall i :: i in more <==> i in drop || from <= i < index
    {
      more := more + {index};
    }
  }

  lemma DroppedNow(key: Text, indent: int, block: seq<Text>, position: nat, last: nat)
    requires position <= last < |block| && Region(key, indent, block, position, last)
    requires forall d :: last < d < |block| ==> !Region(key, indent, block, position, d)
    ensures forall i: nat :: DroppedFrom(key, indent, block, position + 1, i) <==>
      DroppedFrom(key, indent, block, position, i) || position <= i <= last
  {
    hide Region;
  }

  lemma NoneDroppedNow(key: Text, indent: int, block: seq<Text>, position: nat)
    requires position < |block| && !IsOld(key, indent, block[position])
    ensures forall i: nat :: DroppedFrom(key, indent, block, position + 1, i) <==> DroppedFrom(key, indent, block, position, i)
  {
    hide IsOld, IsChildRow, Sibling;
  }

  /** Dropped with an entry that starts above row `position`. */
  predicate DroppedFrom(key: Text, indent: int, block: seq<Text>, position: nat, i: nat) {
    exists c, d :: 0 <= c <= i <= d < |block| && c < position && Region(key, indent, block, c, d)
  }

  /** The last row of the entry that starts at `position`. */
  method LastDeeper(key: Text, indent: int, block: seq<Text>, position: nat) returns (last: nat)
    requires position < |block| && IsOld(key, indent, block[position])
    ensures position <= last < |block| && Region(key, indent, block, position, last)
    ensures forall d :: last < d < |block| ==> !Region(key, indent, block, position, d)
  {
    hide Sibling, Sets;
    last := position;
    for index := position + 1 to |block|
      invariant position <= last < index && Region(key, indent, block, position, last)
      invariant forall e :: position < e < index ==> !Sibling(indent, block[e])
      invariant forall d :: last < d < index ==> !IsChildRow(block[d])
    {
      if Sibling(indent, block[index]) {
        break;
      }
      if IsChildRow(block[index]) {
        last := index;
      }
    }
  }

  method EditBlock(key: Text, indent: int, block: seq<Text>, out: seq<Text>) returns (edited: seq<Text>)
    ensures edited == EditedBlock(key, indent, block, out)
  {
    hide Dropped, IsOld, IsChildRow;
    var drop, first := OldEntries(key, indent, block);
    var at := if first.Some? then first.value else PastChildren(block);
    edited := block[..at] + out;
    for index := at to |block|
      invariant edited + Left(key, indent, block, index) == EditedBlock(key, indent, block, out)
    {
      if index !in drop {
        edited := edited + [block[index]];
      }
    }
    assert edited + [] == edited;
  }

  // ----- withYamlListUnion -----

  function ItemRows(names: seq<Text>): (rows: seq<Text>)
    ensures |rows| == |names| && forall row <- rows :: |row| >= 2
  {
    seq(|names|, i requires 0 <= i < |names| => Spaces(4) + [DASH, SPACE] + Strings.Quote(names[i]))
  }

  function ListEntry(key: Text, names: seq<Text>): (rows: seq<Text>)
    ensures forall row <- rows :: |row| >= 2
  {
    [Spaces(2) + key + [COLON]] + ItemRows(names)
  }

  function WithListUnion(yaml: Text, map_: Text, key: Text, names: seq<Text>): Result<Text> {
    match List(yaml, map_, key)
    case Refused => Refused
    case Ok(found) =>
      var listed := if found.None? then [] else found.value;
      var missing := Missing(names, listed);
      if missing == [] then Ok(yaml) else WithEntry(yaml, map_, key, ListEntry(key, listed + missing))
  }

  method EditFile(rows: seq<Text>, map_: Text, key: Text, entry: seq<Text>, cr: Text) returns (r: Result<seq<Text>>)
    requires (forall line <- entry :: |line| >= 2) && Header(map_, rows) < |rows|
    ensures r == EditRows(rows, map_, key, entry, cr)
  {
    hide Content, Header, OpensBlock, EvenBlock, ChildIndent, Out, EditedBlock, BlockRows, Bare;
    var start := Header(map_, rows);
    var rest := rows[start + 1..];
    if Header(map_, rest) < |rest| || !OpensBlock(Bare(rows[start])) {
      return Refused;
    }
    var n := BlockRows(rest);
    var block := rest[..n];
    var indent := ChildIndent(block);
    if !EvenBlock(indent, block) {
      return Refused;
    }
    var edited := EditBlock(key, indent, block, Out(entry, indent, cr));
    return Ok(rows[..start + 1] + edited + rest[n..]);
  }

  method WithMelraYamlEntry(yaml: Text, map_: Text, key: Text, entry: seq<Text>) returns (r: Result<Text>)
    requires forall line <- entry :: |line| >= 2
    ensures r == WithEntry(yaml, map_, key, entry)
  {
    hide Content, Header, Out, EditRows, Split, Join, PlainMapping, HasCrLf;
    var rows, cr := Split(yaml), if HasCrLf(yaml) then [CR] else [];
    if !PlainMapping(rows) {
      return Refused;
    }
    if Header(map_, rows) == |rows| {
      var separator := if yaml == [] || yaml[|yaml| - 1] == LF then [] else cr + [LF];
      return Ok(yaml + separator + (map_ + [COLON]) + cr + [LF] + Join(Out(entry, 2, cr)) + [LF]);
    }
    var edited := EditFile(rows, map_, key, entry, cr);
    if edited.Refused? {
      return Refused;
    }
    return Ok(Join(edited.value));
  }

  /** The names under a key of a block, read line by line. */
  method ReadItems(indent: int, texts: seq<Text>) returns (items: Result<seq<Text>>)
    ensures items == Items(indent, texts)
  {
    hide Ends, ItemName;
    var names: seq<Text> := [];
    assert texts[0..] == texts;
    PrependNone(Items(indent, texts));
    for i := 0 to |texts|
      invariant Items(indent, texts) == Prepended(names, Items(indent, texts[i..]))
    {
      assert texts[i..][1..] == texts[i + 1..];
      if Ends(indent, texts[i]) {
        assert names + [] == names;
        return Ok(names);
      }
      var item := ItemName(texts[i]);
      if item.None? {
        return Refused;
      }
      PrependOne(names, item.value, Items(indent, texts[i + 1..]));
      names := names + [item.value];
    }
    assert names + [] == names;
    return Ok(names);
  }

  function Prepended(names: seq<Text>, rest: Result<seq<Text>>): Result<seq<Text>> {
    if rest.Refused? then Refused else Ok(names + rest.value)
  }

  lemma PrependNone(rest: Result<seq<Text>>)
    ensures Prepended([], rest) == rest
  {
    if rest.Ok? {
      assert [] + rest.value == rest.value;
    }
  }

  lemma PrependOne(names: seq<Text>, name: Text, rest: Result<seq<Text>>)
    ensures Prepended(names, Prepended([name], rest)) == Prepended(names + [name], rest)
  {
    if rest.Ok? {
      assert names + ([name] + rest.value) == names + [name] + rest.value;
    }
  }
}
