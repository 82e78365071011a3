/** Editing JSONC in place: the text around a member, and `upsertJsonc`. */
module Editor {
  import opened Units
  import opened Trivia
  import Strings
  import opened Json
  import opened Nodes
  import Parser

  // ----- Text helpers -----

  /** String.prototype.slice for offsets that are not negative. */
  function Slice(text: Text, from: nat, to: nat): Text {
    var end := if to < |text| then to else |text|;
    if from < end then text[from..end] else []
  }

  function Splice(text: Text, from: nat, to: nat, insert: Text): Text {
    Slice(text, 0, from) + insert + Slice(text, to, |text|)
  }

  predicate At(text: Text, i: nat, u: Unit) {
    i < |text| && text[i] == u
  }

  /** The offset just after the last line feed before `offset`, or 0. */
  function LineStart(text: Text, offset: nat): (start: nat)
    ensures start <= offset
  {
    if offset == 0 || At(text, offset - 1, LF) then offset else LineStart(text, offset - 1)
  }

  /** How many spaces and tabs `text` has from offset `at` on. */
  function IndentLen(text: Text, at: nat): (n: nat)
    ensures at <= |text| ==> at + n <= |text|
    decreases |text| - at
  {
    if At(text, at, SPACE) || At(text, at, TAB) then 1 + IndentLen(text, at + 1) else 0
  }

  /** The run of spaces and tabs that starts the line holding `offset`. */
  function LineIndent(text: Text, offset: nat): Text {
    var line := Slice(text, LineStart(text, offset), offset);
    line[..IndentLen(line, 0)]
  }

  predicate IsSpaces(s: Text) {
    forall i :: 0 <= i < |s| ==> IsSpace(s[i])
  }

  predicate StartsLine(text: Text, offset: nat) {
    IsSpaces(Slice(text, LineStart(text, offset), offset))
  }

  /**
   * The end of the line after `from` when only blanks and comments follow it there; otherwise
   * `from` itself. Here a comment is closed by the first star-slash pair at or after its own
   * first unit, so one that opens slash-star-slash is taken to end there.
   */
  function TriviaLineEnd(text: Text, from: nat, at: nat): (end: nat)
    requires from <= at <= |text|
    ensures end <= |text|
    decreases |text| - at
  {
    var here := at + IndentLen(text, at);
    if StartsWith2(text[here..], SLASH, SLASH) then
      var newline := here + Find(text[here..], LF);
      if newline == |text| then from else LineStop(text, from, newline)
    else if StartsWith2(text[here..], SLASH, STAR) then
      match CloseFrom(text, here)
      case None => from
      case Some(close) => if LF in text[here..close] then from else TriviaLineEnd(text, from, close + 2)
    else LineStop(text, from, here)
  }

  function LineStop(text: Text, from: nat, at: nat): (end: nat)
    requires from <= at <= |text|
    ensures end <= |text|
  {
    if At(text, at, CR) && At(text, at + 1, LF) then at
    else if At(text, at, LF) then
      if at > 0 && text[at - 1] == CR then at - 1 else at
    else from
  }

  method EndOfTriviaLine(text: Text, from: nat) returns (end: nat)
    requires from <= |text|
    ensures end == TriviaLineEnd(text, from, from)
  {
    hide CloseFrom, Find, IndentLen, LineStop;
    var at := from;
    while true
      invariant from <= at <= |text|
      invariant TriviaLineEnd(text, from, at) == TriviaLineEnd(text, from, from)
      decreases |text| - at
    {
      at := at + IndentLen(text, at);
      if StartsWith2(text[at..], SLASH, SLASH) {
        var newline := at + Find(text[at..], LF);
        if newline == |text| { return from; }
        at := newline;
      } else if StartsWith2(text[at..], SLASH, STAR) {
        var close := CloseFrom(text, at);
        if close.None? || LF in text[at..close.value] { return from; }
        at := close.value + 2;
        continue;
      }
      return LineStop(text, from, at);
    }
  }

  // ----- The edit -----

  /** The line ending and the unit of indentation an edit of a file uses. */
  datatype Style = Style(eol: Text, unit: Text)

  predicate HasCrLf(text: Text) {
    exists i :: 0 <= i < |text| - 1 && text[i] == CR && text[i + 1] == LF
  }

  function FirstOnLine(text: Text, members: seq<Member>): Option<Member> {
    if members == [] then None
    else if StartsLine(text, members[0].keyStart) then Some(members[0])
    else FirstOnLine(text, members[1..])
  }

  function StyleOf(text: Text, root: Node): Style
    requires root.members.Some?
  {
    var eol := if HasCrLf(text) then [CR, LF] else [LF];
    var rootIndent := LineIndent(text, root.start);
    var unit := match FirstOnLine(text, root.members.value)
      case None => []
      case Some(nested) => var indent := LineIndent(text, nested.keyStart); Slice(indent, |rootIndent|, |indent|);
    Style(eol, if unit == [] then [SPACE, SPACE] else unit)
  }

  /** An object written on one line gets its new member on that line too. */
  function Render(data: Json, style: Style, indent: Text, inline: bool): Text {
    if inline then Compact(data) else ReplaceLines(Pretty(data, style.unit), style.eol + indent)
  }

  function Matching(members: seq<Member>, key: Text): seq<Member> {
    if members == [] then []
    else (if members[0].key == key then [members[0]] else []) + Matching(members[1..], key)
  }

  function Wrapped(path: seq<Text>, value: Json): Json {
    if path == [] then value else Obj([Field(path[0], Wrapped(path[1..], value))])
  }

  predicate IsInline(text: Text, object_: Node) {
    LF !in Slice(text, object_.start, object_.end)
  }

  /** What `upsertJsonc` returns; None when it throws. */
  function Upsert(text: Text, path: seq<Text>, value: Json, keep: bool): Option<Text> {
    match ParseSpec(text)
    case None => None
    case Some(root) =>
      if root.members.None? then None else UpsertIn(text, StyleOf(text, root), root, path, value, keep)
  }

  function UpsertIn(text: Text, style: Style, node: Node, path: seq<Text>, value: Json, keep: bool): Option<Text>
    requires node.members.Some?
    decreases |path|
  {
    if path == [] then None else
      var matches := Matching(node.members.value, path[0]);
      if |matches| > 1 then None
      else if matches == [] then Some(Insert(text, style, node, path, value))
      else
        var found := matches[0];
        if |path| == 1 then
          Some(if keep then text else Replace(text, style, node, found, value))
        else if found.value.members.None? then None
        else UpsertIn(text, style, found.value, path[1..], value, keep)
  }

  function Replace(text: Text, style: Style, node: Node, found: Member, value: Json): Text {
    Splice(text, found.value.start, found.value.end,
      Render(value, style, LineIndent(text, found.keyStart), IsInline(text, node)))
  }

  function Insert(text: Text, style: Style, node: Node, path: seq<Text>, value: Json): Text
    requires node.members.Some? && path != []
  {
    var data := Wrapped(path[1..], value);
    if node.members.value == [] then InsertFirst(text, style, node, path[0], data)
    else InsertLast(text, style, node, path[0], data)
  }

  function WrittenMember(key: Text, rendered: Text): Text {
    Strings.Quote(key) + [COLON, SPACE] + rendered
  }

  /** Where the first member of an object goes: in place of its blanks, above its brace, or before it. */
  function InsertFirst(text: Text, style: Style, node: Node, key: Text, data: Json): Text {
    var objectIndent := LineIndent(text, node.start);
    var indent := objectIndent + style.unit;
    var member := WrittenMember(key, Render(data, style, indent, false));
    var close := if node.end == 0 then 0 else node.end - 1;
    var block := style.eol + indent + member + style.eol + objectIndent;
    if IsSpaces(Slice(text, node.start + 1, close)) then Splice(text, node.start + 1, close, block)
    else if StartsLine(text, close) then
      var at := LineStart(text, close);
      Splice(text, at, at, indent + member + style.eol)
    else Splice(text, close, close, block)
  }

  /** The offset a new last member follows: the old last value, or the comma after it. */
  function Anchor(node: Node): nat
    requires node.members.Some? && node.members.value != []
  {
    var members := node.members.value;
    match node.trailingComma
    case None => members[|members| - 1].value.end
    case Some(comma) => comma + 1
  }

  function Landing(text: Text, node: Node): nat
    requires node.members.Some? && node.members.value != []
  {
    var anchor := Anchor(node);
    if IsInline(text, node) || anchor > |text| then anchor else TriviaLineEnd(text, anchor, anchor)
  }

  function InsertLast(text: Text, style: Style, node: Node, key: Text, data: Json): Text
    requires node.members.Some? && node.members.value != []
  {
    var members := node.members.value;
    var last := members[|members| - 1];
    var inline := IsInline(text, node);
    var indent := LastIndent(text, style, node);
    var member := WrittenMember(key, Render(data, style, indent, inline));
    var lead := if inline then [SPACE] else style.eol + indent;
    var at := Landing(text, node);
    var added := Splice(text, at, at, lead + member + if node.trailingComma.None? then [] else [COMMA]);
    if node.trailingComma.None? then Splice(added, Anchor(node), Anchor(node), [COMMA]) else added
  }

  function LastIndent(text: Text, style: Style, node: Node): Text
    requires node.members.Some? && node.members.value != []
  {
    var members := node.members.value;
    var last := members[|members| - 1];
    if StartsLine(text, last.keyStart) then LineIndent(text, last.keyStart)
    else LineIndent(text, node.start) + style.unit
  }

  /** Appends after the last member, keeping the object's trailing-comma style. */
  method Append(text: Text, style: Style, node: Node, key: Text, data: Json) returns (r: Text)
    requires node.members.Some? && node.members.value != []
    ensures r == InsertLast(text, style, node, key, data)
  {
    hide Render, LineIndent, StartsLine, Splice, TriviaLineEnd, Slice;
    var inline := IsInline(text, node);
    var indent := LastIndent(text, style, node);
    var member := WrittenMember(key, Render(data, style, indent, inline));
    var anchor := Anchor(node);
    var at := anchor;
    if !inline && anchor <= |text| {
      at := EndOfTriviaLine(text, anchor);
    }
    var lead := if inline then [SPACE] else style.eol + indent;
    r := Splice(text, at, at, lead + member + if node.trailingComma.None? then [] else [COMMA]);
    if node.trailingComma.None? {
      r := Splice(r, anchor, anchor, [COMMA]);
    }
  }

  /** Inserts the member, wrapping the value in whatever of the path is missing. */
  method InsertMember(text: Text, style: Style, node: Node, path: seq<Text>, value: Json) returns (r: Text)
    requires node.members.Some? && path != []
    ensures r == Insert(text, style, node, path, value)
  {
    hide InsertFirst, InsertLast;
    var data := Wrapped(path[1..], value);
    if node.members.value == [] {
      r := InsertFirst(text, style, node, path[0], data);
    } else {
      r := Append(text, style, node, path[0], data);
    }
  }

  /**
   * Sets `path` to `value` in JSONC `text`, rewriting only that member. None where upsertJsonc
   * throws: the root or a step is not an object, a step appears twice, or the path is empty.
   */
  method UpsertJsonc(text: Text, path: seq<Text>, value: Json, keepExisting: bool) returns (r: Option<Text>)
    ensures r == Upsert(text, path, value, keepExisting)
  {
    hide ParseSpec, StyleOf, Insert, Replace;
    var root := Parser.ParseJsonc(text);
    if root.None? || root.value.members.None? { return None; }
    var style := StyleOf(text, root.value);
    var node := root.value;
    for depth := 0 to |path|
      invariant node.members.Some?
      invariant UpsertIn(text, style, root.value, path, value, keepExisting)
             == UpsertIn(text, style, node, path[depth..], value, keepExisting)
    {
      var matches := Matching(node.members.value, path[depth]);
      if |matches| > 1 { return None; }
      if matches == [] {
        var inserted := InsertMember(text, style, node, path[depth..], value);
        return Some(inserted);
      }
      var found := matches[0];
      if depth == |path| - 1 {
        return Some(if keepExisting then text else Replace(text, style, node, found, value));
      }
      if found.value.members.None? { return None; }
      assert path[depth..][1..] == path[depth + 1..];
      node := found.value;
    }
    return None;
  }
}
