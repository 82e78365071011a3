/** Where an added member stands in a file as it is written: below a line's comments, indented as its siblings are. */
module Placing {
  import opened Units
  import opened Trivia
  import opened Json
  import opened Syntax
  import opened Nodes
  import opened Editor
  import opened TreeEdits
  import opened Layout
  import opened Inserts
  import opened Appends
  import opened Commutes
  import opened Documents
  import opened Lines
  import opened Settled
  import Twice

  // ----- A line and its indentation -----

  /** What stands before an offset: whole lines, the indentation of its own line, and the rest of that line so far. */
  datatype Line = Line(above: Text, indent: Text, more: Text)

  function Shown(line: Line): Text {
    line.above + line.indent + line.more
  }

  predicate IsLine(line: Line) {
    && (line.above == [] || line.above[|line.above| - 1] == LF)
    && IsIndent(line.indent) && LF !in line.more
    && (line.more == [] || (line.more[0] != SPACE && line.more[0] != TAB))
  }

  lemma {:induction false} LineStartAt(above: Text, line: Text, rest: Text, k: nat)
    requires above == [] || above[|above| - 1] == LF
    requires LF !in line && k <= |line|
    ensures LineStart(above + line + rest, |above| + k) == |above|
  {
    var text := above + line + rest;
    if k > 0 {
      assert text[|above| + k - 1] == line[k - 1];
      LineStartAt(above, line, rest, k - 1);
    } else if above != [] {
      assert text[|above| - 1] == above[|above| - 1];
    }
  }

  lemma {:induction false} IndentRun(indent: Text, more: Text, at: nat)
    requires IsIndent(indent) && at <= |indent| && (more == [] || (more[0] != SPACE && more[0] != TAB))
    ensures IndentLen(indent + more, at) == |indent| - at
    decreases |indent| - at
  {
    if at < |indent| {
      assert (indent + more)[at] == indent[at];
      IndentRun(indent, more, at + 1);
    } else if more != [] {
      assert (indent + more)[at] == more[0];
    }
  }

  /** The indentation found is the one written, and the line starts with what follows exactly when nothing else is on it. */
  lemma LineIs(line: Line, rest: Text)
    requires IsLine(line)
    ensures var text, at := Shown(line) + rest, |Shown(line)|;
      && LineIndent(text, at) == line.indent
      && (StartsLine(text, at) <==> IsSpaces(line.indent + line.more))
  {
    hide IndentLen, LineStart, IsSpaces, Slice;
    var own := line.indent + line.more;
    assert LF !in own;
    Assoc(line.above, line.indent, line.more);
    LineStartAt(line.above, own, rest, |own|);
    SliceMiddle(line.above, own, rest);
    IndentRun(line.indent, line.more, 0);
    assert own[..|line.indent|] == line.indent;
  }

  lemma SliceMiddle(a: Text, b: Text, c: Text)
    ensures Slice(a + b + c, |a|, |a| + |b|) == b
  {
    var text := a + b + c;
    assert text[|a|..|a| + |b|] == b;
  }

  // ----- What follows the last member on its line -----

  /** A blank, or a comment between slash-star and star-slash. */
  datatype Part = Blank(unit: Unit) | Block(words: Text)

  /** Blanks and whole comments, and perhaps a comment to the end of the line. */
  datatype Trail = Trail(parts: seq<Part>, remark: Option<Text>)

  function PartText(part: Part): Text {
    match part
    case Blank(unit) => [unit]
    case Block(words) => [SLASH, STAR] + words + [STAR, SLASH]
  }

  function PartsText(parts: seq<Part>): Text {
    if parts == [] then [] else PartText(parts[0]) + PartsText(parts[1..])
  }

  function RemarkText(remark: Option<Text>): Text {
    match remark case None => [] case Some(words) => [SLASH, SLASH] + words
  }

  function TrailText(trail: Trail): Text {
    PartsText(trail.parts) + RemarkText(trail.remark)
  }

  predicate IsPart(part: Part) {
    match part
    case Blank(unit) => unit == SPACE || unit == TAB
    case Block(words) =>
      && LF !in words && (words == [] || words[0] != SLASH)
      && forall i :: 0 <= i < |words| - 1 ==> words[i] != STAR || words[i + 1] != SLASH
  }

  predicate IsTrail(trail: Trail) {
    && (forall i :: 0 <= i < |trail.parts| ==> IsPart(trail.parts[i]))
    && (trail.remark.Some? ==>
          var words := trail.remark.value; LF !in words && (words == [] || words[|words| - 1] != CR))
  }

  lemma {:induction false} NoneBefore(text: Text, from: nat, at: nat)
    requires from <= at && at + 2 <= |text| && text[at] == STAR && text[at + 1] == SLASH
    requires forall i :: from <= i < at ==> text[i] != STAR || text[i + 1] != SLASH
    ensures CloseFrom(text, from) == Some(at)
    decreases at - from
  {
    if from < at {
      NoneBefore(text, from + 1, at);
    }
  }

  lemma BlockCloses(p: Text, words: Text, rest: Text)
    requires IsPart(Block(words))
    ensures CloseFrom(p + PartText(Block(words)) + rest, |p|) == Some(|p| + 2 + |words|)
  {
    var text, at := p + PartText(Block(words)) + rest, |p| + 2 + |words|;
    assert forall i :: 0 <= i < |words| ==> text[|p| + 2 + i] == words[i];
    assert text[|p|] == SLASH && text[|p| + 1] == STAR && text[at] == STAR && text[at + 1] == SLASH;
    forall i | |p| <= i < at
      ensures text[i] != STAR || text[i + 1] != SLASH
    {
      if i >= |p| + 2 {
        assert text[i] == words[i - |p| - 2];
      }
    }
    NoneBefore(text, |p|, at);
  }

  lemma BlankStep(text: Text, from: nat, at: nat)
    requires from <= at < |text| && (text[at] == SPACE || text[at] == TAB)
    ensures TriviaLineEnd(text, from, at) == TriviaLineEnd(text, from, at + 1)
  {
    hide CloseFrom, LineStop, StartsWith2;
    assert IndentLen(text, at) == 1 + IndentLen(text, at + 1);
    assert at + IndentLen(text, at) == at + 1 + IndentLen(text, at + 1);
  }

  lemma BlockStep(text: Text, from: nat, at: nat, close: nat)
    requires from <= at && at + 2 <= |text| && text[at] == SLASH && text[at + 1] == STAR
    requires CloseFrom(text, at) == Some(close) && LF !in text[at..close]
    ensures TriviaLineEnd(text, from, at) == TriviaLineEnd(text, from, close + 2)
  {
    hide CloseFrom, LineStop;
    assert IndentLen(text, at) == 0;
    assert text[at..][0] == SLASH && text[at..][1] == STAR;
  }

  lemma RemarkStep(text: Text, from: nat, at: nat, end: nat)
    requires from <= at && at + 2 <= end < |text| && text[at] == SLASH && text[at + 1] == SLASH
    requires LF !in text[at..end] && text[end] == LF
    ensures TriviaLineEnd(text, from, at) == LineStop(text, from, end)
  {
    hide LineStop, CloseFrom;
    assert IndentLen(text, at) == 0;
    assert text[at..][0] == SLASH && text[at..][1] == SLASH;
    assert text[at..] == text[at..end] + text[end..];
    FindIn(text[at..end], text[end..], LF);
    assert text[end..][0] == LF;
  }

  lemma PlainStep(text: Text, from: nat, at: nat)
    requires from <= at < |text| && (text[at] == CR || text[at] == LF)
    ensures TriviaLineEnd(text, from, at) == LineStop(text, from, at)
  {
    assert text[at..][0] == text[at];
  }

  lemma BlockOpens(p: Text, words: Text, rest: Text)
    requires LF !in words
    ensures var text := p + PartText(Block(words)) + rest;
      && text[|p|] == SLASH && text[|p| + 1] == STAR
      && LF !in text[|p|..|p| + 2 + |words|]
  {
    var text := p + PartText(Block(words)) + rest;
    assert text == p + ([SLASH, STAR] + words) + ([STAR, SLASH] + rest);
    Halves(p, [SLASH, STAR] + words);
    assert text[|p|..|p| + 2 + |words|] == [SLASH, STAR] + words;
  }

  lemma PartStep(p: Text, part: Part, rest: Text, from: nat)
    requires from <= |p| && IsPart(part)
    ensures var text := p + PartText(part) + rest;
      TriviaLineEnd(text, from, |p|) == TriviaLineEnd(text, from, |p| + |PartText(part)|)
  {
    hide TriviaLineEnd, CloseFrom;
    var text := p + PartText(part) + rest;
    if part.Blank? {
      assert text[|p|] == part.unit;
      BlankStep(text, from, |p|);
    } else {
      BlockCloses(p, part.words, rest);
      BlockOpens(p, part.words, rest);
      BlockStep(text, from, |p|, |p| + 2 + |part.words|);
    }
  }

  lemma {:induction false} PartsStep(p: Text, parts: seq<Part>, rest: Text, from: nat)
    requires from <= |p| && forall i :: 0 <= i < |parts| ==> IsPart(parts[i])
    ensures var text := p + PartsText(parts) + rest;
      TriviaLineEnd(text, from, |p|) == TriviaLineEnd(text, from, |p| + |PartsText(parts)|)
    decreases |parts|
  {
    hide TriviaLineEnd, PartText, IsPart;
    if parts != [] {
      var one, more := PartText(parts[0]), PartsText(parts[1..]);
      Assoc(p, one, more);
      Assoc(p + one, more, rest);
      PartStep(p, parts[0], more + rest, from);
      PartsStep(p + one, parts[1..], rest, from);
    }
  }

  predicate IsBreak(brk: Text) {
    brk == [LF] || brk == [CR, LF]
  }

  lemma {:induction false} PartsEnd(parts: seq<Part>)
    requires forall i :: 0 <= i < |parts| ==> IsPart(parts[i])
    ensures LF !in PartsText(parts)
    ensures PartsText(parts) == [] || PartsText(parts)[|PartsText(parts)| - 1] != CR
  {
    if parts != [] {
      PartsEnd(parts[1..]);
      assert IsPart(parts[0]);
    }
  }

  lemma StopHere(p: Text, a: Text, brk: Text, rest: Text)
    requires IsBreak(brk) && (p + a != [] ==> (p + a)[|p + a| - 1] != CR)
    ensures LineStop(p + a + brk + rest, |p|, |p| + |a|) == |p| + |a|
    ensures brk == [CR, LF] ==> LineStop(p + a + brk + rest, |p|, |p| + |a| + 1) == |p| + |a|
  {
    var text := p + a + brk + rest;
    assert text == (p + a) + (brk + rest);
    assert text[|p| + |a|] == brk[0];
    if brk == [CR, LF] {
      assert text[|p| + |a| + 1] == LF;
    } else if p + a != [] {
      assert text[|p| + |a| - 1] == (p + a)[|p + a| - 1];
    }
  }

  /** The line after a value is found to end where its trail does, in front of the line break. */
  lemma TrailEnds(p: Text, trail: Trail, brk: Text, rest: Text)
    requires IsTrail(trail) && IsBreak(brk) && (p != [] ==> p[|p| - 1] != CR)
    ensures var a := TrailText(trail); TriviaLineEnd(p + a + brk + rest, |p|, |p|) == |p| + |a|
  {
    hide TriviaLineEnd, LineStop, PartsText, IsPart, IsTrail;
    NoReturn(p, trail);
    StopHere(p, TrailText(trail), brk, rest);
    PastParts(p, trail, brk, rest);
    var parts := PartsText(trail.parts);
    if trail.remark.Some? {
      TrailParts(trail);
      RemarkThere(p, parts, trail.remark.value, brk, rest);
    } else {
      assert parts + [] == parts;
      PlainThere(p, parts, brk, rest);
    }
  }

  lemma PastParts(p: Text, trail: Trail, brk: Text, rest: Text)
    requires IsTrail(trail)
    ensures var text := p + TrailText(trail) + brk + rest;
      TriviaLineEnd(text, |p|, |p|) == TriviaLineEnd(text, |p|, |p| + |PartsText(trail.parts)|)
  {
    hide TriviaLineEnd, PartsText, IsPart, IsTrail, RemarkText;
    TrailParts(trail);
    TrailText5(p, PartsText(trail.parts), RemarkText(trail.remark), brk, rest);
    PartsStep(p, trail.parts, RemarkText(trail.remark) + brk + rest, |p|);
  }

  lemma RemarkThere(p: Text, parts: Text, words: Text, brk: Text, rest: Text)
    requires LF !in words && IsBreak(brk)
    ensures var a := parts + ([SLASH, SLASH] + words); var text := p + a + brk + rest;
      TriviaLineEnd(text, |p|, |p| + |parts|) == LineStop(text, |p|, |p| + |a| + |brk| - 1)
  {
    hide TriviaLineEnd, LineStop, IsBreak;
    TrailText5(p, parts, [SLASH, SLASH] + words, brk, rest);
    RemarkEnds(p + parts, words, brk, rest, |p|);
  }

  lemma PlainThere(p: Text, parts: Text, brk: Text, rest: Text)
    requires IsBreak(brk)
    ensures var text := p + parts + brk + rest;
      TriviaLineEnd(text, |p|, |p| + |parts|) == LineStop(text, |p|, |p| + |parts|)
  {
    hide TriviaLineEnd, LineStop, IsBreak;
    BreakThere(p + parts, brk, rest);
    PlainStep(p + parts + brk + rest, |p|, |p| + |parts|);
  }

  lemma TrailParts(trail: Trail)
    requires IsTrail(trail)
    ensures forall i :: 0 <= i < |trail.parts| ==> IsPart(trail.parts[i])
    ensures trail.remark.Some? ==> LF !in trail.remark.value
  {
    hide IsPart;
  }

  lemma TrailText5(p: Text, parts: Text, remark: Text, brk: Text, rest: Text)
    ensures p + (parts + remark) + brk + rest == p + parts + (remark + brk + rest)
    ensures p + (parts + remark) + brk + rest == p + parts + remark + brk + rest
  {
  }

  lemma BreakThere(q: Text, brk: Text, rest: Text)
    requires IsBreak(brk)
    ensures |q| < |q + brk + rest| && (q + brk + rest)[|q|] == brk[0] && (brk[0] == CR || brk[0] == LF) && |brk| <= 2
  {
  }

  lemma NoReturn(p: Text, trail: Trail)
    requires IsTrail(trail) && (p != [] ==> p[|p| - 1] != CR)
    ensures var all := p + TrailText(trail); all != [] ==> all[|all| - 1] != CR
  {
    hide PartsText, IsPart;
    PartsEnd(trail.parts);
    var a := TrailText(trail);
    assert p + a != [] ==> (p + a)[|p + a| - 1] == if a != [] then a[|a| - 1] else p[|p| - 1];
  }

  lemma RemarkEnds(q: Text, words: Text, brk: Text, rest: Text, from: nat)
    requires from <= |q| && LF !in words && IsBreak(brk)
    ensures var remark := [SLASH, SLASH] + words; var text := q + remark + brk + rest;
      TriviaLineEnd(text, from, |q|) == LineStop(text, from, |q| + |remark| + |brk| - 1)
  {
    hide TriviaLineEnd, LineStop;
    var remark := [SLASH, SLASH] + words;
    var text := q + remark + brk + rest;
    var end := |q| + |remark| + |brk| - 1;
    assert text[|q|] == SLASH && text[|q| + 1] == SLASH && text[end] == LF;
    assert text[|q|..end] == remark + brk[..|brk| - 1];
    RemarkStep(text, from, |q|, end);
  }

  // ----- A member added after the last one -----

  /** The indentation an added member gets: that of a last member which starts its line, or one step more than its object's line. */
  function Indented(style: Style, own: Line, last: Line): Text {
    if IsSpaces(last.indent + last.more) then last.indent else own.indent + style.unit
  }

  /** An object on more lines than one, written up to what follows its last member, the line that starts at its brace, and that at its last key. */
  ghost predicate IsWritten(text: Text, node: Node, own: Line, last: Line) {
    && node.members.Some? && node.members.value != []
    && LF in Slice(text, node.start, node.end)
    && IsLine(own) && IsLine(last)
    && Shown(own) <= text && |Shown(own)| == node.start
    && Shown(last) <= text && |Shown(last)| == node.members.value[|node.members.value| - 1].keyStart
  }

  lemma IndentedIs(text: Text, style: Style, node: Node, own: Line, last: Line)
    requires IsWritten(text, node, own, last)
    ensures LastIndent(text, style, node) == Indented(style, own, last)
  {
    hide LineIndent, StartsLine, IsLine, Shown;
    LineIs(own, text[|Shown(own)|..]);
    LineIs(last, text[|Shown(last)|..]);
    assert text == Shown(own) + text[|Shown(own)|..];
    assert text == Shown(last) + text[|Shown(last)|..];
  }

  /**
   * A member goes below the line of the old last one: that keeps what follows it on its line, its comments, and gains the
   * comma it lacked; the new one takes a line of its own, indented as said, and a comma only where the old one had one.
   */
  lemma GoesBelow(text: Text, style: Style, node: Node, key: Text, data: Json, own: Line, last: Line, p: Text, trail: Trail, brk: Text, rest: Text)
    requires IsWritten(text, node, own, last) && IsTrail(trail) && IsBreak(brk)
    requires text == p + TrailText(trail) + brk + rest && |p| == Anchor(node) && p != [] && p[|p| - 1] != CR
    ensures var indent := Indented(style, own, last);
      var member := WrittenMember(key, ReplaceLines(Pretty(data, style.unit), style.eol + indent));
      InsertLast(text, style, node, key, data) ==
        p + (if node.trailingComma.None? then [COMMA] else []) + TrailText(trail)
        + style.eol + indent + member + (if node.trailingComma.None? then [] else [COMMA]) + brk + rest
  {
    hide TriviaLineEnd, LastIndent, Anchor, IsTrail, TrailText, WrittenMember, ReplaceLines, InsertLast, IsLine, Shown, Splice, Slice, Indented;
    var a, indent := TrailText(trail), Indented(style, own, last);
    TrailEnds(p, trail, brk, rest);
    IndentedIs(text, style, node, own, last);
    Assoc(p, a, brk);
    Assoc(p, a + brk, rest);
    Assoc(a, brk, rest);
    SplicedParts(text, style, node, key, data, p, a, brk + rest);
    var member := WrittenMember(key, ReplaceLines(Pretty(data, style.unit), style.eol + indent));
    var comma, end := if node.trailingComma.None? then [COMMA] else [], if node.trailingComma.None? then [] else [COMMA];
    Strung(p + comma + a, style.eol, indent, member, end, brk, rest);
  }

  lemma Strung(front: Text, eol: Text, indent: Text, member: Text, end: Text, brk: Text, rest: Text)
    ensures front + (eol + indent + member + end) + (brk + rest) == front + eol + indent + member + end + brk + rest
  {
    Assoc(front, eol + indent + member, end);
    Assoc(front, eol + indent, member);
    Assoc(front, eol, indent);
    Assoc(front + eol + indent + member + end, brk, rest);
  }

  /** In an object on one line it follows the last member, or its comma, and a space. */
  lemma GoesBeside(text: Text, style: Style, node: Node, key: Text, data: Json, p: Text, rest: Text)
    requires node.members.Some? && node.members.value != [] && LF !in Slice(text, node.start, node.end)
    requires text == p + rest && |p| == Anchor(node)
    ensures InsertLast(text, style, node, key, data) ==
      p + (if node.trailingComma.None? then [COMMA] else []) + [SPACE] + WrittenMember(key, Compact(data))
      + (if node.trailingComma.None? then [] else [COMMA]) + rest
  {
    hide TriviaLineEnd, LastIndent, Anchor, WrittenMember, InsertLast, Splice, Slice, Compact;
    assert [] + rest == rest;
    SplicedParts(text, style, node, key, data, p, [], rest);
    var comma, end := if node.trailingComma.None? then [COMMA] else [], if node.trailingComma.None? then [] else [COMMA];
    assert p + comma + [] == p + comma;
    Assoc(p + comma, [SPACE] + WrittenMember(key, Compact(data)), end);
    Assoc(p + comma, [SPACE], WrittenMember(key, Compact(data)));
  }

  // ----- A first member -----

  /**
   * A first member takes the place of the blanks in an empty object; among comments it goes above the brace's own line, or
   * else before the brace; each time on a line of its own, indented one step more than the object's line.
   */
  lemma GoesFirst(a: Text, head: Text, z: Text, style: Style, node: Node, key: Text, data: Json, own: Line, above: Text, below: Text)
    requires a == Shown(own) + [LBRACE] && IsLine(own) && |Shown(own)| == node.start && node.end == |a| + |head| + 1
    requires head == above + below && LF !in below && (above == [] || above[|above| - 1] == LF)
    ensures var indent := own.indent + style.unit;
      var member := WrittenMember(key, ReplaceLines(Pretty(data, style.unit), style.eol + indent));
      InsertFirst(a + head + z, style, node, key, data) ==
        if IsSpaces(head) then a + style.eol + indent + member + style.eol + own.indent + z
        else if above != [] && IsSpaces(below) then a + above + indent + member + style.eol + below + z
        else a + head + style.eol + indent + member + style.eol + own.indent + z
  {
    hide LineIndent, LineStart, IsSpaces, WrittenMember, ReplaceLines, Splice, Slice, IsLine, Shown, IsSpace, Pretty, StartsLine;
    var text, close := a + head + z, |a| + |head|;
    var indent := own.indent + style.unit;
    var member := WrittenMember(key, ReplaceLines(Pretty(data, style.unit), style.eol + indent));
    OwnIndent(a, head, z, own);
    SliceAt(a, head, z);
    if IsSpaces(head) {
      SpliceAt(a, head, z, style.eol + indent + member + style.eol + own.indent);
      Strung5(a, style.eol, indent, member, style.eol, own.indent);
    } else if above != [] {
      BraceOnLine(a, above, below, z);
      SpliceIn(a + above, below + z, indent + member + style.eol);
      Assoc(a, above, below);
      Assoc(a + above, below, z);
      Strung4(a + above, indent, member, style.eol, below, z);
      if !IsSpaces(below) {
        SpliceIn(a + head, z, style.eol + indent + member + style.eol + own.indent);
        Strung5(a + head, style.eol, indent, member, style.eol, own.indent);
      }
    } else {
      NoLine(a, head, z);
      SpliceIn(a + head, z, style.eol + indent + member + style.eol + own.indent);
      Strung5(a + head, style.eol, indent, member, style.eol, own.indent);
    }
  }

  lemma OwnIndent(a: Text, head: Text, z: Text, own: Line)
    requires a == Shown(own) + [LBRACE] && IsLine(own)
    ensures LineIndent(a + head + z, |Shown(own)|) == own.indent
  {
    hide LineIndent, IsLine, Shown, StartsLine;
    Assoc(Shown(own), [LBRACE], head);
    Assoc(Shown(own), [LBRACE] + head, z);
    LineIs(own, [LBRACE] + head + z);
  }

  lemma Strung5(front: Text, a: Text, b: Text, c: Text, d: Text, e: Text)
    ensures front + (a + b + c + d + e) == front + a + b + c + d + e
  {
    Assoc(front, a + b + c + d, e);
    Assoc(front, a + b + c, d);
    Assoc(front, a + b, c);
    Assoc(front, a, b);
  }

  lemma Strung4(front: Text, a: Text, b: Text, c: Text, below: Text, z: Text)
    ensures front + (a + b + c) + (below + z) == front + a + b + c + below + z
  {
    Assoc(front, a + b, c);
    Assoc(front, a, b);
    Assoc(front + a + b + c, below, z);
  }

  lemma BraceOnLine(a: Text, above: Text, below: Text, z: Text)
    requires above != [] && above[|above| - 1] == LF && LF !in below
    ensures var text, close := a + (above + below) + z, |a| + |above + below|;
      LineStart(text, close) == |a| + |above| && (StartsLine(text, close) <==> IsSpaces(below))
  {
    Assoc(a, above, below);
    LineStartAt(a + above, below, z, |below|);
    var text := a + above + below + z;
    assert Slice(text, |a| + |above|, |a| + |above| + |below|) == below;
  }

  lemma NoLine(a: Text, head: Text, z: Text)
    requires a != [] && a[|a| - 1] == LBRACE && LF !in head
    ensures !StartsLine(a + head + z, |a| + |head|)
  {
    hide StartsLine, LineStart;
    var front := a[..|a| - 1];
    assert a == front + [LBRACE];
    LinePrefix(a + head, z, |a| + |head|);
    StartOfOne(head);
    TokenOnLine(front, LBRACE, head);
  }

  lemma StartOfOne(line: Text)
    requires LF !in line
    ensures LineStart(line, |line|) == 0
  {
    hide LineStart;
    LineStartAt([], line, [], |line|);
    assert [] + line + [] == line;
  }

  // ----- Whole files -----

  /** The deepest object there is on the way of `path`, and the steps that are missing from it on. */
  datatype Place = Place(node: Node, steps: seq<Text>)

  function PlaceOf(node: Node, path: seq<Text>): (place: Option<Place>)
    ensures place.Some? ==> place.value.node.members.Some? && place.value.steps != []
    decreases |path|
  {
    if path == [] || node.members.None? then None
    else
      var matches := Matching(node.members.value, path[0]);
      if matches == [] then Some(Place(node, path))
      else if |matches| > 1 then None
      else PlaceOf(matches[0].value, path[1..])
  }

  /** A missing member is inserted into the deepest object there is, wrapped in what is missing of the path. */
  lemma {:induction false} InsertsThere(text: Text, style: Style, node: Node, path: seq<Text>, value: Json, keep: bool)
    requires PlaceOf(node, path).Some?
    ensures var place := PlaceOf(node, path).value;
      && node.members.Some?
      && UpsertIn(text, style, node, path, value, keep) == Some(Insert(text, style, place.node, place.steps, value))
    decreases |path|
  {
    hide Insert, Replace, Matching;
    var matches := Matching(node.members.value, path[0]);
    if matches != [] {
      InsertsThere(text, style, matches[0].value, path[1..], value, keep);
    }
  }

  /** The object there, in the text. */
  lemma {:induction false} PlaceInTree(pre: Text, tree: Tree, post: Text, path: seq<Text>) returns (pre': Text, inner: Tree, post': Text)
    requires Formed(tree) && PlaceOf(NodeOf(tree, |pre|), path).Some?
    ensures Formed(inner) && inner.Branch? && inner.braces
    ensures pre + Show(tree) + post == pre' + Show(inner) + post'
    ensures PlaceOf(NodeOf(tree, |pre|), path).value.node == NodeOf(inner, |pre'|)
    decreases |path|
  {
    hide Show, Formed, NodeOf, KeyOf, IndexOf, Matching, BeforeValue, AfterValue;
    ObjectOnly(tree, |pre|);
    MatchingOf(tree, |pre|, path[0]);
    if Times(tree.elems, path[0]) == 0 {
      pre', inner, post' := pre, tree, post;
    } else {
      FoundAt(tree, pre, path[0]);
      var i := IndexOf(tree.elems, path[0]);
      BranchFormed(tree.head, tree.elems);
      InnerFormed(tree.elems, i, |BeforeValue(pre, tree.head, tree.elems, i)|);
      ValueInPlace(pre, tree.head, tree.elems, i, post);
      pre', inner, post' := PlaceInTree(
        BeforeValue(pre, tree.head, tree.elems, i), ElemAt(tree.elems, i).value, AfterValue(tree.elems, i, post), path[1..]);
    }
  }

  lemma ObjectOnly(tree: Tree, at: nat)
    ensures NodeOf(tree, at).members.Some? ==> tree.Branch? && tree.braces
  {
  }

  /** Before what follows a last member there is its value or a comma. */
  lemma AnchorFollows(text: Text, root: Node, path: seq<Text>)
    requires ParseSpec(text) == Some(root) && PlaceOf(root, path).Some? && PlaceOf(root, path).value.node.members.value != []
    ensures var node := PlaceOf(root, path).value.node; 0 < Anchor(node) <= |text| && text[Anchor(node) - 1] > SPACE
  {
    hide Show, Formed, ReadDocument, NodeOf, Anchor, PlaceOf, UpToTrivia, LastTrivia, IsOpening, IsEnding;
    var d := ReadDocument(text).value;
    DocumentIs(text, d);
    var pre, inner, post := PlaceInTree(text[..d.start], d.tree, text[d.start + |Show(d.tree)|..], path);
    HasMembers(inner, |pre|);
    AnchorIs(pre, inner.head, inner.elems);
    LastFormed(inner.head, inner.elems);
    UpToTriviaEnds(pre, inner.head, inner.elems);
    ObjectText(pre, inner.head, inner.elems, post);
  }

  lemma HasMembers(tree: Tree, at: nat)
    requires tree.Branch? && tree.braces && NodeOf(tree, at).members != Some([])
    ensures tree.elems.More?
  {
  }

  /**
   * What a file becomes that an edit adds a member to, below the line the last member of its object ends on: everything stays,
   * in its order, but for the comma and the line that are put in.
   */
  lemma AddedBelow(text: Text, path: seq<Text>, value: Json, keep: bool, own: Line, last: Line, p: Text, trail: Trail, brk: Text, rest: Text)
    requires ParseSpec(text).Some? && PlaceOf(ParseSpec(text).value, path).Some?
    requires IsWritten(text, PlaceOf(ParseSpec(text).value, path).value.node, own, last) && IsTrail(trail) && IsBreak(brk)
    requires text == p + TrailText(trail) + brk + rest && |p| == Anchor(PlaceOf(ParseSpec(text).value, path).value.node)
    ensures ParseSpec(text).value.members.Some?
    ensures var root := ParseSpec(text).value; var place := PlaceOf(root, path).value;
      var style := StyleOf(text, root);
      var indent, plain := Indented(style, own, last), place.node.trailingComma.None?;
      var member := WrittenMember(place.steps[0],
        ReplaceLines(Pretty(Wrapped(place.steps[1..], value), style.unit), style.eol + indent));
      Upsert(text, path, value, keep) == Some(
        p + (if plain then [COMMA] else []) + TrailText(trail)
        + style.eol + indent + member + (if plain then [] else [COMMA]) + brk + rest)
  {
    hide PlaceOf, IsTrail, TrailText, WrittenMember, ReplaceLines, InsertLast, InsertFirst, Anchor, ParseSpec, StyleOf, IsWritten, Indented, UpsertIn, Wrapped, Pretty;
    var root := ParseSpec(text).value;
    var place := PlaceOf(root, path).value;
    RootHas(root, path);
    var style := StyleOf(text, root);
    HasSome(text, place.node, own, last);
    AnchorFollows(text, root, path);
    assert text[|p| - 1] == p[|p| - 1] by { assert text == p + (TrailText(trail) + brk + rest); }
    InsertsThere(text, style, root, path, value, keep);
    GoesBelow(text, style, place.node, place.steps[0], Wrapped(place.steps[1..], value), own, last, p, trail, brk, rest);
  }

  lemma RootHas(root: Node, path: seq<Text>)
    requires PlaceOf(root, path).Some?
    ensures root.members.Some?
  {
  }

  lemma HasSome(text: Text, node: Node, own: Line, last: Line)
    requires IsWritten(text, node, own, last)
    ensures node.members.Some? && node.members.value != []
  {
  }

  // ----- A member that is there -----

  /** The member at the end of `path`, each step of it there once, and the object it is in. */
  datatype Held = Held(object_: Node, member: Member)

  function HeldAt(node: Node, path: seq<Text>): (held: Option<Held>)
    ensures held.Some? ==> node.members.Some?
    decreases |path|
  {
    if path == [] || node.members.None? then None
    else
      var matches := Matching(node.members.value, path[0]);
      if |matches| != 1 then None
      else if |path| == 1 then Some(Held(node, matches[0]))
      else HeldAt(matches[0].value, path[1..])
  }

  lemma {:induction false} StaysThere(text: Text, style: Style, node: Node, path: seq<Text>, value: Json, keep: bool)
    requires HeldAt(node, path).Some?
    ensures var held := HeldAt(node, path).value;
      && node.members.Some?
      && UpsertIn(text, style, node, path, value, keep)
           == Some(if keep then text else Replace(text, style, held.object_, held.member, value))
    decreases |path|
  {
    hide Insert, Replace, Matching;
    var matches := Matching(node.members.value, path[0]);
    if |path| > 1 {
      StaysThere(text, style, matches[0].value, path[1..], value, keep);
    }
  }

  /** A value that is there stays as it is, or has the new one written in its place: on one line where its object is, and otherwise indented as the line of its key. */
  lemma GoesInPlace(text: Text, path: seq<Text>, value: Json, keep: bool, own: Line, a: Text, was: Text, z: Text)
    requires ParseSpec(text).Some? && HeldAt(ParseSpec(text).value, path).Some?
    requires var member := HeldAt(ParseSpec(text).value, path).value.member;
      text == a + was + z && |a| == member.value.start && |a + was| == member.value.end
      && IsLine(own) && Shown(own) <= text && |Shown(own)| == member.keyStart
    ensures ParseSpec(text).value.members.Some?
    ensures var root := ParseSpec(text).value; var object_ := HeldAt(root, path).value.object_;
      var style := StyleOf(text, root);
      Upsert(text, path, value, keep) == Some(
        if keep then text
        else if LF !in Slice(text, object_.start, object_.end) then a + Compact(value) + z
        else a + ReplaceLines(Pretty(value, style.unit), style.eol + own.indent) + z)
  {
    hide HeldAt, ReplaceLines, ParseSpec, StyleOf, UpsertIn, Pretty, Compact, LineIndent, StartsLine, IsLine, Shown, Slice;
    var root := ParseSpec(text).value;
    StaysThere(text, StyleOf(text, root), root, path, value, keep);
    LineIs(own, text[|Shown(own)|..]);
    assert text == Shown(own) + text[|Shown(own)|..];
    assert text[..|a|] == a && text[|a + was|..] == z;
    assert Slice(text, 0, |a|) == a && Slice(text, |a + was|, |text|) == z by {
      SlicedEnds(a, was, z);
    }
  }

  lemma SlicedEnds(a: Text, b: Text, c: Text)
    ensures var text := a + b + c; Slice(text, 0, |a|) == a && Slice(text, |a + b|, |text|) == c
  {
    var text := a + b + c;
    assert text[0..|a|] == a;
    assert |c| > 0 ==> text[|a + b|..|text|] == c;
  }

  /** An edit goes through exactly when each step of its path is in an object and is there at most once. */
  lemma GoesThrough(text: Text, path: seq<Text>, value: Json, keep: bool)
    ensures Upsert(text, path, value, keep).Some? <==>
      ParseSpec(text).Some? && (PlaceOf(ParseSpec(text).value, path).Some? || HeldAt(ParseSpec(text).value, path).Some?)
  {
    hide ParseSpec, StyleOf, PlaceOf, HeldAt;
    if ParseSpec(text).Some? {
      var root := ParseSpec(text).value;
      if root.members.Some? {
        StepsAre(text, StyleOf(text, root), root, path, value, keep);
      } else {
        NoSteps(root, path);
      }
    }
  }

  lemma NoSteps(node: Node, path: seq<Text>)
    requires node.members.None?
    ensures PlaceOf(node, path).None? && HeldAt(node, path).None?
  {
  }

  lemma {:induction false} StepsAre(text: Text, style: Style, node: Node, path: seq<Text>, value: Json, keep: bool)
    requires node.members.Some?
    ensures UpsertIn(text, style, node, path, value, keep).Some? <==> PlaceOf(node, path).Some? || HeldAt(node, path).Some?
    decreases |path|
  {
    hide Insert, Replace, Matching;
    if path != [] {
      var matches := Matching(node.members.value, path[0]);
      if |matches| == 1 && |path| > 1 && matches[0].value.members.Some? {
        StepsAre(text, style, matches[0].value, path[1..], value, keep);
      } else if |matches| == 1 {
        assert |path| == 1 ==> path[1..] == [];
      }
    }
  }

  // ----- The style of a file -----

  /**
   * A file's first member that starts its line tells the indentation: what its line has more than the line of the brace, or
   * two spaces when that is nothing or no member starts its line. Its line ending is CRLF as soon as it has one.
   */
  lemma StyleWritten(pre: Text, tree: Tree, post: Text, own: Line, before: Text, indent: Text)
    requires Formed(tree) && tree.Branch? && tree.braces && tree.elems.More?
    requires Shown(own) == pre && IsLine(own)
    requires tree.head == before + [LF] + indent && IsIndent(indent)
    ensures var text := pre + Show(tree) + post;
      && NodeOf(tree, |pre|).members.Some?
      && var style := StyleOf(text, NodeOf(tree, |pre|));
      && style.eol == (if exists i :: 0 <= i < |text| - 1 && text[i] == CR && text[i + 1] == LF then [CR, LF] else [LF])
      && style.unit == if |indent| <= |own.indent| then [SPACE, SPACE] else indent[|own.indent|..]
  {
    hide Show, Formed, LineIndent, IsLine, Shown, GapStarts, NodeOf, StyleOf;
    Twice.StyleIs(pre, tree, post);
    IndentLine(before + [LF], indent);
    assert pre + [] == pre;
    LineIs(own, []);
  }

  /** Where no member of the root starts its line, an added one is indented two spaces. */
  lemma StylePlain(pre: Text, tree: Tree, post: Text)
    requires Formed(tree) && tree.Branch? && tree.braces && LF !in Show(tree)
    ensures NodeOf(tree, |pre|).members.Some? && StyleOf(pre + Show(tree) + post, NodeOf(tree, |pre|)).unit == [SPACE, SPACE]
  {
    hide Show, Formed, LineIndent, NodeOf, StyleOf;
    Twice.StyleIs(pre, tree, post);
    OneLineUnit(tree.head, tree.elems);
    assert LF !in tree.head + ShowElems(true, tree.elems) by { InShow(tree); }
  }

  lemma InShow(tree: Tree)
    requires tree.Branch? && LF !in Show(tree)
    ensures LF !in tree.head + ShowElems(tree.braces, tree.elems)
  {
  }

  lemma {:induction false} OneLineUnit(gap: Text, es: Elems)
    ensures LF !in gap + ShowElems(true, es) ==> UnitFrom(gap, es).None?
    decreases es
  {
    hide Show, ShowLead;
    if es.More? && LF !in gap + ShowElems(true, es) {
      assert forall u <- gap :: u in gap + ShowElems(true, es);
      NoStart(gap);
      var t := LastTrivia(es.elem.tail);
      if es.rest.More? {
        OneLineUnit(t, es.rest);
        assert forall u <- ShowElems(true, es.rest) :: u in gap + ShowElems(true, es);
        assert forall u <- t :: u in ShowTail(es.elem.tail);
        assert forall u <- ShowTail(es.elem.tail) :: u in ShowElem(es.elem);
        assert forall u <- ShowElem(es.elem) :: u in ShowElems(true, es);
        assert forall u <- ShowElems(true, es) :: u in gap + ShowElems(true, es);
      }
    }
  }

  lemma NoStart(gap: Text)
    requires LF !in gap
    ensures !GapStarts(gap)
  {
    assert [] + gap + [] == gap;
    LineStartAt([], gap, [], |gap|);
  }
}
